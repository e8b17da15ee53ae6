/** Choosing the elementary streams of a service by ordered filter rules, one list of rules
    for each class of streams (src/esfilter.h, elementary_set_filter_build in
    src/esstream.c). */
module EsFilter {
  datatype Caid = Caid(id: int, provider: int)

  /** What the filter looks at in a stream. */
  datatype Info = Info(typ: nat, pid: int, lang: string, caids: seq<Caid>)

  datatype Action = Nothing | Use | OneTime | Exclusive | Empty | Ignore

  /** A filter rule; the empty set, the empty string, 0 and the ANY constants do not
      restrict. */
  datatype Rule = Rule(enabled: bool, types: set<nat>, language: string, service: string, sindex: int, pid: int,
                       caid: int, provider: int, action: Action)

  const ANY_CAID: int := 0xFFFF
  const ANY_PROVIDER: int := 0xFFFF_FFFF

  const CLASS_VIDEO: nat := 1
  const CLASS_CA: nat := 5
  const CLASS_LAST: nat := 6

  /** The stream types of each class. */
  function Mask(c: nat): set<nat> {
    if c == 1 then {7, 9, 18, 20, 21, 22}
    else if c == 2 then {8, 10, 13, 16, 17, 19, 23, 24, 25}
    else if c == 3 then {11}
    else if c == 4 then {12, 15}
    else if c == 5 then {4}
    else if c == 6 then {5, 6, 14}
    else {}
  }

  lemma {:induction false} MasksDisjoint(c: nat, d: nat, t: nat)
    requires t in Mask(c) && t in Mask(d)
    ensures c == d && CLASS_VIDEO <= c <= CLASS_LAST
  {
  }

  // ---------------------------------------------------------------- matching

  /** The service, its streams and the rules of each class. */
  datatype Input = Input(service: string, streams: seq<Info>, rules: seq<seq<Rule>>)

  predicate Valid(x: Input) {
    |x.rules| == CLASS_LAST + 1
  }

  predicate InClass(x: Input, c: nat, j: nat) {
    j < |x.streams| && x.streams[j].typ in Mask(c)
  }

  predicate CaidMatches(rule: Rule, ca: Caid) {
    (rule.caid == ANY_CAID || ca.id == rule.caid) && (rule.provider == ANY_PROVIDER || ca.provider == rule.provider)
  }

  predicate PidMatches(rule: Rule, info: Info) {
    rule.pid == 0 || rule.pid == info.pid
  }

  /** The conditions of a rule but its class and its stream index; the pid of a rule outside
      the CA class counts only when the rule names a service. */
  predicate Meets(c: nat, rule: Rule, service: string, info: Info) {
    && (rule.types == {} || info.typ in rule.types)
    && (rule.language == "" || rule.language == info.lang)
    && (rule.service == "" || (rule.service == service && PidMatches(rule, info)))
    && (c == CLASS_CA ==>
          && PidMatches(rule, info)
          && ((rule.caid == ANY_CAID && rule.provider == ANY_PROVIDER)
              || exists k :: 0 <= k < |info.caids| && CaidMatches(rule, info.caids[k])))
  }

  predicate Matches(x: Input, c: nat, rule: Rule, j: nat) {
    InClass(x, c, j) && Meets(c, rule, x.service, x.streams[j])
  }

  /** How many of the first j streams match. */
  function MatchCount(x: Input, c: nat, rule: Rule, j: nat): nat {
    if j == 0 then 0 else MatchCount(x, c, rule, j - 1) + (if Matches(x, c, rule, j - 1) then 1 else 0)
  }

  /** The rule acts on stream j: it matches, as the sindex-th match if the rule says so. */
  predicate Hits(x: Input, c: nat, rule: Rule, j: nat) {
    Matches(x, c, rule, j) && (rule.sindex == 0 || rule.sindex == MatchCount(x, c, rule, j + 1))
  }

  // ---------------------------------------------------------------- what the loops do

  datatype Flags = Flags(used: bool, ignored: bool)

  /** The flags of the streams and the filtered list, as indices. */
  datatype Work = Work(flags: seq<Flags>, picked: seq<nat>)

  predicate Sized(x: Input, w: Work) {
    |w.flags| == |x.streams|
  }

  /** elementary_set_filter_build_add. */
  function Add(w: Work, j: nat): Work
    requires j < |w.flags|
  {
    if w.flags[j].used then w
    else Work(w.flags[j := w.flags[j].(used := true)], w.picked + [j])
  }

  function Mark(w: Work, j: nat): Work
    requires j < |w.flags|
  {
    w.(flags := w.flags[j := w.flags[j].(ignored := true)])
  }

  /** A stream that keeps a ONE_TIME rule from taking stream j. */
  predicate Spoils(x: Input, c: nat, rule: Rule, w: Work, j: nat, k: nat)
    requires Sized(x, w) && j < |x.streams|
  {
    && InClass(x, c, k) && w.flags[k].used
    && (c == CLASS_CA || (k != j && (rule.language == "" || x.streams[k].lang == x.streams[j].lang)))
  }

  predicate Spoiled(x: Input, c: nat, rule: Rule, w: Work, j: nat)
    requires Sized(x, w) && j < |x.streams|
  {
    exists k :: 0 <= k < |x.streams| && Spoils(x, c, rule, w, j, k)
  }

  /** An action other than EXCLUSIVE on stream j; `o` streams were picked for other classes. */
  function Act(x: Input, c: nat, rule: Rule, w: Work, o: nat, j: nat): (r: Work)
    requires Sized(x, w) && j < |x.streams|
    ensures Sized(x, r)
  {
    match rule.action
    case Nothing => w
    case Exclusive => w
    case Ignore => Mark(w, j)
    case OneTime => if Spoiled(x, c, rule, w, j) then Mark(w, j) else Add(w, j)
    case Use => Add(w, j)
    case Empty => if |w.picked| == o then Add(w, j) else w
  }

  /** EXCLUSIVE forgets what was picked for the class and picks stream j alone. */
  function Alone(w: Work, o: nat, j: nat): Work
    requires j < |w.flags| && o <= |w.picked|
  {
    Work(w.flags[j := Flags(true, false)], w.picked[..o] + [j])
  }

  datatype Outcome = Outcome(w: Work, exclusive: bool)

  /** One rule over the streams from the j-th on. */
  function OverStreams(x: Input, c: nat, rule: Rule, w: Work, o: nat, j: nat): (r: Outcome)
    requires Sized(x, w) && j <= |x.streams| && o <= |w.picked|
    ensures Sized(x, r.w) && o <= |r.w.picked|
    decreases |x.streams| - j
  {
    if j == |x.streams| then Outcome(w, false)
    else if !Hits(x, c, rule, j) then OverStreams(x, c, rule, w, o, j + 1)
    else if rule.action == Exclusive then Outcome(Alone(w, o, j), true)
    else OverStreams(x, c, rule, Act(x, c, rule, w, o, j), o, j + 1)
  }

  /** The rules of a class from the r-th on. */
  function OverRules(x: Input, c: nat, w: Work, o: nat, r: nat): (res: Outcome)
    requires Valid(x) && c <= CLASS_LAST && Sized(x, w) && r <= |x.rules[c]| && o <= |w.picked|
    ensures Sized(x, res.w) && o <= |res.w.picked|
    decreases |x.rules[c]| - r
  {
    if r == |x.rules[c]| then Outcome(w, false)
    else if !x.rules[c][r].enabled then OverRules(x, c, w, o, r + 1)
    else
      var one := OverStreams(x, c, x.rules[c][r], w, o, 0);
      if one.exclusive then one else OverRules(x, c, one.w, o, r + 1)
  }

  /** The streams of the class from the j-th on; in a class with rules, those that no rule
      has marked. */
  function AddRest(x: Input, c: nat, w: Work, j: nat): (r: Work)
    requires Valid(x) && c <= CLASS_LAST && Sized(x, w) && j <= |x.streams|
    ensures Sized(x, r)
    decreases |x.streams| - j
  {
    if j == |x.streams| then w
    else AddRest(x, c, if InClass(x, c, j) && Unmarked(x, c, w.flags[j]) then Add(w, j) else w, j + 1)
  }

  predicate Unmarked(x: Input, c: nat, f: Flags)
    requires Valid(x) && c <= CLASS_LAST
  {
    x.rules[c] == [] || (!f.used && !f.ignored)
  }

  function OneClass(x: Input, c: nat, w: Work): (r: Work)
    requires Valid(x) && c <= CLASS_LAST && Sized(x, w)
    ensures Sized(x, r)
  {
    if x.rules[c] == [] then AddRest(x, c, w, 0)
    else
      var res := OverRules(x, c, w, |w.picked|, 0);
      if res.exclusive then res.w else AddRest(x, c, res.w, 0)
  }

  /** The classes from the first up to and without the c-th. */
  function Classes(x: Input, c: nat): (w: Work)
    requires Valid(x) && CLASS_VIDEO <= c <= CLASS_LAST + 1
    ensures Sized(x, w)
  {
    if c == CLASS_VIDEO then Work(seq(|x.streams|, _ => Flags(false, false)), [])
    else OneClass(x, c - 1, Classes(x, c - 1))
  }

  predicate NoRules(x: Input)
    requires Valid(x)
  {
    forall c :: CLASS_VIDEO <= c <= CLASS_LAST ==> x.rules[c] == []
  }

  /** The filtered list. */
  function Build(x: Input): seq<nat>
    requires Valid(x)
  {
    if NoRules(x) then seq(|x.streams|, j => j) else Classes(x, CLASS_LAST + 1).picked
  }
}
