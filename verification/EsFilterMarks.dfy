/** What the rules of a class without an EXCLUSIVE hit mark, by what the rules say. */
module EsFilterMarks {
  import opened EsFilter
  import opened EsFilterLaws

  /** An enabled rule of the class from the r-th on with one of the actions hits stream j. */
  ghost predicate HitBy(x: Input, c: nat, r: nat, acts: set<Action>, j: nat)
    requires Valid(x) && c <= CLASS_LAST
  {
    exists q :: r <= q < |x.rules[c]| && RuleHits(x, c, q, acts, j)
  }

  predicate RuleHits(x: Input, c: nat, q: nat, acts: set<Action>, j: nat)
    requires Valid(x) && c <= CLASS_LAST && q < |x.rules[c]|
  {
    x.rules[c][q].enabled && x.rules[c][q].action in acts && Hits(x, c, x.rules[c][q], j)
  }

  /** Marks only come, and only from the actions that set them. */
  ghost predicate Marked(x: Input, c: nat, rule: Rule, f: seq<Flags>, g: seq<Flags>, j: nat, from: nat)
    requires j < |f| == |g|
  {
    var hit := from <= j && Hits(x, c, rule, j);
    && (f[j].used ==> g[j].used)
    && (f[j].ignored ==> g[j].ignored)
    && (g[j].used ==> f[j].used || (hit && rule.action in {Use, OneTime, Empty}))
    && (g[j].ignored ==> f[j].ignored || (hit && rule.action in {Ignore, OneTime}))
    && (hit && rule.action == Use ==> g[j].used)
    && (hit && rule.action == Ignore ==> g[j].ignored)
    && (hit && rule.action == OneTime ==> g[j].used || g[j].ignored)
  }

  lemma {:induction false} MarksOfRule(x: Input, c: nat, rule: Rule, w: Work, o: nat, from: nat, j: nat)
    requires Sized(x, w) && from <= |x.streams| && o <= |w.picked| && j < |x.streams|
    requires !OverStreams(x, c, rule, w, o, from).exclusive
    ensures Marked(x, c, rule, w.flags, OverStreams(x, c, rule, w, o, from).w.flags, j, from)
    decreases |x.streams| - from
  {
    if from < |x.streams| {
      if Hits(x, c, rule, from) {
        MarksOfRule(x, c, rule, Act(x, c, rule, w, o, from), o, from + 1, j);
      } else {
        MarksOfRule(x, c, rule, w, o, from + 1, j);
      }
    }
  }

  /** What the rules from the r-th on do to the marks of stream j. */
  ghost predicate MarkedBy(x: Input, c: nat, r: nat, f: Flags, g: Flags, j: nat)
    requires Valid(x) && c <= CLASS_LAST
  {
    && (f.used ==> g.used)
    && (f.ignored ==> g.ignored)
    && (g.used ==> f.used || HitBy(x, c, r, {Use, OneTime, Empty}, j))
    && (g.ignored ==> f.ignored || HitBy(x, c, r, {Ignore, OneTime}, j))
    && (HitBy(x, c, r, {Use}, j) ==> g.used)
    && (HitBy(x, c, r, {Ignore}, j) ==> g.ignored)
    && (HitBy(x, c, r, {OneTime}, j) ==> g.used || g.ignored)
  }

  lemma {:induction false} HitByNext(x: Input, c: nat, r: nat, acts: set<Action>, j: nat)
    requires Valid(x) && c <= CLASS_LAST && r < |x.rules[c]|
    ensures HitBy(x, c, r, acts, j) <==> RuleHits(x, c, r, acts, j) || HitBy(x, c, r + 1, acts, j)
  {
  }

  lemma {:induction false} MarksOfRules(x: Input, c: nat, w: Work, o: nat, r: nat, j: nat)
    requires Valid(x) && c <= CLASS_LAST && Sized(x, w) && r <= |x.rules[c]| && o <= |w.picked| && j < |x.streams|
    requires !OverRules(x, c, w, o, r).exclusive
    ensures MarkedBy(x, c, r, w.flags[j], OverRules(x, c, w, o, r).w.flags[j], j)
    decreases |x.rules[c]| - r
  {
    if r < |x.rules[c]| {
      HitByNext(x, c, r, {Use, OneTime, Empty}, j);
      HitByNext(x, c, r, {Ignore, OneTime}, j);
      HitByNext(x, c, r, {Use}, j);
      HitByNext(x, c, r, {Ignore}, j);
      HitByNext(x, c, r, {OneTime}, j);
      var rule := x.rules[c][r];
      if rule.enabled {
        var one := OverStreams(x, c, rule, w, o, 0);
        MarksOfRule(x, c, rule, w, o, 0, j);
        MarksOfRules(x, c, one.w, o, r + 1, j);
      } else {
        MarksOfRules(x, c, w, o, r + 1, j);
      }
    }
  }

  // ---------------------------------------------------------------- which hits pick a stream

  /** Pair (q, k) of a rule and a stream is visited before pair (r, j). */
  predicate Earlier(q: nat, k: nat, r: nat, j: nat) {
    q < r || (q == r && k < j)
  }

  /** Rule r picks stream j: by USE always, by EMPTY if no earlier pair picks, by ONE_TIME if
      no earlier pair picks a stream that it counts as the same. */
  ghost predicate Picks(x: Input, c: nat, r: nat, j: nat)
    requires Valid(x) && c <= CLASS_LAST
    decreases r, j
  {
    && r < |x.rules[c]| && RuleHits(x, c, r, {Use, OneTime, Empty}, j)
    && (x.rules[c][r].action == Empty ==>
          forall q: nat, k: nat :: Earlier(q, k, r, j) ==> !Picks(x, c, q, k))
    && (x.rules[c][r].action == OneTime ==>
          forall q: nat, k: nat :: Earlier(q, k, r, j) && SameFor(x, c, x.rules[c][r], j, k) ==> !Picks(x, c, q, k))
  }

  /** Stream k has been picked by a pair before (r, j). */
  ghost predicate PickedBefore(x: Input, c: nat, r: nat, j: nat, k: nat)
    requires Valid(x) && c <= CLASS_LAST
  {
    exists q: nat :: Earlier(q, k, r, j) && Picks(x, c, q, k)
  }

  /** Having stream k, a ONE_TIME rule does not take stream j. */
  predicate SameFor(x: Input, c: nat, rule: Rule, j: nat, k: nat) {
    && j < |x.streams| && InClass(x, c, k)
    && (c == CLASS_CA || (k != j && (rule.language == "" || x.streams[k].lang == x.streams[j].lang)))
  }

  ghost predicate SomePicked(x: Input, c: nat, r: nat, j: nat)
    requires Valid(x) && c <= CLASS_LAST
  {
    exists k: nat :: PickedBefore(x, c, r, j, k)
  }

  ghost predicate SamePicked(x: Input, c: nat, r: nat, j: nat)
    requires Valid(x) && c <= CLASS_LAST && r < |x.rules[c]|
  {
    exists k: nat :: PickedBefore(x, c, r, j, k) && SameFor(x, c, x.rules[c][r], j, k)
  }

  lemma {:induction false} SomePickedIs(x: Input, c: nat, r: nat, j: nat)
    requires Valid(x) && c <= CLASS_LAST
    ensures SomePicked(x, c, r, j) <==> exists q: nat, k: nat :: Earlier(q, k, r, j) && Picks(x, c, q, k)
  {
    if SomePicked(x, c, r, j) {
      var k: nat :| PickedBefore(x, c, r, j, k);
      var q: nat :| Earlier(q, k, r, j) && Picks(x, c, q, k);
    }
    if q: nat, k: nat :| Earlier(q, k, r, j) && Picks(x, c, q, k) {
      assert PickedBefore(x, c, r, j, k);
    }
  }

  lemma {:induction false} SamePickedIs(x: Input, c: nat, r: nat, j: nat)
    requires Valid(x) && c <= CLASS_LAST && r < |x.rules[c]|
    ensures SamePicked(x, c, r, j) <==>
      exists q: nat, k: nat :: Earlier(q, k, r, j) && SameFor(x, c, x.rules[c][r], j, k) && Picks(x, c, q, k)
  {
    if SamePicked(x, c, r, j) {
      var k: nat :| PickedBefore(x, c, r, j, k) && SameFor(x, c, x.rules[c][r], j, k);
      var q: nat :| Earlier(q, k, r, j) && Picks(x, c, q, k);
    }
    if q: nat, k: nat :| Earlier(q, k, r, j) && SameFor(x, c, x.rules[c][r], j, k) && Picks(x, c, q, k) {
      assert PickedBefore(x, c, r, j, k);
    }
  }

  lemma {:induction false} PicksIs(x: Input, c: nat, r: nat, j: nat)
    requires Valid(x) && c <= CLASS_LAST && r < |x.rules[c]|
    ensures Picks(x, c, r, j) <==>
      && RuleHits(x, c, r, {Use, OneTime, Empty}, j)
      && (x.rules[c][r].action == Empty ==> !SomePicked(x, c, r, j))
      && (x.rules[c][r].action == OneTime ==> !SamePicked(x, c, r, j))
  {
    SomePickedIs(x, c, r, j);
    SamePickedIs(x, c, r, j);
  }

  lemma {:induction false} PickedIsInClass(x: Input, c: nat, r: nat, j: nat, k: nat)
    requires Valid(x) && c <= CLASS_LAST && PickedBefore(x, c, r, j, k)
    ensures InClass(x, c, k)
  {
  }

  lemma {:induction false} PickedNext(x: Input, c: nat, r: nat, j: nat, k: nat)
    requires Valid(x) && c <= CLASS_LAST
    ensures PickedBefore(x, c, r, j + 1, k) <==> PickedBefore(x, c, r, j, k) || (k == j && Picks(x, c, r, j))
  {
    if PickedBefore(x, c, r, j + 1, k) {
      var q: nat :| Earlier(q, k, r, j + 1) && Picks(x, c, q, k);
      assert Earlier(q, k, r, j) || (q == r && k == j);
    }
    if PickedBefore(x, c, r, j, k) {
      var q: nat :| Earlier(q, k, r, j) && Picks(x, c, q, k);
      assert Earlier(q, k, r, j + 1);
    }
    if k == j && Picks(x, c, r, j) {
      assert Earlier(r, j, r, j + 1);
    }
  }

  lemma {:induction false} PickedNextRule(x: Input, c: nat, r: nat, k: nat)
    requires Valid(x) && c <= CLASS_LAST && k < |x.streams|
    ensures PickedBefore(x, c, r + 1, 0, k) <==> PickedBefore(x, c, r, |x.streams|, k)
  {
    if PickedBefore(x, c, r + 1, 0, k) {
      var q: nat :| Earlier(q, k, r + 1, 0) && Picks(x, c, q, k);
      assert Earlier(q, k, r, |x.streams|);
    }
    if PickedBefore(x, c, r, |x.streams|, k) {
      var q: nat :| Earlier(q, k, r, |x.streams|) && Picks(x, c, q, k);
      assert Earlier(q, k, r + 1, 0);
    }
  }

  lemma {:induction false} NothingPickedYet(x: Input, c: nat, k: nat)
    requires Valid(x) && c <= CLASS_LAST
    ensures !PickedBefore(x, c, 0, 0, k)
  {
  }

  /** The streams marked as used are those picked before pair (r, j). */
  ghost predicate UsedArePicks(x: Input, c: nat, w: Work, r: nat, j: nat)
    requires Valid(x) && c <= CLASS_LAST && Sized(x, w)
  {
    forall k: nat :: InClass(x, c, k) ==> (w.flags[k].used <==> PickedBefore(x, c, r, j, k))
  }

  lemma {:induction false} SpoiledIs(x: Input, c: nat, w: Work, r: nat, j: nat)
    requires Valid(x) && c <= CLASS_LAST && Sized(x, w) && r < |x.rules[c]| && j < |x.streams|
    requires UsedArePicks(x, c, w, r, j)
    ensures Spoiled(x, c, x.rules[c][r], w, j) <==> SamePicked(x, c, r, j)
  {
    var rule := x.rules[c][r];
    if k: nat :| PickedBefore(x, c, r, j, k) && SameFor(x, c, rule, j, k) {
      assert Spoils(x, c, rule, w, j, k);
    }
    if Spoiled(x, c, rule, w, j) {
      var k :| 0 <= k < |x.streams| && Spoils(x, c, rule, w, j, k);
      assert PickedBefore(x, c, r, j, k) && SameFor(x, c, rule, j, k);
    }
  }

  /** Nothing has been added for the class exactly when nothing has been picked. */
  lemma {:induction false} EmptyIs(x: Input, c: nat, w0: Work, w: Work, r: nat, j: nat)
    requires Valid(x) && c <= CLASS_LAST && Within(x, c, w0, w) && UsedArePicked(x, c, w0, w)
    requires UsedArePicks(x, c, w, r, j)
    ensures |w.picked| == |w0.picked| <==> !SomePicked(x, c, r, j)
  {
    if |w0.picked| < |w.picked| {
      var k := w.picked[|w0.picked|];
      assert InClass(x, c, k) && w.flags[k].used;
    }
    if k: nat :| PickedBefore(x, c, r, j, k) {
      PickedIsInClass(x, c, r, j, k);
      assert PickedFrom(w, |w0.picked|, k);
    }
  }

  /** An action other than EXCLUSIVE on stream j marks it as used exactly if it picks it. */
  lemma {:induction false} ActPicks(x: Input, c: nat, w0: Work, w: Work, r: nat, j: nat)
    requires Valid(x) && c <= CLASS_LAST && Within(x, c, w0, w) && UsedArePicked(x, c, w0, w)
    requires r < |x.rules[c]| && j < |x.streams| && UsedArePicks(x, c, w, r, j)
    requires x.rules[c][r].enabled && x.rules[c][r].action != Exclusive && Hits(x, c, x.rules[c][r], j)
    ensures Act(x, c, x.rules[c][r], w, |w0.picked|, j).flags[j].used <==> w.flags[j].used || Picks(x, c, r, j)
  {
    PicksIs(x, c, r, j);
    SpoiledIs(x, c, w, r, j);
    EmptyIs(x, c, w0, w, r, j);
  }

  lemma {:induction false} ActElsewhere(x: Input, c: nat, rule: Rule, w: Work, o: nat, j: nat, k: nat)
    requires Sized(x, w) && j < |x.streams| && k < |x.streams| && k != j
    ensures Act(x, c, rule, w, o, j).flags[k] == w.flags[k]
  {
  }

  lemma {:induction false} ActKeepsPicks(x: Input, c: nat, w0: Work, w: Work, r: nat, j: nat)
    requires Valid(x) && c <= CLASS_LAST && Within(x, c, w0, w) && UsedArePicked(x, c, w0, w)
    requires r < |x.rules[c]| && j < |x.streams| && UsedArePicks(x, c, w, r, j)
    requires x.rules[c][r].enabled && x.rules[c][r].action != Exclusive && Hits(x, c, x.rules[c][r], j)
    ensures UsedArePicks(x, c, Act(x, c, x.rules[c][r], w, |w0.picked|, j), r, j + 1)
  {
    ActPicks(x, c, w0, w, r, j);
    forall k: nat | InClass(x, c, k)
      ensures Act(x, c, x.rules[c][r], w, |w0.picked|, j).flags[k].used <==> PickedBefore(x, c, r, j + 1, k)
    {
      PickedNext(x, c, r, j, k);
      if k != j {
        ActElsewhere(x, c, x.rules[c][r], w, |w0.picked|, j, k);
      }
    }
  }

  lemma {:induction false} PassKeepsPicks(x: Input, c: nat, w: Work, r: nat, j: nat)
    requires Valid(x) && c <= CLASS_LAST && Sized(x, w) && UsedArePicks(x, c, w, r, j)
    requires r < |x.rules[c]| ==> !(x.rules[c][r].enabled && Hits(x, c, x.rules[c][r], j))
    ensures UsedArePicks(x, c, w, r, j + 1)
  {
    forall k: nat | InClass(x, c, k) ensures w.flags[k].used <==> PickedBefore(x, c, r, j + 1, k) {
      PickedNext(x, c, r, j, k);
    }
  }

  lemma {:induction false} PicksOfRule(x: Input, c: nat, w0: Work, w: Work, r: nat, j: nat)
    requires Valid(x) && c <= CLASS_LAST && Within(x, c, w0, w) && UsedArePicked(x, c, w0, w)
    requires r < |x.rules[c]| && x.rules[c][r].enabled && j <= |x.streams| && UsedArePicks(x, c, w, r, j)
    requires !OverStreams(x, c, x.rules[c][r], w, |w0.picked|, j).exclusive
    ensures UsedArePicks(x, c, OverStreams(x, c, x.rules[c][r], w, |w0.picked|, j).w, r, |x.streams|)
    decreases |x.streams| - j
  {
    if j < |x.streams| {
      var rule := x.rules[c][r];
      if Hits(x, c, rule, j) {
        ActKeepsPicks(x, c, w0, w, r, j);
        ActStaysWithin(x, c, rule, w0, w, j);
        PicksOfRule(x, c, w0, Act(x, c, rule, w, |w0.picked|, j), r, j + 1);
      } else {
        PassKeepsPicks(x, c, w, r, j);
        PicksOfRule(x, c, w0, w, r, j + 1);
      }
    }
  }

  /** A rule that is not enabled picks nothing. */
  lemma {:induction false} PassRule(x: Input, c: nat, w: Work, r: nat, j: nat)
    requires Valid(x) && c <= CLASS_LAST && Sized(x, w) && UsedArePicks(x, c, w, r, j) && j <= |x.streams|
    requires r < |x.rules[c]| && !x.rules[c][r].enabled
    ensures UsedArePicks(x, c, w, r, |x.streams|)
    decreases |x.streams| - j
  {
    if j < |x.streams| {
      PassKeepsPicks(x, c, w, r, j);
      PassRule(x, c, w, r, j + 1);
    }
  }

  lemma {:induction false} NextRule(x: Input, c: nat, w: Work, r: nat)
    requires Valid(x) && c <= CLASS_LAST && Sized(x, w) && UsedArePicks(x, c, w, r, |x.streams|)
    ensures UsedArePicks(x, c, w, r + 1, 0)
  {
    forall k: nat | InClass(x, c, k) ensures w.flags[k].used <==> PickedBefore(x, c, r + 1, 0, k) {
      PickedNextRule(x, c, r, k);
    }
  }

  lemma {:induction false} PicksOfRules(x: Input, c: nat, w0: Work, w: Work, r: nat)
    requires Valid(x) && c <= CLASS_LAST && Within(x, c, w0, w) && UsedArePicked(x, c, w0, w)
    requires r <= |x.rules[c]| && UsedArePicks(x, c, w, r, 0)
    requires !OverRules(x, c, w, |w0.picked|, r).exclusive
    ensures UsedArePicks(x, c, OverRules(x, c, w, |w0.picked|, r).w, |x.rules[c]|, 0)
    decreases |x.rules[c]| - r
  {
    if r < |x.rules[c]| {
      if x.rules[c][r].enabled {
        var one := OverStreams(x, c, x.rules[c][r], w, |w0.picked|, 0);
        PicksOfRule(x, c, w0, w, r, 0);
        OverStreamsIs(x, c, x.rules[c][r], w0, w, 0);
        NextRule(x, c, one.w, r);
        PicksOfRules(x, c, w0, one.w, r + 1);
      } else {
        PassRule(x, c, w, r, 0);
        NextRule(x, c, w, r);
        PicksOfRules(x, c, w0, w, r + 1);
      }
    }
  }

  // ---------------------------------------------------------------- what is selected

  ghost predicate Picked(x: Input, c: nat, j: nat)
    requires Valid(x) && c <= CLASS_LAST
  {
    exists r: nat :: r < |x.rules[c]| && Picks(x, c, r, j)
  }

  /** In a class with rules but no EXCLUSIVE hit a stream is selected exactly when some rule
      picks it, or neither IGNORE nor ONE_TIME hits it. */
  lemma {:induction false} SelectionByRules(x: Input, j: nat)
    requires Valid(x) && j < |x.streams| && ClassOf(x, j) <= CLASS_LAST
    requires var c := ClassOf(x, j); x.rules[c] != [] && !HasExclusive(x, c)
    ensures var c := ClassOf(x, j);
      j in Build(x) <==> Picked(x, c, j) || !HitBy(x, c, 0, {Ignore, OneTime}, j)
  {
    var c := ClassOf(x, j);
    assert !NoRules(x);
    ClassOfIs(x, c, j);
    BuildSelects(x, j);
    ClassesBefore(x, c);
    var w := Classes(x, c);
    StartIsWithin(x, c, w);
    OverRulesIs(x, c, w, w, 0);
    if OverRules(x, c, w, |w.picked|, 0).exclusive {
      ExclusivePicked(x, c, w, j);
    }
    MarksOfRules(x, c, w, |w.picked|, 0, j);
    HitByEither(x, c, j);
    RuleMarksUsed(x, c, w, j);
  }

  lemma {:induction false} HitByEither(x: Input, c: nat, j: nat)
    requires Valid(x) && c <= CLASS_LAST
    ensures HitBy(x, c, 0, {Ignore, OneTime}, j) <==> HitBy(x, c, 0, {Ignore}, j) || HitBy(x, c, 0, {OneTime}, j)
  {
    if HitBy(x, c, 0, {Ignore, OneTime}, j) {
      var q :| 0 <= q < |x.rules[c]| && RuleHits(x, c, q, {Ignore, OneTime}, j);
      assert RuleHits(x, c, q, {Ignore}, j) || RuleHits(x, c, q, {OneTime}, j);
    }
    if HitBy(x, c, 0, {Ignore}, j) {
      var q :| 0 <= q < |x.rules[c]| && RuleHits(x, c, q, {Ignore}, j);
      assert RuleHits(x, c, q, {Ignore, OneTime}, j);
    }
    if HitBy(x, c, 0, {OneTime}, j) {
      var q :| 0 <= q < |x.rules[c]| && RuleHits(x, c, q, {OneTime}, j);
      assert RuleHits(x, c, q, {Ignore, OneTime}, j);
    }
  }

  lemma {:induction false} RuleMarksUsed(x: Input, c: nat, w: Work, j: nat)
    requires Valid(x) && CLASS_VIDEO <= c <= CLASS_LAST && Before(x, c, w) && InClass(x, c, j)
    requires !OverRules(x, c, w, |w.picked|, 0).exclusive
    ensures RuleMarks(x, c, w)[j].used <==> Picked(x, c, j)
  {
    StartIsWithin(x, c, w);
    forall k: nat | InClass(x, c, k) ensures w.flags[k].used <==> PickedBefore(x, c, 0, 0, k) {
      NothingPickedYet(x, c, k);
    }
    PicksOfRules(x, c, w, w, 0);
    var n := |x.rules[c]|;
    assert forall q: nat :: q < n ==> Earlier(q, j, n, 0);
    assert PickedBefore(x, c, n, 0, j) <==> Picked(x, c, j);
  }

  /** Some pair up to (r, j) is hit by USE, ONE_TIME or EMPTY only if some pair up to it picks. */
  lemma {:induction false} HitMeansPick(x: Input, c: nat, r: nat, j: nat)
    requires Valid(x) && c <= CLASS_LAST && r < |x.rules[c]| && RuleHits(x, c, r, {Use, OneTime, Empty}, j)
    ensures SomePicked(x, c, r, j + 1)
  {
    PicksIs(x, c, r, j);
    if Picks(x, c, r, j) {
      PickedNext(x, c, r, j, j);
      assert PickedBefore(x, c, r, j + 1, j);
    } else {
      var k: nat :| PickedBefore(x, c, r, j, k);
      PickedNext(x, c, r, j, k);
      assert PickedBefore(x, c, r, j + 1, k);
    }
  }

  /** An EMPTY rule picks a stream it hits exactly when no earlier pair is hit by USE,
      ONE_TIME or EMPTY. */
  lemma {:induction false} EmptyPicksFirst(x: Input, c: nat, r: nat, j: nat)
    requires Valid(x) && c <= CLASS_LAST && r < |x.rules[c]| && RuleHits(x, c, r, {Empty}, j)
    ensures Picks(x, c, r, j) <==>
      !exists q: nat, k: nat :: q < |x.rules[c]| && Earlier(q, k, r, j) && RuleHits(x, c, q, {Use, OneTime, Empty}, k)
  {
    assert RuleHits(x, c, r, {Use, OneTime, Empty}, j);
    PicksIs(x, c, r, j);
    if q: nat, k: nat :| q < |x.rules[c]| && Earlier(q, k, r, j) && RuleHits(x, c, q, {Use, OneTime, Empty}, k) {
      HitMeansPick(x, c, q, k);
      var i: nat :| PickedBefore(x, c, q, k + 1, i);
      PickedLater(x, c, q, k, r, j, i);
    }
  }

  lemma {:induction false} PickedLater(x: Input, c: nat, q: nat, k: nat, r: nat, j: nat, i: nat)
    requires Valid(x) && c <= CLASS_LAST && Earlier(q, k, r, j) && PickedBefore(x, c, q, k + 1, i)
    ensures PickedBefore(x, c, r, j, i)
  {
    var p: nat :| Earlier(p, i, q, k + 1) && Picks(x, c, p, i);
    assert Earlier(p, i, r, j);
  }

  // ---------------------------------------------------------------- ONE_TIME

  ghost predicate FirstHit(x: Input, c: nat, rule: Rule, j: nat) {
    Hits(x, c, rule, j) && forall i :: 0 <= i < j ==> !Hits(x, c, rule, i)
  }

  ghost function LeastHit(x: Input, c: nat, rule: Rule, j: nat): (k: nat)
    requires exists i :: 0 <= i < j && Hits(x, c, rule, i)
    ensures k < j && FirstHit(x, c, rule, k)
  {
    if exists i :: 0 <= i < j - 1 && Hits(x, c, rule, i) then LeastHit(x, c, rule, j - 1) else j - 1
  }

  /** Rule q is the only enabled one of its class, and it is a ONE_TIME rule. */
  ghost predicate OnlyOneTime(x: Input, c: nat, q: nat)
    requires Valid(x) && c <= CLASS_LAST
  {
    && q < |x.rules[c]| && x.rules[c][q].enabled && x.rules[c][q].action == OneTime
    && forall r :: 0 <= r < |x.rules[c]| && x.rules[c][r].enabled ==> r == q
  }

  lemma {:induction false} FirstHitPicks(x: Input, c: nat, q: nat, j: nat)
    requires Valid(x) && c <= CLASS_LAST && OnlyOneTime(x, c, q) && FirstHit(x, c, x.rules[c][q], j)
    ensures Picks(x, c, q, j)
  {
    assert RuleHits(x, c, q, {Use, OneTime, Empty}, j);
  }

  lemma {:induction false} LaterHitPicksNot(x: Input, c: nat, q: nat, j: nat)
    requires Valid(x) && c <= CLASS_LAST && OnlyOneTime(x, c, q)
    requires Hits(x, c, x.rules[c][q], j) && !FirstHit(x, c, x.rules[c][q], j)
    ensures !Picks(x, c, q, j)
  {
    var k := LeastHit(x, c, x.rules[c][q], j);
    FirstHitPicks(x, c, q, k);
    assert Earlier(q, k, q, j) && SameFor(x, c, x.rules[c][q], j, k);
  }

  /** A ONE_TIME rule on its own keeps the first stream it hits and drops the others it hits,
      whatever their languages. */
  lemma {:induction false} OneTimeKeepsFirst(x: Input, q: nat, j: nat)
    requires Valid(x) && j < |x.streams| && ClassOf(x, j) <= CLASS_LAST && OnlyOneTime(x, ClassOf(x, j), q)
    requires Hits(x, ClassOf(x, j), x.rules[ClassOf(x, j)][q], j)
    ensures j in Build(x) <==> FirstHit(x, ClassOf(x, j), x.rules[ClassOf(x, j)][q], j)
  {
    var c := ClassOf(x, j);
    assert !HasExclusive(x, c) by {
      forall r, k | 0 <= r < |x.rules[c]| && 0 <= k < |x.streams| ensures !ExclusiveHit(x, c, r, k) {
      }
    }
    SelectionByRules(x, j);
    assert RuleHits(x, c, q, {Ignore, OneTime}, j);
    if FirstHit(x, c, x.rules[c][q], j) {
      FirstHitPicks(x, c, q, j);
    } else {
      LaterHitPicksNot(x, c, q, j);
    }
  }

  /** The first stream of its language among those the rule hits. */
  ghost predicate FirstOfLanguage(x: Input, c: nat, rule: Rule, j: nat) {
    && j < |x.streams| && Hits(x, c, rule, j)
    && forall i :: 0 <= i < j && Hits(x, c, rule, i) ==> x.streams[i].lang != x.streams[j].lang
  }

  /** Of the streams the rule hits, one for each language is kept. */
  ghost predicate OncePerLanguage(x: Input, c: nat, rule: Rule)
    requires Valid(x)
  {
    forall j: nat :: j < |x.streams| && Hits(x, c, rule, j) ==> (j in Build(x) <==> FirstOfLanguage(x, c, rule, j))
  }

  /** All streams the rule hits have one language. */
  ghost predicate OneLanguage(x: Input, c: nat, rule: Rule) {
    forall i: nat, j: nat :: i < j < |x.streams| && Hits(x, c, rule, i) && Hits(x, c, rule, j) ==>
      x.streams[i].lang == x.streams[j].lang
  }

  /** A ONE_TIME rule on its own takes one stream for each language if and only if all streams
      it hits have one language. */
  lemma {:induction false} OncePerLanguageIff(x: Input, c: nat, q: nat)
    requires Valid(x) && CLASS_VIDEO <= c <= CLASS_LAST && OnlyOneTime(x, c, q)
    ensures OncePerLanguage(x, c, x.rules[c][q]) <==> OneLanguage(x, c, x.rules[c][q])
  {
    var rule := x.rules[c][q];
    if OneLanguage(x, c, rule) {
      forall j: nat | j < |x.streams| && Hits(x, c, rule, j)
        ensures j in Build(x) <==> FirstOfLanguage(x, c, rule, j)
      {
        ClassOfIs(x, c, j);
        OneTimeKeepsFirst(x, q, j);
        if FirstOfLanguage(x, c, rule, j) {
          forall i | 0 <= i < j ensures !Hits(x, c, rule, i) {
          }
        }
      }
    } else {
      var i: nat, j: nat :| i < j < |x.streams| && Hits(x, c, rule, i) && Hits(x, c, rule, j)
        && x.streams[i].lang != x.streams[j].lang;
      var f := LeastHit(x, c, rule, j);
      var k := if x.streams[f].lang != x.streams[j].lang then j else i;
      var d := FirstOfSame(x, c, rule, k);
      ClassOfIs(x, c, d);
      OneTimeKeepsFirst(x, q, d);
    }
  }

  ghost function FirstOfSame(x: Input, c: nat, rule: Rule, j: nat): (d: nat)
    requires j < |x.streams| && Hits(x, c, rule, j)
    ensures d <= j && FirstOfLanguage(x, c, rule, d) && x.streams[d].lang == x.streams[j].lang
    decreases j
  {
    if exists i: nat :: i < j && Hits(x, c, rule, i) && x.streams[i].lang == x.streams[j].lang then
      var i: nat :| i < j && Hits(x, c, rule, i) && x.streams[i].lang == x.streams[j].lang;
      FirstOfSame(x, c, rule, i)
    else j
  }

  /** An English and a German audio stream under a ONE_TIME rule without a language. */
  function TwoLanguages(): Input {
    var rule := Rule(true, {}, "", "", 0, 0, ANY_CAID, ANY_PROVIDER, OneTime);
    Input("", [Info(8, 100, "eng", []), Info(8, 101, "ger", [])], [[], [], [rule], [], [], [], []])
  }

  /** The second is dropped although it is the first of its language. */
  lemma {:induction false} SecondLanguageDropped()
    ensures var x := TwoLanguages();
      Valid(x) && FirstOfLanguage(x, 2, x.rules[2][0], 1) && 0 in Build(x) && 1 !in Build(x)
  {
    var x := TwoLanguages();
    var rule := x.rules[2][0];
    assert Hits(x, 2, rule, 0) && Hits(x, 2, rule, 1);
    assert OnlyOneTime(x, 2, 0);
    ClassOfIs(x, 2, 0);
    ClassOfIs(x, 2, 1);
    OneTimeKeepsFirst(x, 0, 0);
    OneTimeKeepsFirst(x, 0, 1);
    assert FirstHit(x, 2, rule, 0);
  }
}
