/** Parsing a cron specification into masks. */
module CronSpec {
  import opened Wrappers
  import opened Cron

  /** The character at i, or the terminating NUL. */
  function CharAt(s: string, i: nat): char {
    if i < |s| then s[i] else '\0'
  }

  predicate IsDigit(c: char) {
    '0' <= c <= '9'
  }

  predicate IsSpace(c: char) {
    c == ' ' || '\t' <= c <= '\r'
  }

  function DigitValue(c: char): int
    requires IsDigit(c)
  {
    c as int - '0' as int
  }

  function ToLower(c: char): char {
    if 'A' <= c <= 'Z' then (c as int + 32) as char else c
  }

  /** strncasecmp of the text at i against all of `name`. */
  predicate HasName(s: string, i: nat, name: string) {
    i + |name| <= |s| && forall k :: 0 <= k < |name| ==> ToLower(s[i + k]) == ToLower(name[k])
  }

  function NameIndex(s: string, i: nat, key: seq<string>, from: nat): Option<nat>
    requires from <= |key|
    decreases |key| - from
  {
    if from == |key| then None
    else if HasName(s, i, key[from]) then Some(from)
    else NameIndex(s, i, key, from + 1)
  }

  /** The digits from i on, read as a number on top of acc. */
  function ScanDigits(s: string, i: nat, acc: int): int
    decreases if i < |s| then |s| - i else 0
  {
    if IsDigit(CharAt(s, i)) then ScanDigits(s, i + 1, 10 * acc + DigitValue(s[i])) else acc
  }

  function SkipSpace(s: string, i: nat): nat
    decreases if i < |s| then |s| - i else 0
  {
    if IsSpace(CharAt(s, i)) then SkipSpace(s, i + 1) else i
  }

  /** sscanf with "%d". */
  function ScanInt(s: string, i: nat): Option<int> {
    var j := SkipSpace(s, i);
    var signed := CharAt(s, j) == '-' || CharAt(s, j) == '+';
    var k := if signed then j + 1 else j;
    if !IsDigit(CharAt(s, k)) then None
    else Some(if CharAt(s, j) == '-' then -ScanDigits(s, k, 0) else ScanDigits(s, k, 0))
  }

  function ParseVal(s: string, i: nat, key: seq<string>): Option<int> {
    var n := NameIndex(s, i, key, 0);
    if n.Some? then Some(n.value) else ScanInt(s, i)
  }

  // ---------------------------------------------------------------- one field

  /** A field is parsed, refused, or shifts by a negative amount, which C leaves undefined. */
  datatype Parsed = Parsed(field: set<int>, pos: nat) | Rejected | Undefined

  /** The item [sn, en] in steps of mn, once its end has been reached. */
  datatype Item = Item(sn: int, en: int, mn: int)

  const NO_ITEM := Item(-1, -1, -1)

  /** Where the number at `beg` goes when an item ends. */
  function Take(it: Item, v: int): Item {
    if it.en != -1 then it.(mn := v)
    else if it.sn == -1 then it.(sn := v)
    else it.(en := v)
  }

  predicate OutOfRange(it: Item, bits: int, off: int) {
    it.sn - off >= bits || it.en - off >= bits || it.mn > bits
  }

  function Last(it: Item): int {
    if it.en < 0 then it.sn else it.en
  }

  function StepOf(it: Item): int {
    if it.mn <= 0 then 1 else it.mn
  }

  /** The bits the item adds. */
  function BitsOf(it: Item, off: int): set<int> {
    set v | it.sn <= v <= Last(it) && v % StepOf(it) == 0 :: v - off
  }

  predicate ShiftsNegative(it: Item, off: int) {
    exists v :: it.sn <= v <= Last(it) && v < off && v % StepOf(it) == 0
  }

  ghost predicate InMask(f: set<int>, bits: int) {
    forall k :: k in f ==> 0 <= k < bits
  }

  /** The final `(val | ((val >> bits) & 1)) & mask`. */
  function Finish(val: set<int>, bits: int): (f: set<int>)
    ensures InMask(f, bits)
  {
    var folded := if bits in val then val + {0} else val;
    set k | k in folded && 0 <= k < bits
  }

  function ParseFrom(s: string, i: nat, beg: Option<nat>, it: Item, val: set<int>,
                     bits: int, off: int, key: seq<string>): (r: Parsed)
    requires i <= |s|
    ensures r.Parsed? ==> i <= r.pos <= |s| && InMask(r.field, bits)
    decreases |s| - i
  {
    var c := CharAt(s, i);
    if c == '*' then ParseFrom(s, i + 1, None, Item(off, bits + off - 1, it.mn), val, bits, off, key)
    else if c == ',' || c == ' ' || c == '\0' then
      var v := if beg.Some? then ParseVal(s, beg.value, key) else None;
      if beg.Some? && v.None? then Rejected
      else
        var it' := if beg.Some? then Take(it, v.value) else it;
        if OutOfRange(it', bits, off) then Rejected
        else if ShiftsNegative(it', off) then Undefined
        else
          var val' := val + BitsOf(it', off);
          if c == ',' then ParseFrom(s, i + 1, Some(i + 1), NO_ITEM, val', bits, off, key)
          else Parsed(Finish(val', bits), if c == ' ' then i + 1 else i)
    else if c == '/' then
      if beg.None? then ParseFrom(s, i + 1, Some(i + 1), it, val, bits, off, key)
      else
        var v := ParseVal(s, beg.value, key);
        if it.en == -1 || v.None? then Rejected
        else
          var it' := if it.sn == -1 then it.(sn := v.value) else it.(en := v.value);
          ParseFrom(s, i + 1, Some(i + 1), it', val, bits, off, key)
    else if c == '-' then
      var v := if beg.Some? then ParseVal(s, beg.value, key) else None;
      if it.sn != -1 || (beg.Some? && v.None?) then Rejected
      else
        ParseFrom(s, i + 1, Some(i + 1), if beg.Some? then it.(sn := v.value) else it, val, bits, off, key)
    else ParseFrom(s, i + 1, beg, it, val, bits, off, key)
  }

  function ParseField(s: string, i: nat, bits: int, off: int, key: seq<string>): (r: Parsed)
    requires i <= |s|
    ensures r.Parsed? ==> i <= r.pos <= |s| && InMask(r.field, bits)
  {
    ParseFrom(s, i, Some(i), NO_ITEM, {}, bits, off, key)
  }

  // ---------------------------------------------------------------- printed fields

  datatype Term = All | Every(n: nat) | One(v: nat) | Range(a: nat, b: nat)

  function Decimal(n: nat): string {
    if n < 10 then [('0' as int + n) as char] else Decimal(n / 10) + [('0' as int + n % 10) as char]
  }

  function PrintTerm(t: Term): string {
    match t
    case All => "*"
    case Every(n) => "*/" + Decimal(n)
    case One(v) => Decimal(v)
    case Range(a, b) => Decimal(a) + "-" + Decimal(b)
  }

  function Print(ts: seq<Term>): string
    requires ts != []
  {
    if |ts| == 1 then PrintTerm(ts[0]) else PrintTerm(ts[0]) + "," + Print(ts[1..])
  }

  predicate InRange(t: Term, bits: int, off: int) {
    match t
    case All => true
    case Every(n) => n <= bits
    case One(v) => off <= v < off + bits
    case Range(a, b) => off <= a < off + bits && off <= b < off + bits
  }

  /** Which values of the field the term stands for; a step of 0 acts as 1. */
  predicate Denotes(t: Term, v: int) {
    match t
    case All => true
    case Every(n) => v % (if n == 0 then 1 else n) == 0
    case One(w) => v == w
    case Range(a, b) => a <= v <= b
  }

  ghost predicate SomeDenotes(ts: seq<Term>, v: int) {
    exists j :: 0 <= j < |ts| && Denotes(ts[j], v)
  }

  // ---------------------------------------------------------------- reading back a number

  ghost predicate Occurs(s: string, i: nat, x: string) {
    i + |x| <= |s| && s[i..i + |x|] == x
  }

  lemma {:induction false} OccursParts(s: string, i: nat, x: string, y: string)
    requires Occurs(s, i, x + y)
    ensures Occurs(s, i, x) && Occurs(s, i + |x|, y)
  {
    var z := s[i..i + |x + y|];
    assert z[..|x|] == x && z[|x|..] == y;
  }

  lemma {:induction false} DecimalDigits(n: nat)
    ensures |Decimal(n)| > 0
    ensures forall k :: 0 <= k < |Decimal(n)| ==> IsDigit(Decimal(n)[k])
  {
    if n >= 10 {
      DecimalDigits(n / 10);
    }
  }

  lemma {:induction false} ScanDecimal(s: string, i: nat, n: nat)
    requires Occurs(s, i, Decimal(n))
    ensures ScanDigits(s, i, 0) == ScanDigits(s, i + |Decimal(n)|, n)
  {
    if n < 10 {
      assert s[i] == Decimal(n)[0];
    } else {
      var front := Decimal(n / 10);
      var last := [('0' as int + n % 10) as char];
      OccursParts(s, i, front, last);
      ScanDecimal(s, i, n / 10);
      assert s[i + |front|] == last[0];
    }
  }

  /** Field names (of months or weekdays) never start with a digit. */
  predicate Names(key: seq<string>) {
    forall k :: 0 <= k < |key| ==> key[k] != "" && 'a' <= key[k][0] <= 'z'
  }

  lemma {:induction false} NoNameAtDigit(s: string, i: nat, key: seq<string>, from: nat)
    requires Names(key) && from <= |key| && IsDigit(CharAt(s, i))
    ensures NameIndex(s, i, key, from).None?
    decreases |key| - from
  {
    if from < |key| {
      assert ToLower(CharAt(s, i)) != ToLower(key[from][0]);
      NoNameAtDigit(s, i, key, from + 1);
    }
  }

  lemma {:induction false} ParseDecimal(s: string, i: nat, n: nat, key: seq<string>)
    requires Names(key) && Occurs(s, i, Decimal(n)) && !IsDigit(CharAt(s, i + |Decimal(n)|))
    ensures ParseVal(s, i, key) == Some(n)
  {
    DecimalDigits(n);
    assert s[i] == Decimal(n)[0];
    NoNameAtDigit(s, i, key, 0);
    ScanDecimal(s, i, n);
  }

  // ---------------------------------------------------------------- reading back a field

  predicate Stop(c: char) {
    c == ',' || c == ' ' || c == '\0'
  }

  lemma {:induction false} PassDigits(s: string, i: nat, j: nat, beg: Option<nat>, it: Item, val: set<int>,
                                      bits: int, off: int, key: seq<string>)
    requires i <= j <= |s| && forall k :: i <= k < j ==> IsDigit(s[k])
    ensures ParseFrom(s, i, beg, it, val, bits, off, key) == ParseFrom(s, j, beg, it, val, bits, off, key)
    decreases j - i
  {
    if i < j {
      PassDigits(s, i + 1, j, beg, it, val, bits, off, key);
    }
  }

  lemma {:induction false} PassDecimal(s: string, i: nat, n: nat, beg: Option<nat>, it: Item, val: set<int>,
                                       bits: int, off: int, key: seq<string>)
    requires Occurs(s, i, Decimal(n))
    ensures ParseFrom(s, i, beg, it, val, bits, off, key)
         == ParseFrom(s, i + |Decimal(n)|, beg, it, val, bits, off, key)
  {
    DecimalDigits(n);
    forall k | i <= k < i + |Decimal(n)| ensures IsDigit(s[k]) {
      assert s[k] == Decimal(n)[k - i];
    }
    PassDigits(s, i, i + |Decimal(n)|, beg, it, val, bits, off, key);
  }

  /** What a finished item at position e leads to. */
  function Ended(s: string, e: nat, it: Item, val: set<int>, bits: int, off: int, key: seq<string>): Parsed
    requires e <= |s| && Stop(CharAt(s, e))
  {
    var val' := val + BitsOf(it, off);
    if CharAt(s, e) == ',' then ParseFrom(s, e + 1, Some(e + 1), NO_ITEM, val', bits, off, key)
    else Parsed(Finish(val', bits), if CharAt(s, e) == ' ' then e + 1 else e)
  }

  /** The item the parser builds for a term. */
  function ItemOf(t: Term, bits: int, off: int): Item {
    match t
    case All => Item(off, bits + off - 1, -1)
    case Every(n) => Item(off, bits + off - 1, n)
    case One(v) => Item(v, -1, -1)
    case Range(a, b) => Item(a, b, -1)
  }

  lemma {:induction false} ItemFits(t: Term, bits: int, off: int)
    requires InRange(t, bits, off) && bits > 0 && off >= 0
    ensures var it := ItemOf(t, bits, off);
      && !OutOfRange(it, bits, off) && !ShiftsNegative(it, off)
      && forall k :: k in BitsOf(it, off) <==> 0 <= k < bits && Denotes(t, k + off)
  {
    var it := ItemOf(t, bits, off);
    forall k ensures k in BitsOf(it, off) <==> 0 <= k < bits && Denotes(t, k + off) {
      if 0 <= k < bits && Denotes(t, k + off) {
        assert it.sn <= k + off <= Last(it) && (k + off) % StepOf(it) == 0;
        assert k == (k + off) - off;
      }
    }
  }

  /** A number right before the end of an item completes the item. */
  lemma {:induction false} NumberEnds(s: string, i: nat, n: nat, it: Item, val: set<int>,
                                      bits: int, off: int, key: seq<string>)
    requires Names(key) && Occurs(s, i, Decimal(n)) && Stop(CharAt(s, i + |Decimal(n)|))
    requires !OutOfRange(Take(it, n), bits, off) && !ShiftsNegative(Take(it, n), off)
    ensures ParseFrom(s, i, Some(i), it, val, bits, off, key)
         == Ended(s, i + |Decimal(n)|, Take(it, n), val, bits, off, key)
  {
    PassDecimal(s, i, n, Some(i), it, val, bits, off, key);
    ParseDecimal(s, i, n, key);
  }

  /** A number in front of a dash becomes the start of the item. */
  lemma {:induction false} NumberStarts(s: string, i: nat, n: nat, val: set<int>, bits: int, off: int, key: seq<string>)
    requires Names(key) && Occurs(s, i, Decimal(n)) && CharAt(s, i + |Decimal(n)|) == '-'
    ensures var m := i + |Decimal(n)| + 1;
      m <= |s| &&
      ParseFrom(s, i, Some(i), NO_ITEM, val, bits, off, key)
        == ParseFrom(s, m, Some(m), Item(n, -1, -1), val, bits, off, key)
  {
    PassDecimal(s, i, n, Some(i), NO_ITEM, val, bits, off, key);
    ParseDecimal(s, i, n, key);
  }

  lemma {:induction false} StarSlash(s: string, i: nat, val: set<int>, bits: int, off: int, key: seq<string>)
    requires Occurs(s, i, "*/")
    ensures ParseFrom(s, i, Some(i), NO_ITEM, val, bits, off, key)
         == ParseFrom(s, i + 2, Some(i + 2), Item(off, bits + off - 1, -1), val, bits, off, key)
  {
    var whole := Item(off, bits + off - 1, -1);
    assert s[i] == "*/"[0] && s[i + 1] == "*/"[1];
    assert ParseFrom(s, i, Some(i), NO_ITEM, val, bits, off, key)
        == ParseFrom(s, i + 1, None, whole, val, bits, off, key);
  }

  lemma {:induction false} ItemAccepted(t: Term, bits: int, off: int)
    requires InRange(t, bits, off) && bits > 0 && off >= 0
    ensures !OutOfRange(ItemOf(t, bits, off), bits, off) && !ShiftsNegative(ItemOf(t, bits, off), off)
  {
    ItemFits(t, bits, off);
  }

  lemma {:induction false} TermParsed(s: string, i: nat, t: Term, val: set<int>, bits: int, off: int, key: seq<string>)
    requires Names(key) && bits > 0 && off >= 0 && InRange(t, bits, off)
    requires Occurs(s, i, PrintTerm(t)) && Stop(CharAt(s, i + |PrintTerm(t)|))
    ensures ParseFrom(s, i, Some(i), NO_ITEM, val, bits, off, key)
         == Ended(s, i + |PrintTerm(t)|, ItemOf(t, bits, off), val, bits, off, key)
  {
    ItemAccepted(t, bits, off);
    match t
    case All => assert s[i] == PrintTerm(t)[0];
    case Every(n) => EveryParsed(s, i, n, val, bits, off, key);
    case One(v) => NumberEnds(s, i, v, NO_ITEM, val, bits, off, key);
    case Range(a, b) => RangeParsed(s, i, a, b, val, bits, off, key);
  }

  lemma {:induction false} EveryParsed(s: string, i: nat, n: nat, val: set<int>, bits: int, off: int, key: seq<string>)
    requires Names(key) && bits > 0 && off >= 0
    requires Occurs(s, i, "*/" + Decimal(n)) && Stop(CharAt(s, i + 2 + |Decimal(n)|))
    requires var it := Item(off, bits + off - 1, n); !OutOfRange(it, bits, off) && !ShiftsNegative(it, off)
    ensures ParseFrom(s, i, Some(i), NO_ITEM, val, bits, off, key)
         == Ended(s, i + 2 + |Decimal(n)|, Item(off, bits + off - 1, n), val, bits, off, key)
  {
    var whole := EveryStarts(s, i, n, val, bits, off, key);
    NumberEnds(s, i + 2, n, whole, val, bits, off, key);
  }

  lemma {:induction false} EveryStarts(s: string, i: nat, n: nat, val: set<int>, bits: int, off: int,
                                       key: seq<string>) returns (whole: Item)
    requires bits > 0 && off >= 0 && Occurs(s, i, "*/" + Decimal(n))
    ensures Occurs(s, i + 2, Decimal(n)) && Take(whole, n) == Item(off, bits + off - 1, n)
    ensures ParseFrom(s, i, Some(i), NO_ITEM, val, bits, off, key)
         == ParseFrom(s, i + 2, Some(i + 2), whole, val, bits, off, key)
  {
    OccursParts(s, i, "*/", Decimal(n));
    StarSlash(s, i, val, bits, off, key);
    whole := Item(off, bits + off - 1, -1);
  }

  lemma {:induction false} RangeParsed(s: string, i: nat, a: nat, b: nat, val: set<int>,
                                       bits: int, off: int, key: seq<string>)
    requires Names(key) && Occurs(s, i, Decimal(a) + "-" + Decimal(b))
    requires Stop(CharAt(s, i + |Decimal(a)| + 1 + |Decimal(b)|))
    requires !OutOfRange(Item(a, b, -1), bits, off) && !ShiftsNegative(Item(a, b, -1), off)
    ensures ParseFrom(s, i, Some(i), NO_ITEM, val, bits, off, key)
         == Ended(s, i + |Decimal(a)| + 1 + |Decimal(b)|, Item(a, b, -1), val, bits, off, key)
  {
    OccursParts(s, i, Decimal(a) + "-", Decimal(b));
    OccursParts(s, i, Decimal(a), "-");
    assert s[i + |Decimal(a)|] == "-"[0];
    NumberStarts(s, i, a, val, bits, off, key);
    assert Take(Item(a, -1, -1), b) == Item(a, b, -1);
    NumberEnds(s, i + |Decimal(a)| + 1, b, Item(a, -1, -1), val, bits, off, key);
  }

  /** Parsing the printed text of a field, wherever it stands and whatever was collected
      before it, adds exactly the bits its terms denote and stops just past the field. */
  lemma {:induction false} FieldParsed(s: string, i: nat, ts: seq<Term>, val: set<int>,
                                       bits: int, off: int, key: seq<string>)
    requires Names(key) && bits > 0 && off >= 0 && FieldOk(ts, bits, off) && InMask(val, bits)
    requires Occurs(s, i, Print(ts)) && (CharAt(s, i + |Print(ts)|) == ' ' || i + |Print(ts)| == |s|)
    ensures FieldResult(ParseFrom(s, i, Some(i), NO_ITEM, val, bits, off, key), s, i + |Print(ts)|, ts, val, bits, off)
    decreases |ts|
  {
    var r := FieldRun(s, i, i + |Print(ts)|, ts, val, bits, off, key);
  }

  lemma {:induction false} RestOk(ts: seq<Term>, bits: int, off: int)
    requires FieldOk(ts, bits, off) && |ts| > 1
    ensures InRange(ts[0], bits, off) && FieldOk(ts[1..], bits, off)
  {
  }

  /** The text of a field ends at q. */
  predicate EndsField(s: string, q: nat) {
    CharAt(s, q) == ' ' || q == |s|
  }

  lemma {:induction false} FieldRun(s: string, i: nat, q: nat, ts: seq<Term>, val: set<int>,
                                    bits: int, off: int, key: seq<string>) returns (r: Parsed)
    requires Names(key) && bits > 0 && off >= 0 && FieldOk(ts, bits, off) && InMask(val, bits)
    requires Occurs(s, i, Print(ts)) && q == i + |Print(ts)| && EndsField(s, q)
    ensures r == ParseFrom(s, i, Some(i), NO_ITEM, val, bits, off, key) && FieldResult(r, s, q, ts, val, bits, off)
    decreases |ts|
  {
    if |ts| == 1 {
      assert InRange(ts[0], bits, off);
      LastTermParsed(s, i, ts, val, bits, off, key);
      r := ParseFrom(s, i, Some(i), NO_ITEM, val, bits, off, key);
    } else {
      RestOk(ts, bits, off);
      var m, val' := FirstTermParsed(s, i, ts, val, bits, off, key);
      r := FieldRun(s, m, q, ts[1..], val', bits, off, key);
      FirstTermAdded(r, s, q, ts, val, val', bits, off);
    }
  }

  /** The bits of one more term. */
  ghost predicate Adds(val: set<int>, val': set<int>, t: Term, bits: int, off: int) {
    forall k :: k in val' <==> k in val || (0 <= k < bits && Denotes(t, k + off))
  }

  lemma {:induction false} FirstTermParsed(s: string, i: nat, ts: seq<Term>, val: set<int>, bits: int, off: int,
                                           key: seq<string>) returns (e: nat, val': set<int>)
    requires Names(key) && bits > 0 && off >= 0 && |ts| > 1 && InRange(ts[0], bits, off)
    requires InMask(val, bits) && Occurs(s, i, Print(ts))
    ensures Occurs(s, e, Print(ts[1..])) && e + |Print(ts[1..])| == i + |Print(ts)|
    ensures ParseFrom(s, i, Some(i), NO_ITEM, val, bits, off, key)
         == ParseFrom(s, e, Some(e), NO_ITEM, val', bits, off, key)
    ensures Adds(val, val', ts[0], bits, off) && InMask(val', bits)
  {
    var t := ts[0];
    e := i + |PrintTerm(t)| + 1;
    SplitPrint(s, i, ts);
    ItemFits(t, bits, off);
    TermParsed(s, i, t, val, bits, off, key);
    val' := val + BitsOf(ItemOf(t, bits, off), off);
  }

  lemma {:induction false} SplitPrint(s: string, i: nat, ts: seq<Term>)
    requires |ts| > 1 && Occurs(s, i, Print(ts))
    ensures var e := i + |PrintTerm(ts[0])|;
      && Occurs(s, i, PrintTerm(ts[0])) && CharAt(s, e) == ','
      && Occurs(s, e + 1, Print(ts[1..])) && e + 1 + |Print(ts[1..])| == i + |Print(ts)|
  {
    var t := PrintTerm(ts[0]);
    OccursParts(s, i, t + ",", Print(ts[1..]));
    OccursParts(s, i, t, ",");
    assert s[i + |t|] == ","[0];
  }

  lemma {:induction false} FirstTermAdded(r: Parsed, s: string, e: nat, ts: seq<Term>, val: set<int>, val': set<int>,
                                          bits: int, off: int)
    requires |ts| > 1 && FieldResult(r, s, e, ts[1..], val', bits, off)
    requires Adds(val, val', ts[0], bits, off)
    ensures FieldResult(r, s, e, ts, val, bits, off)
  {
    forall k ensures k in r.field <==> k in val || (0 <= k < bits && SomeDenotes(ts, k + off)) {
      SomeOf(ts, k + off);
    }
  }

  /** r is the outcome of a field that printed as terms ts and ends at e. */
  ghost predicate FieldResult(r: Parsed, s: string, e: nat, ts: seq<Term>, val: set<int>, bits: int, off: int) {
    && r.Parsed?
    && r.pos == (if e == |s| then e else e + 1)
    && forall k :: k in r.field <==> k in val || (0 <= k < bits && SomeDenotes(ts, k + off))
  }

  lemma {:induction false} LastTermParsed(s: string, i: nat, ts: seq<Term>, val: set<int>,
                                          bits: int, off: int, key: seq<string>)
    requires Names(key) && bits > 0 && off >= 0 && |ts| == 1 && InRange(ts[0], bits, off)
    requires InMask(val, bits)
    requires Occurs(s, i, Print(ts)) && (CharAt(s, i + |Print(ts)|) == ' ' || i + |Print(ts)| == |s|)
    ensures FieldResult(ParseFrom(s, i, Some(i), NO_ITEM, val, bits, off, key), s, i + |Print(ts)|, ts, val, bits, off)
  {
    var t := ts[0];
    ItemFits(t, bits, off);
    TermParsed(s, i, t, val, bits, off, key);
    forall v {:trigger Denotes(t, v)} ensures SomeDenotes(ts, v) <==> Denotes(t, v) {
      assert Denotes(t, v) ==> Denotes(ts[0], v);
    }
  }

  lemma {:induction false} SomeOf(ts: seq<Term>, v: int)
    requires |ts| > 1
    ensures SomeDenotes(ts, v) <==> Denotes(ts[0], v) || SomeDenotes(ts[1..], v)
  {
    if j :| 0 <= j < |ts[1..]| && Denotes(ts[1..][j], v) {
      assert Denotes(ts[j + 1], v);
    }
    if j :| 0 <= j < |ts| && Denotes(ts[j], v) {
      assert j > 0 ==> ts[1..][j - 1] == ts[j];
    }
  }

  // ---------------------------------------------------------------- the parser's loops

  /** The loop that sets a bit for every multiple of mn from sn to en; None for a negative shift. */
  method SetBits(it: Item, val: set<int>, off: int) returns (r: Option<set<int>>)
    ensures r == if ShiftsNegative(it, off) then None else Some(val + BitsOf(it, off))
  {
    var sn, en, mn := it.sn, Last(it), StepOf(it);
    var out := val;
    while sn <= en
      invariant it.sn <= sn
      invariant forall v :: it.sn <= v < sn && v % mn == 0 ==> off <= v
      invariant forall k :: k in out <==> k in val || (it.sn <= k + off < sn && k + off <= en && (k + off) % mn == 0)
      decreases en - sn
    {
      if sn % mn == 0 {
        if sn < off {
          return None;
        }
        out := out + {sn - off};
      }
      sn := sn + 1;
    }
    assert out == val + BitsOf(it, off) by {
      forall k ensures k in BitsOf(it, off) <==> it.sn <= k + off <= en && (k + off) % mn == 0 {
        BitOfItem(it, off, k);
      }
    }
    r := Some(out);
  }

  lemma BitOfItem(it: Item, off: int, k: int)
    ensures k in BitsOf(it, off) <==> it.sn <= k + off <= Last(it) && (k + off) % StepOf(it) == 0
  {
    if it.sn <= k + off <= Last(it) && (k + off) % StepOf(it) == 0 {
      assert (k + off) - off == k;
    }
  }

  /** cron_parse_field: one pass over the text with the pending number and item as state. */
  method ParseFieldLoop(s: string, start: nat, bits: int, off: int, key: seq<string>) returns (r: Parsed)
    requires start <= |s|
    ensures r == ParseField(s, start, bits, off, key)
  {
    var i, it := start, NO_ITEM;
    var beg: Option<nat> := Some(start);
    var val: set<int> := {};
    while true
      invariant i <= |s|
      invariant ParseFrom(s, i, beg, it, val, bits, off, key) == ParseField(s, start, bits, off, key)
      decreases |s| - i
    {
      var c := CharAt(s, i);
      if c == '*' {
        it := Item(off, bits + off - 1, it.mn);
        beg := None;
      } else if c == ',' || c == ' ' || c == '\0' {
        if beg.Some? {
          var v := ParseVal(s, beg.value, key);
          if v.None? {
            return Rejected;
          }
          it := Take(it, v.value);
        }
        if OutOfRange(it, bits, off) {
          return Rejected;
        }
        var more := SetBits(it, val, off);
        if more.None? {
          return Undefined;
        }
        val := more.value;
        if c != ',' {
          return Parsed(Finish(val, bits), if c == ' ' then i + 1 else i);
        }
        it, beg := NO_ITEM, Some(i + 1);
      } else if c == '/' {
        if beg.Some? {
          var v := ParseVal(s, beg.value, key);
          if it.en == -1 || v.None? {
            return Rejected;
          }
          it := if it.sn == -1 then it.(sn := v.value) else it.(en := v.value);
        }
        beg := Some(i + 1);
      } else if c == '-' {
        if it.sn != -1 {
          return Rejected;
        }
        if beg.Some? {
          var v := ParseVal(s, beg.value, key);
          if v.None? {
            return Rejected;
          }
          it := it.(sn := v.value);
        }
        beg := Some(i + 1);
      }
      i := i + 1;
    }
  }

  // ---------------------------------------------------------------- a whole entry

  const MONTHS := ["ignore", "jan", "feb", "mar", "apr", "may", "jun", "jul", "aug", "sep", "oct", "nov", "dec"]
  const DAYS := ["sun", "mon", "tue", "wed", "thu", "fri", "sat"]

  /** The mask with all of its bits set. */
  function Full(bits: nat): (s: set<int>)
    ensures forall k :: k in s <==> 0 <= k < bits
  {
    if bits == 0 then {} else Full(bits - 1) + {bits - 1}
  }

  datatype Entry = Installed(cron: Cron) | Invalid | UndefinedShift

  function Refusal(p: Parsed): Entry {
    if p.Undefined? then UndefinedShift else Invalid
  }

  predicate Usable(p: Parsed) {
    p.Parsed? && p.field != {}
  }

  /** cron_set.  The two abbreviations store the numbers 1 and 2 as masks, that is bit 0 for
      the minute and hour of "@daily" and bit 1 for the minute of "@hourly". */
  function CronSet(s: string): Entry {
    if s == "@daily" then Installed(Cron({0}, {0}, Full(31), Full(12), Full(7)))
    else if s == "@hourly" then Installed(Cron({1}, Full(24), Full(31), Full(12), Full(7)))
    else FiveFields(s)
  }

  /** The next field, unless an earlier one was refused or left no bit set. */
  function NextParsed(s: string, prev: Parsed, bits: int, off: int, key: seq<string>): (r: Parsed)
    requires prev.Parsed? ==> prev.pos <= |s|
    ensures r.Parsed? ==> r.pos <= |s|
  {
    if Usable(prev) then ParseField(s, prev.pos, bits, off, key) else prev
  }

  function FiveFields(s: string): Entry {
    var mi := ParseField(s, 0, 60, 0, []);
    var ho := NextParsed(s, mi, 24, 0, []);
    var dm := NextParsed(s, ho, 31, 1, []);
    var mo := NextParsed(s, dm, 12, 1, MONTHS);
    var dw := NextParsed(s, mo, 7, 0, DAYS);
    if !Usable(dw) then Refusal(dw)
    else Installed(Cron(mi.field, ho.field, dm.field, mo.field, dw.field))
  }

  lemma {:induction false} UsableIsMask(s: string, i: nat, bits: nat, off: int, key: seq<string>)
    requires i <= |s| && Usable(ParseField(s, i, bits, off, key))
    ensures Mask(ParseField(s, i, bits, off, key).field, bits)
  {
    NonEmpty(ParseField(s, i, bits, off, key).field);
  }

  lemma NonEmpty(f: set<int>)
    requires f != {}
    ensures exists k :: k in f
  {
    assert (forall k :: k !in f) ==> f == {};
  }

  /** Whatever the text, an entry that is accepted has five non-empty masks in range: all that
      cron_next relies on. */
  lemma {:induction false} AcceptedIsWellFormed(s: string)
    requires CronSet(s).Installed?
    ensures WellFormed(CronSet(s).cron)
  {
    if s == "@daily" || s == "@hourly" {
      assert 0 in Full(24) && 0 in Full(31) && 0 in Full(12) && 0 in Full(7);
      assert 0 in CronSet(s).cron.min || 1 in CronSet(s).cron.min;
    } else {
      FiveFieldsWellFormed(s);
    }
  }

  lemma {:induction false} FiveFieldsWellFormed(s: string)
    requires FiveFields(s).Installed?
    ensures WellFormed(FiveFields(s).cron)
  {
    var mi := ParseField(s, 0, 60, 0, []);
    var ho := NextParsed(s, mi, 24, 0, []);
    var dm := NextParsed(s, ho, 31, 1, []);
    var mo := NextParsed(s, dm, 12, 1, MONTHS);
    UsableIsMask(s, 0, 60, 0, []);
    UsableIsMask(s, mi.pos, 24, 0, []);
    UsableIsMask(s, ho.pos, 31, 1, []);
    UsableIsMask(s, dm.pos, 12, 1, MONTHS);
    UsableIsMask(s, mo.pos, 7, 0, DAYS);
  }

  /** "@daily" is documented as 01:01, but its masks match exactly midnight. */
  lemma DailyIsMidnight(t: Tm)
    requires ValidTm(t)
    ensures Matches(CronSet("@daily").cron, t) <==> t.hour == 0 && t.min == 0
    ensures Matches(CronSet("@hourly").cron, t) <==> t.min == 1
  {
    assert t.mday - 1 in Full(31) && t.mon in Full(12) && t.wday in Full(7) && t.hour in Full(24);
  }

  // ---------------------------------------------------------------- printed entries

  ghost predicate FieldOk(ts: seq<Term>, bits: int, off: int) {
    ts != [] && forall j :: 0 <= j < |ts| ==> InRange(ts[j], bits, off)
  }

  ghost predicate Satisfiable(ts: seq<Term>, bits: int, off: int) {
    exists v :: off <= v < off + bits && SomeDenotes(ts, v)
  }

  /** The mask of a printed field. */
  ghost predicate MaskOf(f: set<int>, ts: seq<Term>, bits: int, off: int) {
    forall k :: k in f <==> 0 <= k < bits && SomeDenotes(ts, k + off)
  }

  lemma {:induction false} PrintHead(ts: seq<Term>)
    requires ts != []
    ensures Print(ts) != "" && Print(ts)[0] != '@'
  {
    var t := ts[0];
    match t
    case All =>
    case Every(n) =>
    case One(v) => DecimalDigits(v);
    case Range(a, b) => DecimalDigits(a);
    assert PrintTerm(t) != "" && PrintTerm(t)[0] != '@';
    assert Print(ts)[0] == PrintTerm(t)[0];
  }

  lemma {:induction false} MaskEmptyIff(f: set<int>, ts: seq<Term>, bits: int, off: int)
    requires MaskOf(f, ts, bits, off)
    ensures f != {} <==> Satisfiable(ts, bits, off)
  {
    if f != {} {
      NonEmpty(f);
      var k :| k in f;
      assert off <= k + off < off + bits;
    }
    if v :| off <= v < off + bits && SomeDenotes(ts, v) {
      assert (v - off) + off == v;
      assert v - off in f;
    }
  }

  /** A printed field followed by a space or the end of the text. */
  lemma {:induction false} FieldAt(s: string, i: nat, ts: seq<Term>, bits: int, off: int, key: seq<string>)
    requires Names(key) && bits > 0 && off >= 0 && FieldOk(ts, bits, off)
    requires Occurs(s, i, Print(ts)) && (CharAt(s, i + |Print(ts)|) == ' ' || i + |Print(ts)| == |s|)
    ensures var p := ParseField(s, i, bits, off, key);
      && p.Parsed? && MaskOf(p.field, ts, bits, off)
      && p.pos == (if i + |Print(ts)| == |s| then |s| else i + |Print(ts)| + 1)
      && (Usable(p) <==> Satisfiable(ts, bits, off))
  {
    FieldParsed(s, i, ts, {}, bits, off, key);
    MaskEmptyIff(ParseField(s, i, bits, off, key).field, ts, bits, off);
  }

  datatype Spec = Spec(mi: seq<Term>, ho: seq<Term>, dm: seq<Term>, mo: seq<Term>, dw: seq<Term>)

  ghost predicate SpecOk(e: Spec) {
    FieldOk(e.mi, 60, 0) && FieldOk(e.ho, 24, 0) && FieldOk(e.dm, 31, 1) && FieldOk(e.mo, 12, 1) && FieldOk(e.dw, 7, 0)
  }

  ghost predicate SpecSatisfiable(e: Spec) {
    && Satisfiable(e.mi, 60, 0) && Satisfiable(e.ho, 24, 0) && Satisfiable(e.dm, 31, 1)
    && Satisfiable(e.mo, 12, 1) && Satisfiable(e.dw, 7, 0)
  }

  function PrintSpec(e: Spec): string
    requires e.mi != [] && e.ho != [] && e.dm != [] && e.mo != [] && e.dw != []
  {
    Print(e.mi) + (" " + (Print(e.ho) + (" " + (Print(e.dm) + (" " + (Print(e.mo) + (" " + Print(e.dw))))))))
  }

  /** A time satisfies an entry when every one of its five values is denoted. */
  ghost predicate Fires(e: Spec, t: Tm) {
    && SomeDenotes(e.mi, t.min) && SomeDenotes(e.ho, t.hour) && SomeDenotes(e.dm, t.mday)
    && SomeDenotes(e.mo, t.mon + 1) && SomeDenotes(e.dw, t.wday)
  }

  lemma {:induction false} MatchesIffFires(c: Cron, e: Spec, t: Tm)
    requires ValidTm(t)
    requires MaskOf(c.min, e.mi, 60, 0) && MaskOf(c.hour, e.ho, 24, 0) && MaskOf(c.mday, e.dm, 31, 1)
    requires MaskOf(c.mon, e.mo, 12, 1) && MaskOf(c.wday, e.dw, 7, 0)
    ensures Matches(c, t) <==> Fires(e, t)
  {
    assert t.min + 0 == t.min && t.hour + 0 == t.hour && t.mday - 1 + 1 == t.mday && t.wday + 0 == t.wday;
  }

  /** `rest` is what remains of the text when p has been parsed. */
  ghost predicate Remains(s: string, p: Parsed, rest: string) {
    p.Parsed? && Occurs(s, p.pos, rest) && p.pos + |rest| == |s|
  }

  /** One more field of an entry, up to the space in front of `rest`. */
  lemma {:induction false} NextField(s: string, i: nat, ts: seq<Term>, rest: string,
                                     bits: int, off: int, key: seq<string>)
    requires Names(key) && bits > 0 && off >= 0 && FieldOk(ts, bits, off)
    requires Occurs(s, i, Print(ts) + (" " + rest)) && i + |Print(ts) + (" " + rest)| == |s|
    ensures var p := ParseField(s, i, bits, off, key);
      Remains(s, p, rest) && MaskOf(p.field, ts, bits, off) && (Usable(p) <==> Satisfiable(ts, bits, off))
  {
    OccursParts(s, i, Print(ts), " " + rest);
    OccursParts(s, i + |Print(ts)|, " ", rest);
    assert s[i + |Print(ts)|] == " "[0];
    FieldAt(s, i, ts, bits, off, key);
  }

  lemma {:induction false} FieldAfter(s: string, prev: Parsed, ts: seq<Term>, rest: string, bits: int, off: int,
                                      key: seq<string>) returns (p: Parsed)
    requires Names(key) && bits > 0 && off >= 0 && FieldOk(ts, bits, off)
    requires prev.Parsed? && (Usable(prev) ==> Remains(s, prev, Print(ts) + (" " + rest)))
    requires prev.pos <= |s|
    ensures p == NextParsed(s, prev, bits, off, key) && p.Parsed?
    ensures Usable(p) <==> Usable(prev) && Satisfiable(ts, bits, off)
    ensures Usable(p) ==> Remains(s, p, rest) && MaskOf(p.field, ts, bits, off)
  {
    p := NextParsed(s, prev, bits, off, key);
    if Usable(prev) {
      NextField(s, prev.pos, ts, rest, bits, off, key);
    }
  }

  lemma {:induction false} LastField(s: string, prev: Parsed, ts: seq<Term>, bits: int, off: int, key: seq<string>)
    requires Names(key) && bits > 0 && off >= 0 && FieldOk(ts, bits, off)
    requires prev.Parsed? && (Usable(prev) ==> Remains(s, prev, Print(ts)))
    requires prev.pos <= |s|
    ensures var p := NextParsed(s, prev, bits, off, key);
      && (Usable(p) <==> Usable(prev) && Satisfiable(ts, bits, off))
      && (Usable(p) ==> MaskOf(p.field, ts, bits, off))
  {
    if Usable(prev) {
      FieldAt(s, prev.pos, ts, bits, off, key);
    }
  }

  /** The five masks of a printed entry. */
  lemma {:induction false} FieldsParsed(e: Spec)
    requires SpecOk(e)
    ensures var r := FiveFields(PrintSpec(e));
      && (r.Installed? <==> SpecSatisfiable(e))
      && (r.Installed? ==>
            && MaskOf(r.cron.min, e.mi, 60, 0) && MaskOf(r.cron.hour, e.ho, 24, 0) && MaskOf(r.cron.mday, e.dm, 31, 1)
            && MaskOf(r.cron.mon, e.mo, 12, 1) && MaskOf(r.cron.wday, e.dw, 7, 0))
  {
    var s := PrintSpec(e);
    var t3 := Print(e.mo) + (" " + Print(e.dw));
    var mi, ho := FirstTwoRead(e);
    var dm := FieldAfter(s, ho, e.dm, t3, 31, 1, []);
    var mo := FieldAfter(s, dm, e.mo, Print(e.dw), 12, 1, MONTHS);
    LastField(s, mo, e.dw, 7, 0, DAYS);
  }

  lemma {:induction false} FirstTwoRead(e: Spec) returns (mi: Parsed, ho: Parsed)
    requires SpecOk(e)
    ensures mi == ParseField(PrintSpec(e), 0, 60, 0, []) && ho == NextParsed(PrintSpec(e), mi, 24, 0, [])
    ensures mi.Parsed? && ho.Parsed? && (Usable(ho) <==> Satisfiable(e.mi, 60, 0) && Satisfiable(e.ho, 24, 0))
    ensures Usable(ho) ==>
      && Remains(PrintSpec(e), ho, Print(e.dm) + (" " + (Print(e.mo) + (" " + Print(e.dw)))))
      && Usable(mi) && MaskOf(mi.field, e.mi, 60, 0) && MaskOf(ho.field, e.ho, 24, 0)
  {
    var s := PrintSpec(e);
    var t2 := Print(e.dm) + (" " + (Print(e.mo) + (" " + Print(e.dw))));
    var t1 := Print(e.ho) + (" " + t2);
    assert Occurs(s, 0, Print(e.mi) + (" " + t1));
    NextField(s, 0, e.mi, t1, 60, 0, []);
    mi := ParseField(s, 0, 60, 0, []);
    ho := FieldAfter(s, mi, e.ho, t2, 24, 0, []);
  }

  /** An entry printed from terms in range is accepted exactly when each field denotes some
      value, and its masks then match a time exactly when the entry's terms do. */
  lemma {:induction false} EntryParsed(e: Spec)
    requires SpecOk(e)
    ensures var r := CronSet(PrintSpec(e));
      && (r.Installed? <==> SpecSatisfiable(e))
      && (r.Installed? ==> WellFormed(r.cron) && forall t :: ValidTm(t) ==> (Matches(r.cron, t) <==> Fires(e, t)))
  {
    var s := PrintSpec(e);
    PrintHead(e.mi);
    assert s[0] == Print(e.mi)[0];
    FieldsParsed(e);
    var r := CronSet(s);
    assert r == FiveFields(s);
    if r.Installed? {
      FiveFieldsWellFormed(s);
      forall t | ValidTm(t) ensures Matches(r.cron, t) <==> Fires(e, t) {
        MatchesIffFires(r.cron, e, t);
      }
    }
  }
}
