/** What the filter selects, said without its loops. */
module EsFilterLaws {
  import opened EsFilter

  // ---------------------------------------------------------------- the exclusive stream

  /** Rule r is the first enabled EXCLUSIVE rule of its class that hits a stream, and j the
      first stream it hits. */
  ghost predicate FirstExclusive(x: Input, c: nat, r: nat, j: nat)
    requires Valid(x) && c <= CLASS_LAST
  {
    && r < |x.rules[c]| && ExclusiveHit(x, c, r, j)
    && (forall k :: 0 <= k < j ==> !Hits(x, c, x.rules[c][r], k))
    && (forall q, k :: 0 <= q < r && 0 <= k < |x.streams| ==> !ExclusiveHit(x, c, q, k))
  }

  predicate ExclusiveHit(x: Input, c: nat, r: nat, j: nat)
    requires Valid(x) && c <= CLASS_LAST && r < |x.rules[c]|
  {
    x.rules[c][r].enabled && x.rules[c][r].action == Exclusive && Hits(x, c, x.rules[c][r], j)
  }

  ghost predicate HasExclusive(x: Input, c: nat)
    requires Valid(x) && c <= CLASS_LAST
  {
    exists r, j :: 0 <= r < |x.rules[c]| && 0 <= j < |x.streams| && ExclusiveHit(x, c, r, j)
  }

  /** The state at the start of a class, w0, and one reached within it, w. */
  ghost predicate Within(x: Input, c: nat, w0: Work, w: Work) {
    && Sized(x, w0) && Sized(x, w) && |w0.picked| <= |w.picked|
    && (forall i :: 0 <= i < |w0.picked| ==> w.picked[i] == w0.picked[i])
    && (forall i :: |w0.picked| <= i < |w.picked| ==> InClass(x, c, w.picked[i]) && w.flags[w.picked[i]].used)
    && (forall i, k :: |w0.picked| <= i < k < |w.picked| ==> w.picked[i] != w.picked[k])
    && (forall j :: 0 <= j < |x.streams| && !InClass(x, c, j) ==> w.flags[j] == w0.flags[j])
  }

  /** Every stream of the class that is marked as used was picked for it. */
  ghost predicate UsedArePicked(x: Input, c: nat, w0: Work, w: Work)
    requires Sized(x, w)
  {
    forall j: nat :: InClass(x, c, j) && w.flags[j].used ==> PickedFrom(w, |w0.picked|, j)
  }

  ghost predicate PickedFrom(w: Work, o: nat, j: nat) {
    exists i :: o <= i < |w.picked| && w.picked[i] == j
  }

  lemma {:induction false} AddStaysWithin(x: Input, c: nat, w0: Work, w: Work, j: nat)
    requires Within(x, c, w0, w) && UsedArePicked(x, c, w0, w) && InClass(x, c, j)
    ensures Within(x, c, w0, Add(w, j)) && UsedArePicked(x, c, w0, Add(w, j))
  {
    var v := Add(w, j);
    forall k: nat | InClass(x, c, k) && v.flags[k].used ensures PickedFrom(v, |w0.picked|, k) {
      if w.flags[k].used {
        assert PickedFrom(w, |w0.picked|, k);
        var i :| |w0.picked| <= i < |w.picked| && w.picked[i] == k;
        assert v.picked[i] == k;
      } else {
        assert v.picked[|w.picked|] == k;
      }
    }
  }

  lemma {:induction false} ActStaysWithin(x: Input, c: nat, rule: Rule, w0: Work, w: Work, j: nat)
    requires Within(x, c, w0, w) && UsedArePicked(x, c, w0, w) && InClass(x, c, j)
    ensures Within(x, c, w0, Act(x, c, rule, w, |w0.picked|, j))
    ensures UsedArePicked(x, c, w0, Act(x, c, rule, w, |w0.picked|, j))
  {
    AddStaysWithin(x, c, w0, w, j);
    MarkStaysWithin(x, c, w0, w, j);
  }

  lemma {:induction false} MarkStaysWithin(x: Input, c: nat, w0: Work, w: Work, j: nat)
    requires Within(x, c, w0, w) && UsedArePicked(x, c, w0, w) && InClass(x, c, j)
    ensures Within(x, c, w0, Mark(w, j)) && UsedArePicked(x, c, w0, Mark(w, j))
  {
    var v := Mark(w, j);
    forall k: nat | InClass(x, c, k) && v.flags[k].used ensures PickedFrom(v, |w0.picked|, k) {
      assert PickedFrom(w, |w0.picked|, k);
    }
  }

  /** A rule either finishes all streams within the class, or it is EXCLUSIVE and stops at
      the first stream it hits. */
  lemma {:induction false} OverStreamsIs(x: Input, c: nat, rule: Rule, w0: Work, w: Work, j: nat)
    requires Within(x, c, w0, w) && UsedArePicked(x, c, w0, w) && j <= |x.streams|
    ensures var res := OverStreams(x, c, rule, w, |w0.picked|, j);
      if res.exclusive then
        rule.action == Exclusive &&
        exists k :: j <= k < |x.streams| && Hits(x, c, rule, k) && (forall i :: j <= i < k ==> !Hits(x, c, rule, i))
                    && res.w == Alone(w, |w0.picked|, k)
      else
        && Within(x, c, w0, res.w) && UsedArePicked(x, c, w0, res.w)
        && (rule.action == Exclusive ==> forall i :: j <= i < |x.streams| ==> !Hits(x, c, rule, i))
    decreases |x.streams| - j
  {
    if j < |x.streams| {
      if !Hits(x, c, rule, j) {
        OverStreamsIs(x, c, rule, w0, w, j + 1);
      } else if rule.action != Exclusive {
        ActStaysWithin(x, c, rule, w0, w, j);
        OverStreamsIs(x, c, rule, w0, Act(x, c, rule, w, |w0.picked|, j), j + 1);
      }
    }
  }

  /** The rules of a class come to an EXCLUSIVE hit exactly when there is one, and then only
      the first stream of the first such rule is picked for the class. */
  lemma {:induction false} OverRulesIs(x: Input, c: nat, w0: Work, w: Work, r: nat)
    requires Valid(x) && c <= CLASS_LAST && r <= |x.rules[c]|
    requires Within(x, c, w0, w) && UsedArePicked(x, c, w0, w)
    requires forall q, k :: 0 <= q < r && 0 <= k < |x.streams| ==> !ExclusiveHit(x, c, q, k)
    ensures var res := OverRules(x, c, w, |w0.picked|, r);
      if res.exclusive then
        exists q: nat, k: nat :: q < |x.rules[c]| && k < |x.streams| && FirstExclusive(x, c, q, k)
                       && Within(x, c, w0, res.w) && res.w.picked == w0.picked + [k]
      else Within(x, c, w0, res.w) && UsedArePicked(x, c, w0, res.w) && !HasExclusive(x, c)
    decreases |x.rules[c]| - r
  {
    if r < |x.rules[c]| {
      var rule := x.rules[c][r];
      if !rule.enabled {
        OverRulesIs(x, c, w0, w, r + 1);
      } else {
        OverStreamsIs(x, c, rule, w0, w, 0);
        var one := OverStreams(x, c, rule, w, |w0.picked|, 0);
        if one.exclusive {
          var k :| 0 <= k < |x.streams| && Hits(x, c, rule, k) && (forall i :: 0 <= i < k ==> !Hits(x, c, rule, i))
            && one.w == Alone(w, |w0.picked|, k);
          AloneIs(x, c, w0, w, k);
          assert FirstExclusive(x, c, r, k);
        } else {
          OverRulesIs(x, c, w0, one.w, r + 1);
        }
      }
    }
  }

  lemma {:induction false} AloneIs(x: Input, c: nat, w0: Work, w: Work, k: nat)
    requires Within(x, c, w0, w) && InClass(x, c, k)
    ensures Within(x, c, w0, Alone(w, |w0.picked|, k)) && Alone(w, |w0.picked|, k).picked == w0.picked + [k]
  {
    assert w.picked[..|w0.picked|] == w0.picked;
  }

  lemma {:induction false} FirstExclusiveIsUnique(x: Input, c: nat, r: nat, j: nat, q: nat, k: nat)
    requires Valid(x) && c <= CLASS_LAST && j < |x.streams| && k < |x.streams|
    requires FirstExclusive(x, c, r, j) && FirstExclusive(x, c, q, k)
    ensures r == q && j == k
  {
    assert ExclusiveHit(x, c, r, j) && ExclusiveHit(x, c, q, k);
  }

  // ---------------------------------------------------------------- the other streams

  /** Streams of the class from the j-th on that are not marked get picked as well, and no
      other mark changes. */
  lemma {:induction false} AddRestIs(x: Input, c: nat, w0: Work, w: Work, j: nat)
    requires Valid(x) && c <= CLASS_LAST && j <= |x.streams|
    requires Within(x, c, w0, w) && UsedArePicked(x, c, w0, w)
    ensures var v := AddRest(x, c, w, j);
      && Within(x, c, w0, v) && UsedArePicked(x, c, w0, v)
      && (forall k: nat :: InClass(x, c, k) ==>
            v.flags[k].used == (w.flags[k].used || (j <= k && Unmarked(x, c, w.flags[k])))
            && v.flags[k].ignored == w.flags[k].ignored)
    decreases |x.streams| - j
  {
    if j < |x.streams| {
      if InClass(x, c, j) && Unmarked(x, c, w.flags[j]) {
        AddStaysWithin(x, c, w0, w, j);
        AddRestIs(x, c, w0, Add(w, j), j + 1);
      } else {
        AddRestIs(x, c, w0, w, j + 1);
      }
    }
  }

  /** The class of a stream; streams of no class come last. */
  function ClassOf(x: Input, j: nat): nat
    requires j < |x.streams|
  {
    var t := x.streams[j].typ;
    if t in Mask(1) then 1 else if t in Mask(2) then 2 else if t in Mask(3) then 3
    else if t in Mask(4) then 4 else if t in Mask(5) then 5 else if t in Mask(6) then 6 else CLASS_LAST + 1
  }

  lemma {:induction false} ClassOfIs(x: Input, c: nat, j: nat)
    requires j < |x.streams| && CLASS_VIDEO <= c <= CLASS_LAST
    ensures InClass(x, c, j) <==> ClassOf(x, j) == c
  {
  }

  /** Each index once, the classes in order. */
  ghost predicate Grouped(x: Input, s: seq<nat>) {
    && (forall i :: 0 <= i < |s| ==> s[i] < |x.streams|)
    && (forall i, k :: 0 <= i < k < |s| ==> s[i] != s[k] && ClassOf(x, s[i]) <= ClassOf(x, s[k]))
  }

  /** The state before class c: only streams of earlier classes are picked, and no other
      stream is marked. */
  ghost predicate Before(x: Input, c: nat, w: Work) {
    && Sized(x, w) && Grouped(x, w.picked)
    && (forall i :: 0 <= i < |w.picked| ==> ClassOf(x, w.picked[i]) < c)
    && (forall j :: 0 <= j < |x.streams| && c <= ClassOf(x, j) ==> w.flags[j] == Flags(false, false))
  }

  lemma {:induction false} BeforeNext(x: Input, c: nat, w0: Work, w: Work)
    requires CLASS_VIDEO <= c <= CLASS_LAST && Before(x, c, w0) && Within(x, c, w0, w)
    ensures Before(x, c + 1, w)
  {
    forall i | 0 <= i < |w.picked| ensures w.picked[i] < |x.streams| && ClassOf(x, w.picked[i]) < c + 1 {
      if |w0.picked| <= i {
        ClassOfIs(x, c, w.picked[i]);
      } else {
        assert w.picked[i] == w0.picked[i];
      }
    }
    forall i, k | 0 <= i < k < |w.picked|
      ensures w.picked[i] != w.picked[k] && ClassOf(x, w.picked[i]) <= ClassOf(x, w.picked[k])
    {
      if |w0.picked| <= k {
        ClassOfIs(x, c, w.picked[k]);
        if i < |w0.picked| {
          assert w.picked[i] == w0.picked[i];
        } else {
          ClassOfIs(x, c, w.picked[i]);
        }
      } else {
        assert w.picked[i] == w0.picked[i] && w.picked[k] == w0.picked[k];
      }
    }
    forall j | 0 <= j < |x.streams| && c + 1 <= ClassOf(x, j) ensures w.flags[j] == Flags(false, false) {
      ClassOfIs(x, c, j);
    }
  }

  lemma {:induction false} StartIsWithin(x: Input, c: nat, w: Work)
    requires CLASS_VIDEO <= c <= CLASS_LAST && Before(x, c, w)
    ensures Within(x, c, w, w) && UsedArePicked(x, c, w, w)
    ensures forall j: nat :: InClass(x, c, j) ==> w.flags[j] == Flags(false, false)
  {
    forall j: nat | InClass(x, c, j) ensures w.flags[j] == Flags(false, false) {
      ClassOfIs(x, c, j);
    }
  }

  /** The marks the rules of a class leave on the streams. */
  function RuleMarks(x: Input, c: nat, w: Work): (f: seq<Flags>)
    requires Valid(x) && c <= CLASS_LAST && Sized(x, w)
    ensures |f| == |x.streams|
  {
    OverRules(x, c, w, |w.picked|, 0).w.flags
  }

  lemma {:induction false} PickedIffUsed(x: Input, c: nat, w0: Work, w: Work, j: nat)
    requires Before(x, c, w0) && Within(x, c, w0, w) && UsedArePicked(x, c, w0, w)
    requires CLASS_VIDEO <= c <= CLASS_LAST && InClass(x, c, j)
    ensures j in w.picked <==> w.flags[j].used
  {
    if w.flags[j].used {
      assert PickedFrom(w, |w0.picked|, j);
    }
    if j in w.picked {
      var i :| 0 <= i < |w.picked| && w.picked[i] == j;
      ClassOfIs(x, c, j);
      if i < |w0.picked| {
        assert w0.picked[i] == j;
      }
    }
  }

  /** What one class selects. */
  lemma {:induction false} OneClassIs(x: Input, c: nat, w0: Work, j: nat)
    requires Valid(x) && CLASS_VIDEO <= c <= CLASS_LAST && Before(x, c, w0) && InClass(x, c, j)
    ensures j in OneClass(x, c, w0).picked <==>
      if x.rules[c] == [] then true
      else if HasExclusive(x, c) then exists r: nat :: r < |x.rules[c]| && FirstExclusive(x, c, r, j)
      else RuleMarks(x, c, w0)[j].used || !RuleMarks(x, c, w0)[j].ignored
  {
    var w := OneClass(x, c, w0);
    StartIsWithin(x, c, w0);
    if x.rules[c] == [] {
      AddRestIs(x, c, w0, w0, 0);
      PickedIffUsed(x, c, w0, w, j);
    } else {
      OverRulesIs(x, c, w0, w0, 0);
      var res := OverRules(x, c, w0, |w0.picked|, 0);
      if res.exclusive {
        ExclusivePicked(x, c, w0, j);
      } else {
        AddRestIs(x, c, w0, res.w, 0);
        PickedIffUsed(x, c, w0, w, j);
      }
    }
  }

  lemma {:induction false} OneClassIsWithin(x: Input, c: nat, w0: Work)
    requires Valid(x) && CLASS_VIDEO <= c <= CLASS_LAST && Before(x, c, w0)
    ensures Within(x, c, w0, OneClass(x, c, w0))
  {
    StartIsWithin(x, c, w0);
    if x.rules[c] == [] {
      AddRestIs(x, c, w0, w0, 0);
    } else {
      OverRulesIs(x, c, w0, w0, 0);
      var res := OverRules(x, c, w0, |w0.picked|, 0);
      if !res.exclusive {
        AddRestIs(x, c, w0, res.w, 0);
      }
    }
  }

  lemma {:induction false} ExclusivePicked(x: Input, c: nat, w0: Work, j: nat)
    requires Valid(x) && CLASS_VIDEO <= c <= CLASS_LAST && Before(x, c, w0) && InClass(x, c, j)
    requires OverRules(x, c, w0, |w0.picked|, 0).exclusive
    ensures HasExclusive(x, c)
    ensures j in OverRules(x, c, w0, |w0.picked|, 0).w.picked <==>
      exists r: nat :: r < |x.rules[c]| && FirstExclusive(x, c, r, j)
  {
    StartIsWithin(x, c, w0);
    OverRulesIs(x, c, w0, w0, 0);
    var w := OverRules(x, c, w0, |w0.picked|, 0).w;
    var q: nat, k: nat :|
      q < |x.rules[c]| && k < |x.streams| && FirstExclusive(x, c, q, k) && w.picked == w0.picked + [k];
    assert ExclusiveHit(x, c, q, k);
    ClassOfIs(x, c, j);
    if j in w.picked {
      assert j == k;
    }
    if r: nat :| r < |x.rules[c]| && FirstExclusive(x, c, r, j) {
      FirstExclusiveIsUnique(x, c, q, k, r, j);
    }
  }

  // ---------------------------------------------------------------- the whole list

  lemma {:induction false} ClassesBefore(x: Input, c: nat)
    requires Valid(x) && CLASS_VIDEO <= c <= CLASS_LAST + 1
    ensures Before(x, c, Classes(x, c))
  {
    if CLASS_VIDEO < c {
      ClassesBefore(x, c - 1);
      OneClassIsWithin(x, c - 1, Classes(x, c - 1));
      BeforeNext(x, c - 1, Classes(x, c - 1), Classes(x, c));
    }
  }

  /** Later classes do not touch what was picked for a class. */
  lemma {:induction false} LaterClasses(x: Input, c: nat, d: nat, j: nat)
    requires Valid(x) && CLASS_VIDEO <= c < d <= CLASS_LAST + 1 && InClass(x, c, j)
    ensures j in Classes(x, d).picked <==> j in Classes(x, c + 1).picked
  {
    if c + 1 < d {
      LaterClasses(x, c, d - 1, j);
      var (w, v) := (Classes(x, d - 1), Classes(x, d));
      ClassesBefore(x, d - 1);
      OneClassIsWithin(x, d - 1, w);
      if j in w.picked {
        var i :| 0 <= i < |w.picked| && w.picked[i] == j;
        assert v.picked[i] == j;
      }
      if j in v.picked {
        var i :| 0 <= i < |v.picked| && v.picked[i] == j;
        ClassOfIs(x, c, j);
        ClassOfIs(x, d - 1, j);
        assert i < |w.picked| && w.picked[i] == j;
      }
    }
  }

  function Below(n: nat): (t: set<nat>)
    ensures |t| == n && forall i :: i in t <==> 0 <= i < n
  {
    if n == 0 then {} else Below(n - 1) + {n - 1}
  }

  /** A list of different elements of a set is no longer than the set is large. */
  lemma {:induction false} DistinctInside(s: seq<nat>, t: set<nat>)
    requires forall i :: 0 <= i < |s| ==> s[i] in t
    requires forall i, k :: 0 <= i < k < |s| ==> s[i] != s[k]
    ensures |s| <= |t|
  {
    if s != [] {
      var n := |s| - 1;
      DistinctInside(s[..n], t - {s[n]});
    }
  }

  /** The filtered list has no stream twice, only streams of the service, at most as many,
      and, where there are rules, its classes in order. */
  lemma {:induction false} BuildIsGrouped(x: Input)
    requires Valid(x)
    ensures var s := Build(x);
      && (forall i :: 0 <= i < |s| ==> s[i] < |x.streams|)
      && (forall i, k :: 0 <= i < k < |s| ==> s[i] != s[k])
      && |s| <= |x.streams|
      && (!NoRules(x) ==> Grouped(x, s))
  {
    ClassesBefore(x, CLASS_LAST + 1);
    DistinctInside(Build(x), Below(|x.streams|));
  }

  /** What is selected.  Without any rule everything; else only streams that have a class.
      A class without rules keeps all its streams, one with an EXCLUSIVE hit keeps exactly
      the first stream of the first such rule, any other drops exactly the streams its rules
      mark as ignored and never as used. */
  lemma {:induction false} BuildSelects(x: Input, j: nat)
    requires Valid(x) && j < |x.streams|
    ensures j in Build(x) <==>
      || NoRules(x)
      || (ClassOf(x, j) <= CLASS_LAST &&
          var c := ClassOf(x, j);
          if x.rules[c] == [] then true
          else if HasExclusive(x, c) then exists r: nat :: r < |x.rules[c]| && FirstExclusive(x, c, r, j)
          else var f := RuleMarks(x, c, Classes(x, c))[j]; f.used || !f.ignored)
  {
    if NoRules(x) {
      assert Build(x)[j] == j;
    } else {
      var c := ClassOf(x, j);
      ClassesBefore(x, CLASS_LAST + 1);
      if c <= CLASS_LAST {
        ClassOfIs(x, c, j);
        LaterClasses(x, c, CLASS_LAST + 1, j);
        ClassesBefore(x, c);
        OneClassIs(x, c, Classes(x, c), j);
      }
    }
  }
}
