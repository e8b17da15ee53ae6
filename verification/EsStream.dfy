/** The nested loops of elementary_set_filter_build (src/esstream.c) over the streams and
    their flags, proved against EsFilter.Build. */
module EsStream {
  import opened EsFilter
  import opened EsFilterLaws

  class ElementaryStream {
    const info: Info
    var used: bool
    var ignored: bool

    constructor (info: Info)
      ensures this.info == info
    {
      this.info := info;
    }
  }

  /** No index twice, and all of them marked as used. */
  ghost predicate Tidy(w: Work) {
    && (forall i :: 0 <= i < |w.picked| ==> w.picked[i] < |w.flags| && w.flags[w.picked[i]].used)
    && (forall i, k :: 0 <= i < k < |w.picked| ==> w.picked[i] != w.picked[k])
  }

  /** The first o picks are of other classes. */
  ghost predicate OthersFirst(x: Input, c: nat, w: Work, o: nat) {
    o <= |w.picked| && forall i :: 0 <= i < o ==> !InClass(x, c, w.picked[i])
  }

  lemma {:induction false} RoomToAdd(w: Work, j: nat)
    requires Tidy(w) && j < |w.flags| && !w.flags[j].used
    ensures |w.picked| < |w.flags|
  {
    DistinctInside(w.picked, Below(|w.flags|) - {j});
  }

  lemma {:induction false} AloneIsTidy(x: Input, c: nat, w: Work, o: nat, j: nat)
    requires Tidy(w) && Sized(x, w) && OthersFirst(x, c, w, o) && InClass(x, c, j)
    ensures Tidy(Alone(w, o, j)) && OthersFirst(x, c, Alone(w, o, j), o)
  {
  }

  lemma {:induction false} ActIsTidy(x: Input, c: nat, rule: Rule, w: Work, o: nat, j: nat)
    requires Tidy(w) && Sized(x, w) && OthersFirst(x, c, w, o) && j < |x.streams|
    ensures Tidy(Act(x, c, rule, w, o, j)) && OthersFirst(x, c, Act(x, c, rule, w, o, j), o)
  {
  }

  class ElementarySet {
    const all: seq<ElementaryStream>
    const service: string
    var filter: seq<ElementaryStream>

    constructor (all: seq<ElementaryStream>, service: string)
      ensures this.all == all && this.service == service && filter == []
    {
      this.all, this.service, filter := all, service, [];
    }

    ghost predicate Valid() {
      forall i, k :: 0 <= i < k < |all| ==> all[i] != all[k]
    }

    ghost predicate Describes(x: Input) {
      && EsFilter.Valid(x) && x.service == service && |x.streams| == |all|
      && forall j :: 0 <= j < |all| ==> x.streams[j] == all[j].info
    }

    ghost predicate FlagsAre(f: seq<Flags>)
      reads all
    {
      |f| == |all| && forall j :: 0 <= j < |all| ==> f[j] == Flags(all[j].used, all[j].ignored)
    }

    /** The filtered list holds the streams with these indices. */
    ghost predicate Lists(picked: seq<nat>)
      reads this
    {
      |filter| == |picked| && forall i :: 0 <= i < |picked| ==> picked[i] < |all| && filter[i] == all[picked[i]]
    }

    /** The flags, the filtered list and the first p entries of `sta` are as in w. */
    ghost predicate Holds(w: Work, sta: array<ElementaryStream?>, p: nat)
      reads this, all, sta
    {
      && FlagsAre(w.flags) && Lists(w.picked)
      && p == |filter| <= sta.Length == |all|
      && forall i :: 0 <= i < p ==> sta[i] == filter[i]
    }

    /** elementary_set_filter_build_add. */
    method Add(j: nat, sta: array<ElementaryStream?>, p: nat, ghost w: Work) returns (q: nat)
      requires Valid() && j < |all| && Holds(w, sta, p) && Tidy(w)
      modifies this, all[j], sta
      ensures Holds(EsFilter.Add(w, j), sta, q)
    {
      var st := all[j];
      if st.used {
        return p;
      }
      RoomToAdd(w, j);
      st.used := true;
      filter := filter + [st];
      sta[p] := st;
      q := p + 1;
    }

    /** The search of ONE_TIME for a stream that was used before. */
    method Spoiled(c: nat, rule: Rule, j: nat, ghost x: Input, ghost w: Work) returns (found: bool)
      requires Describes(x) && j < |all| && FlagsAre(w.flags)
      ensures found == EsFilter.Spoiled(x, c, rule, w, j)
    {
      for k := 0 to |all|
        invariant forall i :: 0 <= i < k ==> !Spoils(x, c, rule, w, j, i)
      {
        var st2 := all[k];
        if st2.used && st2.info.typ in Mask(c)
           && (c == CLASS_CA || (k != j && (rule.language == "" || st2.info.lang == all[j].info.lang)))
        {
          assert Spoils(x, c, rule, w, j, k);
          return true;
        }
      }
      found := false;
    }

    /** The switch over the actions other than EXCLUSIVE. */
    method Act(c: nat, rule: Rule, o: nat, j: nat, sta: array<ElementaryStream?>, p: nat, ghost x: Input, ghost w: Work)
      returns (q: nat)
      requires Valid() && Describes(x) && j < |all| && Holds(w, sta, p) && Tidy(w)
      modifies this, all[j], sta
      ensures Holds(EsFilter.Act(x, c, rule, w, o, j), sta, q)
    {
      q := p;
      match rule.action
      case Nothing =>
      case Exclusive =>
      case Ignore => all[j].ignored := true;
      case OneTime =>
        var spoiled := Spoiled(c, rule, j, x, w);
        if spoiled {
          all[j].ignored := true;
        } else {
          q := Add(j, sta, p, w);
        }
      case Use => q := Add(j, sta, p, w);
      case Empty =>
        if p == o {
          q := Add(j, sta, p, w);
        }
    }

    /** TAILQ_REMOVE of the last entry, until o entries are left. */
    method Forget(o: nat, sta: array<ElementaryStream?>, p: nat, ghost w: Work) returns (q: nat)
      requires Valid() && Holds(w, sta, p) && Tidy(w) && o <= p
      modifies this`filter
      ensures q == o && Holds(w.(picked := w.picked[..o]), sta, q)
    {
      q := p;
      while q > o
        invariant o <= q <= p && Holds(w.(picked := w.picked[..q]), sta, q)
      {
        q := q - 1;
        LastOnly(w.picked[..q + 1]);
        RemovesLast(filter);
        filter := Without(filter, sta[q]);
      }
    }

    lemma {:induction false} LastOnly(picked: seq<nat>)
      requires Valid() && Lists(picked) && forall i, k :: 0 <= i < k < |picked| ==> picked[i] != picked[k]
      ensures forall i, k :: 0 <= i < k < |filter| ==> filter[i] != filter[k]
    {
    }

    /** EXCLUSIVE: forget what was picked for the class, then pick stream j. */
    method Alone(c: nat, o: nat, j: nat, sta: array<ElementaryStream?>, p: nat, ghost x: Input, ghost w: Work)
      returns (q: nat)
      requires Valid() && Describes(x) && Holds(w, sta, p) && Tidy(w) && OthersFirst(x, c, w, o) && InClass(x, c, j)
      modifies this, all[j], sta
      ensures Holds(EsFilter.Alone(w, o, j), sta, q)
    {
      q := Forget(o, sta, p, w);
      all[j].used, all[j].ignored := false, false;
      ghost var v := Work(w.flags[j := Flags(false, false)], w.picked[..o]);
      q := Add(j, sta, q, v);
      assert EsFilter.Add(v, j) == EsFilter.Alone(w, o, j);
    }

    /** A rule has hit stream j. */
    method Hit(c: nat, rule: Rule, o: nat, j: nat, sta: array<ElementaryStream?>, p: nat, ghost x: Input, ghost w: Work)
      returns (q: nat, exclusive: bool)
      requires Valid() && Describes(x) && InClass(x, c, j)
      requires Holds(w, sta, p) && Tidy(w) && OthersFirst(x, c, w, o)
      modifies this, all[j], sta
      ensures exclusive == rule.action.Exclusive?
      ensures var w' := if exclusive then EsFilter.Alone(w, o, j) else EsFilter.Act(x, c, rule, w, o, j);
        Holds(w', sta, q) && Tidy(w') && OthersFirst(x, c, w', o)
    {
      exclusive := rule.action == Exclusive;
      if exclusive {
        q := Alone(c, o, j, sta, p, x, w);
        AloneIsTidy(x, c, w, o, j);
      } else {
        q := Act(c, rule, o, j, sta, p, x, w);
        ActIsTidy(x, c, rule, w, o, j);
      }
    }

    /** One rule over all streams. */
    method OverStreams(c: nat, rule: Rule, o: nat, sta: array<ElementaryStream?>, p: nat, ghost x: Input, ghost w: Work)
      returns (q: nat, exclusive: bool)
      requires Valid() && Describes(x) && Holds(w, sta, p) && Tidy(w) && OthersFirst(x, c, w, o)
      modifies this, all, sta
      ensures var res := EsFilter.OverStreams(x, c, rule, w, o, 0);
        exclusive == res.exclusive && Holds(res.w, sta, q) && Tidy(res.w) && OthersFirst(x, c, res.w, o)
    {
      q, exclusive := p, false;
      var sindex := 0;
      ghost var cur := w;
      for j := 0 to |all|
        invariant Holds(cur, sta, q) && Tidy(cur) && OthersFirst(x, c, cur, o)
        invariant EsFilter.OverStreams(x, c, rule, w, o, 0) == EsFilter.OverStreams(x, c, rule, cur, o, j)
        invariant sindex == MatchCount(x, c, rule, j)
      {
        var st := all[j];
        if st.info.typ in Mask(c) && Meets(c, rule, service, st.info) {
          sindex := sindex + 1;
          if rule.sindex == 0 || rule.sindex == sindex {
            q, exclusive := Hit(c, rule, o, j, sta, q, x, cur);
            if exclusive {
              return;
            }
            cur := EsFilter.Act(x, c, rule, cur, o, j);
          }
        }
      }
    }

    /** The rules of a class in order; a rule that is not enabled is passed over. */
    method OverRules(c: nat, rules: seq<Rule>, sta: array<ElementaryStream?>, p: nat, ghost x: Input, ghost w: Work)
      returns (q: nat, exclusive: bool)
      requires Valid() && Describes(x) && c <= CLASS_LAST && rules == x.rules[c]
      requires Holds(w, sta, p) && Tidy(w) && OthersFirst(x, c, w, p)
      modifies this, all, sta
      ensures var res := EsFilter.OverRules(x, c, w, p, 0);
        exclusive == res.exclusive && Holds(res.w, sta, q) && Tidy(res.w)
    {
      q, exclusive := p, false;
      ghost var cur := w;
      for r := 0 to |rules|
        invariant Holds(cur, sta, q) && Tidy(cur) && OthersFirst(x, c, cur, p)
        invariant EsFilter.OverRules(x, c, w, p, 0) == EsFilter.OverRules(x, c, cur, p, r)
      {
        if rules[r].enabled {
          q, exclusive := OverStreams(c, rules[r], p, sta, q, x, cur);
          cur := EsFilter.OverStreams(x, c, rules[r], cur, p, 0).w;
          if exclusive {
            return;
          }
        }
      }
    }

    /** The streams of the class, in a class with rules only those without a mark. */
    method AddRest(c: nat, ruled: bool, sta: array<ElementaryStream?>, p: nat, ghost x: Input, ghost w: Work)
      returns (q: nat)
      requires Valid() && Describes(x) && c <= CLASS_LAST && ruled == (x.rules[c] != [])
      requires Holds(w, sta, p) && Tidy(w)
      modifies this, all, sta
      ensures Holds(EsFilter.AddRest(x, c, w, 0), sta, q) && Tidy(EsFilter.AddRest(x, c, w, 0))
    {
      q := p;
      ghost var cur := w;
      for j := 0 to |all|
        invariant Holds(cur, sta, q) && Tidy(cur)
        invariant EsFilter.AddRest(x, c, w, 0) == EsFilter.AddRest(x, c, cur, j)
      {
        var st := all[j];
        if st.info.typ in Mask(c) && (!ruled || (!st.used && !st.ignored)) {
          q := Add(j, sta, q, cur);
          AddIsTidy(cur, j);
          cur := EsFilter.Add(cur, j);
        }
      }
    }

    method OneClass(c: nat, rules: seq<Rule>, sta: array<ElementaryStream?>, p: nat, ghost x: Input, ghost w: Work)
      returns (q: nat)
      requires Valid() && Describes(x) && CLASS_VIDEO <= c <= CLASS_LAST && rules == x.rules[c]
      requires Holds(w, sta, p) && Tidy(w) && OthersFirst(x, c, w, p)
      modifies this, all, sta
      ensures Holds(EsFilter.OneClass(x, c, w), sta, q) && Tidy(EsFilter.OneClass(x, c, w))
    {
      if rules == [] {
        q := AddRest(c, false, sta, p, x, w);
      } else {
        var exclusive;
        q, exclusive := OverRules(c, rules, sta, p, x, w);
        if !exclusive {
          q := AddRest(c, true, sta, q, x, EsFilter.OverRules(x, c, w, p, 0).w);
        }
      }
    }

    /** Setting all flags to 0 and counting the streams. */
    method Reset() returns (n: nat)
      requires Valid()
      modifies all
      ensures n == |all| && forall j :: 0 <= j < |all| ==> !all[j].used && !all[j].ignored
    {
      n := 0;
      for j := 0 to |all|
        invariant n == j && forall i :: 0 <= i < j ==> !all[i].used && !all[i].ignored
      {
        all[j].used, all[j].ignored := false, false;
        n := n + 1;
      }
    }

    /** elementary_set_filter_build. */
    method FilterBuild(rules: seq<seq<Rule>>, ghost x: Input)
      requires Valid() && Describes(x) && rules == x.rules
      modifies this, all
      ensures Lists(Build(x))
    {
      filter := [];
      var any := AnyRules(rules);
      if !any {
        for j := 0 to |all|
          invariant filter == all[..j]
        {
          filter := filter + [all[j]];
        }
        return;
      }
      var n := Reset();
      var sta := new ElementaryStream?[n](_ => null);
      var p := 0;
      for c := CLASS_VIDEO to CLASS_LAST + 1
        invariant fresh(sta) && Holds(Classes(x, c), sta, p) && Tidy(Classes(x, c))
      {
        ClassesBefore(x, c);
        EarlierOthers(x, c, Classes(x, c));
        p := OneClass(c, rules[c], sta, p, x, Classes(x, c));
      }
    }

    /** Whether any class has rules. */
    method AnyRules(rules: seq<seq<Rule>>) returns (any: bool)
      requires |rules| == CLASS_LAST + 1
      ensures any <==> exists d :: CLASS_VIDEO <= d <= CLASS_LAST && rules[d] != []
    {
      any := false;
      for c := CLASS_VIDEO to CLASS_LAST + 1
        invariant any <==> exists d :: CLASS_VIDEO <= d < c && rules[d] != []
      {
        any := any || rules[c] != [];
      }
    }
  }

  /** The list without the first occurrence of st. */
  function Without(s: seq<ElementaryStream>, st: ElementaryStream?): seq<ElementaryStream> {
    if s == [] then [] else if s[0] == st then s[1..] else [s[0]] + Without(s[1..], st)
  }

  lemma {:induction false} RemovesLast(s: seq<ElementaryStream>)
    requires s != [] && forall i, k :: 0 <= i < k < |s| ==> s[i] != s[k]
    ensures Without(s, s[|s| - 1]) == s[..|s| - 1]
  {
    if |s| > 1 {
      assert s[0] != s[|s| - 1];
      RemovesLast(s[1..]);
    }
  }

  lemma {:induction false} AddIsTidy(w: Work, j: nat)
    requires Tidy(w) && j < |w.flags|
    ensures Tidy(Add(w, j))
  {
  }

  lemma {:induction false} EarlierOthers(x: Input, c: nat, w: Work)
    requires CLASS_VIDEO <= c <= CLASS_LAST && Before(x, c, w)
    ensures OthersFirst(x, c, w, |w.picked|)
  {
    forall i | 0 <= i < |w.picked| ensures !InClass(x, c, w.picked[i]) {
      ClassOfIs(x, c, w.picked[i]);
    }
  }
}
