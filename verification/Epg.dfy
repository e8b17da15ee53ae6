/** The channel schedule as it is kept: event objects with reference counts, updated in
    place.  Every method is proved against the transitions of module Channel, and no event
    is touched after its last reference is gone. */
module Epg {
  import opened Wrappers
  import opened Schedule
  import opened ScheduleLaws
  import opened Channel

  class Broadcast {
    const id: nat
    const start: int
    var stop: int
    var grabber: Option<Grabber>
    var running: Running
    var refcount: nat
    var freed: bool

    constructor (id: nat, start: int, stop: int)
      ensures this.id == id && this.start == start && this.stop == stop
      ensures grabber == None && running == NotSet && refcount == 0 && !freed
    {
      this.id, this.start, this.stop := id, start, stop;
      grabber, running, refcount, freed := None, NotSet, 0, false;
    }

    ghost function Value(): Event
      reads this
    {
      Event(id, start, stop, grabber, running)
    }

    method GetRef()
      requires !freed
      modifies this`refcount
      ensures refcount == old(refcount) + 1
    {
      refcount := refcount + 1;
    }

    /** Give up a reference; the last one frees the event. */
    method PutRef() returns (gone: bool)
      requires !freed && refcount > 0
      modifies this`refcount, this`freed
      ensures refcount == old(refcount) - 1
      ensures gone == freed == (refcount == 0)
    {
      refcount := refcount - 1;
      if refcount == 0 {
        freed := true;
      }
      gone := freed;
    }
  }

  ghost function Snap(s: seq<Broadcast>): (r: seq<Event>)
    reads s
    ensures |r| == |s|
    ensures forall i :: 0 <= i < |s| ==> r[i] == s[i].Value()
  {
    seq(|s|, i requires 0 <= i < |s| reads s => s[i].Value())
  }

  function Key(b: Broadcast?): Option<int> {
    if b == null then None else Some(b.start)
  }

  predicate Earlier(a: Broadcast, b: Broadcast) {
    a.start < b.start
  }

  ghost predicate Ascending(s: seq<Broadcast>) {
    forall i, j {:trigger Earlier(s[i], s[j])} :: 0 <= i < j < |s| ==> Earlier(s[i], s[j])
  }

  function Without(s: seq<Broadcast>, i: nat): seq<Broadcast>
    requires i < |s|
  {
    s[..i] + s[i + 1..]
  }

  lemma {:induction false} AscendingDistinct(s: seq<Broadcast>, i: nat)
    requires Ascending(s) && i < |s|
    ensures forall k :: 0 <= k < |s| && k != i ==> s[k] != s[i]
  {
    forall k | 0 <= k < |s| && k != i ensures s[k] != s[i] {
      if k < i {
        assert Earlier(s[k], s[i]);
      } else {
        assert Earlier(s[i], s[k]);
      }
    }
  }

  lemma {:induction false} WithoutMembers(s: seq<Broadcast>, i: nat)
    requires Ascending(s) && i < |s|
    ensures Ascending(Without(s, i))
    ensures forall o :: o in Without(s, i) <==> o in s && o != s[i]
  {
    var t := Without(s, i);
    assert forall k :: 0 <= k < |t| ==> t[k] == if k < i then s[k] else s[k + 1];
    forall k | 0 <= k < |s| && k != i ensures s[k] != s[i] && s[k] in t {
      if k < i {
        assert Earlier(s[k], s[i]) && t[k] == s[k];
      } else {
        assert Earlier(s[i], s[k]) && t[k - 1] == s[k];
      }
    }
    forall x, y | 0 <= x < y < |t| ensures Earlier(t[x], t[y]) {
      assert Earlier(s[if x < i then x else x + 1], s[if y < i then y else y + 1]);
    }
  }

  /** What is left of a pointer once only the events of s are scheduled. */
  function Retain(b: Broadcast?, s: seq<Broadcast>): Broadcast? {
    if b != null && b in s then b else null
  }

  lemma {:induction false} SnapWithout(s: seq<Broadcast>, i: nat)
    requires i < |s|
    ensures Snap(Without(s, i)) == Snap(s)[..i] + Snap(s)[i + 1..]
  {
  }

  twostate lemma {:induction false} SnapUnchanged(s: seq<Broadcast>)
    requires forall k :: 0 <= k < |s| ==> s[k].Value() == old(s[k].Value())
    ensures Snap(s) == old(Snap(s))
  {
  }

  /** Where an overlap loop leaves the schedule, the place of the new event, and whether it
      ran into an event it may not remove. */
  datatype Turned = Turned(sched: seq<Event>, n: nat, blocked: bool)

  function TurnBehind(s: seq<Event>, n: nat, r: Event, w: nat): Turned
    requires n <= |s|
  {
    if n == 0 || s[n - 1].stop <= r.start then Turned(s, n, false)
    else if !CanRemove(s[n - 1].grabber, r.grabber) then Turned(s, n, true)
    else if CutsBefore(s[n - 1], r, w) then Turned(s[n - 1 := s[n - 1].(stop := r.start)], n, false)
    else TurnBehind(s[..n - 1] + s[n..], n - 1, r, w)
  }

  function TurnAhead(s: seq<Event>, i: nat, w: nat): Turned
    requires i < |s|
    decreases |s|
  {
    if i + 1 == |s| || s[i + 1].start >= s[i].stop then Turned(s, i, false)
    else if !CanRemove(s[i + 1].grabber, s[i].grabber) then Turned(s, i, true)
    else if CutsAfter(s[i], s[i + 1], w) then Turned(s[i := s[i].(stop := s[i + 1].start)], i, false)
    else TurnAhead(s[..i + 1] + s[i + 2..], i, w)
  }

  /** One turn of the forward loop, from s to s'. */
  ghost predicate AheadStep(s: seq<Event>, i: nat, w: nat, blocked: bool, cut: bool, s': seq<Event>) {
    && i + 1 < |s| && s[i + 1].start < s[i].stop
    && blocked == !CanRemove(s[i + 1].grabber, s[i].grabber)
    && cut == (!blocked && CutsAfter(s[i], s[i + 1], w))
    && s' == (if blocked then s
              else if cut then s[i := s[i].(stop := s[i + 1].start)]
              else s[..i + 1] + s[i + 2..])
  }

  lemma {:induction false} AheadStepTurns(s: seq<Event>, i: nat, w: nat, blocked: bool, cut: bool, s': seq<Event>)
    requires AheadStep(s, i, w, blocked, cut, s')
    ensures TurnAhead(s, i, w) == if blocked then Turned(s', i, true) else TurnAhead(s', i, w)
  {
  }

  lemma {:induction false} TurnBehindIs(s: seq<Event>, n: nat, tail: seq<Event>, r: Event, w: nat)
    requires n <= |s|
    ensures var b := Behind(s, n, r, w);
      TurnBehind(s[..n] + tail, n, r, w) == Turned(Kept(s, b, r) + tail, b.n, b.blocked)
  {
    var t := s[..n] + tail;
    if n > 0 {
      var e := s[n - 1];
      assert t[n - 1] == e;
      if e.stop > r.start && CanRemove(e.grabber, r.grabber) {
        if CutsBefore(e, r, w) {
          assert t[n - 1 := e.(stop := r.start)] == s[..n - 1] + [e.(stop := r.start)] + tail;
        } else {
          TurnBehindIs(s, n - 1, tail, r, w);
          assert t[..n - 1] + t[n..] == s[..n - 1] + tail;
        }
      }
    }
  }

  lemma {:induction false} PlacedBehindIs(s: seq<Event>, p: nat, q: nat, r: Event, w: nat)
    requires p <= q <= |s|
    ensures var b := Behind(s, p, r, w); var kept := Kept(s, b, r);
      TurnBehind(s[..p] + [r] + s[q..], p, r, w) == Turned(kept + [r] + s[q..], |kept|, b.blocked)
  {
    var kept := Kept(s, Behind(s, p, r, w), r);
    TurnBehindIs(s, p, [r] + s[q..], r, w);
    Regroup(s[..p], [r], s[q..]);
    Regroup(kept, [r], s[q..]);
  }

  lemma {:induction false} TurnAheadIs(front: seq<Event>, r: Event, s: seq<Event>, k: nat, w: nat)
    requires k <= |s|
    ensures var a := Ahead(s, k, r, w);
      TurnAhead(front + [r] + s[k..], |front|, w) ==
      Turned(front + [if a.cut then r.(stop := s[a.n].start) else r] + s[a.n..], |front|, a.blocked)
    decreases |s| - k
  {
    var t, i := front + [r] + s[k..], |front|;
    assert t[i] == r;
    if k < |s| {
      assert t[i + 1] == s[k];
      if s[k].start < r.stop && CanRemove(s[k].grabber, r.grabber) {
        if CutsAfter(r, s[k], w) {
          assert t[i := r.(stop := s[k].start)] == front + [r.(stop := s[k].start)] + s[k..];
        } else {
          TurnAheadIs(front, r, s, k + 1, w);
          assert t[..i + 1] + t[i + 2..] == front + [r] + s[k + 1..];
        }
      }
    }
  }

  /** The schedule, reference counts and pointers at some moment. */
  datatype Mark = Mark(were: set<Broadcast>, refs: map<Broadcast, nat>, now: Broadcast?, next: Broadcast?)

  /** m with d more (or fewer) references to b accounted for. */
  ghost function Adjusted(m: Mark, b: Broadcast?, d: int): Mark {
    if b != null && b in m.refs && m.refs[b] + d >= 0
    then m.(refs := m.refs[b := m.refs[b] + d])
    else m
  }

  lemma {:induction false} PinsBalance(m: Mark, a: Broadcast?, b: Broadcast?)
    requires a != null ==> a in m.refs && m.refs[a] > 0
    requires b != null ==> b in m.refs && m.refs[b] > 0
    ensures var m1 := Adjusted(m, a, 1);
      var m2 := Adjusted(m1, b, 1);
      var m3 := Adjusted(m2, a, -1);
      && m1.were == m2.were == m3.were == m.were
      && (a != null ==> m2.refs[a] >= 2)
      && (b != null ==> m3.refs[b] >= 2)
      && Adjusted(m3, b, -1) == m
  {
    var m3 := Adjusted(Adjusted(Adjusted(m, a, 1), b, 1), a, -1);
    assert Adjusted(m3, b, -1).refs == m.refs;
  }

  lemma {:induction false} PinBalances(m: Mark, b: Broadcast)
    requires b in m.refs
    ensures Adjusted(m, b, 1).refs[b] == m.refs[b] + 1 && Adjusted(Adjusted(m, b, 1), b, -1) == m
  {
    assert Adjusted(Adjusted(m, b, 1), b, -1).refs == m.refs;
  }

  /** An event of the schedule is found at its own index. */
  lemma {:induction false} FoundAt(s: seq<Broadcast>, j: nat)
    requires Ascending(s) && j < |s|
    ensures Found(Snap(s), s[j].start) && Position(Snap(s), s[j].start) == j
  {
    forall i | 0 <= i < j ensures Snap(s)[i].start < s[j].start {
      assert Earlier(s[i], s[j]);
    }
    PositionIs(Snap(s), s[j].start, j);
  }

  lemma {:induction false} SameIndex(s: seq<Broadcast>, i: nat, j: nat)
    requires Ascending(s) && i < |s| && j < |s|
    ensures Snap(s)[i] == Snap(s)[j] <==> i == j
  {
    FoundAt(s, i);
    FoundAt(s, j);
  }

  /** The n-th event comes right after that of the pointer now. */
  lemma {:induction false} FollowsNowIs(c: EpgChannel, n: nat)
    requires c.Live() && n < |c.sched| && c.now != null
    ensures Position(Snap(c.sched), c.now.start) + 1 == n <==> n > 0 && c.now == c.sched[n - 1]
    ensures Found(Snap(c.sched), c.now.start)
  {
    var j :| 0 <= j < |c.sched| && c.sched[j] == c.now;
    FoundAt(c.sched, j);
    if n > 0 {
      FoundAt(c.sched, n - 1);
    }
  }

  lemma {:induction false} TimerDueIs(c: EpgChannel, n: nat)
    requires c.Live() && n < |c.sched|
    ensures TimerDue(c.State(), c.sched[n].Value()) <==> n == 0 || (c.now != null && c.now == c.sched[n - 1])
  {
    SameIndex(c.sched, 0, n);
    if c.now != null {
      FollowsNowIs(c, n);
      var k := Position(Snap(c.sched), c.now.start) + 1;
      if k < |c.sched| {
        SameIndex(c.sched, k, n);
      }
    }
  }

  lemma {:induction false} AscendingInsert(s: seq<Broadcast>, p: nat, b: Broadcast)
    requires Ascending(s) && p <= |s|
    requires forall i :: 0 <= i < p ==> s[i].start < b.start
    requires forall i :: p <= i < |s| ==> s[i].start > b.start
    ensures Ascending(s[..p] + [b] + s[p..])
    ensures forall o :: o in s[..p] + [b] + s[p..] <==> o in s || o == b
  {
    var t := s[..p] + [b] + s[p..];
    assert s == s[..p] + s[p..];
    forall i, j {:trigger Earlier(t[i], t[j])} | 0 <= i < j < |t| ensures Earlier(t[i], t[j]) {
      if i != p && j != p {
        assert Earlier(s[if i < p then i else i - 1], s[if j < p then j else j - 1]);
      }
    }
  }

  lemma {:induction false} SnapInsert(s: seq<Broadcast>, p: nat, b: Broadcast)
    requires p <= |s|
    ensures Snap(s[..p] + [b] + s[p..]) == Snap(s)[..p] + [b.Value()] + Snap(s)[p..]
  {
  }

  lemma {:induction false} UpdatedTwice(s: seq<Event>, p: nat, d: Event, e: Event)
    requires p < |s|
    ensures s[p := d][p := e] == s[..p] + [e] + s[p + 1..]
  {
  }

  lemma {:induction false} StartsDiffer(s: seq<Broadcast>, i: nat, j: nat)
    requires Ascending(s) && i < j < |s|
    ensures s[i].start < s[j].start
  {
    assert Earlier(s[i], s[j]);
  }

  lemma {:induction false} SameStart(s: seq<Broadcast>, a: Broadcast, b: Broadcast)
    requires Ascending(s) && a in s && b in s && a.start == b.start
    ensures a == b
  {
    var i, j :| 0 <= i < |s| && 0 <= j < |s| && s[i] == a && s[j] == b;
    if i < j {
      StartsDiffer(s, i, j);
    } else if j < i {
      StartsDiffer(s, j, i);
    }
  }

  /** A pointer that is kept as an object is kept as a start time. */
  lemma {:induction false} KeepIs(b: Broadcast?, before: seq<Broadcast>, after: seq<Broadcast>)
    requires Ascending(before) && Ascending(after)
    requires b == null || b in before
    requires forall o :: o in after ==> o in before
    ensures Key(Retain(b, after)) == Keep(Key(b), Snap(after))
  {
    if b != null {
      if b in after {
        var j :| 0 <= j < |after| && after[j] == b;
        FoundAt(after, j);
      } else if Found(Snap(after), b.start) {
        var o := after[Position(Snap(after), b.start)];
        assert o in after && o in before;
        SameStart(before, b, o);
      }
    }
  }

  /** An event that has left is not found by its start time either. */
  lemma {:induction false} LeftIsNotFound(b: Broadcast, before: seq<Broadcast>, after: seq<Broadcast>)
    requires Ascending(before) && Ascending(after) && b in before && b !in after
    requires forall o :: o in after ==> o in before
    ensures !Found(Snap(after), b.start)
  {
    if Found(Snap(after), b.start) {
      var o := after[Position(Snap(after), b.start)];
      assert o in after && o in before;
      SameStart(before, b, o);
    }
  }

  lemma {:induction false} NowRunningIs(c: EpgChannel)
    requires c.Live()
    ensures NowRunning(c.State()) <==> c.now != null && c.now.running != Running.Stop && c.now.running != NotSet
  {
    if c.now != null {
      var j :| 0 <= j < |c.sched| && c.sched[j] == c.now;
      FoundAt(c.sched, j);
    }
  }

  class EpgChannel {
    var sched: seq<Broadcast>
    var now: Broadcast?
    var next: Broadcast?

    constructor ()
      ensures Valid() && State() == EMPTY
    {
      sched, now, next := [], null, null;
    }

    /** Everything the channel points to is scheduled and still referenced. */
    ghost predicate Live()
      reads this, sched
    {
      && Ascending(sched)
      && (forall o :: o in sched ==> o.refcount > 0 && !o.freed)
      && (now == null || now in sched)
      && (next == null || next in sched)
    }

    ghost function State(): ChannelState
      reads this, sched
    {
      ChannelState(Snap(sched), Key(now), Key(next))
    }

    ghost predicate Valid()
      reads this, sched
    {
      Live() && Ordered(Snap(sched))
    }

    /** Since m was taken events have only left the schedule: each one that did gave up one
        reference and was freed if that was its last; the others kept theirs. */
    ghost predicate Refs(m: Mark)
      reads this, m.were
    {
      && (forall o :: o in sched ==> o in m.were)
      && (forall o :: o in m.were ==>
            o in m.refs && o.refcount + (if o in sched then 0 else 1) == m.refs[o]
            && (o !in sched ==> o.freed == (o.refcount == 0)))
    }

    /** Moreover now and next were only ever cleared, namely when their event left. */
    ghost predicate Follows(m: Mark)
      reads this, m.were
    {
      Refs(m) && now == Retain(m.now, sched) && next == Retain(m.next, sched)
    }

    ghost function TakeMark(): (m: Mark)
      reads this, sched
      ensures m.were == set o | o in sched
      ensures Live() ==> Follows(m)
    {
      Mark(set o | o in sched, map o | o in sched :: o.refcount, now, next)
    }

    method Unlink(ebc: Broadcast, i: nat)
      requires Ascending(sched) && i < |sched| && sched[i] == ebc
      requires now == null || now in sched
      requires next == null || next in sched
      modifies this
      ensures Ascending(sched)
      ensures forall o :: o in sched <==> o in old(sched) && o != ebc
      ensures sched == old(Without(sched, i))
      ensures Snap(sched) == old(Snap(sched))[..i] + old(Snap(sched))[i + 1..]
      ensures now == Retain(old(now), sched) && next == Retain(old(next), sched)
    {
      WithoutMembers(sched, i);
      SnapWithout(sched, i);
      sched := sched[..i] + sched[i + 1..];
      if now == ebc {
        now := null;
      }
      if next == ebc {
        next := null;
      }
    }

    /** Unschedule ebc, the i-th event, and drop the schedule's reference to it. */
    method RemBroadcast(ebc: Broadcast, i: nat, ghost m: Mark)
      requires Live() && i < |sched| && sched[i] == ebc && Follows(m)
      modifies this, ebc`refcount, ebc`freed
      ensures Live() && Follows(m)
      ensures sched == old(Without(sched, i))
      ensures Snap(sched) == old(Snap(sched))[..i] + old(Snap(sched))[i + 1..]
    {
      assert ebc in sched;
      Unlink(ebc, i);
      label Unlinked:
      var _ := ebc.PutRef();
      SnapUnchanged@Unlinked(sched);
    }

    /** Move the end of ebc, the i-th event. */
    method SetStop(ebc: Broadcast, i: nat, stop: int, ghost m: Mark)
      requires Follows(m) && Live() && i < |sched| && sched[i] == ebc
      modifies ebc`stop
      ensures Live() && Follows(m)
      ensures ebc.stop == stop
      ensures Snap(sched) == old(Snap(sched))[i := ebc.Value()]
    {
      ghost var values := Snap(sched);
      AscendingDistinct(sched, i);
      ebc.stop := stop;
      assert Snap(sched) == values[i := ebc.Value()];
    }

    /** One turn of the backward loop: the event before ret, the n-th event, overlaps it. */
    method SettleBefore(ret: Broadcast, n: nat, w: nat, ghost m: Mark) returns (blocked: bool, n': nat)
      requires Live() && Follows(m) && 0 < n < |sched| && sched[n] == ret && sched[n - 1].stop > ret.start
      modifies this, m.were`refcount, m.were`freed, m.were`stop
      ensures Live() && Follows(m)
      ensures n' < |sched| && sched[n'] == ret
      ensures ret.Value() == old(ret.Value())
      ensures var r := ret.Value();
        TurnBehind(old(Snap(sched)), n, r, w) ==
          if blocked then Turned(Snap(sched), n', true) else TurnBehind(Snap(sched), n', r, w)
      ensures !blocked ==> n' == n - 1 || (n' == n && sched[n - 1].stop <= ret.start)
    {
      var ebc := sched[n - 1];
      assert ebc in sched && Earlier(ebc, ret);
      assert Snap(sched)[n] == ret.Value() && Snap(sched)[n - 1] == ebc.Value();
      blocked, n' := !CanRemove(ebc.grabber, ret.grabber), n;
      if blocked {
        return;
      }
      if w != 0 && ebc.stop - ebc.start > Doubled(w) && ebc.stop - ret.start <= w {
        SetStop(ebc, n - 1, ret.start, m);
        assert Snap(sched)[n] == ret.Value() && Snap(sched)[n - 1] == ebc.Value();
      } else {
        RemBroadcast(ebc, n - 1, m);
        n' := n - 1;
        assert Snap(sched)[n'] == ret.Value();
      }
    }

    /** The backward overlap loop around ret, the i-th event. */
    method ClearBehind(ret: Broadcast, i: nat, w: nat, ghost m: Mark) returns (blocked: bool, n: nat)
      requires Live() && Follows(m) && i < |sched| && sched[i] == ret
      modifies this, m.were`refcount, m.were`freed, m.were`stop
      ensures Live() && Follows(m)
      ensures Turned(Snap(sched), n, blocked) == TurnBehind(old(Snap(sched)), i, old(ret.Value()), w)
      ensures n < |sched| && sched[n] == ret
    {
      ghost var r := ret.Value();
      ghost var end := TurnBehind(Snap(sched), i, r, w);
      ghost var cut := false;
      n := i;
      while n > 0 && sched[n - 1].stop > ret.start
        invariant Live() && Follows(m) && n < |sched| && sched[n] == ret
        invariant ret.Value() == r && TurnBehind(Snap(sched), n, r, w) == end
        invariant cut ==> n > 0 && sched[n - 1].stop <= ret.start
        decreases n, !cut
      {
        var n';
        blocked, n' := SettleBefore(ret, n, w, m);
        cut := n' == n;
        n := n';
        if blocked {
          return;
        }
      }
      blocked := false;
      assert n > 0 ==> Snap(sched)[n - 1] == sched[n - 1].Value();
    }

    /** One turn of the forward loop: the event after ret, the i-th event, overlaps it. */
    method SettleAfter(ret: Broadcast, i: nat, w: nat, ghost m: Mark) returns (blocked: bool, cut: bool)
      requires Live() && Follows(m) && i + 1 < |sched| && sched[i] == ret && sched[i + 1].start < ret.stop
      modifies this, m.were`refcount, m.were`freed, m.were`stop
      ensures Live() && Follows(m)
      ensures i < |sched| && sched[i] == ret
      ensures AheadStep(old(Snap(sched)), i, w, blocked, cut, Snap(sched))
      ensures cut ==> sched == old(sched) && sched[i + 1].start >= ret.stop
      ensures !blocked && !cut ==> |sched| < old(|sched|)
    {
      var ebc := sched[i + 1];
      assert ebc in sched && ret in sched;
      assert Snap(sched)[i] == ret.Value() && Snap(sched)[i + 1] == ebc.Value();
      blocked, cut := !CanRemove(ebc.grabber, ret.grabber), false;
      if blocked {
        return;
      }
      if w != 0 && ret.stop - ret.start > Doubled(w) && ret.stop - ebc.start <= w {
        SetStop(ret, i, ebc.start, m);
        cut := true;
      } else {
        RemBroadcast(ebc, i + 1, m);
      }
    }

    /** The forward overlap loop around ret, the i-th event. */
    method ClearAhead(ret: Broadcast, i: nat, w: nat, ghost m: Mark) returns (blocked: bool)
      requires Live() && Follows(m) && i < |sched| && sched[i] == ret
      modifies this, m.were`refcount, m.were`freed, m.were`stop
      ensures Live() && Follows(m)
      ensures Turned(Snap(sched), i, blocked) == TurnAhead(old(Snap(sched)), i, w)
      ensures i < |sched| && sched[i] == ret
    {
      ghost var end := TurnAhead(Snap(sched), i, w);
      var cut := false;
      while i + 1 < |sched| && sched[i + 1].start < ret.stop
        invariant Live() && Follows(m) && i < |sched| && sched[i] == ret
        invariant TurnAhead(Snap(sched), i, w) == end
        invariant cut ==> i + 1 < |sched| && sched[i + 1].start >= ret.stop
        decreases |sched|, !cut
      {
        assert Snap(sched)[i] == ret.Value() && Snap(sched)[i + 1] == sched[i + 1].Value();
        ghost var s := Snap(sched);
        blocked, cut := SettleAfter(ret, i, w, m);
        AheadStepTurns(s, i, w, blocked, cut, Snap(sched));
        if blocked {
          return;
        }
      }
      blocked := false;
      assert Snap(sched)[i] == ret.Value();
      assert i + 1 < |sched| ==> Snap(sched)[i + 1] == sched[i + 1].Value();
    }

    /** ret, at index p of a schedule that otherwise is s0[..p] + s0[q..], has its earlier
        neighbours dealt with. */
    method PlaceBehind(ret: Broadcast, p: nat, w: nat, ghost s0: seq<Event>, ghost q: nat, ghost m: Mark)
      returns (blocked: bool, n: nat)
      requires Live() && Follows(m) && p < |sched| && sched[p] == ret
      requires p <= q <= |s0| && Snap(sched) == s0[..p] + [ret.Value()] + s0[q..]
      modifies this, m.were`refcount, m.were`freed, m.were`stop
      ensures Live() && Follows(m) && n < |sched| && sched[n] == ret
      ensures var r := old(ret.Value());
        var b := Behind(s0, p, r, w);
        blocked == b.blocked && n == |Kept(s0, b, r)| && Snap(sched) == Kept(s0, b, r) + [r] + s0[q..]
    {
      PlacedBehindIs(s0, p, q, ret.Value(), w);
      blocked, n := ClearBehind(ret, p, w, m);
    }

    /** ret, at the end of `kept` in front of s0[q..], has its later neighbours dealt with. */
    method PlaceAhead(ret: Broadcast, n: nat, w: nat, ghost kept: seq<Event>, ghost s0: seq<Event>, ghost q: nat,
                      ghost m: Mark)
      returns (blocked: bool)
      requires Live() && Follows(m) && n < |sched| && sched[n] == ret
      requires n == |kept| && q <= |s0| && Snap(sched) == kept + [ret.Value()] + s0[q..]
      modifies this, m.were`refcount, m.were`freed, m.were`stop
      ensures Live() && Follows(m) && n < |sched| && sched[n] == ret
      ensures var r := old(ret.Value());
        var a := Ahead(s0, q, r, w);
        && blocked == a.blocked
        && Snap(sched) == kept + [if a.cut then r.(stop := s0[a.n].start) else r] + s0[a.n..]
    {
      TurnAheadIs(kept, ret.Value(), s0, q, w);
      blocked := ClearAhead(ret, n, w, m);
    }

    /** Both overlap loops for ret, freshly placed (or extended) at index p; a blocked event
        is taken out again. */
    method PlaceEvent(ret: Broadcast, p: nat, w: nat, ghost s0: seq<Event>, ghost q: nat, ghost m: Mark)
      returns (ok: bool, n: nat)
      requires Live() && Follows(m) && p < |sched| && sched[p] == ret
      requires p <= q <= |s0| && Snap(sched) == s0[..p] + [ret.Value()] + s0[q..]
      modifies this, m.were`refcount, m.were`freed, m.were`stop
      ensures Live() && Follows(m)
      ensures var i := Resolve(s0, p, q, old(ret.Value()), w);
        Snap(sched) == i.sched && ok == i.ret.Some? && (ok ==> i.ret.value == ret.Value())
      ensures ok ==> n < |sched| && sched[n] == ret
    {
      ghost var r := ret.Value();
      ghost var kept := Kept(s0, Behind(s0, p, r, w), r);
      BehindMeans(s0, p, r, w);
      AheadMeans(s0, q, r, w);
      var blocked;
      blocked, n := PlaceBehind(ret, p, w, s0, q, m);
      if blocked {
        TakeOut(ret, n, kept, s0[q..], m);
        return false, n;
      }
      assert ret.Value() == Snap(sched)[n] == r;
      blocked := PlaceAhead(ret, n, w, kept, s0, q, m);
      assert ret.Value() == Snap(sched)[n];
      if blocked {
        TakeOut(ret, n, kept, s0[Ahead(s0, q, r, w).n..], m);
      }
      ok := !blocked;
    }

    /** Unschedule ret again, which stands between `kept` and `rest`. */
    method TakeOut(ret: Broadcast, n: nat, ghost kept: seq<Event>, ghost rest: seq<Event>, ghost m: Mark)
      requires Live() && Follows(m) && n < |sched| && sched[n] == ret
      requires n == |kept| && Snap(sched) == kept + [ret.Value()] + rest
      modifies this, m.were`refcount, m.were`freed
      ensures Live() && Follows(m)
      ensures Snap(sched) == kept + rest
    {
      ghost var s := Snap(sched);
      assert s[..n] + s[n + 1..] == kept + rest;
      assert ret in sched;
      RemBroadcast(ret, n, m);
    }

    /** The timer's loop over the schedule, entered with now and next cleared. */
    method DropExpired(clk: int, ghost m: Mark)
      requires Live() && Refs(m) && now == null && next == null
      modifies this, m.were`refcount, m.were`freed
      ensures Live() && Refs(m) && now == null && next == null
      ensures Snap(sched) == Unexpired(old(Snap(sched)), clk)
      ensures forall o :: o in sched ==> o in old(sched)
    {
      ghost var pinned := Mark(m.were, m.refs, null, null);
      while sched != [] && sched[0].stop <= clk
        invariant Live() && Follows(pinned)
        invariant forall o :: o in sched ==> o in old(sched)
        invariant Unexpired(Snap(sched), clk) == Unexpired(old(Snap(sched)), clk)
        decreases |sched|
      {
        DropFirst(clk, pinned);
      }
      assert sched != [] ==> Snap(sched)[0] == sched[0].Value();
    }

    /** The first event is over and leaves. */
    method DropFirst(clk: int, ghost m: Mark)
      requires Live() && Follows(m) && sched != [] && sched[0].stop <= clk
      modifies this, m.were`refcount, m.were`freed
      ensures Live() && Follows(m) && |sched| < old(|sched|)
      ensures Unexpired(Snap(sched), clk) == Unexpired(old(Snap(sched)), clk)
      ensures forall o :: o in sched ==> o in old(sched)
    {
      var ebc := sched[0];
      assert ebc in sched;
      ghost var s := Snap(sched);
      assert s[0] == ebc.Value() && s[..0] + s[1..] == s[1..];
      WithoutMembers(sched, 0);
      RemBroadcast(ebc, 0, m);
    }

    /** The first remaining event is current, or else next. */
    method PickNowNext(clk: int)
      requires Live() && now == null && next == null
      modifies this`now, this`next
      ensures Live()
      ensures State() == NowNext(Snap(sched), clk)
    {
      if sched != [] {
        assert Snap(sched)[0] == sched[0].Value();
        assert |sched| > 1 ==> Snap(sched)[1] == sched[1].Value();
        if sched[0].start > clk {
          next := sched[0];
        } else {
          now := sched[0];
          next := if |sched| > 1 then sched[1] else null;
        }
      }
    }

    /** Hold b for a while. */
    method Pin(b: Broadcast?, ghost m: Mark)
      requires Live() && Refs(m) && (b != null ==> b in sched)
      modifies m.were`refcount
      ensures Live() && Refs(Adjusted(m, b, 1))
      ensures Snap(sched) == old(Snap(sched))
    {
      if b != null {
        b.GetRef();
      }
    }

    /** Let go of b; it may be freed if it has left the schedule. */
    method Unpin(b: Broadcast?, ghost m: Mark) returns (gone: bool)
      requires Live() && Refs(m) && (b != null ==> b in m.were && m.refs[b] >= 2)
      modifies m.were`refcount, m.were`freed
      ensures Live() && Refs(Adjusted(m, b, -1))
      ensures State() == old(State())
      ensures gone == (b != null && b.freed)
    {
      gone := false;
      if b != null {
        gone := b.PutRef();
      }
    }

    method Rescan(clk: int, ghost m: Mark)
      requires Live() && Refs(m)
      modifies this, m.were`refcount, m.were`freed
      ensures Live() && Refs(m)
      ensures State() == NowNext(Unexpired(old(Snap(sched)), clk), clk)
      ensures forall o :: o in sched ==> o in old(sched)
    {
      now, next := null, null;
      DropExpired(clk, m);
      PickNowNext(clk);
    }

    /** The timer's work while the old now and next are pinned. */
    method Refresh(clk: int, ghost m: Mark)
      requires Live() && Refs(m)
      modifies this, m.were`refcount, m.were`freed
      ensures Live() && Refs(m)
      ensures State() == NowNext(Unexpired(old(Snap(sched)), clk), clk)
      ensures forall o :: o in sched ==> o in old(sched)
    {
      var cur, nxt := now, next;
      PinsBalance(m, cur, nxt);
      ghost var m1 := Adjusted(m, cur, 1);
      ghost var m2 := Adjusted(m1, nxt, 1);
      ghost var m3 := Adjusted(m2, cur, -1);
      Pin(cur, m);
      Pin(nxt, m1);
      Rescan(clk, m2);
      var _ := Unpin(cur, m2);
      var _ := Unpin(nxt, m3);
    }

    /** The channel timer, up to re-arming it. */
    method TimerCallback(clk: int, ghost m: Mark)
      requires Valid() && Refs(m)
      modifies this, m.were`refcount, m.were`freed
      ensures Valid() && Refs(m)
      ensures State() == Timer(old(State()), clk)
      ensures forall o :: o in sched ==> o in old(sched)
    {
      NowRunningIs(this);
      UnexpiredExact(Snap(sched), clk);
      if now != null && now.running != Running.Stop && now.running != NotSet {
        return;
      }
      Refresh(clk, m);
    }

    /** After an insert: run the timer when the event is first or follows now, holding the
        event meanwhile.  `gone` tells that it expired and was freed. */
    method FinishInsert(ret: Broadcast, n: nat, clk: int, ghost m: Mark) returns (gone: bool)
      requires Valid() && Refs(m) && n < |sched| && sched[n] == ret
      modifies this, m.were`refcount, m.were`freed
      ensures Valid() && Refs(m)
      ensures State() == if TimerDue(old(State()), old(ret.Value())) then Timer(old(State()), clk) else old(State())
      ensures gone == ret.freed
      ensures gone ==> !Found(Snap(sched), ret.start)
    {
      assert ret in sched;
      PinBalances(m, ret);
      Pin(ret, m);
      RunTimer(ret, n, clk, Adjusted(m, ret, 1));
      gone := Unpin(ret, Adjusted(m, ret, 1));
      if gone {
        LeftIsNotFound(ret, old(sched), sched);
      }
    }

    /** Run the timer if the n-th event is first or right behind now. */
    method RunTimer(ret: Broadcast, n: nat, clk: int, ghost m: Mark)
      requires Valid() && Refs(m) && n < |sched| && sched[n] == ret
      modifies this, m.were`refcount, m.were`freed
      ensures Valid() && Refs(m)
      ensures State() == if TimerDue(old(State()), old(ret.Value())) then Timer(old(State()), clk) else old(State())
      ensures forall o :: o in sched ==> o in old(sched)
    {
      TimerDueIs(this, n);
      // RB_NEXT(now) is ret exactly when now stands right before ret
      if n == 0 || (now != null && now == sched[n - 1]) {
        TimerCallback(clk, m);
      }
    }

    /** Where an event starting at `start` is, or belongs. */
    method FindStart(start: int) returns (p: nat, found: bool)
      requires Ascending(sched)
      ensures p == Position(Snap(sched), start) && p <= |sched|
      ensures found == Found(Snap(sched), start) == (p < |sched| && sched[p].start == start)
      ensures forall i :: 0 <= i < p ==> sched[i].start < start
      ensures forall i :: p <= i < |sched| && !(found && i == p) ==> sched[i].start > start
    {
      p := 0;
      while p < |sched| && sched[p].start < start
        invariant p <= |sched|
        invariant forall i :: 0 <= i < p ==> sched[i].start < start
      {
        p := p + 1;
      }
      found := p < |sched| && sched[p].start == start;
      PositionIs(Snap(sched), start, p);
      forall i | p < i < |sched| ensures sched[p].start < sched[i].start {
        StartsDiffer(sched, p, i);
      }
    }

    /** Nothing has left the schedule since m was taken. */
    ghost predicate Whole(m: Mark)
      reads this
    {
      (forall o :: o in m.were ==> o in sched) && (forall o :: o in sched ==> o in m.were)
    }

    /** m with the new event ret, held once. */
    ghost function WithNew(m: Mark, ret: Broadcast): Mark {
      Mark(m.were + {ret}, m.refs[ret := 1], m.now, m.next)
    }

    /** Schedule a new event, which already holds the schedule's reference, at index p. */
    method Link(ret: Broadcast, p: nat, ghost m: Mark)
      requires Live() && Follows(m) && ret !in m.were && ret.refcount == 1 && !ret.freed && p <= |sched|
      requires forall i :: 0 <= i < p ==> sched[i].start < ret.start
      requires forall i :: p <= i < |sched| ==> sched[i].start > ret.start
      requires now == m.now && next == m.next && Whole(m)
      modifies this`sched
      ensures Live() && p < |sched| && sched[p] == ret
      ensures Follows(WithNew(m, ret)) && Whole(WithNew(m, ret))
      ensures Snap(sched) == old(Snap(sched))[..p] + [ret.Value()] + old(Snap(sched))[p..]
    {
      ghost var was := sched;
      AscendingInsert(was, p, ret);
      sched := sched[..p] + [ret] + sched[p..];
      SnapInsert(was, p, ret);
    }

    /** The insert i into a channel that was in state c has been carried through; `result` is
        its event, or null when it was refused or has left the schedule and been freed
        meanwhile, as the timer does to what is over. */
    ghost predicate Outcome(c: ChannelState, i: Inserted, clk: int, result: Broadcast?)
      reads this, sched, result
    {
      && State() == Settled(c, i, clk)
      && (i.ret.None? ==> result == null)
      && (i.ret.Some? && result == null ==> !Found(State().sched, i.ret.value.start))
      && (result != null ==> !result.freed && i.ret == Some(result.Value()))
    }

    /** The overlap loops for ret, the p-th event, seen from the insert it belongs to. */
    method SettleOverlaps(ret: Broadcast, p: nat, w: nat,
                          ghost s0: seq<Event>, ghost q: nat, ghost c: ChannelState, ghost m: Mark)
      returns (ok: bool, n: nat)
      requires Live() && p < |sched| && sched[p] == ret && p <= q <= |s0|
      requires Snap(sched) == s0[..p] + [ret.Value()] + s0[q..]
      requires Follows(m) && c.now == Key(now) && c.next == Key(next) && now == m.now && next == m.next && Whole(m)
      modifies this, m.were`refcount, m.were`freed, m.were`stop
      ensures Live() && Refs(m)
      ensures var i := Resolve(s0, p, q, old(ret.Value()), w);
        && State() == Reschedule(c, i.sched)
        && ok == i.ret.Some? && (ok ==> i.ret.value == ret.Value() && n < |sched| && sched[n] == ret)
    {
      ghost var was := sched;
      ok, n := PlaceEvent(ret, p, w, s0, q, m);
      KeepIs(m.now, was, sched);
      KeepIs(m.next, was, sched);
    }

    /** From the point where an insert has changed ret, the p-th event, to its return. */
    method Settle(ret: Broadcast, p: nat, w: nat, clk: int,
                  ghost s0: seq<Event>, ghost q: nat, ghost c: ChannelState, ghost i: Inserted, ghost m: Mark)
      returns (result: Broadcast?)
      requires Live() && p < |sched| && sched[p] == ret && Place(s0, p, q, ret.Value())
      requires i == Resolve(s0, p, q, ret.Value(), w)
      requires Snap(sched) == s0[..p] + [ret.Value()] + s0[q..]
      requires Follows(m) && c.now == Key(now) && c.next == Key(next) && now == m.now && next == m.next && Whole(m)
      modifies this, m.were`refcount, m.were`freed, m.were`stop
      ensures Valid() && Refs(m)
      ensures Outcome(c, i, clk, result)
    {
      ResolveKeepsOrdered(s0, p, q, ret.Value(), w);
      var ok, n := SettleOverlaps(ret, p, w, s0, q, c, m);
      result := null;
      if ok {
        result := Finish(ret, n, clk, c, i, m);
      }
    }

    /** The end of an insert that was not refused. */
    method Finish(ret: Broadcast, n: nat, clk: int, ghost c: ChannelState, ghost i: Inserted, ghost m: Mark)
      returns (result: Broadcast?)
      requires Valid() && Refs(m) && n < |sched| && sched[n] == ret
      requires State() == Reschedule(c, i.sched) && i.save && i.ret == Some(ret.Value())
      modifies this, m.were`refcount, m.were`freed
      ensures Valid() && Refs(m)
      ensures Outcome(c, i, clk, result)
    {
      var gone := FinishInsert(ret, n, clk, m);
      result := if gone then null else ret;
    }

    /** The insert finds no event at its start and makes one, which belongs at p. */
    method AddNew(p: nat, src: Option<Grabber>, start: int, stop: int, w: nat, newId: nat, clk: int,
                  ghost c: ChannelState, ghost i: Inserted, ghost m: Mark)
      returns (result: Broadcast?)
      requires Valid() && start < stop && src.Some? && c == State()
      requires p == Position(c.sched, start) && !Found(c.sched, start) && p <= |sched| == |c.sched|
      requires i == Resolve(c.sched, p, p, Event(newId, start, stop, src, NotSet), w)
      requires forall k :: 0 <= k < p ==> sched[k].start < start
      requires forall k :: p <= k < |sched| ==> sched[k].start > start
      requires Follows(m) && now == m.now && next == m.next && Whole(m)
      modifies this, m.were`refcount, m.were`freed, m.were`stop
      ensures Valid() && OthersKept(m)
      ensures Outcome(c, i, clk, result)
    {
      PlaceOf(c.sched, Event(newId, start, stop, src, NotSet));
      var ret := Create(p, src, start, stop, newId, m);
      result := Settle(ret, p, w, clk, c.sched, p, c, i, WithNew(m, ret));
      NewIsKept(m, ret);
    }

    /** A new event at index p. */
    method Create(p: nat, src: Option<Grabber>, start: int, stop: int, newId: nat, ghost m: Mark)
      returns (ret: Broadcast)
      requires Live() && Follows(m) && p <= |sched|
      requires forall k :: 0 <= k < p ==> sched[k].start < start
      requires forall k :: p <= k < |sched| ==> sched[k].start > start
      requires now == m.now && next == m.next && Whole(m)
      modifies this`sched
      ensures fresh(ret) && ret !in m.were
      ensures Live() && p < |sched| && sched[p] == ret
      ensures Follows(WithNew(m, ret)) && Whole(WithNew(m, ret))
      ensures ret.Value() == Event(newId, start, stop, src, NotSet)
      ensures Snap(sched) == old(Snap(sched))[..p] + [ret.Value()] + old(Snap(sched))[p..]
    {
      ret := new Broadcast(newId, start, stop);
      ret.GetRef();
      ret.grabber := src;
      Link(ret, p, m);
    }

    lemma {:induction false} NewIsKept(m: Mark, ret: Broadcast)
      requires Refs(WithNew(m, ret)) && ret !in m.were
      ensures OthersKept(m)
    {
    }

    /** The insert finds ret, the p-th event: it may change its grabber and its stop time. */
    method Extend(ret: Broadcast, p: nat, src: Option<Grabber>, stop: int, w: nat, clk: int,
                  ghost c: ChannelState, ghost i: Inserted, ghost m: Mark)
      returns (result: Broadcast?, save: bool)
      requires Valid() && ret.start < stop && src.Some? && c == State()
      requires p < |sched| && sched[p] == ret && p == Position(c.sched, ret.start) && Found(c.sched, ret.start)
      requires var g := SetGrabber(ret.grabber, src);
        p < |c.sched| && i == if g.None? then Inserted(c.sched, None, false)
             else Change(c.sched, p, ret.Value().(grabber := g.value), stop, w)
      requires Follows(m) && now == m.now && next == m.next && Whole(m)
      modifies this, m.were`refcount, m.were`freed, m.were`stop, m.were`grabber
      ensures Valid() && Refs(m)
      ensures Outcome(c, i, clk, result) && save == i.save
    {
      assert ret in sched;
      var g := SetGrabber(ret.grabber, src);
      if g.None? {
        KeepAll();
        result, save := null, false;
      } else {
        SwitchGrabber(ret, p, g.value);
        result, save := SetTimes(ret, p, stop, w, clk, c, i, m);
      }
    }

    /** ret, which has its new grabber, gets its new stop time. */
    method SetTimes(ret: Broadcast, p: nat, stop: int, w: nat, clk: int,
                    ghost c: ChannelState, ghost i: Inserted, ghost m: Mark)
      returns (result: Broadcast?, save: bool)
      requires Live() && p < |sched| && sched[p] == ret && ret.start < stop
      requires Ordered(c.sched) && p < |c.sched| && p == Position(c.sched, ret.start) && Found(c.sched, ret.start)
      requires c.sched[p].stop == ret.stop
      requires Snap(sched) == c.sched[p := ret.Value()] && c.now == Key(now) && c.next == Key(next)
      requires i == Change(c.sched, p, ret.Value(), stop, w)
      requires Follows(m) && now == m.now && next == m.next && Whole(m)
      modifies this, m.were`refcount, m.were`freed, m.were`stop
      ensures Valid() && Refs(m)
      ensures Outcome(c, i, clk, result) && save == i.save
    {
      save := ret.stop != stop;
      if save {
        result := Lengthen(ret, p, stop, w, clk, c, i, m);
      } else {
        UpdateKeepsOrdered(c.sched, p, ret.Value());
        KeepAll();
        result := ret;
      }
    }

    method SwitchGrabber(ret: Broadcast, p: nat, g: Option<Grabber>)
      requires Live() && p < |sched| && sched[p] == ret
      modifies ret`grabber
      ensures Live()
      ensures ret.grabber == g
      ensures Snap(sched) == old(Snap(sched))[p := ret.Value()]
    {
      ghost var s0 := Snap(sched);
      AscendingDistinct(sched, p);
      ret.grabber := g;
      assert Snap(sched) == s0[p := ret.Value()];
    }

    /** With every event still there, now and next are kept. */
    lemma {:induction false} KeepAll()
      requires Live()
      ensures State() == Reschedule(State(), Snap(sched))
    {
      KeepIs(now, sched, sched);
      KeepIs(next, sched, sched);
    }

    /** ret, the p-th event of what was c.sched, takes its new stop time. */
    method Lengthen(ret: Broadcast, p: nat, stop: int, w: nat, clk: int,
                    ghost c: ChannelState, ghost i: Inserted, ghost m: Mark)
      returns (result: Broadcast?)
      requires Live() && p < |sched| && sched[p] == ret && ret.start < stop
      requires Ordered(c.sched) && p == Position(c.sched, ret.start) && Found(c.sched, ret.start)
      requires Snap(sched) == c.sched[p := ret.Value()] && c.now == Key(now) && c.next == Key(next)
      requires i == Resolve(c.sched, p, p + 1, ret.Value().(stop := stop), w)
      requires Follows(m) && now == m.now && next == m.next && Whole(m)
      modifies this, m.were`refcount, m.were`freed, m.were`stop
      ensures Valid() && Refs(m)
      ensures Outcome(c, i, clk, result)
    {
      SetStop(ret, p, stop, m);
      assert ret in sched;
      PlaceOf(c.sched, ret.Value());
      UpdatedTwice(c.sched, p, old(ret.Value()), ret.Value());
      result := Settle(ret, p, w, clk, c.sched, p + 1, c, i, m);
    }

    /** Every event that was scheduled at m has kept its references or, having left, given
        up one; anything else in the schedule is a new event with a single reference. */
    ghost predicate OthersKept(m: Mark)
      reads this, sched, m.were
    {
      && (forall o :: o in m.were ==>
            o in m.refs && o.refcount + (if o in sched then 0 else 1) == m.refs[o]
            && (o !in sched ==> o.freed == (o.refcount == 0)))
      && (forall o :: o in sched ==> o in m.were || o.refcount == 1)
    }

    /** The insert of a broadcast without XMLTV id. */
    method AddBroadcast(src: Option<Grabber>, start: int, stop: int, create: bool, w: nat, newId: nat, clk: int)
      returns (ret: Broadcast?, save: bool)
      requires Valid() && start < stop
      modifies this, sched
      ensures Valid() && OthersKept(old(TakeMark()))
      ensures var i := Insert(old(Snap(sched)), src, start, stop, create, w, newId);
        Outcome(old(State()), i, clk, ret) && save == i.save
    {
      ghost var m, c := TakeMark(), State();
      ghost var i := Insert(c.sched, src, start, stop, create, w, newId);
      if src.None? || !create {
        ret := Lookup(src, start, c, i);
        save := false;
      } else {
        ret, save := AddOrExtend(src, start, stop, w, newId, clk, c, i, m);
      }
    }

    /** The part of an insert that makes or changes an event. */
    method AddOrExtend(src: Option<Grabber>, start: int, stop: int, w: nat, newId: nat, clk: int,
                       ghost c: ChannelState, ghost i: Inserted, ghost m: Mark)
      returns (ret: Broadcast?, save: bool)
      requires Valid() && start < stop && src.Some? && c == State()
      requires i == Insert(c.sched, src, start, stop, true, w, newId)
      requires Follows(m) && now == m.now && next == m.next && Whole(m)
      modifies this, m.were`refcount, m.were`freed, m.were`stop, m.were`grabber
      ensures Valid() && OthersKept(m)
      ensures Outcome(c, i, clk, ret) && save == i.save
    {
      var p, found := FindStart(start);
      if found {
        assert c.sched[p] == sched[p].Value();
        ret, save := Extend(sched[p], p, src, stop, w, clk, c, i, m);
      } else {
        ret := AddNew(p, src, start, stop, w, newId, clk, c, i, m);
        save := true;
      }
    }

    /** The part of an insert that changes nothing. */
    method Lookup(src: Option<Grabber>, start: int, ghost c: ChannelState, ghost i: Inserted) returns (ret: Broadcast?)
      requires Valid() && c == State()
      requires var hit := src.Some? && Found(c.sched, start);
        i == Inserted(c.sched, if hit then Some(c.sched[Position(c.sched, start)]) else None, false)
      ensures forall clk :: Outcome(c, i, clk, ret)
    {
      KeepAll();
      var p, found := FindStart(start);
      assert found ==> sched[p] in sched && Snap(sched)[p] == sched[p].Value();
      ret := if src.Some? && found then sched[p] else null;
    }

    /** Look up, or with `create` insert, the broadcast of a time slot. */
    method FindByTime(src: Option<Grabber>, start: int, stop: int, create: bool, w: nat, newId: nat, clk: int)
      returns (ret: Broadcast?, save: bool)
      requires Valid()
      modifies this, sched
      ensures Valid() && OthersKept(old(TakeMark()))
      ensures State() == AddByTime(old(State()), src, start, stop, create, w, newId, clk)
      ensures var i := Insert(old(Snap(sched)), src, start, stop, create, w, newId);
        if Acceptable(start, stop, clk) then Outcome(old(State()), i, clk, ret) && save == i.save
        else ret == null && !save
    {
      if start == 0 || stop == 0 || stop <= start || stop <= clk {
        return null, false;
      }
      ret, save := AddBroadcast(src, start, stop, create, w, newId, clk);
    }
  }
}
