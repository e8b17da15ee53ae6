/** What an insert into a channel's schedule guarantees: when it is refused, which events
    it may touch, how much it may trim, and that repeating it changes nothing. */
module ScheduleLaws {
  import opened Wrappers
  import opened Schedule

  predicate Overlaps(e: Event, start: int, stop: int) {
    e.start < stop && start < e.stop
  }

  /** An event at [start, stop) would be shortened to end where `e` starts. */
  predicate Shortens(start: int, stop: int, e: Event, w: nat) {
    w != 0 && stop - start > Doubled(w) && stop - e.start <= w
  }

  lemma BlocksIsCannotRemove(older: Option<Grabber>, src: Grabber)
    ensures Blocks(older, src) <==> !CanRemove(older, Some(src))
    ensures Blocks(older, src) <==> SetGrabber(older, Some(src)).None?
    ensures SetGrabber(older, Some(src)).Some? ==> SetGrabber(older, Some(src)).value == Some(src)
  {
  }

  // ---------------------------------------------------------------- the candidate event

  /** The event an insert tries to place once the grabber check has passed. */
  function Candidate(s: seq<Event>, src: Grabber, start: int, stop: int, newId: nat): Event {
    if Found(s, start) then s[Position(s, start)].(grabber := Some(src), stop := stop)
    else Event(newId, start, stop, Some(src), NotSet)
  }

  /** The event at `start`, if any, is one the source may take over. */
  predicate MayTakeOver(s: seq<Event>, src: Grabber, start: int) {
    Found(s, start) ==> !Blocks(s[Position(s, start)].grabber, src)
  }

  /** Seen through its candidate, every insert that passes the grabber check is a resolution;
      re-inserting an event with its own stop time resolves to itself. */
  lemma {:induction false} InsertIsResolve(s: seq<Event>, src: Grabber, start: int, stop: int, w: nat, newId: nat)
    requires Ordered(s) && start < stop && MayTakeOver(s, src, start)
    ensures var p, q := Position(s, start), Following(s, start);
      var r := Candidate(s, src, start, stop, newId);
      var i := Insert(s, Some(src), start, stop, true, w, newId);
      var j := Resolve(s, p, q, r, w);
      Place(s, p, q, r) && i.sched == j.sched && i.ret == j.ret
  {
    var p := Position(s, start);
    var r := Candidate(s, src, start, stop, newId);
    PlaceOf(s, r);
    if Found(s, start) {
      BlocksIsCannotRemove(s[p].grabber, src);
      if s[p].stop == stop {
        FitsAsIs(s, p, r, w);
      }
    }
  }

  /** An event that keeps its time displaces nobody. */
  lemma {:induction false} FitsAsIs(s: seq<Event>, p: nat, r: Event, w: nat)
    requires Ordered(s) && p < |s| && r.start == s[p].start && r.stop == s[p].stop
    ensures Resolve(s, p, p + 1, r, w) == Inserted(s[p := r], Some(r), true)
  {
    AroundIndex(s, p);
    assert Behind(s, p, r, w) == Side(p, false, false);
    assert Ahead(s, p + 1, r, w) == Side(p + 1, false, false);
    assert s[..p] + [r] + s[p + 1..] == s[p := r];
  }

  // ---------------------------------------------------------------- when an insert is refused

  /** Event i of s overlaps [start, stop), outranks src, and no event between start and it
      shortens the newcomer first. */
  ghost predicate StandsInTheWay(s: seq<Event>, src: Grabber, start: int, stop: int, w: nat, i: int) {
    && 0 <= i < |s|
    && Overlaps(s[i], start, stop)
    && Blocks(s[i].grabber, src)
    && forall j :: 0 <= j < i && start < s[j].start ==> !Shortens(start, stop, s[j], w)
  }

  /** The event a refused resolution stops at. */
  function Obstacle(s: seq<Event>, p: nat, q: nat, r: Event, w: nat): Option<nat>
    requires p <= q <= |s|
  {
    if Behind(s, p, r, w).blocked then Some(Behind(s, p, r, w).n - 1)
    else if Ahead(s, q, r, w).blocked then Some(Ahead(s, q, r, w).n)
    else None
  }

  lemma {:induction false} ObstacleStandsInTheWay(s: seq<Event>, p: nat, q: nat, r: Event, src: Grabber, w: nat)
    requires Place(s, p, q, r) && r.grabber == Some(src)
    requires Obstacle(s, p, q, r, w).Some?
    ensures StandsInTheWay(s, src, r.start, r.stop, w, Obstacle(s, p, q, r, w).value)
  {
    var i := Obstacle(s, p, q, r, w).value;
    BehindMeans(s, p, r, w);
    AheadMeans(s, q, r, w);
    BehindAtMostOne(s, p, q, r, w);
    BlocksIsCannotRemove(s[i].grabber, src);
  }

  lemma {:induction false} InTheWayIsObstacle(s: seq<Event>, p: nat, q: nat, r: Event, src: Grabber, w: nat, i: int)
    requires Place(s, p, q, r) && r.grabber == Some(src)
    requires p < q ==> !Blocks(s[p].grabber, src)
    requires StandsInTheWay(s, src, r.start, r.stop, w, i)
    ensures Obstacle(s, p, q, r, w).Some? && Obstacle(s, p, q, r, w).value <= i
  {
    BlocksIsCannotRemove(s[i].grabber, src);
    BehindMeans(s, p, r, w);
    AheadMeans(s, q, r, w);
    BehindAtMostOne(s, p, q, r, w);
    var a := Ahead(s, q, r, w);
    if q <= i && a.n < |s| {
      AroundIndex(s, a.n);
    }
  }

  /** An insert is refused exactly when some event it overlaps outranks the source and
      no later event in front of that one already shortens the newcomer. */
  lemma {:induction false} InsertRefused(s: seq<Event>, src: Grabber, start: int, stop: int, w: nat, newId: nat)
    requires Ordered(s) && start < stop
    ensures Insert(s, Some(src), start, stop, true, w, newId).ret.None? <==>
      exists i :: StandsInTheWay(s, src, start, stop, w, i)
  {
    var p, q := Position(s, start), Following(s, start);
    if !MayTakeOver(s, src, start) {
      BlocksIsCannotRemove(s[p].grabber, src);
      assert StandsInTheWay(s, src, start, stop, w, p);
    } else {
      var r := Candidate(s, src, start, stop, newId);
      InsertIsResolve(s, src, start, stop, w, newId);
      if Obstacle(s, p, q, r, w).Some? {
        ObstacleStandsInTheWay(s, p, q, r, src, w);
      }
      if i :| StandsInTheWay(s, src, start, stop, w, i) {
        InTheWayIsObstacle(s, p, q, r, src, w, i);
      }
    }
  }

  // ---------------------------------------------------------------- refused inserts

  ghost predicate FirstInTheWay(s: seq<Event>, src: Grabber, start: int, stop: int, w: nat, i: int) {
    && StandsInTheWay(s, src, start, stop, w, i)
    && forall j :: 0 <= j < i ==> !StandsInTheWay(s, src, start, stop, w, j)
  }

  ghost predicate FirstOverlapped(s: seq<Event>, start: int, stop: int, i: int) {
    forall j :: 0 <= j < i && j < |s| ==> !Overlaps(s[j], start, stop)
  }

  /** A refused insert is not free of effects: it leaves the schedule as it was exactly when
      the first event in its way is also the first event it overlaps. */
  lemma {:induction false} RefusedLeavesScheduleIff(s: seq<Event>, src: Grabber, start: int, stop: int,
                                                    w: nat, newId: nat, i: nat)
    requires Ordered(s) && start < stop && i < |s|
    requires FirstInTheWay(s, src, start, stop, w, i)
    ensures Insert(s, Some(src), start, stop, true, w, newId).sched == s <==> FirstOverlapped(s, start, stop, i)
  {
    var p, q := Position(s, start), Following(s, start);
    if !MayTakeOver(s, src, start) {
      BlocksIsCannotRemove(s[p].grabber, src);
      assert StandsInTheWay(s, src, start, stop, w, p);
      AroundIndex(s, p);
    } else {
      var r := Candidate(s, src, start, stop, newId);
      InsertIsResolve(s, src, start, stop, w, newId);
      InTheWayIsObstacle(s, p, q, r, src, w, i);
      ObstacleStandsInTheWay(s, p, q, r, src, w);
      assert Obstacle(s, p, q, r, w) == Some(i);
      ObstructedUnchangedIff(s, p, q, r, w, i);
    }
  }

  lemma {:induction false} ObstructedUnchangedIff(s: seq<Event>, p: nat, q: nat, r: Event, w: nat, i: nat)
    requires Place(s, p, q, r) && Obstacle(s, p, q, r, w) == Some(i) && i < |s|
    ensures Resolve(s, p, q, r, w).sched == s <==> FirstOverlapped(s, r.start, r.stop, i)
  {
    BehindMeans(s, p, r, w);
    AheadMeans(s, q, r, w);
    BehindAtMostOne(s, p, q, r, w);
    var b := Behind(s, p, r, w);
    if b.blocked {
      assert b.n == p == q;
      assert s[..p] + s[p..] == s;
    } else {
      ObstructedAheadIff(s, p, q, r, w, i);
    }
  }

  lemma {:induction false} ObstructedAheadIff(s: seq<Event>, p: nat, q: nat, r: Event, w: nat, i: nat)
    requires Place(s, p, q, r) && i < |s|
    requires !Behind(s, p, r, w).blocked && Ahead(s, q, r, w) == Side(i, true, false)
    ensures Kept(s, Behind(s, p, r, w), r) + s[i..] == s <==> FirstOverlapped(s, r.start, r.stop, i)
  {
    BehindMeans(s, p, r, w);
    BehindAtMostOne(s, p, q, r, w);
    var b := Behind(s, p, r, w);
    var left := Kept(s, b, r) + s[i..];
    if b.cut {
      assert Overlaps(s[p - 1], r.start, r.stop);
      assert left[p - 1] != s[p - 1];
    } else if b.n < p {
      assert Overlaps(s[p - 1], r.start, r.stop);
      assert |left| < |s|;
    } else if p < i {
      AroundIndex(s, p);
      assert Overlaps(s[p], r.start, r.stop);
      assert |left| < |s|;
    } else {
      assert left == s[..p] + s[p..] == s;
    }
  }

  /** Two events, the second of a high priority: a refused insert across both still removes
      the first. */
  lemma {:induction false} RefusedMayRemove()
    ensures var low, high := Grabber(1, 0), Grabber(2, 9);
      var s := [Event(1, 0, 10, Some(low), NotSet), Event(2, 10, 20, Some(high), NotSet)];
      Ordered(s) && Insert(s, Some(low), 5, 15, true, 0, 3) == Inserted([s[1]], None, true)
  {
    var low, high := Grabber(1, 0), Grabber(2, 9);
    var s := [Event(1, 0, 10, Some(low), NotSet), Event(2, 10, 20, Some(high), NotSet)];
    var r := Event(3, 5, 15, Some(low), NotSet);
    PositionIs(s, 5, 1);
    assert Behind(s, 1, r, 0) == Behind(s, 0, r, 0) == Side(0, false, false);
    assert Ahead(s, 1, r, 0) == Side(1, true, false);
    assert s[..0] + s[1..] == [s[1]];
  }

  // ---------------------------------------------------------------- who is left untouched

  /** An event whose grabber outranks the source comes through every insert unchanged. */
  lemma {:induction false} OutrankingEventsKept(s: seq<Event>, src: Grabber, start: int, stop: int,
                                                w: nat, newId: nat, e: Event)
    requires Ordered(s) && start < stop
    requires e in s && Blocks(e.grabber, src)
    ensures e in Insert(s, Some(src), start, stop, true, w, newId).sched
  {
    var p, q := Position(s, start), Following(s, start);
    if !MayTakeOver(s, src, start) {
      BlocksIsCannotRemove(s[p].grabber, src);
    } else {
      BlocksIsCannotRemove(e.grabber, src);
      InsertIsResolve(s, src, start, stop, w, newId);
      var i :| 0 <= i < |s| && s[i] == e;
      assert i < p || q <= i;
      ResolveKeeps(s, p, q, Candidate(s, src, start, stop, newId), w, i);
    }
  }

  /** A resolution loses only events the newcomer may remove. */
  lemma {:induction false} ResolveKeeps(s: seq<Event>, p: nat, q: nat, r: Event, w: nat, i: nat)
    requires p <= q <= |s| && (i < p || q <= i < |s|)
    requires !CanRemove(s[i].grabber, r.grabber)
    ensures s[i] in Resolve(s, p, q, r, w).sched
  {
    BehindMeans(s, p, r, w);
    AheadMeans(s, q, r, w);
    var b := Behind(s, p, r, w);
    var a := Ahead(s, q, r, w);
    if i < p {
      assert i < b.n && Kept(s, b, r)[i] == s[i];
    } else if b.blocked {
      assert s[q..][i - q] == s[i];
    } else {
      assert s[a.n..][i - a.n] == s[i];
    }
  }

  // ---------------------------------------------------------------- what an accepted insert leaves

  /** e0 ran into `start` and was long enough to be shortened by at most w. */
  predicate Trimmed(e0: Event, start: int, w: nat) {
    && e0.start < start < e0.stop
    && w != 0 && e0.stop - e0.start > Doubled(w) && e0.stop - start <= w
  }

  ghost predicate TrimOf(s: seq<Event>, start: int, w: nat, e: Event) {
    exists e0 :: e0 in s && Trimmed(e0, start, w) && e == e0.(stop := start)
  }

  lemma {:induction false} KeptMembers(s: seq<Event>, p: nat, q: nat, r: Event, stop: int, w: nat, e: Event)
    requires Place(s, p, q, r) && r.start < stop && !Behind(s, p, r, w).blocked
    ensures e in Kept(s, Behind(s, p, r, w), r) <==>
      (e in s[..p] && !Overlaps(e, r.start, stop)) || TrimOf(s, r.start, w, e)
  {
    BehindMeans(s, p, r, w);
    BehindAtMostOne(s, p, q, r, w);
    var b := Behind(s, p, r, w);
    var kept := Kept(s, b, r);
    if e in kept {
      var i :| 0 <= i < |kept| && kept[i] == e;
      if i == p - 1 && b.cut {
        assert s[p - 1] in s && Trimmed(s[p - 1], r.start, w);
      } else {
        assert s[..p][i] == e;
      }
    }
    if e in s[..p] && !Overlaps(e, r.start, stop) {
      var i :| 0 <= i < p && s[..p][i] == e;
      assert kept[i] == e;
    }
    if TrimOf(s, r.start, w, e) {
      var e0 :| e0 in s && Trimmed(e0, r.start, w) && e == e0.(stop := r.start);
      assert e0 == s[p - 1];
      assert kept[p - 1] == e;
    }
  }

  lemma {:induction false} TailMembers(s: seq<Event>, q: nat, n: nat, start: int, stop: int, e: Event)
    requires Ordered(s) && q <= n <= |s|
    requires forall i :: q <= i < |s| ==> start < s[i].start
    requires forall i :: q <= i < n ==> s[i].start < stop
    requires n < |s| ==> stop <= s[n].start
    ensures e in s[n..] <==> e in s[q..] && !Overlaps(e, start, stop)
  {
    if n < |s| {
      AroundIndex(s, n);
    }
    assert forall i :: n <= i < |s| ==> s[n..][i - n] == s[i] == s[q..][i - q];
  }

  /** What the returned event looks like. */
  lemma {:induction false} AcceptedShape(s: seq<Event>, p: nat, q: nat, r: Event, w: nat)
    requires Place(s, p, q, r)
    requires Resolve(s, p, q, r, w).ret.Some?
    ensures var r' := Resolve(s, p, q, r, w).ret.value;
      && r' == r.(stop := r'.stop)
      && r.start < r'.stop <= r.stop
      && (r'.stop != r.stop ==> Shortens(r.start, r.stop, Event(0, r'.stop, r.stop, None, NotSet), w))
      && (Ahead(s, q, r, w).n < |s| ==> r'.stop <= s[Ahead(s, q, r, w).n].start)
      && (forall i :: q <= i < Ahead(s, q, r, w).n ==> s[i].start < r'.stop)
  {
    AheadMeans(s, q, r, w);
    var a := Ahead(s, q, r, w);
    if a.n < |s| {
      AroundIndex(s, a.n);
    }
  }

  /** The schedule after an accepted insert is exactly: the new event, every old event it
      does not overlap, and the predecessor it shortened, if any. */
  lemma {:induction false} InsertSurvivors(s: seq<Event>, src: Grabber, start: int, stop: int,
                                           w: nat, newId: nat, e: Event)
    requires Ordered(s) && start < stop
    requires Insert(s, Some(src), start, stop, true, w, newId).ret.Some?
    ensures var i := Insert(s, Some(src), start, stop, true, w, newId);
      e in i.sched <==>
        || e == i.ret.value
        || (e in s && !Overlaps(e, start, i.ret.value.stop))
        || TrimOf(s, start, w, e)
  {
    var p, q := Position(s, start), Following(s, start);
    if Found(s, start) {
      BlocksIsCannotRemove(s[p].grabber, src);
    }
    var r := Candidate(s, src, start, stop, newId);
    InsertIsResolve(s, src, start, stop, w, newId);
    AcceptedShape(s, p, q, r, w);
    var r' := Resolve(s, p, q, r, w).ret.value;
    KeptMembers(s, p, q, r, r'.stop, w, e);
    TailMembers(s, q, Ahead(s, q, r, w).n, start, r'.stop, e);
    SplitMembers(s, p, q, start, r'.stop, e);
  }

  lemma {:induction false} SplitMembers(s: seq<Event>, p: nat, q: nat, start: int, stop: int, e: Event)
    requires Ordered(s) && p <= q <= |s| && start < stop
    requires forall i :: p <= i < q ==> s[i].start == start
    ensures e in s && !Overlaps(e, start, stop) <==> (e in s[..p] || e in s[q..]) && !Overlaps(e, start, stop)
  {
    assert forall i :: 0 <= i < p ==> s[..p][i] == s[i];
    assert forall i :: q <= i < |s| ==> s[q..][i - q] == s[i];
  }

  /** The schedule after a refused insert, i being the first event in its way, is exactly:
      every old event from that one on, every earlier one that is not overlapped, and the
      predecessor that was shortened before the obstacle was met, if any. */
  lemma {:induction false} RefusedSurvivors(s: seq<Event>, src: Grabber, start: int, stop: int,
                                            w: nat, newId: nat, i: nat, e: Event)
    requires Ordered(s) && start < stop && i < |s|
    requires FirstInTheWay(s, src, start, stop, w, i)
    ensures e in Insert(s, Some(src), start, stop, true, w, newId).sched <==>
      || (e in s && (!Overlaps(e, start, stop) || s[i].start <= e.start))
      || (TrimOf(s, start, w, e) && e.start < s[i].start)
  {
    var p, q := Position(s, start), Following(s, start);
    if !MayTakeOver(s, src, start) {
      BlocksIsCannotRemove(s[p].grabber, src);
      assert StandsInTheWay(s, src, start, stop, w, p);
      UnchangedMembers(s, start, stop, w, i, e);
    } else {
      var r := Candidate(s, src, start, stop, newId);
      InsertIsResolve(s, src, start, stop, w, newId);
      InTheWayIsObstacle(s, p, q, r, src, w, i);
      ObstacleStandsInTheWay(s, p, q, r, src, w);
      if Behind(s, p, r, w).blocked {
        BehindAtMostOne(s, p, q, r, w);
        assert s[..p] + s[p..] == s;
        UnchangedMembers(s, start, stop, w, i, e);
      } else {
        AheadMeans(s, q, r, w);
        AheadLeaves(s, p, q, r, w, i, e);
      }
    }
  }

  lemma {:induction false} AheadLeaves(s: seq<Event>, p: nat, q: nat, r: Event, w: nat, i: nat, e: Event)
    requires Place(s, p, q, r) && i < |s|
    requires !Behind(s, p, r, w).blocked && Ahead(s, q, r, w) == Side(i, true, false)
    ensures e in Kept(s, Behind(s, p, r, w), r) + s[i..] <==>
      || (e in s && (!Overlaps(e, r.start, r.stop) || s[i].start <= e.start))
      || (TrimOf(s, r.start, w, e) && e.start < s[i].start)
  {
    AheadOverlaps(s, p, q, r, w, i);
    KeptMembers(s, p, q, r, r.stop, w, e);
    FrontMembers(s, p, q, i, r.start, r.stop, e);
    TrimIsBefore(s, r.start, w, i, e);
  }

  lemma {:induction false} AheadOverlaps(s: seq<Event>, p: nat, q: nat, r: Event, w: nat, i: nat)
    requires Place(s, p, q, r) && i < |s| && Ahead(s, q, r, w) == Side(i, true, false)
    ensures forall k :: p <= k < i ==> Overlaps(s[k], r.start, r.stop)
  {
    AheadMeans(s, q, r, w);
  }

  /** With nothing overlapped in front of the i-th event the description is that of s. */
  lemma {:induction false} UnchangedMembers(s: seq<Event>, start: int, stop: int, w: nat, i: nat, e: Event)
    requires Ordered(s) && start < stop && i < |s| && Overlaps(s[i], start, stop)
    requires s[i].start <= start
    ensures e in s ==> !Overlaps(e, start, stop) || s[i].start <= e.start
    ensures !(TrimOf(s, start, w, e) && e.start < s[i].start)
  {
    AroundIndex(s, i);
  }

  lemma {:induction false} FrontMembers(s: seq<Event>, p: nat, q: nat, i: nat, start: int, stop: int, e: Event)
    requires Ordered(s) && p <= q <= i < |s| && start < stop
    requires forall k :: 0 <= k < p ==> s[k].start < start
    requires forall k :: p <= k < i ==> Overlaps(s[k], start, stop)
    requires start <= s[i].start
    ensures e in s && (!Overlaps(e, start, stop) || s[i].start <= e.start) <==>
      (e in s[..p] && !Overlaps(e, start, stop)) || e in s[i..]
  {
    AroundIndex(s, i);
    assert forall k :: 0 <= k < p ==> s[..p][k] == s[k];
    assert forall k :: i <= k < |s| ==> s[i..][k - i] == s[k];
  }

  lemma {:induction false} TrimIsBefore(s: seq<Event>, start: int, w: nat, i: nat, e: Event)
    requires i < |s| && start <= s[i].start
    ensures TrimOf(s, start, w, e) ==> e.start < s[i].start
  {
  }

  /** Whatever becomes of an insert, an event it takes away or changes is one it overlaps and
      whose grabber does not outrank the source. */
  lemma {:induction false} LostEventsOverlap(s: seq<Event>, src: Grabber, start: int, stop: int,
                                             w: nat, newId: nat, e: Event)
    requires Ordered(s) && start < stop
    requires e in s && e !in Insert(s, Some(src), start, stop, true, w, newId).sched
    ensures Overlaps(e, start, stop) && !Blocks(e.grabber, src)
  {
    if Blocks(e.grabber, src) {
      OutrankingEventsKept(s, src, start, stop, w, newId, e);
    }
    InsertRefused(s, src, start, stop, w, newId);
    if Insert(s, Some(src), start, stop, true, w, newId).ret.None? {
      var k :| StandsInTheWay(s, src, start, stop, w, k);
      var i := FirstOf(s, src, start, stop, w, k);
      RefusedSurvivors(s, src, start, stop, w, newId, i, e);
    } else {
      InsertSurvivors(s, src, start, stop, w, newId, e);
      AcceptedStop(s, src, start, stop, w, newId);
    }
  }

  ghost function FirstOf(s: seq<Event>, src: Grabber, start: int, stop: int, w: nat, k: int): (i: nat)
    requires StandsInTheWay(s, src, start, stop, w, k)
    ensures i <= k && FirstInTheWay(s, src, start, stop, w, i)
  {
    if exists j :: 0 <= j < k && StandsInTheWay(s, src, start, stop, w, j) then
      var j :| 0 <= j < k && StandsInTheWay(s, src, start, stop, w, j);
      FirstOf(s, src, start, stop, w, j)
    else k
  }

  lemma {:induction false} AcceptedStop(s: seq<Event>, src: Grabber, start: int, stop: int, w: nat, newId: nat)
    requires Ordered(s) && start < stop
    requires Insert(s, Some(src), start, stop, true, w, newId).ret.Some?
    ensures Insert(s, Some(src), start, stop, true, w, newId).ret.value.stop <= stop
  {
    var p := Position(s, start);
    if Found(s, start) {
      BlocksIsCannotRemove(s[p].grabber, src);
    }
    InsertIsResolve(s, src, start, stop, w, newId);
    AcceptedShape(s, p, Following(s, start), Candidate(s, src, start, stop, newId), w);
  }

  // ---------------------------------------------------------------- how much is trimmed

  /** With a cut window whose double fits 32 bits, an accepted insert keeps its start, loses
      at most w seconds at its end, and is shortened only when more than w seconds remain. */
  lemma {:induction false} AcceptedKeepsItsTime(s: seq<Event>, src: Grabber, start: int, stop: int, w: nat, newId: nat)
    requires Ordered(s) && start < stop && 2 * w < UINT32_RANGE
    requires Insert(s, Some(src), start, stop, true, w, newId).ret.Some?
    ensures var r := Insert(s, Some(src), start, stop, true, w, newId).ret.value;
      && r.start == start
      && stop - w <= r.stop <= stop
      && (r.stop < stop ==> r.stop - start > w)
      && r.grabber == Some(src)
  {
    var p := Position(s, start);
    if Found(s, start) {
      BlocksIsCannotRemove(s[p].grabber, src);
    }
    InsertIsResolve(s, src, start, stop, w, newId);
    AcceptedShape(s, p, Following(s, start), Candidate(s, src, start, stop, newId), w);
  }

  /** An event that an insert from src, accepted or refused, leaves and that was not there
      before is the new event or an old one shortened to end where the insert starts. */
  lemma {:induction false} ChangedIsTrimmed(s: seq<Event>, src: Grabber, start: int, stop: int,
                                            w: nat, newId: nat, e: Event)
    requires Ordered(s) && start < stop
    requires e in Insert(s, Some(src), start, stop, true, w, newId).sched && e !in s
    requires Insert(s, Some(src), start, stop, true, w, newId).ret != Some(e)
    ensures TrimOf(s, start, w, e)
  {
    InsertRefused(s, src, start, stop, w, newId);
    if Insert(s, Some(src), start, stop, true, w, newId).ret.None? {
      var k :| StandsInTheWay(s, src, start, stop, w, k);
      RefusedSurvivors(s, src, start, stop, w, newId, FirstOf(s, src, start, stop, w, k), e);
    } else {
      InsertSurvivors(s, src, start, stop, w, newId, e);
    }
  }

  /** Every old event an insert changes loses at most w seconds and keeps more than w. */
  ghost predicate TrimsWithin(s: seq<Event>, src: Grabber, start: int, stop: int, w: nat, newId: nat) {
    var i := Insert(s, Some(src), start, stop, true, w, newId);
    forall e :: e in i.sched && e !in s && i.ret != Some(e) ==>
      exists e0 :: e0 in s && e == e0.(stop := e.stop) && 0 < e0.stop - e.stop <= w < e.stop - e.start
  }

  /** With a cut window w every trim of every insert, accepted or refused, takes at most w
      seconds and leaves more than w - for all inserts exactly when 2w does not wrap in the
      32-bit doubling. */
  lemma {:induction false} TrimLeavesMoreThanWindowIff(w: nat)
    requires 0 < w < UINT32_RANGE
    ensures (forall s, src, start, stop, newId :: Ordered(s) && start < stop ==>
               TrimsWithin(s, src, start, stop, w, newId))
      <==> 2 * w < UINT32_RANGE
  {
    if 2 * w < UINT32_RANGE {
      forall s, src, start, stop, newId | Ordered(s) && start < stop
        ensures TrimsWithin(s, src, start, stop, w, newId)
      {
        TrimsAreWithin(s, src, start, stop, w, newId);
      }
    } else {
      TrimLeavesLess(w);
    }
  }

  lemma {:induction false} TrimsAreWithin(s: seq<Event>, src: Grabber, start: int, stop: int, w: nat, newId: nat)
    requires Ordered(s) && start < stop && 2 * w < UINT32_RANGE
    ensures TrimsWithin(s, src, start, stop, w, newId)
  {
    var i := Insert(s, Some(src), start, stop, true, w, newId);
    forall e | e in i.sched && e !in s && i.ret != Some(e)
      ensures exists e0 :: e0 in s && e == e0.(stop := e.stop) && 0 < e0.stop - e.stop <= w < e.stop - e.start
    {
      ChangedIsTrimmed(s, src, start, stop, w, newId, e);
    }
  }

  /** With a doubling that wraps, an event of w + 1 seconds is cut down to one second. */
  lemma {:induction false} TrimLeavesLess(w: nat)
    requires w < UINT32_RANGE <= 2 * w
    ensures var s := [Event(1, 1, 2 + w, None, NotSet)];
      Ordered(s) && !TrimsWithin(s, Grabber(1, 0), 2, 3 + w, w, 2)
  {
    var e0 := Event(1, 1, 2 + w, None, NotSet);
    var (s, e) := ([e0], e0.(stop := 2));
    var r := Event(2, 2, 3 + w, Some(Grabber(1, 0)), NotSet);
    assert Doubled(w) == 2 * w - UINT32_RANGE;
    PositionIs(s, 2, 1);
    assert Behind(s, 1, r, w) == Side(1, false, true);
    assert Ahead(s, 1, r, w) == Side(1, false, false);
    assert Insert(s, Some(Grabber(1, 0)), 2, 3 + w, true, w, 2) == Inserted([e, r], Some(r), true);
    assert [e, r][0] == e && e !in s;
  }

  // ---------------------------------------------------------------- repeating an insert

  lemma PositionIs(s: seq<Event>, start: int, p: nat)
    requires p <= |s|
    requires forall i :: 0 <= i < p ==> s[i].start < start
    requires p < |s| ==> s[p].start >= start
    ensures Position(s, start) == p
  {
  }

  /** Inserting the same event from the same grabber a second time changes nothing, whether
      the first insert was accepted, trimmed or refused. */
  lemma {:induction false} InsertTwiceIsOnce(s: seq<Event>, src: Grabber, start: int, stop: int,
                                             w: nat, id1: nat, id2: nat)
    requires Ordered(s) && start < stop
    ensures var once := Insert(s, Some(src), start, stop, true, w, id1);
      var twice := Insert(once.sched, Some(src), start, stop, true, w, id2);
      twice.sched == once.sched && twice.ret == once.ret
  {
    var p, q := Position(s, start), Following(s, start);
    if !MayTakeOver(s, src, start) {
      BlocksIsCannotRemove(s[p].grabber, src);
    } else {
      var r := Candidate(s, src, start, stop, id1);
      InsertIsResolve(s, src, start, stop, w, id1);
      if Resolve(s, p, q, r, w).ret.None? {
        RepeatRefused(s, p, q, r, src, w, id2);
      } else {
        RepeatAccepted(s, p, q, r, src, w, id2);
      }
    }
  }

  lemma {:induction false} RepeatRefused(s: seq<Event>, p: nat, q: nat, r: Event, src: Grabber, w: nat, id2: nat)
    requires Place(s, p, q, r) && r.grabber == Some(src)
    requires Resolve(s, p, q, r, w).ret.None?
    ensures var once := Resolve(s, p, q, r, w).sched;
      var twice := Insert(once, Some(src), r.start, r.stop, true, w, id2);
      twice.sched == once && twice.ret.None?
  {
    BehindMeans(s, p, r, w);
    AheadMeans(s, q, r, w);
    BehindAtMostOne(s, p, q, r, w);
    KeptLeavesRoom(s, p, q, r, w);
    var b := Behind(s, p, r, w);
    if b.blocked {
      StillRefused(s[..p], s[q..], r, src, w, id2);
    } else {
      var a := Ahead(s, q, r, w);
      assert forall i :: 0 <= i < |Kept(s, b, r)| ==> Kept(s, b, r)[i].start < r.start;
      StillRefused(Kept(s, b, r), s[a.n..], r, src, w, id2);
    }
  }

  lemma {:induction false} StillRefused(pre: seq<Event>, post: seq<Event>, r: Event, src: Grabber, w: nat, id2: nat)
    requires r.grabber == Some(src)
    requires forall i :: 0 <= i < |pre| ==> pre[i].start < r.start
    requires post != [] ==> r.start < post[0].start
    requires
      || (pre != [] && pre[|pre| - 1].stop > r.start && !CanRemove(pre[|pre| - 1].grabber, r.grabber))
      || ((pre != [] ==> pre[|pre| - 1].stop <= r.start)
          && post != [] && post[0].start < r.stop && !CanRemove(post[0].grabber, r.grabber))
    ensures Insert(pre + post, Some(src), r.start, r.stop, true, w, id2) == Inserted(pre + post, None, true)
  {
    var s, p := pre + post, |pre|;
    assert p < |s| ==> s[p] == post[0];
    assert p > 0 ==> s[p - 1] == pre[p - 1];
    assert forall i :: 0 <= i < p ==> s[i] == pre[i];
    StillRefusedAt(s, p, r, src, w, id2);
  }

  lemma {:induction false} StillRefusedAt(s: seq<Event>, p: nat, r: Event, src: Grabber, w: nat, id2: nat)
    requires r.grabber == Some(src) && p <= |s|
    requires forall i :: 0 <= i < p ==> s[i].start < r.start
    requires p < |s| ==> r.start < s[p].start
    requires
      || (p > 0 && s[p - 1].stop > r.start && !CanRemove(s[p - 1].grabber, r.grabber))
      || ((p > 0 ==> s[p - 1].stop <= r.start)
          && p < |s| && s[p].start < r.stop && !CanRemove(s[p].grabber, r.grabber))
    ensures Insert(s, Some(src), r.start, r.stop, true, w, id2) == Inserted(s, None, true)
  {
    PositionIs(s, r.start, p);
    assert s[..p] + s[p..] == s;
  }

  lemma {:induction false} RepeatAccepted(s: seq<Event>, p: nat, q: nat, r: Event, src: Grabber, w: nat, id2: nat)
    requires Place(s, p, q, r) && r.grabber == Some(src)
    requires Resolve(s, p, q, r, w).ret.Some?
    ensures var once := Resolve(s, p, q, r, w);
      var twice := Insert(once.sched, Some(src), r.start, r.stop, true, w, id2);
      twice.sched == once.sched && twice.ret == once.ret
  {
    AheadMeans(s, q, r, w);
    var b, a := Behind(s, p, r, w), Ahead(s, q, r, w);
    KeptLeavesRoom(s, p, q, r, w);
    var kept := Kept(s, b, r);
    assert forall i :: 0 <= i < |kept| ==> kept[i].start < r.start;
    AcceptedShape(s, p, q, r, w);
    var r' := Resolve(s, p, q, r, w).ret.value;
    StillAccepted(kept, r, r', s[a.n..], src, w, id2);
  }

  lemma {:induction false} StillAccepted(pre: seq<Event>, r: Event, r': Event, post: seq<Event>,
                                         src: Grabber, w: nat, id2: nat)
    requires r.grabber == Some(src) && r' == r.(stop := r'.stop) && r.start < r.stop
    requires forall i :: 0 <= i < |pre| ==> pre[i].start < r.start && pre[i].stop <= r.start
    requires
      || (r' == r && (post != [] ==> r.stop <= post[0].start))
      || (&& post != [] && r'.stop == post[0].start < r.stop && CutsAfter(r, post[0], w)
          && CanRemove(post[0].grabber, r.grabber))
    ensures var s := pre + [r'] + post;
      var twice := Insert(s, Some(src), r.start, r.stop, true, w, id2);
      twice.sched == s && twice.ret == Some(r')
  {
    var s, p := pre + [r'] + post, |pre|;
    assert s[p] == r';
    assert p + 1 < |s| ==> s[p + 1] == post[0];
    assert forall i :: 0 <= i < p ==> s[i] == pre[i];
    PositionIs(s, r.start, p);
    assert Found(s, r.start) && SetGrabber(r'.grabber, Some(src)) == Some(r.grabber);
    if r'.stop == r.stop {
      assert s[p := r'] == s;
    } else {
      assert Behind(s, p, r, w) == Side(p, false, false);
      assert Ahead(s, p + 1, r, w) == Side(p + 1, false, true);
      assert s[..p] == pre && s[p + 1..] == post;
    }
  }
}
