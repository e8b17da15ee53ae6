/** The value-level view of one channel's EPG schedule: what an insert, a removal
    and a timer expiry do to it, independently of how the loops in
    src/epg.c get there. */
module Schedule {
  import opened Wrappers

  /** A grabber module.  Two grabber pointers are equal exactly when the values are. */
  datatype Grabber = Grabber(id: nat, priority: int)

  datatype Running = NotSet | Stop | Warm | Now | Pause

  datatype Event = Event(id: nat, start: int, stop: int, grabber: Option<Grabber>, running: Running)

  const UINT32_RANGE: nat := 0x1_0000_0000

  predicate Precedes(a: Event, b: Event) {
    a.stop <= b.start
  }

  /** Every event has a positive length and ends before any later one starts. */
  ghost predicate Ordered(s: seq<Event>) {
    && (forall i :: 0 <= i < |s| ==> s[i].start < s[i].stop)
    && (forall i, j {:trigger Precedes(s[i], s[j])} :: 0 <= i < j < |s| ==> Precedes(s[i], s[j]))
  }

  /** All of `a` is over before any of `b` starts. */
  ghost predicate Apart(a: seq<Event>, b: seq<Event>) {
    forall i, j {:trigger Precedes(a[i], b[j])} :: 0 <= i < |a| && 0 <= j < |b| ==> Precedes(a[i], b[j])
  }

  // ---------------------------------------------------------------- grabber priority

  /** May an event of grabber `newer` push aside one of grabber `older`? */
  predicate CanRemove(older: Option<Grabber>, newer: Option<Grabber>) {
    newer.Some? &&
    (older.None? || older == newer || newer.value.priority > older.value.priority)
  }

  /** The grabber an event ends up with, or None when `src` may not touch it. */
  function SetGrabber(older: Option<Grabber>, src: Option<Grabber>): Option<Option<Grabber>> {
    if src.None? then Some(older)
    else if older == src then Some(older)
    else if older.Some? && older.value.priority >= src.value.priority then None
    else Some(src)
  }

  /** `older` outranks `src`: a different, non-null grabber of at least its priority. */
  predicate Blocks(older: Option<Grabber>, src: Grabber) {
    older.Some? && older.value != src && older.value.priority >= src.priority
  }

  // ---------------------------------------------------------------- overlap resolution

  /** `config.epg_cut_window * 2`, computed in 32 bits. */
  function Doubled(w: nat): nat {
    (w * 2) % UINT32_RANGE
  }

  /** An earlier event e is shortened (rather than removed) to make room for r. */
  predicate CutsBefore(e: Event, r: Event, w: nat) {
    w != 0 && e.stop - e.start > Doubled(w) && e.stop - r.start <= w
  }

  /** The new event r is shortened (rather than e removed) to fit in front of e. */
  predicate CutsAfter(r: Event, e: Event, w: nat) {
    w != 0 && r.stop - r.start > Doubled(w) && r.stop - e.start <= w
  }

  /** Where an overlap loop stops: at index n, because of a blocking event, because of a
      cut, or because nothing overlaps any more. */
  datatype Side = Side(n: nat, blocked: bool, cut: bool)

  /** The backward loop, having dropped the events between n and the place of r. */
  function Behind(s: seq<Event>, n: nat, r: Event, w: nat): (b: Side)
    requires n <= |s|
    ensures b.n <= n && (b.blocked || b.cut ==> 0 < b.n)
  {
    if n == 0 || s[n - 1].stop <= r.start then Side(n, false, false)
    else if !CanRemove(s[n - 1].grabber, r.grabber) then Side(n, true, false)
    else if CutsBefore(s[n - 1], r, w) then Side(n, false, true)
    else Behind(s, n - 1, r, w)
  }

  lemma {:induction false} BehindMeans(s: seq<Event>, n: nat, r: Event, w: nat)
    requires n <= |s|
    ensures var b := Behind(s, n, r, w);
      && !(b.blocked && b.cut)
      && (b.n > 0 && !b.blocked && !b.cut ==> s[b.n - 1].stop <= r.start)
      && (b.blocked ==> s[b.n - 1].stop > r.start && !CanRemove(s[b.n - 1].grabber, r.grabber))
      && (b.cut ==> && s[b.n - 1].stop > r.start && CutsBefore(s[b.n - 1], r, w)
                    && CanRemove(s[b.n - 1].grabber, r.grabber))
      && forall i :: b.n <= i < n ==>
           s[i].stop > r.start && CanRemove(s[i].grabber, r.grabber) && !CutsBefore(s[i], r, w)
  {
    if n > 0 && Behind(s, n, r, w) == Behind(s, n - 1, r, w) {
      BehindMeans(s, n - 1, r, w);
    }
  }

  /** The forward loop, having dropped the events between the place of r and k. */
  function Ahead(s: seq<Event>, k: nat, r: Event, w: nat): (a: Side)
    requires k <= |s|
    ensures k <= a.n <= |s| && (a.blocked || a.cut ==> a.n < |s|)
    decreases |s| - k
  {
    if k == |s| || s[k].start >= r.stop then Side(k, false, false)
    else if !CanRemove(s[k].grabber, r.grabber) then Side(k, true, false)
    else if CutsAfter(r, s[k], w) then Side(k, false, true)
    else Ahead(s, k + 1, r, w)
  }

  lemma {:induction false} AheadMeans(s: seq<Event>, k: nat, r: Event, w: nat)
    requires k <= |s|
    ensures var a := Ahead(s, k, r, w);
      && !(a.blocked && a.cut)
      && (a.n < |s| && !a.blocked && !a.cut ==> s[a.n].start >= r.stop)
      && (a.blocked ==> s[a.n].start < r.stop && !CanRemove(s[a.n].grabber, r.grabber))
      && (a.cut ==> s[a.n].start < r.stop && CutsAfter(r, s[a.n], w) && CanRemove(s[a.n].grabber, r.grabber))
      && forall i :: k <= i < a.n ==>
           s[i].start < r.stop && CanRemove(s[i].grabber, r.grabber) && !CutsAfter(r, s[i], w)
    decreases |s| - k
  {
    if k < |s| && Ahead(s, k, r, w) == Ahead(s, k + 1, r, w) {
      AheadMeans(s, k + 1, r, w);
    }
  }

  /** What remains in front of r. */
  function Kept(s: seq<Event>, b: Side, r: Event): seq<Event>
    requires b.n <= |s| && (b.cut ==> 0 < b.n)
  {
    if b.cut then s[..b.n - 1] + [s[b.n - 1].(stop := r.start)] else s[..b.n]
  }

  /** What an insert leaves behind: the schedule, the event it returns and whether it
      counts as a change. */
  datatype Inserted = Inserted(sched: seq<Event>, ret: Option<Event>, save: bool)

  /** Put r between s[..p] and s[q..] and sort out the overlaps on both sides. */
  function Resolve(s: seq<Event>, p: nat, q: nat, r: Event, w: nat): Inserted
    requires p <= q <= |s|
  {
    var b := Behind(s, p, r, w);
    if b.blocked then Inserted(s[..b.n] + s[q..], None, true)
    else
      var a := Ahead(s, q, r, w);
      if a.blocked then Inserted(Kept(s, b, r) + s[a.n..], None, true)
      else
        var r' := if a.cut then r.(stop := s[a.n].start) else r;
        Inserted(Kept(s, b, r) + [r'] + s[a.n..], Some(r'), true)
  }

  /** How many events of an ordered schedule start before `start`. */
  function Position(s: seq<Event>, start: int): (p: nat)
    ensures p <= |s|
    ensures forall i :: 0 <= i < p ==> s[i].start < start
    ensures p < |s| ==> s[p].start >= start
  {
    PositionFrom(s, start, 0)
  }

  function PositionFrom(s: seq<Event>, start: int, from: nat): (p: nat)
    requires from <= |s|
    ensures from <= p <= |s|
    ensures forall i :: from <= i < p ==> s[i].start < start
    ensures p < |s| ==> s[p].start >= start
    decreases |s| - from
  {
    if from == |s| || s[from].start >= start then from else PositionFrom(s, start, from + 1)
  }

  predicate Found(s: seq<Event>, start: int) {
    var p := Position(s, start);
    p < |s| && s[p].start == start
  }

  /** Where the events after `start` begin. */
  function Following(s: seq<Event>, start: int): (q: nat)
    ensures Position(s, start) <= q <= |s|
  {
    if Found(s, start) then Position(s, start) + 1 else Position(s, start)
  }

  function Insert(s: seq<Event>, src: Option<Grabber>, start: int, stop: int,
                  create: bool, w: nat, newId: nat): Inserted
  {
    var p := Position(s, start);
    if src.None? then Inserted(s, None, false)
    else if !create then Inserted(s, if Found(s, start) then Some(s[p]) else None, false)
    else if !Found(s, start) then
      Resolve(s, p, p, Event(newId, start, stop, src, NotSet), w)
    else
      match SetGrabber(s[p].grabber, src)
      case None => Inserted(s, None, false)
      case Some(g) => Change(s, p, s[p].(grabber := g), stop, w)
  }

  /** The p-th event, which now has the grabber of e, gets its new stop time. */
  function Change(s: seq<Event>, p: nat, e: Event, stop: int, w: nat): Inserted
    requires p < |s|
  {
    if e.stop == stop then Inserted(s[p := e], Some(e), false)
    else Resolve(s, p, p + 1, e.(stop := stop), w)
  }

  // ---------------------------------------------------------------- ordered sequences

  lemma {:induction false} OrderedJoin(a: seq<Event>, b: seq<Event>)
    requires Ordered(a) && Ordered(b) && Apart(a, b)
    ensures Ordered(a + b)
  {
    var s := a + b;
    forall i, j | 0 <= i < j < |s| ensures Precedes(s[i], s[j]) {
      if j < |a| {
        assert Precedes(a[i], a[j]);
      } else if i >= |a| {
        assert Precedes(b[i - |a|], b[j - |a|]);
      } else {
        assert Precedes(a[i], b[j - |a|]);
      }
    }
  }

  lemma {:induction false} OrderedSlice(s: seq<Event>, i: nat, j: nat)
    requires Ordered(s) && i <= j <= |s|
    ensures Ordered(s[i..j])
  {
    var t := s[i..j];
    forall x, y | 0 <= x < y < |t| ensures Precedes(t[x], t[y]) {
      assert Precedes(s[i + x], s[i + y]);
    }
  }

  lemma {:induction false} OrderedSplice(s: seq<Event>, p: nat, q: nat)
    requires Ordered(s) && p <= q <= |s|
    ensures Ordered(s[..p] + s[q..])
  {
    OrderedSlice(s, 0, p);
    OrderedSlice(s, q, |s|);
    var a, b := s[..p], s[q..];
    forall i, j | 0 <= i < |a| && 0 <= j < |b| ensures Precedes(a[i], b[j]) {
      assert Precedes(s[i], s[q + j]);
    }
    OrderedJoin(a, b);
  }

  /** All events before index i end by the time s[i] starts, all later ones start after it. */
  lemma {:induction false} AroundIndex(s: seq<Event>, i: nat)
    requires Ordered(s) && i < |s|
    ensures forall j :: 0 <= j < i ==> s[j].stop <= s[i].start
    ensures forall j :: i < j < |s| ==> s[i].stop <= s[j].start
  {
    forall j | 0 <= j < i ensures s[j].stop <= s[i].start {
      assert Precedes(s[j], s[i]);
    }
    forall j | i < j < |s| ensures s[i].stop <= s[j].start {
      assert Precedes(s[i], s[j]);
    }
  }

  // ---------------------------------------------------------------- the invariant

  /** The place of r in s: s[..p] start before it, s[q..] after it, s[p..q] with it. */
  ghost predicate Place(s: seq<Event>, p: int, q: int, r: Event) {
    && 0 <= p <= q <= p + 1 && q <= |s|
    && Ordered(s)
    && r.start < r.stop
    && (forall i :: 0 <= i < p ==> s[i].start < r.start)
    && (forall i :: p <= i < q ==> s[i].start == r.start)
    && (forall i :: q <= i < |s| ==> r.start < s[i].start)
  }

  lemma {:induction false} PlaceOf(s: seq<Event>, r: Event)
    requires Ordered(s) && r.start < r.stop
    ensures Place(s, Position(s, r.start), Following(s, r.start), r)
  {
    var p := Position(s, r.start);
    if p < |s| {
      AroundIndex(s, p);
    }
  }

  /** On an ordered schedule the backward loop drops at most one event, and only when no
      event starts at the same time as r. */
  lemma {:induction false} BehindAtMostOne(s: seq<Event>, p: nat, q: nat, r: Event, w: nat)
    requires Place(s, p, q, r)
    ensures var b := Behind(s, p, r, w);
      && p - 1 <= b.n <= p
      && (b.blocked || b.cut ==> b.n == p)
      && (b.n < p || b.blocked || b.cut ==> q == p)
      && forall i :: 0 <= i < p - 1 ==> s[i].stop <= r.start
  {
    var b := Behind(s, p, r, w);
    BehindMeans(s, p, r, w);
    if p > 0 {
      AroundIndex(s, p - 1);
      assert p < q ==> s[p - 1].stop <= s[p].start == r.start;
    }
  }

  lemma {:induction false} KeptLeavesRoom(s: seq<Event>, p: nat, q: nat, r: Event, w: nat)
    requires Place(s, p, q, r)
    ensures var b := Behind(s, p, r, w);
      && Ordered(Kept(s, b, r))
      && (!b.blocked ==> forall i :: 0 <= i < |Kept(s, b, r)| ==> Kept(s, b, r)[i].stop <= r.start)
  {
    var b := Behind(s, p, r, w);
    BehindMeans(s, p, r, w);
    BehindAtMostOne(s, p, q, r, w);
    OrderedSlice(s, 0, b.n);
    if b.cut {
      OrderedSlice(s, 0, b.n - 1);
      AroundIndex(s, b.n - 1);
      OrderedJoin(s[..b.n - 1], [s[b.n - 1].(stop := r.start)]);
    }
  }

  lemma {:induction false} ResolveKeepsOrdered(s: seq<Event>, p: nat, q: nat, r: Event, w: nat)
    requires Place(s, p, q, r)
    ensures Ordered(Resolve(s, p, q, r, w).sched)
  {
    var b := Behind(s, p, r, w);
    if b.blocked {
      OrderedSplice(s, b.n, q);
    } else {
      var a := Ahead(s, q, r, w);
      AheadMeans(s, q, r, w);
      KeptLeavesRoom(s, p, q, r, w);
      OrderedSlice(s, a.n, |s|);
      var rest := s[a.n..];
      if a.blocked {
        OrderedJoin(Kept(s, b, r), rest);
      } else {
        var r' := if a.cut then r.(stop := s[a.n].start) else r;
        OrderedJoin(Kept(s, b, r), [r']);
        if a.n < |s| {
          AroundIndex(s, a.n);
        }
        OrderedJoin(Kept(s, b, r) + [r'], rest);
      }
    }
  }

  lemma {:induction false} UpdateKeepsOrdered(s: seq<Event>, p: nat, e: Event)
    requires Ordered(s) && p < |s| && e.start == s[p].start && e.stop == s[p].stop
    ensures Ordered(s[p := e])
  {
    var t := s[p := e];
    forall i, j | 0 <= i < j < |t| ensures Precedes(t[i], t[j]) {
      assert Precedes(s[i], s[j]);
    }
  }

  /** Whatever an insert does - add, extend, trim, delete neighbours, reject - the
      schedule stays sorted and free of overlaps. */
  lemma {:induction false} InsertKeepsOrdered(s: seq<Event>, src: Option<Grabber>, start: int, stop: int,
                                              create: bool, w: nat, newId: nat)
    requires Ordered(s) && start < stop
    ensures Ordered(Insert(s, src, start, stop, create, w, newId).sched)
  {
    var p := Position(s, start);
    if src.Some? && create {
      var r := Event(newId, start, stop, src, NotSet);
      PlaceOf(s, r);
      if !Found(s, start) {
        ResolveKeepsOrdered(s, p, p, r, w);
      } else if SetGrabber(s[p].grabber, src).Some? {
        var e := s[p].(grabber := SetGrabber(s[p].grabber, src).value);
        if e.stop == stop {
          UpdateKeepsOrdered(s, p, e);
        } else {
          ResolveKeepsOrdered(s, p, p + 1, e.(stop := stop), w);
        }
      }
    }
  }
}
