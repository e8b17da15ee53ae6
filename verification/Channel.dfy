/** A channel's EPG state - schedule, now and next - and everything that changes it,
    as transitions on values.  Inside one schedule a start time identifies an event, so
    the now/next pointers are represented by start times. */
module Channel {
  import opened Wrappers
  import opened Schedule
  import opened ScheduleLaws

  datatype ChannelState = ChannelState(sched: seq<Event>, now: Option<int>, next: Option<int>)

  ghost predicate Scheduled(s: seq<Event>, key: Option<int>) {
    key.Some? ==> Found(s, key.value)
  }

  /** The schedule is in order and now/next, when set, are events of it. */
  ghost predicate Inv(c: ChannelState) {
    Ordered(c.sched) && Scheduled(c.sched, c.now) && Scheduled(c.sched, c.next)
  }

  const EMPTY := ChannelState([], None, None)

  // ---------------------------------------------------------------- transitions

  /** Removing an event clears a pointer to it. */
  function Keep(key: Option<int>, s: seq<Event>): Option<int> {
    if key.Some? && Found(s, key.value) then key else None
  }

  function Reschedule(c: ChannelState, s: seq<Event>): ChannelState {
    ChannelState(s, Keep(c.now, s), Keep(c.next, s))
  }

  function Remove(c: ChannelState, key: int): ChannelState {
    if Found(c.sched, key) then
      var p := Position(c.sched, key);
      Reschedule(c, c.sched[..p] + c.sched[p + 1..])
    else c
  }

  predicate NowRunning(c: ChannelState) {
    c.now.Some? && Found(c.sched, c.now.value) &&
    var r := c.sched[Position(c.sched, c.now.value)].running;
    r != Running.Stop && r != NotSet
  }

  /** The timer's loop: events are dropped from the front until one is not over at `clk`. */
  function Unexpired(s: seq<Event>, clk: int): seq<Event> {
    if s != [] && s[0].stop <= clk then Unexpired(s[1..], clk) else s
  }

  function NowNext(s: seq<Event>, clk: int): ChannelState {
    if s == [] then ChannelState(s, None, None)
    else if s[0].start > clk then ChannelState(s, None, Some(s[0].start))
    else ChannelState(s, Some(s[0].start), if |s| > 1 then Some(s[1].start) else None)
  }

  /** The channel timer: nothing happens while the current event is flagged as running. */
  function Timer(c: ChannelState, clk: int): ChannelState {
    if NowRunning(c) then c
    else NowNext(Unexpired(c.sched, clk), clk)
  }

  /** After a change, the timer runs when the event is first or directly follows now. */
  predicate TimerDue(c: ChannelState, ret: Event) {
    && c.sched != []
    && (|| c.sched[0] == ret
        || (&& c.now.Some? && Found(c.sched, c.now.value)
            && Position(c.sched, c.now.value) + 1 < |c.sched|
            && c.sched[Position(c.sched, c.now.value) + 1] == ret))
  }

  /** An insert into c has come out as i: pointers follow, and the timer runs if due. */
  function Settled(c: ChannelState, i: Inserted, clk: int): ChannelState {
    var c' := Reschedule(c, i.sched);
    if i.save && i.ret.Some? && TimerDue(c', i.ret.value) then Timer(c', clk) else c'
  }

  function Add(c: ChannelState, src: Option<Grabber>, start: int, stop: int,
               create: bool, w: nat, newId: nat, clk: int): ChannelState
  {
    Settled(c, Insert(c.sched, src, start, stop, create, w, newId), clk)
  }

  /** The guards in front of a time-keyed insert. */
  predicate Acceptable(start: int, stop: int, clk: int) {
    start != 0 && stop != 0 && start < stop && clk < stop
  }

  function AddByTime(c: ChannelState, src: Option<Grabber>, start: int, stop: int,
                     create: bool, w: nat, newId: nat, clk: int): ChannelState
  {
    if Acceptable(start, stop, clk) then Add(c, src, start, stop, create, w, newId, clk) else c
  }

  // ---------------------------------------------------------------- what the timer establishes

  lemma {:induction false} OrderedStarts(s: seq<Event>)
    requires Ordered(s)
    ensures forall i, j :: 0 <= i < j < |s| ==> s[i].start < s[j].start && s[i].stop <= s[j].start
  {
    forall i, j | 0 <= i < j < |s| ensures s[i].start < s[j].start && s[i].stop <= s[j].start {
      assert Precedes(s[i], s[j]);
    }
  }

  lemma {:induction false} FoundIff(s: seq<Event>, key: int)
    requires Ordered(s)
    ensures Found(s, key) <==> exists e :: e in s && e.start == key
  {
    OrderedStarts(s);
    var p := Position(s, key);
    if Found(s, key) {
      assert s[p] in s;
    }
  }

  /** The event starting at k contains the clock. */
  ghost predicate ContainsClock(s: seq<Event>, k: int, clk: int) {
    exists e :: e in s && e.start == k && k <= clk < e.stop
  }

  /** The event starting at k is the earliest that starts after the clock. */
  ghost predicate ComesNext(s: seq<Event>, k: int, clk: int) {
    && (exists e :: e in s && e.start == k && clk < k)
    && (forall e :: e in s && clk < e.start ==> k <= e.start)
  }

  /** Unless the current event is flagged as running, the timer keeps exactly the events that
      are not over; `now` is the one containing the clock and `next` the earliest that starts
      after it. */
  lemma {:induction false} TimerExact(c: ChannelState, clk: int)
    requires Inv(c) && !NowRunning(c)
    ensures var t := Timer(c, clk);
      && Inv(t)
      && (forall e :: e in t.sched <==> e in c.sched && clk < e.stop)
      && (forall k :: t.now == Some(k) <==> ContainsClock(t.sched, k, clk))
      && (forall k :: t.next == Some(k) <==> ComesNext(t.sched, k, clk))
  {
    UnexpiredExact(c.sched, clk);
    NowNextExact(Unexpired(c.sched, clk), clk);
  }

  lemma {:induction false} UnexpiredExact(s: seq<Event>, clk: int)
    requires Ordered(s)
    ensures var t := Unexpired(s, clk);
      && Ordered(t)
      && (t != [] ==> clk < t[0].stop)
      && forall e :: e in t <==> e in s && clk < e.stop
  {
    if s != [] && s[0].stop <= clk {
      OrderedSlice(s, 1, |s|);
      UnexpiredExact(s[1..], clk);
      assert s == [s[0]] + s[1..];
    } else if s != [] {
      AroundIndex(s, 0);
    }
  }

  lemma {:induction false} NowNextExact(t: seq<Event>, clk: int)
    requires Ordered(t) && (t != [] ==> clk < t[0].stop)
    ensures var c := NowNext(t, clk);
      && c.sched == t
      && Inv(c)
      && (forall k :: c.now == Some(k) <==> ContainsClock(t, k, clk))
      && (forall k :: c.next == Some(k) <==> ComesNext(t, k, clk))
  {
    OrderedStarts(t);
    if t != [] {
      assert t[0] in t;
      if |t| > 1 {
        assert t[1] in t;
        FoundIff(t, t[1].start);
      }
      FoundIff(t, t[0].start);
    }
  }

  // ---------------------------------------------------------------- the invariant over whole runs

  lemma {:induction false} RescheduleKeepsInv(c: ChannelState, s: seq<Event>)
    requires Ordered(s)
    ensures Inv(Reschedule(c, s))
  {
  }

  lemma {:induction false} AddKeepsInv(c: ChannelState, src: Option<Grabber>, start: int, stop: int,
                                       create: bool, w: nat, newId: nat, clk: int)
    requires Inv(c)
    ensures Inv(AddByTime(c, src, start, stop, create, w, newId, clk))
  {
    if Acceptable(start, stop, clk) {
      var i := Insert(c.sched, src, start, stop, create, w, newId);
      InsertKeepsOrdered(c.sched, src, start, stop, create, w, newId);
      var c' := Reschedule(c, i.sched);
      RescheduleKeepsInv(c, i.sched);
      if !NowRunning(c') {
        TimerExact(c', clk);
      }
    }
  }

  datatype Op =
    | Insertion(src: Option<Grabber>, start: int, stop: int, create: bool, w: nat, newId: nat, clk: int)
    | Removal(key: int)
    | Tick(clk: int)
    | Flag(key: int, running: Running)

  function Flagged(s: seq<Event>, key: int, running: Running): seq<Event> {
    var p := Position(s, key);
    if Found(s, key) then s[p := s[p].(running := running)] else s
  }

  function Step(c: ChannelState, op: Op): ChannelState {
    match op
    case Insertion(src, start, stop, create, w, newId, clk) =>
      AddByTime(c, src, start, stop, create, w, newId, clk)
    case Removal(key) => Remove(c, key)
    case Tick(clk) => Timer(c, clk)
    case Flag(key, running) => Reschedule(c, Flagged(c.sched, key, running))
  }

  function Run(c: ChannelState, ops: seq<Op>): ChannelState {
    if ops == [] then c else Step(Run(c, ops[..|ops| - 1]), ops[|ops| - 1])
  }

  lemma {:induction false} StepKeepsInv(c: ChannelState, op: Op)
    requires Inv(c)
    ensures Inv(Step(c, op))
  {
    match op
    case Insertion(src, start, stop, create, w, newId, clk) =>
      AddKeepsInv(c, src, start, stop, create, w, newId, clk);
    case Removal(key) =>
      if Found(c.sched, key) {
        OrderedSplice(c.sched, Position(c.sched, key), Position(c.sched, key) + 1);
      }
    case Tick(clk) =>
      if !NowRunning(c) {
        TimerExact(c, clk);
      }
    case Flag(key, running) =>
      var p := Position(c.sched, key);
      if Found(c.sched, key) {
        UpdateKeepsOrdered(c.sched, p, c.sched[p].(running := running));
      }
  }

  /** Over any run from the empty channel the schedule stays sorted and non-overlapping and
      now/next stay null or members of it. */
  lemma {:induction false} RunKeepsInv(ops: seq<Op>)
    ensures Inv(Run(EMPTY, ops))
  {
    if ops != [] {
      RunKeepsInv(ops[..|ops| - 1]);
      StepKeepsInv(Run(EMPTY, ops[..|ops| - 1]), ops[|ops| - 1]);
    }
  }

  /** Nothing in `op` entitles it to touch e: an insert comes from a grabber e outranks, and
      e is neither removed by name, flagged, nor over. */
  predicate Spares(op: Op, e: Event) {
    match op
    case Insertion(src, _, _, _, _, _, clk) => (src.Some? ==> Blocks(e.grabber, src.value)) && clk < e.stop
    case Removal(key) => key != e.start
    case Tick(clk) => clk < e.stop
    case Flag(key, _) => key != e.start
  }

  lemma {:induction false} TimerSpares(c: ChannelState, clk: int, e: Event)
    requires Inv(c) && e in c.sched && clk < e.stop
    ensures e in Timer(c, clk).sched
  {
    if !NowRunning(c) {
      TimerExact(c, clk);
    }
  }

  lemma {:induction false} StepSpares(c: ChannelState, op: Op, e: Event)
    requires Inv(c) && e in c.sched && Spares(op, e)
    ensures e in Step(c, op).sched
  {
    match op
    case Insertion(src, start, stop, create, w, newId, clk) =>
      if Acceptable(start, stop, clk) {
        var i := Insert(c.sched, src, start, stop, create, w, newId);
        InsertKeepsOrdered(c.sched, src, start, stop, create, w, newId);
        if src.Some? && create {
          OutrankingEventsKept(c.sched, src.value, start, stop, w, newId, e);
        }
        RescheduleKeepsInv(c, i.sched);
        TimerSpares(Reschedule(c, i.sched), clk, e);
      }
    case Removal(key) =>
      var p := Position(c.sched, key);
      if Found(c.sched, key) {
        var i :| 0 <= i < |c.sched| && c.sched[i] == e;
        assert i < p ==> (c.sched[..p] + c.sched[p + 1..])[i] == e;
        assert i > p ==> (c.sched[..p] + c.sched[p + 1..])[i - 1] == e;
      }
    case Tick(clk) => TimerSpares(c, clk, e);
    case Flag(key, running) =>
      var i :| 0 <= i < |c.sched| && c.sched[i] == e;
      assert Flagged(c.sched, key, running)[i] == e;
  }

  /** Over a whole run, an event survives untouched as long as every insert comes from a
      grabber it outranks and it is not over, removed by name or flagged. */
  lemma {:induction false} RunSpares(c: ChannelState, ops: seq<Op>, e: Event)
    requires Inv(c) && e in c.sched
    requires forall i :: 0 <= i < |ops| ==> Spares(ops[i], e)
    ensures Inv(Run(c, ops)) && e in Run(c, ops).sched
  {
    if ops != [] {
      var front := ops[..|ops| - 1];
      RunSpares(c, front, e);
      StepKeepsInv(Run(c, front), ops[|ops| - 1]);
      StepSpares(Run(c, front), ops[|ops| - 1], e);
    }
  }
}
