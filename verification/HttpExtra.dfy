/** The "extra data" interlock of an HTTP connection: streamer threads queue whole chunks
    for a socket on which one other thread writes replies.  Each atomic operation, each
    access under the lock and each write to the socket is one step; any interleaving of any
    number of threads is a run. */
module HttpExtra {
  import opened Wrappers

  /** A queued chunk; its first `off` bytes have been sent. */
  datatype Chunk = Chunk(data: Bytes, off: nat)

  /** What is on the wire in whole: replies and chunks. */
  datatype Message = Reply(bytes: Bytes) | Extra(bytes: Bytes)

  /** Where a thread is.  The Flush steps are http_extra_flush, the Send steps
      http_extra_send_prealloc, the Part steps http_extra_flush_partial, Begin and End
      the two halves that bracket a reply. */
  datatype Pc =
    | Idle
    | FlushEnter
    | FlushLock
    | FlushCheck
    | FlushSend
    | FlushSent(r: nat)
    | FlushFree
    | FlushUnlock(stop: bool)
    | FlushLeave
    | SendLock(data: Bytes, discard: bool)
    | SendCount(data: Bytes, discard: bool)
    | SendAppend(data: Bytes)
    | SendUnlock
    | BeginEnter
    | BeginRead
    | PartEnter
    | PartLock
    | PartTake
    | PartFree
    | PartUnlock(taken: Option<Chunk>)
    | PartWrite(chunk: Chunk)
    | PartLeave
    | Writing(sent: Bytes)
    | EndLeave
    | EndRead

  /** `history` and `accepted` only record what happened: the messages completed on the wire
      and the chunks ever queued, in order. */
  datatype State = State(
    insend: int, chunks: int, lock: Option<nat>, queue: seq<Chunk>, hqSize: int,
    pcs: seq<Pc>, wire: Bytes, history: seq<Message>, accepted: seq<Bytes>)

  /** What the environment decides: the calls made, the bytes a write takes. */
  datatype Choice =
    | Proceed
    | StartSend(data: Bytes, discard: bool)
    | StartReply
    | Put(bytes: Bytes)
    | Taken(n: nat)
    | WouldBlock

  const BACKLOG: int := 1024 * 1024

  function Goto(s: State, t: nat, pc: Pc): State
    requires t < |s.pcs|
  {
    s.(pcs := s.pcs[t := pc])
  }

  /** One step of thread t; a step that is not possible leaves the state as it is. */
  function Exec(s: State, t: nat, c: Choice): State
    requires t < |s.pcs|
  {
    var pc := s.pcs[t];
    if Flushing(pc) then FlushStep(s, t, c)
    else if Sending(pc) then SendStep(s, t)
    else if Completing(pc) then PartStep(s, t, c)
    else ReplyStep(s, t, c)
  }

  predicate Flushing(pc: Pc) {
    pc.FlushEnter? || pc.FlushLock? || pc.FlushCheck? || pc.FlushSend? || pc.FlushSent? || pc.FlushFree?
    || pc.FlushUnlock? || pc.FlushLeave?
  }

  predicate Sending(pc: Pc) {
    pc.SendLock? || pc.SendCount? || pc.SendAppend? || pc.SendUnlock?
  }

  predicate Completing(pc: Pc) {
    pc.PartEnter? || pc.PartLock? || pc.PartTake? || pc.PartFree? || pc.PartUnlock? || pc.PartWrite? || pc.PartLeave?
  }

  /** http_extra_flush. */
  function FlushStep(s: State, t: nat, c: Choice): State
    requires t < |s.pcs| && Flushing(s.pcs[t])
  {
    match s.pcs[t]
    case FlushEnter => Goto(s, t, if s.insend == 0 then FlushLock else FlushLeave).(insend := s.insend + 1)
    case FlushLock => Acquire(s, t, FlushCheck)
    case FlushCheck => Goto(s, t, if s.insend != 1 then FlushUnlock(true) else FlushSend)
    case FlushSend =>
      if s.queue == [] || c.WouldBlock? then Goto(s, t, FlushUnlock(true))
      else if c.Taken? && c.n <= |s.queue[0].data| - s.queue[0].off then Transmit(s, t, c.n)
      else s
    case FlushSent(r) => if s.queue == [] then s else SentStep(s, t, r)
    case FlushFree => FreeHead(s, t, FlushUnlock(false))
    case FlushUnlock(stop) => Goto(s, t, if stop then FlushLeave else FlushLock).(lock := None)
    case FlushLeave => Goto(s, t, Idle).(insend := s.insend - 1)
  }

  /** send() has returned r: the head chunk is done, or its offset moves. */
  function SentStep(s: State, t: nat, r: nat): State
    requires t < |s.pcs| && s.queue != []
  {
    var hd := s.queue[0];
    if r + hd.off >= |hd.data| then
      Goto(s, t, FlushFree).(chunks := s.chunks - 1, history := s.history + [Extra(hd.data)])
    else
      Goto(s, t, FlushUnlock(false)).(queue := s.queue[0 := hd.(off := hd.off + r)], hqSize := s.hqSize - r)
  }

  /** http_extra_send_prealloc. */
  function SendStep(s: State, t: nat): State
    requires t < |s.pcs| && Sending(s.pcs[t])
  {
    match s.pcs[t]
    case SendLock(data, discard) => Acquire(s, t, SendCount(data, discard))
    case SendCount(data, discard) =>
      if !discard || s.hqSize <= BACKLOG then Goto(s, t, SendAppend(data)).(chunks := s.chunks + 1)
      else Goto(s, t, SendUnlock)
    case SendAppend(data) =>
      Goto(s, t, SendUnlock).(queue := s.queue + [Chunk(data, 0)], hqSize := s.hqSize + |data|,
                              accepted := s.accepted + [data])
    case SendUnlock => Goto(s, t, FlushEnter).(lock := None)
  }

  /** http_extra_flush_partial. */
  function PartStep(s: State, t: nat, c: Choice): State
    requires t < |s.pcs| && Completing(s.pcs[t])
  {
    match s.pcs[t]
    case PartEnter => Goto(s, t, PartLock).(insend := s.insend + 1)
    case PartLock => Acquire(s, t, PartTake)
    case PartTake =>
      if s.queue != [] && s.queue[0].off > 0 then Goto(s, t, PartFree).(chunks := s.chunks - 1)
      else Goto(s, t, PartUnlock(None))
    case PartFree =>
      if s.queue == [] then s else FreeHead(s, t, PartUnlock(Some(s.queue[0])))
    case PartUnlock(taken) =>
      Goto(s, t, if taken.Some? then PartWrite(taken.value) else PartLeave).(lock := None)
    case PartWrite(ch) =>
      if c.Taken? && c.n <= |ch.data| - ch.off then Complete(s, t, ch, c.n) else s
    case PartLeave => Goto(s, t, Writing([])).(insend := s.insend - 1)
  }

  /** write() takes n bytes of the chunk that is being completed. */
  function Complete(s: State, t: nat, ch: Chunk, n: nat): State
    requires t < |s.pcs| && n <= |ch.data| - ch.off
  {
    var wire := s.wire + ch.data[ch.off..ch.off + n];
    if ch.off + n == |ch.data| then Goto(s, t, PartLeave).(wire := wire, history := s.history + [Extra(ch.data)])
    else Goto(s, t, PartWrite(ch.(off := ch.off + n))).(wire := wire)
  }

  /** Making calls, and http_send_begin, the writes of a reply, http_send_end. */
  function ReplyStep(s: State, t: nat, c: Choice): State
    requires t < |s.pcs|
  {
    match s.pcs[t]
    case Idle =>
      if c.StartSend? && c.data != [] then Goto(s, t, SendLock(c.data, c.discard))
      else if c.StartReply? && t == 0 then Goto(s, t, BeginEnter)
      else s
    case BeginEnter => Goto(s, t, BeginRead).(insend := s.insend + 1)
    case BeginRead => Goto(s, t, if s.chunks > 0 then PartEnter else Writing([]))
    case Writing(sent) =>
      if c.Put? then Goto(s, t, Writing(sent + c.bytes)).(wire := s.wire + c.bytes)
      else Goto(s, t, EndLeave).(history := s.history + [Reply(sent)])
    case EndLeave => Goto(s, t, EndRead).(insend := s.insend - 1)
    case EndRead => Goto(s, t, if s.chunks > 0 then FlushEnter else Idle)
    case _ => s
  }

  function Acquire(s: State, t: nat, pc: Pc): State
    requires t < |s.pcs|
  {
    if s.lock.None? then Goto(s, t, pc).(lock := Some(t)) else s
  }

  /** send() takes n bytes of the head chunk. */
  function Transmit(s: State, t: nat, n: nat): State
    requires t < |s.pcs| && s.queue != [] && n <= |s.queue[0].data| - s.queue[0].off
  {
    var hd := s.queue[0];
    if n == 0 then Goto(s, t, FlushUnlock(false))
    else Goto(s, t, FlushSent(n)).(wire := s.wire + hd.data[hd.off..hd.off + n])
  }

  /** htsbuf_data_free of the head chunk. */
  function FreeHead(s: State, t: nat, pc: Pc): State
    requires t < |s.pcs|
  {
    if s.queue == [] then s
    else Goto(s, t, pc).(queue := s.queue[1..], hqSize := s.hqSize - (|s.queue[0].data| - s.queue[0].off))
  }

  function Init(threads: nat): State {
    State(0, 0, None, [], 0, seq(threads, _ => Idle), [], [], [])
  }

  function Run(threads: nat, steps: seq<(nat, Choice)>): (s: State)
    ensures |s.pcs| == threads
  {
    if steps == [] then Init(threads)
    else
      var s := Run(threads, steps[..|steps| - 1]);
      var (t, c) := steps[|steps| - 1];
      if t < threads then Exec(s, t, c) else s
  }

  // ---------------------------------------------------------------- the counters

  /** How much of `insend` a thread accounts for. */
  function Share(pc: Pc): nat {
    match pc
    case Idle => 0
    case FlushEnter => 0
    case SendLock(_, _) => 0
    case SendCount(_, _) => 0
    case SendAppend(_) => 0
    case SendUnlock => 0
    case BeginEnter => 0
    case EndRead => 0
    case PartLock => 2
    case PartTake => 2
    case PartFree => 2
    case PartUnlock(_) => 2
    case PartWrite(_) => 2
    case PartLeave => 2
    case _ => 1
  }

  function Shares(pcs: seq<Pc>): nat {
    if pcs == [] then 0 else Shares(pcs[..|pcs| - 1]) + Share(pcs[|pcs| - 1])
  }

  lemma {:induction false} SharesUpdate(pcs: seq<Pc>, t: nat, pc: Pc)
    requires t < |pcs|
    ensures Shares(pcs[t := pc]) == Shares(pcs) - Share(pcs[t]) + Share(pc)
  {
    var n := |pcs| - 1;
    if t == n {
      assert pcs[t := pc][..n] == pcs[..n];
    } else {
      SharesUpdate(pcs[..n], t, pc);
      assert pcs[t := pc][..n] == pcs[..n][t := pc];
    }
  }

  lemma {:induction false} SharesOfTwo(pcs: seq<Pc>, t: nat, u: nat)
    requires t < |pcs| && u < |pcs| && t != u
    ensures Share(pcs[t]) + Share(pcs[u]) <= Shares(pcs)
  {
    SharesUpdate(pcs, t, Idle);
    SharesUpdate(pcs[t := Idle], u, Idle);
  }

  predicate Holds(pc: Pc) {
    match pc
    case FlushCheck => true
    case FlushSend => true
    case FlushSent(_) => true
    case FlushFree => true
    case FlushUnlock(_) => true
    case SendCount(_, _) => true
    case SendAppend(_) => true
    case SendUnlock => true
    case PartTake => true
    case PartFree => true
    case PartUnlock(_) => true
    case _ => false
  }

  /** Steps only the replying thread, thread 0, takes. */
  predicate Replying(pc: Pc) {
    pc.BeginEnter? || pc.BeginRead? || pc.PartEnter? || pc.PartLock? || pc.PartTake? || pc.PartFree?
    || pc.PartUnlock? || pc.PartWrite? || pc.PartLeave? || pc.Writing? || pc.EndLeave? || pc.EndRead?
  }

  ghost predicate CountersOk(s: State) {
    && s.insend == Shares(s.pcs)
    && (forall t :: 0 <= t < |s.pcs| ==> (Holds(s.pcs[t]) <==> s.lock == Some(t)))
    && (forall t :: 0 < t < |s.pcs| ==> !Replying(s.pcs[t]))
    && (s.lock.Some? ==> s.lock.value < |s.pcs|)
  }

  /** What a step may do to its own thread's share, lock and role. */
  ghost predicate Local(s: State, t: nat, s': State)
    requires t < |s.pcs|
  {
    && |s'.pcs| == |s.pcs|
    && s'.pcs == s.pcs[t := s'.pcs[t]]
    && var (p, p') := (s.pcs[t], s'.pcs[t]);
    && s'.insend == s.insend - Share(p) + Share(p')
    && s'.lock == (if !Holds(p) && Holds(p') then Some(t) else if Holds(p) && !Holds(p') then None else s.lock)
    && (!Holds(p) && Holds(p') ==> s.lock == None)
    && (Replying(p') ==> Replying(p) || t == 0)
  }

  lemma {:induction false} FlushLocal(s: State, t: nat, c: Choice)
    requires t < |s.pcs| && Flushing(s.pcs[t])
    ensures Local(s, t, FlushStep(s, t, c))
  {
  }

  lemma {:induction false} SendLocal(s: State, t: nat)
    requires t < |s.pcs| && Sending(s.pcs[t])
    ensures Local(s, t, SendStep(s, t))
  {
  }

  lemma {:induction false} PartLocal(s: State, t: nat, c: Choice)
    requires t < |s.pcs| && Completing(s.pcs[t])
    ensures Local(s, t, PartStep(s, t, c))
  {
  }

  lemma {:induction false} ReplyLocal(s: State, t: nat, c: Choice)
    requires t < |s.pcs|
    ensures Local(s, t, ReplyStep(s, t, c))
  {
  }

  lemma {:induction false} ExecLocal(s: State, t: nat, c: Choice)
    requires t < |s.pcs|
    ensures Local(s, t, Exec(s, t, c))
  {
    var pc := s.pcs[t];
    if Flushing(pc) {
      FlushLocal(s, t, c);
    } else if Sending(pc) {
      SendLocal(s, t);
    } else if Completing(pc) {
      PartLocal(s, t, c);
    } else {
      ReplyLocal(s, t, c);
    }
  }

  lemma {:induction false} StepKeepsCounters(s: State, t: nat, c: Choice)
    requires CountersOk(s) && t < |s.pcs|
    ensures CountersOk(Exec(s, t, c))
  {
    ExecLocal(s, t, c);
    SharesUpdate(s.pcs, t, Exec(s, t, c).pcs[t]);
  }

  // ---------------------------------------------------------------- what the lock holder and the replier see

  /** The shared data together with where the lock holder (h, Idle if there is none) and the
      replying thread (p) are. */
  datatype View = View(h: Pc, p: Pc, chunks: int, queue: seq<Chunk>, hqSize: int,
                       wire: Bytes, history: seq<Message>, accepted: seq<Bytes>)

  function ViewOf(s: State): View
    requires s.pcs != [] && (s.lock.Some? ==> s.lock.value < |s.pcs|)
  {
    View(if s.lock.Some? then s.pcs[s.lock.value] else Idle, s.pcs[0], s.chunks, s.queue, s.hqSize,
         s.wire, s.history, s.accepted)
  }

  /** The chunks still to be sent: a finished or taken head that is about to be freed is not
      one of them. */
  function Pending(v: View): seq<Chunk> {
    if (v.h.FlushFree? || v.h.PartFree?) && v.queue != [] then v.queue[1..] else v.queue
  }

  /** The half-sent chunk the replying thread has taken over. */
  function TakenOver(v: View): Option<Chunk> {
    match v.p
    case PartFree => if v.queue != [] then Some(v.queue[0]) else None
    case PartUnlock(taken) => taken
    case PartWrite(ch) => Some(ch)
    case _ => None
  }

  /** Bytes sent of the head beyond its recorded offset. */
  function InFlight(v: View): nat {
    if v.h.FlushSent? then v.h.r else 0
  }

  /** The replying thread has the socket to itself. */
  predicate Owns(pc: Pc) {
    pc.PartTake? || pc.PartFree? || pc.PartUnlock? || pc.PartWrite? || pc.PartLeave? || pc.Writing?
  }

  function Unsent(q: seq<Chunk>): int {
    if q == [] then 0 else |q[0].data| - q[0].off + Unsent(q[1..])
  }

  /** Offsets: no chunk is empty or finished, and only the head is ever half sent. */
  ghost predicate QueueOk(q: seq<Chunk>) {
    && (forall i :: 0 <= i < |q| ==> q[i].off < |q[i].data|)
    && (forall i :: 0 < i < |q| ==> q[i].off == 0)
  }

  predicate HeadFresh(q: seq<Chunk>) {
    q != [] ==> q[0].off == 0
  }

  /** The counters agree with the queue. */
  ghost predicate SizesOk(v: View) {
    && QueueOk(v.queue)
    && v.hqSize == Unsent(v.queue)
    && v.chunks == |Pending(v)| + (if v.h.SendAppend? then 1 else 0)
  }

  /** What holding the lock, or having taken a chunk over, implies. */
  ghost predicate RolesOk(v: View) {
    && (v.h.FlushSend? && v.queue != [] ==> !Owns(v.p))
    && (v.h.FlushSent? ==> !Owns(v.p) && v.queue != [] && 0 < v.h.r <= |v.queue[0].data| - v.queue[0].off)
    && (v.h.FlushFree? ==> v.queue != [])
    && (v.h.PartFree? <==> v.p.PartFree?)
    && (v.p.PartFree? ==> v.queue != [] && v.queue[0].off > 0)
    && (v.h.SendAppend? ==> v.h.data != [])
    && (TakenOver(v).Some? ==> 0 < TakenOver(v).value.off < |TakenOver(v).value.data|)
    && (Owns(v.p) && !v.p.PartTake? ==> HeadFresh(Pending(v)))
  }

  /** What is on the wire after the last complete message. */
  function Tail(v: View): Bytes
    requires RolesOk(v) && QueueOk(v.queue)
  {
    if v.p.Writing? then v.p.sent
    else if TakenOver(v).Some? then TakenOver(v).value.data[..TakenOver(v).value.off]
    else if Pending(v) == [] || v.h.FlushFree? then []
    else Pending(v)[0].data[..Pending(v)[0].off + InFlight(v)]
  }

  function Bodies(h: seq<Message>): Bytes {
    if h == [] then [] else Bodies(h[..|h| - 1]) + h[|h| - 1].bytes
  }

  function Extras(h: seq<Message>): seq<Bytes> {
    if h == [] then []
    else Extras(h[..|h| - 1]) + (if h[|h| - 1].Extra? then [h[|h| - 1].bytes] else [])
  }

  function Datas(q: seq<Chunk>): (d: seq<Bytes>)
    ensures |d| == |q| && forall i :: 0 <= i < |q| ==> d[i] == q[i].data
  {
    seq(|q|, i requires 0 <= i < |q| => q[i].data)
  }

  /** The wire carries the complete messages and then the tail. */
  ghost predicate WireOk(v: View) {
    RolesOk(v) && QueueOk(v.queue) && v.wire == Bodies(v.history) + Tail(v)
  }

  /** Chunks leave in the order they were accepted, none lost and none twice. */
  ghost predicate FifoOk(v: View) {
    Extras(v.history) + (if TakenOver(v).Some? then [TakenOver(v).value.data] else []) + Datas(Pending(v)) == v.accepted
  }

  ghost predicate ViewOk(v: View) {
    SizesOk(v) && WireOk(v) && FifoOk(v)
  }

  ghost predicate PayloadsOk(pcs: seq<Pc>) {
    forall t :: 0 <= t < |pcs| ==> PayloadOk(pcs[t])
  }

  /** No empty chunk is on its way into the queue. */
  predicate PayloadOk(pc: Pc) {
    pc.SendLock? || pc.SendCount? || pc.SendAppend? ==> pc.data != []
  }

  ghost predicate Inv(s: State) {
    s.pcs != [] && CountersOk(s) && PayloadsOk(s.pcs) && ViewOk(ViewOf(s))
  }

  // ---------------------------------------------------------------- the steps, seen through the view

  lemma {:induction false} HistoryGrows(h: seq<Message>, m: Message)
    ensures Bodies(h + [m]) == Bodies(h) + m.bytes
    ensures Extras(h + [m]) == Extras(h) + (if m.Extra? then [m.bytes] else [])
  {
    assert (h + [m])[..|h|] == h;
  }

  lemma {:induction false} UnsentGrows(q: seq<Chunk>, ch: Chunk)
    ensures Unsent(q + [ch]) == Unsent(q) + |ch.data| - ch.off
    ensures Datas(q + [ch]) == Datas(q) + [ch.data]
  {
    if q != [] {
      UnsentGrows(q[1..], ch);
      assert (q + [ch])[1..] == q[1..] + [ch];
    }
  }

  /** The replying thread is where it was, or is the stepping thread and has no claim. */
  predicate SameReplier(v: View, v': View) {
    v'.p == v.p || (!Owns(v.p) && !Owns(v'.p))
  }

  /** A step that leaves the data alone needs only the roles to be right. */
  lemma {:induction false} DataUntouched(v: View, v': View)
    requires ViewOk(v) && RolesOk(v')
    requires v' == v.(h := v'.h, p := v'.p)
    requires SameReplier(v, v') || (TakenOver(v) == TakenOver(v') && (v.p.Writing? || v'.p.Writing? ==> v.p == v'.p))
    requires InFlight(v) == InFlight(v') && v.h.SendAppend? == v'.h.SendAppend?
    requires v.h.FlushFree? == v'.h.FlushFree? && v.h.PartFree? == v'.h.PartFree?
    ensures ViewOk(v')
  {
  }

  /** With a fresh head and nothing in flight nothing follows the complete messages. */
  lemma {:induction false} NoTail(v: View)
    requires RolesOk(v) && QueueOk(v.queue) && !v.p.Writing? && TakenOver(v).None?
    requires HeadFresh(Pending(v)) && !v.h.FlushSent?
    ensures Tail(v) == []
  {
  }

  /** A message has become complete and nothing follows it yet. */
  lemma {:induction false} MessageCompleted(v: View, v': View, m: Message)
    requires QueueOk(v'.queue) && RolesOk(v')
    requires !v'.p.Writing? && TakenOver(v').None? && HeadFresh(Pending(v')) && !v'.h.FlushSent?
    requires v'.history == v.history + [m] && v'.wire == Bodies(v.history) + m.bytes
    ensures WireOk(v')
  {
    NoTail(v');
    HistoryGrows(v.history, m);
  }

  /** Nobody owns the socket, so what follows the complete messages is the head. */
  lemma {:induction false} HeadFollows(v: View)
    requires RolesOk(v) && QueueOk(v.queue) && !Owns(v.p) && v.queue != [] && !v.h.FlushFree? && !v.h.PartFree?
    ensures Tail(v) == v.queue[0].data[..v.queue[0].off + InFlight(v)] && Pending(v) == v.queue
  {
  }

  lemma {:induction false} SentBytes(v: View, v': View, n: nat)
    requires ViewOk(v) && v.h.FlushSend? && v.queue != [] && 0 < n <= |v.queue[0].data| - v.queue[0].off
    requires SameReplier(v, v')
    requires var hd := v.queue[0];
      v' == v.(h := FlushSent(n), p := v'.p, wire := v.wire + hd.data[hd.off..hd.off + n])
    ensures ViewOk(v')
  {
    var hd := v.queue[0];
    var (x, y) := (hd.data[..hd.off], hd.data[hd.off..hd.off + n]);
    assert x + y == hd.data[..hd.off + n];
    HeadFollows(v);
    HeadFollows(v');
    Regroup(Bodies(v.history), x, y);
  }

  lemma {:induction false} HeadFirst(q: seq<Chunk>)
    requires q != []
    ensures Datas(q) == [q[0].data] + Datas(q[1..])
  {
  }

  lemma {:induction false} OneMoved(a: seq<Bytes>, x: Bytes, d: seq<Bytes>)
    ensures (a + [x]) + [] + d == a + [] + ([x] + d)
    ensures a + [x] + d == a + [] + ([x] + d)
  {
  }

  lemma {:induction false} HeadCounted(v: View, v': View)
    requires ViewOk(v) && v.h.FlushSent? && !Owns(v'.p)
    requires v' == v.(h := FlushFree, p := v'.p, chunks := v.chunks - 1,
                      history := v.history + [Extra(v.queue[0].data)])
    ensures FifoOk(v')
  {
    HistoryGrows(v.history, Extra(v.queue[0].data));
    HeadFirst(v.queue);
    OneMoved(Extras(v.history), v.queue[0].data, Datas(v.queue[1..]));
  }

  lemma {:induction false} HeadFinished(v: View, v': View)
    requires ViewOk(v) && v.h.FlushSent? && v.h.r + v.queue[0].off >= |v.queue[0].data|
    requires SameReplier(v, v')
    requires v' == v.(h := FlushFree, p := v'.p, chunks := v.chunks - 1,
                      history := v.history + [Extra(v.queue[0].data)])
    ensures ViewOk(v')
  {
    HeadFollows(v);
    assert Tail(v) == v.queue[0].data;
    MessageCompleted(v, v', Extra(v.queue[0].data));
    HeadCounted(v, v');
  }

  lemma {:induction false} HeadMoves(v: View, v': View)
    requires ViewOk(v) && v.h.FlushSent? && v.h.r + v.queue[0].off < |v.queue[0].data|
    requires SameReplier(v, v')
    requires var hd := v.queue[0];
      v' == v.(h := FlushUnlock(false), p := v'.p, queue := v.queue[0 := hd.(off := hd.off + v.h.r)],
               hqSize := v.hqSize - v.h.r)
    ensures ViewOk(v')
  {
    assert v'.queue[1..] == v.queue[1..];
    assert Datas(v'.queue) == Datas(v.queue);
  }

  lemma {:induction false} HeadFreed(v: View, v': View)
    requires ViewOk(v) && v.h.FlushFree?
    requires SameReplier(v, v')
    requires v' == v.(h := FlushUnlock(false), p := v'.p, queue := v.queue[1..],
                      hqSize := v.hqSize - (|v.queue[0].data| - v.queue[0].off))
    ensures ViewOk(v')
  {
    assert v'.queue != [] ==> v'.queue[0] == v.queue[1];
  }

  lemma {:induction false} ChunkCounted(v: View, v': View)
    requires ViewOk(v) && v.h.SendCount? && v.h.data != []
    requires SameReplier(v, v')
    requires v' == v.(h := SendAppend(v.h.data), p := v'.p, chunks := v.chunks + 1)
    ensures ViewOk(v')
  {
  }

  lemma {:induction false} ChunkAppended(v: View, v': View)
    requires ViewOk(v) && v.h.SendAppend?
    requires SameReplier(v, v')
    requires v' == v.(h := SendUnlock, p := v'.p, queue := v.queue + [Chunk(v.h.data, 0)],
                      hqSize := v.hqSize + |v.h.data|,
                      accepted := v.accepted + [v.h.data])
    ensures ViewOk(v')
  {
    UnsentGrows(v.queue, Chunk(v.h.data, 0));
    AppendedInOrder(v, v');
  }

  lemma {:induction false} AppendedInOrder(v: View, v': View)
    requires ViewOk(v) && v.h.SendAppend?
    requires SameReplier(v, v') && v'.h.SendUnlock? && v'.history == v.history
    requires v'.queue == v.queue + [Chunk(v.h.data, 0)] && v'.accepted == v.accepted + [v.h.data]
    ensures FifoOk(v')
  {
    UnsentGrows(v.queue, Chunk(v.h.data, 0));
  }

  lemma {:induction false} HeadTakenInOrder(v: View, v': View)
    requires ViewOk(v) && v.h.PartTake? && v.p.PartTake? && v.queue != []
    requires v' == v.(h := PartFree, p := PartFree, chunks := v.chunks - 1)
    ensures FifoOk(v')
  {
    HeadFirst(v.queue);
    OneMoved(Extras(v.history), v.queue[0].data, Datas(v.queue[1..]));
  }

  lemma {:induction false} HeadTaken(v: View, v': View)
    requires ViewOk(v) && v.h.PartTake? && v.p.PartTake? && v.queue != [] && v.queue[0].off > 0
    requires v' == v.(h := PartFree, p := PartFree, chunks := v.chunks - 1)
    ensures ViewOk(v')
  {
    HeadTakenInOrder(v, v');
  }

  lemma {:induction false} TakenFreed(v: View, v': View)
    requires ViewOk(v) && v.p.PartFree?
    requires v' == v.(h := PartUnlock(Some(v.queue[0])), p := PartUnlock(Some(v.queue[0])), queue := v.queue[1..],
                      hqSize := v.hqSize - (|v.queue[0].data| - v.queue[0].off))
    ensures ViewOk(v')
  {
    assert v'.queue != [] ==> v'.queue[0] == v.queue[1];
  }

  lemma {:induction false} TakenWritten(v: View, v': View, n: nat)
    requires ViewOk(v) && v.p.PartWrite? && n < |v.p.chunk.data| - v.p.chunk.off
    requires var ch := v.p.chunk;
      v' == v.(p := PartWrite(ch.(off := ch.off + n)), wire := v.wire + ch.data[ch.off..ch.off + n])
    ensures ViewOk(v')
  {
    var ch := v.p.chunk;
    var (x, y) := (ch.data[..ch.off], ch.data[ch.off..ch.off + n]);
    assert x + y == ch.data[..ch.off + n];
    Regroup(Bodies(v.history), x, y);
    assert Tail(v) == x && Tail(v') == x + y;
  }

  lemma {:induction false} TakenFinished(v: View, v': View)
    requires ViewOk(v) && v.p.PartWrite?
    requires var ch := v.p.chunk;
      v' == v.(p := PartLeave, wire := v.wire + ch.data[ch.off..], history := v.history + [Extra(ch.data)])
    ensures ViewOk(v')
  {
    var ch := v.p.chunk;
    assert v'.wire == Bodies(v.history) + ch.data by {
      assert v.wire == Bodies(v.history) + ch.data[..ch.off];
      assert ch.data[..ch.off] + ch.data[ch.off..] == ch.data;
    }
    MessageCompleted(v, v', Extra(ch.data));
    HistoryGrows(v.history, Extra(ch.data));
    OneMoved(Extras(v.history), ch.data, Datas(Pending(v)));
  }

  lemma {:induction false} ReplyWritten(v: View, v': View, bytes: Bytes)
    requires ViewOk(v) && v.p.Writing?
    requires v' == v.(p := Writing(v.p.sent + bytes), wire := v.wire + bytes)
    ensures ViewOk(v')
  {
    Regroup(Bodies(v.history), v.p.sent, bytes);
    assert Tail(v) == v.p.sent && Tail(v') == v.p.sent + bytes;
  }

  lemma {:induction false} ReplyFinished(v: View, v': View)
    requires ViewOk(v) && v.p.Writing?
    requires v' == v.(p := EndLeave, history := v.history + [Reply(v.p.sent)])
    ensures ViewOk(v')
  {
    MessageCompleted(v, v', Reply(v.p.sent));
    ReplyInOrder(v, v');
  }

  lemma {:induction false} ReplyInOrder(v: View, v': View)
    requires ViewOk(v) && v.p.Writing?
    requires v' == v.(p := EndLeave, history := v.history + [Reply(v.p.sent)])
    ensures FifoOk(v')
  {
    HistoryGrows(v.history, Reply(v.p.sent));
  }

  /** The socket is taken for a reply: with no chunk counted, or after completing one. */
  lemma {:induction false} ReplyStarts(v: View, v': View)
    requires ViewOk(v) && ((v.p.BeginRead? && v.chunks <= 0) || v.p.PartLeave?)
    requires v' == v.(p := Writing([]))
    ensures ViewOk(v')
  {
  }

  // ---------------------------------------------------------------- every step keeps the invariant

  /** How the view changes with a step of thread t. */
  lemma {:induction false} ViewAfter(s: State, t: nat, s': State)
    requires Inv(s) && t < |s.pcs| && Local(s, t, s')
    ensures var (p, p') := (s.pcs[t], s'.pcs[t]); var (v, v') := (ViewOf(s), ViewOf(s'));
      && (Holds(p) ==> v.h == p)
      && v'.h == (if Holds(p') then p' else if Holds(p) then Idle else v.h)
      && v'.p == (if t == 0 then p' else v.p)
      && (t == 0 ==> v.p == p)
      && (Replying(p) ==> t == 0)
  {
  }

  /** Nobody who passed the check in http_extra_flush sends while a reply is being written. */
  lemma {:induction false} AloneMeansNoReply(s: State, t: nat)
    requires CountersOk(s) && t < |s.pcs| && s.pcs[t].FlushCheck? && s.insend == 1
    ensures !Owns(s.pcs[0])
  {
    if t != 0 {
      SharesOfTwo(s.pcs, t, 0);
    }
  }

  /** Thread t took a step from s to s'. */
  ghost predicate Stepped(s: State, t: nat, s': State) {
    Inv(s) && t < |s.pcs| && Local(s, t, s') && CountersOk(s')
  }

  /** Only the thread's place, the lock and `insend` have changed. */
  ghost predicate SameData(s: State, s': State) {
    s' == s.(pcs := s'.pcs, lock := s'.lock, insend := s'.insend)
  }

  /** Places about which the roles say nothing. */
  predicate Plain(pc: Pc) {
    !pc.FlushSend? && !pc.FlushSent? && !pc.FlushFree? && !pc.SendAppend? && !Owns(pc)
  }

  lemma {:induction false} PlainStep(s: State, t: nat, s': State)
    requires Stepped(s, t, s') && SameData(s, s')
    requires Plain(s.pcs[t]) || s.pcs[t].FlushSend?
    requires Plain(s'.pcs[t])
    ensures ViewOk(ViewOf(s'))
  {
    ViewAfter(s, t, s');
    DataUntouched(ViewOf(s), ViewOf(s'));
  }

  lemma {:induction false} CheckPassed(s: State, t: nat, s': State)
    requires Stepped(s, t, s') && SameData(s, s') && s.insend == 1
    requires s.pcs[t].FlushCheck? && s'.pcs[t].FlushSend?
    ensures ViewOk(ViewOf(s'))
  {
    ViewAfter(s, t, s');
    AloneMeansNoReply(s, t);
    DataUntouched(ViewOf(s), ViewOf(s'));
  }

  lemma {:induction false} SendKept(s: State, t: nat, n: nat)
    requires s.pcs != [] && t < |s.pcs| && s.pcs[t].FlushSend?
    requires s.queue != [] && 0 < n <= |s.queue[0].data| - s.queue[0].off
    requires Stepped(s, t, Transmit(s, t, n))
    ensures ViewOk(ViewOf(Transmit(s, t, n)))
  {
    var s' := Transmit(s, t, n);
    ViewAfter(s, t, s');
    SentBytes(ViewOf(s), ViewOf(s'), n);
  }

  lemma {:induction false} SentKept(s: State, t: nat, r: nat)
    requires s.pcs != [] && t < |s.pcs| && s.pcs[t] == FlushSent(r) && s.queue != []
    requires Stepped(s, t, SentStep(s, t, r))
    ensures ViewOk(ViewOf(SentStep(s, t, r)))
  {
    var s' := SentStep(s, t, r);
    ViewAfter(s, t, s');
    if r + s.queue[0].off >= |s.queue[0].data| {
      HeadFinished(ViewOf(s), ViewOf(s'));
    } else {
      HeadMoves(ViewOf(s), ViewOf(s'));
    }
  }

  lemma {:induction false} FreeKept(s: State, t: nat, s': State)
    requires Stepped(s, t, s') && s.pcs[t].FlushFree? && s' == FreeHead(s, t, FlushUnlock(false))
    ensures ViewOk(ViewOf(s'))
  {
    ViewAfter(s, t, s');
    HeadFreed(ViewOf(s), ViewOf(s'));
  }

  lemma {:induction false} CheckKept(s: State, t: nat, c: Choice, s': State)
    requires Stepped(s, t, s') && s.pcs[t].FlushCheck? && s' == FlushStep(s, t, c)
    ensures ViewOk(ViewOf(s'))
  {
    if s.insend == 1 {
      CheckPassed(s, t, s');
    } else {
      PlainStep(s, t, s');
    }
  }

  lemma {:induction false} HeadKept(s: State, t: nat, c: Choice, s': State)
    requires Stepped(s, t, s') && s.pcs[t].FlushSend? && s' == FlushStep(s, t, c)
    ensures ViewOk(ViewOf(s'))
  {
    if s.queue != [] && c.Taken? && 0 < c.n <= |s.queue[0].data| - s.queue[0].off {
      SendKept(s, t, c.n);
    } else if s' != s {
      PlainStep(s, t, s');
    }
  }

  lemma {:induction false} FlushKeepsView(s: State, t: nat, c: Choice, s': State)
    requires Stepped(s, t, s') && Flushing(s.pcs[t]) && s' == FlushStep(s, t, c)
    ensures ViewOk(ViewOf(s'))
  {
    var pc := s.pcs[t];
    if pc.FlushCheck? {
      CheckKept(s, t, c, s');
    } else if pc.FlushSend? {
      HeadKept(s, t, c, s');
    } else if pc.FlushSent? {
      if s.queue != [] {
        SentKept(s, t, pc.r);
      }
    } else if pc.FlushFree? {
      if s.queue != [] {
        FreeKept(s, t, s');
      }
    } else {
      PlainStep(s, t, s');
    }
  }

  lemma {:induction false} CountKept(s: State, t: nat, s': State)
    requires Stepped(s, t, s') && s.pcs[t].SendCount? && s'.pcs[t] == SendAppend(s.pcs[t].data)
    requires SameData(s.(chunks := s.chunks + 1), s')
    ensures ViewOk(ViewOf(s'))
  {
    ViewAfter(s, t, s');
    ChunkCounted(ViewOf(s), ViewOf(s'));
  }

  lemma {:induction false} AppendKept(s: State, t: nat, s': State)
    requires Stepped(s, t, s') && s.pcs[t].SendAppend? && s' == SendStep(s, t)
    ensures ViewOk(ViewOf(s'))
  {
    ViewAfter(s, t, s');
    ChunkAppended(ViewOf(s), ViewOf(s'));
  }

  lemma {:induction false} CountStepKept(s: State, t: nat, s': State)
    requires Stepped(s, t, s') && s.pcs[t].SendCount? && s' == SendStep(s, t)
    ensures ViewOk(ViewOf(s'))
  {
    if !s.pcs[t].discard || s.hqSize <= BACKLOG {
      CountKept(s, t, s');
    } else {
      PlainStep(s, t, s');
    }
  }

  lemma {:induction false} SendKeepsView(s: State, t: nat, s': State)
    requires Stepped(s, t, s') && Sending(s.pcs[t]) && s' == SendStep(s, t)
    ensures ViewOk(ViewOf(s'))
  {
    if s.pcs[t].SendCount? {
      CountStepKept(s, t, s');
    } else if s.pcs[t].SendAppend? {
      AppendKept(s, t, s');
    } else {
      PlainStep(s, t, s');
    }
  }

  /** Taking the lock to look at the head. */
  lemma {:induction false} LockKept(s: State, t: nat, s': State)
    requires Stepped(s, t, s') && SameData(s, s') && s.pcs[t].PartLock? && s'.pcs[t].PartTake?
    ensures ViewOk(ViewOf(s'))
  {
    ViewAfter(s, t, s');
    DataUntouched(ViewOf(s), ViewOf(s'));
  }

  /** There is no half-sent chunk to complete. */
  lemma {:induction false} NoneTaken(s: State, t: nat, s': State)
    requires Stepped(s, t, s') && SameData(s, s') && HeadFresh(s.queue)
    requires s.pcs[t].PartTake? && s'.pcs[t] == PartUnlock(None)
    ensures ViewOk(ViewOf(s'))
  {
    ViewAfter(s, t, s');
    DataUntouched(ViewOf(s), ViewOf(s'));
  }

  /** Giving the lock back, with or without a chunk. */
  lemma {:induction false} UnlockKept(s: State, t: nat, s': State)
    requires Stepped(s, t, s') && SameData(s, s') && s.pcs[t].PartUnlock?
    requires var taken := s.pcs[t].taken; s'.pcs[t] == if taken.Some? then PartWrite(taken.value) else PartLeave
    ensures ViewOk(ViewOf(s'))
  {
    ViewAfter(s, t, s');
    DataUntouched(ViewOf(s), ViewOf(s'));
  }

  lemma {:induction false} TakeKept(s: State, t: nat, s': State)
    requires Stepped(s, t, s') && s.pcs[t].PartTake? && s'.pcs[t].PartFree?
    requires s.queue != [] && s.queue[0].off > 0
    requires SameData(s.(chunks := s.chunks - 1), s')
    ensures ViewOk(ViewOf(s'))
  {
    ViewAfter(s, t, s');
    HeadTaken(ViewOf(s), ViewOf(s'));
  }

  lemma {:induction false} TakenFreeKept(s: State, t: nat, s': State)
    requires Stepped(s, t, s') && s.pcs[t].PartFree? && s.queue != []
    requires s' == FreeHead(s, t, PartUnlock(Some(s.queue[0])))
    ensures ViewOk(ViewOf(s'))
  {
    ViewAfter(s, t, s');
    TakenFreed(ViewOf(s), ViewOf(s'));
  }

  lemma {:induction false} CompleteKept(s: State, t: nat, ch: Chunk, n: nat, s': State)
    requires Stepped(s, t, s') && s.pcs[t] == PartWrite(ch) && n <= |ch.data| - ch.off
    requires s' == Complete(s, t, ch, n)
    ensures ViewOk(ViewOf(s'))
  {
    ViewAfter(s, t, s');
    if ch.off + n == |ch.data| {
      assert ch.data[ch.off..ch.off + n] == ch.data[ch.off..];
      TakenFinished(ViewOf(s), ViewOf(s'));
    } else {
      TakenWritten(ViewOf(s), ViewOf(s'), n);
    }
  }

  lemma {:induction false} StartKept(s: State, t: nat, s': State)
    requires Stepped(s, t, s') && SameData(s, s') && s'.pcs[t] == Writing([])
    requires (s.pcs[t].BeginRead? && s.chunks <= 0) || s.pcs[t].PartLeave?
    ensures ViewOk(ViewOf(s'))
  {
    ViewAfter(s, t, s');
    ReplyStarts(ViewOf(s), ViewOf(s'));
  }

  lemma {:induction false} PartKeepsView(s: State, t: nat, c: Choice, s': State)
    requires Stepped(s, t, s') && Completing(s.pcs[t]) && s' == PartStep(s, t, c)
    ensures ViewOk(ViewOf(s'))
  {
    if s' != s {
      match s.pcs[t]
      case PartEnter => PlainStep(s, t, s');
      case PartLock => LockKept(s, t, s');
      case PartTake =>
        if s.queue != [] && s.queue[0].off > 0 {
          TakeKept(s, t, s');
        } else {
          NoneTaken(s, t, s');
        }
      case PartFree => TakenFreeKept(s, t, s');
      case PartUnlock(_) => UnlockKept(s, t, s');
      case PartWrite(ch) => CompleteKept(s, t, ch, c.n, s');
      case PartLeave => StartKept(s, t, s');
    }
  }

  lemma {:induction false} WriteKept(s: State, t: nat, c: Choice, s': State)
    requires Stepped(s, t, s') && s.pcs[t].Writing? && s' == ReplyStep(s, t, c)
    ensures ViewOk(ViewOf(s'))
  {
    ViewAfter(s, t, s');
    if c.Put? {
      ReplyWritten(ViewOf(s), ViewOf(s'), c.bytes);
    } else {
      ReplyFinished(ViewOf(s), ViewOf(s'));
    }
  }

  lemma {:induction false} BeginKept(s: State, t: nat, s': State)
    requires Stepped(s, t, s') && s.pcs[t].BeginRead?
    requires s' == Goto(s, t, if s.chunks > 0 then PartEnter else Writing([]))
    ensures ViewOk(ViewOf(s'))
  {
    if s.chunks > 0 {
      PlainStep(s, t, s');
    } else {
      StartKept(s, t, s');
    }
  }

  /** Making a call, and the steps around a reply that leave the socket alone. */
  lemma {:induction false} QuietKept(s: State, t: nat, c: Choice, s': State)
    requires Stepped(s, t, s') && !Flushing(s.pcs[t]) && !Sending(s.pcs[t]) && !Completing(s.pcs[t])
    requires !s.pcs[t].BeginRead? && !s.pcs[t].Writing? && s' == ReplyStep(s, t, c)
    ensures ViewOk(ViewOf(s'))
  {
    QuietIsPlain(s, t, c, s');
    PlainStep(s, t, s');
  }

  lemma {:induction false} QuietIsPlain(s: State, t: nat, c: Choice, s': State)
    requires t < |s.pcs| && !Flushing(s.pcs[t]) && !Sending(s.pcs[t]) && !Completing(s.pcs[t])
    requires !s.pcs[t].BeginRead? && !s.pcs[t].Writing? && s' == ReplyStep(s, t, c)
    ensures t < |s'.pcs| && Plain(s.pcs[t]) && Plain(s'.pcs[t]) && SameData(s, s')
  {
  }

  lemma {:induction false} ReplyKeepsView(s: State, t: nat, c: Choice, s': State)
    requires Stepped(s, t, s') && !Flushing(s.pcs[t]) && !Sending(s.pcs[t]) && !Completing(s.pcs[t])
    requires s' == ReplyStep(s, t, c)
    ensures ViewOk(ViewOf(s'))
  {
    if s.pcs[t].BeginRead? {
      BeginKept(s, t, s');
    } else if s.pcs[t].Writing? {
      WriteKept(s, t, c, s');
    } else {
      QuietKept(s, t, c, s');
    }
  }

  lemma {:induction false} FlushPayload(s: State, t: nat, c: Choice)
    requires t < |s.pcs| && Flushing(s.pcs[t])
    ensures PayloadOk(FlushStep(s, t, c).pcs[t])
  {
  }

  lemma {:induction false} PartPayload(s: State, t: nat, c: Choice)
    requires t < |s.pcs| && Completing(s.pcs[t])
    ensures PayloadOk(PartStep(s, t, c).pcs[t])
  {
  }

  lemma {:induction false} ExecPayload(s: State, t: nat, c: Choice, s': State)
    requires t < |s.pcs| && t < |s'.pcs| && PayloadOk(s.pcs[t]) && s' == Exec(s, t, c)
    ensures PayloadOk(s'.pcs[t])
  {
    if Flushing(s.pcs[t]) {
      FlushPayload(s, t, c);
    } else if Completing(s.pcs[t]) {
      PartPayload(s, t, c);
    }
  }

  lemma {:induction false} PayloadsKept(s: State, t: nat, c: Choice)
    requires PayloadsOk(s.pcs) && t < |s.pcs|
    ensures PayloadsOk(Exec(s, t, c).pcs)
  {
    ExecLocal(s, t, c);
    ExecPayload(s, t, c, Exec(s, t, c));
  }

  lemma {:induction false} StepKeepsView(s: State, t: nat, c: Choice, s': State)
    requires Stepped(s, t, s') && s' == Exec(s, t, c)
    ensures ViewOk(ViewOf(s'))
  {
    var pc := s.pcs[t];
    if Flushing(pc) {
      FlushKeepsView(s, t, c, s');
    } else if Sending(pc) {
      SendKeepsView(s, t, s');
    } else if Completing(pc) {
      PartKeepsView(s, t, c, s');
    } else {
      ReplyKeepsView(s, t, c, s');
    }
  }

  lemma {:induction false} StepKeepsInv(s: State, t: nat, c: Choice)
    requires Inv(s) && t < |s.pcs|
    ensures Inv(Exec(s, t, c))
  {
    ExecLocal(s, t, c);
    StepKeepsCounters(s, t, c);
    PayloadsKept(s, t, c);
    StepKeepsView(s, t, c, Exec(s, t, c));
  }

  // ---------------------------------------------------------------- whole runs

  lemma {:induction false} InitInv(threads: nat)
    requires threads > 0
    ensures Inv(Init(threads))
  {
    InitShares(threads);
  }

  lemma {:induction false} InitShares(threads: nat)
    ensures Shares(Init(threads).pcs) == 0
  {
    if threads > 0 {
      InitShares(threads - 1);
      assert Init(threads).pcs[..threads - 1] == Init(threads - 1).pcs;
    }
  }

  lemma {:induction false} RunKeepsInv(threads: nat, steps: seq<(nat, Choice)>)
    requires threads > 0
    ensures Inv(Run(threads, steps))
  {
    if steps == [] {
      InitInv(threads);
    } else {
      var n := |steps| - 1;
      RunKeepsInv(threads, steps[..n]);
      var (t, c) := steps[n];
      if t < threads {
        StepKeepsInv(Run(threads, steps[..n]), t, c);
      }
    }
  }

  /** Safety of the interlock: in every run the wire carries whole replies and whole chunks,
      the chunks in the order they were queued, and after them only what has been written
      of the reply in progress or else a prefix of the one chunk that is next. */
  lemma {:induction false} WireIsWhole(threads: nat, steps: seq<(nat, Choice)>)
    requires threads > 0
    ensures var s := Run(threads, steps);
      && Bodies(s.history) <= s.wire
      && Extras(s.history) <= s.accepted
      && var rest := s.wire[|Bodies(s.history)|..];
      if s.pcs[0].Writing? then rest == s.pcs[0].sent
      else rest == [] || (|Extras(s.history)| < |s.accepted| && rest <= s.accepted[|Extras(s.history)|])
  {
    RunKeepsInv(threads, steps);
    TailIsNext(ViewOf(Run(threads, steps)));
  }

  lemma {:induction false} TailIsNext(v: View)
    requires ViewOk(v)
    ensures Bodies(v.history) <= v.wire && Extras(v.history) <= v.accepted
    ensures var rest := v.wire[|Bodies(v.history)|..];
      if v.p.Writing? then rest == v.p.sent
      else rest == [] || (|Extras(v.history)| < |v.accepted| && rest <= v.accepted[|Extras(v.history)|])
  {
    var rest := v.wire[|Bodies(v.history)|..];
    assert rest == Tail(v);
    var n := |Extras(v.history)|;
    if !v.p.Writing? && rest != [] {
      if TakenOver(v).Some? {
        assert v.accepted[n] == TakenOver(v).value.data;
      } else {
        assert v.accepted[n] == Datas(Pending(v))[0];
      }
    }
  }

  /** While a reply is being written no thread has just sent part of a chunk, and one that
      is about to send finds nothing to send. */
  lemma {:induction false} ReplyIsAlone(threads: nat, steps: seq<(nat, Choice)>, t: nat)
    requires t < threads
    ensures var s := Run(threads, steps);
      s.pcs[0].Writing? ==> !s.pcs[t].FlushSent? && (s.pcs[t].FlushSend? ==> s.queue == [])
  {
    RunKeepsInv(threads, steps);
    var s := Run(threads, steps);
    if Holds(s.pcs[t]) {
      assert ViewOf(s).h == s.pcs[t];
    }
  }

  /** With the lock free the counters are exact and only the head is half sent. */
  lemma {:induction false} LockFreeCounters(threads: nat, steps: seq<(nat, Choice)>)
    requires threads > 0
    ensures var s := Run(threads, steps);
      s.lock.None? ==> s.chunks == |s.queue| && s.hqSize == Unsent(s.queue) && QueueOk(s.queue)
  {
    RunKeepsInv(threads, steps);
    var s := Run(threads, steps);
    if s.lock.None? {
      assert ViewOf(s).h == Idle;
      assert Holds(s.pcs[0]) <==> s.lock == Some(0);
    }
  }

  /** Every chunk ever queued has been sent whole, is the one being completed, or is still
      in the queue, in that order. */
  lemma {:induction false} NothingLost(threads: nat, steps: seq<(nat, Choice)>)
    requires threads > 0
    ensures var s := Run(threads, steps);
      s.lock.None? && !Owns(s.pcs[0]) ==> s.accepted == Extras(s.history) + Datas(s.queue)
  {
    RunKeepsInv(threads, steps);
    var s := Run(threads, steps);
    if s.lock.None? && !Owns(s.pcs[0]) {
      QueueIsRest(ViewOf(s));
    }
  }

  /** With no chunk in anyone's hands the queue holds what has not been sent whole. */
  lemma {:induction false} QueueIsRest(v: View)
    requires FifoOk(v) && v.h.Idle? && !Owns(v.p)
    ensures v.accepted == Extras(v.history) + Datas(v.queue)
  {
    assert Extras(v.history) + [] == Extras(v.history);
  }

  // ---------------------------------------------------------------- the backlog

  predicate Bounded(c: Choice, most: nat) {
    c.StartSend? ==> c.discard && |c.data| <= most
  }

  /** A thread that is sending sends a discardable chunk within the bound, and one that
      will append found room. */
  predicate Within(pc: Pc, hqSize: int, most: nat) {
    && (pc.SendLock? || pc.SendCount? ==> pc.discard && |pc.data| <= most)
    && (pc.SendAppend? ==> |pc.data| <= most && hqSize <= BACKLOG)
  }

  ghost predicate BacklogOk(s: State, most: nat) {
    s.hqSize <= BACKLOG + most && forall t :: 0 <= t < |s.pcs| ==> Within(s.pcs[t], s.hqSize, most)
  }

  /** Only appending makes the backlog longer. */
  ghost predicate Growth(s: State, t: nat, s': State, most: nat)
    requires t < |s.pcs| && t < |s'.pcs|
  {
    && (if s.pcs[t].SendAppend? then s'.hqSize == s.hqSize + |s.pcs[t].data| else s'.hqSize <= s.hqSize)
    && Within(s'.pcs[t], s'.hqSize, most)
  }

  lemma {:induction false} FlushGrowth(s: State, t: nat, c: Choice, most: nat)
    requires QueueOk(s.queue) && t < |s.pcs| && Flushing(s.pcs[t])
    ensures Growth(s, t, FlushStep(s, t, c), most)
  {
  }

  lemma {:induction false} SendGrowth(s: State, t: nat, most: nat)
    requires QueueOk(s.queue) && t < |s.pcs| && Sending(s.pcs[t]) && Within(s.pcs[t], s.hqSize, most)
    ensures Growth(s, t, SendStep(s, t), most)
  {
  }

  lemma {:induction false} PartGrowth(s: State, t: nat, c: Choice, most: nat)
    requires QueueOk(s.queue) && t < |s.pcs| && Completing(s.pcs[t])
    ensures Growth(s, t, PartStep(s, t, c), most)
  {
  }

  lemma {:induction false} ReplyGrowth(s: State, t: nat, c: Choice, most: nat)
    requires t < |s.pcs| && Bounded(c, most)
    requires !Flushing(s.pcs[t]) && !Sending(s.pcs[t]) && !Completing(s.pcs[t])
    ensures Growth(s, t, ReplyStep(s, t, c), most)
  {
  }

  lemma {:induction false} ExecGrowth(s: State, t: nat, c: Choice, most: nat)
    requires QueueOk(s.queue) && t < |s.pcs| && Bounded(c, most) && Within(s.pcs[t], s.hqSize, most)
    ensures Growth(s, t, Exec(s, t, c), most)
  {
    var pc := s.pcs[t];
    if Flushing(pc) {
      FlushGrowth(s, t, c, most);
    } else if Sending(pc) {
      SendGrowth(s, t, most);
    } else if Completing(pc) {
      PartGrowth(s, t, c, most);
    } else {
      ReplyGrowth(s, t, c, most);
    }
  }

  lemma {:induction false} StepKeepsBacklog(s: State, t: nat, c: Choice, most: nat)
    requires Inv(s) && BacklogOk(s, most) && t < |s.pcs| && Bounded(c, most)
    ensures BacklogOk(Exec(s, t, c), most)
  {
    var s' := Exec(s, t, c);
    assert Within(s.pcs[t], s.hqSize, most);
    ExecLocal(s, t, c);
    ExecGrowth(s, t, c, most);
    forall u | 0 <= u < |s'.pcs| ensures Within(s'.pcs[u], s'.hqSize, most) {
      if u != t {
        assert s'.pcs[u] == s.pcs[u];
        assert Within(s.pcs[u], s.hqSize, most);
        assert Holds(s.pcs[u]) && Holds(s.pcs[t]) ==> s.lock == Some(u) && s.lock == Some(t);
      }
    }
  }

  /** If every chunk may be discarded and none is longer than `most`, the unsent backlog
      never exceeds 1 MiB and one chunk. */
  lemma {:induction false} BacklogBound(threads: nat, steps: seq<(nat, Choice)>, most: nat)
    requires threads > 0 && forall i :: 0 <= i < |steps| ==> Bounded(steps[i].1, most)
    ensures Run(threads, steps).hqSize <= BACKLOG + most
    ensures BacklogOk(Run(threads, steps), most)
  {
    if steps != [] {
      var n := |steps| - 1;
      BacklogBound(threads, steps[..n], most);
      RunKeepsInv(threads, steps[..n]);
      assert Bounded(steps[n].1, most);
      if steps[n].0 < threads {
        StepKeepsBacklog(Run(threads, steps[..n]), steps[n].0, steps[n].1, most);
      }
    }
  }
}
