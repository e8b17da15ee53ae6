/** The data queue of the EPG grabbers (src/epggrab.c): producers append data to their
    module's queue, one thread takes it out again.  Modules with data stand in an outer
    queue.  Each access under the mutex is one step; any interleaving of any number of
    producers with the data thread, before shutdown, is a run. */
module EpgGrab {
  import opened Wrappers

  type Data = Bytes

  /** Where a producer is in epggrab_queue_data. */
  datatype Pc =
    | Idle
    | Lock(mod: nat, data: Data)
    | Check(mod: nat, data: Data)
    | InsertModule(mod: nat, data: Data)
    | InsertData(mod: nat, data: Data)
    | Unlock

  /** Where the data thread is; Woken waits to get the mutex back. */
  datatype Worker =
    | Start
    | Scan
    | Asleep
    | Woken
    | Leave(mod: nat, data: Data)
    | Process(mod: nat, data: Data)

  datatype Holder = Free | Worker | Producer(t: nat)

  /** `accepted` and `processed` record, for each module, what was queued and handed on. */
  datatype State = State(
    mutex: Holder, outer: seq<nat>, queues: seq<seq<Data>>, worker: Worker, pcs: seq<Pc>,
    accepted: seq<seq<Data>>, processed: seq<seq<Data>>)

  /** Which thread moves next; a producer that is idle may be called, a sleeper may wake up
      for no reason. */
  datatype Choice = Work(spurious: bool) | Call(t: nat, mod: nat, data: Data) | Produce(t: nat)

  function Exec(s: State, c: Choice): (r: State)
    requires Sized(s)
    ensures Sized(r) && |r.queues| == |s.queues|
  {
    match c
    case Work(spurious) => WorkerStep(s, spurious)
    case Call(t, mod, data) =>
      if t < |s.pcs| && s.pcs[t].Idle? && mod < |s.queues| then s.(pcs := s.pcs[t := Lock(mod, data)]) else s
    case Produce(t) => if t < |s.pcs| then ProducerStep(s, t) else s
  }

  predicate Sized(s: State) {
    && |s.queues| == |s.accepted| == |s.processed|
    && (forall i :: 0 <= i < |s.outer| ==> s.outer[i] < |s.queues|)
    && (forall t :: 0 <= t < |s.pcs| ==> !s.pcs[t].Idle? && !s.pcs[t].Unlock? ==> s.pcs[t].mod < |s.queues|)
    && (s.worker.Leave? || s.worker.Process? ==> s.worker.mod < |s.queues|)
  }

  /** The data thread. */
  function WorkerStep(s: State, spurious: bool): State
    requires Sized(s)
  {
    match s.worker
    case Start => if s.mutex.Free? then s.(mutex := Holder.Worker, worker := Scan) else s
    case Scan =>
      if s.outer == [] || s.queues[s.outer[0]] == [] then s.(mutex := Free, worker := Asleep)
      else Take(s, s.outer[0])
    case Asleep => if spurious then s.(worker := Woken) else s
    case Woken => if s.mutex.Free? then s.(mutex := Holder.Worker, worker := Scan) else s
    case Leave(mod, data) => s.(mutex := Free, worker := Process(mod, data))
    case Process(mod, data) => s.(worker := Start, processed := s.processed[mod := s.processed[mod] + [data]])
  }

  /** The first data of the first module; a module without data leaves the outer queue. */
  function Take(s: State, mod: nat): State
    requires Sized(s) && mod < |s.queues| && s.queues[mod] != [] && s.outer != []
  {
    var rest := s.queues[mod][1..];
    s.(queues := s.queues[mod := rest], outer := if rest == [] then s.outer[1..] else s.outer,
       worker := Leave(mod, s.queues[mod][0]))
  }

  function ProducerStep(s: State, t: nat): State
    requires Sized(s) && t < |s.pcs|
  {
    match s.pcs[t]
    case Idle => s
    case Lock(mod, data) =>
      if s.mutex.Free? then s.(mutex := Producer(t), pcs := s.pcs[t := Check(mod, data)]) else s
    case Check(mod, data) =>
      if s.queues[mod] == [] then
        s.(worker := if s.worker.Asleep? then Woken else s.worker, pcs := s.pcs[t := InsertModule(mod, data)])
      else s.(pcs := s.pcs[t := InsertData(mod, data)])
    case InsertModule(mod, data) => s.(outer := s.outer + [mod], pcs := s.pcs[t := InsertData(mod, data)])
    case InsertData(mod, data) =>
      s.(queues := s.queues[mod := s.queues[mod] + [data]], accepted := s.accepted[mod := s.accepted[mod] + [data]],
         pcs := s.pcs[t := Unlock])
    case Unlock => s.(mutex := Free, pcs := s.pcs[t := Idle])
  }

  function Init(modules: nat, producers: nat): State {
    State(Free, [], seq(modules, _ => []), Start, seq(producers, _ => Idle),
          seq(modules, _ => []), seq(modules, _ => []))
  }

  // ---------------------------------------------------------------- the invariant

  predicate Inside(pc: Pc) {
    pc.Check? || pc.InsertModule? || pc.InsertData? || pc.Unlock?
  }

  /** Only the holder of the mutex is inside. */
  ghost predicate MutexOk(s: State) {
    && (forall t :: 0 <= t < |s.pcs| ==> (Inside(s.pcs[t]) <==> s.mutex == Producer(t)))
    && (s.mutex.Producer? ==> s.mutex.t < |s.pcs|)
    && (s.worker.Scan? || s.worker.Leave? <==> s.mutex == Holder.Worker)
  }

  /** Where the holder of the mutex is, Idle if it is no producer. */
  function HolderPc(s: State): Pc
    requires s.mutex.Producer? ==> s.mutex.t < |s.pcs|
  {
    if s.mutex.Producer? then s.pcs[s.mutex.t] else Idle
  }

  /** A module stands in the outer queue if it has data, or if the holder of the mutex is
      about to give it the first. */
  ghost predicate OuterOk(outer: seq<nat>, queues: seq<seq<Data>>, pc: Pc) {
    && (forall i, k :: 0 <= i < k < |outer| ==> outer[i] != outer[k])
    && (forall m :: 0 <= m < |queues| ==>
          (m in outer <==> queues[m] != [] || (pc.InsertData? && pc.mod == m)))
    && (pc.InsertModule? ==> pc.mod < |queues| && queues[pc.mod] == [])
  }

  function InHand(w: Worker, m: nat): seq<Data> {
    if (w.Leave? || w.Process?) && w.mod == m then [w.data] else []
  }

  /** What was queued for module m has been handed on, is in hand or waits, in this order. */
  ghost predicate FifoAt(s: State, m: nat)
    requires Sized(s) && m < |s.queues|
  {
    s.accepted[m] == s.processed[m] + InHand(s.worker, m) + s.queues[m]
  }

  ghost predicate AsleepOk(s: State)
    requires s.mutex.Producer? ==> s.mutex.t < |s.pcs|
  {
    s.worker.Asleep? ==> s.outer == [] && !HolderPc(s).InsertModule? && !HolderPc(s).InsertData?
  }

  ghost predicate Inv(s: State) {
    && Sized(s) && MutexOk(s) && OuterOk(s.outer, s.queues, HolderPc(s)) && AsleepOk(s)
    && (forall m :: 0 <= m < |s.queues| ==> FifoAt(s, m))
  }

  lemma {:induction false} TakeKeepsOuter(outer: seq<nat>, queues: seq<seq<Data>>, m: nat, rest: seq<Data>)
    requires OuterOk(outer, queues, Idle) && outer != [] && m == outer[0] < |queues| && queues[m] != []
    ensures OuterOk(if rest == [] then outer[1..] else outer, queues[m := rest], Idle)
  {
    var outer' := if rest == [] then outer[1..] else outer;
    forall k | 0 <= k < |queues| ensures k in outer' <==> queues[m := rest][k] != [] {
      if k != m && k in outer {
        var i :| 0 <= i < |outer| && outer[i] == k;
        assert rest == [] ==> outer'[i - 1] == k;
      }
    }
  }

  lemma {:induction false} WorkerKeepsInv(s: State, spurious: bool)
    requires Inv(s)
    ensures Inv(WorkerStep(s, spurious))
  {
    var s' := WorkerStep(s, spurious);
    if s.worker.Scan? && s.outer != [] && s.queues[s.outer[0]] != [] {
      var m := s.outer[0];
      TakeKeepsOuter(s.outer, s.queues, m, s.queues[m][1..]);
    }
    WorkerKeepsFifo(s, spurious);
  }

  lemma {:induction false} WorkerKeepsFifo(s: State, spurious: bool)
    requires Inv(s)
    ensures var s' := WorkerStep(s, spurious); forall k :: 0 <= k < |s'.queues| ==> FifoAt(s', k)
  {
    var s' := WorkerStep(s, spurious);
    forall k | 0 <= k < |s'.queues| ensures FifoAt(s', k) {
      assert FifoAt(s, k);
    }
  }

  lemma {:induction false} ModuleStands(outer: seq<nat>, queues: seq<seq<Data>>, mod: nat, data: Data)
    requires OuterOk(outer, queues, InsertModule(mod, data)) && mod !in outer
    ensures OuterOk(outer + [mod], queues, InsertData(mod, data))
  {
    forall k | 0 <= k < |queues| ensures k in outer + [mod] <==> queues[k] != [] || k == mod {
      assert k in outer + [mod] <==> k in outer || k == mod;
    }
  }

  lemma {:induction false} DataStands(outer: seq<nat>, queues: seq<seq<Data>>, mod: nat, data: Data)
    requires mod < |queues| && OuterOk(outer, queues, InsertData(mod, data))
    ensures OuterOk(outer, queues[mod := queues[mod] + [data]], Unlock)
  {
  }

  lemma {:induction false} ProducerKeepsInv(s: State, t: nat)
    requires Inv(s) && t < |s.pcs|
    ensures Inv(ProducerStep(s, t))
  {
    var s' := ProducerStep(s, t);
    forall k | 0 <= k < |s'.queues| ensures FifoAt(s', k) {
      assert FifoAt(s, k);
    }
    match s.pcs[t]
    case InsertModule(mod, data) => ModuleStands(s.outer, s.queues, mod, data);
    case InsertData(mod, data) => DataStands(s.outer, s.queues, mod, data);
    case _ =>
  }

  lemma {:induction false} StepKeepsInv(s: State, c: Choice)
    requires Inv(s)
    ensures Inv(Exec(s, c))
  {
    match c
    case Work(spurious) => WorkerKeepsInv(s, spurious);
    case Produce(t) =>
      if t < |s.pcs| {
        ProducerKeepsInv(s, t);
      }
    case Call(t, mod, data) => CallKeepsInv(s, t, mod, data);
  }

  lemma {:induction false} CallKeepsInv(s: State, t: nat, mod: nat, data: Data)
    requires Inv(s)
    ensures Inv(Exec(s, Call(t, mod, data)))
  {
    var s' := Exec(s, Call(t, mod, data));
    forall k | 0 <= k < |s'.queues| ensures FifoAt(s', k) {
      assert FifoAt(s, k);
    }
  }

  /** The state after a run, given as its steps. */
  function Run(modules: nat, producers: nat, steps: seq<Choice>): (s: State)
    ensures Sized(s) && |s.queues| == modules
  {
    if steps == [] then Init(modules, producers)
    else Exec(Run(modules, producers, steps[..|steps| - 1]), steps[|steps| - 1])
  }

  lemma {:induction false} RunKeepsInv(modules: nat, producers: nat, steps: seq<Choice>)
    ensures Inv(Run(modules, producers, steps))
  {
    if steps == [] {
      forall m | 0 <= m < modules ensures FifoAt(Init(modules, producers), m) {
      }
    } else {
      RunKeepsInv(modules, producers, steps[..|steps| - 1]);
      StepKeepsInv(Run(modules, producers, steps[..|steps| - 1]), steps[|steps| - 1]);
    }
  }

  // ---------------------------------------------------------------- what every run keeps

  /** Whenever the mutex is free, a module stands in the outer queue once if it has data and
      not at all if it has none. */
  lemma {:induction false} OuterQueueIsExact(modules: nat, producers: nat, steps: seq<Choice>, m: nat)
    requires m < modules
    ensures var s := Run(modules, producers, steps);
      s.mutex.Free? ==> multiset(s.outer)[m] == if s.queues[m] == [] then 0 else 1
  {
    RunKeepsInv(modules, producers, steps);
    var s := Run(modules, producers, steps);
    if s.mutex.Free? {
      Multiplicity(s.outer, m);
    }
  }

  lemma {:induction false} Multiplicity(s: seq<nat>, m: nat)
    requires forall i, k :: 0 <= i < k < |s| ==> s[i] != s[k]
    ensures multiset(s)[m] == if m in s then 1 else 0
  {
    if s != [] {
      var n := |s| - 1;
      Multiplicity(s[..n], m);
      assert s == s[..n] + [s[n]];
    }
  }

  /** In every state, what was queued for a module is what has been handed to it, then what
      the data thread has in hand for it, then its queue: nothing is lost, doubled or passed. */
  lemma {:induction false} NothingLost(modules: nat, producers: nat, steps: seq<Choice>, m: nat)
    requires m < modules
    ensures var s := Run(modules, producers, steps);
      s.accepted[m] == s.processed[m] + InHand(s.worker, m) + s.queues[m]
  {
    RunKeepsInv(modules, producers, steps);
    assert FifoAt(Run(modules, producers, steps), m);
  }

  /** The data thread is never asleep while there is something in a queue: whoever queues the
      first data of a module has woken it before. */
  lemma {:induction false} NoLostWakeup(modules: nat, producers: nat, steps: seq<Choice>, m: nat)
    requires m < modules
    ensures var s := Run(modules, producers, steps);
      s.worker.Asleep? ==> s.outer == [] && s.queues[m] == []
  {
    RunKeepsInv(modules, producers, steps);
    var s := Run(modules, producers, steps);
    assert s.worker.Asleep? ==> m !in s.outer;
  }
}
