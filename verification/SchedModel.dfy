// The thread scheduler of scheduler.c and sched_impl.c as a transition system:
// the main thread, one scheduler thread and N workers, interleaved step by step.
// Semaphores are atomic counters and each operation of list.c is one step (the
// source takes no lock around them; that they do not overlap is assumed).

module SchedModel {
  import opened Common

  datatype Policy = Fifo | RoundRobin

  datatype Config = Config(policy: Policy, threads: nat, queueSize: nat, iterations: nat) {
    ghost predicate Valid() {
      threads >= 1 && queueSize >= 1
    }
  }

  // The program points of `worker_proc`, with `enter_sched_queue` in two steps
  // and the final slice in five.
  datatype WorkerPc =
    | NotCreated
    | Entering      // about to wait on queue_sem
    | Inserting     // admitted, about to insert its element
    | Waiting       // about to wait on its exec semaphore
    | Running       // holds the cpu; about to release it, or to leave the queue
    | Posting       // removed its element, about to post queue_sem
    | Adjusting     // about to decrement currentPosition
    | Counting      // about to decrement num_workers_remaining
    | Releasing     // about to post cpu_sem for the last time
    | Exited

  // `done` is the loop counter of `worker_proc`.
  datatype Worker = Worker(pc: WorkerPc, done: nat, exec: nat) {
    predicate InQueue() {
      pc == Waiting || pc == Running
    }

    // Between waking up and posting cpu_sem.
    predicate HoldsCpu() {
      pc == Running || pc == Posting || pc == Adjusting || pc == Counting || pc == Releasing
    }
  }

  // The program points of `sched_proc`, with `next_worker` inlined.
  datatype SchedPc =
    | SpinQueue                          // wait_for_queue
    | CheckRemaining                     // the loop test of sched_proc
    | CheckEmpty                         // next_worker: is the queue empty?
    | CheckWrap                          // rr_next_worker: past the end?
    | Walk(i: nat, t: Option<nat>)       // rr_next_worker: i links followed
    | Wake(w: nat)                       // about to post exec
    | AwaitCpu(w: nat)                   // about to wait on cpu_sem
    | Finished

  datatype MainPc = SetCounter | Creating(k: nat)

  // One entry per worker chosen by `next_worker`, with the queue at that moment.
  datatype Dispatch = Dispatch(worker: nat, queue: seq<nat>)

  // The shared state, followed by three history variables.
  datatype State = State(
    main: MainPc, sched: SchedPc, workers: seq<Worker>,
    q: seq<nat>, queueSem: nat, cpuSem: nat, currentPosition: int, remaining: int,
    inserted: seq<nat>, left: seq<nat>, log: seq<Dispatch>)

  function Init(c: Config): State {
    State(SetCounter, SpinQueue, seq(c.threads, _ => Worker(NotCreated, 0, 0)), [], c.queueSize, 0, 0, 0, [], [], [])
  }

  datatype Step = MainStep | WorkerStep(w: nat) | SchedStep

  // The position of an element, or the length.
  function IndexOf(q: seq<nat>, w: nat): (i: nat)
    ensures i <= |q| && (i < |q| ==> q[i] == w) && (forall k :: 0 <= k < i ==> q[k] != w)
  {
    if q == [] || q[0] == w then 0 else 1 + IndexOf(q[1..], w)
  }

  function At(q: seq<nat>, i: nat): Option<nat> {
    if i < |q| then Some(q[i]) else None
  }

  function Remove(q: seq<nat>, w: nat): seq<nat> {
    var i := IndexOf(q, w);
    if i < |q| then q[..i] + q[i + 1..] else q
  }

  predicate Enabled(c: Config, s: State, step: Step) {
    match step
    case MainStep => s.main.SetCounter? || (s.main.k < c.threads && s.main.k < |s.workers|)
    case SchedStep =>
      (match s.sched
       case Walk(i, t) => i < s.currentPosition || t.Some?
       case Wake(w) => w < |s.workers|
       case AwaitCpu(_) => s.cpuSem > 0
       case Finished => false
       case _ => true)
    case WorkerStep(w) =>
      w < |s.workers| &&
      (match s.workers[w].pc
       case NotCreated => false
       case Entering => s.queueSem > 0
       case Waiting => s.workers[w].exec > 0
       case Exited => false
       case _ => true)
  }

  function Do(c: Config, s: State, step: Step): State
    requires Enabled(c, s, step)
  {
    match step
    case MainStep => DoMain(c, s)
    case SchedStep => DoSched(c, s)
    case WorkerStep(w) => DoWorker(c, s, w)
  }

  function DoMain(c: Config, s: State): State
    requires Enabled(c, s, MainStep)
  {
    match s.main
    case SetCounter => s.(main := Creating(0), remaining := c.threads)
    case Creating(k) => s.(main := Creating(k + 1), workers := s.workers[k := s.workers[k].(pc := Entering)])
  }

  function DoWorker(c: Config, s: State, w: nat): State
    requires Enabled(c, s, WorkerStep(w))
  {
    var me := s.workers[w];
    match me.pc
    case Entering => s.(queueSem := s.queueSem - 1, workers := s.workers[w := me.(pc := Inserting)])
    case Inserting => s.(q := s.q + [w], inserted := s.inserted + [w], workers := s.workers[w := me.(pc := Waiting)])
    case Waiting => s.(workers := s.workers[w := me.(pc := Running, exec := me.exec - 1)])
    case Running =>
      if me.done < c.iterations then
        s.(cpuSem := s.cpuSem + 1, workers := s.workers[w := me.(pc := Waiting, done := me.done + 1)])
      else
        s.(q := Remove(s.q, w), left := s.left + [w], workers := s.workers[w := me.(pc := Posting)])
    case Posting => s.(queueSem := s.queueSem + 1, workers := s.workers[w := me.(pc := Adjusting)])
    case Adjusting => s.(currentPosition := s.currentPosition - 1, workers := s.workers[w := me.(pc := Counting)])
    case Counting => s.(remaining := s.remaining - 1, workers := s.workers[w := me.(pc := Releasing)])
    case Releasing => s.(cpuSem := s.cpuSem + 1, workers := s.workers[w := me.(pc := Exited)])
    case _ => s
  }

  // Choosing a worker: `next_worker` returns it.
  function Choose(s: State, w: nat): State {
    s.(sched := Wake(w), log := s.log + [Dispatch(w, s.q)])
  }

  function DoSched(c: Config, s: State): State
    requires Enabled(c, s, SchedStep)
  {
    match s.sched
    case SpinQueue => if |s.q| == 0 then s else s.(sched := CheckRemaining)
    case CheckRemaining => s.(sched := if s.remaining > 0 then CheckEmpty else Finished)
    case CheckEmpty =>
      if |s.q| == 0 then s.(sched := SpinQueue)
      else if c.policy.Fifo? then Choose(s, s.q[0])
      else s.(sched := CheckWrap)
    case CheckWrap =>
      s.(sched := Walk(0, At(s.q, 0)), currentPosition := if s.currentPosition == |s.q| then 0 else s.currentPosition)
    case Walk(i, t) =>
      if i < s.currentPosition then
        s.(sched := Walk(i + 1, if t.None? then At(s.q, 0) else At(s.q, IndexOf(s.q, t.value) + 1)))
      else
        Choose(s.(currentPosition := s.currentPosition + 1), t.value)
    case Wake(w) => s.(sched := AwaitCpu(w), workers := s.workers[w := s.workers[w].(exec := s.workers[w].exec + 1)])
    case AwaitCpu(w) => s.(sched := CheckRemaining, cpuSem := s.cpuSem - 1)
    case Finished => s
  }

  // The state after a schedule, if every step of it was enabled in turn.
  function Exec(c: Config, schedule: seq<Step>): Option<State> {
    if schedule == [] then Some(Init(c))
    else
      var before := Exec(c, schedule[..|schedule| - 1]);
      var step := schedule[|schedule| - 1];
      if before.Some? && Enabled(c, before.value, step) then Some(Do(c, before.value, step)) else None
  }

  // Sums over the workers.
  function Sum(ws: seq<Worker>, f: Worker -> nat): nat {
    if ws == [] then 0 else Sum(ws[..|ws| - 1], f) + f(ws[|ws| - 1])
  }

  lemma {:induction false} SumUpdate(ws: seq<Worker>, f: Worker -> nat, i: nat, x: Worker)
    requires i < |ws|
    ensures Sum(ws[i := x], f) + f(ws[i]) == Sum(ws, f) + f(x)
  {
    var n := |ws| - 1;
    assert ws[i := x][..n] == if i == n then ws[..n] else ws[..n][i := x];
    if i < n {
      SumUpdate(ws[..n], f, i, x);
    }
  }

  lemma {:induction false} SumConstant(ws: seq<Worker>, f: Worker -> nat, v: nat)
    requires forall w :: 0 <= w < |ws| ==> f(ws[w]) == v
    ensures Sum(ws, f) == |ws| * v
  {
    if ws != [] {
      SumConstant(ws[..|ws| - 1], f, v);
    }
  }

  lemma {:induction false} SumAtLeast(ws: seq<Worker>, f: Worker -> nat, i: nat)
    requires i < |ws|
    ensures f(ws[i]) <= Sum(ws, f)
  {
    if i < |ws| - 1 {
      SumAtLeast(ws[..|ws| - 1], f, i);
    }
  }
}
