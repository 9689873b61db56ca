// What every interleaving of the scheduler and its workers maintains: queue
// slots are conserved, exactly one thread holds the cpu token, and the
// round-robin position always points just past the worker being served.

module SchedInvariant {
  import opened Common
  import opened SchedModel

  function Admitted(w: Worker): nat { if w.pc.Inserting? then 1 else 0 }
  function Removed(w: Worker): nat { if w.pc.Posting? then 1 else 0 }
  function Uncounted(w: Worker): nat { if w.pc.Releasing? || w.pc.Exited? then 0 else 1 }
  function Pending(w: Worker): nat { w.exec }
  function Active(w: Worker): nat { if w.HoldsCpu() then 1 else 0 }

  // The queue holds exactly the workers between insertion and removal, once each.
  ghost predicate QueueOk(c: Config, s: State) {
    && |s.workers| == c.threads
    && (forall i :: 0 <= i < |s.q| ==> s.q[i] < c.threads && s.workers[s.q[i]].InQueue())
    && Distinct(s.q)
    && (forall w :: 0 <= w < c.threads && s.workers[w].InQueue() ==> w in s.q)
  }

  predicate LoopOk(c: Config, w: Worker) {
    match w.pc
    case NotCreated | Entering | Inserting => w.done == 0
    case Waiting | Running => w.done <= c.iterations
    case _ => w.done == c.iterations
  }

  ghost predicate LoopsOk(c: Config, s: State) {
    forall w :: 0 <= w < |s.workers| ==> LoopOk(c, s.workers[w])
  }

  // Free slots, queued workers, workers admitted but not inserted and workers
  // removed but not yet posted add up to the queue size.
  ghost predicate SlotsOk(c: Config, s: State) {
    s.queueSem + |s.q| + Sum(s.workers, Admitted) + Sum(s.workers, Removed) == c.queueSize
  }

  // No exec post is pending and the worker is not running.
  predicate Quiet(w: Worker) {
    w.exec == 0 && !w.HoldsCpu()
  }

  // The token is with the scheduler, or with the one worker it is waiting for:
  // as an exec post, as that worker running, or as a cpu_sem post.
  ghost predicate TokenOk(s: State) {
    && (forall w :: 0 <= w < |s.workers| && s.sched != AwaitCpu(w) ==> Quiet(s.workers[w]))
    && (s.sched.Wake? ==> s.sched.w < |s.workers| && s.workers[s.sched.w].pc.Waiting?)
    && if s.sched.AwaitCpu? then
         s.sched.w < |s.workers| &&
         var me := s.workers[s.sched.w];
         || (me.exec == 1 && me.pc.Waiting? && s.cpuSem == 0)
         || (me.exec == 0 && me.HoldsCpu() && s.cpuSem == 0)
         || (me.exec == 0 && me.pc in {Waiting, Exited} && s.cpuSem == 1)
       else s.cpuSem == 0
  }

  ghost predicate CounterOk(c: Config, s: State) {
    && s.remaining == (if s.main.SetCounter? then 0 else Sum(s.workers, Uncounted))
    && (s.main.SetCounter? ==> s.sched.SpinQueue? && forall w :: 0 <= w < |s.workers| ==> s.workers[w].pc.NotCreated?)
    && (s.main.Creating? ==> s.main.k <= c.threads)
    && (s.main.Creating? ==> forall w :: 0 <= w < |s.workers| ==> (s.workers[w].pc.NotCreated? <==> s.main.k <= w))
    && (s.sched.Finished? ==> s.remaining == 0 && s.main.Creating?)
    && (s.sched in {CheckEmpty, CheckWrap} || s.sched.Walk? ==> s.remaining > 0)
    && (s.sched.SpinQueue? && s.main.Creating? ==> s.remaining > 0)
  }

  // The worker being served is the one at index currentPosition - 1.
  ghost predicate ServesLast(s: State, w: nat) {
    1 <= s.currentPosition <= |s.q| && s.q[s.currentPosition - 1] == w
  }

  ghost predicate PositionOk(c: Config, s: State) {
    if c.policy.Fifo? then
      && !s.sched.CheckWrap? && !s.sched.Walk?
      && (s.sched.Wake? ==> |s.q| > 0 && s.q[0] == s.sched.w)
      && (s.sched.AwaitCpu? && s.sched.w < |s.workers| && s.workers[s.sched.w].InQueue() ==> |s.q| > 0 && s.q[0] == s.sched.w)
    else
      match s.sched
      case CheckWrap => |s.q| > 0 && 0 <= s.currentPosition <= |s.q|
      case Walk(i, t) => i <= s.currentPosition < |s.q| && t == Some(s.q[i])
      case Wake(w) => ServesLast(s, w)
      case AwaitCpu(w) =>
        w < |s.workers| &&
        if s.workers[w].InQueue() then ServesLast(s, w)
        else if s.workers[w].pc in {Posting, Adjusting} then 1 <= s.currentPosition <= |s.q| + 1
        else 0 <= s.currentPosition <= |s.q|
      case _ => 0 <= s.currentPosition <= |s.q|
  }

  ghost predicate Inv(c: Config, s: State) {
    QueueOk(c, s) && LoopsOk(c, s) && SlotsOk(c, s) && TokenOk(s) && CounterOk(c, s) && PositionOk(c, s)
  }

  lemma InitInv(c: Config)
    requires c.Valid()
    ensures Inv(c, Init(c))
  {
    SumConstant(Init(c).workers, Admitted, 0);
    SumConstant(Init(c).workers, Removed, 0);
  }

  lemma IndexOfDistinct(q: seq<nat>, i: nat)
    requires i < |q| && Distinct(q)
    ensures IndexOf(q, q[i]) == i
  {
  }

  lemma RemoveAt(q: seq<nat>, i: nat)
    requires i < |q| && Distinct(q)
    ensures Remove(q, q[i]) == q[..i] + q[i + 1..]
    ensures |Remove(q, q[i])| == |q| - 1
    ensures forall k :: 0 <= k < i ==> Remove(q, q[i])[k] == q[k]
    ensures forall k :: i <= k < |q| - 1 ==> Remove(q, q[i])[k] == q[k + 1]
  {
  }

  // ---- The queue ----

  lemma QueueSame(c: Config, s: State, t: State)
    requires QueueOk(c, s) && t.q == s.q && |t.workers| == |s.workers|
    requires forall w :: 0 <= w < |s.workers| ==> t.workers[w].InQueue() == s.workers[w].InQueue()
    ensures QueueOk(c, t)
  {
  }

  lemma QueueInsert(c: Config, s: State, w: nat)
    requires QueueOk(c, s) && Enabled(c, s, WorkerStep(w)) && s.workers[w].pc.Inserting?
    ensures QueueOk(c, DoWorker(c, s, w))
  {
  }

  predicate Leaves(c: Config, s: State, w: nat) {
    w < |s.workers| && s.workers[w].pc.Running? && s.workers[w].done >= c.iterations
  }

  lemma QueueLeave(c: Config, s: State, w: nat)
    requires QueueOk(c, s) && Leaves(c, s, w)
    ensures QueueOk(c, DoWorker(c, s, w))
  {
  }

  lemma QueueKept(c: Config, s: State, step: Step)
    requires c.Valid() && QueueOk(c, s) && Enabled(c, s, step)
    requires step.MainStep? && s.main.Creating? ==> s.workers[s.main.k].pc.NotCreated?
    ensures QueueOk(c, Do(c, s, step))
  {
    if step.WorkerStep? && s.workers[step.w].pc.Inserting? {
      QueueInsert(c, s, step.w);
    } else if step.WorkerStep? && Leaves(c, s, step.w) {
      QueueLeave(c, s, step.w);
    } else {
      QueueSame(c, s, Do(c, s, step));
    }
  }

  // ---- Loop counters and sums ----

  lemma LoopsKept(c: Config, s: State, step: Step)
    requires LoopsOk(c, s) && Enabled(c, s, step)
    requires step.MainStep? && s.main.Creating? ==> s.workers[s.main.k].pc.NotCreated?
    ensures LoopsOk(c, Do(c, s, step))
  {
  }

  // The only worker a step changes.
  function Mover(s: State, step: Step): nat {
    match step
    case MainStep => if s.main.Creating? then s.main.k else 0
    case WorkerStep(w) => w
    case SchedStep => if s.sched.Wake? then s.sched.w else 0
  }

  // A step changes a sum over the workers by what it changes at its mover.
  lemma SumStep(c: Config, s: State, step: Step, f: Worker -> nat)
    requires c.Valid() && |s.workers| == c.threads && Enabled(c, s, step)
    ensures Mover(s, step) < |s.workers| == |Do(c, s, step).workers|
    ensures Sum(Do(c, s, step).workers, f) + f(s.workers[Mover(s, step)]) == Sum(s.workers, f) + f(Do(c, s, step).workers[Mover(s, step)])
  {
    var m := Mover(s, step);
    var t := Do(c, s, step);
    assert t.workers == s.workers[m := t.workers[m]];
    SumUpdate(s.workers, f, m, t.workers[m]);
  }

  lemma SlotsKept(c: Config, s: State, step: Step)
    requires c.Valid() && QueueOk(c, s) && SlotsOk(c, s) && Enabled(c, s, step)
    requires step.MainStep? && s.main.Creating? ==> s.workers[s.main.k].pc.NotCreated?
    ensures SlotsOk(c, Do(c, s, step))
  {
    SumStep(c, s, step, Admitted);
    SumStep(c, s, step, Removed);
    if step.WorkerStep? && Leaves(c, s, step.w) {
      var i :| 0 <= i < |s.q| && s.q[i] == step.w;
      RemoveAt(s.q, i);
    }
  }

  // ---- The token ----

  lemma TokenAtHolder(c: Config, s: State, w: nat)
    requires TokenOk(s) && w < |s.workers| && !Quiet(s.workers[w])
    ensures s.sched == AwaitCpu(w) && s.cpuSem == 0
  {
  }

  lemma TokenWorker(c: Config, s: State, w: nat)
    requires TokenOk(s) && Enabled(c, s, WorkerStep(w))
    ensures TokenOk(DoWorker(c, s, w))
  {
  }

  lemma TokenSched(c: Config, s: State)
    requires TokenOk(s) && QueueOk(c, s) && PositionOk(c, s) && Enabled(c, s, SchedStep)
    ensures TokenOk(DoSched(c, s))
  {
    var t := DoSched(c, s);
    forall v | 0 <= v < |t.workers| && t.sched != AwaitCpu(v)
      ensures Quiet(t.workers[v])
    {
    }
    if t.sched.Wake? {
      assert t.sched.w in s.q;
      assert s.workers[t.sched.w].InQueue() && Quiet(s.workers[t.sched.w]);
    }
  }

  lemma TokenKept(c: Config, s: State, step: Step)
    requires c.Valid() && Inv(c, s) && Enabled(c, s, step)
    ensures TokenOk(Do(c, s, step))
  {
    match step
    case MainStep =>
    case WorkerStep(w) => TokenWorker(c, s, w);
    case SchedStep => TokenSched(c, s);
  }

  // ---- The counter of remaining workers ----

  lemma CounterMain(c: Config, s: State)
    requires c.Valid() && |s.workers| == c.threads && CounterOk(c, s) && Enabled(c, s, MainStep)
    ensures CounterOk(c, DoMain(c, s))
  {
    match s.main
    case SetCounter => SumConstant(s.workers, Uncounted, 1);
    case Creating(k) => SumUpdate(s.workers, Uncounted, k, DoMain(c, s).workers[k]);
  }

  lemma RemainingWorker(c: Config, s: State, w: nat)
    requires TokenOk(s) && CounterOk(c, s) && Enabled(c, s, WorkerStep(w))
    ensures var t := DoWorker(c, s, w);
            t.remaining == if t.main.SetCounter? then 0 else Sum(t.workers, Uncounted)
  {
    SumUpdate(s.workers, Uncounted, w, DoWorker(c, s, w).workers[w]);
    assert !s.workers[w].pc.NotCreated?;
    if s.workers[w].pc.Counting? {
      SumAtLeast(s.workers, Uncounted, w);
    }
  }

  lemma CounterWorker(c: Config, s: State, w: nat)
    requires TokenOk(s) && CounterOk(c, s) && Enabled(c, s, WorkerStep(w))
    ensures CounterOk(c, DoWorker(c, s, w))
  {
    RemainingWorker(c, s, w);
    assert !s.workers[w].pc.NotCreated?;
    if s.workers[w].pc.Counting? {
      TokenAtHolder(c, s, w);
    }
  }

  lemma CounterSched(c: Config, s: State)
    requires QueueOk(c, s) && TokenOk(s) && CounterOk(c, s) && Enabled(c, s, SchedStep)
    ensures CounterOk(c, DoSched(c, s))
  {
    if s.sched.Wake? {
      SumUpdate(s.workers, Uncounted, s.sched.w, DoSched(c, s).workers[s.sched.w]);
    }
    if s.sched.SpinQueue? && |s.q| > 0 {
      assert s.workers[s.q[0]].InQueue();
    }
  }

  lemma CounterKept(c: Config, s: State, step: Step)
    requires c.Valid() && Inv(c, s) && Enabled(c, s, step)
    ensures CounterOk(c, Do(c, s, step))
  {
    match step
    case MainStep => CounterMain(c, s);
    case WorkerStep(w) => CounterWorker(c, s, w);
    case SchedStep => CounterSched(c, s);
  }

  // ---- The round-robin position ----

  lemma PositionWorker(c: Config, s: State, w: nat)
    requires QueueOk(c, s) && TokenOk(s) && PositionOk(c, s) && Enabled(c, s, WorkerStep(w)) && !Leaves(c, s, w)
    ensures PositionOk(c, DoWorker(c, s, w))
  {
    if s.workers[w].pc.Inserting? {
      assert w !in s.q;
    } else if !s.workers[w].pc.Entering? {
      TokenAtHolder(c, s, w);
    }
  }

  lemma PositionLeave(c: Config, s: State, w: nat)
    requires QueueOk(c, s) && TokenOk(s) && PositionOk(c, s) && Leaves(c, s, w)
    ensures PositionOk(c, DoWorker(c, s, w))
  {
  }

  lemma PositionWalk(c: Config, s: State)
    requires QueueOk(c, s) && PositionOk(c, s) && Enabled(c, s, SchedStep) && s.sched.Walk?
    ensures PositionOk(c, DoSched(c, s))
  {
  }

  lemma PositionSched(c: Config, s: State)
    requires QueueOk(c, s) && TokenOk(s) && PositionOk(c, s) && Enabled(c, s, SchedStep) && !s.sched.Walk?
    ensures PositionOk(c, DoSched(c, s))
  {
  }

  lemma PositionKept(c: Config, s: State, step: Step)
    requires c.Valid() && Inv(c, s) && Enabled(c, s, step)
    ensures PositionOk(c, Do(c, s, step))
  {
    match step
    case MainStep =>
    case WorkerStep(w) =>
      if Leaves(c, s, w) {
        PositionLeave(c, s, w);
      } else {
        PositionWorker(c, s, w);
      }
    case SchedStep =>
      if s.sched.Walk? {
        PositionWalk(c, s);
      } else {
        PositionSched(c, s);
      }
  }

  lemma StepInv(c: Config, s: State, step: Step)
    requires c.Valid() && Inv(c, s) && Enabled(c, s, step)
    ensures Inv(c, Do(c, s, step))
  {
    QueueKept(c, s, step);
    LoopsKept(c, s, step);
    SlotsKept(c, s, step);
    TokenKept(c, s, step);
    CounterKept(c, s, step);
    PositionKept(c, s, step);
  }

  lemma {:induction false} AlwaysInv(c: Config, schedule: seq<Step>)
    requires c.Valid() && Exec(c, schedule).Some?
    ensures Inv(c, Exec(c, schedule).value)
  {
    if schedule == [] {
      InitInv(c);
    } else {
      AlwaysInv(c, schedule[..|schedule| - 1]);
      StepInv(c, Exec(c, schedule[..|schedule| - 1]).value, schedule[|schedule| - 1]);
    }
  }

  // ---- What the invariant says about every run ----

  lemma {:induction false} SumSingle(ws: seq<Worker>, f: Worker -> nat, w: nat)
    requires w < |ws| && forall v :: 0 <= v < |ws| && v != w ==> f(ws[v]) == 0
    ensures Sum(ws, f) == f(ws[w])
  {
    var n := |ws| - 1;
    if w == n {
      SumConstant(ws[..n], f, 0);
    } else {
      SumSingle(ws[..n], f, w);
    }
  }

  // Pending exec posts, the pending cpu_sem post, the worker that is running and
  // the scheduler being in control add up to one.
  lemma SingleToken(c: Config, schedule: seq<Step>, s: State)
    requires c.Valid() && Exec(c, schedule) == Some(s)
    ensures Sum(s.workers, Pending) + s.cpuSem + Sum(s.workers, Active) + (if s.sched.AwaitCpu? then 0 else 1) == 1
  {
    AlwaysInv(c, schedule);
    if s.sched.AwaitCpu? {
      SumSingle(s.workers, Pending, s.sched.w);
      SumSingle(s.workers, Active, s.sched.w);
    } else {
      SumConstant(s.workers, Pending, 0);
      SumConstant(s.workers, Active, 0);
    }
  }

  // Free slots are conserved, so the queue never outgrows its size.
  lemma SlotConservation(c: Config, schedule: seq<Step>, s: State)
    requires c.Valid() && Exec(c, schedule) == Some(s)
    ensures s.queueSem + |s.q| + Sum(s.workers, Admitted) + Sum(s.workers, Removed) == c.queueSize
    ensures |s.q| <= c.queueSize
  {
    AlwaysInv(c, schedule);
  }

  // While a worker may remove its element or touch the shared counters, the
  // scheduler is blocked waiting for that very worker, and no other worker runs.
  lemma RemovalIsExclusive(c: Config, schedule: seq<Step>, s: State, w: nat)
    requires c.Valid() && Exec(c, schedule) == Some(s) && w < |s.workers| && s.workers[w].HoldsCpu()
    ensures s.sched == AwaitCpu(w) && s.cpuSem == 0
    ensures forall v :: 0 <= v < |s.workers| && v != w ==> !s.workers[v].HoldsCpu()
  {
    AlwaysInv(c, schedule);
    TokenAtHolder(c, s, w);
  }

  // The round-robin walk follows links that exist, and ends on the element at
  // currentPosition, never on NULL.
  lemma WalkNeverNull(c: Config, schedule: seq<Step>, s: State)
    requires c.Valid() && Exec(c, schedule) == Some(s) && s.sched.Walk?
    ensures s.sched.i <= s.currentPosition < |s.q| && s.sched.t == Some(s.q[s.sched.i])
    ensures s.sched.i == s.currentPosition ==> DoSched(c, s).sched == Wake(s.q[s.currentPosition])
  {
    AlwaysInv(c, schedule);
  }

  // The worker that holds the token under round robin sits just before
  // currentPosition until it removes itself.
  lemma HolderPosition(c: Config, schedule: seq<Step>, s: State, w: nat)
    requires c.Valid() && c.policy.RoundRobin? && Exec(c, schedule) == Some(s)
    requires s.sched == AwaitCpu(w) && w in s.q
    ensures 1 <= s.currentPosition <= |s.q| && s.q[s.currentPosition - 1] == w
  {
    AlwaysInv(c, schedule);
    HolderInQueue(c, s, w);
  }

  lemma HolderInQueue(c: Config, s: State, w: nat)
    requires QueueOk(c, s) && PositionOk(c, s) && c.policy.RoundRobin? && s.sched == AwaitCpu(w) && w in s.q
    ensures ServesLast(s, w)
  {
  }
}
