// Progress of the scheduler: no reachable state before the end is stuck, every
// step that is not an idle spin uses up a bounded amount of work, and every
// complete run gives each worker exactly iterations + 1 dispatches.

module SchedProgress {
  import opened Common
  import opened SchedModel
  import opened SchedInvariant
  import opened SchedFifo

  // A look at an empty queue in `wait_for_queue`.
  predicate Idle(s: State, step: Step) {
    step.SchedStep? && s.sched.SpinQueue? && |s.q| == 0
  }

  lemma {:induction false} SumPositive(ws: seq<Worker>, f: Worker -> nat) returns (w: nat)
    requires Sum(ws, f) > 0
    ensures w < |ws| && f(ws[w]) > 0
  {
    w := |ws| - 1;
    if f(ws[w]) == 0 {
      w := SumPositive(ws[..|ws| - 1], f);
    }
  }

  // With the queue empty and the scheduler spinning, some worker can come in.
  lemma SomeoneEnters(c: Config, s: State) returns (step: Step)
    requires c.Valid() && Inv(c, s) && s.sched.SpinQueue? && |s.q| == 0
    ensures Enabled(c, s, step) && !Idle(s, step)
  {
    if s.main.SetCounter? || s.main.k < c.threads {
      step := MainStep;
    } else {
      var w := SumPositive(s.workers, Uncounted);
      assert Quiet(s.workers[w]);
      assert s.workers[w].pc.Entering? || s.workers[w].pc.Inserting?;
      if Sum(s.workers, Admitted) > 0 {
        w := SumPositive(s.workers, Admitted);
      } else {
        SumAtLeast(s.workers, Admitted, w);
        if Sum(s.workers, Removed) > 0 {
          var v := SumPositive(s.workers, Removed);
          assert Quiet(s.workers[v]);
        }
      }
      step := WorkerStep(w);
    }
  }

  lemma NeverStuck(c: Config, schedule: seq<Step>, s: State) returns (step: Step)
    requires c.Valid() && Exec(c, schedule) == Some(s) && !s.sched.Finished?
    ensures Enabled(c, s, step) && !Idle(s, step)
  {
    AlwaysInv(c, schedule);
    if s.sched.SpinQueue? && |s.q| == 0 {
      step := SomeoneEnters(c, s);
    } else if s.sched.AwaitCpu? && s.cpuSem == 0 {
      step := WorkerStep(s.sched.w);
    } else {
      step := SchedStep;
    }
  }

  // ---- Work left ----

  // The steps a worker has left.
  function StepsLeft(c: Config, w: Worker): nat {
    var loops := if w.done <= c.iterations then 2 * (c.iterations - w.done) else 0;
    match w.pc
    case NotCreated => 9 + loops
    case Entering => 8 + loops
    case Inserting => 7 + loops
    case Waiting => 6 + loops
    case Running => 5 + loops
    case Posting => 4
    case Adjusting => 3
    case Counting => 2
    case Releasing => 1
    case Exited => 0
  }

  // The dispatches a worker has left.
  function SlicesLeft(c: Config, w: Worker): nat {
    if Served(w) <= c.iterations + 1 then c.iterations + 1 - Served(w) else 0
  }

  function StepsOf(c: Config): Worker -> nat { w => StepsLeft(c, w) }
  function SlicesOf(c: Config): Worker -> nat { w => SlicesLeft(c, w) }

  // How far the scheduler is from its next choice, or from its next wait.
  function Rank(c: Config, s: State): nat {
    var empty := |s.q| == 0;
    match s.sched
    case Finished => 0
    case Walk(i, _) => if s.currentPosition > i then s.currentPosition - i else 0
    case CheckWrap => c.queueSize + 1
    case CheckEmpty => c.queueSize + if empty then 6 else 2
    case CheckRemaining => c.queueSize + if empty then 7 else 3
    case SpinQueue => c.queueSize + if empty then 5 else 4
    case AwaitCpu(_) => c.queueSize + 8
    case Wake(_) => c.queueSize + 9
  }

  function DispatchesLeft(c: Config, s: State): int {
    Sum(s.workers, SlicesOf(c)) - if s.sched.Wake? then 1 else 0
  }

  function Rest(c: Config, s: State): nat {
    Rank(c, s) + Sum(s.workers, StepsOf(c)) + if s.main.SetCounter? then 1 else 0
  }

  // All the work left, in steps that are not idle spins.
  function Work(c: Config, s: State): int {
    DispatchesLeft(c, s) * (c.queueSize + 10) + Rest(c, s)
  }

  lemma SlicesNonNegative(c: Config, s: State)
    requires TokenOk(s) && LoopsOk(c, s)
    ensures DispatchesLeft(c, s) >= 0
  {
    if s.sched.Wake? {
      assert LoopOk(c, s.workers[s.sched.w]) && Quiet(s.workers[s.sched.w]);
      SumAtLeast(s.workers, SlicesOf(c), s.sched.w);
    }
  }

  lemma WorkerAdvances(c: Config, s: State, w: nat)
    requires TokenOk(s) && LoopsOk(c, s) && Enabled(c, s, WorkerStep(w))
    ensures StepsLeft(c, DoWorker(c, s, w).workers[w]) < StepsLeft(c, s.workers[w])
  {
  }

  // A worker takes away from the queue or the position only while the scheduler
  // is blocked, so it never sends the scheduler back.
  lemma RankKept(c: Config, s: State, w: nat)
    requires TokenOk(s) && Enabled(c, s, WorkerStep(w))
    ensures Rank(c, DoWorker(c, s, w)) <= Rank(c, s)
  {
  }

  lemma WorkerSpends(c: Config, s: State, w: nat)
    requires c.Valid() && TokenOk(s) && LoopsOk(c, s) && Enabled(c, s, WorkerStep(w))
    ensures DispatchesLeft(c, DoWorker(c, s, w)) == DispatchesLeft(c, s) && Rest(c, DoWorker(c, s, w)) < Rest(c, s)
  {
    var t := DoWorker(c, s, w);
    ServedSame(c, s, w);
    WorkerAdvances(c, s, w);
    RankKept(c, s, w);
    SpendAt(c, s, t, w);
  }

  lemma SpendAt(c: Config, s: State, t: State, w: nat)
    requires w < |s.workers| == |t.workers| && t.workers == s.workers[w := t.workers[w]]
    requires t.sched == s.sched && t.main == s.main && Rank(c, t) <= Rank(c, s)
    requires Served(t.workers[w]) == Served(s.workers[w]) && StepsLeft(c, t.workers[w]) < StepsLeft(c, s.workers[w])
    ensures DispatchesLeft(c, t) == DispatchesLeft(c, s) && Rest(c, t) < Rest(c, s)
  {
    SumUpdate(s.workers, StepsOf(c), w, t.workers[w]);
    SumUpdate(s.workers, SlicesOf(c), w, t.workers[w]);
  }

  lemma MainSpends(c: Config, s: State)
    requires c.Valid() && LoopsOk(c, s) && CounterOk(c, s) && |s.workers| == c.threads && Enabled(c, s, MainStep)
    ensures DispatchesLeft(c, DoMain(c, s)) == DispatchesLeft(c, s) && Rest(c, DoMain(c, s)) < Rest(c, s)
  {
    if s.main.Creating? {
      var k := s.main.k;
      assert LoopOk(c, s.workers[k]);
      SumUpdate(s.workers, StepsOf(c), k, DoMain(c, s).workers[k]);
      SumUpdate(s.workers, SlicesOf(c), k, DoMain(c, s).workers[k]);
    }
  }

  // The scheduler either comes closer to its next choice, or chooses and so
  // uses up one dispatch.
  lemma SchedSpends(c: Config, s: State)
    requires c.Valid() && SlotsOk(c, s) && TokenOk(s) && PositionOk(c, s)
    requires Enabled(c, s, SchedStep) && !Idle(s, SchedStep) && !s.sched.Wake?
    ensures var t := DoSched(c, s);
            || (DispatchesLeft(c, t) == DispatchesLeft(c, s) && Rest(c, t) < Rest(c, s))
            || (DispatchesLeft(c, t) == DispatchesLeft(c, s) - 1 && Rest(c, t) < Rest(c, s) + c.queueSize + 10)
  {
    var t := DoSched(c, s);
    assert |s.q| <= c.queueSize && t.workers == s.workers && t.main == s.main;
    assert if t.sched.Wake? then Rank(c, t) < Rank(c, s) + c.queueSize + 10 else Rank(c, t) < Rank(c, s);
  }

  lemma WakeSpends(c: Config, s: State)
    requires c.Valid() && LoopsOk(c, s) && TokenOk(s) && Enabled(c, s, SchedStep) && s.sched.Wake?
    ensures DispatchesLeft(c, DoSched(c, s)) == DispatchesLeft(c, s) && Rest(c, DoSched(c, s)) < Rest(c, s)
  {
    var w := s.sched.w;
    assert LoopOk(c, s.workers[w]) && Quiet(s.workers[w]);
    HandOver(c, s, DoSched(c, s), w, s.workers[w].(exec := 1));
  }

  lemma HandOver(c: Config, s: State, t: State, w: nat, x: Worker)
    requires w < |s.workers| && t.workers == s.workers[w := x]
    requires s.sched == Wake(w) && t.sched == AwaitCpu(w) && t.main == s.main
    requires Served(s.workers[w]) <= c.iterations && Served(x) == Served(s.workers[w]) + 1
    requires StepsLeft(c, x) == StepsLeft(c, s.workers[w])
    ensures DispatchesLeft(c, t) == DispatchesLeft(c, s) && Rest(c, t) < Rest(c, s)
  {
    SumUpdate(s.workers, StepsOf(c), w, x);
    SumUpdate(s.workers, SlicesOf(c), w, x);
  }

  lemma Weigh(slices: int, rest: int, slices': int, rest': int, unit: nat)
    requires (slices' == slices && rest' < rest) || (slices' == slices - 1 && rest' < rest + unit)
    ensures slices' * unit + rest' < slices * unit + rest
  {
  }

  lemma BusyStepSpends(c: Config, s: State, step: Step)
    requires c.Valid() && Inv(c, s) && Enabled(c, s, step) && !Idle(s, step)
    ensures var t := Do(c, s, step);
            || (DispatchesLeft(c, t) == DispatchesLeft(c, s) && Rest(c, t) < Rest(c, s))
            || (DispatchesLeft(c, t) == DispatchesLeft(c, s) - 1 && Rest(c, t) < Rest(c, s) + c.queueSize + 10)
  {
    match step
    case MainStep => MainSpends(c, s);
    case WorkerStep(w) => WorkerSpends(c, s, w);
    case SchedStep =>
      if s.sched.Wake? {
        WakeSpends(c, s);
      } else {
        SchedSpends(c, s);
      }
  }

  // Every step that is not an idle spin uses up work; an idle spin changes nothing.
  lemma StepSpends(c: Config, s: State, step: Step)
    requires c.Valid() && Inv(c, s) && Enabled(c, s, step)
    ensures if Idle(s, step) then Do(c, s, step) == s else Work(c, Do(c, s, step)) < Work(c, s)
  {
    if !Idle(s, step) {
      BusyStepSpends(c, s, step);
      WorkDrops(c, s, Do(c, s, step));
    }
  }

  lemma WorkDrops(c: Config, s: State, t: State)
    requires || (DispatchesLeft(c, t) == DispatchesLeft(c, s) && Rest(c, t) < Rest(c, s))
             || (DispatchesLeft(c, t) == DispatchesLeft(c, s) - 1 && Rest(c, t) < Rest(c, s) + c.queueSize + 10)
    ensures Work(c, t) < Work(c, s)
  {
    Weigh(DispatchesLeft(c, s), Rest(c, s), DispatchesLeft(c, t), Rest(c, t), c.queueSize + 10);
  }

  lemma WorkNonNegative(c: Config, s: State)
    requires TokenOk(s) && LoopsOk(c, s)
    ensures Work(c, s) >= 0
  {
    SlicesNonNegative(c, s);
    Product(DispatchesLeft(c, s), c.queueSize + 10);
  }

  lemma Product(a: nat, b: nat)
    ensures a * b >= 0
  {
  }

  // The steps of a schedule that are not idle spins.
  function BusySteps(c: Config, schedule: seq<Step>): nat {
    if schedule == [] then 0
    else
      var before := Exec(c, schedule[..|schedule| - 1]);
      BusySteps(c, schedule[..|schedule| - 1]) +
      if before.Some? && !Idle(before.value, schedule[|schedule| - 1]) then 1 else 0
  }

  // The work a fresh system has to do.
  function TotalWork(c: Config): int {
    c.threads * (c.iterations + 1) * (c.queueSize + 10) + c.queueSize + 6 + c.threads * (9 + 2 * c.iterations)
  }

  lemma InitWork(c: Config)
    ensures Work(c, Init(c)) == TotalWork(c)
  {
    var ws := Init(c).workers;
    SumConstant(ws, SlicesOf(c), c.iterations + 1);
    SumConstant(ws, StepsOf(c), 9 + 2 * c.iterations);
  }

  // Every run, whatever the interleaving, has a bounded number of steps besides
  // idle spins.
  lemma {:induction false} BusyStepsCharged(c: Config, schedule: seq<Step>)
    requires c.Valid() && Exec(c, schedule).Some?
    ensures BusySteps(c, schedule) + Work(c, Exec(c, schedule).value) <= TotalWork(c)
  {
    if schedule == [] {
      InitWork(c);
    } else {
      var before := schedule[..|schedule| - 1];
      AlwaysInv(c, before);
      BusyStepsCharged(c, before);
      StepSpends(c, Exec(c, before).value, schedule[|schedule| - 1]);
    }
  }

  lemma BusyStepsBounded(c: Config, schedule: seq<Step>)
    requires c.Valid() && Exec(c, schedule).Some?
    ensures BusySteps(c, schedule) <= TotalWork(c)
  {
    AlwaysInv(c, schedule);
    BusyStepsCharged(c, schedule);
    WorkNonNegative(c, Exec(c, schedule).value);
  }

  lemma ExecExtends(c: Config, schedule: seq<Step>, step: Step)
    requires Exec(c, schedule).Some? && Enabled(c, Exec(c, schedule).value, step)
    ensures Exec(c, schedule + [step]) == Some(Do(c, Exec(c, schedule).value, step))
  {
  }

  // From every reachable state the scheduler can still come to its end.
  lemma {:induction false} CanFinish(c: Config, schedule: seq<Step>) returns (full: seq<Step>)
    requires c.Valid() && Exec(c, schedule).Some?
    ensures schedule <= full && Exec(c, full).Some? && Exec(c, full).value.sched.Finished?
    decreases if Exec(c, schedule).Some? then Work(c, Exec(c, schedule).value) else 0
  {
    var s := Exec(c, schedule).value;
    if s.sched.Finished? {
      full := schedule;
    } else {
      AlwaysInv(c, schedule);
      WorkNonNegative(c, s);
      var step := NeverStuck(c, schedule, s);
      StepSpends(c, s, step);
      ExecExtends(c, schedule, step);
      full := CanFinish(c, schedule + [step]);
    }
  }

  // Not yet admitted.
  predicate Waits(w: Worker) {
    w.pc.NotCreated? || w.pc.Entering?
  }

  // Without a queue slot nobody is admitted; without a worker nobody comes.
  ghost predicate Barren(c: Config, s: State) {
    && s.sched.SpinQueue? && s.q == [] && |s.workers| == c.threads
    && (c.threads == 0 || s.queueSem == 0)
    && forall w :: 0 <= w < |s.workers| ==> Waits(s.workers[w])
  }

  lemma StaysBarren(c: Config, s: State, step: Step)
    requires Barren(c, s) && Enabled(c, s, step)
    ensures Barren(c, Do(c, s, step))
  {
  }

  lemma {:induction false} AlwaysBarren(c: Config, schedule: seq<Step>)
    requires (c.threads == 0 || c.queueSize == 0) && Exec(c, schedule).Some?
    ensures Barren(c, Exec(c, schedule).value)
  {
    if schedule != [] {
      AlwaysBarren(c, schedule[..|schedule| - 1]);
      StaysBarren(c, Exec(c, schedule[..|schedule| - 1]).value, schedule[|schedule| - 1]);
    }
  }

  // A run can complete if and only if there is a worker and a slot for it.
  lemma FinishesIff(c: Config)
    ensures (exists schedule :: Exec(c, schedule).Some? && Exec(c, schedule).value.sched.Finished?) <==> c.Valid()
  {
    if c.Valid() {
      var full := CanFinish(c, []);
      assert Exec(c, full).Some? && Exec(c, full).value.sched.Finished?;
    } else {
      forall schedule | Exec(c, schedule).Some?
        ensures !Exec(c, schedule).value.sched.Finished?
      {
        AlwaysBarren(c, schedule);
      }
    }
  }

  // ---- Dispatch counts ----

  ghost function Count(log: seq<Dispatch>, w: nat): nat {
    if log == [] then 0 else Count(log[..|log| - 1], w) + if log[|log| - 1].worker == w then 1 else 0
  }

  // Every dispatch in the log has been or is about to be received.
  ghost predicate CountOk(s: State, w: nat)
    requires w < |s.workers|
  {
    Count(s.log, w) == Served(s.workers[w]) + if s.sched == Wake(w) then 1 else 0
  }

  ghost predicate CountsOk(s: State) {
    && |s.log| == Sum(s.workers, Served) + (if s.sched.Wake? then 1 else 0)
    && forall w :: 0 <= w < |s.workers| ==> CountOk(s, w)
  }

  lemma CountsWorker(c: Config, s: State, w: nat)
    requires TokenOk(s) && LoopsOk(c, s) && CountsOk(s) && Enabled(c, s, WorkerStep(w))
    ensures CountsOk(DoWorker(c, s, w))
  {
    ServedSame(c, s, w);
    SumUpdate(s.workers, Served, w, DoWorker(c, s, w).workers[w]);
    var t := DoWorker(c, s, w);
    assert t.workers == s.workers[w := t.workers[w]] && t.log == s.log && t.sched == s.sched;
    forall v | 0 <= v < |t.workers| ensures CountOk(t, v) {
      assert CountOk(s, v);
    }
  }

  lemma CountsSched(c: Config, s: State)
    requires QueueOk(c, s) && TokenOk(s) && PositionOk(c, s) && CountsOk(s) && Enabled(c, s, SchedStep)
    ensures CountsOk(DoSched(c, s))
  {
    var t := DoSched(c, s);
    if s.sched.Wake? {
      SumUpdate(s.workers, Served, s.sched.w, t.workers[s.sched.w]);
    }
    forall v | 0 <= v < |t.workers| ensures CountOk(t, v) {
      assert CountOk(s, v);
      if t.sched.Wake? {
        assert t.log[..|t.log| - 1] == s.log;
      }
    }
  }

  lemma CountsMain(c: Config, s: State)
    requires CounterOk(c, s) && CountsOk(s) && Enabled(c, s, MainStep)
    ensures CountsOk(DoMain(c, s))
  {
    var t := DoMain(c, s);
    if s.main.Creating? {
      SumUpdate(s.workers, Served, s.main.k, t.workers[s.main.k]);
    }
    forall v | 0 <= v < |t.workers| ensures CountOk(t, v) {
      assert CountOk(s, v);
    }
  }

  lemma {:induction false} CountsAlways(c: Config, schedule: seq<Step>)
    requires c.Valid() && Exec(c, schedule).Some?
    ensures CountsOk(Exec(c, schedule).value)
  {
    if schedule == [] {
      SumConstant(Init(c).workers, Served, 0);
      forall w | 0 <= w < c.threads ensures CountOk(Init(c), w) {
      }
    } else {
      var before := schedule[..|schedule| - 1];
      var s := Exec(c, before).value;
      AlwaysInv(c, before);
      CountsAlways(c, before);
      match schedule[|schedule| - 1] {
        case MainStep => CountsMain(c, s);
        case WorkerStep(w) => CountsWorker(c, s, w);
        case SchedStep => CountsSched(c, s);
      }
    }
  }

  lemma AllExited(c: Config, s: State)
    requires Inv(c, s) && CountsOk(s) && s.sched.Finished?
    ensures |s.workers| == c.threads
    ensures forall w :: 0 <= w < c.threads ==>
              s.workers[w].pc.Exited? && Served(s.workers[w]) == c.iterations + 1 && Count(s.log, w) == c.iterations + 1
  {
    forall w | 0 <= w < c.threads
      ensures s.workers[w].pc.Exited? && Served(s.workers[w]) == c.iterations + 1 && Count(s.log, w) == c.iterations + 1
    {
      SumAtLeast(s.workers, Uncounted, w);
      assert Quiet(s.workers[w]) && LoopOk(c, s.workers[w]) && CountOk(s, w);
    }
  }

  lemma HeadQueued(c: Config, s: State)
    requires QueueOk(c, s)
    ensures |s.q| > 0 ==> s.q[0] < |s.workers| && s.workers[s.q[0]].InQueue()
  {
  }

  lemma EmptyAtEnd(c: Config, s: State)
    requires QueueOk(c, s) && SlotsOk(c, s) && forall w :: 0 <= w < |s.workers| ==> s.workers[w].pc.Exited?
    ensures s.q == [] && s.queueSem == c.queueSize
  {
    HeadQueued(c, s);
    SumConstant(s.workers, Admitted, 0);
    SumConstant(s.workers, Removed, 0);
  }

  lemma FinishedState(c: Config, s: State)
    requires Inv(c, s) && CountsOk(s) && s.sched.Finished?
    ensures |s.workers| == c.threads
    ensures s.q == [] && s.queueSem == c.queueSize
    ensures forall w :: 0 <= w < c.threads ==> s.workers[w].pc.Exited? && Count(s.log, w) == c.iterations + 1
    ensures |s.log| == c.threads * (c.iterations + 1)
  {
    AllExited(c, s);
    EmptyAtEnd(c, s);
    SumConstant(s.workers, Served, c.iterations + 1);
  }

  // The theorem about complete runs.
  lemma CompleteRun(c: Config, schedule: seq<Step>, s: State)
    requires c.Valid() && Exec(c, schedule) == Some(s) && s.sched.Finished?
    ensures |s.workers| == c.threads
    ensures s.q == [] && s.queueSem == c.queueSize
    ensures forall w :: 0 <= w < c.threads ==> s.workers[w].pc.Exited? && Count(s.log, w) == c.iterations + 1
    ensures |s.log| == c.threads * (c.iterations + 1)
  {
    AlwaysInv(c, schedule);
    CountsAlways(c, schedule);
    FinishedState(c, s);
  }
}
