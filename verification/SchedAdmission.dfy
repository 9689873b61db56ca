// Who may run when: in every reachable state, exactly which steps are enabled,
// what the history variables record, and that the queue can be filled.

module SchedAdmission {
  import opened Common
  import opened SchedModel
  import opened SchedInvariant
  import opened SchedProgress

  // A worker is let into the queue exactly while slots are left: those taken by
  // the queue, by workers on their way in and by workers on their way out count.
  lemma EntersIff(c: Config, schedule: seq<Step>, s: State, w: nat)
    requires c.Valid() && Exec(c, schedule) == Some(s) && w < |s.workers| && s.workers[w].pc.Entering?
    ensures Enabled(c, s, WorkerStep(w)) <==> |s.q| + Sum(s.workers, Admitted) + Sum(s.workers, Removed) < c.queueSize
  {
    AlwaysInv(c, schedule);
  }

  // Once let in, it goes to the tail of the queue whatever the scheduler is doing.
  lemma Inserts(c: Config, schedule: seq<Step>, s: State, w: nat)
    requires c.Valid() && Exec(c, schedule) == Some(s) && w < |s.workers| && s.workers[w].pc.Inserting?
    ensures Enabled(c, s, WorkerStep(w)) && w !in s.q
    ensures var t := Do(c, s, WorkerStep(w)); t.q == s.q + [w] && t.sched == s.sched && t.workers[w].pc.Waiting?
  {
    AlwaysInv(c, schedule);
  }

  // In the queue, it can go on exactly when the scheduler has chosen it and not
  // got the cpu back.
  lemma WakesIff(c: Config, schedule: seq<Step>, s: State, w: nat)
    requires c.Valid() && Exec(c, schedule) == Some(s) && w < |s.workers| && s.workers[w].InQueue()
    ensures Enabled(c, s, WorkerStep(w)) <==> s.sched == AwaitCpu(w) && s.cpuSem == 0
  {
    AlwaysInv(c, schedule);
  }

  // On its way out it is never held up, and outside it never runs.
  lemma LeavesIff(c: Config, s: State, w: nat)
    requires w < |s.workers| && s.workers[w].pc !in {Entering, Inserting, Waiting, Running}
    ensures Enabled(c, s, WorkerStep(w)) <==> s.workers[w].HoldsCpu()
  {
  }

  // The scheduler waits for nothing but the worker it has chosen.
  lemma SchedulesIff(c: Config, schedule: seq<Step>, s: State)
    requires c.Valid() && Exec(c, schedule) == Some(s)
    ensures Enabled(c, s, SchedStep) <==>
            !s.sched.Finished? && forall w :: 0 <= w < |s.workers| && s.sched == AwaitCpu(w) ==> Quiet(s.workers[w])
  {
    AlwaysInv(c, schedule);
  }

  // The main thread goes on until every worker is created.
  lemma CreatesIff(c: Config, schedule: seq<Step>, s: State)
    requires c.Valid() && Exec(c, schedule) == Some(s)
    ensures Enabled(c, s, MainStep) <==> exists w :: 0 <= w < |s.workers| && s.workers[w].pc.NotCreated?
  {
    AlwaysInv(c, schedule);
    if s.main.SetCounter? {
      assert s.workers[0].pc.NotCreated?;
    } else if s.main.k < c.threads {
      assert s.workers[s.main.k].pc.NotCreated?;
    }
  }

  // What the history variables must record of a step: who joined the queue, who
  // left it, and whom the scheduler chose from which queue.
  ghost predicate JoinRecorded(s: State, t: State) {
    if |t.q| > |s.q| then t.q == s.q + [t.q[|s.q|]] && t.inserted == s.inserted + [t.q[|s.q|]]
    else t.inserted == s.inserted
  }

  ghost predicate LeaveRecorded(s: State, t: State) {
    if |t.q| < |s.q| then exists w :: w in s.q && w !in t.q && t.left == s.left + [w]
    else t.left == s.left
  }

  ghost predicate ChoiceRecorded(s: State, t: State) {
    if t.sched.Wake? && !s.sched.Wake? then t.sched.w in s.q && t.log == s.log + [Dispatch(t.sched.w, s.q)]
    else t.log == s.log
  }

  lemma LeaverRecorded(c: Config, s: State, w: nat)
    requires QueueOk(c, s) && Leaves(c, s, w)
    ensures LeaveRecorded(s, DoWorker(c, s, w)) && |DoWorker(c, s, w).q| < |s.q|
  {
  }

  lemma WorkerRecorded(c: Config, s: State, w: nat)
    requires QueueOk(c, s) && Enabled(c, s, WorkerStep(w))
    ensures JoinRecorded(s, DoWorker(c, s, w)) && LeaveRecorded(s, DoWorker(c, s, w))
  {
  }

  lemma SchedRecorded(c: Config, s: State)
    requires QueueOk(c, s) && PositionOk(c, s) && Enabled(c, s, SchedStep)
    ensures ChoiceRecorded(s, DoSched(c, s))
  {
  }

  lemma HistoriesRecord(c: Config, schedule: seq<Step>, s: State, step: Step)
    requires c.Valid() && Exec(c, schedule) == Some(s) && Enabled(c, s, step)
    ensures JoinRecorded(s, Do(c, s, step)) && LeaveRecorded(s, Do(c, s, step)) && ChoiceRecorded(s, Do(c, s, step))
  {
    AlwaysInv(c, schedule);
    match step
    case MainStep =>
    case WorkerStep(w) => WorkerRecorded(c, s, w);
    case SchedStep => SchedRecorded(c, s);
  }

  // ---- Filling the queue ----

  function FirstNumbers(k: nat): seq<nat> {
    seq(k, i => i)
  }

  // The first k workers are in the queue and the scheduler has not moved.
  function Filled(c: Config, k: nat): State
    requires k <= c.threads && k <= c.queueSize
  {
    Init(c).(main := Creating(k), remaining := c.threads, queueSem := c.queueSize - k,
             q := FirstNumbers(k), inserted := FirstNumbers(k),
             workers := seq(c.threads, i => Worker(if i < k then Waiting else NotCreated, 0, 0)))
  }

  // Every slot can be in use at once: some schedule fills the queue with as many
  // workers as there are threads and slots for.
  lemma {:induction false} FillsQueue(c: Config, k: nat) returns (schedule: seq<Step>, s: State)
    requires k <= c.threads && k <= c.queueSize
    ensures Exec(c, schedule) == Some(s) && s == Filled(c, k) && |s.q| == k
  {
    if k == 0 {
      schedule := [] + [MainStep];
      ExecExtends(c, [], MainStep);
      s := DoMain(c, Init(c));
      assert s.workers == Filled(c, 0).workers;
    } else {
      schedule, s := FillsQueue(c, k - 1);
      schedule, s := LetIn(c, schedule, s, k - 1);
    }
  }

  lemma LetIn(c: Config, schedule: seq<Step>, s: State, w: nat) returns (longer: seq<Step>, t: State)
    requires w < c.threads && w < c.queueSize && Exec(c, schedule) == Some(s) && s == Filled(c, w)
    ensures Exec(c, longer) == Some(t) && t == Filled(c, w + 1)
  {
    LetInSteps(c, s, w);
    t := Filled(c, w + 1);
    longer := schedule + [MainStep];
    ExecExtends(c, schedule, MainStep);
    longer := longer + [WorkerStep(w)] + [WorkerStep(w)];
    WorkerTwice(c, schedule + [MainStep], DoMain(c, s), w);
  }

  lemma WorkerTwice(c: Config, schedule: seq<Step>, s: State, w: nat)
    requires Exec(c, schedule) == Some(s) && Enabled(c, s, WorkerStep(w)) && Enabled(c, DoWorker(c, s, w), WorkerStep(w))
    ensures Exec(c, schedule + [WorkerStep(w)] + [WorkerStep(w)]) == Some(DoWorker(c, DoWorker(c, s, w), w))
  {
  }

  lemma LetInSteps(c: Config, s: State, w: nat)
    requires w < c.threads && w < c.queueSize && s == Filled(c, w)
    ensures Enabled(c, s, MainStep) && Enabled(c, DoMain(c, s), WorkerStep(w))
    ensures Enabled(c, DoWorker(c, DoMain(c, s), w), WorkerStep(w))
    ensures DoWorker(c, DoWorker(c, DoMain(c, s), w), w) == Filled(c, w + 1)
  {
  }

  lemma FullQueueReachable(c: Config) returns (schedule: seq<Step>, s: State)
    requires c.Valid()
    ensures Exec(c, schedule) == Some(s) && |s.q| == if c.threads < c.queueSize then c.threads else c.queueSize
  {
    schedule, s := FillsQueue(c, if c.threads < c.queueSize then c.threads else c.queueSize);
  }
}
