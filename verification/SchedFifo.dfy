// The FIFO policy over every run: worker number n to be inserted receives
// dispatches n * (iterations + 1) up to (n + 1) * (iterations + 1), and workers
// leave in the order they were inserted.

module SchedFifo {
  import opened Common
  import opened SchedModel
  import opened SchedInvariant

  // How many dispatches a worker has been woken for.
  function Served(w: Worker): nat {
    match w.pc
    case NotCreated | Entering | Inserting => 0
    case Waiting => w.done + w.exec
    case _ => w.done + 1
  }

  // The dispatches of the worker at the head of the queue, counting one that has
  // been chosen but not yet woken.
  function HeadServed(s: State): nat {
    if |s.q| == 0 || s.q[0] >= |s.workers| then 0
    else Served(s.workers[s.q[0]]) + if s.sched.Wake? then 1 else 0
  }

  function Slices(c: Config): nat {
    c.iterations + 1
  }

  // The first dispatches fill the turns of the workers that left; the rest
  // belong to the head of the queue, and nobody behind it has been served.
  ghost predicate TurnsOk(c: Config, s: State) {
    && s.inserted == s.left + s.q
    && |s.log| == |s.left| * Slices(c) + HeadServed(s)
    && (forall i :: 1 <= i < |s.q| ==> s.q[i] < |s.workers| && Served(s.workers[s.q[i]]) == 0)
  }

  ghost predicate InTurn(c: Config, log: seq<Dispatch>, inserted: seq<nat>) {
    forall j :: 0 <= j < |log| ==> j / Slices(c) < |inserted| && log[j].worker == inserted[j / Slices(c)]
  }

  lemma MulAtLeast(a: nat, b: nat, slices: nat)
    requires a < b
    ensures a * slices + slices <= b * slices
  {
    assert b * slices == a * slices + (b - a) * slices;
    assert (b - a) * slices == slices + (b - a - 1) * slices;
  }

  lemma QuotientUnique(q: nat, r: nat, turns: nat, served: nat, slices: nat)
    requires r < slices && served < slices && q * slices + r == turns * slices + served
    ensures q == turns
  {
    if q < turns {
      MulAtLeast(q, turns, slices);
    } else if turns < q {
      MulAtLeast(turns, q, slices);
    }
  }

  lemma TurnOf(turns: nat, slices: nat, served: nat)
    requires served < slices
    ensures (turns * slices + served) / slices == turns
  {
    var n := turns * slices + served;
    QuotientUnique(n / slices, n % slices, turns, served, slices);
  }

  lemma ServedSame(c: Config, s: State, w: nat)
    requires TokenOk(s) && LoopsOk(c, s) && Enabled(c, s, WorkerStep(w))
    ensures Served(DoWorker(c, s, w).workers[w]) == Served(s.workers[w])
  {
  }

  lemma TurnsInsert(c: Config, s: State, w: nat)
    requires QueueOk(c, s) && TokenOk(s) && LoopsOk(c, s) && PositionOk(c, s) && c.policy.Fifo?
    requires TurnsOk(c, s) && Enabled(c, s, WorkerStep(w)) && s.workers[w].pc.Inserting?
    ensures TurnsOk(c, DoWorker(c, s, w))
  {
  }

  // Under FIFO the worker that leaves is the head, and its turn is used up.
  lemma HeadLeaves(c: Config, s: State, w: nat)
    requires QueueOk(c, s) && TokenOk(s) && LoopsOk(c, s) && PositionOk(c, s) && c.policy.Fifo? && Leaves(c, s, w)
    ensures s.sched == AwaitCpu(w) && |s.q| > 0 && s.q[0] == w && DoWorker(c, s, w).q == s.q[1..]
    ensures Served(s.workers[w]) == Slices(c)
  {
  }

  lemma TurnsLeave(c: Config, s: State, t: State)
    requires QueueOk(c, s) && TurnsOk(c, s) && !s.sched.Wake? && |s.q| > 0 && Served(s.workers[s.q[0]]) == Slices(c)
    requires t.q == s.q[1..] && t.left == s.left + [s.q[0]] && t.log == s.log && t.inserted == s.inserted && t.sched == s.sched
    requires |t.workers| == |s.workers| && forall v :: 0 <= v < |s.workers| && v != s.q[0] ==> t.workers[v] == s.workers[v]
    ensures TurnsOk(c, t)
  {
  }

  lemma TurnsSame(c: Config, s: State, w: nat)
    requires QueueOk(c, s) && TokenOk(s) && LoopsOk(c, s)
    requires TurnsOk(c, s) && Enabled(c, s, WorkerStep(w)) && !s.workers[w].pc.Inserting? && !Leaves(c, s, w)
    ensures TurnsOk(c, DoWorker(c, s, w))
  {
    ServedSame(c, s, w);
    var t := DoWorker(c, s, w);
    assert forall v :: 0 <= v < |s.workers| ==> Served(t.workers[v]) == Served(s.workers[v]);
  }

  lemma TurnsSched(c: Config, s: State)
    requires QueueOk(c, s) && TokenOk(s) && PositionOk(c, s) && c.policy.Fifo?
    requires TurnsOk(c, s) && Enabled(c, s, SchedStep)
    ensures TurnsOk(c, DoSched(c, s))
  {
  }

  lemma TurnsMain(c: Config, s: State)
    requires QueueOk(c, s) && CounterOk(c, s) && TurnsOk(c, s) && Enabled(c, s, MainStep)
    ensures TurnsOk(c, DoMain(c, s))
  {
  }

  lemma TurnsKept(c: Config, s: State, step: Step)
    requires c.Valid() && c.policy.Fifo? && Inv(c, s) && TurnsOk(c, s) && Enabled(c, s, step)
    ensures TurnsOk(c, Do(c, s, step))
  {
    match step
    case MainStep => TurnsMain(c, s);
    case SchedStep => TurnsSched(c, s);
    case WorkerStep(w) =>
      if s.workers[w].pc.Inserting? {
        TurnsInsert(c, s, w);
      } else if Leaves(c, s, w) {
        HeadLeaves(c, s, w);
        TurnsLeave(c, s, DoWorker(c, s, w));
      } else {
        TurnsSame(c, s, w);
      }
  }

  // A new entry of the log goes to the worker whose turn it is.
  lemma InTurnKept(c: Config, s: State, step: Step)
    requires c.policy.Fifo? && QueueOk(c, s) && LoopsOk(c, s) && TokenOk(s) && PositionOk(c, s)
    requires TurnsOk(c, s) && InTurn(c, s.log, s.inserted) && Enabled(c, s, step)
    ensures InTurn(c, Do(c, s, step).log, Do(c, s, step).inserted)
  {
    if step.SchedStep? && s.sched.CheckEmpty? && |s.q| > 0 {
      var head := s.q[0];
      assert LoopOk(c, s.workers[head]) && Quiet(s.workers[head]);
      TurnOf(|s.left|, Slices(c), HeadServed(s));
      assert s.inserted[|s.left|] == head;
    }
  }

  lemma {:induction false} FifoAlways(c: Config, schedule: seq<Step>)
    requires c.Valid() && c.policy.Fifo? && Exec(c, schedule).Some?
    ensures TurnsOk(c, Exec(c, schedule).value)
    ensures InTurn(c, Exec(c, schedule).value.log, Exec(c, schedule).value.inserted)
  {
    if schedule != [] {
      var before := schedule[..|schedule| - 1];
      AlwaysInv(c, before);
      FifoAlways(c, before);
      TurnsKept(c, Exec(c, before).value, schedule[|schedule| - 1]);
      InTurnKept(c, Exec(c, before).value, schedule[|schedule| - 1]);
    }
  }

  // The theorem: dispatch j goes to worker j / (iterations + 1) in insertion
  // order, so each worker's dispatches are consecutive, and workers leave in
  // insertion order.
  lemma FifoOrder(c: Config, schedule: seq<Step>, s: State)
    requires c.Valid() && c.policy.Fifo? && Exec(c, schedule) == Some(s)
    ensures InTurn(c, s.log, s.inserted)
    ensures s.left <= s.inserted
  {
    FifoAlways(c, schedule);
  }
}
