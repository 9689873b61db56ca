// Round-robin fairness over every run: between two consecutive dispatches of a
// worker no other worker is dispatched twice, and every worker queued throughout
// is dispatched exactly once.

module SchedRoundRobin {
  import opened Common
  import opened SchedModel
  import opened SchedInvariant

  // Entry a is the last dispatch of its worker.
  ghost predicate IsLast(log: seq<Dispatch>, a: nat)
    requires a < |log|
  {
    forall b :: a < b < |log| ==> log[b].worker != log[a].worker
  }

  ghost predicate DispatchedBetween(log: seq<Dispatch>, a: nat, b: nat, w: nat) {
    exists i :: a < i < b && i < |log| && log[i].worker == w
  }

  // Going round the queue from index k + 1 to index p - 1, do we meet index j?
  predicate Between(k: nat, p: int, j: nat) {
    if k < p then k < j < p else k < j || j < p
  }

  // What has happened since dispatch a of the worker now at index k, when index
  // p is served next: no worker was served twice; those served and still queued
  // lie between; and those between that were queued at a have been served.
  ghost predicate RoundSince(log: seq<Dispatch>, q: seq<nat>, p: int, a: nat, k: nat)
    requires a < |log|
  {
    && (forall b, d :: a < b < d < |log| ==> log[b].worker != log[d].worker)
    && (forall b, j :: a < b < |log| && 0 <= j < |q| && q[j] == log[b].worker ==> Between(k, p, j))
    && (forall j :: 0 <= j < |q| && Between(k, p, j) && q[j] in log[a].queue ==> DispatchedBetween(log, a, |log|, q[j]))
  }

  ghost predicate RoundsOk(log: seq<Dispatch>, q: seq<nat>, p: int) {
    forall a, k :: 0 <= a < |log| && 0 <= k < |q| && q[k] == log[a].worker && IsLast(log, a) ==> RoundSince(log, q, p, a, k)
  }

  // Entries a < b are consecutive dispatches of one worker.
  ghost predicate Consecutive(log: seq<Dispatch>, a: nat, b: nat) {
    && a < b < |log| && log[a].worker == log[b].worker
    && forall i :: a < i < b ==> log[i].worker != log[a].worker
  }

  ghost predicate FairBetween(log: seq<Dispatch>, a: nat, b: nat)
    requires a < b < |log|
  {
    && (forall i, j :: a < i < j < b ==> log[i].worker != log[j].worker)
    && (forall w :: w in log[a].queue && w in log[b].queue && w != log[a].worker ==> DispatchedBetween(log, a, b, w))
  }

  ghost predicate Fair(log: seq<Dispatch>) {
    forall a: nat, b: nat :: Consecutive(log, a, b) ==> FairBetween(log, a, b)
  }

  // The worker was chosen, or was queued at some choice.
  ghost predicate Mentions(log: seq<Dispatch>, w: nat) {
    exists a :: 0 <= a < |log| && (log[a].worker == w || w in log[a].queue)
  }

  lemma ServeFair(log: seq<Dispatch>, q: seq<nat>, p: nat)
    requires p < |q| && Distinct(q) && RoundsOk(log, q, p) && Fair(log)
    ensures Fair(log + [Dispatch(q[p], q)])
  {
    var next := log + [Dispatch(q[p], q)];
    forall a: nat, b: nat | Consecutive(next, a, b)
      ensures FairBetween(next, a, b)
    {
      if b < |log| {
        forall i | a < i < b ensures log[i].worker != log[a].worker {
          assert next[i].worker != next[a].worker;
        }
        assert Consecutive(log, a, b) && FairBetween(log, a, b);
        forall w | w in next[a].queue && w in next[b].queue && w != next[a].worker
          ensures DispatchedBetween(next, a, b, w)
        {
          var i :| a < i < b && i < |log| && log[i].worker == w;
          assert next[i].worker == w;
        }
      } else {
        forall i | a < i < |log| ensures log[i].worker != log[a].worker {
          assert next[i].worker != next[a].worker;
        }
        assert IsLast(log, a) && RoundSince(log, q, p, a, p);
        forall w | w in next[a].queue && w in next[b].queue && w != next[a].worker
          ensures DispatchedBetween(next, a, b, w)
        {
          var j :| 0 <= j < |q| && q[j] == w;
          var i :| a < i < |log| && log[i].worker == q[j];
          assert next[i].worker == w;
        }
      }
    }
  }

  lemma ServeRounds(log: seq<Dispatch>, q: seq<nat>, p: nat)
    requires p < |q| && Distinct(q) && RoundsOk(log, q, p)
    ensures RoundsOk(log + [Dispatch(q[p], q)], q, p + 1)
  {
    var next := log + [Dispatch(q[p], q)];
    forall a, k | 0 <= a < |next| && 0 <= k < |q| && q[k] == next[a].worker && IsLast(next, a)
      ensures RoundSince(next, q, p + 1, a, k)
    {
      if a < |log| {
        assert next[|log|].worker == q[p];
        forall i | a < i < |log| ensures log[i].worker != log[a].worker {
          assert next[i].worker != next[a].worker;
        }
        ServeOther(log, q, p, a, k);
      }
    }
  }

  lemma ServeOther(log: seq<Dispatch>, q: seq<nat>, p: nat, a: nat, k: nat)
    requires p < |q| && Distinct(q) && a < |log| && k < |q| && k != p && RoundSince(log, q, p, a, k)
    ensures RoundSince(log + [Dispatch(q[p], q)], q, p + 1, a, k)
  {
    var next := log + [Dispatch(q[p], q)];
    forall b, d | a < b < d < |next|
      ensures next[b].worker != next[d].worker
    {
      if d == |log| {
        assert log[b].worker == q[p] ==> Between(k, p, p);
      }
    }
    forall j | 0 <= j < |q| && Between(k, p + 1, j) && q[j] in next[a].queue
      ensures DispatchedBetween(next, a, |next|, q[j])
    {
      if j == p {
        assert next[|log|].worker == q[j];
      } else {
        var i :| a < i < |log| && log[i].worker == q[j];
        assert next[i].worker == q[j];
      }
    }
  }

  lemma WrapRounds(log: seq<Dispatch>, q: seq<nat>)
    requires RoundsOk(log, q, |q|)
    ensures RoundsOk(log, q, 0)
  {
  }

  lemma InsertRounds(log: seq<Dispatch>, q: seq<nat>, p: int, w: nat)
    requires RoundsOk(log, q, p) && !Mentions(log, w)
    ensures RoundsOk(log, q + [w], p)
  {
  }

  // The worker at index r, just served, leaves; index r is then served next.
  lemma LeaveRounds(log: seq<Dispatch>, q: seq<nat>, r: nat, next: seq<nat>)
    requires r < |q| && |next| == |q| - 1 && RoundsOk(log, q, r + 1)
    requires forall k :: 0 <= k < r ==> next[k] == q[k]
    requires forall k :: r <= k < |next| ==> next[k] == q[k + 1]
    ensures RoundsOk(log, next, r)
  {
    forall a, k | 0 <= a < |log| && 0 <= k < |next| && next[k] == log[a].worker && IsLast(log, a)
      ensures RoundSince(log, next, r, a, k)
    {
      var k' := if k < r then k else k + 1;
      assert q[k'] == log[a].worker && RoundSince(log, q, r + 1, a, k');
      forall j | 0 <= j < |next|
        ensures var j' := if j < r then j else j + 1; next[j] == q[j'] && Between(k, r, j) == Between(k', r + 1, j')
      {
      }
      forall b, j | a < b < |log| && 0 <= j < |next| && next[j] == log[b].worker
        ensures Between(k, r, j)
      {
        var j' := if j < r then j else j + 1;
        assert q[j'] == log[b].worker;
      }
      forall j | 0 <= j < |next| && Between(k, r, j) && next[j] in log[a].queue
        ensures DispatchedBetween(log, a, |log|, next[j])
      {
        var j' := if j < r then j else j + 1;
        assert q[j'] == next[j] && Between(k', r + 1, j');
      }
    }
  }

  // ---- From the log to the states of a run ----

  // The index served next once the round in progress is over.
  function NextIndex(s: State): int {
    if s.sched.AwaitCpu? && s.sched.w < |s.workers| && (s.workers[s.sched.w].pc.Posting? || s.workers[s.sched.w].pc.Adjusting?)
    then s.currentPosition - 1 else s.currentPosition
  }

  predicate Entered(w: Worker) {
    !w.pc.NotCreated? && !w.pc.Entering? && !w.pc.Inserting?
  }

  // No worker mentioned in the log is still to be inserted.
  ghost predicate MentionsEntered(s: State) {
    forall w: nat :: Mentions(s.log, w) ==> w < |s.workers| && Entered(s.workers[w])
  }

  ghost predicate RoundInv(s: State) {
    MentionsEntered(s) && RoundsOk(s.log, s.q, NextIndex(s)) && Fair(s.log)
  }

  // A step leaves the log alone or adds one entry naming queued workers, and no
  // worker goes back before its insertion.
  lemma StepLog(c: Config, s: State, step: Step)
    requires QueueOk(c, s) && CounterOk(c, s) && PositionOk(c, s) && Enabled(c, s, step)
    ensures |Do(c, s, step).workers| == |s.workers|
    ensures forall w :: 0 <= w < |s.workers| && Entered(s.workers[w]) ==> Entered(Do(c, s, step).workers[w])
    ensures Do(c, s, step).log == s.log ||
            (|s.q| > 0 && exists w :: w in s.q && Do(c, s, step).log == s.log + [Dispatch(w, s.q)])
  {
    if step.SchedStep? && s.sched.Walk? && s.sched.i == s.currentPosition {
      assert s.q[s.currentPosition] in s.q;
    }
  }

  lemma MentionsKept(c: Config, s: State, step: Step)
    requires QueueOk(c, s) && CounterOk(c, s) && PositionOk(c, s) && MentionsEntered(s) && Enabled(c, s, step)
    ensures MentionsEntered(Do(c, s, step))
  {
    StepLog(c, s, step);
    MentionsExtended(s, Do(c, s, step));
  }

  lemma MentionsExtended(s: State, t: State)
    requires MentionsEntered(s) && |t.workers| == |s.workers|
    requires forall w :: 0 <= w < |s.workers| && Entered(s.workers[w]) ==> Entered(t.workers[w])
    requires forall i :: 0 <= i < |s.q| ==> s.q[i] < |s.workers| && Entered(s.workers[s.q[i]])
    requires t.log == s.log || (|s.q| > 0 && exists w :: w in s.q && t.log == s.log + [Dispatch(w, s.q)])
    ensures MentionsEntered(t)
  {
    forall w: nat | Mentions(t.log, w)
      ensures w < |t.workers| && Entered(t.workers[w])
    {
      var a :| 0 <= a < |t.log| && (t.log[a].worker == w || w in t.log[a].queue);
      if a < |s.log| {
        assert t.log[a] == s.log[a];
        assert Mentions(s.log, w);
      } else {
        assert w in s.q;
      }
    }
  }

  lemma RoundInsert(c: Config, s: State, w: nat)
    requires TokenOk(s) && RoundInv(s) && Enabled(c, s, WorkerStep(w)) && s.workers[w].pc.Inserting?
    ensures RoundsOk(DoWorker(c, s, w).log, DoWorker(c, s, w).q, NextIndex(DoWorker(c, s, w)))
  {
    assert !Mentions(s.log, w);
    InsertRounds(s.log, s.q, NextIndex(s), w);
  }

  // The worker that leaves is the one just served; its index is served next.
  lemma LeaveEffect(c: Config, s: State, w: nat)
    requires c.policy.RoundRobin? && QueueOk(c, s) && TokenOk(s) && PositionOk(c, s) && Leaves(c, s, w)
    ensures var t := DoWorker(c, s, w);
            && t.log == s.log && 1 <= s.currentPosition <= |s.q| && s.q[s.currentPosition - 1] == w
            && t.q == Remove(s.q, w) && NextIndex(s) == s.currentPosition && NextIndex(t) == s.currentPosition - 1
  {
  }

  lemma RoundLeave(c: Config, s: State, w: nat)
    requires c.policy.RoundRobin? && QueueOk(c, s) && TokenOk(s) && PositionOk(c, s) && Leaves(c, s, w)
    requires RoundsOk(s.log, s.q, NextIndex(s))
    ensures RoundsOk(DoWorker(c, s, w).log, DoWorker(c, s, w).q, NextIndex(DoWorker(c, s, w)))
  {
    LeaveEffect(c, s, w);
    LeaveQueue(s.log, s.q, s.currentPosition - 1);
  }

  lemma LeaveQueue(log: seq<Dispatch>, q: seq<nat>, r: nat)
    requires r < |q| && Distinct(q) && RoundsOk(log, q, r + 1)
    ensures RoundsOk(log, Remove(q, q[r]), r)
  {
    RemoveAt(q, r);
    LeaveRounds(log, q, r, Remove(q, q[r]));
  }

  lemma NextIndexSame(c: Config, s: State, w: nat)
    requires TokenOk(s) && Enabled(c, s, WorkerStep(w)) && !s.workers[w].pc.Inserting? && !Leaves(c, s, w)
    ensures DoWorker(c, s, w).log == s.log && DoWorker(c, s, w).q == s.q
    ensures NextIndex(DoWorker(c, s, w)) == NextIndex(s)
  {
  }

  lemma RoundWrap(c: Config, s: State)
    requires c.policy.RoundRobin? && s.sched.CheckWrap? && RoundsOk(s.log, s.q, NextIndex(s))
    ensures RoundsOk(DoSched(c, s).log, DoSched(c, s).q, NextIndex(DoSched(c, s)))
  {
    if s.currentPosition == |s.q| {
      WrapRounds(s.log, s.q);
    }
  }

  // The end of the walk dispatches the worker at currentPosition.
  lemma WalkEffect(c: Config, s: State)
    requires c.policy.RoundRobin? && PositionOk(c, s) && s.sched.Walk? && Enabled(c, s, SchedStep)
    ensures var t := DoSched(c, s);
            && t.q == s.q
            && if s.sched.i < s.currentPosition then t.log == s.log && NextIndex(t) == NextIndex(s)
               else 0 <= s.currentPosition < |s.q| && NextIndex(s) == s.currentPosition
                    && t.log == s.log + [Dispatch(s.q[s.currentPosition], s.q)] && NextIndex(t) == s.currentPosition + 1
  {
  }

  lemma RoundWalk(c: Config, s: State)
    requires c.policy.RoundRobin? && QueueOk(c, s) && PositionOk(c, s) && s.sched.Walk?
    requires RoundsOk(s.log, s.q, NextIndex(s)) && Enabled(c, s, SchedStep)
    ensures RoundsOk(DoSched(c, s).log, DoSched(c, s).q, NextIndex(DoSched(c, s)))
  {
    WalkEffect(c, s);
    if s.sched.i == s.currentPosition {
      ServeRounds(s.log, s.q, s.currentPosition);
    }
  }

  lemma FairSched(c: Config, s: State)
    requires c.policy.RoundRobin? && QueueOk(c, s) && PositionOk(c, s) && RoundInv(s) && Enabled(c, s, SchedStep)
    ensures Fair(DoSched(c, s).log)
  {
    if s.sched.Walk? && s.sched.i == s.currentPosition {
      ServeFair(s.log, s.q, s.currentPosition);
    }
  }

  lemma SchedSame(c: Config, s: State)
    requires c.policy.RoundRobin? && TokenOk(s) && Enabled(c, s, SchedStep) && !s.sched.CheckWrap? && !s.sched.Walk?
    ensures DoSched(c, s).log == s.log && DoSched(c, s).q == s.q && NextIndex(DoSched(c, s)) == NextIndex(s)
  {
  }

  lemma RoundKept(c: Config, s: State, step: Step)
    requires c.Valid() && c.policy.RoundRobin? && Inv(c, s) && RoundInv(s) && Enabled(c, s, step)
    ensures RoundInv(Do(c, s, step))
  {
    MentionsKept(c, s, step);
    match step
    case MainStep => MainSame(c, s);
    case WorkerStep(w) =>
      if s.workers[w].pc.Inserting? {
        RoundInsert(c, s, w);
      } else if Leaves(c, s, w) {
        RoundLeave(c, s, w);
      } else {
        NextIndexSame(c, s, w);
      }
    case SchedStep =>
      FairSched(c, s);
      if s.sched.CheckWrap? {
        RoundWrap(c, s);
      } else if s.sched.Walk? {
        RoundWalk(c, s);
      } else {
        SchedSame(c, s);
      }
  }

  lemma MainSame(c: Config, s: State)
    requires CounterOk(c, s) && Enabled(c, s, MainStep)
    ensures DoMain(c, s).log == s.log && DoMain(c, s).q == s.q && NextIndex(DoMain(c, s)) == NextIndex(s)
  {
  }

  lemma {:induction false} RoundAlways(c: Config, schedule: seq<Step>)
    requires c.Valid() && c.policy.RoundRobin? && Exec(c, schedule).Some?
    ensures RoundInv(Exec(c, schedule).value)
  {
    if schedule != [] {
      var before := schedule[..|schedule| - 1];
      AlwaysInv(c, before);
      RoundAlways(c, before);
      RoundKept(c, Exec(c, before).value, schedule[|schedule| - 1]);
    }
  }

  // How often a worker is dispatched strictly between two log entries.
  ghost function CountBetween(log: seq<Dispatch>, a: nat, b: nat, w: nat): nat
    requires b <= |log|
  {
    if b <= a + 1 then 0 else CountBetween(log, a, b - 1, w) + if log[b - 1].worker == w then 1 else 0
  }

  lemma {:induction false} CountDistinct(log: seq<Dispatch>, a: nat, b: nat, w: nat)
    requires b <= |log| && forall i, j :: a < i < j < b ==> log[i].worker != log[j].worker
    ensures CountBetween(log, a, b, w) == if DispatchedBetween(log, a, b, w) then 1 else 0
  {
    if b > a + 1 {
      CountDistinct(log, a, b - 1, w);
      if log[b - 1].worker == w {
        assert !DispatchedBetween(log, a, b - 1, w);
      } else if DispatchedBetween(log, a, b, w) {
        var i :| a < i < b && i < |log| && log[i].worker == w;
        assert i < b - 1;
      }
    }
  }

  // The theorem. A worker that was queued at both dispatches was queued all the
  // time between them, because a worker enters the queue only once.
  lemma RoundRobinFair(c: Config, schedule: seq<Step>, s: State, a: nat, b: nat, w: nat)
    requires c.Valid() && c.policy.RoundRobin? && Exec(c, schedule) == Some(s)
    requires Consecutive(s.log, a, b) && w != s.log[a].worker
    ensures CountBetween(s.log, a, b, w) <= 1
    ensures w in s.log[a].queue && w in s.log[b].queue ==> CountBetween(s.log, a, b, w) == 1
  {
    RoundAlways(c, schedule);
    assert FairBetween(s.log, a, b);
    CountDistinct(s.log, a, b, w);
  }
}
