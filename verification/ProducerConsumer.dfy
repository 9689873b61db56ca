// The producers and consumers of p3.c: threads that take turns at the shared
// buffer under one mutex semaphore, interleaved step by step.

module ProducerConsumer {
  import opened Common
  import opened Buffer

  datatype Mode = Fifo | Filo

  datatype Role = Producer | Consumer

  // The program points of `thread_run`.
  datatype Pc = Outside | Locked | Counted(n: nat) | Finished

  datatype Thread = Thread(role: Role, pc: Pc)

  datatype Event = Put(item: int) | Take(item: int)

  // `history` records what was put in and taken out, oldest first.
  datatype State = State(mode: Mode, buffer: seq<int>, mutex: nat, threads: seq<Thread>, history: seq<Event>)

  function Init(mode: Mode, roles: seq<Role>): State {
    State(mode, seq(CAPACITY, _ => EMPTY), 1, seq(|roles|, i requires 0 <= i < |roles| => Thread(roles[i], Outside)), [])
  }

  // One step of a thread; a producer's random item is chosen when it acts.
  datatype Step = Lock(t: nat) | Count(t: nat) | Act(t: nat, item: int) | Unlock(t: nat)

  predicate Enabled(s: State, step: Step) {
    step.t < |s.threads| && |s.buffer| == CAPACITY &&
    match step
    case Lock(t) => s.threads[t].pc.Outside? && s.mutex > 0
    case Count(t) => s.threads[t].pc.Locked?
    case Act(t, item) => s.threads[t].pc.Counted? && item != EMPTY
    case Unlock(t) => s.threads[t].pc.Finished?
  }

  function At(s: State, t: nat, pc: Pc): seq<Thread>
    requires t < |s.threads|
  {
    s.threads[t := s.threads[t].(pc := pc)]
  }

  // What a producer or consumer does once it has counted n items.
  function Effect(mode: Mode, role: Role, b: seq<int>, n: nat, item: int): (seq<int>, Option<Event>)
    requires |b| == CAPACITY
  {
    match role
    case Producer =>
      if n != CAPACITY then
        (if mode.Fifo? then b[Slot(b) := item] else Pushed(b, item), Some(Put(item)))
      else (b, None)
    case Consumer =>
      if n != 0 then (Popped(b), Some(Take(b[0]))) else (b, None)
  }

  function Do(s: State, step: Step): State
    requires Enabled(s, step)
  {
    match step
    case Lock(t) => s.(mutex := s.mutex - 1, threads := At(s, t, Locked))
    case Count(t) => s.(threads := At(s, t, Counted(FirstEmpty(s.buffer))))
    case Act(t, item) =>
      var e := Effect(s.mode, s.threads[t].role, s.buffer, s.threads[t].pc.n, item);
      s.(buffer := e.0, threads := At(s, t, Finished),
         history := if e.1.Some? then s.history + [e.1.value] else s.history)
    case Unlock(t) => s.(mutex := s.mutex + 1, threads := At(s, t, Outside))
  }

  function Exec(mode: Mode, roles: seq<Role>, schedule: seq<Step>): Option<State> {
    if schedule == [] then Some(Init(mode, roles))
    else
      var before := Exec(mode, roles, schedule[..|schedule| - 1]);
      var step := schedule[|schedule| - 1];
      if before.Some? && Enabled(before.value, step) then Some(Do(before.value, step)) else None
  }

  // The items of a buffer after an event: a producer's item goes to the end in
  // FIFO mode and to the front in FILO mode, and a consumer's comes from the front.
  function ItemsAfter(mode: Mode, items: seq<int>, event: Option<Event>): seq<int> {
    match event
    case None => items
    case Some(Put(item)) => if mode.Fifo? then items + [item] else [item] + items
    case Some(Take(_)) => if items == [] then [] else items[1..]
  }

  // The critical section of `thread_run` on the real buffer. A producer puts its
  // item unless the buffer is full, a consumer takes the first unless it is empty.
  method CriticalSection(b: array<int>, mode: Mode, role: Role, item: int) returns (event: Option<Event>)
    requires b.Length == CAPACITY
    modifies b
    ensures (b[..], event) == Effect(mode, role, old(b[..]), FirstEmpty(old(b[..])), item)
    ensures role.Producer? ==> event == if |Contents(old(b[..]))| < CAPACITY then Some(Put(item)) else None
    ensures role.Consumer? ==> event == if Contents(old(b[..])) != [] then Some(Take(Contents(old(b[..]))[0])) else None
    ensures Packed(old(b[..])) && item != EMPTY ==> Packed(b[..]) && Contents(b[..]) == ItemsAfter(mode, Contents(old(b[..])), event)
  {
    EffectOnItems(mode, role, b[..], item);
    event := None;
    var n := CountItems(b);
    if role.Producer? {
      if n != CAPACITY {
        if mode.Fifo? {
          Enqueue(b, item);
        } else {
          Push(b, item);
        }
        event := Some(Put(item));
      }
    } else {
      if n != 0 {
        var taken;
        if mode.Fifo? {
          taken := Dequeue(b);
        } else {
          taken := Pop(b);
        }
        event := Some(Take(taken));
      }
    }
  }

  lemma EffectOnItems(mode: Mode, role: Role, b: seq<int>, item: int)
    requires |b| == CAPACITY
    ensures var e := Effect(mode, role, b, FirstEmpty(b), item);
            && (role.Producer? ==> e.1 == if |Contents(b)| < CAPACITY then Some(Put(item)) else None)
            && (role.Consumer? ==> e.1 == if Contents(b) != [] then Some(Take(Contents(b)[0])) else None)
            && (Packed(b) && item != EMPTY ==> Packed(e.0) && Contents(e.0) == ItemsAfter(mode, Contents(b), e.1))
  {
    if Packed(b) && item != EMPTY {
      if role.Producer? && FirstEmpty(b) < CAPACITY {
        PushContents(b, item);
        EnqueueContents(b, item);
      } else if role.Consumer? && FirstEmpty(b) > 0 {
        PopContents(b);
      }
    }
  }

  // ---- What a history means ----

  function Puts(history: seq<Event>): seq<int> {
    if history == [] then []
    else
      var e := history[|history| - 1];
      Puts(history[..|history| - 1]) + if e.Put? then [e.item] else []
  }

  function Takes(history: seq<Event>): seq<int> {
    if history == [] then []
    else
      var e := history[|history| - 1];
      Takes(history[..|history| - 1]) + if e.Take? then [e.item] else []
  }

  // The items put and not yet taken: oldest first in FIFO mode, newest first in
  // FILO mode. A take removes the first.
  function Unconsumed(mode: Mode, history: seq<Event>): seq<int> {
    if history == [] then []
    else
      var before := Unconsumed(mode, history[..|history| - 1]);
      match history[|history| - 1]
      case Put(item) => if mode.Fifo? then before + [item] else [item] + before
      case Take(_) => if before == [] then [] else before[1..]
  }

  // Every take in the history got the first of the items unconsumed at that
  // moment: the oldest in FIFO mode, the newest in FILO mode.
  ghost predicate TakesFirst(mode: Mode, history: seq<Event>) {
    forall i :: 0 <= i < |history| && history[i].Take? ==>
      Unconsumed(mode, history[..i]) != [] && history[i].item == Unconsumed(mode, history[..i])[0]
  }

  // ---- What every interleaving keeps ----

  // At most one thread is inside, it holds the mutex, and what it counted is
  // still what the buffer holds.
  ghost predicate MutexOk(s: State) {
    && (forall t, u :: 0 <= t < u < |s.threads| ==> s.threads[t].pc.Outside? || s.threads[u].pc.Outside?)
    && (if s.mutex == 0 then exists t :: 0 <= t < |s.threads| && !s.threads[t].pc.Outside?
        else s.mutex == 1 && forall t :: 0 <= t < |s.threads| ==> s.threads[t].pc.Outside?)
    && (forall t :: 0 <= t < |s.threads| && s.threads[t].pc.Counted? ==> s.threads[t].pc.n == FirstEmpty(s.buffer))
  }

  ghost predicate HistoryOk(s: State) {
    Packed(s.buffer) && Contents(s.buffer) == Unconsumed(s.mode, s.history) && TakesFirst(s.mode, s.history)
  }

  lemma MutexKept(s: State, step: Step)
    requires MutexOk(s) && Enabled(s, step)
    ensures MutexOk(Do(s, step))
  {
    var s' := Do(s, step);
    if !step.Unlock? {
      assert !s'.threads[step.t].pc.Outside?;
    }
  }

  lemma TakesFirstKept(mode: Mode, history: seq<Event>, e: Event)
    requires TakesFirst(mode, history)
    requires e.Take? ==> Unconsumed(mode, history) != [] && e.item == Unconsumed(mode, history)[0]
    ensures TakesFirst(mode, history + [e])
  {
    var next := history + [e];
    assert next[..|history|] == history;
    forall i | 0 <= i < |next| && next[i].Take?
      ensures Unconsumed(mode, next[..i]) != [] && next[i].item == Unconsumed(mode, next[..i])[0]
    {
      if i < |history| {
        assert next[..i] == history[..i];
      }
    }
  }

  lemma HistoryKept(s: State, step: Step)
    requires MutexOk(s) && HistoryOk(s) && Enabled(s, step)
    ensures HistoryOk(Do(s, step))
  {
    if step.Act? {
      var b, e := s.buffer, Effect(s.mode, s.threads[step.t].role, s.buffer, s.threads[step.t].pc.n, step.item).1;
      if e.Some? {
        if e.value.Put? {
          PushContents(b, step.item);
          EnqueueContents(b, step.item);
        } else {
          PopContents(b);
        }
        assert (s.history + [e.value])[..|s.history|] == s.history;
        TakesFirstKept(s.mode, s.history, e.value);
      }
    }
  }

  ghost predicate RolesKept(mode: Mode, roles: seq<Role>, s: State) {
    s.mode == mode && |s.threads| == |roles| && forall t :: 0 <= t < |roles| ==> s.threads[t].role == roles[t]
  }

  lemma {:induction false} Always(mode: Mode, roles: seq<Role>, schedule: seq<Step>)
    requires Exec(mode, roles, schedule).Some?
    ensures MutexOk(Exec(mode, roles, schedule).value) && HistoryOk(Exec(mode, roles, schedule).value)
    ensures RolesKept(mode, roles, Exec(mode, roles, schedule).value)
  {
    if schedule == [] {
      FirstEmptyIs(Init(mode, roles).buffer, 0);
    } else {
      var before := schedule[..|schedule| - 1];
      Always(mode, roles, before);
      MutexKept(Exec(mode, roles, before).value, schedule[|schedule| - 1]);
      HistoryKept(Exec(mode, roles, before).value, schedule[|schedule| - 1]);
    }
  }

  // ---- The theorems ----

  lemma MutualExclusion(mode: Mode, roles: seq<Role>, schedule: seq<Step>, s: State, t: nat, u: nat)
    requires Exec(mode, roles, schedule) == Some(s) && t < u < |s.threads|
    ensures s.threads[t].pc.Outside? || s.threads[u].pc.Outside?
  {
    Always(mode, roles, schedule);
  }

  // In every run, a thread that acts puts its item exactly when the buffer has
  // room, or takes the first item exactly when there is one, and nothing else.
  lemma ActsExactly(mode: Mode, roles: seq<Role>, schedule: seq<Step>, s: State, t: nat, item: int)
    requires Exec(mode, roles, schedule) == Some(s) && Enabled(s, Act(t, item))
    ensures |s.threads| == |roles|
    ensures var s', items := Do(s, Act(t, item)), Contents(s.buffer);
            match roles[t]
            case Producer =>
              if |items| < CAPACITY then
                s'.history == s.history + [Put(item)] && Contents(s'.buffer) == if mode.Fifo? then items + [item] else [item] + items
              else s'.history == s.history && s'.buffer == s.buffer
            case Consumer =>
              if items != [] then s'.history == s.history + [Take(items[0])] && Contents(s'.buffer) == items[1..]
              else s'.history == s.history && s'.buffer == s.buffer
  {
    Always(mode, roles, schedule);
    EffectOnItems(mode, roles[t], s.buffer, item);
  }

  // Only a thread that acts touches the buffer.
  lemma OthersKeep(s: State, step: Step)
    requires Enabled(s, step) && !step.Act?
    ensures Do(s, step).buffer == s.buffer && Do(s, step).history == s.history
  {
  }

  // In every run, a thread can take a step exactly when no other is inside.
  lemma NeverBlockedIff(mode: Mode, roles: seq<Role>, schedule: seq<Step>, s: State, t: nat)
    requires Exec(mode, roles, schedule) == Some(s) && t < |roles|
    ensures |s.threads| == |roles|
    ensures (exists step: Step :: step.t == t && Enabled(s, step)) <==>
            forall u :: 0 <= u < |roles| && u != t ==> s.threads[u].pc.Outside?
  {
    Always(mode, roles, schedule);
    var step := match s.threads[t].pc
      case Outside => Lock(t)
      case Locked => Count(t)
      case Counted(_) => Act(t, 0)
      case Finished => Unlock(t);
    if forall u :: 0 <= u < |roles| && u != t ==> s.threads[u].pc.Outside? {
      assert step.t == t && Enabled(s, step);
    }
  }

  // Whenever no thread is inside, each can go through its critical section: four
  // steps after which all are outside again and it has put or taken its item.
  lemma WholeTurn(mode: Mode, roles: seq<Role>, schedule: seq<Step>, s: State, t: nat, item: int) returns (s': State)
    requires Exec(mode, roles, schedule) == Some(s) && t < |roles| && item != EMPTY
    requires forall u :: 0 <= u < |s.threads| ==> s.threads[u].pc.Outside?
    ensures Exec(mode, roles, schedule + [Lock(t), Count(t), Act(t, item), Unlock(t)]) == Some(s')
    ensures s'.threads == s.threads
    ensures roles[t].Producer? ==> s'.history == s.history + if |Contents(s.buffer)| < CAPACITY then [Put(item)] else []
    ensures roles[t].Consumer? ==> s'.history == s.history + if Contents(s.buffer) != [] then [Take(Contents(s.buffer)[0])] else []
  {
    Always(mode, roles, schedule);
    var s1, s2, s3 := Turn(s, t, item);
    s' := Do(s3, Unlock(t));
    ExecFour(mode, roles, schedule, s, [Lock(t), Count(t), Act(t, item), Unlock(t)], s1, s2, s3);
    EffectOnItems(mode, roles[t], s.buffer, item);
  }

  // The states between the steps of a turn.
  lemma Turn(s: State, t: nat, item: int) returns (s1: State, s2: State, s3: State)
    requires MutexOk(s) && |s.buffer| == CAPACITY && t < |s.threads| && item != EMPTY
    requires forall u :: 0 <= u < |s.threads| ==> s.threads[u].pc.Outside?
    ensures Enabled(s, Lock(t)) && s1 == Do(s, Lock(t)) && Enabled(s1, Count(t)) && s2 == Do(s1, Count(t))
    ensures Enabled(s2, Act(t, item)) && s3 == Do(s2, Act(t, item)) && Enabled(s3, Unlock(t))
    ensures Do(s3, Unlock(t)).threads == s.threads
    ensures var e := Effect(s.mode, s.threads[t].role, s.buffer, FirstEmpty(s.buffer), item).1;
            Do(s3, Unlock(t)).history == if e.Some? then s.history + [e.value] else s.history
  {
    s1 := Do(s, Lock(t));
    s2 := Do(s1, Count(t));
    s3 := Do(s2, Act(t, item));
  }

  lemma ExecFour(mode: Mode, roles: seq<Role>, schedule: seq<Step>, s: State, steps: seq<Step>, s1: State, s2: State, s3: State)
    requires Exec(mode, roles, schedule) == Some(s) && |steps| == 4
    requires Enabled(s, steps[0]) && s1 == Do(s, steps[0]) && Enabled(s1, steps[1]) && s2 == Do(s1, steps[1])
    requires Enabled(s2, steps[2]) && s3 == Do(s2, steps[2]) && Enabled(s3, steps[3])
    ensures Exec(mode, roles, schedule + steps) == Some(Do(s3, steps[3]))
  {
    var half := schedule + [steps[0], steps[1]];
    ExecTwo(mode, roles, schedule, s, steps[0], steps[1]);
    ExecTwo(mode, roles, half, s2, steps[2], steps[3]);
    assert half + [steps[2], steps[3]] == schedule + steps;
  }

  lemma ExecTwo(mode: Mode, roles: seq<Role>, schedule: seq<Step>, s: State, a: Step, b: Step)
    requires Exec(mode, roles, schedule) == Some(s) && Enabled(s, a) && Enabled(Do(s, a), b)
    ensures Exec(mode, roles, schedule + [a, b]) == Some(Do(Do(s, a), b))
  {
    ExecExtends(mode, roles, schedule, s, a);
    ExecExtends(mode, roles, schedule + [a], Do(s, a), b);
    assert schedule + [a] + [b] == schedule + [a, b];
  }

  lemma ExecExtends(mode: Mode, roles: seq<Role>, schedule: seq<Step>, s: State, step: Step)
    requires Exec(mode, roles, schedule) == Some(s) && Enabled(s, step)
    ensures Exec(mode, roles, schedule + [step]) == Some(Do(s, step))
  {
  }

  lemma {:induction false} FifoSplit(history: seq<Event>)
    requires TakesFirst(Fifo, history)
    ensures Puts(history) == Takes(history) + Unconsumed(Fifo, history)
  {
    if history != [] {
      var n := |history| - 1;
      var before := history[..n];
      forall i | 0 <= i < n && before[i].Take?
        ensures Unconsumed(Fifo, before[..i]) != [] && before[i].item == Unconsumed(Fifo, before[..i])[0]
      {
        assert before[..i] == history[..i] && before[i] == history[i];
      }
      FifoSplit(before);
      if history[n].Take? {
        var u := Unconsumed(Fifo, before);
        assert u == [history[n].item] + u[1..];
      }
    }
  }

  lemma {:induction false} FiloSplit(history: seq<Event>)
    requires TakesFirst(Filo, history)
    ensures multiset(Puts(history)) == multiset(Takes(history)) + multiset(Unconsumed(Filo, history))
  {
    if history != [] {
      var n := |history| - 1;
      var before := history[..n];
      forall i | 0 <= i < n && before[i].Take?
        ensures Unconsumed(Filo, before[..i]) != [] && before[i].item == Unconsumed(Filo, before[..i])[0]
      {
        assert before[..i] == history[..i] && before[i] == history[i];
      }
      FiloSplit(before);
      if history[n].Take? {
        var u := Unconsumed(Filo, before);
        assert u == [history[n].item] + u[1..];
      }
    }
  }

  // FIFO mode: what was produced is what was consumed, in order, followed by what
  // is in the buffer.
  lemma FifoHistory(roles: seq<Role>, schedule: seq<Step>, s: State)
    requires Exec(Fifo, roles, schedule) == Some(s)
    ensures Packed(s.buffer) && Puts(s.history) == Takes(s.history) + Contents(s.buffer)
  {
    Always(Fifo, roles, schedule);
    FifoSplit(s.history);
  }

  // FILO mode: nothing is lost or made up, and every item taken was the newest
  // one not yet consumed.
  lemma FiloHistory(roles: seq<Role>, schedule: seq<Step>, s: State)
    requires Exec(Filo, roles, schedule) == Some(s)
    ensures Packed(s.buffer) && multiset(Puts(s.history)) == multiset(Takes(s.history)) + multiset(Contents(s.buffer))
    ensures TakesFirst(Filo, s.history)
  {
    Always(Filo, roles, schedule);
    FiloSplit(s.history);
  }
}
