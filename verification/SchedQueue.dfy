// The two `next_worker` policies of sched_impl.c on the real linked list, and
// their agreement with the small steps of the transition system.

module SchedQueue {
  import opened Common
  import LinkedList
  import opened SchedModel
  import opened SchedInvariant

  function Data(s: seq<LinkedList.Elem<nat>>): (r: seq<nat>)
    reads s
    ensures |r| == |s| && forall i :: 0 <= i < |s| ==> r[i] == s[i].datum
  {
    seq(|s|, i requires 0 <= i < |s| reads s => s[i].datum)
  }

  // Where i links lead from the head of a list of n elements, when a walk that
  // has run off the end (at n) goes back to the head.
  function Cycle(n: nat, i: nat): (r: nat)
    ensures r <= n && (i <= n ==> r == i)
  {
    if i == 0 then 0
    else if Cycle(n, i - 1) == n then 0
    else Cycle(n, i - 1) + 1
  }

  // The position of the element that `rr_next_worker` chooses; the length means
  // that the walk would end on NULL.
  function RrIndex(q: seq<nat>, position: int): nat {
    if position == |q| || position < 0 then 0 else Cycle(|q|, position)
  }

  function RrPosition(q: seq<nat>, position: int): int {
    if q == [] then position else if position == |q| then 1 else position + 1
  }

  class Queue {
    const q: LinkedList.List<nat>
    var currentPosition: int

    // `init_sched_queue`.
    constructor ()
      ensures fresh(q) && q.Valid() && q.elems == [] && currentPosition == 0
    {
      q := new LinkedList.List<nat>();
      currentPosition := 0;
    }

    method FifoNextWorker() returns (w: Option<nat>)
      requires q.Valid()
      ensures w == if q.elems == [] then None else Some(Data(q.elems)[0])
    {
      var t := q.GetHead();
      if t == null {
        return None;
      } else {
        return Some(t.datum);
      }
    }

    // The walk must not end on NULL, where the datum would be fetched from; it
    // does not for any position from 0 to the queue's length.
    method RrNextWorker() returns (w: Option<nat>)
      requires q.Valid() && (q.elems == [] || RrIndex(Data(q.elems), currentPosition) < |q.elems|)
      modifies this
      ensures q.Valid() && q.elems == old(q.elems)
      ensures w == if q.elems == [] then None else Some(Data(q.elems)[RrIndex(Data(q.elems), old(currentPosition))])
      ensures currentPosition == RrPosition(Data(q.elems), old(currentPosition))
    {
      var size := q.Size();
      if size == 0 {
        return None;
      }
      size := q.Size();
      if currentPosition == size {
        currentPosition := 0;
      }
      var t := Walk(currentPosition);
      w := Some(t.datum);
      currentPosition := currentPosition + 1;
    }

    // The loop of `rr_next_worker`.
    method Walk(steps: int) returns (t: LinkedList.Elem?<nat>)
      requires q.Valid() && q.elems != []
      ensures t == LinkedList.At(q.elems, Cycle(|q.elems|, if steps < 0 then 0 else steps))
    {
      t := q.GetHead();
      var i := 0;
      while i < steps
        invariant 0 <= i && (i <= steps || i == 0)
        invariant t == LinkedList.At(q.elems, Cycle(|q.elems|, i))
      {
        if t == null {
          t := q.GetHead();
        } else {
          t := t.next;
        }
        i := i + 1;
      }
    }
  }

  // The scheduler taking n steps of its own with nobody interfering.
  function Alone(c: Config, s: State, n: nat): Option<State>
    decreases n
  {
    if n == 0 then Some(s)
    else if Enabled(c, s, SchedStep) then Alone(c, DoSched(c, s), n - 1)
    else None
  }

  lemma {:induction false} WalkAlone(c: Config, s: State, i: nat)
    requires c.policy.RoundRobin? && Distinct(s.q) && i <= s.currentPosition < |s.q|
    requires s.sched == Walk(i, Some(s.q[i]))
    ensures Alone(c, s, s.currentPosition - i + 1) ==
            Some(Choose(s.(currentPosition := s.currentPosition + 1), s.q[s.currentPosition]))
    decreases s.currentPosition - i
  {
    var t := DoSched(c, s);
    if i < s.currentPosition {
      IndexOfDistinct(s.q, i);
      assert t == s.(sched := Walk(i + 1, Some(s.q[i + 1])));
      WalkAlone(c, t, i + 1);
    } else {
      assert Alone(c, t, 0) == Some(t);
    }
  }

  // With nobody interfering, the steps of `rr_next_worker` in the transition
  // system choose what the method chooses and leave the same position.
  lemma RrRefines(c: Config, s: State)
    requires c.policy.RoundRobin? && Distinct(s.q) && s.sched == CheckEmpty && |s.q| > 0 && 0 <= s.currentPosition <= |s.q|
    ensures var next := RrPosition(s.q, s.currentPosition);
            && next >= 1 && RrIndex(s.q, s.currentPosition) < |s.q|
            && Alone(c, s, next + 2) == Some(Choose(s.(currentPosition := next), s.q[RrIndex(s.q, s.currentPosition)]))
  {
    var next := RrPosition(s.q, s.currentPosition);
    var t := DoSched(c, s);
    var u := DoSched(c, t);
    assert u == s.(sched := Walk(0, Some(s.q[0])), currentPosition := next - 1);
    WalkAlone(c, u, 0);
    assert Choose(u.(currentPosition := next), s.q[next - 1]) == Choose(s.(currentPosition := next), s.q[next - 1]);
    assert Alone(c, u, next) == Alone(c, t, next + 1) == Alone(c, s, next + 2);
  }
}
