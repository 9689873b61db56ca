// The allocator of mymem.c on its real linked list: nodes are relinked and
// resized in place, and the list always stands for the blocks of MemState.

module Allocator {
  import opened Common
  import L = LinkedList
  import opened MemBlocks
  import opened MemState

  type Node = L.Elem<Block>
  type NodeOrNull = L.Elem?<Block>

  function NodeAt(nodes: seq<Node>, k: Option<nat>): NodeOrNull {
    if k.Some? then L.At(nodes, k.value) else null
  }

  ghost predicate AreData(s: seq<Node>, r: seq<Block>)
    reads s`datum
  {
    |r| == |s| && forall i :: 0 <= i < |s| ==> r[i] == s[i].datum
  }

  lemma DataExist(s: seq<Node>)
    ensures exists r :: AreData(s, r)
  {
    assert AreData(s, seq(|s|, i requires 0 <= i < |s| reads s => s[i].datum));
  }

  ghost function DataOf(s: seq<Node>): (r: seq<Block>)
    reads s`datum
    ensures |r| == |s| && forall i :: 0 <= i < |s| ==> r[i] == s[i].datum
  {
    DataExist(s);
    var r :| AreData(s, r);
    r
  }

  class Allocator {
    var strategy: Strategy
    var mySize: nat
    var myMemory: int
    var head: NodeOrNull
    var last: NodeOrNull
    var lastAllocated: NodeOrNull  // null while the source's pointer is the raw pool
    ghost var nodes: seq<Node>
    ghost var lastIndex: Option<nat>

    ghost predicate ListOk()
      reads this`head, this`last, this`nodes, nodes`prev, nodes`next
    {
      head == L.First(nodes) && last == L.Last(nodes) && Distinct(nodes) && L.Linked(nodes)
    }

    ghost function Blocks(): (r: seq<Block>)
      reads this`nodes, nodes`datum
      ensures |r| == |nodes| && forall i :: 0 <= i < |nodes| ==> r[i] == nodes[i].datum
    {
      DataOf(nodes)
    }

    ghost function State(): Mem
      reads this, nodes
    {
      Mem(myMemory, mySize, strategy, Blocks(), lastIndex)
    }

    ghost predicate Valid()
      reads this, nodes
    {
      ListOk() && lastAllocated == NodeAt(nodes, lastIndex) && Inv(State())
    }

    lemma Stands(m: Mem)
      requires ListOk() && lastAllocated == NodeAt(nodes, lastIndex) && MemState.Inv(m)
      requires Blocks() == m.blocks && lastIndex == m.last
      requires myMemory == m.base && mySize == m.total && strategy == m.strategy
      ensures Valid() && State() == m
    {
    }

    // Before the first `initmem`.
    constructor ()
      ensures Valid() && State() == UNINITIALISED
    {
      strategy, mySize, myMemory := NotSet, 0, 0;
      head, last, lastAllocated := null, null, null;
      nodes, lastIndex := [], None;
    }

    // `base` is the address the host's malloc returned for the pool. The old
    // nodes, which the source frees, become unreachable.
    method InitMem(strategy: Strategy, size: nat, base: int)
      requires ListOk()
      modifies this
      ensures Valid() && State() == AfterInit(strategy, size, base) && fresh(nodes)
      ensures this.strategy == strategy && mySize == size && myMemory == base
      ensures Blocks() == [Block(base, size, false)] && lastAllocated == null
    {
      Reset(strategy, size, base);
      MakePool(base, size);
      InitSteps(strategy, size, base);
      Stands(AfterInit(strategy, size, base));
    }

    // `initmem` up to the first node; the order of its assignments does not matter.
    method Reset(strategy: Strategy, size: nat, base: int)
      modifies this
      ensures this.strategy == strategy && mySize == size && myMemory == base
      ensures nodes == [] && head == null && last == null && lastAllocated == null && lastIndex == None
    {
      this.strategy := strategy;
      mySize := size;
      head, last := null, null;
      nodes := [];
      myMemory := base;
      lastAllocated, lastIndex := null, None;
    }

    // The first node of a new pool.
    method MakePool(base: int, size: nat)
      requires nodes == [] && head == null && last == null
      modifies this`head, this`last, this`nodes
      ensures ListOk() && fresh(nodes) && Blocks() == [Block(base, size, false)]
    {
      var n := InsertIntoList(null, 0);
      n.datum := Block(base, size, false);
      assert nodes == [n];
    }

    // Links a new node after `after`, or first; k is its position.
    method InsertIntoList(after: NodeOrNull, ghost k: nat) returns (n: Node)
      requires ListOk() && k <= |nodes| && after == L.At(nodes, k - 1)
      modifies this`head, this`last, this`nodes, nodes`prev, nodes`next
      ensures ListOk() && fresh(n) && nodes == old(nodes)[..k] + [n] + old(nodes)[k..]
    {
      n := new L.Elem(Block(0, 0, false));
      n.prev := after;
      if after == null {
        n.next := head;
        head := n;
      } else {
        n.next := after.next;
        after.next := n;
      }
      if n.next == null {
        last := n;
      } else {
        n.next.prev := n;
      }
      L.LinkedWith(nodes, k, n);
      L.DistinctWith(nodes, k, n, nodes[..k] + [n] + nodes[k..]);
      nodes := nodes[..k] + [n] + nodes[k..];
    }

    // Unlinks the node at position i.
    method RemoveFromList(rem: Node, ghost i: nat)
      requires ListOk() && i < |nodes| && nodes[i] == rem
      modifies this`head, this`last, this`nodes, nodes`prev, nodes`next
      ensures ListOk() && nodes == old(nodes)[..i] + old(nodes)[i + 1..]
    {
      if rem.prev == null {
        head := rem.next;
      } else {
        assert rem.prev == nodes[i - 1];
        rem.prev.next := rem.next;
      }
      if rem.next == null {
        last := rem.prev;
      } else {
        assert rem.next == nodes[i + 1];
        rem.next.prev := rem.prev;
      }
      ghost var rest := nodes[..i] + nodes[i + 1..];
      L.DistinctWithout(nodes, i, rest);
      L.LinkedWithout(nodes, i, rest);
      L.EndsWithout(nodes, i, rest);
      nodes := rest;
    }

    // ---- Searching ----

    method FindFirst(requested: nat) returns (toUse: NodeOrNull)
      requires ListOk()
      ensures toUse == NodeAt(nodes, FirstIn(Blocks(), |nodes|, requested))
    {
      ghost var i, bs := 0, Blocks();
      var cur := head;
      toUse := null;
      while cur != null && toUse == null
        invariant i <= |nodes|
        invariant cur == L.At(nodes, i) && FirstIn(bs, i, requested).None?
        invariant toUse != null ==> toUse == cur && bs[i].Fits(requested)
        decreases |nodes| - i, toUse == null
      {
        if !cur.datum.used && cur.datum.size >= requested {
          toUse := cur;
        } else {
          cur := cur.next;
          i := i + 1;
        }
      }
      if toUse != null {
        FirstInStays(bs, i, |nodes|, requested);
      }
    }

    method FindBest(requested: nat) returns (toUse: NodeOrNull)
      requires ListOk() && forall k :: 0 <= k < |nodes| ==> nodes[k].datum.size <= mySize
      ensures toUse == NodeAt(nodes, BestIn(Blocks(), |nodes|, requested))
    {
      ghost var i, bs := 0, Blocks();
      var cur := head;
      toUse := null;
      var bestSize := mySize + 1;
      while cur != null
        invariant i <= |nodes| && cur == L.At(nodes, i)
        invariant toUse == NodeAt(nodes, BestIn(bs, i, requested))
        invariant bestSize == if toUse == null then mySize + 1 else toUse.datum.size
        decreases |nodes| - i
      {
        if !cur.datum.used && cur.datum.size >= requested {
          if cur.datum.size < bestSize {
            toUse := cur;
            bestSize := cur.datum.size;
          }
        }
        cur := cur.next;
        i := i + 1;
      }
    }

    method FindWorst(requested: nat) returns (toUse: NodeOrNull)
      requires ListOk() && requested >= 1
      ensures toUse == NodeAt(nodes, WorstIn(Blocks(), |nodes|, requested))
    {
      ghost var i, bs := 0, Blocks();
      var cur := head;
      toUse := null;
      var worstSize := 0;
      while cur != null
        invariant i <= |nodes| && cur == L.At(nodes, i)
        invariant toUse == NodeAt(nodes, WorstIn(bs, i, requested))
        invariant worstSize == if toUse == null then 0 else toUse.datum.size
        decreases |nodes| - i
      {
        if !cur.datum.used && cur.datum.size >= requested {
          if cur.datum.size > worstSize {
            toUse := cur;
            worstSize := cur.datum.size;
          }
        }
        cur := cur.next;
        i := i + 1;
      }
    }

    // The next node in cyclic order; the raw pool's link is read as NULL.
    method Advance(cur: NodeOrNull, ghost at: nat) returns (next: Node)
      requires ListOk() && Precedes(nodes, cur, at)
      ensures next == nodes[at]
    {
      var t := if cur == null then null else cur.next;
      if t == null {
        t := head;
      }
      return t;
    }

    // Without a fit, a search from the raw pool would never end.
    method FindNext(requested: nat) returns (toUse: NodeOrNull)
      requires ListOk() && |nodes| > 0 && lastAllocated == NodeAt(nodes, lastIndex)
      requires lastIndex.Some? ==> lastIndex.value < |nodes|
      requires lastIndex.None? ==> SomeFit(Blocks(), requested)
      ensures toUse == NodeAt(nodes, Choice(Next, Blocks(), lastIndex, requested))
    {
      ghost var n, bs := |nodes|, Blocks();
      ghost var at: nat := if lastIndex.Some? then Succ(n, lastIndex.value) else 0;
      ghost var goal := Choice(Next, bs, lastIndex, requested);
      var cur := lastAllocated;
      toUse := null;
      while toUse == null
        invariant at < n && (toUse == null ==> Precedes(nodes, cur, at))
        invariant toUse == null ==> StillLooking(bs, at, lastIndex, requested)
        invariant toUse != null ==> goal == Some(at) && toUse == nodes[at]
        decreases toUse == null, if lastIndex.Some? then Distance(n, at, lastIndex.value) else n - at
      {
        cur := Advance(cur, at);
        LookAt(bs, at, lastIndex, requested);
        if !cur.datum.used && cur.datum.size >= requested {
          toUse := cur;
        }
        if cur == lastAllocated {
          assert lastIndex == Some(at);
          toUse := null;
          break;
        }
        if toUse == null {
          at := Succ(n, at);
        }
      }
    }
  
    // ---- Allocating ----

    method FindBlock(requested: nat) returns (toUse: NodeOrNull)
      requires ListOk() && lastAllocated == NodeAt(nodes, lastIndex) && Searchable(State(), requested)
      ensures toUse == NodeAt(nodes, Target(State(), requested))
    {
      match strategy
      case NotSet => toUse := null;
      case First => toUse := FindFirst(requested);
      case Best => toUse := FindBest(requested);
      case Worst => toUse := FindWorst(requested);
      case Next => toUse := FindNext(requested);
    }

    // None is returned for NULL.
    method Malloc(requested: nat) returns (ptr: Option<int>)
      requires Valid() && Legal(State(), Call.Malloc(requested))
      modifies this, nodes
      ensures Valid()
      ensures forall i :: 0 <= i < |nodes| ==> nodes[i] in old(nodes) || fresh(nodes[i])
      ensures State() == AfterMalloc(old(State()), requested)
      ensures ptr == Result(old(State()), requested)
      // The pointer returned is that of the block the strategy asks for, and NULL
      // is returned only if there is none.
      ensures match ptr
              case Some(p) => exists k :: 0 <= k < |old(Blocks())| && old(Blocks())[k].ptr == p
                                          && RightPlace(strategy, old(Blocks()), old(lastIndex), requested, k)
              case None => !HasPlace(strategy, old(Blocks()), old(lastIndex), requested)
      // The block is now the one last allocated.
      ensures ptr.Some? ==> lastAllocated != null && lastAllocated in nodes && lastAllocated.datum == Block(ptr.value, requested, true)
    {
      ghost var m := State();
      MallocPlaces(m, requested);
      MallocRemembers(m, requested);
      MallocSteps(m, requested);
      LegalSearch(m, requested);
      var toUse := FindBlock(requested);
      if toUse == null {
        return None;
      }
      FoundBlock(toUse, m, requested);
      ptr := Some(toUse.datum.ptr);
      MallocFound(toUse, Target(m, requested).value, requested, AfterMalloc(m, requested));
    }

    lemma FoundBlock(toUse: Node, m: Mem, requested: nat)
      requires State() == m && MemState.Inv(m) && Legal(m, Call.Malloc(requested))
      requires toUse == NodeAt(nodes, Target(m, requested))
      ensures var goal := AfterMalloc(m, requested);
              && goal.last.Some? && goal.last == Target(m, requested) && goal.last.value < |nodes| && nodes[goal.last.value] == toUse
              && toUse.datum.Fits(requested) && Result(m, requested) == Some(toUse.datum.ptr)
              && goal == Mem(myMemory, mySize, strategy, Place(Blocks(), goal.last.value, requested), goal.last)
    {
      MallocSteps(m, requested);
    }

    // The rest of `mymalloc`: the state becomes `goal`.
    method MallocFound(toUse: Node, ghost k: nat, requested: nat, ghost goal: Mem)
      requires ListOk() && k < |nodes| && nodes[k] == toUse && toUse.datum.Fits(requested)
      requires MemState.Inv(goal) && goal == Mem(myMemory, mySize, strategy, Place(Blocks(), k, requested), Some(k))
      modifies this, nodes
      ensures Valid() && State() == goal
      ensures forall i :: 0 <= i < |nodes| ==> nodes[i] in old(nodes) || fresh(nodes[i])
    {
      TakeAndRemember(toUse, k, requested);
      Stands(goal);
    }

    // The end of `mymalloc`, once a block has been found.
    method TakeAndRemember(toUse: Node, ghost k: nat, requested: nat)
      requires ListOk() && k < |nodes| && nodes[k] == toUse && toUse.datum.Fits(requested)
      modifies this`head, this`last, this`nodes, this`lastAllocated, this`lastIndex, nodes
      ensures ListOk() && lastIndex == Some(k) && lastAllocated == NodeAt(nodes, lastIndex)
      ensures forall i :: 0 <= i < |nodes| ==> nodes[i] in old(nodes) || fresh(nodes[i])
      ensures Blocks() == Place(old(Blocks()), k, requested)
    {
      TakeBlock(toUse, k, requested);
      Remember(toUse, k);
    }

    // Splits off what is left over, then marks the block.
    method TakeBlock(toUse: Node, ghost k: nat, requested: nat)
      requires ListOk() && k < |nodes| && nodes[k] == toUse && toUse.datum.Fits(requested)
      modifies this`head, this`last, this`nodes, nodes
      ensures ListOk()
      ensures forall i :: 0 <= i < |nodes| ==> nodes[i] in old(nodes) || fresh(nodes[i])
      ensures Blocks() == Place(old(Blocks()), k, requested)
      ensures k < |nodes| && nodes[k] == toUse && toUse.datum.ptr == old(toUse.datum.ptr)
    {
      TakenBlocks(Blocks(), k, requested);
      if toUse.datum.size > requested {
        SplitOff(toUse, k, requested);
      }
      SetBlock(toUse, k, Block(toUse.datum.ptr, requested, true));
    }

    // The leftover of the block becomes a free node after it.
    method SplitOff(toUse: Node, ghost k: nat, requested: nat)
      requires ListOk() && k < |nodes| && nodes[k] == toUse && toUse.datum.size > requested
      modifies this`head, this`last, this`nodes, nodes`prev, nodes`next
      ensures ListOk() && k < |nodes| && nodes[k] == toUse
      ensures forall i :: 0 <= i < |nodes| ==> nodes[i] in old(nodes) || fresh(nodes[i])
      ensures Blocks() == Split(old(Blocks()), k, requested)
    {
      var leftover := InsertBlock(toUse, k + 1, Block(toUse.datum.ptr + requested, toUse.datum.size - requested, false));
    }

    method InsertBlock(after: Node, ghost k: nat, block: Block) returns (n: Node)
      requires ListOk() && 1 <= k <= |nodes| && after == nodes[k - 1]
      modifies this`head, this`last, this`nodes, nodes`prev, nodes`next
      ensures ListOk() && fresh(n) && nodes == old(nodes)[..k] + [n] + old(nodes)[k..]
      ensures Blocks() == old(Blocks())[..k] + [block] + old(Blocks())[k..]
    {
      ghost var bs, before := Blocks(), nodes;
      n := InsertIntoList(after, k);
      n.datum := block;
      InsertedData(before, k, n, nodes, bs, Blocks());
    }

    method SetBlock(n: Node, ghost k: nat, block: Block)
      requires ListOk() && k < |nodes| && nodes[k] == n
      modifies n`datum
      ensures ListOk() && Blocks() == old(Blocks())[k := block]
    {
      n.datum := block;
    }

    // ---- Freeing ----

    method RemoveBlock(rem: Node, ghost i: nat)
      requires ListOk() && i < |nodes| && nodes[i] == rem
      modifies this`head, this`last, this`nodes, nodes`prev, nodes`next
      ensures ListOk() && nodes == old(nodes)[..i] + old(nodes)[i + 1..]
      ensures Blocks() == old(Blocks())[..i] + old(Blocks())[i + 1..]
    {
      ghost var bs, before := Blocks(), nodes;
      RemoveFromList(rem, i);
      RemovedData(before, i, nodes, bs, Blocks());
    }

    // Node p at position k takes over the bytes of its successor, which goes.
    method MergeWithNext(p: Node, ghost k: nat)
      requires ListOk() && k + 1 < |nodes| && nodes[k] == p
      modifies this`head, this`last, this`nodes, nodes
      ensures ListOk() && Blocks() == Merge(old(Blocks()), k)
      ensures nodes == old(nodes)[..k + 1] + old(nodes)[k + 2..]
    {
      MergedBlocks(Blocks(), k);
      SetBlock(p, k, p.datum.(size := p.datum.size + p.next.datum.size));
      RemoveBlock(p.next, k + 1);
    }

    method CoalescePrev(start: Node, ghost k: nat) returns (cur: Node, ghost j: nat)
      requires ListOk() && k < |nodes| && nodes[k] == start
      modifies this`head, this`last, this`nodes, nodes
      ensures ListOk() && Blocks() == MergePrev(old(Blocks()), k).0 && j == MergePrev(old(Blocks()), k).1
      ensures j < |nodes| && nodes[j] == cur && NoneNew(old(nodes), nodes)
    {
      cur, j := start, k;
      if cur.prev != null {
        if !cur.prev.datum.used {
          cur, j := cur.prev, k - 1;
          MergeWithNext(cur, j);
        }
      }
    }

    method CoalesceNext(cur: Node, ghost k: nat)
      requires ListOk() && k < |nodes| && nodes[k] == cur
      modifies this`head, this`last, this`nodes, nodes
      ensures ListOk() && Blocks() == MergeNext(old(Blocks()), k).0
      ensures k < |nodes| && nodes[k] == cur && NoneNew(old(nodes), nodes)
    {
      if cur.next != null {
        if !cur.next.datum.used {
          MergeWithNext(cur, k);
        }
      }
    }

    // The body of `myfree` once the block is found and in use.
    method ReleaseBlock(found: Node, ghost k: nat, ghost bs: seq<Block>, ghost goal: (seq<Block>, nat)) returns (cur: Node, ghost j: nat)
      requires ListOk() && k < |nodes| && nodes[k] == found && Blocks() == bs && goal == Release(bs, k)
      modifies this`head, this`last, this`nodes, nodes
      ensures ListOk() && NoneNew(old(nodes), nodes) && j < |nodes| && nodes[j] == cur
      ensures Blocks() == goal.0 && j == goal.1
    {
      SetBlock(found, k, found.datum.(used := false));
      ghost var a := Blocks();
      assert a == bs[k := bs[k].(used := false)];
      cur, j := CoalescePrev(found, k);
      assert (Blocks(), j) == MergePrev(a, k);
      CoalesceNext(cur, j);
    }

    // The same, ending with the assignment to `last_allocated`.
    method ReleaseAndRemember(found: Node, ghost k: nat, ghost bs: seq<Block>, ghost goal: (seq<Block>, nat))
      requires ListOk() && k < |nodes| && nodes[k] == found && Blocks() == bs && goal == Release(bs, k)
      modifies this`head, this`last, this`nodes, this`lastAllocated, this`lastIndex, nodes
      ensures ListOk() && NoneNew(old(nodes), nodes)
      ensures Blocks() == goal.0 && lastIndex == Some(goal.1) && lastAllocated == NodeAt(nodes, lastIndex)
    {
      var cur;
      ghost var j;
      cur, j := ReleaseBlock(found, k, bs, goal);
      Remember(cur, j);
    }

    method Remember(cur: Node, ghost j: nat)
      requires j < |nodes| && nodes[j] == cur
      modifies this`lastAllocated, this`lastIndex
      ensures lastIndex == Some(j) && lastAllocated == cur
    {
      lastAllocated, lastIndex := cur, Some(j);
    }

    // The search of `myfree`.
    method FindNode(block: int) returns (cur: NodeOrNull)
      requires ListOk()
      ensures cur == L.At(nodes, Find(Blocks(), block))
    {
      ghost var k, bs := 0, Blocks();
      cur := head;
      while cur != null
        invariant k <= |nodes| && cur == L.At(nodes, k)
        invariant forall i :: 0 <= i < k ==> bs[i].ptr != block
        decreases |nodes| - k
      {
        if cur.datum.ptr == block {
          FindIs(bs, block, k);
          return;
        } else {
          cur := cur.next;
          k := k + 1;
        }
      }
      FindIs(bs, block, k);
    }

    method Free(block: int)
      requires Valid()
      modifies this, nodes
      ensures Valid()
      ensures NoneNew(old(nodes), nodes)
      ensures State() == AfterFree(old(State()), block)
      // The block last allocated is now the free one that contains the address.
      ensures if IsLive(old(Blocks()), block) then
                && lastAllocated != null && lastAllocated in nodes && !lastAllocated.datum.used
                && lastAllocated.datum.ptr <= block < lastAllocated.datum.End()
              else State() == old(State()) && lastAllocated == old(lastAllocated)
    {
      ghost var m := State();
      FreeRemembers(m, block);
      var cur := FindNode(block);
      if cur == null || !cur.datum.used {
        FreeNothing(m, block);
        return;
      }
      FoundNode(cur, m, block);
      FreeFound(cur, Find(m.blocks, block), AfterFree(m, block));
    }

    lemma FoundNode(cur: Node, m: Mem, block: int)
      requires State() == m && MemState.Inv(m) && cur.datum.used && cur == L.At(nodes, Find(Blocks(), block))
      ensures var k, goal := Find(m.blocks, block), AfterFree(m, block);
              && k < |nodes| && nodes[k] == cur && MemState.Inv(goal)
              && goal == Mem(myMemory, mySize, strategy, Release(Blocks(), k).0, Some(Release(Blocks(), k).1))
    {
      FreeSteps(m, block, Find(m.blocks, block));
    }

    // The rest of `myfree`: the state becomes `goal`.
    method FreeFound(found: Node, ghost k: nat, ghost goal: Mem)
      requires ListOk() && k < |nodes| && nodes[k] == found
      requires MemState.Inv(goal)
      requires goal == Mem(myMemory, mySize, strategy, Release(Blocks(), k).0, Some(Release(Blocks(), k).1))
      modifies this, nodes
      ensures Valid() && NoneNew(old(nodes), nodes) && State() == goal
    {
      ReleaseAndRemember(found, k, Blocks(), Release(Blocks(), k));
      Stands(goal);
    }

    // ---- Status ----

    method MemHoles() returns (count: nat)
      requires ListOk()
      ensures count == Holes(Blocks(), |nodes|) == |FreePositions(Blocks(), |nodes|)|
    {
      ghost var i, bs := 0, Blocks();
      count := 0;
      var cur := head;
      while cur != null
        invariant i <= |nodes| && cur == L.At(nodes, i) && count == Holes(bs, i)
        decreases |nodes| - i
      {
        if !cur.datum.used {
          count := count + 1;
        }
        cur := cur.next;
        i := i + 1;
      }
      HolesAreFree(bs, |bs|);
    }

    method MemAllocated() returns (count: nat)
      requires ListOk()
      ensures count == UsedBytes(Blocks(), |nodes|)
      ensures Valid() ==> count == TotalSize(Live(Blocks()))
    {
      ghost var i, bs := 0, Blocks();
      count := 0;
      var cur := head;
      while cur != null
        invariant i <= |nodes| && cur == L.At(nodes, i) && count == UsedBytes(bs, i)
        decreases |nodes| - i
      {
        if cur.datum.used {
          count := count + cur.datum.size;
        }
        cur := cur.next;
        i := i + 1;
      }
      BytesOf(State());
    }

    method MemFree() returns (count: nat)
      requires ListOk()
      ensures count == FreeBytes(Blocks(), |nodes|)
      ensures Valid() ==> count + TotalSize(Live(Blocks())) == mySize
    {
      ghost var i, bs := 0, Blocks();
      count := 0;
      var cur := head;
      while cur != null
        invariant i <= |nodes| && cur == L.At(nodes, i) && count == FreeBytes(bs, i)
        decreases |nodes| - i
      {
        if !cur.datum.used {
          count := count + cur.datum.size;
        }
        cur := cur.next;
        i := i + 1;
      }
      BytesOf(State());
    }

    method MemLargestFree() returns (max: nat)
      requires ListOk()
      ensures max == LargestFree(Blocks(), |nodes|)
    {
      ghost var i, bs := 0, Blocks();
      max := 0;
      var cur := head;
      while cur != null
        invariant i <= |nodes| && cur == L.At(nodes, i) && max == LargestFree(bs, i)
        decreases |nodes| - i
      {
        if !cur.datum.used {
          if cur.datum.size > max {
            max := cur.datum.size;
          }
        }
        cur := cur.next;
        i := i + 1;
      }
    }
  }

  // The two byte counts in any valid state.
  lemma BytesOf(m: Mem)
    ensures MemState.Inv(m) ==>
              && UsedBytes(m.blocks, |m.blocks|) == TotalSize(Live(m.blocks))
              && UsedBytes(m.blocks, |m.blocks|) + FreeBytes(m.blocks, |m.blocks|) == m.total
  {
    if MemState.Inv(m) && m != UNINITIALISED {
      assert m.blocks[..|m.blocks|] == m.blocks;
      UsedBytesAreLive(m.blocks, m.base, m.total, |m.blocks|);
      Conservation(m.blocks, m.base, m.total, |m.blocks|);
    }
  }

  lemma InsertedData(before: seq<Node>, k: nat, n: Node, after: seq<Node>, bs: seq<Block>, cs: seq<Block>)
    requires k <= |before| && after == before[..k] + [n] + before[k..]
    requires |bs| == |before| && |cs| == |after|
    requires forall i :: 0 <= i < |before| ==> bs[i] == before[i].datum
    requires forall i :: 0 <= i < |after| ==> cs[i] == after[i].datum
    ensures cs == bs[..k] + [n.datum] + bs[k..]
  {
  }

  lemma MallocSteps(m: Mem, requested: nat)
    requires MemState.Inv(m) && Legal(m, Call.Malloc(requested))
    ensures MemState.Inv(AfterMalloc(m, requested))
    ensures match Target(m, requested)
            case None => AfterMalloc(m, requested) == m && Result(m, requested) == None
            case Some(k) =>
              && k < |m.blocks| && m.blocks[k].Fits(requested)
              && AfterMalloc(m, requested) == m.(blocks := Place(m.blocks, k, requested), last := Some(k))
              && Result(m, requested) == Some(m.blocks[k].ptr)
  {
    ChoiceFits(m.strategy, m.blocks, m.last, requested);
    MemState.StepInv(m, Call.Malloc(requested));
  }

  ghost predicate NoneNew(before: seq<Node>, after: seq<Node>) {
    forall i :: 0 <= i < |after| ==> after[i] in before
  }

  lemma MergedBlocks(bs: seq<Block>, k: nat)
    requires k + 1 < |bs|
    ensures var b := bs[k].(size := bs[k].size + bs[k + 1].size);
            bs[k := b][..k + 1] + bs[k := b][k + 2..] == Merge(bs, k)
  {
  }

  lemma RemovedData(before: seq<Node>, i: nat, after: seq<Node>, bs: seq<Block>, cs: seq<Block>)
    requires i < |before| && after == before[..i] + before[i + 1..]
    requires |bs| == |before| && |cs| == |after|
    requires forall j :: 0 <= j < |before| ==> bs[j] == before[j].datum
    requires forall j :: 0 <= j < |after| ==> cs[j] == after[j].datum
    ensures cs == bs[..i] + bs[i + 1..]
  {
  }

  lemma FreeSteps(m: Mem, ptr: int, k: nat)
    requires MemState.Inv(m) && k == Find(m.blocks, ptr) && k < |m.blocks| && m.blocks[k].used
    ensures MemState.Inv(AfterFree(m, ptr))
    ensures AfterFree(m, ptr) == m.(blocks := Release(m.blocks, k).0, last := Some(Release(m.blocks, k).1))
  {
    MemState.StepInv(m, Call.Free(ptr));
  }

  lemma FreeNothing(m: Mem, ptr: int)
    requires Find(m.blocks, ptr) < |m.blocks| ==> !m.blocks[Find(m.blocks, ptr)].used
    ensures AfterFree(m, ptr) == m
  {
  }

  lemma InitSteps(strategy: Strategy, size: nat, base: int)
    ensures MemState.Inv(AfterInit(strategy, size, base))
  {
  }

  lemma FindIs(bs: seq<Block>, ptr: int, k: nat)
    requires k <= |bs| && (k < |bs| ==> bs[k].ptr == ptr)
    requires forall i :: 0 <= i < k ==> bs[i].ptr != ptr
    ensures Find(bs, ptr) == k
  {
  }

  // The blocks once the leftover has its own node, and before the split block
  // shrinks.
  function Split(bs: seq<Block>, k: nat, requested: nat): seq<Block>
    requires k < |bs| && requested < bs[k].size
  {
    bs[..k + 1] + [Block(bs[k].ptr + requested, bs[k].size - requested, false)] + bs[k + 1..]
  }

  lemma TakenBlocks(bs: seq<Block>, k: nat, requested: nat)
    requires k < |bs| && bs[k].Fits(requested)
    ensures (if bs[k].size > requested then Split(bs, k, requested) else bs)[k := Block(bs[k].ptr, requested, true)] ==
            Place(bs, k, requested)
  {
  }

  // What the searching loops rely on.
  ghost predicate Searchable(m: Mem, requested: nat) {
    && requested >= 1 && m.blocks != [] && (m.last.Some? ==> m.last.value < |m.blocks|)
    && (forall k :: 0 <= k < |m.blocks| ==> m.blocks[k].size <= m.total)
    && (m.strategy.Next? && m.last.None? ==> SomeFit(m.blocks, requested))
  }

  lemma LegalSearch(m: Mem, requested: nat)
    requires MemState.Inv(m) && Legal(m, Call.Malloc(requested))
    ensures Searchable(m, requested)
  {
    SizesBounded(m.blocks, m.base, m.total);
    if m.last.None? {
      FirstSearchEndsIff(m, requested);
    }
  }

  lemma SizesBounded(bs: seq<Block>, base: int, total: nat)
    requires Tiles(bs, base, total)
    ensures forall k :: 0 <= k < |bs| ==> bs[k].size <= total
  {
    forall k | 0 <= k < |bs| ensures bs[k].size <= total {
      InsidePool(bs, base, total, k);
    }
  }

  // Node `cur` comes just before position `at`, cyclically; NULL comes before
  // the head.
  ghost predicate Precedes(nodes: seq<Node>, cur: NodeOrNull, at: nat) {
    at < |nodes| && if at == 0 then cur == null || cur == nodes[|nodes| - 1] else cur == nodes[at - 1]
  }

  // The Next-fit search has reached position `at` without finding its answer.
  ghost predicate StillLooking(bs: seq<Block>, at: nat, last: Option<nat>, requested: nat) {
    && at < |bs| && (last.Some? ==> last.value < |bs|)
    && if last.Some? then NextIn(bs, at, last.value, requested) == Choice(Next, bs, last, requested)
       else SomeFit(bs, requested) && FirstIn(bs, at, requested).None?
  }

  lemma LookAt(bs: seq<Block>, at: nat, last: Option<nat>, requested: nat)
    requires StillLooking(bs, at, last, requested)
    ensures last == Some(at) ==> Choice(Next, bs, last, requested).None?
    ensures last != Some(at) && bs[at].Fits(requested) ==> Choice(Next, bs, last, requested) == Some(at)
    ensures last != Some(at) && !bs[at].Fits(requested) ==> StillLooking(bs, Succ(|bs|, at), last, requested)
    ensures last.None? && !bs[at].Fits(requested) ==> at + 1 < |bs|
  {
    if last.None? {
      if bs[at].Fits(requested) {
        FirstInStays(bs, at, |bs|, requested);
      } else {
        FirstInCorrect(bs, at + 1, requested);
      }
    }
  }

  // Once found, the first fit stays the answer for longer prefixes.
  lemma {:induction false} FirstInStays(bs: seq<Block>, i: nat, n: nat, requested: nat)
    requires i < n <= |bs| && FirstIn(bs, i, requested).None? && bs[i].Fits(requested)
    ensures FirstIn(bs, n, requested) == Some(i)
  {
    if n > i + 1 {
      FirstInStays(bs, i, n - 1, requested);
    }
  }

  // Allocating and freeing at once leaves the blocks as they were.
  method MallocThenFree(a: Allocator, requested: nat)
    requires a.Valid() && Legal(a.State(), Call.Malloc(requested))
    modifies a, a.nodes
    ensures a.Valid() && a.Blocks() == old(a.Blocks())
  {
    ghost var m := a.State();
    var ptr := a.Malloc(requested);
    if ptr.Some? {
      FreeAfterMalloc(m, requested, ptr.value);
      a.Free(ptr.value);
    }
  }
}
