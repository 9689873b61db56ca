// Allocating and freeing on values: what `mymalloc` and `myfree` do to the list
// of blocks, and what holds after any sequence of calls.

module MemState {
  import opened Common
  import opened MemBlocks
  import opened NextSearch

  // Take block k for a request, splitting off what is left over.
  function Place(bs: seq<Block>, k: nat, requested: nat): seq<Block>
    requires k < |bs| && bs[k].size >= requested
  {
    var b := bs[k];
    if b.size > requested then
      bs[..k] + [Block(b.ptr, requested, true), Block(b.ptr + requested, b.size - requested, false)] + bs[k + 1..]
    else
      bs[k := b.(used := true)]
  }

  // Merge block k + 1 into block k.
  function Merge(bs: seq<Block>, k: nat): seq<Block>
    requires k + 1 < |bs|
  {
    bs[..k] + [Block(bs[k].ptr, bs[k].size + bs[k + 1].size, bs[k].used)] + bs[k + 2..]
  }

  // Free block k, merging it with a free predecessor and then a free successor;
  // also the index of the resulting block.
  function MergePrev(bs: seq<Block>, k: nat): (r: (seq<Block>, nat))
    requires k < |bs|
    ensures r.1 < |r.0|
  {
    if k > 0 && !bs[k - 1].used then (Merge(bs, k - 1), k - 1) else (bs, k)
  }

  function MergeNext(bs: seq<Block>, k: nat): (r: (seq<Block>, nat))
    requires k < |bs|
    ensures r.1 < |r.0|
  {
    if k + 1 < |bs| && !bs[k + 1].used then (Merge(bs, k), k) else (bs, k)
  }

  function Release(bs: seq<Block>, k: nat): (r: (seq<Block>, nat))
    requires k < |bs|
    ensures r.1 < |r.0|
  {
    var p := MergePrev(bs[k := bs[k].(used := false)], k);
    MergeNext(p.0, p.1)
  }

  // The first block at an address, or the length.
  function Find(bs: seq<Block>, ptr: int): (r: nat)
    ensures r <= |bs| && (r < |bs| ==> bs[r].ptr == ptr) && forall i :: 0 <= i < r ==> bs[i].ptr != ptr
  {
    if bs == [] || bs[0].ptr == ptr then 0 else 1 + Find(bs[1..], ptr)
  }

  lemma FindAt(bs: seq<Block>, base: int, total: nat, k: nat)
    requires Tiles(bs, base, total) && k < |bs|
    ensures Find(bs, bs[k].ptr) == k
  {
    var i := Find(bs, bs[k].ptr);
    if i < k {
      Ordered(bs, base, total, i, k);
    }
  }

  lemma PlaceAt(bs: seq<Block>, k: nat, requested: nat)
    requires k < |bs| && requested < bs[k].size
    ensures |Place(bs, k, requested)| == |bs| + 1
    ensures Place(bs, k, requested)[k] == Block(bs[k].ptr, requested, true)
    ensures Place(bs, k, requested)[k + 1] == Block(bs[k].ptr + requested, bs[k].size - requested, false)
    ensures forall i :: 0 <= i < k ==> Place(bs, k, requested)[i] == bs[i]
    ensures forall i :: k + 2 <= i < |bs| + 1 ==> Place(bs, k, requested)[i] == bs[i - 1]
  {
  }

  lemma PlaceGood(bs: seq<Block>, base: int, total: nat, k: nat, requested: nat)
    requires Good(bs, base, total) && k < |bs| && bs[k].Fits(requested) && requested >= 1
    ensures Good(Place(bs, k, requested), base, total)
  {
    var r := Place(bs, k, requested);
    if bs[k].size > requested {
      PlaceAt(bs, k, requested);
      forall i | 0 <= i < |r| - 1
        ensures r[i].End() == r[i + 1].ptr && (r[i].used || r[i + 1].used)
      {
        if i < k {
          assert bs[i].End() == bs[i + 1].ptr;
        } else if i > k {
          assert bs[i - 1].used || (i < |bs| ==> bs[i].used);
          assert i < |bs| ==> bs[i - 1].End() == bs[i].ptr;
        }
      }
    } else {
      forall i | 0 <= i < |r| - 1
        ensures r[i].End() == r[i + 1].ptr && (r[i].used || r[i + 1].used)
      {
        assert bs[i].End() == bs[i + 1].ptr && (bs[i].used || bs[i + 1].used);
      }
    }
  }

  lemma MergeAt(bs: seq<Block>, k: nat)
    requires k + 1 < |bs|
    ensures |Merge(bs, k)| == |bs| - 1
    ensures Merge(bs, k)[k] == Block(bs[k].ptr, bs[k].size + bs[k + 1].size, bs[k].used)
    ensures forall i :: 0 <= i < k ==> Merge(bs, k)[i] == bs[i]
    ensures forall i :: k + 1 <= i < |bs| - 1 ==> Merge(bs, k)[i] == bs[i + 1]
  {
  }

  lemma MergeTiles(bs: seq<Block>, base: int, total: nat, k: nat)
    requires Tiles(bs, base, total) && k + 1 < |bs|
    ensures Tiles(Merge(bs, k), base, total)
  {
    MergeAt(bs, k);
    var r := Merge(bs, k);
    assert bs[k].End() == bs[k + 1].ptr;
    forall i | 0 <= i < |r| - 1
      ensures r[i].End() == r[i + 1].ptr
    {
      if i < k {
        assert bs[i].End() == bs[i + 1].ptr;
      } else {
        assert bs[i + 1].End() == bs[i + 2].ptr;
      }
    }
  }

  // Every free neighbouring pair involves block k.
  ghost predicate CoalescedBut(bs: seq<Block>, k: nat) {
    forall i {:trigger bs[i].used} :: 0 <= i < |bs| - 1 && i != k && i + 1 != k ==> bs[i].used || bs[i + 1].used
  }

  lemma ReleaseGood(bs: seq<Block>, base: int, total: nat, k: nat)
    requires Good(bs, base, total) && k < |bs| && bs[k].used
    ensures Good(Release(bs, k).0, base, total)
  {
    var a := bs[k := bs[k].(used := false)];
    assert Tiles(a, base, total) by {
      forall i | 0 <= i < |a| - 1 ensures a[i].End() == a[i + 1].ptr {
        assert bs[i].End() == bs[i + 1].ptr;
      }
    }
    FreePrevGood(a, base, total, k);
  }

  lemma FreePrevGood(bs: seq<Block>, base: int, total: nat, k: nat)
    requires Tiles(bs, base, total) && CoalescedBut(bs, k) && k < |bs| && !bs[k].used
    ensures var p := MergePrev(bs, k); Good(MergeNext(p.0, p.1).0, base, total)
  {
    var p := MergePrev(bs, k);
    if k > 0 && !bs[k - 1].used {
      MergeTiles(bs, base, total, k - 1);
      MergeAt(bs, k - 1);
      assert k >= 2 ==> bs[k - 2].used;
      forall i | 0 <= i < |p.0| - 1 && i != k - 1
        ensures p.0[i].used || p.0[i + 1].used
      {
        if i < k - 1 {
          assert bs[i].used || bs[i + 1].used;
        } else {
          assert bs[i + 1].used || bs[i + 2].used;
        }
      }
    }
    FreeNextGood(p.0, base, total, p.1);
  }

  lemma FreeNextGood(bs: seq<Block>, base: int, total: nat, k: nat)
    requires Tiles(bs, base, total) && k < |bs| && !bs[k].used
    requires forall i {:trigger bs[i].used} :: 0 <= i < |bs| - 1 && i != k ==> bs[i].used || bs[i + 1].used
    ensures Good(MergeNext(bs, k).0, base, total)
  {
    if k + 1 < |bs| && !bs[k + 1].used {
      MergeTiles(bs, base, total, k);
      MergeAt(bs, k);
      var r := Merge(bs, k);
      forall i | 0 <= i < |r| - 1
        ensures r[i].used || r[i + 1].used
      {
        if i < k {
          assert bs[i].used || bs[i + 1].used;
        } else {
          assert bs[i + 1].used || bs[i + 2].used;
        }
      }
    }
  }

  // Freeing the block just placed gives back the very same blocks: it merges with
  // what the split left over and with nothing else.
  lemma FreeUndoesMalloc(bs: seq<Block>, base: int, total: nat, k: nat, requested: nat)
    requires Good(bs, base, total) && k < |bs| && bs[k].Fits(requested) && requested >= 1
    ensures var r := Place(bs, k, requested);
            && Find(r, bs[k].ptr) == k && r[k].used
            && Release(r, k) == (bs, k)
  {
    var r := Place(bs, k, requested);
    PlaceGood(bs, base, total, k, requested);
    assert k > 0 ==> bs[k - 1].used;
    assert k + 1 < |bs| ==> bs[k + 1].used;
    if bs[k].size > requested {
      PlaceAt(bs, k, requested);
      MergeUndoesSplit(bs, k, requested);
    } else {
      assert r[k := r[k].(used := false)] == bs;
    }
    FindAt(r, base, total, k);
  }

  lemma MergeUndoesSplit(bs: seq<Block>, k: nat, requested: nat)
    requires k < |bs| && requested < bs[k].size && !bs[k].used
    ensures var r := Place(bs, k, requested);
            k + 1 < |r| && Merge(r[k := r[k].(used := false)], k) == bs
  {
  }

  // ---- Live allocations ----

  datatype Allocation = Allocation(ptr: int, size: nat)

  ghost function Live(bs: seq<Block>): set<Allocation> {
    set i | 0 <= i < |bs| && bs[i].used :: Allocation(bs[i].ptr, bs[i].size)
  }

  lemma InLive(bs: seq<Block>, i: nat)
    requires i < |bs| && bs[i].used
    ensures Allocation(bs[i].ptr, bs[i].size) in Live(bs)
  {
  }

  lemma PlaceLive(bs: seq<Block>, k: nat, requested: nat)
    requires k < |bs| && bs[k].Fits(requested)
    ensures Live(Place(bs, k, requested)) == Live(bs) + {Allocation(bs[k].ptr, requested)}
  {
    var r := Place(bs, k, requested);
    if bs[k].size > requested {
      PlaceAt(bs, k, requested);
    }
    InLive(r, k);
    forall a | a in Live(bs) ensures a in Live(r) {
      var i :| 0 <= i < |bs| && bs[i].used && a == Allocation(bs[i].ptr, bs[i].size);
      InLive(r, if i < k || bs[k].size == requested then i else i + 1);
    }
    forall a | a in Live(r) ensures a in Live(bs) || a == Allocation(bs[k].ptr, requested) {
      var i :| 0 <= i < |r| && r[i].used && a == Allocation(r[i].ptr, r[i].size);
      if i != k {
        InLive(bs, if i < k || bs[k].size == requested then i else i - 1);
      }
    }
  }

  lemma MergeLive(bs: seq<Block>, k: nat)
    requires k + 1 < |bs| && !bs[k].used && !bs[k + 1].used
    ensures Live(Merge(bs, k)) == Live(bs)
  {
    var r := Merge(bs, k);
    MergeAt(bs, k);
    forall a | a in Live(bs) ensures a in Live(r) {
      var i :| 0 <= i < |bs| && bs[i].used && a == Allocation(bs[i].ptr, bs[i].size);
      InLive(r, if i < k then i else i - 1);
    }
    forall a | a in Live(r) ensures a in Live(bs) {
      var i :| 0 <= i < |r| && r[i].used && a == Allocation(r[i].ptr, r[i].size);
      InLive(bs, if i < k then i else i + 1);
    }
  }

  lemma ReleaseLive(bs: seq<Block>, base: int, total: nat, k: nat)
    requires Tiles(bs, base, total) && k < |bs| && bs[k].used
    ensures Live(Release(bs, k).0) == Live(bs) - {Allocation(bs[k].ptr, bs[k].size)}
  {
    var a := bs[k := bs[k].(used := false)];
    forall x | x in Live(bs) && x != Allocation(bs[k].ptr, bs[k].size) ensures x in Live(a) {
      var i :| 0 <= i < |bs| && bs[i].used && x == Allocation(bs[i].ptr, bs[i].size);
      InLive(a, i);
    }
    forall x | x in Live(a) ensures x in Live(bs) && x.ptr != bs[k].ptr {
      var i :| 0 <= i < |a| && a[i].used && x == Allocation(a[i].ptr, a[i].size);
      InLive(bs, i);
      if i < k {
        Ordered(bs, base, total, i, k);
      } else {
        Ordered(bs, base, total, k, i);
      }
    }
    var p := MergePrev(a, k);
    if k > 0 && !a[k - 1].used {
      MergeLive(a, k - 1);
      MergeAt(a, k - 1);
    }
    if p.1 + 1 < |p.0| && !p.0[p.1 + 1].used {
      MergeLive(p.0, p.1);
    }
  }

  // Live allocations lie inside the pool and do not overlap.
  lemma LiveDisjoint(bs: seq<Block>, base: int, total: nat, a: Allocation, b: Allocation)
    requires Tiles(bs, base, total) && a in Live(bs) && b in Live(bs)
    ensures base <= a.ptr && a.ptr + a.size <= base + total
    ensures a == b || a.ptr + a.size <= b.ptr || b.ptr + b.size <= a.ptr
  {
    var i :| 0 <= i < |bs| && bs[i].used && a == Allocation(bs[i].ptr, bs[i].size);
    var j :| 0 <= j < |bs| && bs[j].used && b == Allocation(bs[j].ptr, bs[j].size);
    InsidePool(bs, base, total, i);
    if i < j {
      Ordered(bs, base, total, i, j);
    } else if j < i {
      Ordered(bs, base, total, j, i);
    }
  }

  // ---- Whole runs ----

  // `last` is the index of the block `last_allocated` points to; None while it
  // still points to the raw pool.
  datatype Mem = Mem(base: int, total: nat, strategy: Strategy, blocks: seq<Block>, last: Option<nat>)

  // The host allocator's choice of pool address is a parameter of `initmem`.
  datatype Call = InitMem(strategy: Strategy, size: nat, base: int) | Malloc(requested: nat) | Free(ptr: int)

  const UNINITIALISED: Mem := Mem(0, 0, NotSet, [], None)

  ghost predicate Inv(m: Mem) {
    || m == UNINITIALISED
    || (&& Good(m.blocks, m.base, m.total)
        && if m.last.Some? then m.last.value < |m.blocks| else m.blocks == [Block(m.base, m.total, false)])
  }

  // What the source demands of a call: a positive request, a strategy set before
  // `mymalloc` (it asserts so), and no first Next-fit request larger than the
  // pool, for which the search never ends (FirstSearchEndsIff).
  ghost predicate Legal(m: Mem, call: Call) {
    match call
    case InitMem(_, _, _) => true
    case Malloc(requested) =>
      requested >= 1 && !m.strategy.NotSet? && (m.strategy.Next? && m.last.None? ==> requested <= m.total)
    case Free(_) => true
  }

  function Target(m: Mem, requested: nat): Option<nat>
    requires m.last.Some? ==> m.last.value < |m.blocks|
  {
    Choice(m.strategy, m.blocks, m.last, requested)
  }

  // The pointer `mymalloc` returns; None stands for NULL.
  function Result(m: Mem, requested: nat): Option<int>
    requires m.last.Some? ==> m.last.value < |m.blocks|
  {
    ChoiceFits(m.strategy, m.blocks, m.last, requested);
    if Target(m, requested).Some? then Some(m.blocks[Target(m, requested).value].ptr) else None
  }

  function AfterMalloc(m: Mem, requested: nat): Mem
    requires m.last.Some? ==> m.last.value < |m.blocks|
  {
    ChoiceFits(m.strategy, m.blocks, m.last, requested);
    match Target(m, requested)
    case None => m
    case Some(k) => m.(blocks := Place(m.blocks, k, requested), last := Some(k))
  }

  function AfterFree(m: Mem, ptr: int): Mem {
    var k := Find(m.blocks, ptr);
    if k == |m.blocks| || !m.blocks[k].used then m
    else
      var r := Release(m.blocks, k);
      m.(blocks := r.0, last := Some(r.1))
  }

  function AfterInit(strategy: Strategy, size: nat, base: int): Mem {
    Mem(base, size, strategy, [Block(base, size, false)], None)
  }

  ghost function Do(m: Mem, call: Call): Mem
    requires Inv(m)
  {
    match call
    case InitMem(strategy, size, base) => AfterInit(strategy, size, base)
    case Malloc(requested) => AfterMalloc(m, requested)
    case Free(ptr) => AfterFree(m, ptr)
  }

  // A Next-fit search that starts on the raw pool finds the whole pool free: it
  // ends exactly when the request is no larger than that, and else goes on for
  // any number of rounds.
  lemma FirstSearchEndsIff(m: Mem, requested: nat)
    requires Inv(m) && m != UNINITIALISED && m.last.None?
    ensures SomeFit(m.blocks, requested) <==> requested <= m.total
    ensures Ends(m.blocks, m.last, requested) <==> requested <= m.total
  {
    assert m.blocks[0].Fits(requested) <==> requested <= m.total;
    SearchEndsIff(m.blocks, m.last, requested);
  }

  // ---- Where a request goes ----

  // `mymalloc` returns the address of the block that the strategy set by `initmem`
  // asks for, and NULL exactly when there is no such block.
  lemma MallocPlaces(m: Mem, requested: nat)
    requires Inv(m)
    ensures match Result(m, requested)
            case Some(p) => exists k :: 0 <= k < |m.blocks| && m.blocks[k].ptr == p && RightPlace(m.strategy, m.blocks, m.last, requested, k)
            case None => !HasPlace(m.strategy, m.blocks, m.last, requested)
  {
    ChoiceIsRight(m.strategy, m.blocks, m.last, requested);
  }

  lemma StepInv(m: Mem, call: Call)
    requires Inv(m) && Legal(m, call)
    ensures Inv(Do(m, call))
  {
    match call
    case InitMem(_, _, _) =>
    case Malloc(requested) =>
      ChoiceFits(m.strategy, m.blocks, m.last, requested);
      if Target(m, requested).Some? {
        PlaceGood(m.blocks, m.base, m.total, Target(m, requested).value, requested);
      }
    case Free(ptr) =>
      var k := Find(m.blocks, ptr);
      if k < |m.blocks| && m.blocks[k].used {
        ReleaseGood(m.blocks, m.base, m.total, k);
      }
  }

  // The state after a sequence of calls, if each was legal.
  ghost function Run(calls: seq<Call>): (r: Option<Mem>)
    ensures r.Some? ==> Inv(r.value)
  {
    if calls == [] then Some(UNINITIALISED)
    else
      var before := Run(calls[..|calls| - 1]);
      var call := calls[|calls| - 1];
      if before.Some? && Legal(before.value, call) then
        StepInv(before.value, call);
        Some(Do(before.value, call))
      else None
  }

  // The same calls on the abstract state: a set of addresses with sizes.
  ghost function DoLive(live: set<Allocation>, call: Call, result: Option<int>): set<Allocation> {
    match call
    case InitMem(_, _, _) => {}
    case Malloc(requested) => if result.Some? then live + {Allocation(result.value, requested)} else live
    case Free(ptr) => set a | a in live && a.ptr != ptr
  }

  ghost function ResultOf(m: Mem, call: Call): Option<int>
    requires Inv(m)
  {
    if call.Malloc? then Result(m, call.requested) else None
  }

  // The block list refines the abstract map from addresses to sizes, and a new
  // allocation gets an address that was not live.
  lemma LiveRefines(m: Mem, call: Call)
    requires Inv(m) && Legal(m, call)
    ensures Live(Do(m, call).blocks) == DoLive(Live(m.blocks), call, ResultOf(m, call))
    ensures ResultOf(m, call).Some? ==> forall a :: a in Live(m.blocks) ==> a.ptr != ResultOf(m, call).value
  {
    match call
    case InitMem(_, _, _) =>
      assert Live(Do(m, call).blocks) == {};
    case Malloc(requested) =>
      ChoiceFits(m.strategy, m.blocks, m.last, requested);
      if Target(m, requested).Some? {
        var k := Target(m, requested).value;
        PlaceLive(m.blocks, k, requested);
        forall a | a in Live(m.blocks) ensures a.ptr != m.blocks[k].ptr {
          LiveElsewhere(m.blocks, m.base, m.total, a, k);
        }
      }
    case Free(ptr) => FreeRefines(m, ptr);
  }

  lemma LiveElsewhere(bs: seq<Block>, base: int, total: nat, a: Allocation, k: nat)
    requires Tiles(bs, base, total) && a in Live(bs) && k < |bs|
    ensures a.ptr == bs[k].ptr ==> bs[k].used && a == Allocation(bs[k].ptr, bs[k].size)
  {
    var i :| 0 <= i < |bs| && bs[i].used && a == Allocation(bs[i].ptr, bs[i].size);
    if i < k {
      Ordered(bs, base, total, i, k);
    } else if k < i {
      Ordered(bs, base, total, k, i);
    }
  }

  lemma FreeRefines(m: Mem, ptr: int)
    requires Inv(m)
    ensures Live(AfterFree(m, ptr).blocks) == set a | a in Live(m.blocks) && a.ptr != ptr
  {
    var k := Find(m.blocks, ptr);
    if k < |m.blocks| {
      forall a | a in Live(m.blocks)
        ensures a.ptr == ptr ==> m.blocks[k].used && a == Allocation(m.blocks[k].ptr, m.blocks[k].size)
      {
        LiveElsewhere(m.blocks, m.base, m.total, a, k);
      }
      if m.blocks[k].used {
        ReleaseLive(m.blocks, m.base, m.total, k);
      }
    }
  }

  lemma RunExtends(calls: seq<Call>, call: Call)
    requires Run(calls + [call]).Some?
    ensures Run(calls).Some? && Legal(Run(calls).value, call) && Run(calls + [call]) == Some(Do(Run(calls).value, call))
  {
  }

  lemma CallPersists(calls: seq<Call>, call: Call, a: Allocation)
    requires Run(calls + [call]).Some? && !call.InitMem? && call != Free(a.ptr)
    ensures Run(calls).Some?
    ensures a in Live(Run(calls).value.blocks) ==> a in Live(Run(calls + [call]).value.blocks)
  {
    RunExtends(calls, call);
    LiveRefines(Run(calls).value, call);
  }

  // A live allocation keeps its address and size across any later calls, until
  // it is freed or the pool is made anew.
  lemma {:induction false} LivePersists(calls: seq<Call>, later: seq<Call>, a: Allocation)
    requires Run(calls).Some? && Run(calls + later).Some? && a in Live(Run(calls).value.blocks)
    requires forall i :: 0 <= i < |later| ==> !later[i].InitMem? && later[i] != Free(a.ptr)
    ensures a in Live(Run(calls + later).value.blocks)
  {
    if later == [] {
      assert calls + later == calls;
    } else {
      var rest, call := later[..|later| - 1], later[|later| - 1];
      SplitLast(calls, later);
      CallPersists(calls + rest, call, a);
      LivePersists(calls, rest, a);
    }
  }

  // In every reachable state the blocks tile the pool and are coalesced, no two
  // live allocations overlap, and `last_allocated` is one of the blocks.
  lemma RunInv(calls: seq<Call>, m: Mem)
    requires Run(calls) == Some(m) && m != UNINITIALISED
    ensures Tiles(m.blocks, m.base, m.total) && Coalesced(m.blocks)
    ensures m.last.Some? ==> m.last.value < |m.blocks|
    ensures forall a, b :: a in Live(m.blocks) && b in Live(m.blocks) && a != b ==>
              a.ptr + a.size <= b.ptr || b.ptr + b.size <= a.ptr
  {
    forall a, b | a in Live(m.blocks) && b in Live(m.blocks) && a != b
      ensures a.ptr + a.size <= b.ptr || b.ptr + b.size <= a.ptr
    {
      LiveDisjoint(m.blocks, m.base, m.total, a, b);
    }
  }

  // ---- What `last_allocated` points to ----

  ghost predicate IsLive(bs: seq<Block>, ptr: int) {
    exists k :: 0 <= k < |bs| && bs[k].used && bs[k].ptr == ptr
  }

  // Block i contains an address.
  ghost predicate HoldsAddress(bs: seq<Block>, i: nat, a: int) {
    i < |bs| && bs[i].ptr <= a < bs[i].End()
  }

  // A granted request leaves `last_allocated` on the block returned, a refused one
  // changes nothing.
  lemma MallocRemembers(m: Mem, requested: nat)
    requires Inv(m) && Legal(m, Malloc(requested))
    ensures var t := AfterMalloc(m, requested);
            && t.base == m.base && t.total == m.total && t.strategy == m.strategy
            && match Result(m, requested)
               case Some(p) => t.last.Some? && t.last.value < |t.blocks| && t.blocks[t.last.value] == Block(p, requested, true)
               case None => t == m
  {
    ChoiceFits(m.strategy, m.blocks, m.last, requested);
    if Target(m, requested).Some? && m.blocks[Target(m, requested).value].size > requested {
      PlaceAt(m.blocks, Target(m, requested).value, requested);
    }
  }

  // Freeing a live allocation leaves it on the free block that its address is now
  // part of, after any merging; freeing anything else changes nothing.
  lemma FreeRemembers(m: Mem, ptr: int)
    requires Inv(m)
    ensures var t := AfterFree(m, ptr);
            && t.base == m.base && t.total == m.total && t.strategy == m.strategy
            && if IsLive(m.blocks, ptr) then
                 t.last.Some? && HoldsAddress(t.blocks, t.last.value, ptr) && !t.blocks[t.last.value].used
               else t == m
  {
    var k := Find(m.blocks, ptr);
    if k < |m.blocks| && m.blocks[k].used {
      ReleaseHolds(m.blocks, k);
    } else if IsLive(m.blocks, ptr) {
      var j :| 0 <= j < |m.blocks| && m.blocks[j].used && m.blocks[j].ptr == ptr;
      FindAt(m.blocks, m.base, m.total, j);
    }
  }

  lemma ReleaseHolds(bs: seq<Block>, k: nat)
    requires k < |bs| && bs[k].size >= 1
    requires k > 0 ==> bs[k - 1].End() == bs[k].ptr
    ensures var r := Release(bs, k); HoldsAddress(r.0, r.1, bs[k].ptr) && !r.0[r.1].used
  {
  }

  // The address last returned by a granted request or freed since `initmem`.
  ghost function Touched(calls: seq<Call>): Option<int> {
    if calls == [] then None
    else
      var before, call, earlier := Run(calls[..|calls| - 1]), calls[|calls| - 1], Touched(calls[..|calls| - 1]);
      if before.None? then None
      else
        match call
        case InitMem(_, _, _) => None
        case Malloc(requested) => if Result(before.value, requested).Some? then Result(before.value, requested) else earlier
        case Free(ptr) => if IsLive(before.value.blocks, ptr) then Some(ptr) else earlier
  }

  // In every run, `last_allocated` is the block holding that address.
  lemma {:induction false} LastIsTouched(calls: seq<Call>, m: Mem)
    requires Run(calls) == Some(m)
    ensures if Touched(calls).Some? then m.last.Some? && HoldsAddress(m.blocks, m.last.value, Touched(calls).value)
            else m.last.None?
  {
    if calls != [] {
      var before, call := calls[..|calls| - 1], calls[|calls| - 1];
      assert calls == before + [call];
      RunExtends(before, call);
      LastIsTouched(before, Run(before).value);
      match call
      case InitMem(_, _, _) =>
      case Malloc(requested) => MallocRemembers(Run(before).value, requested);
      case Free(ptr) => FreeRemembers(Run(before).value, ptr);
    }
  }

  // The result is the address of the first fit, or None without one.
  ghost predicate TakesFirstFit(bs: seq<Block>, requested: nat, result: Option<int>) {
    match result
    case Some(p) => exists k :: 0 <= k < |bs| && bs[k].ptr == p && IsFirst(bs, requested, k)
    case None => !SomeFit(bs, requested)
  }

  // The result is the address of the first fit in cyclic order after block i, or
  // None if no other block fits.
  ghost predicate TakesNextFit(bs: seq<Block>, requested: nat, i: nat, result: Option<int>)
    requires i < |bs|
  {
    match result
    case Some(p) => exists k :: 0 <= k < |bs| && bs[k].ptr == p && IsNext(bs, requested, i, k)
    case None => forall j :: 0 <= j < |bs| && j != i ==> !bs[j].Fits(requested)
  }

  // Next-fit over whole runs: it searches from the one block holding the address
  // last returned or freed, and never takes that block; before there is such an
  // address, it takes the first fit of the pool.
  lemma NextFitOverRuns(calls: seq<Call>, m: Mem, requested: nat) returns (i: nat)
    requires Run(calls) == Some(m) && m.strategy.Next?
    ensures Touched(calls).None? ==> TakesFirstFit(m.blocks, requested, Result(m, requested))
    ensures Touched(calls).Some? ==>
              && HoldsAddress(m.blocks, i, Touched(calls).value)
              && (forall j: nat :: HoldsAddress(m.blocks, j, Touched(calls).value) ==> j == i)
              && TakesNextFit(m.blocks, requested, i, Result(m, requested))
  {
    LastIsTouched(calls, m);
    MallocPlaces(m, requested);
    i := 0;
    if Touched(calls).Some? {
      i := m.last.value;
      HoldsAlone(m.blocks, m.base, m.total, i, Touched(calls).value);
    }
  }

  lemma HoldsAlone(bs: seq<Block>, base: int, total: nat, i: nat, a: int)
    requires Tiles(bs, base, total) && HoldsAddress(bs, i, a)
    ensures forall j: nat :: HoldsAddress(bs, j, a) ==> j == i
  {
    forall j: nat | HoldsAddress(bs, j, a) ensures j == i {
      if j < i {
        Ordered(bs, base, total, j, i);
      } else if i < j {
        Ordered(bs, base, total, i, j);
      }
    }
  }

  // Freeing the pointer just returned restores the blocks.
  lemma FreeAfterMalloc(m: Mem, requested: nat, ptr: int)
    requires Inv(m) && Legal(m, Malloc(requested)) && Result(m, requested) == Some(ptr)
    ensures AfterFree(AfterMalloc(m, requested), ptr).blocks == m.blocks
  {
    ChoiceFits(m.strategy, m.blocks, m.last, requested);
    FreeUndoesMalloc(m.blocks, m.base, m.total, Target(m, requested).value, requested);
  }

  // Next-fit can refuse every request on a pool that is entirely free: after one
  // allocation and its release, the only block is the one it never looks at.
  lemma NextFitStarves(size: nat, base: int, first: nat, requested: nat)
    requires 1 <= first <= size && 1 <= requested <= size
    ensures var m := Run([InitMem(Next, size, base), Malloc(first), Free(base)]);
            && m.Some? && m.value.blocks == [Block(base, size, false)]
            && SomeFit(m.value.blocks, requested) && Result(m.value, requested) == None
  {
    var calls := [InitMem(Next, size, base), Malloc(first), Free(base)];
    assert calls[..2][..1][..0] == [] && calls[..2][..1] == [InitMem(Next, size, base)];
    assert calls[..2] == [InitMem(Next, size, base), Malloc(first)];
    var m0 := AfterInit(Next, size, base);
    assert Run([InitMem(Next, size, base)]) == Some(m0);
    assert m0.blocks[0].Fits(first) && m0.blocks[0].Fits(requested);
    FirstInCorrect(m0.blocks, 1, first);
    assert Result(m0, first) == Some(base);
    assert Run(calls[..2]) == Some(AfterMalloc(m0, first));
    FreeAfterMalloc(m0, first, base);
    FreeUndoesMalloc(m0.blocks, base, size, 0, first);
    var m := AfterFree(AfterMalloc(m0, first), base);
    assert Run(calls) == Some(m) && m.blocks == m0.blocks && m.last == Some(0);
  }

  // ---- Totals ----

  function UsedBytes(bs: seq<Block>, n: nat): nat
    requires n <= |bs|
  {
    if n == 0 then 0 else UsedBytes(bs, n - 1) + if bs[n - 1].used then bs[n - 1].size else 0
  }

  function FreeBytes(bs: seq<Block>, n: nat): nat
    requires n <= |bs|
  {
    if n == 0 then 0 else FreeBytes(bs, n - 1) + if bs[n - 1].used then 0 else bs[n - 1].size
  }

  function Holes(bs: seq<Block>, n: nat): nat
    requires n <= |bs|
  {
    if n == 0 then 0 else Holes(bs, n - 1) + if bs[n - 1].used then 0 else 1
  }

  // The bytes of a set of allocations.
  ghost function TotalSize(live: set<Allocation>): nat {
    if live == {} then 0
    else
      var a :| a in live;
      a.size + TotalSize(live - {a})
  }

  lemma {:induction false} TotalSizeWithout(live: set<Allocation>, a: Allocation)
    requires a in live
    ensures TotalSize(live) == a.size + TotalSize(live - {a})
    decreases |live|
  {
    var b :| b in live && TotalSize(live) == b.size + TotalSize(live - {b});
    if a != b {
      TotalSizeWithout(live - {b}, a);
      TotalSizeWithout(live - {a}, b);
      assert live - {b} - {a} == live - {a} - {b};
    }
  }

  // The allocated bytes are those of the live allocations.
  lemma {:induction false} UsedBytesAreLive(bs: seq<Block>, base: int, total: nat, n: nat)
    requires Tiles(bs, base, total) && n <= |bs|
    ensures UsedBytes(bs, n) == TotalSize(Live(bs[..n]))
  {
    if n > 0 {
      UsedBytesAreLive(bs, base, total, n - 1);
      LastLive(bs, base, total, n);
      var b := Allocation(bs[n - 1].ptr, bs[n - 1].size);
      if bs[n - 1].used {
        TotalSizeWithout(Live(bs[..n]), b);
        assert Live(bs[..n]) - {b} == Live(bs[..n - 1]);
      } else {
        assert Live(bs[..n]) == Live(bs[..n - 1]);
      }
    }
  }

  lemma LastLive(bs: seq<Block>, base: int, total: nat, n: nat)
    requires Tiles(bs, base, total) && 1 <= n <= |bs|
    ensures var b := Allocation(bs[n - 1].ptr, bs[n - 1].size);
            b !in Live(bs[..n - 1]) && Live(bs[..n]) == Live(bs[..n - 1]) + if bs[n - 1].used then {b} else {}
  {
    var most, all := bs[..n - 1], bs[..n];
    forall a | a in Live(most) ensures a in Live(all) && a.ptr != bs[n - 1].ptr {
      var i :| 0 <= i < n - 1 && most[i].used && a == Allocation(most[i].ptr, most[i].size);
      assert all[i] == bs[i];
      InLive(all, i);
      Ordered(bs, base, total, i, n - 1);
    }
    forall a | a in Live(all) ensures a in Live(most) || (bs[n - 1].used && a == Allocation(bs[n - 1].ptr, bs[n - 1].size)) {
      var i :| 0 <= i < n && all[i].used && a == Allocation(all[i].ptr, all[i].size);
      if i < n - 1 {
        assert most[i] == bs[i];
        InLive(most, i);
      }
    }
    if bs[n - 1].used {
      assert all[n - 1] == bs[n - 1];
      InLive(all, n - 1);
    }
  }

  ghost function FreePositions(bs: seq<Block>, n: nat): set<nat>
    requires n <= |bs|
  {
    set i: nat | i < n && !bs[i].used
  }

  lemma {:induction false} HolesAreFree(bs: seq<Block>, n: nat)
    requires n <= |bs|
    ensures Holes(bs, n) == |FreePositions(bs, n)|
  {
    if n > 0 {
      HolesAreFree(bs, n - 1);
      assert FreePositions(bs, n) == FreePositions(bs, n - 1) + if bs[n - 1].used then {} else {n - 1};
    }
  }

  // Allocated and free bytes add up to the pool, and a pool of n blocks that is
  // coalesced has at most (n + 1) / 2 holes.
  lemma {:induction false} Conservation(bs: seq<Block>, base: int, total: nat, n: nat)
    requires Good(bs, base, total) && 1 <= n <= |bs|
    ensures UsedBytes(bs, n) + FreeBytes(bs, n) == bs[n - 1].End() - base
    ensures 2 * Holes(bs, n) <= n + if bs[n - 1].used then 0 else 1
  {
    if n > 1 {
      Conservation(bs, base, total, n - 1);
      assert bs[n - 2].End() == bs[n - 1].ptr;
      assert bs[n - 2].used || bs[n - 1].used;
    }
  }
}
