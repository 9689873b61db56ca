// The bookkeeping of mymem.c on values: a pool tiled by blocks, the four
// placement strategies, splitting and coalescing.

module MemBlocks {
  import opened Common

  datatype Strategy = NotSet | Best | Worst | First | Next

  datatype Block = Block(ptr: int, size: nat, used: bool) {
    function End(): int {
      ptr + size
    }

    predicate Fits(requested: nat) {
      !used && size >= requested
    }
  }

  // The blocks cover the pool exactly, in address order. None is empty but the
  // free block of an empty pool.
  ghost predicate Tiles(bs: seq<Block>, base: int, total: nat) {
    && |bs| > 0 && bs[0].ptr == base && bs[|bs| - 1].End() == base + total
    && (forall i :: 0 <= i < |bs| ==> bs[i].size >= 1 || (|bs| == 1 && !bs[i].used))
    && (forall i {:trigger bs[i].End()} :: 0 <= i < |bs| - 1 ==> bs[i].End() == bs[i + 1].ptr)
  }

  // No two neighbours are both free.
  ghost predicate Coalesced(bs: seq<Block>) {
    forall i {:trigger bs[i].used} :: 0 <= i < |bs| - 1 ==> bs[i].used || bs[i + 1].used
  }

  ghost predicate Good(bs: seq<Block>, base: int, total: nat) {
    Tiles(bs, base, total) && Coalesced(bs)
  }

  lemma {:induction false} Ordered(bs: seq<Block>, base: int, total: nat, i: nat, j: nat)
    requires Tiles(bs, base, total) && i < j < |bs|
    ensures bs[i].End() <= bs[j].ptr
    decreases j - i
  {
    assert bs[i].End() == bs[i + 1].ptr;
    if i + 1 < j {
      Ordered(bs, base, total, i + 1, j);
    }
  }

  lemma InsidePool(bs: seq<Block>, base: int, total: nat, i: nat)
    requires Tiles(bs, base, total) && i < |bs|
    ensures base <= bs[i].ptr && bs[i].End() <= base + total
  {
    if i > 0 {
      Ordered(bs, base, total, 0, i);
    }
    if i < |bs| - 1 {
      Ordered(bs, base, total, i, |bs| - 1);
    }
  }

  // ---- Placement ----

  function FirstIn(bs: seq<Block>, n: nat, requested: nat): Option<nat>
    requires n <= |bs|
  {
    if n == 0 then None
    else
      var r := FirstIn(bs, n - 1, requested);
      if r.None? && bs[n - 1].Fits(requested) then Some(n - 1) else r
  }

  function BestIn(bs: seq<Block>, n: nat, requested: nat): (r: Option<nat>)
    requires n <= |bs|
    ensures r.Some? ==> r.value < n
  {
    if n == 0 then None
    else
      var r := BestIn(bs, n - 1, requested);
      if bs[n - 1].Fits(requested) && (r.None? || bs[n - 1].size < bs[r.value].size) then Some(n - 1) else r
  }

  function WorstIn(bs: seq<Block>, n: nat, requested: nat): (r: Option<nat>)
    requires n <= |bs|
    ensures r.Some? ==> r.value < n
  {
    if n == 0 then None
    else
      var r := WorstIn(bs, n - 1, requested);
      if bs[n - 1].Fits(requested) && (r.None? || bs[n - 1].size > bs[r.value].size) then Some(n - 1) else r
  }

  // The next index in cyclic order.
  function Succ(n: nat, i: nat): nat {
    if i + 1 < n then i + 1 else 0
  }

  // How many steps of Succ lead from cur to last.
  function Distance(n: nat, cur: nat, last: nat): nat
    requires cur < n && last < n
  {
    if cur <= last then last - cur else last - cur + n
  }

  function NextIn(bs: seq<Block>, cur: nat, last: nat, requested: nat): Option<nat>
    requires cur < |bs| && last < |bs|
    decreases Distance(|bs|, cur, last)
  {
    if cur == last then None
    else if bs[cur].Fits(requested) then Some(cur)
    else NextIn(bs, Succ(|bs|, cur), last, requested)
  }

  ghost predicate SomeFit(bs: seq<Block>, requested: nat) {
    exists k :: 0 <= k < |bs| && bs[k].Fits(requested)
  }

  // The lowest-address fit.
  ghost predicate IsFirst(bs: seq<Block>, requested: nat, k: nat) {
    k < |bs| && bs[k].Fits(requested) && forall j :: 0 <= j < k ==> !bs[j].Fits(requested)
  }

  // The earliest of the smallest fits.
  ghost predicate IsBest(bs: seq<Block>, requested: nat, k: nat) {
    && k < |bs| && bs[k].Fits(requested)
    && (forall j :: 0 <= j < |bs| && bs[j].Fits(requested) ==> bs[k].size <= bs[j].size)
    && (forall j :: 0 <= j < k && bs[j].Fits(requested) ==> bs[k].size < bs[j].size)
  }

  // The earliest of the largest fits.
  ghost predicate IsWorst(bs: seq<Block>, requested: nat, k: nat) {
    && k < |bs| && bs[k].Fits(requested)
    && (forall j :: 0 <= j < |bs| && bs[j].Fits(requested) ==> bs[k].size >= bs[j].size)
    && (forall j :: 0 <= j < k && bs[j].Fits(requested) ==> bs[k].size > bs[j].size)
  }

  // The first fit in cyclic order strictly after `last`, which is not considered.
  ghost predicate IsNext(bs: seq<Block>, requested: nat, last: nat, k: nat)
    requires last < |bs|
  {
    && k < |bs| && k != last && bs[k].Fits(requested)
    && forall j :: 0 <= j < |bs| && j != last && bs[j].Fits(requested) ==>
         Distance(|bs|, k, last) >= Distance(|bs|, j, last)
  }

  // Block k is where the source's comments say the strategy places the request.
  // `last` is the block last allocated or freed; a Next-fit search without one
  // starts at the head.
  ghost predicate RightPlace(strategy: Strategy, bs: seq<Block>, last: Option<nat>, requested: nat, k: nat)
    requires last.Some? ==> last.value < |bs|
  {
    match strategy
    case NotSet => false
    case First => IsFirst(bs, requested, k)
    case Best => IsBest(bs, requested, k)
    case Worst => IsWorst(bs, requested, k)
    case Next => if last.Some? then IsNext(bs, requested, last.value, k) else IsFirst(bs, requested, k)
  }

  // The strategy has a block to take: any fit, or for Next-fit any but `last`.
  ghost predicate HasPlace(strategy: Strategy, bs: seq<Block>, last: Option<nat>, requested: nat) {
    !strategy.NotSet? && exists k :: 0 <= k < |bs| && bs[k].Fits(requested) && (strategy.Next? ==> last != Some(k))
  }

  lemma {:induction false} FirstInCorrect(bs: seq<Block>, n: nat, requested: nat)
    requires n <= |bs|
    ensures match FirstIn(bs, n, requested)
            case Some(k) => k < n && IsFirst(bs, requested, k)
            case None => forall j :: 0 <= j < n ==> !bs[j].Fits(requested)
  {
    if n > 0 {
      FirstInCorrect(bs, n - 1, requested);
    }
  }

  lemma {:induction false} BestInCorrect(bs: seq<Block>, n: nat, requested: nat)
    requires n <= |bs|
    ensures match BestIn(bs, n, requested)
            case Some(k) => k < n && IsBest(bs[..n], requested, k)
            case None => forall j :: 0 <= j < n ==> !bs[j].Fits(requested)
  {
    if n > 0 {
      BestInCorrect(bs, n - 1, requested);
      assert bs[..n][..n - 1] == bs[..n - 1];
    }
  }

  lemma {:induction false} WorstInCorrect(bs: seq<Block>, n: nat, requested: nat)
    requires n <= |bs|
    ensures match WorstIn(bs, n, requested)
            case Some(k) => k < n && IsWorst(bs[..n], requested, k)
            case None => forall j :: 0 <= j < n ==> !bs[j].Fits(requested)
  {
    if n > 0 {
      WorstInCorrect(bs, n - 1, requested);
      assert bs[..n][..n - 1] == bs[..n - 1];
    }
  }

  // Searching from cur on, everything between `last` and cur having been passed.
  lemma {:induction false} NextInCorrect(bs: seq<Block>, cur: nat, last: nat, requested: nat)
    requires cur < |bs| && last < |bs|
    requires forall j :: 0 <= j < |bs| && j != last && bs[j].Fits(requested) ==>
               Distance(|bs|, j, last) <= Distance(|bs|, cur, last)
    ensures match NextIn(bs, cur, last, requested)
            case Some(k) => IsNext(bs, requested, last, k)
            case None => forall j :: 0 <= j < |bs| && j != last ==> !bs[j].Fits(requested)
    decreases Distance(|bs|, cur, last)
  {
    if cur != last && !bs[cur].Fits(requested) {
      forall j | 0 <= j < |bs| && j != last && bs[j].Fits(requested)
        ensures Distance(|bs|, j, last) <= Distance(|bs|, Succ(|bs|, cur), last)
      {
        assert j != cur;
      }
      NextInCorrect(bs, Succ(|bs|, cur), last, requested);
    }
  }

  // The block a strategy takes. `last` is the block last allocated or freed; the
  // source starts Next-fit on the raw pool, modelled as a search from the head.
  function Choice(strategy: Strategy, bs: seq<Block>, last: Option<nat>, requested: nat): Option<nat>
    requires last.Some? ==> last.value < |bs|
  {
    match strategy
    case NotSet => None
    case First => FirstIn(bs, |bs|, requested)
    case Best => BestIn(bs, |bs|, requested)
    case Worst => WorstIn(bs, |bs|, requested)
    case Next =>
      if last.Some? then NextIn(bs, Succ(|bs|, last.value), last.value, requested)
      else FirstIn(bs, |bs|, requested)
  }

  lemma ChoiceFits(strategy: Strategy, bs: seq<Block>, last: Option<nat>, requested: nat)
    requires last.Some? ==> last.value < |bs|
    ensures Choice(strategy, bs, last, requested).Some? ==>
              Choice(strategy, bs, last, requested).value < |bs| && bs[Choice(strategy, bs, last, requested).value].Fits(requested)
  {
    FirstInCorrect(bs, |bs|, requested);
    BestInCorrect(bs, |bs|, requested);
    WorstInCorrect(bs, |bs|, requested);
    assert bs[..|bs|] == bs;
    if last.Some? {
      NextInCorrect(bs, Succ(|bs|, last.value), last.value, requested);
    }
  }

  // `mem_largest_free`.
  function LargestFree(bs: seq<Block>, n: nat): nat
    requires n <= |bs|
  {
    if n == 0 then 0
    else
      var m := LargestFree(bs, n - 1);
      if !bs[n - 1].used && bs[n - 1].size > m then bs[n - 1].size else m
  }

  lemma {:induction false} LargestFreeIsMax(bs: seq<Block>, n: nat, requested: nat)
    requires n <= |bs| && requested >= 1
    ensures LargestFree(bs, n) >= requested <==> SomeFit(bs[..n], requested)
  {
    if n > 0 {
      LargestFreeIsMax(bs, n - 1, requested);
      if SomeFit(bs[..n - 1], requested) {
        var k :| 0 <= k < n - 1 && bs[..n - 1][k].Fits(requested);
        assert bs[..n][k].Fits(requested);
      }
      if bs[n - 1].Fits(requested) {
        assert bs[..n][n - 1].Fits(requested);
      }
      if SomeFit(bs[..n], requested) {
        var k :| 0 <= k < n && bs[..n][k].Fits(requested);
        assert k < n - 1 ==> bs[..n - 1][k].Fits(requested);
      }
    }
  }

  // First, Best and Worst succeed on the same states and requests: exactly when
  // the largest free block is large enough.
  lemma SucceedIff(strategy: Strategy, bs: seq<Block>, last: Option<nat>, requested: nat)
    requires requested >= 1 && (last.Some? ==> last.value < |bs|)
    requires strategy.First? || strategy.Best? || strategy.Worst?
    ensures Choice(strategy, bs, last, requested).None? <==> LargestFree(bs, |bs|) < requested
  {
    LargestFreeIsMax(bs, |bs|, requested);
    FirstInCorrect(bs, |bs|, requested);
    BestInCorrect(bs, |bs|, requested);
    WorstInCorrect(bs, |bs|, requested);
    assert bs[..|bs|] == bs;
  }

  // Where each strategy places a request.
  lemma PlacementCorrect(bs: seq<Block>, last: Option<nat>, requested: nat, k: nat)
    requires last.Some? ==> last.value < |bs|
    ensures Choice(First, bs, last, requested) == Some(k) ==> IsFirst(bs, requested, k)
    ensures Choice(Best, bs, last, requested) == Some(k) ==> IsBest(bs, requested, k)
    ensures Choice(Worst, bs, last, requested) == Some(k) ==> IsWorst(bs, requested, k)
    ensures last.Some? && Choice(Next, bs, last, requested) == Some(k) ==> IsNext(bs, requested, last.value, k)
  {
    FirstInCorrect(bs, |bs|, requested);
    BestInCorrect(bs, |bs|, requested);
    WorstInCorrect(bs, |bs|, requested);
    assert bs[..|bs|] == bs;
    if last.Some? {
      NextInCorrect(bs, Succ(|bs|, last.value), last.value, requested);
    }
  }

  // Next-fit never looks at the block it started from: it fails although a block
  // would fit exactly when that block is the only one.
  lemma NextFailsIff(bs: seq<Block>, last: nat, requested: nat)
    requires last < |bs|
    ensures Choice(Next, bs, Some(last), requested).None? <==>
            forall j :: 0 <= j < |bs| && j != last ==> !bs[j].Fits(requested)
  {
    NextInCorrect(bs, Succ(|bs|, last), last, requested);
  }

  // A strategy takes the right block, and none only if it has none to take.
  lemma ChoiceIsRight(strategy: Strategy, bs: seq<Block>, last: Option<nat>, requested: nat)
    requires last.Some? ==> last.value < |bs|
    ensures var choice := Choice(strategy, bs, last, requested);
            && (choice.Some? <==> HasPlace(strategy, bs, last, requested))
            && (choice.Some? ==> choice.value < |bs| && RightPlace(strategy, bs, last, requested, choice.value))
  {
    ChoiceFits(strategy, bs, last, requested);
    FirstInCorrect(bs, |bs|, requested);
    BestInCorrect(bs, |bs|, requested);
    WorstInCorrect(bs, |bs|, requested);
    assert bs[..|bs|] == bs;
    if strategy.Next? && last.Some? {
      NextInCorrect(bs, Succ(|bs|, last.value), last.value, requested);
    }
  }
}
