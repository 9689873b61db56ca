// The Next-fit loop of `mymalloc` step by step, to say when it ends: it stops at
// the block `last_allocated` points to, which after `initmem` is no block at all.

module NextSearch {
  import opened Common
  import opened MemBlocks

  // `cur` is the position of the loop's cursor, None for the raw pool.
  datatype Search = Looking(cur: Option<nat>) | Found(block: nat) | GaveUp

  function SearchStep(bs: seq<Block>, last: Option<nat>, requested: nat, s: Search): Search
    requires bs != []
  {
    match s
    case Looking(cur) =>
      var next := if cur.Some? then Succ(|bs|, cur.value) else 0;
      if last == Some(next) then GaveUp
      else if bs[next].Fits(requested) then Found(next)
      else Looking(Some(next))
    case _ => s
  }

  function SearchAfter(bs: seq<Block>, last: Option<nat>, requested: nat, steps: nat): Search
    requires bs != []
  {
    if steps == 0 then Looking(last)
    else SearchStep(bs, last, requested, SearchAfter(bs, last, requested, steps - 1))
  }

  // From a block on the list, every round brings the cursor one step nearer to
  // that block again.
  lemma {:induction false} CycleProgress(bs: seq<Block>, last: nat, requested: nat, steps: nat)
    requires last < |bs|
    ensures match SearchAfter(bs, Some(last), requested, steps)
            case Looking(cur) =>
              && cur.Some? && cur.value < |bs| && steps < |bs|
              && Distance(|bs|, Succ(|bs|, cur.value), last) == |bs| - 1 - steps
              && NextIn(bs, Succ(|bs|, cur.value), last, requested) == Choice(Next, bs, Some(last), requested)
            case Found(k) => Choice(Next, bs, Some(last), requested) == Some(k)
            case GaveUp => Choice(Next, bs, Some(last), requested) == None
  {
    if steps > 0 {
      CycleProgress(bs, last, requested, steps - 1);
    }
  }

  // From the raw pool, the loop goes round and round until it meets a fit.
  lemma {:induction false} RawProgress(bs: seq<Block>, requested: nat, steps: nat)
    requires bs != []
    ensures match SearchAfter(bs, None, requested, steps)
            case Looking(cur) =>
              && (cur.Some? ==> cur.value < |bs|)
              && (steps <= |bs| ==> cur == (if steps == 0 then None else Some(steps - 1))
                                    && forall j :: 0 <= j < steps ==> !bs[j].Fits(requested))
            case Found(k) => k < |bs| && bs[k].Fits(requested) && (steps <= |bs| ==> IsFirst(bs, requested, k))
            case GaveUp => false
  {
    if steps > 0 {
      RawProgress(bs, requested, steps - 1);
    }
  }

  lemma {:induction false} RawStays(bs: seq<Block>, requested: nat, steps: nat, more: nat)
    requires bs != [] && !SearchAfter(bs, None, requested, steps).Looking?
    ensures SearchAfter(bs, None, requested, steps + more) == SearchAfter(bs, None, requested, steps)
  {
    if more > 0 {
      RawStays(bs, requested, steps, more - 1);
    }
  }

  ghost predicate Ends(bs: seq<Block>, last: Option<nat>, requested: nat)
    requires bs != []
  {
    exists steps: nat :: !SearchAfter(bs, last, requested, steps).Looking?
  }

  // The search ends if and only if it started on the list or some block fits.
  lemma SearchEndsIff(bs: seq<Block>, last: Option<nat>, requested: nat)
    requires bs != [] && (last.Some? ==> last.value < |bs|)
    ensures Ends(bs, last, requested) <==> last.Some? || SomeFit(bs, requested)
  {
    if last.Some? {
      CycleProgress(bs, last.value, requested, |bs|);
    } else {
      RawProgress(bs, requested, |bs|);
      if Ends(bs, last, requested) {
        var steps: nat :| !SearchAfter(bs, last, requested, steps).Looking?;
        RawProgress(bs, requested, steps);
      }
    }
  }

  // When it ends, it ends with the block the strategy is said to choose.
  lemma SearchOutcome(bs: seq<Block>, last: Option<nat>, requested: nat, steps: nat)
    requires bs != [] && (last.Some? ==> last.value < |bs|)
    ensures match SearchAfter(bs, last, requested, steps)
            case Looking(_) => true
            case Found(k) => Choice(Next, bs, last, requested) == Some(k)
            case GaveUp => last.Some? && Choice(Next, bs, last, requested) == None
  {
    if last.Some? {
      CycleProgress(bs, last.value, requested, steps);
    } else {
      RawProgress(bs, requested, steps);
      RawProgress(bs, requested, |bs|);
      FirstInCorrect(bs, |bs|, requested);
      if steps > |bs| && !SearchAfter(bs, last, requested, |bs|).Looking? {
        RawStays(bs, requested, |bs|, steps - |bs|);
      }
    }
  }
}
