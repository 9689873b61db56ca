// The ten-cell buffer of buffer.c, shifted and assigned in place; an empty cell
// holds -1.

module Buffer {
  const CAPACITY: nat := 10
  const EMPTY: int := -1

  // The index of the first empty cell, or the length.
  function FirstEmpty(b: seq<int>): (n: nat)
    ensures n <= |b| && (n < |b| ==> b[n] == EMPTY) && forall i :: 0 <= i < n ==> b[i] != EMPTY
  {
    if b == [] || b[0] == EMPTY then 0 else 1 + FirstEmpty(b[1..])
  }

  lemma FirstEmptyIs(b: seq<int>, n: nat)
    requires n <= |b| && (n < |b| ==> b[n] == EMPTY) && forall i :: 0 <= i < n ==> b[i] != EMPTY
    ensures FirstEmpty(b) == n
  {
  }

  // The items before the first empty cell.
  function Contents(b: seq<int>): seq<int> {
    b[..FirstEmpty(b)]
  }

  // The items form a prefix.
  ghost predicate Packed(b: seq<int>) {
    |b| == CAPACITY && forall i :: FirstEmpty(b) <= i < |b| ==> b[i] == EMPTY
  }

  function Pushed(b: seq<int>, item: int): seq<int>
    requires |b| == CAPACITY
  {
    [item] + b[..CAPACITY - 1]
  }

  function Popped(b: seq<int>): seq<int>
    requires |b| == CAPACITY
  {
    b[1..] + [EMPTY]
  }

  // Where `enqueue` stores: the first empty cell, or the last cell.
  function Slot(b: seq<int>): (i: nat)
    requires |b| == CAPACITY
    ensures i < CAPACITY
  {
    if FirstEmpty(b) < CAPACITY then FirstEmpty(b) else CAPACITY - 1
  }

  method InitializeBuffer(b: array<int>)
    requires b.Length == CAPACITY
    modifies b
    ensures Packed(b[..]) && Contents(b[..]) == []
  {
    for i := 0 to CAPACITY
      invariant forall k :: 0 <= k < i ==> b[k] == EMPTY
    {
      b[i] := EMPTY;
    }
    FirstEmptyIs(b[..], 0);
  }

  method Push(b: array<int>, item: int)
    requires b.Length == CAPACITY
    modifies b
    ensures b[..] == Pushed(old(b[..]), item) == [item] + old(b[..])[..CAPACITY - 1]
  {
    var i := CAPACITY - 1;
    while i > 0
      invariant 0 <= i < CAPACITY
      invariant forall k :: 0 <= k <= i ==> b[k] == old(b[k])
      invariant forall k :: i < k < CAPACITY ==> b[k] == old(b[k - 1])
    {
      b[i] := b[i - 1];
      i := i - 1;
    }
    b[0] := item;
  }

  method Pop(b: array<int>) returns (item: int)
    requires b.Length == CAPACITY
    modifies b
    ensures item == old(b[0]) && b[..] == Popped(old(b[..])) == old(b[..])[1..] + [EMPTY]
  {
    item := b[0];
    var i := 0;
    while i < CAPACITY - 1
      invariant 0 <= i <= CAPACITY - 1
      invariant forall k :: 0 <= k < i ==> b[k] == old(b[k + 1])
      invariant forall k :: i <= k < CAPACITY ==> b[k] == old(b[k])
    {
      b[i] := b[i + 1];
      i := i + 1;
    }
    b[CAPACITY - 1] := EMPTY;
  }

  method Enqueue(b: array<int>, item: int)
    requires b.Length == CAPACITY
    modifies b
    ensures b[..] == old(b[..])[Slot(old(b[..])) := item]
    ensures EMPTY in old(b[..]) ==> exists i :: 0 <= i < CAPACITY && old(b[i]) == EMPTY && EMPTY !in old(b[..])[..i]
                                                && b[..] == old(b[..])[i := item]
    ensures EMPTY !in old(b[..]) ==> b[..] == old(b[..])[CAPACITY - 1 := item]
  {
    var i := 0;
    while i < CAPACITY - 1
      invariant 0 <= i <= CAPACITY - 1
      invariant forall k :: 0 <= k < i ==> b[k] != EMPTY
    {
      if b[i] == EMPTY {
        break;
      }
      i := i + 1;
    }
    ghost var before := b[..];
    if b[i] == EMPTY {
      FirstEmptyIs(b[..], i);
      assert EMPTY in before && EMPTY !in before[..i];
    } else {
      FirstEmptyIs(b[..], CAPACITY);
      assert EMPTY !in before;
    }
    b[i] := item;
    assert b[..] == before[i := item];
  }

  method Dequeue(b: array<int>) returns (item: int)
    requires b.Length == CAPACITY
    modifies b
    ensures item == old(b[0]) && b[..] == Popped(old(b[..])) == old(b[..])[1..] + [EMPTY]
  {
    item := Pop(b);
  }

  method CountItems(b: array<int>) returns (n: nat)
    requires b.Length == CAPACITY
    ensures n == FirstEmpty(b[..])
  {
    n := 0;
    while n < CAPACITY
      invariant n <= CAPACITY
      invariant forall k :: 0 <= k < n ==> b[k] != EMPTY
    {
      if b[n] == EMPTY {
        break;
      }
      n := n + 1;
    }
    FirstEmptyIs(b[..], n);
  }

  // On a packed buffer that is not full, pushing puts the item in front.
  lemma PushContents(b: seq<int>, item: int)
    requires Packed(b) && FirstEmpty(b) < CAPACITY && item != EMPTY
    ensures Packed(Pushed(b, item)) && Contents(Pushed(b, item)) == [item] + Contents(b)
  {
    FirstEmptyIs(Pushed(b, item), FirstEmpty(b) + 1);
  }

  // Enqueueing puts it at the end.
  lemma EnqueueContents(b: seq<int>, item: int)
    requires Packed(b) && FirstEmpty(b) < CAPACITY && item != EMPTY
    ensures Packed(b[Slot(b) := item]) && Contents(b[Slot(b) := item]) == Contents(b) + [item]
  {
    FirstEmptyIs(b[Slot(b) := item], FirstEmpty(b) + 1);
  }

  // Popping takes the item in front.
  lemma PopContents(b: seq<int>)
    requires Packed(b) && FirstEmpty(b) > 0
    ensures Packed(Popped(b)) && Contents(b) == [b[0]] + Contents(Popped(b))
  {
    FirstEmptyIs(Popped(b), FirstEmpty(b) - 1);
  }
}
