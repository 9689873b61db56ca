// The doubly linked list of list.c, proved against the sequence of its elements.

module LinkedList {
  import opened Common

  class Elem<T> {
    var prev: Elem?<T>
    var next: Elem?<T>
    var datum: T

    // `list_elem_init`.
    constructor (datum: T)
      ensures prev == null && next == null && this.datum == datum
    {
      this.datum := datum;
      prev, next := null, null;
    }
  }

  function First<T>(s: seq<Elem<T>>): Elem?<T> {
    if s == [] then null else s[0]
  }

  function Last<T>(s: seq<Elem<T>>): Elem?<T> {
    if s == [] then null else s[|s| - 1]
  }

  // The element at a position, or null outside the sequence.
  function At<T>(s: seq<Elem<T>>, i: int): Elem?<T> {
    if 0 <= i < |s| then s[i] else null
  }

  // The links of every element lead to its neighbours in the sequence.
  ghost predicate Linked<T>(s: seq<Elem<T>>)
    reads s`prev, s`next
  {
    && (forall i {:trigger s[i].next} :: 0 <= i < |s| ==> s[i].next == At(s, i + 1))
    && (forall i {:trigger s[i].prev} :: 0 <= i < |s| ==> s[i].prev == At(s, i - 1))
  }

  class List<T> {
    var head: Elem?<T>
    var tail: Elem?<T>
    ghost var elems: seq<Elem<T>>

    ghost predicate Valid()
      reads this, elems`prev, elems`next
    {
      && head == First(elems) && tail == Last(elems)
      && Distinct(elems) && Linked(elems)
    }

    // `list_init`.
    constructor ()
      ensures Valid() && elems == []
    {
      head, tail := null, null;
      elems := [];
    }

    method Size() returns (count: nat)
      requires Valid()
      ensures count == |elems|
    {
      count := 0;
      var elt := head;
      while elt != null
        invariant count <= |elems|
        invariant elt == At(elems, count)
        decreases |elems| - count
      {
        count := count + 1;
        elt := elt.next;
      }
    }

    method GetHead() returns (elt: Elem?<T>)
      requires Valid()
      ensures elt == First(elems)
    {
      return head;
    }

    method GetTail() returns (elt: Elem?<T>)
      requires Valid()
      ensures elt == Last(elems)
    {
      return tail;
    }

    method InsertHead(elt: Elem<T>)
      requires Valid() && elt !in elems
      modifies this, elems`prev, elems`next, elt`prev, elt`next
      ensures Valid() && elems == [elt] + old(elems)
    {
      if head == null {
        elt.prev, elt.next := null, null;
        head, tail := elt, elt;
      } else {
        elt.prev := null;
        elt.next := head;
        if head != null {
          head.prev := elt;
        }
        head := elt;
      }
      elems := [elt] + elems;
    }

    method InsertTail(elt: Elem<T>)
      requires Valid() && elt !in elems
      modifies this, elems`prev, elems`next, elt`prev, elt`next
      ensures Valid() && elems == old(elems) + [elt]
    {
      if tail == null {
        elt.prev, elt.next := null, null;
        head, tail := elt, elt;
      } else {
        elt.prev := tail;
        if tail != null {
          tail.next := elt;
        }
        elt.next := null;
        tail := elt;
      }
      elems := elems + [elt];
    }

    // i is the element's position, or the length if it is not in the list; an
    // element outside must not be linked to another list.
    method RemoveElem(elt: Elem<T>, ghost i: nat)
      requires Valid() && i <= |elems|
      requires if i < |elems| then elems[i] == elt else elt !in elems && elt.prev == null && elt.next == null
      modifies this, elems`prev, elems`next, elt`prev, elt`next
      ensures Valid() && elems == if i < |old(elems)| then old(elems)[..i] + old(elems)[i + 1..] else old(elems)
      ensures elt.prev == null && elt.next == null
    {
      UnlinkForward(elt, i);
      UnlinkBackward(elt, i);
      elt.next, elt.prev := null, null;
      if i < |elems| {
        ghost var rest := elems[..i] + elems[i + 1..];
        DistinctWithout(elems, i, rest);
        LinkedWithout(elems, i, rest);
        EndsWithout(elems, i, rest);
        elems := rest;
      }
    }

    // The first conditional of `list_remove_elem`: whatever led to the element
    // now leads to its successor.
    method UnlinkForward(elt: Elem<T>, ghost i: nat)
      requires Valid() && i <= |elems|
      requires if i < |elems| then elems[i] == elt else elt !in elems && elt.prev == null
      modifies this`head, elems`next
      ensures head == if i == 0 then At(elems, 1) else First(elems)
      ensures forall k {:trigger elems[k].prev} :: 0 <= k < |elems| ==> elems[k].prev == At(elems, k - 1)
      ensures forall k {:trigger elems[k].next} :: 0 <= k < |elems| ==> elems[k].next == At(elems, if k == i - 1 then i + 1 else k + 1)
      ensures elt !in elems ==> elt.next == old(elt.next)
    {
      if elt.prev != null {
        assert elt.prev == elems[i - 1];
        elt.prev.next := elt.next;
      } else if head == elt {
        head := elt.next;
      }
    }

    // The second conditional: whatever led back to the element now leads back to
    // its predecessor.
    method UnlinkBackward(elt: Elem<T>, ghost i: nat)
      requires i <= |elems| && Distinct(elems) && tail == Last(elems)
      requires if i < |elems| then elems[i] == elt else elt !in elems && elt.next == null
      requires forall k {:trigger elems[k].prev} :: 0 <= k < |elems| ==> elems[k].prev == At(elems, k - 1)
      requires forall k {:trigger elems[k].next} :: 0 <= k < |elems| ==> elems[k].next == At(elems, if k == i - 1 then i + 1 else k + 1)
      modifies this`tail, elems`prev
      ensures tail == if i == |elems| - 1 then At(elems, i - 1) else Last(elems)
      ensures Bypassed(elems, i)
    {
      if elt.next != null {
        assert elt.next == elems[i + 1];
        elt.next.prev := elt.prev;
      } else if tail == elt {
        tail := elt.prev;
      }
    }
  }

  // The links once the neighbours of element i bypass it.
  ghost predicate Bypassed<T>(s: seq<Elem<T>>, i: nat)
    reads s`prev, s`next
  {
    && (forall k {:trigger s[k].next} :: 0 <= k < |s| && k != i ==> s[k].next == At(s, if k == i - 1 then i + 1 else k + 1))
    && (forall k {:trigger s[k].prev} :: 0 <= k < |s| && k != i ==> s[k].prev == At(s, if k == i + 1 then i - 1 else k - 1))
  }

  lemma DistinctWithout<T>(s: seq<Elem<T>>, i: nat, t: seq<Elem<T>>)
    requires i < |s| && Distinct(s) && t == s[..i] + s[i + 1..]
    ensures Distinct(t) && s[i] !in t
  {
  }

  lemma EndsWithout<T>(s: seq<Elem<T>>, i: nat, t: seq<Elem<T>>)
    requires i < |s| && t == s[..i] + s[i + 1..]
    ensures First(t) == if i == 0 then At(s, 1) else First(s)
    ensures Last(t) == if i == |s| - 1 then At(s, i - 1) else Last(s)
  {
  }

  lemma LinkedWithout<T>(s: seq<Elem<T>>, i: nat, t: seq<Elem<T>>)
    requires i < |s| && Bypassed(s, i) && t == s[..i] + s[i + 1..]
    ensures Linked(t)
  {
  }

  // Linking a new element in front of position k.
  ghost predicate Spliced<T>(s: seq<Elem<T>>, k: nat, e: Elem<T>)
    reads s`prev, s`next, e`prev, e`next
  {
    && e.prev == At(s, k - 1) && e.next == At(s, k)
    && (forall i {:trigger s[i].next} :: 0 <= i < |s| ==> s[i].next == if i == k - 1 then e else At(s, i + 1))
    && (forall i {:trigger s[i].prev} :: 0 <= i < |s| ==> s[i].prev == if i == k then e else At(s, i - 1))
  }

  lemma LinkedWith<T>(s: seq<Elem<T>>, k: nat, e: Elem<T>)
    requires k <= |s| && Spliced(s, k, e)
    ensures Linked(s[..k] + [e] + s[k..])
  {
  }

  lemma DistinctWith<T>(s: seq<Elem<T>>, k: nat, e: Elem<T>, t: seq<Elem<T>>)
    requires k <= |s| && Distinct(s) && e !in s && t == s[..k] + [e] + s[k..]
    ensures Distinct(t)
    ensures First(t) == if k == 0 then e else First(s)
    ensures Last(t) == if k == |s| then e else Last(s)
  {
  }
}
