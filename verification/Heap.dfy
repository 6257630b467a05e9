/** The array heap of queues/heaps/heap.c: a maximum heap under the caller's compare function. */
module PriorityHeap {
  import opened Common

  const HEAP_START_SIZE: nat := 64

  function Parent(i: nat): (p: nat)
    requires i > 0
    ensures p < i
  {
    (i - 1) / 2
  }

  /** No element ranks above its parent, except perhaps the one at `hole`, whose children still rank
      no higher than its parent. */
  ghost predicate OrderedExceptAt<T>(s: seq<T>, rank: T -> int, hole: nat) {
    && (forall j :: 0 < j < |s| && j != hole ==> rank(s[j]) <= rank(s[Parent(j)]))
    && (forall j :: 0 < j < |s| && Parent(j) == hole > 0 ==> rank(s[j]) <= rank(s[Parent(hole)]))
  }

  /** No element ranks above its parent, except perhaps the children of `hole`, and they rank no higher
      than the parent of `hole`. */
  ghost predicate OrderedExceptBelow<T>(s: seq<T>, rank: T -> int, hole: nat) {
    && (forall j :: 0 < j < |s| && Parent(j) != hole ==> rank(s[j]) <= rank(s[Parent(j)]))
    && (forall j :: 0 < j < |s| && Parent(j) == hole > 0 ==> rank(s[j]) <= rank(s[Parent(hole)]))
  }

  ghost predicate Ordered<T>(s: seq<T>, rank: T -> int) {
    forall j :: 0 < j < |s| ==> rank(s[j]) <= rank(s[Parent(j)])
  }

  /** The root of an ordered heap ranks at least as high as every element. */
  lemma {:induction false} RootDominates<T>(s: seq<T>, rank: T -> int, i: nat)
    requires Ordered(s, rank) && i < |s|
    ensures rank(s[i]) <= rank(s[0])
  {
    if i > 0 {
      RootDominates(s, rank, Parent(i));
    }
  }

  ghost function Swapped<T>(s: seq<T>, i: nat, j: nat): seq<T>
    requires i < |s| && j < |s|
  {
    s[i := s[j]][j := s[i]]
  }

  lemma SwapKeepsElements<T>(s: seq<T>, i: nat, j: nat)
    requires i < j < |s|
    ensures multiset(Swapped(s, i, j)) == multiset(s)
  {
    assert s == s[..i] + [s[i]] + s[i + 1..j] + [s[j]] + s[j + 1..];
    assert Swapped(s, i, j) == s[..i] + [s[j]] + s[i + 1..j] + [s[i]] + s[j + 1..];
  }

  /** Swapping the element at the hole with a lower parent moves the hole up. */
  lemma SiftUpStep<T>(s: seq<T>, rank: T -> int, ind: nat)
    requires 0 < ind < |s| && OrderedExceptAt(s, rank, ind) && rank(s[Parent(ind)]) < rank(s[ind])
    ensures OrderedExceptAt(Swapped(s, Parent(ind), ind), rank, Parent(ind))
  {
  }

  /** Swapping the element at the hole with its higher child moves the hole down. */
  lemma SiftDownStep<T>(s: seq<T>, rank: T -> int, ind: nat, child: nat)
    requires ind < child < |s| && Parent(child) == ind && OrderedExceptBelow(s, rank, ind)
    requires rank(s[ind]) < rank(s[child])
    requires forall j :: 0 < j < |s| && Parent(j) == ind ==> rank(s[j]) <= rank(s[child])
    ensures OrderedExceptBelow(Swapped(s, ind, child), rank, child)
  {
  }

  /** The array after the last element has moved to the root's place. */
  function LastToRoot<T>(s: seq<T>): seq<T>
    requires |s| > 0
  {
    if |s| == 1 then [] else [s[|s| - 1]] + s[1..|s| - 1]
  }

  lemma LastToRootKeepsRest<T>(s: seq<T>, rank: T -> int)
    requires |s| > 0 && Ordered(s, rank)
    ensures multiset(s) == multiset(LastToRoot(s)) + multiset{s[0]}
    ensures OrderedExceptBelow(LastToRoot(s), rank, 0)
    ensures forall x :: x in s ==> rank(x) <= rank(s[0])
  {
    forall i | 0 <= i < |s| ensures rank(s[i]) <= rank(s[0]) {
      RootDominates(s, rank, i);
    }
    if |s| == 1 {
      assert s == [s[0]];
    } else {
      assert s == [s[0]] + s[1..|s| - 1] + [s[|s| - 1]];
    }
  }

  class Heap<T> {
    /** The compare function: `compare(a, b)` has the sign of `rank(a) - rank(b)`. */
    const rank: T -> int
    var size: nat
    var nelements: nat
    var heap: array<Option<T>>
    /** The live elements in array order. */
    ghost var Elements: seq<T>

    /** The first `n` slots hold `Elements`. */
    ghost predicate Holds(n: nat)
      reads this, heap
    {
      && heap.Length == size && 0 < size
      && n == |Elements| <= size
      && forall i :: 0 <= i < n ==> heap[i] == Some(Elements[i])
    }

    ghost predicate Valid()
      reads this, heap
    {
      && Holds(nelements)
      && Ordered(Elements, rank)
      && (nelements == 0 ==> heap[0] == None)
    }

    constructor (rank: T -> int)
      ensures Valid() && fresh(heap) && Elements == [] && this.rank == rank
    {
      this.rank := rank;
      size, nelements := HEAP_START_SIZE, 0;
      heap := new Option<T>[HEAP_START_SIZE](_ => None);
      Elements := [];
    }

    predicate Empty()
      requires Valid()
      reads this, heap
      ensures Empty() <==> Elements == []
    {
      nelements == 0
    }

    method SwapSlots(i: nat, j: nat)
      requires Holds(|Elements|) && i < j < |Elements|
      modifies heap, `Elements
      ensures Holds(|Elements|)
      ensures Elements == Swapped(old(Elements), i, j)
      ensures multiset(Elements) == multiset(old(Elements))
    {
      heap[i], heap[j] := heap[j], heap[i];
      SwapKeepsElements(Elements, i, j);
      Elements := Swapped(Elements, i, j);
    }

    method Upheap(ind: nat)
      requires Holds(|Elements|) && ind < |Elements|
      requires OrderedExceptAt(Elements, rank, ind)
      modifies heap, `Elements
      ensures Holds(|Elements|) && |Elements| == |old(Elements)|
      ensures Ordered(Elements, rank)
      ensures multiset(Elements) == multiset(old(Elements))
      decreases ind
    {
      if ind == 0 {
        return;
      }
      var pind := (ind - 1) / 2;
      var child, parent := heap[ind].value, heap[pind].value;
      if rank(parent) - rank(child) < 0 {
        SiftUpStep(Elements, rank, ind);
        SwapSlots(pind, ind);
        Upheap(pind);
      }
    }

    method Insert(element: T)
      requires Valid()
      modifies this, heap
      ensures Valid() && (heap == old(heap) || fresh(heap))
      ensures multiset(Elements) == multiset(old(Elements)) + multiset{element}
    {
      if nelements == size {
        var p := new Option<T>[size + HEAP_START_SIZE](i requires 0 <= i reads this, heap =>
          if i < heap.Length then heap[i] else None);
        heap := p;
        size := size + HEAP_START_SIZE;
      }
      heap[nelements] := Some(element);
      Elements := Elements + [element];
      Upheap(nelements);
      nelements := nelements + 1;
    }

    /** The child that may have to move up: the only one, or the higher of two. */
    method HigherChild(ind: nat) returns (scind: Option<nat>)
      requires Holds(nelements) && ind < nelements
      ensures scind == None <==> ind * 2 + 1 >= nelements
      ensures scind.Some? ==>
                && ind < scind.value < nelements && Parent(scind.value) == ind
                && forall j :: 0 < j < nelements && Parent(j) == ind ==> rank(Elements[j]) <= rank(Elements[scind.value])
    {
      var cind1 := ind * 2 + 1;
      var cind2 := cind1 + 1;
      if cind1 >= nelements {
        return None;
      }
      scind := Some(cind1);
      if cind2 < nelements {
        var child1, child2 := heap[cind1].value, heap[cind2].value;
        scind := if rank(child1) - rank(child2) > 0 then Some(cind1) else Some(cind2);
      }
    }

    method Downheap(ind: nat)
      requires Holds(nelements) && (nelements > 0 ==> ind < nelements)
      requires OrderedExceptBelow(Elements, rank, ind)
      modifies heap, `Elements
      ensures Holds(nelements)
      ensures Ordered(Elements, rank)
      ensures multiset(Elements) == multiset(old(Elements))
      ensures nelements == 0 ==> unchanged(heap)
      decreases nelements - ind
    {
      if nelements == 0 {
        return;
      }
      var higher := HigherChild(ind);
      if higher == None {
        return;
      }
      var scind := higher.value;
      var swapChild, parent := heap[scind].value, heap[ind].value;
      if rank(swapChild) - rank(parent) > 0 {
        SiftDownStep(Elements, rank, ind, scind);
        SwapSlots(ind, scind);
        Downheap(scind);
      }
    }

    /** Moves the last element to the root's slot and clears the slot it left. */
    method MoveLastToRoot()
      requires Valid() && nelements > 0
      modifies this, heap
      ensures heap == old(heap) && nelements == old(nelements) - 1
      ensures Elements == LastToRoot(old(Elements)) && Holds(nelements)
      ensures nelements == 0 ==> heap[0] == None
    {
      heap[0] := heap[nelements - 1];
      heap[nelements - 1] := None;
      nelements := nelements - 1;
      Elements := LastToRoot(Elements);
    }

    /** Removes and returns an element of the highest rank; NULL from an empty heap. */
    method Pop() returns (top: Option<T>)
      requires Valid()
      modifies this, heap
      ensures Valid() && heap == old(heap)
      ensures old(Elements) == [] ==> top == None && Elements == []
      ensures old(Elements) != [] ==>
                && top.Some?
                && multiset(old(Elements)) == multiset(Elements) + multiset{top.value}
                && forall x :: x in old(Elements) ==> rank(x) <= rank(top.value)
    {
      top := heap[0];
      if nelements == 0 {
        return;
      }
      LastToRootKeepsRest(Elements, rank);
      MoveLastToRoot();
      Downheap(0);
    }
  }

  /** Popping until the heap is empty lists everything it held, in descending rank. */
  method PopAll<T>(h: Heap<T>) returns (out: seq<T>)
    requires h.Valid()
    modifies h, h.heap
    ensures h.Valid() && h.Elements == []
    ensures multiset(out) == multiset(old(h.Elements))
    ensures forall i, j :: 0 <= i < j < |out| ==> h.rank(out[i]) >= h.rank(out[j])
  {
    out := [];
    ghost var all := multiset(h.Elements);
    hide Ordered;
    while !h.Empty()
      invariant h.Valid() && h.heap == old(h.heap)
      invariant multiset(out) + multiset(h.Elements) == all
      invariant forall i, j :: 0 <= i < j < |out| ==> h.rank(out[i]) >= h.rank(out[j])
      invariant forall i, x :: 0 <= i < |out| && x in h.Elements ==> h.rank(out[i]) >= h.rank(x)
      decreases |h.Elements|
    {
      ghost var before := h.Elements;
      var top := h.Pop();
      assert |multiset(before)| == |multiset(h.Elements)| + 1;
      assert top.value in multiset(before);
      forall x | x in h.Elements ensures x in before {
        assert x in multiset(before);
      }
      out := out + [top.value];
    }
  }
}
