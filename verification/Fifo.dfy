/** The growing ring buffer of queues/fifos/fifo.c. */
module FifoQueue {
  import opened Common

  const FIFO_START_SIZE: nat := 1024

  /** How far slot `j` lies behind `head`, walking forward round a ring of `size` slots. */
  function Distance(head: nat, j: nat, size: nat): (d: nat)
    requires head < size && j < size
    ensures d < size
  {
    if head <= j then j - head else j + size - head
  }

  /** The slot `i` places after `head` in a ring of `size` slots. */
  function SlotAt(head: nat, i: nat, size: nat): (j: nat)
    requires head < size && i < size
    ensures j < size && Distance(head, j, size) == i
  {
    if head + i < size then head + i else head + i - size
  }

  /** The program steps with `% size`; inside the ring that is a step with one wrap. */
  lemma NextSlot(j: nat, size: nat)
    requires j < size
    ensures (j + 1) % size == if j + 1 < size then j + 1 else 0
  {
  }

  /** The slots `q` of a ring whose first element is at `head` hold `contents`: slot `j` holds the element
      that lies `Distance(head, j)` behind the head, and NULL past the last element. */
  ghost predicate Holds<T>(q: seq<Option<T>>, head: nat, contents: seq<T>) {
    && head < |q|
    && |contents| <= |q|
    && forall j :: 0 <= j < |q| ==> q[j] == Occupant(contents, Distance(head, j, |q|))
  }

  /** What a slot `d` places behind the head holds. */
  function Occupant<T>(contents: seq<T>, d: nat): Option<T> {
    if d < |contents| then Some(contents[d]) else None
  }

  lemma HoldsAppended<T>(q: seq<Option<T>>, head: nat, contents: seq<T>, x: T)
    requires Holds(q, head, contents) && |contents| < |q|
    ensures Holds(q[SlotAt(head, |contents|, |q|) := Some(x)], head, contents + [x])
  {
  }

  /** The slot behind the last element. */
  lemma NextFree(head: nat, tail: nat, size: nat, n: nat)
    requires head < size && tail < size && 0 < n < size && Distance(head, tail, size) == n - 1
    ensures (tail + 1) % size == SlotAt(head, n, size) && Distance(head, SlotAt(head, n, size), size) == n
  {
    NextSlot(tail, size);
  }

  lemma LastSlot<T>(q: seq<Option<T>>, head: nat, contents: seq<T>)
    requires Holds(q, head, contents) && |contents| < |q|
    ensures q[SlotAt(head, |contents|, |q|)] == None && SlotAt(head, 0, |q|) == head
    ensures Distance(head, SlotAt(head, |contents|, |q|), |q|) == |contents|
    ensures forall j :: 0 <= j < |q| && Distance(head, j, |q|) < |contents| ==> q[j].Some?
  {
  }

  /** The slot of the first element and the one behind it. */
  lemma FirstSlot<T>(q: seq<Option<T>>, head: nat, tail: nat, contents: seq<T>)
    requires Holds(q, head, contents) && |contents| > 0 && tail < |q| && Distance(head, tail, |q|) == |contents| - 1
    ensures q[head] == Some(contents[0])
    ensures var next := if head + 1 < |q| then head + 1 else 0;
      && (|contents| > 1 ==> next != head && q[next].Some? && Distance(next, tail, |q|) == |contents| - 2)
      && (|contents| == 1 ==> head == tail)
  {
  }

  /** One step round the ring is one place more. */
  lemma NextDistance(head: nat, j: nat, size: nat)
    requires head < size && j < size
    ensures Distance(head, head, size) == 0
    ensures (j + 1) % size < size && (Distance(head, j, size) < size - 1 ==> Distance(head, (j + 1) % size, size) == Distance(head, j, size) + 1)
  {
    NextSlot(j, size);
  }

  lemma SlotHolds<T>(q: seq<Option<T>>, head: nat, contents: seq<T>, j: nat)
    requires Holds(q, head, contents) && j < |q|
    ensures q[j] == Occupant(contents, Distance(head, j, |q|))
  {
  }

  /** Contents that lie in the first slots. */
  lemma StraightHolds<T>(q: seq<Option<T>>, contents: seq<T>)
    requires 0 < |contents| < |q| && forall k :: 0 <= k < |q| ==> q[k] == Occupant(contents, k)
    ensures Holds(q, 0, contents) && Distance(0, |contents| - 1, |q|) == |contents| - 1
  {
  }

  lemma NoneHeld<T>(q: seq<Option<T>>, head: nat, other: nat)
    requires Holds(q, head, []) && other < |q|
    ensures Holds(q, other, [])
  {
  }

  lemma HoldsWithoutHead<T>(q: seq<Option<T>>, head: nat, contents: seq<T>)
    requires Holds(q, head, contents) && |contents| > 0
    ensures (head + 1) % |q| == if head + 1 < |q| then head + 1 else 0
    ensures Holds(q[head := None], if head + 1 < |q| then head + 1 else 0, contents[1..])
  {
    var q' := q[head := None];
    var head' := if head + 1 < |q| then head + 1 else 0;
    forall j | 0 <= j < |q'|
      ensures q'[j] == Occupant(contents[1..], Distance(head', j, |q'|))
    {
      if j != head {
        assert Distance(head', j, |q'|) == Distance(head, j, |q|) - 1;
      }
    }
  }

  /** The occupied slots are exactly the arc of `n` slots from `head` to `tail`. */
  ghost predicate IsRing<T>(q: seq<Option<T>>, head: nat, tail: nat, n: nat) {
    && head < |q| && tail < |q|
    && (n == 0 ==> tail == head)
    && (n > 0 ==> Distance(head, tail, |q|) == n - 1)
    && forall j :: 0 <= j < |q| ==> (q[j].Some? <==> Distance(head, j, |q|) < n)
  }

  /** How many of the first `i` slots lie on the arc from `head` to `tail`. */
  function ArcBefore(head: nat, tail: nat, i: nat): nat {
    if head <= tail then
      if i <= head then 0 else if i <= tail then i - head else tail + 1 - head
    else
      if i <= tail then i else if i <= head then tail + 1 else tail + 1 + i - head
  }

  class Fifo<T> {
    var head: nat
    var tail: nat
    var size: nat
    var nelements: nat
    var queue: array<Option<T>>
    ghost var Contents: seq<T>

    ghost predicate Valid()
      reads this, queue
      ensures Valid() ==> head < size
    {
      && queue.Length == size > 0
      && head < size && tail < size
      && nelements == |Contents|
      && (nelements == 0 ==> tail == head)
      && (nelements > 0 ==> Distance(head, tail, size) == nelements - 1)
      && Holds(queue[..], head, Contents)
    }

    constructor ()
      ensures Valid() && fresh(queue) && Contents == []
    {
      queue := new Option<T>[FIFO_START_SIZE](_ => None);
      head, tail, size, nelements := 0, 0, FIFO_START_SIZE, 0;
      Contents := [];
    }

    predicate Empty()
      requires Valid()
      reads this, queue
      ensures Empty() <==> Contents == []
    {
      nelements == 0
    }

    predicate Full()
      reads this
    {
      nelements == size
    }

    /** Doubling keeps the sequence, wherever the old ring was wrapped. */
    method Grow()
      requires Valid() && Full()
      modifies this
      ensures Valid() && Contents == old(Contents) && fresh(queue) && !Full()
    {
      hide Holds, Distance;
      var newQueue := new Option<T>[size * 2](_ => None);
      var curr := head;
      NextDistance(head, head, size);
      for i := 0 to nelements
        invariant unchanged(this) && unchanged(queue) && Valid()
        invariant 0 <= curr < size && (i < nelements ==> Distance(head, curr, size) == i)
        invariant forall k :: 0 <= k < newQueue.Length ==> newQueue[k] == Occupant(Contents[..i], k)
      {
        SlotHolds(queue[..], head, Contents, curr);
        assert queue[..][curr].Some?;
        newQueue[i] := queue[curr];
        NextDistance(head, curr, size);
        curr := (curr + 1) % size;
      }
      assert Contents[..nelements] == Contents;
      StraightHolds(newQueue[..], Contents);
      head := 0;
      tail := size - 1;
      queue := newQueue;
      size := size * 2;
    }

    method Enq(data: T)
      requires Valid()
      modifies this, queue
      ensures Valid() && Contents == old(Contents) + [data]
      ensures queue == old(queue) || fresh(queue)
    {
      hide Holds, Distance, SlotAt;
      if Full() {
        Grow();
      }
      LastSlot(queue[..], head, Contents);
      HoldsAppended(queue[..], head, Contents, data);
      if !Empty() {
        assert queue[..][tail].Some?;
        NextFree(head, tail, size, nelements);
        tail := (tail + 1) % size;
      } else {
        assert head == tail;
      }
      assert tail == SlotAt(head, nelements, size);
      assert queue[..][tail] == None;
      queue[tail] := Some(data);
      nelements := nelements + 1;
      Contents := Contents + [data];
    }

    method Deq() returns (err: Err, data: Option<T>)
      requires Valid()
      modifies this, queue
      ensures Valid() && queue == old(queue)
      ensures old(Contents) == [] ==> err == ENOENT && data == None && Contents == []
      ensures old(Contents) != [] ==> err == Ok && data == Some(old(Contents)[0]) && Contents == old(Contents)[1..]
    {
      hide Holds, Distance, Occupant;
      if Empty() {
        return ENOENT, None;
      }
      data := queue[head];
      FirstSlot(queue[..], head, tail, Contents);
      assert queue[..][head] == Some(Contents[0]);
      HoldsWithoutHead(queue[..], head, Contents);
      ghost var before := queue[..];
      queue[head] := None;
      assert queue[..] == before[head := None];
      nelements := nelements - 1;
      Contents := Contents[1..];
      if nelements != 0 {
        head := (head + 1) % size;
        assert queue[..][head].Some?;
      } else {
        assert head == tail;
        assert Contents == [];
        NoneHeld(queue[..], if head + 1 < size then head + 1 else 0, head);
      }
      err := Ok;
    }

    /** The program's own consistency check accepts exactly the rings whose occupied slots are the arc of
        `nelements` slots starting at the head and ending at the tail; every valid queue is one. */
    method Check() returns (ok: bool)
      requires queue.Length == size
      ensures ok <==> IsRing(queue[..], head, tail, nelements)
      ensures Valid() ==> ok
    {
      if !(head < size && tail < size && (nelements != 0 || head == tail)) {
        return false;
      }
      var count := 0;
      for i := 0 to size
        invariant forall j :: 0 <= j < i ==> SlotAgrees(queue[j].Some?, j)
        invariant nelements > 0 ==> count == ArcBefore(head, tail, i)
        invariant nelements == 0 ==> count == if head < i && queue[head].Some? then 1 else 0
      {
        assert queue[..][i] == queue[i];
        if head <= tail {
          if queue[i].Some? {
            if !(head <= i <= tail) { return false; }
            count := count + 1;
          } else if !(nelements == 0 || i < head || tail < i) {
            return false;
          }
        } else {
          if queue[i].Some? {
            if !(head <= i || i <= tail) { return false; }
            count := count + 1;
          } else if !(nelements == 0 || (i < head && tail < i)) {
            return false;
          }
        }
      }
      ok := nelements == count;
      if nelements == 0 && queue[head].Some? {
        assert queue[..][head].Some?;
      }
      if ok && nelements > 0 {
        forall j | 0 <= j < size
          ensures queue[..][j].Some? <==> Distance(head, j, size) < nelements
        {
          assert SlotAgrees(queue[j].Some?, j);
        }
      }
    }

    /** The test the check applies to one slot. */
    predicate SlotAgrees(occupied: bool, j: nat)
      reads this
    {
      var inside := if head <= tail then head <= j <= tail else head <= j || j <= tail;
      if occupied then inside else nelements == 0 || !inside
    }
  }
}
