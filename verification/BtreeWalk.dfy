/** The level-order walk over a tree on disk, with its callbacks: btrees/btree.c, `_bt_iterate_disk`. */
module BtreeWalk {
  import opened Common
  import opened Callbacks
  import opened FifoQueue
  import opened BtreeNode
  import opened BtreeShape
  import opened BtreeOrder
  import opened BtreeLevels

  // What the callbacks see

  datatype Event = AtNode(node: Node) | AtRecord(rec: Rec)

  ghost function OnEvent<S>(nodeCallback: (Node, S) -> Reply<S>, recordCallback: (Rec, S) -> Reply<S>): (Event, S) -> Reply<S> {
    (e: Event, ctx: S) => match e
      case AtNode(n) => nodeCallback(n, ctx)
      case AtRecord(r) => recordCallback(r, ctx)
  }

  ghost function AtRecords(recs: seq<Rec>): seq<Event> {
    if recs == [] then [] else [AtRecord(recs[0])] + AtRecords(recs[1..])
  }

  /** A node, and then its records if it is a leaf. */
  ghost function NodeEvents(n: Node): seq<Event> {
    [AtNode(n)] + if n.isLeaf then AtRecords(n.recs) else []
  }

  ghost function Events(blocks: map<nat, Node>, ts: seq<Tree>): seq<Event>
    requires forall t <- ts :: BlkOf(t) in blocks
  {
    if ts == [] then [] else NodeEvents(blocks[BlkOf(ts[0])]) + Events(blocks, ts[1..])
  }

  /** The nodes among what is shown. */
  ghost function NodesOf(es: seq<Event>): seq<Node> {
    if es == [] then [] else (if es[0].AtNode? then [es[0].node] else []) + NodesOf(es[1..])
  }

  /** The records among what is shown. */
  ghost function RecordsOf(es: seq<Event>): seq<Rec> {
    if es == [] then [] else (if es[0].AtRecord? then [es[0].rec] else []) + RecordsOf(es[1..])
  }

  /** Event `i` shows a record of the leaf shown by event `j`, in the order of the leaf. */
  ghost predicate OfLeaf(es: seq<Event>, j: nat, i: nat) {
    && j < i < |es| && es[j].AtNode? && es[j].node.isLeaf
    && i - j - 1 < |es[j].node.recs| && es[i] == AtRecord(es[j].node.recs[i - j - 1])
  }

  ghost predicate RecordsFollow(es: seq<Event>, j: nat)
    requires j < |es| && es[j].AtNode?
  {
    var recs := es[j].node.recs;
    j + |recs| < |es| && forall k :: 0 <= k < |recs| ==> es[j + 1 + k] == AtRecord(recs[k])
  }

  /** A leaf is followed by its records, and a record follows its leaf. */
  ghost predicate LeavesFirst(es: seq<Event>) {
    && (forall j :: 0 <= j < |es| && es[j].AtNode? && es[j].node.isLeaf ==> RecordsFollow(es, j))
    && (forall i :: 0 <= i < |es| && es[i].AtRecord? ==> exists j :: 0 <= j < i && OfLeaf(es, j, i))
  }

  lemma NoEvents()
    ensures NodesOf([]) == [] && RecordsOf([]) == []
  {
  }

  lemma FirstEvent(e: Event, es: seq<Event>)
    ensures NodesOf([e] + es) == (if e.AtNode? then [e.node] else []) + NodesOf(es)
    ensures RecordsOf([e] + es) == (if e.AtRecord? then [e.rec] else []) + RecordsOf(es)
  {
    assert ([e] + es)[1..] == es;
  }

  lemma {:induction false} SplitEvents(a: seq<Event>, b: seq<Event>)
    ensures NodesOf(a + b) == NodesOf(a) + NodesOf(b) && RecordsOf(a + b) == RecordsOf(a) + RecordsOf(b)
  {
    hide NodesOf, RecordsOf;
    if a == [] {
      assert a + b == b;
      NoEvents();
    } else {
      assert a == [a[0]] + a[1..] && a + b == [a[0]] + (a[1..] + b);
      FirstEvent(a[0], a[1..]);
      FirstEvent(a[0], a[1..] + b);
      SplitEvents(a[1..], b);
    }
  }

  lemma {:induction false} RecordEvents(recs: seq<Rec>)
    ensures NodesOf(AtRecords(recs)) == [] && RecordsOf(AtRecords(recs)) == recs
    ensures |AtRecords(recs)| == |recs| && forall i :: 0 <= i < |recs| ==> AtRecords(recs)[i] == AtRecord(recs[i])
  {
    if recs != [] {
      RecordEvents(recs[1..]);
      assert AtRecords(recs)[1..] == AtRecords(recs[1..]);
    }
  }

  lemma LeavesFirstConcat(a: seq<Event>, b: seq<Event>)
    requires LeavesFirst(a) && LeavesFirst(b)
    ensures LeavesFirst(a + b)
  {
    var es := a + b;
    forall j | 0 <= j < |es| && es[j].AtNode? && es[j].node.isLeaf ensures RecordsFollow(es, j) {
      if j < |a| {
        assert RecordsFollow(a, j);
      } else {
        assert RecordsFollow(b, j - |a|);
      }
    }
    forall i | 0 <= i < |es| && es[i].AtRecord? ensures exists j :: 0 <= j < i && OfLeaf(es, j, i) {
      if i < |a| {
        var j :| 0 <= j < i && OfLeaf(a, j, i);
        assert OfLeaf(es, j, i);
      } else {
        var j :| 0 <= j < i - |a| && OfLeaf(b, j, i - |a|);
        assert OfLeaf(es, j + |a|, i);
      }
    }
  }

  lemma OneNodeShown(n: Node)
    ensures LeavesFirst(NodeEvents(n)) && NodesOf(NodeEvents(n)) == [n]
    ensures RecordsOf(NodeEvents(n)) == if n.isLeaf then n.recs else []
  {
    RecordEvents(n.recs);
    var es := NodeEvents(n);
    assert es[1..] == if n.isLeaf then AtRecords(n.recs) else [];
    forall i | 0 <= i < |es| && es[i].AtRecord? ensures exists j :: 0 <= j < i && OfLeaf(es, j, i) {
      assert OfLeaf(es, 0, i);
    }
  }

  ghost function NodesAt(blocks: map<nat, Node>, ts: seq<Tree>): seq<Node>
    requires forall t <- ts :: BlkOf(t) in blocks
  {
    seq(|ts|, i requires 0 <= i < |ts| => blocks[BlkOf(ts[i])])
  }

  /** The nodes are shown in the order of the walk, each leaf before its own records. */
  lemma {:induction false} EventsInOrder(blocks: map<nat, Node>, ts: seq<Tree>)
    requires AllRead(blocks, ts)
    ensures var es := Events(blocks, ts);
      NodesOf(es) == NodesAt(blocks, ts) && RecordsOf(es) == LeafRecs(ts) && LeavesFirst(es)
  {
    if ts != [] {
      var n := blocks[BlkOf(ts[0])];
      EventsInOrder(blocks, ts[1..]);
      OneNodeShown(n);
      SplitEvents(NodeEvents(n), Events(blocks, ts[1..]));
      LeavesFirstConcat(NodeEvents(n), Events(blocks, ts[1..]));
    }
  }

  lemma {:induction false} VisitRecords<S>(recs: seq<Rec>, nodeCallback: (Node, S) -> Reply<S>,
                                           recordCallback: (Rec, S) -> Reply<S>, ctx: S)
    ensures Visit(AtRecords(recs), OnEvent(nodeCallback, recordCallback), ctx) == Visit(recs, recordCallback, ctx)
  {
    if recs != [] {
      assert AtRecords(recs)[1..] == AtRecords(recs[1..]);
      VisitRecords(recs[1..], nodeCallback, recordCallback, recordCallback(recs[0], ctx).ctx);
    }
  }

  /** A callback that only passes its context on, or a missing one. */
  ghost predicate Passive<T(!new), S(!new)>(callback: (T, S) -> Reply<S>) {
    forall x, ctx :: callback(x, ctx) == Reply(Ok, false, ctx)
  }

  lemma {:induction false} RecordsPassed<S(!new)>(recs: seq<Rec>, nodeCallback: (Node, S) -> Reply<S>,
                                                  recordCallback: (Rec, S) -> Reply<S>, ctx: S)
    requires Passive(recordCallback)
    ensures Visit(AtRecords(recs), OnEvent(nodeCallback, recordCallback), ctx) == Reply(Ok, false, ctx)
  {
    if recs != [] {
      assert AtRecords(recs)[1..] == AtRecords(recs[1..]);
      RecordsPassed(recs[1..], nodeCallback, recordCallback, ctx);
    }
  }

  /** The block of each subtree holds its first node. */
  ghost predicate AllRead(blocks: map<nat, Node>, ts: seq<Tree>) {
    forall i :: 0 <= i < |ts| ==> BlkOf(ts[i]) in blocks && ReadsAs(blocks[BlkOf(ts[i])], ts[i])
  }

  /** Without a callback for nodes, the records of the leaves are shown one after the other. */
  lemma {:induction false} OnlyRecords<S(!new)>(blocks: map<nat, Node>, ts: seq<Tree>, nodeCallback: (Node, S) -> Reply<S>,
                                                recordCallback: (Rec, S) -> Reply<S>, ctx: S)
    requires AllRead(blocks, ts) && Passive(nodeCallback)
    ensures Visit(Events(blocks, ts), OnEvent(nodeCallback, recordCallback), ctx) == Visit(LeafRecs(ts), recordCallback, ctx)
  {
    if ts != [] {
      var onEvent, n, rest := OnEvent(nodeCallback, recordCallback), blocks[BlkOf(ts[0])], ts[1..];
      var recs := if n.isLeaf then n.recs else [];
      assert NodeEvents(n) == [AtNode(n)] + AtRecords(recs);
      assert NodeEvents(n)[1..] == AtRecords(recs);
      VisitConcat(NodeEvents(n), Events(blocks, rest), onEvent, ctx);
      VisitRecords(recs, nodeCallback, recordCallback, ctx);
      VisitConcat(recs, LeafRecs(rest), recordCallback, ctx);
      OnlyRecords(blocks, rest, nodeCallback, recordCallback, Visit(recs, recordCallback, ctx).ctx);
    }
  }

  /** Without a callback for records, the nodes are shown one after the other. */
  lemma {:induction false} OnlyNodes<S(!new)>(blocks: map<nat, Node>, ts: seq<Tree>, nodeCallback: (Node, S) -> Reply<S>,
                                              recordCallback: (Rec, S) -> Reply<S>, ctx: S)
    requires AllRead(blocks, ts) && Passive(recordCallback)
    ensures Visit(Events(blocks, ts), OnEvent(nodeCallback, recordCallback), ctx) == Visit(NodesAt(blocks, ts), nodeCallback, ctx)
  {
    if ts != [] {
      var onEvent, n, rest := OnEvent(nodeCallback, recordCallback), blocks[BlkOf(ts[0])], ts[1..];
      var recs, o := if n.isLeaf then n.recs else [], nodeCallback(n, ctx);
      assert NodeEvents(n) == [AtNode(n)] + AtRecords(recs);
      assert NodeEvents(n)[1..] == AtRecords(recs);
      assert NodesAt(blocks, ts)[0] == n && NodesAt(blocks, ts)[1..] == NodesAt(blocks, rest);
      VisitConcat(NodeEvents(n), Events(blocks, rest), onEvent, ctx);
      RecordsPassed(recs, nodeCallback, recordCallback, o.ctx);
      OnlyNodes(blocks, rest, nodeCallback, recordCallback, o.ctx);
    }
  }

  // The work array and the queue of its slots

  /** The next `n` slots from `h` on, in the order they were filled. */
  function Slots(h: nat, n: nat): (r: seq<nat>)
    ensures |r| == n && forall i :: 0 <= i < n ==> r[i] == h + i
  {
    seq(n, i requires 0 <= i < n => h + i)
  }

  /** The subtree's node as it is read from its block. */
  ghost predicate ReadsAs(n: Node, t: Tree) {
    match t
    case Nil => false
    case Leaf(_, recs) => n.isLeaf && n.recs == recs
    case Index(_, seps, kids) =>
      |kids| == |seps| + 1 && !n.isLeaf && n.first == BlkOf(kids[0]) && n.recs == IndexRecs(seps, kids)
  }

  /** The blocks read as the subtree, whether or not they are sound otherwise. */
  ghost predicate Readable(blocks: map<nat, Node>, t: Tree)
    decreases t
  {
    !t.Nil? ==>
      && t.blk in blocks && ReadsAs(blocks[t.blk], t)
      && (t.Index? ==> forall j :: 0 <= j < |t.kids| ==> Readable(blocks, t.kids[j]))
  }

  lemma {:induction false} StoredKids(blocks: map<nat, Node>, ts: seq<Tree>)
    requires StoredAll(blocks, ts)
    ensures forall i :: 0 <= i < |ts| ==> Stored(blocks, ts[i], false)
  {
    if ts != [] {
      StoredKids(blocks, ts[1..]);
      forall i | 0 <= i < |ts| ensures Stored(blocks, ts[i], false) {
        if i > 0 {
          assert ts[i] == ts[1..][i - 1];
        }
      }
    }
  }

  /** A stored subtree is read as what it is. */
  lemma {:induction false} StoredIsReadable(blocks: map<nat, Node>, t: Tree, isRoot: bool)
    requires Stored(blocks, t, isRoot)
    ensures Readable(blocks, t)
    decreases t
  {
    if t.Index? {
      StoredKids(blocks, t.kids);
      forall j | 0 <= j < |t.kids| ensures Readable(blocks, t.kids[j]) {
        StoredIsReadable(blocks, t.kids[j], false);
      }
    }
  }

  /** The filled slots from `h` on hold the blocks of the queued subtrees. */
  ghost predicate SlotsHold(blocks: map<nat, Node>, slots: seq<nat>, h: nat, ts: seq<Tree>) {
    && h + |ts| <= |slots|
    && forall i :: 0 <= i < |ts| ==> !ts[i].Nil? && slots[h + i] == ts[i].blk && Readable(blocks, ts[i])
  }

  /** The queue holds the slots of the subtrees `ts`, which are the last ones filled. */
  ghost predicate IsQueue(fi: Fifo<nat>, blknos: array<nat>, curr: nat, h: nat, ts: seq<Tree>, blocks: map<nat, Node>)
    reads fi, fi.queue, blknos
  {
    && fi.Valid() && fi.queue as object != blknos
    && curr == h + |ts| && fi.Contents == Slots(h, |ts|) && SlotsHold(blocks, blknos[..], h, ts)
  }

  /** Puts one child pointer into the next slot and queues the slot; a zero pointer is passed over. */
  method QueueChild(ptr: nat, fi: Fifo<nat>, blknos: array<nat>, curr: nat, ghost h: nat, ghost ts: seq<Tree>,
                    ghost blocks: map<nat, Node>, ghost kid: Tree)
    returns (next: nat)
    requires IsQueue(fi, blknos, curr, h, ts, blocks) && ptr == BlkOf(kid) && (ptr == 0 <==> kid.Nil?)
    requires !kid.Nil? ==> Readable(blocks, kid) && curr < blknos.Length
    modifies fi, fi.queue, blknos
    ensures fi.queue == old(fi.queue) || fresh(fi.queue)
    ensures IsQueue(fi, blknos, next, h, ts + (if kid.Nil? then [] else [kid]), blocks)
    ensures next == if kid.Nil? then curr else curr + 1
    ensures blknos[..curr] == old(blknos[..curr])
  {
    next := curr;
    if ptr != 0 {
      blknos[curr] := ptr;
      fi.Enq(curr);
      next := curr + 1;
      assert Slots(h, |ts| + 1) == Slots(h, |ts|) + [curr];
    } else {
      assert ts + [] == ts;
    }
  }

  lemma {:induction false} PresentGrows(ts: seq<Tree>, i: nat)
    requires i <= |ts|
    ensures |Present(ts[..i])| <= |Present(ts)|
    decreases |ts| - i
  {
    if i < |ts| {
      PresentStep(ts, i);
      PresentGrows(ts, i + 1);
    } else {
      assert ts[..i] == ts;
    }
  }

  lemma PrefixKept<T>(before: seq<T>, after: seq<T>, n: nat, m: nat)
    requires n <= m <= |before| == |after| && before[..m] == after[..m]
    ensures before[..n] == after[..n]
  {
    assert before[..n] == before[..m][..n] && after[..n] == after[..m][..n];
  }

  /** Queues the children of an index node: the first pointer, then those of the records. */
  method QueueChildren(n: Node, fi: Fifo<nat>, blknos: array<nat>, curr: nat, ghost h: nat, ghost ts: seq<Tree>,
                       ghost blocks: map<nat, Node>, ghost t: Tree)
    returns (next: nat)
    requires IsQueue(fi, blknos, curr, h, ts, blocks) && t.Index? && ReadsAs(n, t)
    requires forall j :: 0 <= j < |t.kids| ==> Readable(blocks, t.kids[j]) && (BlkOf(t.kids[j]) == 0 <==> t.kids[j].Nil?)
    requires curr + |Present(t.kids)| <= blknos.Length
    modifies fi, fi.queue, blknos
    ensures fi.queue == old(fi.queue) || fresh(fi.queue)
    ensures IsQueue(fi, blknos, next, h, ts + Present(t.kids), blocks)
    ensures blknos[..curr] == old(blknos[..curr])
  {
    hide Readable, SlotsHold, Slots, ReadsAs, WithFirst, Present, IsQueue;
    QueueLength(fi, blknos, curr, h, ts, blocks);
    ChildPointers(n, t);
    ghost var kids := t.kids;
    WithFirstStep(ts, kids, 0);
    next := QueueChild(n.first, fi, blknos, curr, h, ts, blocks, kids[0]);
    var i := 0;
    while i < |n.recs|
      invariant i <= |n.recs| && IsQueue(fi, blknos, next, h, WithFirst(ts, kids, i + 1), blocks)
      invariant fi.queue == old(fi.queue) || fresh(fi.queue)
      invariant next == h + |WithFirst(ts, kids, i + 1)| && curr <= next <= blknos.Length
      invariant blknos[..curr] == old(blknos[..curr])
    {
      WithFirstStep(ts, kids, i + 1);
      ghost var slots, filled := blknos[..], next;
      next := QueueChild(n.recs[i].val.blkno, fi, blknos, next, h, WithFirst(ts, kids, i + 1), blocks, kids[i + 1]);
      PrefixKept(slots, blknos[..], curr, filled);
      i := i + 1;
    }
    WithFirstAll(ts, kids);
  }

  lemma QueueLength(fi: Fifo<nat>, blknos: array<nat>, curr: nat, h: nat, ts: seq<Tree>, blocks: map<nat, Node>)
    requires IsQueue(fi, blknos, curr, h, ts, blocks)
    ensures curr == h + |ts| <= blknos.Length
  {
  }

  /** The queue with the first `n` children. */
  ghost function WithFirst(ts: seq<Tree>, kids: seq<Tree>, n: nat): seq<Tree>
    requires n <= |kids|
  {
    ts + Present(kids[..n])
  }

  lemma WithFirstStep(ts: seq<Tree>, kids: seq<Tree>, n: nat)
    requires n < |kids|
    ensures n == 0 ==> WithFirst(ts, kids, n) == ts
    ensures WithFirst(ts, kids, n + 1) == WithFirst(ts, kids, n) + if kids[n].Nil? then [] else [kids[n]]
    ensures |WithFirst(ts, kids, n + 1)| <= |ts| + |Present(kids)|
  {
    PresentStep(kids, n);
    PresentGrows(kids, n + 1);
  }

  lemma WithFirstAll(ts: seq<Tree>, kids: seq<Tree>)
    ensures WithFirst(ts, kids, |kids|) == ts + Present(kids)
  {
    assert kids[..|kids|] == kids;
  }

  lemma ChildPointers(n: Node, t: Tree)
    requires ReadsAs(n, t) && t.Index?
    ensures |t.kids| == |n.recs| + 1 && n.first == BlkOf(t.kids[0])
    ensures forall i :: 0 <= i < |n.recs| ==> n.recs[i].val.Ptr? && n.recs[i].val.blkno == BlkOf(t.kids[i + 1])
  {
  }

  lemma ReadFromBlock(blocks: map<nat, Node>, t: Tree)
    requires Readable(blocks, t) && !t.Nil?
    ensures t.blk in blocks && ReadsAs(blocks[t.blk], t)
    ensures t.Index? ==> forall j :: 0 <= j < |t.kids| ==> Readable(blocks, t.kids[j])
  {
  }

  lemma BlockInKids(kids: seq<Tree>, j: nat)
    requires j < |kids|
    ensures !kids[j].Nil? ==> kids[j].blk in BlocksAll(kids)
  {
    SplitAtKid(kids, j);
    assert !kids[j].Nil? ==> kids[j].blk in Blocks(kids[j]);
  }

  /** The queue after its first slot has been taken. */
  lemma SlotTaken(blocks: map<nat, Node>, slots: seq<nat>, h: nat, ts: seq<Tree>)
    requires ts != [] && SlotsHold(blocks, slots, h, ts)
    ensures Slots(h, |ts|)[0] == h && Slots(h, |ts|)[1..] == Slots(h + 1, |ts| - 1)
    ensures slots[h] == ts[0].blk && SlotsHold(blocks, slots, h + 1, ts[1..])
  {
    assert ts[0] == ts[0 + 0];
    forall i | 0 <= i < |ts| - 1 ensures slots[h + 1 + i] == ts[1..][i].blk {
      assert slots[h + (i + 1)] == ts[i + 1].blk;
    }
  }

  /** Takes the next slot from the queue. */
  method TakeSlot(fi: Fifo<nat>, slots: array<nat>, curr: nat, ghost h: nat, ghost ts: seq<Tree>, ghost blocks: map<nat, Node>)
    returns (blkno: nat)
    requires IsQueue(fi, slots, curr, h, ts, blocks) && ts != []
    modifies fi, fi.queue
    ensures fi.queue == old(fi.queue) && IsQueue(fi, slots, curr, h + 1, ts[1..], blocks)
    ensures h < slots.Length && !ts[0].Nil? && blkno == ts[0].blk == slots[h] && Readable(blocks, ts[0])
  {
    SlotTaken(blocks, slots[..], h, ts);
    var err, slot := fi.Deq();
    blkno := slots[slot.value];
  }

  // Walking

  ghost predicate AllReadable(blocks: map<nat, Node>, ts: seq<Tree>) {
    forall i :: 0 <= i < |ts| ==> !ts[i].Nil? && Readable(blocks, ts[i]) && BlkOf(ts[i]) in blocks
  }

  /** The children of a stored subtree are stored. */
  lemma NextReadable(blocks: map<nat, Node>, ts: seq<Tree>)
    requires AllReadable(blocks, ts) && ts != []
    ensures AllReadable(blocks, After(ts))
  {
    ReadFromBlock(blocks, ts[0]);
    var kids := Present(KidsOf(ts[0]));
    hide Readable, Present;
    forall i | 0 <= i < |kids| ensures !kids[i].Nil? && Readable(blocks, kids[i]) && BlkOf(kids[i]) in blocks {
      var j :| 0 <= j < |KidsOf(ts[0])| && KidsOf(ts[0])[j] == kids[i];
      ReadFromBlock(blocks, kids[i]);
    }
  }

  lemma {:induction false} OrderReadable(blocks: map<nat, Node>, ts: seq<Tree>)
    requires AllReadable(blocks, ts)
    ensures AllLive(ts) && AllReadable(blocks, LevelOrder(ts))
    decreases |BlocksAll(ts)|
  {
    if ts != [] {
      NextSmaller(ts);
      NextReadable(blocks, ts);
      OrderReadable(blocks, After(ts));
    }
  }

  lemma ReadableIsRead(blocks: map<nat, Node>, ts: seq<Tree>)
    requires AllReadable(blocks, ts)
    ensures AllRead(blocks, ts)
  {
    forall i | 0 <= i < |ts| ensures ReadsAs(blocks[BlkOf(ts[i])], ts[i]) {
      ReadFromBlock(blocks, ts[i]);
    }
  }

  /** What the walk that starts with the queue `ts` shows to its callbacks. */
  ghost function WalkEvents(blocks: map<nat, Node>, ts: seq<Tree>): seq<Event>
    requires AllReadable(blocks, ts)
  {
    OrderReadable(blocks, ts);
    Events(blocks, LevelOrder(ts))
  }

  lemma WalkEventsStep(blocks: map<nat, Node>, ts: seq<Tree>)
    requires AllReadable(blocks, ts) && ts != []
    ensures AllReadable(blocks, After(ts))
    ensures WalkEvents(blocks, ts) == NodeEvents(blocks[BlkOf(ts[0])]) + WalkEvents(blocks, After(ts))
  {
    NextReadable(blocks, ts);
    OrderReadable(blocks, ts);
    OrderReadable(blocks, After(ts));
    NextSmaller(ts);
    assert LevelOrder(ts)[1..] == LevelOrder(After(ts));
  }

  /** How far the walk has come: `h` slots have been visited, and the subtrees `ts` are queued. */
  ghost predicate Walking(fi: Fifo<nat>, slots: array<nat>, curr: nat, h: nat, ts: seq<Tree>, blocks: map<nat, Node>, t: Tree)
    requires !t.Nil?
    reads fi, fi.queue, slots
  {
    && IsQueue(fi, slots, curr, h, ts, blocks) && AllReadable(blocks, ts)
    && 0 !in BlocksAll(ts) && h + |BlocksAll(ts)| == |Blocks(t)| <= slots.Length
    && AllLive([t]) && AllLive(ts) && slots[..h] + BlksOf(LevelOrder(ts)) == BlksOf(LevelOrder([t]))
  }

  /** Hands over the records of a leaf one by one. */
  method EmitRecords<S>(n: Node, recordCallback: (Rec, S) -> Reply<S>, ctx: S) returns (outcome: Reply<S>)
    ensures outcome == Visit(n.recs, recordCallback, ctx)
  {
    outcome := Reply(Ok, false, ctx);
    for i := 0 to |n.recs|
      invariant !Ends(outcome)
      invariant Visit(n.recs, recordCallback, ctx) == Visit(n.recs[i..], recordCallback, outcome.ctx)
    {
      outcome := recordCallback(n.recs[i], outcome.ctx);
      assert n.recs[i..][0] == n.recs[i] && n.recs[i..][1..] == n.recs[i + 1..];
      if outcome.err != Ok {
        return Reply(outcome.err, true, outcome.ctx);
      }
      if outcome.stop {
        return;
      }
    }
    outcome := Reply(Ok, false, outcome.ctx);
  }

  /** Shows a node to the callbacks. */
  method ShowNode<S>(n: Node, nodeCallback: (Node, S) -> Reply<S>, recordCallback: (Rec, S) -> Reply<S>, ctx: S)
    returns (outcome: Reply<S>)
    ensures outcome == Visit(NodeEvents(n), OnEvent(nodeCallback, recordCallback), ctx)
  {
    ghost var onEvent, rest := OnEvent(nodeCallback, recordCallback), if n.isLeaf then AtRecords(n.recs) else [];
    outcome := nodeCallback(n, ctx);
    assert NodeEvents(n)[0] == AtNode(n) && NodeEvents(n)[1..] == rest;
    if outcome.err != Ok {
      return Reply(outcome.err, true, outcome.ctx);
    }
    if outcome.stop {
      return;
    }
    if n.isLeaf {
      VisitRecords(n.recs, nodeCallback, recordCallback, outcome.ctx);
      outcome := EmitRecords(n, recordCallback, outcome.ctx);
    } else {
      outcome := Reply(Ok, false, outcome.ctx);
    }
  }

  /** The pointers of a queued index node's children are zero exactly where there is no child. */
  lemma LiveKids(ts: seq<Tree>, j: nat)
    requires ts != [] && ts[0].Index? && 0 !in BlocksAll(ts) && j < |ts[0].kids|
    ensures BlkOf(ts[0].kids[j]) == 0 <==> ts[0].kids[j].Nil?
  {
    assert Blocks(ts[0]) <= BlocksAll(ts);
    BlockInKids(ts[0].kids, j);
  }

  /** The queue is never longer than the blocks below it. */
  lemma {:induction false} QueueBound(ts: seq<Tree>)
    requires AllLive(ts)
    ensures |ts| <= |BlocksAll(ts)|
  {
    if ts != [] {
      QueueBound(ts[1..]);
      assert ts[0].blk in Blocks(ts[0]);
      assert |Blocks(ts[0])| > 0;
    }
  }

  /** What is known of the first subtree of the queue when its slot is taken. */
  lemma HeadReady(blocks: map<nat, Node>, ts: seq<Tree>)
    requires AllReadable(blocks, ts) && ts != [] && 0 !in BlocksAll(ts)
    ensures var head := ts[0];
      && head.blk in blocks && ReadsAs(blocks[head.blk], head)
      && (head.Index? ==> forall j :: 0 <= j < |head.kids| ==>
            Readable(blocks, head.kids[j]) && (BlkOf(head.kids[j]) == 0 <==> head.kids[j].Nil?))
    ensures AllLive(After(ts)) && |After(ts)| <= |BlocksAll(After(ts))| == |BlocksAll(ts)| - 1 && 0 !in BlocksAll(After(ts))
  {
    var head := ts[0];
    ReadFromBlock(blocks, head);
    if head.Index? {
      forall j | 0 <= j < |head.kids| ensures BlkOf(head.kids[j]) == 0 <==> head.kids[j].Nil? {
        LiveKids(ts, j);
      }
    }
    NextSmaller(ts);
    QueueBound(After(ts));
  }

  /** The slots visited and the order of what is still to come. */
  lemma SlotsStep(slots: seq<nat>, h: nat, ts: seq<Tree>, all: seq<nat>)
    requires AllLive(ts) && ts != [] && h < |slots| && slots[h] == ts[0].blk
    requires slots[..h] + BlksOf(LevelOrder(ts)) == all
    ensures AllLive(After(ts)) && slots[..h + 1] + BlksOf(LevelOrder(After(ts))) == all
  {
    hide After, BlocksAll, BlksOf, LeafRecs;
    NextSmaller(ts);
    var rest := LevelOrder(After(ts));
    assert LevelOrder(ts) == [ts[0]] + rest;
    FirstOf(ts[0], rest);
    assert slots[..h + 1] == slots[..h] + [slots[h]];
    Regrouped(slots[..h], [slots[h]], BlksOf(rest));
  }

  /** Queues the children of the node whose slot was taken, if it has any. */
  method QueueNext(n: Node, fi: Fifo<nat>, slots: array<nat>, curr: nat, ghost h: nat, ghost ts: seq<Tree>,
                   ghost blocks: map<nat, Node>)
    returns (next: nat)
    requires AllReadable(blocks, ts) && ts != [] && 0 !in BlocksAll(ts) && n == blocks[BlkOf(ts[0])]
    requires IsQueue(fi, slots, curr, h + 1, ts[1..], blocks) && h + |BlocksAll(ts)| <= slots.Length
    modifies fi, fi.queue, slots
    ensures fi.queue == old(fi.queue) || fresh(fi.queue)
    ensures IsQueue(fi, slots, next, h + 1, After(ts), blocks)
    ensures h + 1 <= slots.Length && slots[..h + 1] == old(slots[..h + 1])
  {
    hide Readable, SlotsHold, Slots, ReadsAs, Present, BlocksAll, AllReadable;
    HeadReady(blocks, ts);
    HeadKind(n, ts[0]);
    QueueLength(fi, slots, curr, h + 1, ts[1..], blocks);
    next := curr;
    if n.isLeaf {
      NoMoreKids(ts);
    } else {
      ghost var before := slots[..];
      next := QueueChildren(n, fi, slots, curr, h + 1, ts[1..], blocks, ts[0]);
      PrefixKept(before, slots[..], h + 1, curr);
    }
  }

  lemma HeadKind(n: Node, t: Tree)
    requires ReadsAs(n, t)
    ensures n.isLeaf <==> t.Leaf?
    ensures !n.isLeaf ==> t.Index? && KidsOf(t) == t.kids
  {
  }

  lemma NoMoreKids(ts: seq<Tree>)
    requires ts != [] && ts[0].Leaf?
    ensures After(ts) == ts[1..]
  {
  }

  /** Takes the next slot from the queue and visits the node it names. */
  method VisitNext<S>(fi: Fifo<nat>, slots: array<nat>, curr: nat, blocks: map<nat, Node>,
                      nodeCallback: (Node, S) -> Reply<S>, recordCallback: (Rec, S) -> Reply<S>, ctx: S,
                      ghost h: nat, ghost ts: seq<Tree>, ghost t: Tree)
    returns (next: nat, outcome: Reply<S>)
    requires !t.Nil? && Walking(fi, slots, curr, h, ts, blocks, t) && ts != []
    modifies fi, fi.queue, slots
    ensures fi.queue == old(fi.queue) || fresh(fi.queue)
    ensures BlkOf(ts[0]) in blocks
    ensures outcome == Visit(NodeEvents(blocks[BlkOf(ts[0])]), OnEvent(nodeCallback, recordCallback), ctx)
    ensures !Ends(outcome) ==> Walking(fi, slots, next, h + 1, After(ts), blocks, t)
  {
    hide Readable, Slots, SlotsHold, BlocksAll, ReadsAs, LevelOrder, Visit, NodeEvents;
    HeadReady(blocks, ts);
    NextReadable(blocks, ts);
    var blkno := TakeSlot(fi, slots, curr, h, ts, blocks);
    var n := blocks[blkno];
    next := curr;
    outcome := ShowNode(n, nodeCallback, recordCallback, ctx);
    if Ends(outcome) {
      return;
    }
    SlotsStep(slots[..], h, ts, BlksOf(LevelOrder([t])));
    ghost var before := slots[..];
    next := QueueNext(n, fi, slots, curr, h, ts, blocks);
    assert slots[..][..h + 1] == before[..h + 1];
  }

  /** Walks the tree on disk level by level. Each node is shown to the first callback, each record of a leaf to
      the second, until one fails or asks to stop. `slots` is the work array, sized by the root's node count. */
  method IterateDisk<S>(blocks: map<nat, Node>, infos: map<nat, nat>, rblkno: nat, nodeCallback: (Node, S) -> Reply<S>,
                        recordCallback: (Rec, S) -> Reply<S>, ctx: S, ghost t: Tree)
    returns (slots: array<nat>, outcome: Reply<S>)
    requires !t.Nil? && t.blk == rblkno && 0 !in Blocks(t) && AllReadable(blocks, [t])
    requires rblkno in infos && infos[rblkno] >= |Blocks(t)|
    ensures slots.Length == infos[rblkno]
    ensures outcome == Visit(WalkEvents(blocks, [t]), OnEvent(nodeCallback, recordCallback), ctx)
    ensures !Ends(outcome) ==> AllLive([t]) && slots[..|Blocks(t)|] == BlksOf(LevelOrder([t]))
  {
    hide Visit, WalkEvents, NodeEvents, Readable, Walking, Slots, LevelOrder, BlksOf, BlocksAll, After;
    var nnodes := infos[rblkno];
    assert t.blk in Blocks(t);
    var fi := new Fifo<nat>();
    slots := new nat[nnodes](_ => 0);
    slots[0] := rblkno;
    fi.Enq(0);
    var curr := 1;
    ghost var h, ts, onEvent := 0, [t], OnEvent(nodeCallback, recordCallback);
    WalkStarts(fi, slots, blocks, t);
    outcome := Reply(Ok, false, ctx);
    while !fi.Empty()
      invariant fresh(fi) && fresh(fi.queue) && fresh(slots) && slots.Length == nnodes
      invariant Walking(fi, slots, curr, h, ts, blocks, t) && outcome == Reply(Ok, false, outcome.ctx)
      invariant fi.Valid() && (fi.Contents == [] <==> ts == []) && h <= nnodes && AllReadable(blocks, ts)
      invariant Visit(WalkEvents(blocks, [t]), onEvent, ctx) == Visit(WalkEvents(blocks, ts), onEvent, outcome.ctx)
      decreases nnodes - h
    {
      WalkEventsStep(blocks, ts);
      VisitConcat(NodeEvents(blocks[BlkOf(ts[0])]), WalkEvents(blocks, After(ts)), onEvent, outcome.ctx);
      curr, outcome := VisitNext(fi, slots, curr, blocks, nodeCallback, recordCallback, outcome.ctx, h, ts, t);
      if Ends(outcome) {
        return;
      }
      outcome := Reply(Ok, false, outcome.ctx);
      h, ts := h + 1, After(ts);
      WalkFacts(fi, slots, curr, h, ts, blocks, t);
    }
    WalkEnds(fi, slots, curr, h, ts, blocks, t);
    VisitNone(onEvent, outcome.ctx);
  }

  lemma WalkStarts(fi: Fifo<nat>, slots: array<nat>, blocks: map<nat, Node>, t: Tree)
    requires AllReadable(blocks, [t]) && 0 !in Blocks(t) && slots.Length >= |Blocks(t)| > 0 && slots[0] == t.blk
    requires fi.Valid() && fi.queue as object != slots && fi.Contents == [0]
    ensures Walking(fi, slots, 1, 0, [t], blocks, t) && AllLive([t])
  {
    RecsSingle(t);
    assert [0] == Slots(0, 1);
    assert slots[..0] + BlksOf(LevelOrder([t])) == BlksOf(LevelOrder([t]));
  }

  lemma WalkFacts(fi: Fifo<nat>, slots: array<nat>, curr: nat, h: nat, ts: seq<Tree>, blocks: map<nat, Node>, t: Tree)
    requires !t.Nil? && Walking(fi, slots, curr, h, ts, blocks, t)
    ensures fi.Valid() && (fi.Contents == [] <==> ts == []) && h <= slots.Length && AllReadable(blocks, ts)
  {
  }

  lemma WalkEnds(fi: Fifo<nat>, slots: array<nat>, curr: nat, h: nat, ts: seq<Tree>, blocks: map<nat, Node>, t: Tree)
    requires !t.Nil? && Walking(fi, slots, curr, h, ts, blocks, t) && fi.Contents == []
    ensures slots[..|Blocks(t)|] == BlksOf(LevelOrder([t])) && WalkEvents(blocks, ts) == [] && ts == []
  {
    assert ts == [];
    assert h == |Blocks(t)| && slots[..h] + [] == slots[..h];
  }

  /** What a walk shows, and to which callback. */
  lemma WalkShown<S(!new)>(blocks: map<nat, Node>, t: Tree, nodeCallback: (Node, S) -> Reply<S>,
                           recordCallback: (Rec, S) -> Reply<S>, ctx: S)
    requires AllReadable(blocks, [t])
    ensures AllLive([t]) && AllReadable(blocks, LevelOrder([t]))
    ensures var es, onEvent := WalkEvents(blocks, [t]), OnEvent(nodeCallback, recordCallback);
      var outcome := Visit(es, onEvent, ctx);
      && NodesOf(es) == NodesAt(blocks, LevelOrder([t])) && RecordsOf(es) == LeafRecs(LevelOrder([t])) && LeavesFirst(es)
      && CalledInTurn(es, onEvent, ctx, Contexts(es, onEvent, ctx), outcome)
      && (Passive(nodeCallback) ==>
            CalledInTurn(RecordsOf(es), recordCallback, ctx, Contexts(RecordsOf(es), recordCallback, ctx), outcome))
      && (Passive(recordCallback) ==>
            CalledInTurn(NodesOf(es), nodeCallback, ctx, Contexts(NodesOf(es), nodeCallback, ctx), outcome))
  {
    hide Visit, CalledInTurn, Contexts, Events, Readable, ReadsAs, LeavesFirst, NodesOf, RecordsOf, LevelOrder;
    OrderReadable(blocks, [t]);
    var es, onEvent := WalkEvents(blocks, [t]), OnEvent(nodeCallback, recordCallback);
    var ts := LevelOrder([t]);
    ReadableIsRead(blocks, ts);
    EventsInOrder(blocks, ts);
    VisitInTurn(es, onEvent, ctx);
    VisitInTurn(LeafRecs(ts), recordCallback, ctx);
    VisitInTurn(NodesAt(blocks, ts), nodeCallback, ctx);
    if Passive(nodeCallback) {
      OnlyRecords(blocks, ts, nodeCallback, recordCallback, ctx);
    }
    if Passive(recordCallback) {
      OnlyNodes(blocks, ts, nodeCallback, recordCallback, ctx);
    }
  }
}
