/** Runs of the B-tree: any number of insertions, removals and searches, from the newly created tree on. */
module BtreeRuns {
  import opened Common
  import opened SpaceManagers
  import opened BtreeNode
  import opened BtreeShape
  import opened BtreeOrder
  import opened BtreeStore
  import opened BtreeMap
  import opened BtreeRemoval
  import opened BtreeRoot

  /** The 16-bit sizes the program computes; they wrap for records near 64 KB. */
  function RecSize16(r: Rec): nat { RecSize(r) % 0x1_0000 }

  function IndexSize16(k: Key): nat { IndexSize(k) % 0x1_0000 }

  /** The size checks of `bt_insert`. */
  predicate TooBig(r: Rec) {
    IndexSize16(r.key) > MAX_INLINE - INFO_SIZE - PTR_SIZE || RecSize16(r) > MAX_INLINE
  }

  /** A record that no node can hold, or whose key no root can hold. */
  predicate TooLong(r: Rec) {
    RecSize(r) > MAX_INLINE || IndexSize(r.key) > MAX_INLINE - INFO_SIZE - PTR_SIZE
  }

  /** What the checks refuse, in numbers. */
  lemma ChecksInNumbers(r: Rec)
    ensures TooBig(r) <==>
      (12 + r.key.size) % 65536 > 1002 || (4 + r.key.size + if r.val.Data? then r.val.size else 8) % 65536 > 1014
  {
  }

  /** The fields of a record hold 16 bits each. */
  predicate FieldsFit(r: Rec) {
    r.key.size < 0x1_0000 && ValSize(r.val) < 0x1_0000
  }

  /** The checks refuse only records that are too long. They let one pass exactly if the sum of its sizes
      wraps to one that is allowed: it needs 64 KB or more. */
  lemma ChecksMissWrapped(r: Rec)
    requires FieldsFit(r)
    ensures TooBig(r) ==> TooLong(r)
    ensures TooLong(r) && !TooBig(r) <==> RecSize(r) >= 0x1_0000 && !TooBig(r)
    ensures (TooBig(r) <==> TooLong(r)) <==> RecSize(r) < 0x1_0000 || TooBig(r)
  {
  }

  /** Such a record exists: 64 KB long, it passes as one of 6 bytes. */
  lemma WrappedRecordPasses()
    ensures var r := Rec(Key(0, 8), Data(65530, 0));
      FieldsFit(r) && TooLong(r) && !TooBig(r) && RecSize(r) == 65542 && RecSize16(r) == 6
  {
  }

  /** A call that came back: what was asked and, for a search, the record handed out. */
  datatype Call =
    | Insertion(r: Rec)
    | Removal(k: int)
    | Search(k: int, found: Option<Rec>)

  /** The whole state of an open tree. */
  ghost predicate Sound(w: Whole) {
    WholeOk(w.disk, w.root, w.tree, w.level, w.leaked)
  }

  datatype Whole = Whole(disk: Snap, root: nat, tree: Tree, level: nat, leaked: set<nat>)
  {
    ghost function Model(): map<int, Rec> {
      AsMap(Recs(tree))
    }
  }

  ghost predicate InsertionStep(a: Whole, r: Rec, err: Err, b: Whole) {
    if TooBig(r) then err == E2BIG && b == a
    else Inserted(a.disk, a.tree, a.leaked, b.disk, b.tree, b.leaked, r, err) && err != Aborted
  }

  ghost predicate RemovalStep(a: Whole, k: int, err: Err, b: Whole) {
    && err == RemoveErr(a.tree, a.disk.free, k) && err != Aborted && b.leaked == a.leaked
    && (err == Ok ==> Recs(b.tree) == Del(Recs(a.tree), k) && b.disk.free == a.disk.free + Freed(a.tree, k))
    && (err == ENOENT ==> b == a)
  }

  ghost predicate SearchStep(a: Whole, k: int, found: Option<Rec>, err: Err, b: Whole) {
    && b == a && err == (if k in a.Model() then Ok else ENOENT)
    && found == if k in a.Model() then Some(a.Model()[k]) else None
  }

  /** One call that did not stop the program. */
  ghost predicate Step(a: Whole, call: Call, err: Err, b: Whole) {
    Sound(b) && match call
    case Insertion(r) => InsertionStep(a, r, err, b)
    case Removal(k) => RemovalStep(a, k, err, b)
    case Search(k, found) => SearchStep(a, k, found, err, b)
  }

  /** The program stops at an assertion: there is no block for a split above the leaf, or none free in the
      bitmap of a leaf that is to be freed. */
  ghost predicate Stops(a: Whole, call: Call) {
    match call
    case Insertion(r) => !TooBig(r) && InsertErr(a.tree, a.disk.free, r) == Aborted
    case Removal(k) => RemoveErr(a.tree, a.disk.free, k) == Aborted
    case Search(_, _) => false
  }

  // The finite map beside the run

  /** The map after a call that gave `err`. */
  function Applied(m: map<int, Rec>, call: Call, err: Err): map<int, Rec> {
    match call
    case Insertion(r) => if err == Ok then m[r.key.rank := r] else m
    case Removal(k) => if err == Ok then m - {k} else m
    case Search(_, _) => m
  }

  /** What a map would have answered; only a full disk or a record that is too long makes a difference. */
  ghost predicate Answered(m: map<int, Rec>, call: Call, err: Err, full: bool) {
    match call
    case Insertion(r) =>
      || (err == E2BIG && TooBig(r))
      || (err == ENOSPC && full)
      || err == if r.key.rank in m then EEXIST else Ok
    case Removal(k) => err == if k in m then Ok else ENOENT
    case Search(k, found) =>
      && err == (if k in m then Ok else ENOENT)
      && found == if k in m then Some(m[k]) else None
  }

  function Replayed(calls: seq<Call>, errs: seq<Err>, n: nat): map<int, Rec>
    requires n <= |calls| == |errs|
  {
    if n == 0 then map[] else Applied(Replayed(calls, errs, n - 1), calls[n - 1], errs[n - 1])
  }

  /** A record that comes to a leaf with no room for it, though its key is present: its new block is allocated
      before the key is found. */
  ghost predicate LosesBlock(a: Whole, call: Call) {
    && call.Insertion? && !TooBig(call.r) && call.r.key.rank in a.Model()
    && NoRoomFor(a.tree, call.r) && a.disk.free != {}
  }

  ghost function BlocksLost(ws: seq<Whole>, calls: seq<Call>, n: nat): nat
    requires n <= |calls| && |ws| == |calls| + 1
  {
    if n == 0 then 0
    else BlocksLost(ws, calls, n - 1) + if LosesBlock(ws[n - 1], calls[n - 1]) then 1 else 0
  }

  ghost predicate Run(ws: seq<Whole>, calls: seq<Call>, errs: seq<Err>) {
    && |calls| == |errs| && |ws| == |calls| + 1
    && Sound(ws[0]) && Recs(ws[0].tree) == [] && ws[0].leaked == {}
    && forall i :: 0 <= i < |calls| ==> Step(ws[i], calls[i], errs[i], ws[i + 1])
  }

  lemma NewRun(w: Whole)
    requires Sound(w) && w.tree == Leaf(ROOT_BLKNO, []) && w.leaked == {}
    ensures Run([w], [], []) && Recs(w.tree) == []
  {
  }

  lemma StepAnswers(a: Whole, call: Call, err: Err, b: Whole)
    requires Sound(a) && Step(a, call, err, b)
    ensures Answered(a.Model(), call, err, a.disk.free == {})
    ensures b.Model() == Applied(a.Model(), call, err)
  {
    hide Inserted, AsMap, TooBig, Sound, RemoveErr, Has;
    match call
    case Insertion(r) =>
      if !TooBig(r) {
        InsertionAnswers(a, r, err, b);
      }
    case Removal(k) =>
      RemovalAnswers(a, k, err, b);
    case Search(_, _) =>
  }

  lemma InsertionAnswers(a: Whole, r: Rec, err: Err, b: Whole)
    requires Sound(a) && Inserted(a.disk, a.tree, a.leaked, b.disk, b.tree, b.leaked, r, err) && err != Aborted
    ensures err == Ok || err == EEXIST || (err == ENOSPC && a.disk.free == {})
    ensures err != ENOSPC ==> err == if r.key.rank in a.Model() then EEXIST else Ok
    ensures b.Model() == if err == Ok then a.Model()[r.key.rank := r] else a.Model()
  {
    hide Inserted, AsMap, Stored, Accounted;
    MapInserted(a.tree, a.level, b.tree, r, err, a.disk, a.leaked, b.disk, b.leaked);
    InsertionErrors(a.tree, a.disk, a.leaked, b.disk, b.tree, b.leaked, r, err);
  }

  lemma RemovalAnswers(a: Whole, k: int, err: Err, b: Whole)
    requires Sound(a) && RemovalStep(a, k, err, b)
    ensures err == if k in a.Model() then Ok else ENOENT
    ensures b.Model() == if err == Ok then a.Model() - {k} else a.Model()
  {
    hide AsMap, Stored, Accounted, Has;
    MapRemoved(a.tree, a.level, k);
  }

  lemma InsertionErrors(t: Tree, s0: Snap, leaked: set<nat>, s: Snap, t': Tree, leaked': set<nat>, r: Rec, err: Err)
    requires Inserted(s0, t, leaked, s, t', leaked', r, err) && err != Aborted
    ensures err == Ok || err == EEXIST || err == ENOSPC
    ensures err == ENOSPC ==> s0.free == {}
  {
  }

  lemma InsertionLoses(t: Tree, s0: Snap, leaked: set<nat>, s: Snap, t': Tree, leaked': set<nat>, r: Rec, err: Err)
    requires Inserted(s0, t, leaked, s, t', leaked', r, err) && err != Aborted && s0.free !! leaked
    ensures |leaked'| == |leaked| + if err == EEXIST && Need(t, r) > 0 then 1 else 0
  {
    hide InsertErr, Ins, Need;
    if err == EEXIST {
      assert |leaked + (s0.free - s.free)| == |leaked| + |s0.free - s.free|;
    } else {
      assert err == Ok || err == ENOSPC by {
        InsertionErrors(t, s0, leaked, s, t', leaked', r, err);
      }
    }
  }

  lemma FreeNotLost(w: Whole)
    requires Sound(w)
    ensures w.disk.free !! w.leaked
  {
    hide Shape, Stored;
  }

  lemma StepLoses(a: Whole, call: Call, err: Err, b: Whole)
    requires Sound(a) && Step(a, call, err, b)
    ensures |b.leaked| == |a.leaked| + if LosesBlock(a, call) then 1 else 0
  {
    hide Sound, Inserted, NoRoomFor, AsMap, TooBig;
    FreeNotLost(a);
    if call.Insertion? && !TooBig(call.r) {
      InsertionLoses(a.tree, a.disk, a.leaked, b.disk, b.tree, b.leaked, call.r, err);
      LossGuarded(a, call.r, err, b);
    }
  }

  /** The guard that decides whether an insertion loses a block. */
  lemma LossGuarded(a: Whole, r: Rec, err: Err, b: Whole)
    requires Sound(a) && Inserted(a.disk, a.tree, a.leaked, b.disk, b.tree, b.leaked, r, err)
    ensures err == EEXIST && Need(a.tree, r) > 0 <==> r.key.rank in a.Model() && NoRoomFor(a.tree, r) && a.disk.free != {}
  {
    hide Stored, Accounted, AsMap, Has, Placed;
    RecsOk(a.tree, a.level, None, None);
    Lookup(Recs(a.tree), r.key.rank);
    NeedsFromDemand(a.tree, r);
    if Has(Recs(a.tree), r.key.rank) {
      RoomDecides(a.tree, r, true, a.level, None, None);
    }
  }

  /** Every run refines a finite map, and loses a block exactly at each duplicate that comes to a full leaf. */
  lemma {:induction false} RunRefines(ws: seq<Whole>, calls: seq<Call>, errs: seq<Err>, n: nat)
    requires Run(ws, calls, errs) && n <= |calls|
    ensures Sound(ws[n]) && ws[n].Model() == Replayed(calls, errs, n)
    ensures |ws[n].leaked| == BlocksLost(ws, calls, n)
    ensures forall i :: 0 <= i < n ==> Answered(Replayed(calls, errs, i), calls[i], errs[i], ws[i].disk.free == {})
  {
    hide Sound, Answered, LosesBlock;
    if n == 0 {
      assert ws[0].Model() == map[];
    } else {
      RunRefines(ws, calls, errs, n - 1);
      assert Step(ws[n - 1], calls[n - 1], errs[n - 1], ws[n - 1 + 1]);
      StepSound(ws[n - 1], calls[n - 1], errs[n - 1], ws[n]);
      hide Step;
      StepAnswers(ws[n - 1], calls[n - 1], errs[n - 1], ws[n]);
      StepLoses(ws[n - 1], calls[n - 1], errs[n - 1], ws[n]);
    }
  }

  lemma StepSound(a: Whole, call: Call, err: Err, b: Whole)
    requires Step(a, call, err, b)
    ensures Sound(b)
  {
  }

  /** After any run the free blocks, the counted nodes, the lost blocks and the space manager's own add up to
      the file; so without such a duplicate every used block is a node of the tree or the space manager's. */
  lemma RunConservesBlocks(ws: seq<Whole>, calls: seq<Call>, errs: seq<Err>, n: nat)
    requires Run(ws, calls, errs) && n <= |calls|
    ensures var w := ws[n];
      && w.root in w.disk.infos
      && |w.disk.free| + w.disk.infos[w.root] + BlocksLost(ws, calls, n) + NBITMAPS + 1 == NBLOCKS
      && w.disk.infos[w.root] == |Blocks(w.tree)|
    ensures BlocksLost(ws, calls, n) == 0 ==> forall b: nat :: b < NBLOCKS ==>
      (b !in ws[n].disk.free <==> b in SystemBlocks() || b in Blocks(ws[n].tree))
  {
    RunRefines(ws, calls, errs, n);
    var w := ws[n];
    assert Sound(w);
    BlocksConserved(w.disk, w.root, w.tree, w.level, w.leaked);
  }
}
