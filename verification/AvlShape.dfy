/** The shape of an AVL tree: which node hangs where. The trees here are ghost views of the linked
    nodes of avl_trees/avl_tree.c, so their heights are computed, while the nodes store balances. */
module AvlShape {

  class AvlNode<T> {
    const data: T
    var balance: int
    var left: AvlNode?<T>
    var right: AvlNode?<T>

    constructor (data: T)
      ensures this.data == data && balance == 0 && left == null && right == null
    {
      this.data := data;
      balance, left, right := 0, null, null;
    }
  }

  datatype Tree<T> = Nil | Fork(node: AvlNode<T>, left: Tree<T>, right: Tree<T>)

  ghost function Root<T>(t: Tree<T>): AvlNode?<T> {
    if t.Nil? then null else t.node
  }

  ghost function Nodes<T>(t: Tree<T>): set<AvlNode<T>> {
    if t.Nil? then {} else {t.node} + Nodes(t.left) + Nodes(t.right)
  }

  ghost function Items<T>(t: Tree<T>): set<T> {
    if t.Nil? then {} else {t.node.data} + Items(t.left) + Items(t.right)
  }

  ghost function InOrder<T>(t: Tree<T>): seq<T> {
    if t.Nil? then [] else InOrder(t.left) + [t.node.data] + InOrder(t.right)
  }

  function Max(a: int, b: int): int { if a < b then b else a }

  ghost function Height<T>(t: Tree<T>): nat {
    if t.Nil? then 0 else 1 + Max(Height(t.left), Height(t.right))
  }

  /** Right height minus left height. */
  ghost function Balance<T>(t: Tree<T>): int
    requires t.Fork?
  {
    Height(t.right) - Height(t.left)
  }

  ghost predicate Balanced<T>(t: Tree<T>) {
    t.Fork? ==> -1 <= Balance(t) <= 1 && Balanced(t.left) && Balanced(t.right)
  }

  /** Search order: everything on the left compares below the node, everything on the right above. */
  ghost predicate Ordered<T>(t: Tree<T>, key: T -> int) {
    t.Fork? ==>
      && (forall x <- Items(t.left) :: key(x) < key(t.node.data))
      && (forall x <- Items(t.right) :: key(t.node.data) < key(x))
      && Ordered(t.left, key) && Ordered(t.right, key)
  }

  /** No node occurs twice. */
  ghost predicate Distinct<T>(t: Tree<T>) {
    t.Fork? ==>
      && t.node !in Nodes(t.left) && t.node !in Nodes(t.right)
      && Nodes(t.left) !! Nodes(t.right)
      && Distinct(t.left) && Distinct(t.right)
  }

  /** The linked nodes have exactly this shape, and every stored balance is the true one. */
  ghost predicate Linked<T>(t: Tree<T>)
    reads Nodes(t)
  {
    t.Fork? ==>
      && t.node.left == Root(t.left) && t.node.right == Root(t.right)
      && t.node.balance == Balance(t)
      && Linked(t.left) && Linked(t.right)
  }

  lemma LinkedRoots<T>(t: Tree<T>)
    requires Linked(t) && t.Fork?
    ensures t.node.left == Root(t.left) && t.node.right == Root(t.right)
  {
  }

  ghost function Fib(n: nat): nat {
    if n < 2 then n else Fib(n - 1) + Fib(n - 2)
  }

  /** A balanced tree of height h has at least Fib(h + 2) - 1 nodes. */
  lemma {:induction false} BalancedTreesAreFull<T>(t: Tree<T>)
    requires Balanced(t) && Distinct(t)
    ensures |Nodes(t)| + 1 >= Fib(Height(t) + 2)
  {
    hide Fib, Nodes;
    if t.Fork? {
      BalancedTreesAreFull(t.left);
      BalancedTreesAreFull(t.right);
      NodesAddUp(t);
      FibOfForked(Height(t.left), Height(t.right));
    } else {
      FibOfTwo();
    }
  }

  lemma FibOfTwo()
    ensures Fib(2) == 1
  {
  }

  lemma NodesAddUp<T>(t: Tree<T>)
    requires t.Fork? && Distinct(t)
    ensures |Nodes(t)| == 1 + |Nodes(t.left)| + |Nodes(t.right)|
  {
    assert Nodes(t) - {t.node} == Nodes(t.left) + Nodes(t.right);
  }

  lemma FibOfForked(hl: nat, hr: nat)
    requires -1 <= hr - hl <= 1
    ensures Fib(hl + 2) + Fib(hr + 2) >= Fib(1 + Max(hl, hr) + 2)
  {
    FibIncreases(hl + 2, hr + 1);
    FibIncreases(hr + 2, hl + 1);
  }

  lemma {:induction false} FibIncreases(m: nat, n: nat)
    ensures n <= m ==> Fib(n) <= Fib(m)
    decreases m
  {
    if n < m && m >= 2 {
      FibIncreases(m - 1, n);
    }
  }

  ghost predicate Ascending<T>(s: seq<T>, key: T -> int) {
    forall i, j :: 0 <= i < j < |s| ==> key(s[i]) < key(s[j])
  }

  /** A path of c nodes needs a tree of at least Fib(c + 2) - 1 nodes. */
  lemma SearchDepth<T>(t: Tree<T>, c: nat)
    requires Balanced(t) && Distinct(t) && c <= Height(t)
    ensures |Nodes(t)| + 1 >= Fib(c + 2)
  {
    hide Balanced, Distinct, Height, Nodes, Fib;
    BalancedTreesAreFull(t);
    FibIncreases(Height(t) + 2, c + 2);
  }

  lemma {:induction false} InOrderListsItems<T(!new)>(t: Tree<T>, key: T -> int)
    requires Ordered(t, key)
    ensures forall x :: x in InOrder(t) <==> x in Items(t)
    ensures Ascending(InOrder(t), key)
  {
    if t.Fork? {
      InOrderListsItems(t.left, key);
      InOrderListsItems(t.right, key);
      forall y | y in InOrder(t.left) ensures key(y) < key(t.node.data) {
        assert y in Items(t.left);
      }
      forall y | y in InOrder(t.right) ensures key(t.node.data) < key(y) {
        assert y in Items(t.right);
      }
      SortedJoin(InOrder(t.left), t.node.data, InOrder(t.right), key);
    }
  }

  lemma SortedJoin<T>(l: seq<T>, x: T, r: seq<T>, key: T -> int)
    requires Ascending(l, key) && Ascending(r, key)
    requires forall y <- l :: key(y) < key(x)
    requires forall y <- r :: key(x) < key(y)
    ensures Ascending(l + [x] + r, key)
  {
    var s := l + [x] + r;
    forall i, j | 0 <= i < j < |s| ensures key(s[i]) < key(s[j]) {
      assert i < |l| ==> s[i] in l;
      assert j > |l| ==> s[j] in r;
      assert i > |l| ==> s[i] == r[i - |l| - 1];
    }
  }

  /** Equal keys are the same item. */
  lemma {:induction false} KeysAreUnique<T>(t: Tree<T>, key: T -> int, x: T, y: T)
    requires Ordered(t, key) && x in Items(t) && y in Items(t) && key(x) == key(y)
    ensures x == y
  {
    if x in Items(t.left) && y in Items(t.left) {
      KeysAreUnique(t.left, key, x, y);
    } else if x in Items(t.right) && y in Items(t.right) {
      KeysAreUnique(t.right, key, x, y);
    }
  }

  // The balance arithmetic of a single rotation, as the program computes it. `b` is the balance of the
  // node rotated down and `c` that of its child rotated up; a left rotation mirrors the signs.

  predicate Unbalanced(b: int) { b < -1 || 1 < b }

  /** New balance of the node that a right rotation moves down. */
  function LoweredBalance(b: int, c: int): int {
    b + 1 + (if c < 0 then 1 else 0) + (if c < -1 then 1 else 0)
  }

  /** New balance of the child that a right rotation moves up. */
  function RaisedBalance(b: int, c: int): int {
    if c < 0 then (if Unbalanced(b) then 0 else 1) else c + 1
  }

  /** For every pair of balances a rotation can meet, the case arithmetic gives the true new balances if
      and only if the child is at most two levels left heavy. `a`, `m` and `r` are the heights of the
      subtrees hanging, from left to right, below the two nodes. */
  lemma RotationArithmetic(a: nat, m: nat, r: nat)
    requires var b := r - (1 + Max(a, m)); b == -1 || b == -2
    ensures var b, c := r - (1 + Max(a, m)), m - a;
            (LoweredBalance(b, c) == r - m && RaisedBalance(b, c) == 1 + Max(m, r) - a) <==> c >= -2
  {
  }

  ghost predicate Sound<T>(t: Tree<T>, key: T -> int) {
    Balanced(t) && Ordered(t, key) && Distinct(t)
  }

  /** The tree after a right rotation at its root. */
  ghost function RotatedRight<T>(t: Tree<T>): Tree<T>
    requires t.Fork? && t.left.Fork?
  {
    Fork(t.left.node, t.left.left, Fork(t.node, t.left.right, t.right))
  }

  ghost function RotatedLeft<T>(t: Tree<T>): Tree<T>
    requires t.Fork? && t.right.Fork?
  {
    Fork(t.right.node, Fork(t.node, t.left, t.right.left), t.right.right)
  }

  /** The balances that a rotation computes are those of the rotated tree. */
  lemma RightRotationBalances<T>(t: Tree<T>)
    requires t.Fork? && t.left.Fork? && -2 <= Balance(t) <= -1 && -2 <= Balance(t.left)
    ensures LoweredBalance(Balance(t), Balance(t.left)) == Balance(Fork(t.node, t.left.right, t.right))
    ensures RaisedBalance(Balance(t), Balance(t.left)) == Balance(RotatedRight(t))
  {
    RotationArithmetic(Height(t.left.left), Height(t.left.right), Height(t.right));
  }

  lemma LeftRotationBalances<T>(t: Tree<T>)
    requires t.Fork? && t.right.Fork? && 1 <= Balance(t) <= 2 && Balance(t.right) <= 2
    ensures -LoweredBalance(-Balance(t), -Balance(t.right)) == Balance(Fork(t.node, t.left, t.right.left))
    ensures -RaisedBalance(-Balance(t), -Balance(t.right)) == Balance(RotatedLeft(t))
  {
    RotationArithmetic(Height(t.right.right), Height(t.right.left), Height(t.left));
  }

  lemma RightRotationLinked<T>(t: Tree<T>)
    requires t.Fork? && t.left.Fork? && Linked(t.left.left) && Linked(t.left.right) && Linked(t.right)
    requires t.node.left == Root(t.left.right) && t.node.right == Root(t.right)
    requires t.left.node.left == Root(t.left.left) && t.left.node.right == t.node
    requires t.node.balance == Balance(Fork(t.node, t.left.right, t.right)) && t.left.node.balance == Balance(RotatedRight(t))
    ensures Linked(RotatedRight(t))
  {
  }

  lemma LeftRotationLinked<T>(t: Tree<T>)
    requires t.Fork? && t.right.Fork? && Linked(t.left) && Linked(t.right.left) && Linked(t.right.right)
    requires t.node.left == Root(t.left) && t.node.right == Root(t.right.left)
    requires t.right.node.left == t.node && t.right.node.right == Root(t.right.right)
    requires t.node.balance == Balance(Fork(t.node, t.left, t.right.left)) && t.right.node.balance == Balance(RotatedLeft(t))
    ensures Linked(RotatedLeft(t))
  {
  }

  /** Two trees with the same nodes and items. */
  ghost predicate SameItems<T>(t: Tree<T>, t': Tree<T>) {
    Nodes(t) == Nodes(t') && Items(t) == Items(t')
  }

  lemma RotatedRightKeepsItems<T>(t: Tree<T>, key: T -> int)
    requires t.Fork? && t.left.Fork? && Ordered(t, key) && Distinct(t)
    ensures SameItems(t, RotatedRight(t)) && Ordered(RotatedRight(t), key) && Distinct(RotatedRight(t))
  {
    var l, r := t.left, t.right;
    assert l.node.data in Items(t.left);
    assert forall x <- Items(l.right) :: x in Items(t.left);
    assert forall x <- Items(r) :: key(l.node.data) < key(t.node.data) < key(x);
  }

  lemma RotatedLeftKeepsItems<T>(t: Tree<T>, key: T -> int)
    requires t.Fork? && t.right.Fork? && Ordered(t, key) && Distinct(t)
    ensures SameItems(t, RotatedLeft(t)) && Ordered(RotatedLeft(t), key) && Distinct(RotatedLeft(t))
  {
    var l, r := t.left, t.right;
    assert r.node.data in Items(t.right);
    assert forall x <- Items(r.left) :: x in Items(t.right);
    assert forall x <- Items(l) :: key(x) < key(t.node.data) < key(r.node.data);
  }

  /** The tree `Rebalance` makes of a tree that is two levels too heavy on the right. */
  ghost function RebalancedRightHeavy<T>(t: Tree<T>): Tree<T>
    requires t.Fork? && Balance(t) == 2
  {
    if Balance(t.right) < 0 then RotatedLeft(Fork(t.node, t.left, RotatedRight(t.right))) else RotatedLeft(t)
  }

  ghost function RebalancedLeftHeavy<T>(t: Tree<T>): Tree<T>
    requires t.Fork? && Balance(t) == -2
  {
    if Balance(t.left) > 0 then RotatedRight(Fork(t.node, RotatedLeft(t.left), t.right)) else RotatedRight(t)
  }

  /** What the two rotations of a tree that is too heavy on the right rest on. */
  lemma RightHeavySteps<T>(t: Tree<T>, key: T -> int)
    requires t.Fork? && Balance(t) == 2 && Balanced(t.right) && Ordered(t, key) && Distinct(t)
    ensures t.right.Fork? && -1 <= Balance(t.right) <= 1 && key(t.right.node.data) > key(t.node.data)
    ensures Balance(t.right) < 0 ==>
      && t.right.left.Fork? && -1 <= Balance(t.right.left) && Ordered(t.right, key) && Distinct(t.right)
      && var t1 := Fork(t.node, t.left, RotatedRight(t.right));
         Nodes(t1) == Nodes(t) && Distinct(t1) && Balance(t1) == 2 && Balance(t1.right) <= 2
  {
    assert t.right.node.data in Items(t.right);
    if Balance(t.right) < 0 {
      RotatedRightKeepsItems(t.right, key);
    }
  }

  lemma LeftHeavySteps<T>(t: Tree<T>, key: T -> int)
    requires t.Fork? && Balance(t) == -2 && Balanced(t.left) && Ordered(t, key) && Distinct(t)
    ensures t.left.Fork? && -1 <= Balance(t.left) <= 1 && key(t.left.node.data) < key(t.node.data)
    ensures Balance(t.left) > 0 ==>
      && t.left.right.Fork? && Balance(t.left.right) <= 1 && Ordered(t.left, key) && Distinct(t.left)
      && var t1 := Fork(t.node, RotatedLeft(t.left), t.right);
         Nodes(t1) == Nodes(t) && Distinct(t1) && Balance(t1) == -2 && -2 <= Balance(t1.left)
  {
    assert t.left.node.data in Items(t.left);
    if Balance(t.left) > 0 {
      RotatedLeftKeepsItems(t.left, key);
    }
  }

  lemma RebalancedRightHeavyHeight<T>(t: Tree<T>)
    requires t.Fork? && Balance(t) == 2 && Balanced(t.left) && Balanced(t.right)
    ensures Balanced(RebalancedRightHeavy(t))
    ensures Height(RebalancedRightHeavy(t)) == if Balance(t.right) == 0 then Height(t) else Height(t) - 1
  {
    if Balance(t.right) < 0 {
      var low := Fork(t.node, t.left, t.right.left.left);
      var high := Fork(t.right.node, t.right.left.right, t.right.right);
      assert RebalancedRightHeavy(t) == Fork(t.right.left.node, low, high);
      assert Balanced(low) && Balanced(high);
    } else {
      assert Balanced(Fork(t.node, t.left, t.right.left));
    }
  }

  lemma RebalancedLeftHeavyHeight<T>(t: Tree<T>)
    requires t.Fork? && Balance(t) == -2 && Balanced(t.left) && Balanced(t.right)
    ensures Balanced(RebalancedLeftHeavy(t))
    ensures Height(RebalancedLeftHeavy(t)) == if Balance(t.left) == 0 then Height(t) else Height(t) - 1
  {
    if Balance(t.left) > 0 {
      var low := Fork(t.left.node, t.left.left, t.left.right.left);
      var high := Fork(t.node, t.left.right.right, t.right);
      assert RebalancedLeftHeavy(t) == Fork(t.left.right.node, low, high);
      assert Balanced(low) && Balanced(high);
    } else {
      assert Balanced(Fork(t.node, t.left.right, t.right));
    }
  }

  lemma RebalancedRightHeavyKeepsItems<T>(t: Tree<T>, key: T -> int)
    requires t.Fork? && Ordered(t, key) && Distinct(t) && Balance(t) == 2
    ensures var t' := RebalancedRightHeavy(t); SameItems(t, t') && Ordered(t', key) && Distinct(t')
  {
    if Balance(t.right) < 0 {
      RotatedRightKeepsItems(t.right, key);
      RotatedLeftKeepsItems(Fork(t.node, t.left, RotatedRight(t.right)), key);
    } else {
      RotatedLeftKeepsItems(t, key);
    }
  }

  lemma RebalancedLeftHeavyKeepsItems<T>(t: Tree<T>, key: T -> int)
    requires t.Fork? && Ordered(t, key) && Distinct(t) && Balance(t) == -2
    ensures var t' := RebalancedLeftHeavy(t); SameItems(t, t') && Ordered(t', key) && Distinct(t')
  {
    if Balance(t.left) > 0 {
      RotatedLeftKeepsItems(t.left, key);
      RotatedRightKeepsItems(Fork(t.node, RotatedLeft(t.left), t.right), key);
    } else {
      RotatedRightKeepsItems(t, key);
    }
  }

  /** `t2` is what restoring the balance makes of `t`: the same items, and one level less of height unless
      the heavy side was level. */
  ghost predicate RebalanceOf<T>(t: Tree<T>, t2: Tree<T>, key: T -> int)
    requires t.Fork?
  {
    && t2.Fork? && Sound(t2, key) && SameItems(t, t2)
    && (!Unbalanced(Balance(t)) ==> t2 == t)
    && (Unbalanced(Balance(t)) ==> Height(t2) == if Balance(HeavySide(t)) == 0 then Height(t) else Height(t) - 1)
  }

  ghost function HeavySide<T>(t: Tree<T>): Tree<T>
    requires t.Fork?
  {
    if Balance(t) > 0 then t.right else t.left
  }

  ghost predicate Contains<T>(t: Tree<T>, key: T -> int, k: int) {
    exists x <- Items(t) :: key(x) == k
  }

  ghost function Side<T>(t: Tree<T>, onRight: bool): Tree<T>
    requires t.Fork?
  {
    if onRight then t.right else t.left
  }

  ghost function WithSide<T>(t: Tree<T>, onRight: bool, s: Tree<T>): Tree<T>
    requires t.Fork?
  {
    if onRight then Fork(t.node, t.left, s) else Fork(t.node, s, t.right)
  }

  lemma NilIsEmpty<T>(key: T -> int, k: int)
    ensures !Contains(Nil, key, k)
  {
  }

  lemma RootIsIn<T>(t: Tree<T>, key: T -> int)
    requires t.Fork?
    ensures Contains(t, key, key(t.node.data))
  {
    assert t.node.data in Items(t);
  }

  /** A key that differs from the root's is in the tree if and only if it is on the side search takes. */
  /** What a search needs to know of a node. */
  lemma SearchParts<T>(t: Tree<T>, key: T -> int, k: int)
    requires Linked(t) && Ordered(t, key) && t.Fork?
    ensures t.node.left == Root(t.left) && t.node.right == Root(t.right) && Linked(t.left) && Linked(t.right)
    ensures Ordered(t.left, key) && Ordered(t.right, key)
    ensures Height(t.left) < Height(t) && Height(t.right) < Height(t) && Items(t.left) <= Items(t) && Items(t.right) <= Items(t)
    ensures t.node.data in Items(t) && (key(t.node.data) == k ==> Contains(t, key, k))
    ensures k > key(t.node.data) ==> Contains(t, key, k) == Contains(t.right, key, k)
    ensures k < key(t.node.data) ==> Contains(t, key, k) == Contains(t.left, key, k)
  {
    if k != key(t.node.data) {
      ContainsOnSide(t, k > key(t.node.data), key, k);
    }
  }

  lemma ContainsOnSide<T>(t: Tree<T>, onRight: bool, key: T -> int, k: int)
    requires Ordered(t, key) && t.Fork? && k != key(t.node.data) && onRight == (k > key(t.node.data))
    ensures Contains(t, key, k) <==> Contains(Side(t, onRight), key, k)
  {
    if Contains(Side(t, onRight), key, k) {
      var x :| x in Items(Side(t, onRight)) && key(x) == k;
      assert x in Items(t);
    }
  }

  /** `s` may stand on that side of the root of `t`: in search order, and with no node used twice. */
  ghost predicate Fits<T>(t: Tree<T>, onRight: bool, s: Tree<T>, key: T -> int)
    requires t.Fork?
  {
    && t.node !in Nodes(s) && Nodes(s) !! Nodes(Side(t, !onRight))
    && forall x <- Items(s) :: if onRight then key(t.node.data) < key(x) else key(x) < key(t.node.data)
  }

  lemma WithSideIsSound<T>(t: Tree<T>, onRight: bool, s: Tree<T>, key: T -> int)
    requires Sound(t, key) && t.Fork? && Sound(s, key) && Fits(t, onRight, s, key)
    ensures var t1 := WithSide(t, onRight, s); Ordered(t1, key) && Distinct(t1) && Balanced(t1.left) && Balanced(t1.right)
  {
  }

  /** How far the height of a tree moves when the height of one of its sides moves by `change` and the
      balance is then restored. `lean` is how far the tree leaned to that side before. */
  ghost function HeightMove(change: int, lean: int, newSideLevel: bool, otherSideLevel: bool): int {
    if change == 1 then (if lean < 0 then 0 else if lean == 0 then 1 else if newSideLevel then 1 else 0)
    else if change == -1 then (if lean > 0 then -1 else if lean == 0 then 0 else if otherSideLevel then 0 else -1)
    else 0
  }

  lemma HeightOfFork<T>(t: Tree<T>)
    requires t.Fork?
    ensures Height(t) == 1 + Max(Height(t.left), Height(t.right))
  {
  }

  lemma HeavyIsFork<T>(t: Tree<T>)
    requires t.Fork?
    ensures Unbalanced(Balance(t)) ==> HeavySide(t).Fork?
  {
  }

  /** A side of height `h` beside one of height `o` becomes one of height `hs`. */
  lemma HeightMoves(h: nat, o: nat, hs: nat, newSideLevel: bool, otherSideLevel: bool)
    requires -1 <= h - o <= 1 && -1 <= hs - h <= 1
    ensures !Unbalanced(hs - o) ==> 1 + Max(hs, o) - (1 + Max(h, o)) == HeightMove(hs - h, h - o, newSideLevel, otherSideLevel)
    ensures hs - o > 1 ==> 1 + Max(hs, o) - (if newSideLevel then 0 else 1) - (1 + Max(h, o)) == HeightMove(hs - h, h - o, newSideLevel, otherSideLevel)
    ensures hs - o < -1 ==> 1 + Max(hs, o) - (if otherSideLevel then 0 else 1) - (1 + Max(h, o)) == HeightMove(hs - h, h - o, newSideLevel, otherSideLevel)
  {
  }

  lemma HeightAfterReplacingSide<T>(t: Tree<T>, onRight: bool, s: Tree<T>, t2: Tree<T>, key: T -> int)
    requires t.Fork? && -1 <= Balance(t) <= 1
    requires -1 <= Height(s) - Height(Side(t, onRight)) <= 1
    requires RebalanceOf(WithSide(t, onRight, s), t2, key)
    ensures Height(t2) - Height(t) ==
      HeightMove(Height(s) - Height(Side(t, onRight)), if onRight then Balance(t) else -Balance(t),
                 s.Fork? && Balance(s) == 0, Side(t, !onRight).Fork? && Balance(Side(t, !onRight)) == 0)
  {
    hide Sound, SameItems, HeightMove, Height;
    var u := WithSide(t, onRight, s);
    HeightOfFork(t);
    HeightOfFork(u);
    HeightMoves(Height(Side(t, onRight)), Height(Side(t, !onRight)), Height(s), s.Fork? && Balance(s) == 0,
                Side(t, !onRight).Fork? && Balance(Side(t, !onRight)) == 0);
    HeavyIsFork(u);
  }

  /** `t2` is a sound tree holding the items of `t` and a new node `n`. It is at most one level higher, and
      if it is higher it is a single node or leans to one side. */
  ghost predicate InsertionOf<T>(t: Tree<T>, n: AvlNode<T>, t2: Tree<T>, key: T -> int) {
    && Sound(t2, key) && t2.Fork?
    && Nodes(t2) == Nodes(t) + {n} && Items(t2) == Items(t) + {n.data}
    && Height(t) <= Height(t2) <= Height(t) + 1
    && (Height(t2) > Height(t) ==> Height(t2) == 1 || Balance(t2) != 0)
  }

  lemma InsertionFits<T>(t: Tree<T>, onRight: bool, n: AvlNode<T>, s: Tree<T>, key: T -> int)
    requires Sound(t, key) && t.Fork? && n !in Nodes(t) && key(n.data) != key(t.node.data)
    requires onRight == (key(n.data) > key(t.node.data))
    requires InsertionOf(Side(t, onRight), n, s, key)
    ensures Fits(t, onRight, s, key)
    ensures Nodes(WithSide(t, onRight, s)) == Nodes(t) + {n}
    ensures Items(WithSide(t, onRight, s)) == Items(t) + {n.data}
    ensures -2 <= Balance(WithSide(t, onRight, s)) <= 2
  {
  }

  /** Insertion into one side followed by restoring the balance is an insertion. */
  lemma InsertionSettles<T>(t: Tree<T>, onRight: bool, n: AvlNode<T>, s: Tree<T>, t2: Tree<T>, key: T -> int)
    requires Sound(t, key) && t.Fork? && n !in Nodes(t) && key(n.data) != key(t.node.data)
    requires onRight == (key(n.data) > key(t.node.data))
    requires InsertionOf(Side(t, onRight), n, s, key)
    requires RebalanceOf(WithSide(t, onRight, s), t2, key)
    ensures InsertionOf(t, n, t2, key)
  {
    InsertionFits(t, onRight, n, s, key);
    HeightAfterReplacingSide(t, onRight, s, t2, key);
  }

  /** `t2` is a sound tree holding the items of `t` without the node `n`, at most one level lower. */
  ghost predicate RemovalOf<T>(t: Tree<T>, n: AvlNode<T>, t2: Tree<T>, key: T -> int) {
    && Sound(t2, key) && n in Nodes(t)
    && Nodes(t2) == Nodes(t) - {n} && Items(t2) == Items(t) - {n.data}
    && Height(t) - 1 <= Height(t2) <= Height(t)
  }

  /** `t1` is `t` with the node `n` gone from one side and, if `n` was the root, another node in its place. */
  ghost predicate Plucked<T>(t: Tree<T>, n: AvlNode<T>, t1: Tree<T>, key: T -> int) {
    && t1.Fork? && n in Nodes(t)
    && Nodes(t1) == Nodes(t) - {n} && Items(t1) == Items(t) - {n.data}
    && Ordered(t1, key) && Distinct(t1) && Balanced(t1.left) && Balanced(t1.right)
  }

  /** A plucked tree with its balance restored is a removal. */
  lemma PluckedSettles<T>(t: Tree<T>, n: AvlNode<T>, t1: Tree<T>, t2: Tree<T>, key: T -> int)
    requires Plucked(t, n, t1, key) && RebalanceOf(t1, t2, key) && Height(t) - 1 <= Height(t2) <= Height(t)
    ensures RemovalOf(t, n, t2, key)
  {
    hide Ordered, Distinct, Balanced;
  }

  lemma {:induction false} NodeInItems<T>(t: Tree<T>, n: AvlNode<T>)
    requires n in Nodes(t)
    ensures n.data in Items(t)
  {
    if n in Nodes(t.left) {
      NodeInItems(t.left, n);
    } else if n in Nodes(t.right) {
      NodeInItems(t.right, n);
    }
  }

  lemma RemovalDropsKey<T>(t: Tree<T>, n: AvlNode<T>, t2: Tree<T>, key: T -> int)
    requires Sound(t, key) && RemovalOf(t, n, t2, key)
    ensures Items(t2) == set x | x in Items(t) && key(x) != key(n.data)
    ensures |Nodes(t2)| == |Nodes(t)| - 1
  {
    hide Balanced, Distinct, Height, Ordered;
    NodeInItems(t, n);
    forall x | x in Items(t) && key(x) == key(n.data) ensures x == n.data {
      KeysAreUnique(t, key, x, n.data);
    }
  }

  lemma RemovalFromSide<T>(t: Tree<T>, onRight: bool, n: AvlNode<T>, s: Tree<T>, key: T -> int)
    requires Sound(t, key) && t.Fork? && RemovalOf(Side(t, onRight), n, s, key)
    ensures Plucked(t, n, WithSide(t, onRight, s), key)
    ensures var t1 := WithSide(t, onRight, s);
      Ordered(t1, key) && Distinct(t1) && Balanced(t1.left) && Balanced(t1.right) && Nodes(t1) <= Nodes(t)
  {
    NodeInItems(Side(t, onRight), n);
  }

  lemma PartsAreSound<T>(t: Tree<T>, key: T -> int)
    requires Sound(t, key) && t.Fork?
    ensures Sound(t.left, key) && Sound(t.right, key) && t.node !in Nodes(t.left) + Nodes(t.right)
    ensures Nodes(t.left) !! Nodes(t.right)
    ensures t.left.Fork? ==> key(t.left.node.data) < key(t.node.data)
    ensures t.right.Fork? ==> key(t.node.data) < key(t.right.node.data)
  {
    assert t.left.Fork? ==> t.left.node.data in Items(t.left);
    assert t.right.Fork? ==> t.right.node.data in Items(t.right);
  }

  /** The highest item of the right side is the highest of all. */
  lemma MaxIsHighest<T>(t: Tree<T>, max: AvlNode<T>, s: Tree<T>, t2: Tree<T>, key: T -> int)
    requires t.Fork? && Sound(t, key) && RemovalOf(t.right, max, s, key) && RemovalOf(t, max, t2, key)
    requires forall x <- Items(s) :: key(x) < key(max.data)
    ensures forall x <- Items(t2) :: key(x) < key(max.data)
  {
    NodeInItems(t.right, max);
  }

  /** A root without a right side is the highest node; its left side remains. */
  lemma LastIsRemoved<T>(t: Tree<T>, key: T -> int)
    requires Sound(t, key) && t.Fork? && t.right.Nil?
    ensures RemovalOf(t, t.node, t.left, key) && Height(t.left) == Height(t) - 1
    ensures forall x <- Items(t.left) :: key(x) < key(t.node.data)
  {
  }

  /** The items and nodes when the root gives way to the highest node of its left side. */
  lemma RootTakesMaxItems<T>(t: Tree<T>, m: AvlNode<T>, s: Tree<T>, key: T -> int)
    requires Sound(t, key) && t.Fork? && RemovalOf(t.left, m, s, key)
    ensures Nodes(Fork(m, s, t.right)) == Nodes(t) - {t.node}
    ensures Items(Fork(m, s, t.right)) == Items(t) - {t.node.data}
  {
    NodeInItems(t.left, m);
    assert m.data !in Items(t.right) && t.node.data !in Items(t.left) + Items(t.right);
    assert Items(t.left) == Items(s) + {m.data};
    assert Nodes(t.left) == Nodes(s) + {m};
  }

  /** The root gives way to the highest node of its left side. */
  lemma RootTakesMax<T>(t: Tree<T>, m: AvlNode<T>, s: Tree<T>, key: T -> int)
    requires Sound(t, key) && t.Fork? && RemovalOf(t.left, m, s, key)
    requires forall x <- Items(s) :: key(x) < key(m.data)
    ensures Plucked(t, t.node, Fork(m, s, t.right), key)
  {
    RootTakesMaxItems(t, m, s, key);
    NodeInItems(t.left, m);
    assert forall x <- Items(t.right) :: key(m.data) < key(t.node.data) < key(x);
  }

  /** The root gives way to its only descendant. */
  lemma RootTakesChild<T>(t: Tree<T>, key: T -> int)
    requires Sound(t, key) && t.Fork? && t.left.Nil? && t.right.Fork? && t.right.left.Nil? && t.right.right.Nil?
    ensures Plucked(t, t.node, Fork(t.right.node, Nil, Nil), key)
  {
    assert t.right.node.data in Items(t.right);
  }

  /** Where a balanced node has no left child, its right child has no children. So the branch in which the
      program's search for a minimum would descend (into the routine for the maximum) is never taken. */
  lemma LoneRightChildIsSingle<T>(t: Tree<T>)
    requires t.Fork? && Balanced(t) && t.left.Nil? && t.right.Fork?
    ensures t.right.left.Nil? && t.right.right.Nil?
  {
    assert Height(t.right) == 1;
  }

  /** Restoring the balance after a side became one level lower. `b` is the balance before that. */
  lemma HeightAfterShrinking<T>(t1: Tree<T>, right: bool, left: bool, t2: Tree<T>, key: T -> int)
    requires t1.Fork? && RebalanceOf(t1, t2, key) && !(right && left)
    requires -1 <= BalanceBefore(t1, right, left) <= 1
    ensures Height(t2) - HeightBefore(t1, right, left) ==
      if Unbalanced(Balance(t1)) then (if Balance(HeavySide(t1)) == 0 then 0 else -1)
      else if (right && BalanceBefore(t1, right, left) > 0) || (left && BalanceBefore(t1, right, left) < 0) then -1 else 0
  {
  }

  ghost function BalanceBefore<T>(t1: Tree<T>, right: bool, left: bool): int
    requires t1.Fork?
  {
    Balance(t1) + (if right then 1 else 0) - (if left then 1 else 0)
  }

  ghost function HeightBefore<T>(t1: Tree<T>, right: bool, left: bool): nat
    requires t1.Fork?
  {
    1 + Max(Height(t1.right) + (if right then 1 else 0), Height(t1.left) + (if left then 1 else 0))
  }

  lemma HeightsBefore<T>(t: Tree<T>, onRight: bool, s: Tree<T>, lower: bool)
    requires t.Fork? && Balanced(t) && Height(s) == Height(Side(t, onRight)) - (if lower then 1 else 0)
    ensures var t1, r, l := WithSide(t, onRight, s), onRight && lower, !onRight && lower;
      BalanceBefore(t1, r, l) == Balance(t) && HeightBefore(t1, r, l) == Height(t) && -1 <= Balance(t) <= 1
  {
  }
}
