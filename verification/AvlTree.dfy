/** The AVL tree of avl_trees/avl_tree.c, on linked nodes that store balances and no heights. */
module AvlTrees {
  import opened Common
  import opened Callbacks
  import opened AvlShape

  /** A node, one of its children and its parent lie outside the three subtrees below them. */
  lemma PartsAreApart<T>(t: Tree<T>, c: Tree<T>, other: Tree<T>, parent: AvlNode?<T>)
    requires Distinct(t) && t.Fork? && c.Fork? && parent !in Nodes(t)
    requires (c == t.left && other == t.right) || (c == t.right && other == t.left)
    ensures Nodes(c.left) !! {t.node, c.node, parent}
    ensures Nodes(c.right) !! {t.node, c.node, parent}
    ensures Nodes(other) !! {t.node, c.node, parent}
    ensures t.node != c.node && c.node != parent && t.node != parent
  {
    assert Nodes(c) <= Nodes(t);
    assert c.node in Nodes(c);
    assert Distinct(c);
  }

  class AvlTree<T> {
    /** The compare function: `compare(a, b)` has the sign of `key(a) - key(b)`. */
    const key: T -> int
    var root: AvlNode?<T>
    var nnodes: nat
    ghost var shape: Tree<T>
    /** The nodes that searches have compared with, in turn. */
    ghost var compared: seq<AvlNode<T>>

    ghost predicate Valid()
      reads this, Nodes(shape)
    {
      root == Root(shape) && Linked(shape) && Sound(shape, key) && nnodes == |Nodes(shape)|
    }

    constructor (key: T -> int)
      ensures Valid() && shape == Nil && this.key == key
    {
      this.key := key;
      root, nnodes, shape, compared := null, 0, Nil, [];
    }

    /** The object that holds the link to a subtree: its parent, or the tree itself for the root. */
    ghost function Holder(parent: AvlNode?<T>): object {
      if parent == null then this else parent
    }

    predicate OnRight(parent: AvlNode?<T>, data: T) {
      parent != null && key(data) > key(parent.data)
    }

    ghost predicate Slotted(parent: AvlNode?<T>, atn: AvlNode<T>)
      reads this, parent
    {
      if parent == null then root == atn
      else key(atn.data) != key(parent.data) && atn == if OnRight(parent, atn.data) then parent.right else parent.left
    }

    /** Only the link to one subtree has changed in its holder. */
    twostate predicate Relinked(parent: AvlNode?<T>, onRight: bool, new child: AvlNode?<T>)
      reads this, parent
    {
      if parent == null then
        root == child && nnodes == old(nnodes) && shape == old(shape)
      else
        && parent.balance == old(parent.balance)
        && (if onRight then parent.right == child && parent.left == old(parent.left)
            else parent.left == child && parent.right == old(parent.right))
    }

    /** The pointers of a rotation to the right. */
    method SwingRight(atn: AvlNode<T>, parent: AvlNode?<T>, ghost t: Tree<T>) returns (child: AvlNode<T>)
      requires Linked(t) && Distinct(t) && t.Fork? && t.left.Fork? && t.node == atn
      requires parent !in Nodes(t) && Slotted(parent, atn)
      modifies atn`left, atn.left`right, Holder(parent)
      ensures child == t.left.node && Relinked(parent, OnRight(parent, atn.data), child)
      ensures atn.left == Root(t.left.right) && atn.right == Root(t.right) && child.left == Root(t.left.left) && child.right == atn
      ensures atn.balance == Balance(t) && child.balance == Balance(t.left)
      ensures Linked(t.left.left) && Linked(t.left.right) && Linked(t.right)
    {
      assert allocated(Nodes(t.left)) && allocated(Nodes(t.right)) && allocated(Nodes(t.left.left)) && allocated(Nodes(t.left.right));
      PartsAreApart(t, t.left, t.right, parent);
      child := atn.left;
      var grandchild := child.right;
      Relink(parent, atn.data, child);
      child.right := atn;
      atn.left := grandchild;
    }

    /** The pointers of a rotation to the left. */
    method SwingLeft(atn: AvlNode<T>, parent: AvlNode?<T>, ghost t: Tree<T>) returns (child: AvlNode<T>)
      requires Linked(t) && Distinct(t) && t.Fork? && t.right.Fork? && t.node == atn
      requires parent !in Nodes(t) && Slotted(parent, atn)
      modifies atn`right, atn.right`left, Holder(parent)
      ensures child == t.right.node && Relinked(parent, OnRight(parent, atn.data), child)
      ensures atn.left == Root(t.left) && atn.right == Root(t.right.left) && child.right == Root(t.right.right) && child.left == atn
      ensures atn.balance == Balance(t) && child.balance == Balance(t.right)
      ensures Linked(t.left) && Linked(t.right.left) && Linked(t.right.right)
    {
      assert allocated(Nodes(t.left)) && allocated(Nodes(t.right)) && allocated(Nodes(t.right.left)) && allocated(Nodes(t.right.right));
      PartsAreApart(t, t.right, t.left, parent);
      child := atn.right;
      var grandchild := child.left;
      Relink(parent, atn.data, child);
      child.left := atn;
      atn.right := grandchild;
    }

    /** Points the link that held a node with `data` at `child`. */
    method Relink(parent: AvlNode?<T>, data: T, child: AvlNode?<T>)
      modifies Holder(parent)
      ensures Relinked(parent, OnRight(parent, data), child)
    {
      if parent == null {
        root := child;
      } else if key(data) - key(parent.data) > 0 {
        parent.right := child;
      } else {
        parent.left := child;
      }
    }

    /** A right rotation at `atn`, with the balances computed from the old ones. */
    method RotateRight(atn: AvlNode<T>, parent: AvlNode?<T>, ghost t: Tree<T>)
      requires Linked(t) && Distinct(t) && t.Fork? && t.left.Fork? && t.node == atn
      requires parent !in Nodes(t) && Slotted(parent, atn)
      requires -2 <= Balance(t) <= -1 && -2 <= Balance(t.left)
      requires Balance(t.left) == -2 ==> Balance(t) == -2
      modifies atn, atn.left, Holder(parent)
      ensures Linked(RotatedRight(t))
      ensures Relinked(parent, OnRight(parent, atn.data), t.left.node)
    {
      hide LoweredBalance, RaisedBalance, Height, Balance, Nodes, Distinct, Linked;
      LinkedRoots(t);
      ghost var a, m, r := t.left.left, t.left.right, t.right;
      assert allocated(Nodes(a)) && allocated(Nodes(m)) && allocated(Nodes(r));
      PartsAreApart(t, t.left, t.right, parent);
      RightRotationBalances(t);
      var child := SwingRight(atn, parent, t);
      assert child.balance < -1 ==> Unbalanced(atn.balance);
      var newAtnBalance := LoweredBalance(atn.balance, child.balance);
      var newChildBalance := RaisedBalance(atn.balance, child.balance);
      atn.balance, child.balance := newAtnBalance, newChildBalance;
      RightRotationLinked(t);
    }

    /** The mirror image. */
    method RotateLeft(atn: AvlNode<T>, parent: AvlNode?<T>, ghost t: Tree<T>)
      requires Linked(t) && Distinct(t) && t.Fork? && t.right.Fork? && t.node == atn
      requires parent !in Nodes(t) && Slotted(parent, atn)
      requires 1 <= Balance(t) <= 2 && Balance(t.right) <= 2
      requires Balance(t.right) == 2 ==> Balance(t) == 2
      modifies atn, atn.right, Holder(parent)
      ensures Linked(RotatedLeft(t))
      ensures Relinked(parent, OnRight(parent, atn.data), t.right.node)
    {
      hide LoweredBalance, RaisedBalance, Height, Balance, Nodes, Distinct, Linked;
      LinkedRoots(t);
      ghost var a, m, r := t.left, t.right.left, t.right.right;
      assert allocated(Nodes(a)) && allocated(Nodes(m)) && allocated(Nodes(r));
      PartsAreApart(t, t.right, t.left, parent);
      LeftRotationBalances(t);
      var child := SwingLeft(atn, parent, t);
      assert child.balance > 1 ==> Unbalanced(atn.balance);
      var newAtnBalance := -LoweredBalance(-atn.balance, -child.balance);
      var newChildBalance := -RaisedBalance(-atn.balance, -child.balance);
      atn.balance, child.balance := newAtnBalance, newChildBalance;
      LeftRotationLinked(t);
    }

    method RebalanceRightHeavy(atn: AvlNode<T>, parent: AvlNode?<T>, ghost t: Tree<T>)
      requires Linked(t) && Distinct(t) && Ordered(t, key) && t.Fork? && t.node == atn
      requires parent !in Nodes(t) && Slotted(parent, atn)
      requires Balance(t) == 2 && Balanced(t.right)
      modifies Nodes(t), Holder(parent)
      ensures Linked(RebalancedRightHeavy(t))
      ensures Relinked(parent, OnRight(parent, atn.data), RebalancedRightHeavy(t).node)
    {
      hide Height, Balance, Balanced, Ordered, Items;
      RightHeavySteps(t, key);
      ghost var t1 := t;
      assert allocated(Nodes(t.left)) && allocated(Nodes(t.right));
      var child := atn.right;
      if child.balance < 0 {
        RotateRight(child, atn, t.right);
        t1 := Fork(t.node, t.left, RotatedRight(t.right));
      }
      RotateLeft(atn, parent, t1);
    }

    method RebalanceLeftHeavy(atn: AvlNode<T>, parent: AvlNode?<T>, ghost t: Tree<T>)
      requires Linked(t) && Distinct(t) && Ordered(t, key) && t.Fork? && t.node == atn
      requires parent !in Nodes(t) && Slotted(parent, atn)
      requires Balance(t) == -2 && Balanced(t.left)
      modifies Nodes(t), Holder(parent)
      ensures Linked(RebalancedLeftHeavy(t))
      ensures Relinked(parent, OnRight(parent, atn.data), RebalancedLeftHeavy(t).node)
    {
      hide Height, Balance, Balanced, Ordered, Items;
      LeftHeavySteps(t, key);
      ghost var t1 := t;
      assert allocated(Nodes(t.left)) && allocated(Nodes(t.right));
      var child := atn.left;
      if child.balance > 0 {
        RotateLeft(child, atn, t.left);
        t1 := Fork(t.node, RotatedLeft(t.left), t.right);
      }
      RotateRight(atn, parent, t1);
    }

    /** Rebalances a subtree whose two sides are balanced but differ by two levels. */
    method Rebalance(atn: AvlNode<T>, parent: AvlNode?<T>, ghost t: Tree<T>) returns (ghost t2: Tree<T>)
      requires Linked(t) && Distinct(t) && Ordered(t, key) && t.Fork? && t.node == atn
      requires parent !in Nodes(t) && Slotted(parent, atn)
      requires Balance(t) == 2 || Balance(t) == -2
      requires Balanced(t.left) && Balanced(t.right)
      modifies Nodes(t), Holder(parent)
      ensures Linked(t2) && RebalanceOf(t, t2, key)
      ensures Relinked(parent, OnRight(parent, atn.data), Root(t2))
    {
      if atn.balance > 0 {
        RebalancedRightHeavyHeight(t);
        RebalancedRightHeavyKeepsItems(t, key);
        t2 := RebalancedRightHeavy(t);
        RebalanceRightHeavy(atn, parent, t);
      } else {
        RebalancedLeftHeavyHeight(t);
        RebalancedLeftHeavyKeepsItems(t, key);
        t2 := RebalancedLeftHeavy(t);
        RebalanceLeftHeavy(atn, parent, t);
      }
    }

    method RebalanceIfNeeded(atn: AvlNode<T>, parent: AvlNode?<T>, ghost t: Tree<T>)
      returns (rebalanced: bool, ghost t2: Tree<T>)
      requires Linked(t) && Distinct(t) && Ordered(t, key) && t.Fork? && t.node == atn
      requires parent !in Nodes(t) && Slotted(parent, atn)
      requires -2 <= Balance(t) <= 2 && Balanced(t.left) && Balanced(t.right)
      modifies Nodes(t), Holder(parent)
      ensures rebalanced <==> Unbalanced(Balance(t))
      ensures Linked(t2) && RebalanceOf(t, t2, key)
      ensures Relinked(parent, OnRight(parent, atn.data), Root(t2))
    {
      rebalanced := Unbalanced(atn.balance);
      t2 := t;
      if rebalanced {
        t2 := Rebalance(atn, parent, t);
      }
    }

    /** The links are up to date, but the root still stores balance `b`. */
    ghost predicate LinkedWithBalance(t: Tree<T>, b: int)
      reads Nodes(t)
    {
      && t.Fork?
      && t.node.left == Root(t.left) && t.node.right == Root(t.right)
      && t.node.balance == b
      && Linked(t.left) && Linked(t.right)
    }

    /** The last step of an insertion into the subtree `t`: one side is now `s`, which may have grown. */
    method SettleInsert(atn: AvlNode<T>, parent: AvlNode?<T>, rheightChange: bool, lheightChange: bool,
                        ghost t: Tree<T>, ghost onRight: bool, ghost s: Tree<T>)
      returns (heightChange: bool, ghost t2: Tree<T>)
      requires t.Fork? && t.node == atn && Sound(t, key) && Sound(s, key) && Fits(t, onRight, s, key)
      requires LinkedWithBalance(WithSide(t, onRight, s), Balance(t))
      requires Height(s) == Height(Side(t, onRight)) + (if rheightChange || lheightChange then 1 else 0)
      requires if onRight then !lheightChange else !rheightChange
      requires Height(s) > Height(Side(t, onRight)) ==> s.Fork? && (Height(s) == 1 || Balance(s) != 0)
      requires parent !in Nodes(WithSide(t, onRight, s)) && Slotted(parent, atn)
      modifies Nodes(WithSide(t, onRight, s)), Holder(parent)
      ensures Linked(t2) && RebalanceOf(WithSide(t, onRight, s), t2, key)
      ensures Relinked(parent, OnRight(parent, atn.data), Root(t2))
      ensures heightChange <==> Height(t2) != Height(t)
    {
      hide Ordered, Distinct, Fits, SameItems, Items, Height;
      ghost var t1 := WithSide(t, onRight, s);
      WithSideIsSound(t, onRight, s, key);
      assert allocated(Nodes(t1.left)) && allocated(Nodes(t1.right));
      heightChange := false;
      if rheightChange {
        if !(atn.balance < 0) {
          heightChange := true;
        }
        atn.balance := atn.balance + 1;
      } else if lheightChange {
        if !(atn.balance > 0) {
          heightChange := true;
        }
        atn.balance := atn.balance - 1;
      }
      var rebalanced;
      rebalanced, t2 := RebalanceIfNeeded(atn, parent, t1);
      HeightAfterReplacingSide(t, onRight, s, t2, key);
      if rebalanced {
        heightChange := false;
      }
    }

    /** Links a new node into an empty side of `atn`. */
    method Attach(atn: AvlNode<T>, toInsert: AvlNode<T>, onRight: bool, ghost t: Tree<T>) returns (ghost s: Tree<T>)
      requires Linked(t) && t.Fork? && t.node == atn && Side(t, onRight).Nil? && atn !in Nodes(Side(t, !onRight))
      requires toInsert !in Nodes(t)
      requires toInsert.left == null && toInsert.right == null && toInsert.balance == 0
      modifies atn
      ensures InsertionOf(Nil, toInsert, s, key) && Height(s) == 1
      ensures LinkedWithBalance(WithSide(t, onRight, s), Balance(t))
    {
      s := Fork(toInsert, Nil, Nil);
      if onRight {
        atn.right := toInsert;
      } else {
        atn.left := toInsert;
      }
    }

    /** Inserts below `atn` on the side the new node belongs: links it there if that side is empty, or
        inserts into the subtree there. */
    method InsertBelow(atn: AvlNode<T>, toInsert: AvlNode<T>, onRight: bool, ghost t: Tree<T>)
      returns (err: Err, sideChange: bool, ghost s: Tree<T>)
      requires Linked(t) && Sound(t, key) && t.Fork? && t.node == atn
      requires toInsert !in Nodes(t)
      requires toInsert.left == null && toInsert.right == null && toInsert.balance == 0
      requires key(toInsert.data) != key(atn.data) && onRight == (key(toInsert.data) > key(atn.data))
      modifies Nodes(t), toInsert
      ensures err == if Contains(Side(t, onRight), key, key(toInsert.data)) then EEXIST else Ok
      ensures err == EEXIST ==> s == Side(t, onRight)
      ensures err == Ok ==> InsertionOf(Side(t, onRight), toInsert, s, key)
      ensures LinkedWithBalance(WithSide(t, onRight, s), Balance(t))
      ensures sideChange <==> Height(s) != Height(Side(t, onRight))
      decreases t, 0
    {
      assert allocated(Nodes(t.left)) && allocated(Nodes(t.right));
      var child := if onRight then atn.right else atn.left;
      if child == null {
        s := Attach(atn, toInsert, onRight, t);
        err, sideChange := Ok, true;
      } else {
        err, sideChange, s := InsertInto(child, atn, toInsert, Side(t, onRight));
      }
    }

    method InsertInto(atn: AvlNode<T>, parent: AvlNode?<T>, toInsert: AvlNode<T>, ghost t: Tree<T>)
      returns (err: Err, heightChange: bool, ghost t2: Tree<T>)
      requires Linked(t) && Sound(t, key) && t.Fork? && t.node == atn
      requires parent !in Nodes(t) && Slotted(parent, atn)
      requires toInsert !in Nodes(t) && toInsert != parent
      requires toInsert.left == null && toInsert.right == null && toInsert.balance == 0
      modifies Nodes(t), toInsert, Holder(parent)
      ensures err == if Contains(t, key, key(toInsert.data)) then EEXIST else Ok
      ensures err == EEXIST ==> t2 == t && !heightChange
      ensures err == Ok ==> InsertionOf(t, toInsert, t2, key)
      ensures Linked(t2) && Relinked(parent, OnRight(parent, atn.data), Root(t2))
      ensures heightChange <==> Height(t2) != Height(t)
      decreases t, 1
    {
      heightChange, t2 := false, t;
      var comparison := key(toInsert.data) - key(atn.data);
      if comparison == 0 {
        assert atn.data in Items(t);
        return EEXIST, false, t;
      }
      var onRight := comparison > 0;
      ContainsOnSide(t, onRight, key, key(toInsert.data));
      var sideChange;
      ghost var s;
      err, sideChange, s := InsertBelow(atn, toInsert, onRight, t);
      if err != Ok {
        assert WithSide(t, onRight, s) == t;
        return;
      }
      InsertionFits(t, onRight, toInsert, s, key);
      heightChange, t2 := SettleInsert(atn, parent, onRight && sideChange, !onRight && sideChange, t, onRight, s);
      InsertionSettles(t, onRight, toInsert, s, t2, key);
    }

    /** The last step of a removal: the tree below `atn` is now `t1`, and one side may have become a level
        lower than its stored balance says. */
    method SettleRemove(atn: AvlNode<T>, parent: AvlNode?<T>, rheightChange: bool, lheightChange: bool, ghost t1: Tree<T>)
      returns (heightChange: bool, ghost t2: Tree<T>)
      requires t1.Fork? && t1.node == atn && Ordered(t1, key) && Distinct(t1)
      requires Balanced(t1.left) && Balanced(t1.right)
      requires !(rheightChange && lheightChange)
      requires -1 <= BalanceBefore(t1, rheightChange, lheightChange) <= 1
      requires LinkedWithBalance(t1, BalanceBefore(t1, rheightChange, lheightChange))
      requires parent !in Nodes(t1) && Slotted(parent, atn)
      modifies Nodes(t1), Holder(parent)
      ensures Linked(t2) && RebalanceOf(t1, t2, key)
      ensures Relinked(parent, OnRight(parent, atn.data), Root(t2))
      ensures Height(t2) == HeightBefore(t1, rheightChange, lheightChange) - (if heightChange then 1 else 0)
    {
      assert allocated(Nodes(t1.left)) && allocated(Nodes(t1.right));
      heightChange := false;
      if rheightChange {
        if atn.balance > 0 {
          heightChange := true;
        }
        atn.balance := atn.balance - 1;
      } else if lheightChange {
        if atn.balance < 0 {
          heightChange := true;
        }
        atn.balance := atn.balance + 1;
      }
      if Unbalanced(atn.balance) {
        heightChange := !((atn.balance > 0 && atn.right.balance == 0) || (atn.balance < 0 && atn.left.balance == 0));
      }
      var rebalanced;
      rebalanced, t2 := RebalanceIfNeeded(atn, parent, t1);
      HeightAfterShrinking(t1, rheightChange, lheightChange, t2, key);
    }

    /** The last step of a removal from one side. */
    method SettleSide(atn: AvlNode<T>, parent: AvlNode?<T>, onRight: bool, sideChange: bool,
                      ghost t: Tree<T>, ghost n: AvlNode<T>, ghost s: Tree<T>)
      returns (heightChange: bool, ghost t2: Tree<T>)
      requires t.Fork? && t.node == atn && Sound(t, key) && RemovalOf(Side(t, onRight), n, s, key)
      requires LinkedWithBalance(WithSide(t, onRight, s), Balance(t))
      requires Height(s) == Height(Side(t, onRight)) - (if sideChange then 1 else 0)
      requires parent !in Nodes(t) && Slotted(parent, atn)
      modifies Nodes(t), Holder(parent)
      ensures Linked(t2) && RemovalOf(t, n, t2, key)
      ensures Relinked(parent, OnRight(parent, atn.data), Root(t2))
      ensures Height(t2) == Height(t) - (if heightChange then 1 else 0)
    {
      hide Ordered, Distinct, RemovalOf, RebalanceOf, Plucked, Linked;
      ghost var t1 := WithSide(t, onRight, s);
      RemovalFromSide(t, onRight, n, s, key);
      HeightsBefore(t, onRight, s, sideChange);
      heightChange, t2 := SettleRemove(atn, parent, onRight && sideChange, !onRight && sideChange, t1);
      PluckedSettles(t, n, t1, t2, key);
    }

    /** Unlinks the highest node of a subtree. */
    method GetMaxForRemoval(atn: AvlNode<T>, parent: AvlNode<T>, ghost t: Tree<T>)
      returns (max: AvlNode<T>, heightChange: bool, ghost t2: Tree<T>)
      requires Linked(t) && Sound(t, key) && t.Fork? && t.node == atn
      requires parent !in Nodes(t) && Slotted(parent, atn)
      modifies Nodes(t), parent
      ensures Linked(t2) && RemovalOf(t, max, t2, key)
      ensures forall x <- Items(t2) :: key(x) < key(max.data)
      ensures Relinked(parent, OnRight(parent, atn.data), Root(t2))
      ensures Height(t2) == Height(t) - (if heightChange then 1 else 0)
      decreases t, 1
    {
      hide Distinct, Ordered, RemovalOf, Plucked;
      if atn.right == null {
        assert allocated(Nodes(t.left));
        PartsAreSound(t, key);
        LastIsRemoved(t, key);
        Relink(parent, atn.data, atn.left);
        return atn, true, t.left;
      }
      var rheightChange;
      ghost var s;
      max, rheightChange, s := GetMaxBelow(atn, t);
      heightChange, t2 := SettleSide(atn, parent, true, rheightChange, t, max, s);
      MaxIsHighest(t, max, s, t2, key);
    }

    /** Unlinks the highest node of the right side of `atn`. */
    method GetMaxBelow(atn: AvlNode<T>, ghost t: Tree<T>)
      returns (max: AvlNode<T>, heightChange: bool, ghost s: Tree<T>)
      requires Linked(t) && Sound(t, key) && t.Fork? && t.node == atn && t.right.Fork?
      modifies Nodes(t)
      ensures RemovalOf(t.right, max, s, key) && LinkedWithBalance(WithSide(t, true, s), Balance(t))
      ensures forall x <- Items(s) :: key(x) < key(max.data)
      ensures Height(s) == Height(t.right) - (if heightChange then 1 else 0)
      decreases t, 0
    {
      hide Distinct, Ordered;
      PartsAreSound(t, key);
      assert allocated(Nodes(t.left)) && allocated(Nodes(t.right));
      max, heightChange, s := GetMaxForRemoval(atn.right, atn, t.right);
    }

    /** Unlinks the lowest node of a subtree. It is only called below a node without a left child, where
        `LoneRightChildIsSingle` makes the subtree a single node. */
    method GetMinForRemoval(atn: AvlNode<T>, parent: AvlNode<T>, ghost t: Tree<T>)
      returns (min: AvlNode<T>, heightChange: bool, ghost t2: Tree<T>)
      requires Linked(t) && Sound(t, key) && t.Fork? && t.node == atn && t.left.Nil? && t.right.Nil?
      requires parent !in Nodes(t) && Slotted(parent, atn)
      modifies parent
      ensures Linked(t2) && RemovalOf(t, min, t2, key) && t2.Nil?
      ensures Relinked(parent, OnRight(parent, atn.data), null)
      ensures heightChange
    {
      if atn.left == null {
        Relink(parent, atn.data, atn.right);
        return atn, true, Nil;
      } else {
        assert false;
      }
    }

    /** Unlinks the node that takes the place of `atn`, from the left side if there is one. */
    method GetReplacementForRemoval(atn: AvlNode<T>, ghost t: Tree<T>)
      returns (replacement: AvlNode<T>, lheightChange: bool, rheightChange: bool, ghost t1: Tree<T>)
      requires Linked(t) && Sound(t, key) && t.Fork? && t.node == atn
      requires atn.left != null || atn.right != null
      modifies Nodes(t)
      ensures Plucked(t, atn, t1, key) && t1.node == replacement
      ensures atn.left == Root(t1.left) && atn.right == Root(t1.right) && atn.balance == Balance(t)
      ensures Linked(t1.left) && Linked(t1.right)
      ensures !(lheightChange && rheightChange)
      ensures BalanceBefore(t1, rheightChange, lheightChange) == Balance(t)
      ensures HeightBefore(t1, rheightChange, lheightChange) == Height(t)
    {
      assert allocated(Nodes(t.left)) && allocated(Nodes(t.right));
      lheightChange, rheightChange := false, false;
      ghost var s;
      if atn.left != null {
        replacement, lheightChange, s := GetMaxForRemoval(atn.left, atn, t.left);
        RootTakesMax(t, replacement, s, key);
        t1 := Fork(replacement, s, t.right);
      } else {
        LoneRightChildIsSingle(t);
        replacement, rheightChange, s := GetMinForRemoval(atn.right, atn, t.right);
        RootTakesChild(t, key);
        t1 := Fork(replacement, t.left, s);
      }
    }

    /** Every item of the subtree belongs on the same side of the parent as its root. */
    ghost predicate OneSided(parent: AvlNode?<T>, t: Tree<T>)
    {
      parent != null && t.Fork? ==>
        forall x <- Items(t) :: key(x) != key(parent.data) && OnRight(parent, x) == OnRight(parent, t.node.data)
    }

    /** Puts the replacement in the place of `atn`, with its links and balance. */
    method SwapIn(atn: AvlNode<T>, parent: AvlNode?<T>, replacement: AvlNode<T>, ghost t1: Tree<T>)
      requires t1.Fork? && t1.node == replacement && atn !in Nodes(t1) && parent !in Nodes(t1) && parent != atn
      requires atn.left == Root(t1.left) && atn.right == Root(t1.right)
      requires Linked(t1.left) && Linked(t1.right) && Distinct(t1)
      modifies replacement, Holder(parent)
      ensures LinkedWithBalance(t1, atn.balance)
      ensures Relinked(parent, OnRight(parent, atn.data), replacement)
    {
      assert allocated(Nodes(t1.left)) && allocated(Nodes(t1.right));
      Relink(parent, atn.data, replacement);
      replacement.left := atn.left;
      replacement.right := atn.right;
      replacement.balance := atn.balance;
    }

    /** Removes the node `atn` itself. */
    method RemoveHere(atn: AvlNode<T>, parent: AvlNode?<T>, ghost t: Tree<T>)
      returns (heightChange: bool, ghost t2: Tree<T>)
      requires Linked(t) && Sound(t, key) && t.Fork? && t.node == atn
      requires parent !in Nodes(t) && Slotted(parent, atn) && OneSided(parent, t)
      modifies Nodes(t), Holder(parent)
      ensures RemovalOf(t, atn, t2, key) && Linked(t2)
      ensures Relinked(parent, OnRight(parent, atn.data), Root(t2))
      ensures heightChange <==> Height(t2) != Height(t)
    {
      if atn.left == null && atn.right == null {
        Relink(parent, atn.data, null);
        return true, Nil;
      }
      var replacement, lheightChange, rheightChange;
      ghost var t1;
      replacement, lheightChange, rheightChange, t1 := GetReplacementForRemoval(atn, t);
      assert replacement in Nodes(t1) && replacement.data in Items(t1);
      SwapIn(atn, parent, replacement, t1);
      heightChange, t2 := SettleRemove(replacement, parent, rheightChange, lheightChange, t1);
      PluckedSettles(t, atn, t1, t2, key);
    }

    /** Removes from the subtree on one side of `atn`. */
    method RemoveBelow(atn: AvlNode<T>, toRemove: T, onRight: bool, ghost t: Tree<T>)
      returns (err: Err, sideChange: bool, ghost n: AvlNode?<T>, ghost s: Tree<T>)
      requires Linked(t) && Sound(t, key) && t.Fork? && t.node == atn
      modifies Nodes(t)
      ensures err == if Contains(Side(t, onRight), key, key(toRemove)) then Ok else ENOENT
      ensures err == ENOENT ==> s == Side(t, onRight)
      ensures err == Ok ==> n != null && key(n.data) == key(toRemove) && RemovalOf(Side(t, onRight), n, s, key)
      ensures LinkedWithBalance(WithSide(t, onRight, s), Balance(t))
      ensures Height(s) == Height(Side(t, onRight)) - (if sideChange then 1 else 0)
      decreases t, 0
    {
      assert allocated(Nodes(t.left)) && allocated(Nodes(t.right));
      err, sideChange, n, s := RemoveFrom(if onRight then atn.right else atn.left, atn, toRemove, Side(t, onRight));
    }

    method RemoveFrom(atn: AvlNode?<T>, parent: AvlNode?<T>, toRemove: T, ghost t: Tree<T>)
      returns (err: Err, heightChange: bool, ghost n: AvlNode?<T>, ghost t2: Tree<T>)
      requires Linked(t) && Sound(t, key) && Root(t) == atn
      requires parent !in Nodes(t) && (atn != null ==> Slotted(parent, atn)) && OneSided(parent, t)
      modifies Nodes(t), if atn == null then {} else {Holder(parent)}
      ensures err == if Contains(t, key, key(toRemove)) then Ok else ENOENT
      ensures err == ENOENT ==> t2 == t
      ensures err == Ok ==> n != null && key(n.data) == key(toRemove) && RemovalOf(t, n, t2, key)
      ensures Linked(t2) && (atn != null ==> Relinked(parent, OnRight(parent, atn.data), Root(t2)))
      ensures Height(t2) == Height(t) - (if heightChange then 1 else 0)
      decreases t, 1
    {
      hide Ordered, Distinct, RemovalOf, RebalanceOf, Plucked, Items;
      heightChange, n, t2 := false, null, t;
      if atn == null {
        NilIsEmpty(key, key(toRemove));
        return ENOENT, false, null, t;
      }
      var comparison := key(toRemove) - key(atn.data);
      if comparison == 0 {
        RootIsIn(t, key);
        err, n := Ok, atn;
        heightChange, t2 := RemoveHere(atn, parent, t);
        return;
      }
      var onRight := comparison > 0;
      ContainsOnSide(t, onRight, key, key(toRemove));
      var sideChange;
      ghost var s;
      err, sideChange, n, s := RemoveBelow(atn, toRemove, onRight, t);
      if err != Ok {
        assert WithSide(t, onRight, s) == t;
        return;
      }
      heightChange, t2 := SettleSide(atn, parent, onRight, sideChange, t, n, s);
    }

    /** Records the new node count, once the tree below the root has reached its new shape. */
    method Count(n: nat, ghost t2: Tree<T>)
      requires root == Root(t2) && Linked(t2) && Sound(t2, key) && n == |Nodes(t2)|
      modifies `nnodes, `shape
      ensures Valid() && shape == t2 && nnodes == n
    {
      assert allocated(Nodes(t2));
      shape := t2;
      nnodes := n;
    }

    /** Inserts into an empty tree. */
    method PlaceRoot(atn: AvlNode<T>) returns (ghost t2: Tree<T>)
      requires root == null && atn.left == null && atn.right == null && atn.balance == 0
      modifies `root
      ensures root == Root(t2) && Linked(t2) && InsertionOf(Nil, atn, t2, key)
    {
      root := atn;
      t2 := Fork(atn, Nil, Nil);
    }

    /** Adds exactly the new item, or finds its key taken and changes nothing. */
    method Insert(data: T) returns (err: Err)
      requires Valid()
      modifies this, Nodes(shape)
      ensures Valid() && fresh(Nodes(shape) - Nodes(old(shape)))
      ensures err == if Contains(old(shape), key, key(data)) then EEXIST else Ok
      ensures err == EEXIST ==> shape == old(shape)
      ensures err == Ok ==> Items(shape) == Items(old(shape)) + {data}
    {
      hide Ordered, Distinct, Balanced;
      assert allocated(Nodes(shape));
      var atn := new AvlNode<T>(data);
      ghost var t2;
      if root == null {
        t2 := PlaceRoot(atn);
        err := Ok;
      } else {
        var change;
        err, change, t2 := InsertInto(root, null, atn, shape);
      }
      if err == Ok {
        Count(nnodes + 1, t2);
      }
    }

    /** Deletes exactly the item with the given key, or reports that there is none and changes nothing. */
    method Remove(data: T) returns (err: Err)
      requires Valid()
      modifies this, Nodes(shape)
      ensures Valid() && Nodes(shape) <= Nodes(old(shape))
      ensures err == if Contains(old(shape), key, key(data)) then Ok else ENOENT
      ensures err == ENOENT ==> shape == old(shape)
      ensures err == Ok ==> Items(shape) == set x | x in Items(old(shape)) && key(x) != key(data)
    {
      var change;
      ghost var n, t2;
      err, change, n, t2 := RemoveFrom(root, null, data, shape);
      if err == Ok {
        RemovalDropsKey(shape, n, t2, key);
        Count(nnodes - 1, t2);
      }
    }

    /** Calls the compare function, and notes the node it is called for. */
    method Compare(data: T, atn: AvlNode<T>) returns (comparison: int)
      modifies `compared
      ensures comparison == key(data) - key(atn.data)
      ensures compared == old(compared) + [atn]
    {
      comparison := key(data) - key(atn.data);
      compared := compared + [atn];
    }

    /** Below `atn`, the nodes on `path` are those that a search for `toFind` meets, going right exactly where
        it compares greater. It ends at an equal item or where there is no child. */
    ghost predicate Descends(path: seq<AvlNode<T>>, atn: AvlNode?<T>, toFind: T)
      reads path
    {
      if path == [] then atn == null
      else
        && path[0] == atn
        && (forall i :: 0 <= i < |path| - 1 ==> key(toFind) != key(path[i].data) && path[i + 1] == Next(path[i], toFind))
        && (key(toFind) == key(path[|path| - 1].data) || Next(path[|path| - 1], toFind) == null)
    }

    ghost function Next(atn: AvlNode<T>, toFind: T): AvlNode?<T>
      reads atn
    {
      if key(toFind) > key(atn.data) then atn.right else atn.left
    }

    lemma DescendsOneMore(path: seq<AvlNode<T>>, atn: AvlNode<T>, toFind: T)
      requires key(toFind) != key(atn.data) && Descends(path, Next(atn, toFind), toFind)
      ensures Descends([atn] + path, atn, toFind)
    {
      var all := [atn] + path;
      forall i | 0 <= i < |all| - 1 ensures key(toFind) != key(all[i].data) && all[i + 1] == Next(all[i], toFind) {
        if i > 0 {
          assert all[i] == path[i - 1] && path[i] == Next(path[i - 1], toFind);
        }
      }
    }

    lemma DescentEnds(atn: AvlNode?<T>, toFind: T)
      ensures if atn == null then Descends([], atn, toFind) else key(toFind) == key(atn.data) ==> Descends([atn], atn, toFind)
    {
    }

    method FindFrom(atn: AvlNode?<T>, toFind: T, ghost t: Tree<T>)
      returns (err: Err, data: Option<T>, ghost path: seq<AvlNode<T>>)
      requires Linked(t) && Ordered(t, key) && Root(t) == atn
      modifies `compared
      ensures err == if Contains(t, key, key(toFind)) then Ok else ENOENT
      ensures err == Ok ==> data.Some? && data.value in Items(t) && key(data.value) == key(toFind)
      ensures compared == old(compared) + path && Descends(path, atn, toFind) && |path| <= Height(t)
      decreases t
    {
      hide Linked, Ordered, Distinct, Descends, Contains, Items, Height;
      DescentEnds(atn, toFind);
      if atn == null {
        NilIsEmpty(key, key(toFind));
        return ENOENT, None, [];
      }
      assert allocated(Nodes(t.left)) && allocated(Nodes(t.right));
      SearchParts(t, key, key(toFind));
      var comparison := Compare(toFind, atn);
      if comparison == 0 {
        return Ok, Some(atn.data), [atn];
      }
      if comparison > 0 {
        err, data, path := FindFrom(atn.right, toFind, t.right);
      } else {
        err, data, path := FindFrom(atn.left, toFind, t.left);
      }
      DescendsOneMore(path, atn, toFind);
      path := [atn] + path;
    }

    /** Finds the item with the given key if there is one. The nodes compared with lie on one way down from the
        root, and a search that compares with c of them needs a tree of at least Fib(c + 2) - 1 nodes. */
    method Find(toFind: T) returns (err: Err, data: Option<T>, ghost path: seq<AvlNode<T>>)
      requires Valid()
      modifies `compared
      ensures Valid()
      ensures err == if Contains(shape, key, key(toFind)) then Ok else ENOENT
      ensures err == Ok ==> data.Some? && data.value in Items(shape) && key(data.value) == key(toFind)
      ensures compared == old(compared) + path && Descends(path, root, toFind) && Fib(|path| + 2) <= nnodes + 1
    {
      hide Ordered, Distinct, Balanced, Linked, Contains, Items, Descends, Fib;
      assert allocated(Nodes(shape));
      err, data, path := FindFrom(root, toFind, shape);
      SearchDepth(shape, |path|);
    }

    method IterateFrom<S>(atn: AvlNode?<T>, callback: (T, S) -> Reply<S>, ctx: S, ghost t: Tree<T>)
      returns (outcome: Reply<S>)
      requires Linked(t) && Root(t) == atn
      ensures outcome == Visit(InOrder(t), callback, ctx)
      decreases t
    {
      outcome := Reply(Ok, false, ctx);
      if atn == null {
        return;
      }
      assert allocated(Nodes(t.right));
      VisitConcat(InOrder(t.left) + [atn.data], InOrder(t.right), callback, ctx);
      VisitConcat(InOrder(t.left), [atn.data], callback, ctx);
      if atn.left != null {
        outcome := IterateFrom(atn.left, callback, ctx, t.left);
        if outcome.err != Ok || outcome.stop {
          return;
        }
      }
      outcome := callback(atn.data, outcome.ctx);
      if outcome.err != Ok {
        return Reply(outcome.err, true, outcome.ctx);
      }
      if outcome.stop {
        return;
      }
      if atn.right != null {
        outcome := IterateFrom(atn.right, callback, outcome.ctx, t.right);
      }
    }

    /** Iteration calls the callback on the items in ascending order, until it fails or asks to stop. */
    method Iterate<S>(callback: (T, S) -> Reply<S>, ctx: S) returns (outcome: Reply<S>)
      requires Valid()
      ensures CalledInTurn(InOrder(shape), callback, ctx, Contexts(InOrder(shape), callback, ctx), outcome)
    {
      outcome := IterateFrom(root, callback, ctx, shape);
      VisitInTurn(InOrder(shape), callback, ctx);
    }
  }
}
