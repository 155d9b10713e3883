/** The linked search tree (kernel/src/Data-structures/AVLTree.cpp): nodes that are rotated
    and re-linked in place. */
module AVLTree {
  import opened SearchTree

  class Cell {
    var key: nat
    var value: nat
    var left: Cell?
    var right: Cell?
    var height: nat
    ghost var tree: Tree
    ghost var repr: set<Cell>

    /** `newNode`. */
    constructor (key: nat, value: nat)
      ensures Valid() && fresh(repr) && tree == Node(Leaf, key, value, Leaf)
    {
      this.key, this.value, left, right, height := key, value, null, null, 1;
      tree, repr := Node(Leaf, key, value, Leaf), {this};
    }

    /** A proper tree below this node, with every stored height below it right. */
    ghost predicate Linked()
      reads this, repr
      decreases repr, 0
    {
      && this in repr
      && (left != null ==> left in repr && left.repr < repr && this !in left.repr && left.Valid())
      && (right != null ==> right in repr && right.repr < repr && this !in right.repr && right.Valid())
      && Cells(left) !! Cells(right) && repr == {this} + Cells(left) + Cells(right)
      && tree == Node(TreeOf(left), key, value, TreeOf(right))
    }

    /** And its own stored height is right too. */
    ghost predicate Valid()
      reads this, repr
      decreases repr, 1
    {
      Linked() && height == Height(tree)
    }
  }

  ghost function Cells(c: Cell?): set<Cell>
    reads c
  {
    if c == null then {} else c.repr
  }

  ghost function TreeOf(c: Cell?): Tree
    reads c
  {
    if c == null then Leaf else c.tree
  }

  function StoredHeight(c: Cell?): nat
    reads c
  {
    if c == null then 0 else c.height
  }

  function Balance(c: Cell): int
    reads c, c.left, c.right
  {
    StoredHeight(c.left) - StoredHeight(c.right)
  }

  /** A tree of its own, apart from the given cells. */
  ghost predicate Subtree(c: Cell?, others: set<Cell>)
    reads c, Cells(c)
  {
    c != null ==> c.Valid() && c.repr !! others && c.tree.Node? && c in c.repr
  }

  ghost predicate Children(c: Cell)
    reads c, c.left, Cells(c.left), c.right, Cells(c.right)
  {
    Subtree(c.left, {c}) && Subtree(c.right, {c}) && Cells(c.left) !! Cells(c.right)
  }

  /** Recompute the stored height of a node from its children. */
  method Update(c: Cell)
    requires Children(c)
    modifies c`height, c`tree, c`repr
    ensures c.Valid() && c.tree == Node(TreeOf(c.left), c.key, c.value, TreeOf(c.right))
    ensures c.repr == {c} + Cells(c.left) + Cells(c.right)
  {
    c.height := 1 + Max(StoredHeight(c.left), StoredHeight(c.right));
    c.tree := Node(TreeOf(c.left), c.key, c.value, TreeOf(c.right));
    c.repr := {c} + Cells(c.left) + Cells(c.right);
  }

  lemma Unfold(c: Cell)
    requires c.Linked()
    ensures Children(c) && c.repr == {c} + Cells(c.left) + Cells(c.right)
    ensures c.tree == Node(TreeOf(c.left), c.key, c.value, TreeOf(c.right))
  {
    Proper(c.left);
    Proper(c.right);
  }

  lemma Proper(c: Cell?)
    requires c != null ==> c.Valid()
    ensures c != null ==>
              c in c.repr && c.tree.Node? && c.height == Height(c.tree)
              && c.tree.key == c.key && c.tree.value == c.value
  {
  }

  method RightRotate(root: Cell) returns (x: Cell)
    requires root.Linked() && root.tree.left.Node? && root.left != null
    modifies root, root.left
    ensures x.Valid() && x.tree == RotateRight(old(root.tree)) && x.repr == old(root.repr)
  {
    hide Cell.Linked;
    Unfold(root);
    x := root.left;
    Unfold(x);
    var t2 := x.right;
    x.right := root;
    root.left := t2;
    Update(root);
    Update(x);
  }

  method LeftRotate(root: Cell) returns (y: Cell)
    requires root.Linked() && root.tree.right.Node? && root.right != null
    modifies root, root.right
    ensures y.Valid() && y.tree == RotateLeft(old(root.tree)) && y.repr == old(root.repr)
  {
    hide Cell.Linked;
    Unfold(root);
    y := root.right;
    Unfold(y);
    var t2 := y.left;
    y.left := root;
    root.right := t2;
    Update(root);
    Update(y);
  }

  lemma Fold(c: Cell)
    requires Children(c) && c.repr == {c} + Cells(c.left) + Cells(c.right)
    requires c.tree == Node(TreeOf(c.left), c.key, c.value, TreeOf(c.right))
    ensures c.Linked()
  {
  }

  /** The left-right case: the left child is rotated first, and for a moment the stored height
      of the root is stale. */
  method LeftRightRotate(root: Cell) returns (r: Cell)
    requires root.Linked() && root.left != null && root.tree.left.Node? && root.tree.left.right.Node?
    modifies root, Cells(root.left)
    ensures r.Valid() && r.repr == old(root.repr)
    ensures r.tree == RotateRight(old(root.tree).(left := RotateLeft(old(root.tree).left)))
  {
    hide Cell.Linked;
    Unfold(root);
    Unfold(root.left);
    root.left := LeftRotate(root.left);
    root.tree := Node(TreeOf(root.left), root.key, root.value, TreeOf(root.right));
    Proper(root.left);
    Fold(root);
    r := RightRotate(root);
  }

  /** Recompute the height of a node below which `key` was inserted, and rotate.  The
      left-right case follows the left child's right link without looking: `fault` when it is null. */
  method Restore(root: Cell, key: nat) returns (r: Cell, fault: bool)
    requires Children(root)
    modifies {root} + Cells(root.left) + Cells(root.right)
    ensures fault <==> Missing(old(Node(TreeOf(root.left), root.key, root.value, TreeOf(root.right))), key)
    ensures !fault ==> r.Valid() && r.repr == {root} + old(Cells(root.left)) + old(Cells(root.right))
    ensures !fault ==> r.tree == Rebalance(old(Node(TreeOf(root.left), root.key, root.value, TreeOf(root.right))), key)
  {
    hide Cell.Linked;
    Proper(root.left);
    Proper(root.right);
    Update(root);
    var balance := Balance(root);
    r, fault := root, false;
    if balance > 1 && key < root.left.key {
      r := RightRotate(root);
    } else if balance < -1 && key > root.right.key {
      r := LeftRotate(root);
    } else if balance > 1 && key > root.left.key {
      Unfold(root.left);
      if root.left.right == null {
        return root, true;
      }
      r := LeftRightRotate(root);
    } else if balance < -1 && key < root.right.key {
      r := LeftRotate(root);
    }
  }

  /** Insert a binding; the returned node takes the place of `root`. */
  method Insert(root: Cell?, key: nat, value: nat) returns (r: Cell, fault: bool)
    requires root != null ==> root.Valid() && Sorted(root.tree)
    modifies if root == null then {} else root.repr
    ensures fault <==> !Safe(old(TreeOf(root)), key, value)
    ensures !fault ==> r.Valid() && r.tree == SearchTree.Insert(old(TreeOf(root)), key, value)
    ensures !fault ==> fresh(r.repr - old(Cells(root)))
    decreases Cells(root)
  {
    hide Cell.Linked, Rebalance, Sorted, Missing;
    if root == null {
      r := new Cell(key, value);
      return r, false;
    }
    Unfold(root);
    SortedParts(root.tree);
    ghost var t := root.tree;
    if key < root.key {
      root.left, fault := Insert(root.left, key, value);
      if fault {
        return root, true;
      }
      InsertFacts(t, key, value);
      Proper(root.left);
    } else if key > root.key {
      root.right, fault := Insert(root.right, key, value);
      if fault {
        return root, true;
      }
      Proper(root.right);
    } else {
      return root, false;
    }
    r, fault := Restore(root, key);
  }

  /** On the way down to the left the grandchild of the left-right case is there. */
  lemma InsertFacts(t: Tree, key: nat, value: nat)
    requires t.Node? && Sorted(t.left)
    ensures !Missing(t.(left := SearchTree.Insert(t.left, key, value)), key)
  {
    var u := SearchTree.Insert(t.left, key, value);
    InsertSorted(t.left, key, value);
    InsertHasKey(t.left, key, value);
    if key > u.key {
      GrandchildThere(u, key);
    }
  }

  method FindNode(root: Cell?, key: nat) returns (r: Cell?)
    requires root != null ==> root.Valid() && Sorted(root.tree)
    ensures r == null <==> !HasKey(TreeOf(root), key)
    ensures r != null ==> r in Cells(root) && r.key == key && Has(TreeOf(root), key, r.value)
    decreases Cells(root)
  {
    hide Cell.Linked;
    if root == null {
      return null;
    }
    Unfold(root);
    BothSides(root.tree, key);
    if root.key == key {
      return root;
    } else if root.right != null && root.key < key {
      r := FindNode(root.right, key);
    } else if root.left != null && root.key > key {
      r := FindNode(root.left, key);
    } else {
      return null;
    }
  }

  /** The node with the least key not below `key`, or nothing when every key is below it. */
  method FindNodeOrHigher(root: Cell?, key: nat) returns (r: Cell?)
    requires root != null ==> root.Valid() && Sorted(root.tree)
    ensures r == null ==> NoneFrom(TreeOf(root), key)
    ensures r != null ==>
              r in Cells(root) && r.key >= key && Has(TreeOf(root), r.key, r.value)
              && NoneBetween(TreeOf(root), key, r.key)
    decreases Cells(root)
  {
    hide Cell.Linked, Sorted;
    if root == null {
      return null;
    }
    Unfold(root);
    SortedParts(root.tree);
    var temp := FindNode(root, key);
    if temp != null {
      return temp;
    }
    hide HasKey, NoneFrom, NoneBetween;
    if root.key >= key {
      r := FindNodeOrHigher(root.left, key);
      if r == null {
        LeastFrom(root.tree, key, 0);
        r := root;
      } else {
        HasIsKey(TreeOf(root.left), r.key, r.value);
        LeastFrom(root.tree, key, r.key);
      }
    } else {
      r := FindNodeOrHigher(root.right, key);
      LeastFrom(root.tree, key, if r == null then 0 else r.key);
    }
  }
}
