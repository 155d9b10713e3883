/** When insertion keeps the tree balanced.  Its right-left case uses a single rotation, which
    spoils the balance unless the rotation at the node above happens to repair it. */
module TreeBalance {
  import opened SearchTree

  predicate Balanced(t: Tree)
  {
    t.Node? ==>
      && Balanced(t.left) && Balanced(t.right)
      && Height(t.left) <= Height(t.right) + 1 && Height(t.right) <= Height(t.left) + 1
  }

  /** Balance is not kept: the third insertion of 1, 3, 2 takes the right-left case. */
  lemma BalanceLost()
    ensures Balanced(Insert(Insert(Leaf, 1, 0), 3, 0)) && !Balanced(Insert(Insert(Insert(Leaf, 1, 0), 3, 0), 2, 0))
  {
    var t := Insert(Insert(Leaf, 1, 0), 3, 0);
    assert t == Node(Leaf, 1, 0, Node(Leaf, 3, 0, Leaf));
    assert Insert(t.right, 2, 0) == Node(Node(Leaf, 2, 0, Leaf), 3, 0, Leaf);
    assert Insert(t, 2, 0) == Node(Node(Leaf, 1, 0, Node(Leaf, 2, 0, Leaf)), 3, 0, Leaf);
  }

  /** Inserting `key` meets the right-left case at the root of `t` and nothing amiss below it. */
  predicate RightLeft(t: Tree, key: nat, value: nat)
    decreases t, 0
  {
    && t.Node? && key > t.key && Kept(t.right, key, value)
    && var r := Insert(t.right, key, value); Height(r) > Height(t.left) + 1 && key < r.key
  }

  /** The right-left case does not occur on the way down to `key`, or it occurs just below a
      node where it makes the left side too tall, and is repaired there. */
  predicate Kept(t: Tree, key: nat, value: nat)
    decreases t, 1
  {
    t.Node? && key != t.key ==>
      if key > t.key then Kept(t.right, key, value) && !RightLeft(t, key, value)
      else Kept(t.left, key, value) || (RightLeft(t.left, key, value) && Height(t.left) == Height(t.right) + 1)
  }

  /** A repaired right-left case: 2 into the tree built by 5, 1, 7, 3. */
  lemma BalanceRepaired()
    ensures var t := Insert(Insert(Insert(Insert(Leaf, 5, 0), 1, 0), 7, 0), 3, 0);
            RightLeft(t.left, 2, 0) && Balanced(t) && Balanced(Insert(t, 2, 0))
  {
    var t := Insert(Insert(Insert(Insert(Leaf, 5, 0), 1, 0), 7, 0), 3, 0);
    assert t == Node(Node(Leaf, 1, 0, Node(Leaf, 3, 0, Leaf)), 5, 0, Node(Leaf, 7, 0, Leaf));
    assert Insert(t.left.right, 2, 0) == Node(Node(Leaf, 2, 0, Leaf), 3, 0, Leaf);
    assert Insert(t.left, 2, 0) == Node(Node(Leaf, 1, 0, Node(Leaf, 2, 0, Leaf)), 3, 0, Leaf);
  }

  // ---- Shapes after insertion ----------------------------------------------------------

  /** The side `key` went to is the taller one, by one level. */
  predicate Leans(t: Tree, key: nat)
  {
    && t.Node? && key != t.key
    && if key < t.key then Height(t.left) == Height(t.right) + 1 else Height(t.right) == Height(t.left) + 1
  }

  /** A subtree after insertion: balanced, at most one level taller, and then leaning towards the key. */
  predicate Grown(s: Tree, s': Tree, key: nat)
  {
    && Balanced(s') && Height(s) <= Height(s') <= Height(s) + 1
    && (s.Node? && Height(s') > Height(s) ==> Leans(s', key))
  }

  /** What the right-left case leaves: two balanced sides, the left two levels taller. */
  predicate Tilted(t: Tree, key: nat)
  {
    && t.Node? && key < t.key && Balanced(t.left) && Balanced(t.right)
    && Height(t.left) + 1 == Height(t) == Height(t.right) + 3
  }

  /** Out of balance in a way that no rotation of `t` into another place repairs. */
  predicate Stuck(t: Tree)
  {
    t.Node? && (!Balanced(t.left) || !Balanced(t.right) || Height(t.right) + 3 <= Height(t))
  }

  /** One level taller, and out of balance for good. */
  predicate Spoiled(t: Tree, key: nat)
  {
    && t.Node?
    && (|| (key < t.key && Height(t.right) + 2 <= Height(t) && !Balanced(t.left))
        || (key > t.key && Height(t.left) + 2 <= Height(t) && Stuck(t.right))
        || (key < t.key && Height(t.right) + 4 <= Height(t)))
  }

  /** The result of an insertion that does not keep the balance. */
  predicate Lost(s: Tree, s': Tree, key: nat, rightLeft: bool)
  {
    && !Balanced(s')
    && if rightLeft then Height(s') == Height(s) + 1 && Tilted(s', key)
       else Height(s') == Height(s) || (Height(s') == Height(s) + 1 && Spoiled(s', key))
  }

  /** Insertion into a balanced tree keeps the balance exactly when `Kept` says so. */
  lemma BalancedExactly(t: Tree, key: nat, value: nat)
    requires Sorted(t) && Balanced(t)
    ensures Balanced(Insert(t, key, value)) <==> Kept(t, key, value)
  {
    Outcome(t, key, value);
  }

  lemma {:induction false} Outcome(t: Tree, key: nat, value: nat)
    requires Sorted(t) && Balanced(t)
    ensures var t' := Insert(t, key, value);
            if Kept(t, key, value) then Grown(t, t', key) else Lost(t, t', key, RightLeft(t, key, value))
  {
    hide Rebalance, Sorted, Grown, Lost;
    if t.Leaf? || key == t.key {
      Unchanged(t, key, value);
    } else if key < t.key {
      SortedParts(t);
      Outcome(t.left, key, value);
      InsertSorted(t.left, key, value);
      InsertHasKey(t.left, key, value);
      var l := Insert(t.left, key, value);
      if key > l.key {
        GrandchildThere(l, key);
      }
      if Kept(t.left, key, value) {
        GrownLeft(t, l, key);
      } else {
        LostLeft(t, l, key, RightLeft(t.left, key, value));
      }
    } else {
      SortedParts(t);
      Outcome(t.right, key, value);
      var r := Insert(t.right, key, value);
      if !Kept(t.right, key, value) {
        LostRight(t, r, key, RightLeft(t.right, key, value));
      } else if RightLeft(t, key, value) {
        LostHere(t, r, key);
      } else {
        GrownRight(t, r, key);
      }
    }
  }

  lemma Unchanged(t: Tree, key: nat, value: nat)
    requires Balanced(t) && (t.Leaf? || key == t.key)
    ensures Grown(t, Insert(t, key, value), key)
  {
  }

  lemma GrownLeft(t: Tree, l: Tree, key: nat)
    requires t.Node? && Balanced(t) && Grown(t.left, l, key) && key < t.key && l.Node?
             && (key > l.key ==> l.right.Node?)
    ensures Grown(t, Rebalance(t.(left := l), key), key)
  {
    if Height(l) > Height(t.right) + 1 {
      TallLeft(t, l, key);
      hide Rebalance;
    } else {
      assert Rebalance(t.(left := l), key) == t.(left := l);
    }
  }

  lemma TallLeft(t: Tree, l: Tree, key: nat)
    requires t.Node? && Balanced(t.right) && Balanced(l) && Leans(l, key) && (key > l.key ==> l.right.Node?)
    requires Height(l) == Height(t.right) + 2
    ensures Balanced(Rebalance(t.(left := l), key)) && Height(Rebalance(t.(left := l), key)) == Height(t.right) + 2
  {
    var u := t.(left := l);
    if key > l.key {
      Doubled(l, t);
      assert Rebalance(u, key) == RotateRight(t.(left := RotateLeft(l)));
    } else {
      assert Rebalance(u, key) == RotateRight(u);
      assert Height(RotateRight(u).right) == Height(t.right) + 1;
    }
  }

  lemma Doubled(l: Tree, t: Tree)
    requires t.Node? && l.Node? && l.right.Node? && Balanced(l) && Balanced(t.right)
    requires Height(l.left) == Height(t.right) && Height(l.right) == Height(t.right) + 1
    ensures var u := RotateRight(t.(left := RotateLeft(l))); Balanced(u) && Height(u) == Height(t.right) + 2
  {
    var m := l.right;
    var x, y := Node(l.left, l.key, l.value, m.left), Node(m.right, t.key, t.value, t.right);
    assert RotateRight(t.(left := RotateLeft(l))) == Node(x, m.key, m.value, y);
    assert Height(x) == Height(t.right) + 1 && Height(y) == Height(t.right) + 1;
    assert Balanced(x) && Balanced(y);
  }

  lemma GrownRight(t: Tree, r: Tree, key: nat)
    requires t.Node? && Balanced(t) && Grown(t.right, r, key) && key > t.key && r.Node?
    requires !(Height(r) > Height(t.left) + 1 && key < r.key)
    ensures Grown(t, Rebalance(t.(right := r), key), key)
  {
    if Height(r) > Height(t.left) + 1 {
      assert Leans(r, key);
    }
  }

  lemma LostHere(t: Tree, r: Tree, key: nat)
    requires t.Node? && Balanced(t) && Grown(t.right, r, key) && r.Node? && t.key < key < r.key
    requires Height(r) > Height(t.left) + 1
    ensures Lost(t, Rebalance(t.(right := r), key), key, true)
  {
    assert Leans(r, key);
    assert Rebalance(t.(right := r), key) == RotateLeft(t.(right := r));
  }

  /** On the right nothing repairs a lost balance. */
  lemma LostRight(t: Tree, r: Tree, key: nat, rightLeft: bool)
    requires t.Node? && Balanced(t) && key > t.key && r.Node? && Lost(t.right, r, key, rightLeft)
    ensures Lost(t, Rebalance(t.(right := r), key), key, false)
  {
    var u := t.(right := r);
    if Height(r) > Height(t.left) + 1 {
      assert Rebalance(u, key) == RotateLeft(u);
    } else {
      assert Rebalance(u, key) == u;
    }
  }

  /** On the left only the right-left case is repaired, and only where the left was the taller side. */
  lemma LostLeft(t: Tree, l: Tree, key: nat, rightLeft: bool)
    requires t.Node? && Balanced(t) && key < t.key && l.Node? && Lost(t.left, l, key, rightLeft)
    requires key > l.key ==> l.right.Node?
    ensures var t' := Rebalance(t.(left := l), key);
            if rightLeft && Height(t.left) == Height(t.right) + 1 then Grown(t, t', key) else Lost(t, t', key, false)
  {
    var u := t.(left := l);
    if Height(l) <= Height(t.right) + 1 {
      assert Rebalance(u, key) == u;
    } else if key < l.key {
      assert Rebalance(u, key) == RotateRight(u);
    } else {
      assert Rebalance(u, key) == RotateRight(t.(left := RotateLeft(l)));
    }
  }

  /** In a balanced tree no rotation misses a grandchild. */
  lemma {:induction false} BalancedSafe(t: Tree, key: nat, value: nat)
    requires Sorted(t) && Balanced(t)
    ensures Safe(t, key, value)
  {
    if t.Node? && key < t.key {
      BalancedSafe(t.left, key, value);
    } else if t.Node? && key > t.key {
      Outcome(t.right, key, value);
      BalancedSafe(t.right, key, value);
    }
  }

  /** A tree that six insertions build, and what three more make of it. */
  const SIX := Node(Node(Node(Leaf, 1, 0, Leaf), 2, 0, Node(Leaf, 3, 0, Leaf)), 7, 0,
      Node(Leaf, 8, 0, Node(Leaf, 9, 0, Leaf)))

  const NINE := Node(Node(Node(Node(Leaf, 1, 0, Leaf), 2, 0, Node(Leaf, 3, 0, Node(Leaf, 4, 0, Leaf))), 5, 0, Leaf),
      6, 0, Node(Leaf, 7, 0, Node(Leaf, 8, 0, Node(Leaf, 9, 0, Leaf))))

  lemma FirstSix()
    ensures Insert(Insert(Insert(Insert(Insert(Insert(Leaf, 9, 0), 8, 0), 7, 0), 2, 0), 1, 0), 3, 0) == SIX
  {
    var three := Insert(Insert(Insert(Leaf, 9, 0), 8, 0), 7, 0);
    assert three == Node(Node(Leaf, 7, 0, Leaf), 8, 0, Node(Leaf, 9, 0, Leaf));
    var five := Insert(Insert(three, 2, 0), 1, 0);
    assert five == Node(Node(Node(Leaf, 1, 0, Leaf), 2, 0, Node(Leaf, 7, 0, Leaf)), 8, 0, Node(Leaf, 9, 0, Leaf));
  }

  lemma NextThree()
    ensures Insert(Insert(Insert(SIX, 6, 0), 5, 0), 4, 0) == NINE
  {
    assert Insert(SIX, 6, 0)
      == Node(Node(Node(Leaf, 1, 0, Leaf), 2, 0, Node(Leaf, 3, 0, Node(Leaf, 6, 0, Leaf))), 7, 0,
              Node(Leaf, 8, 0, Node(Leaf, 9, 0, Leaf)));
    assert Insert(Insert(SIX, 6, 0), 5, 0)
      == Node(Node(Node(Leaf, 1, 0, Leaf), 2, 0, Node(Leaf, 3, 0, Node(Leaf, 5, 0, Leaf))), 6, 0,
              Node(Leaf, 7, 0, Node(Leaf, 8, 0, Node(Leaf, 9, 0, Leaf))));
  }

  lemma NineUnsafe()
    ensures !Safe(NINE, 9, 0)
  {
  }

  /** Nine insertions into an empty tree reach one in which a tenth rotates a missing node. */
  lemma GrandchildMissed()
    ensures var six := Insert(Insert(Insert(Insert(Insert(Insert(Leaf, 9, 0), 8, 0), 7, 0), 2, 0), 1, 0), 3, 0);
            !Safe(Insert(Insert(Insert(six, 6, 0), 5, 0), 4, 0), 9, 0)
  {
    hide Insert, Safe;
    FirstSix();
    NextThree();
    NineUnsafe();
  }
}
