/** The search tree behind the kernel's size and address indexes, as a value. */
module SearchTree {
  datatype Tree = Leaf | Node(left: Tree, key: nat, value: nat, right: Tree)

  function Max(a: nat, b: nat): nat
  {
    if a > b then a else b
  }

  function Height(t: Tree): nat
  {
    if t.Leaf? then 0 else 1 + Max(Height(t.left), Height(t.right))
  }

  function Size(t: Tree): nat
  {
    if t.Leaf? then 0 else Size(t.left) + 1 + Size(t.right)
  }

  predicate Has(t: Tree, k: nat, v: nat)
  {
    t.Node? && ((t.key == k && t.value == v) || Has(t.left, k, v) || Has(t.right, k, v))
  }

  predicate HasKey(t: Tree, k: nat)
  {
    t.Node? && (t.key == k || HasKey(t.left, k) || HasKey(t.right, k))
  }

  predicate Below(t: Tree, k: nat)
  {
    t.Node? ==> t.key < k && Below(t.left, k) && Below(t.right, k)
  }

  predicate Above(t: Tree, k: nat)
  {
    t.Node? ==> t.key > k && Above(t.left, k) && Above(t.right, k)
  }

  predicate Sorted(t: Tree)
  {
    t.Node? ==> Sorted(t.left) && Sorted(t.right) && Below(t.left, t.key) && Above(t.right, t.key)
  }

  function RotateRight(t: Tree): Tree
    requires t.Node? && t.left.Node?
  {
    Node(t.left.left, t.left.key, t.left.value, Node(t.left.right, t.key, t.value, t.right))
  }

  function RotateLeft(t: Tree): Tree
    requires t.Node? && t.right.Node?
  {
    Node(Node(t.left, t.key, t.value, t.right.left), t.right.key, t.right.value, t.right.right)
  }

  /** The rotations after inserting `key` below `t`.  The right-left case uses a single rotation. */
  function Rebalance(t: Tree, key: nat): Tree
    requires t.Node?
  {
    var l, r := t.left, t.right;
    if Height(l) > Height(r) + 1 && key < l.key then RotateRight(t)
    else if Height(r) > Height(l) + 1 && key > r.key then RotateLeft(t)
    else if Height(l) > Height(r) + 1 && key > l.key && l.right.Node? then RotateRight(t.(left := RotateLeft(l)))
    else if Height(r) > Height(l) + 1 && key < r.key then RotateLeft(t)
    else t
  }

  function Insert(t: Tree, key: nat, value: nat): (r: Tree)
    ensures r.Node?
  {
    if t.Leaf? then Node(Leaf, key, value, Leaf)
    else if key < t.key then Rebalance(t.(left := Insert(t.left, key, value)), key)
    else if key > t.key then Rebalance(t.(right := Insert(t.right, key, value)), key)
    else t
  }

  /** No node on the way down to `key` rotates a right grandchild it does not have. */
  predicate Safe(t: Tree, key: nat, value: nat)
  {
    t.Node? ==>
      && (key < t.key ==> Safe(t.left, key, value))
      && (key > t.key ==> Safe(t.right, key, value) && !Missing(t.(right := Insert(t.right, key, value)), key))
  }

  /** The left-right case without the grandchild it rotates. */
  predicate Missing(t: Tree, key: nat)
    requires t.Node?
  {
    t.left.Node? && Height(t.left) > Height(t.right) + 1 && key > t.left.key && t.left.right.Leaf?
  }

  // ---- Order and contents --------------------------------------------------------------

  /** Rotations change neither the bindings nor what bounds them. */
  lemma RebalanceKeeps(t: Tree, key: nat, k: nat, v: nat)
    requires t.Node?
    ensures Has(Rebalance(t, key), k, v) <==> Has(t, k, v)
    ensures HasKey(Rebalance(t, key), k) <==> HasKey(t, k)
    ensures Below(Rebalance(t, key), k) <==> Below(t, k)
    ensures Above(Rebalance(t, key), k) <==> Above(t, k)
    ensures Size(Rebalance(t, key)) == Size(t)
  {
    if t.left.Node? {
      RightKeeps(t, k, v);
      if t.left.right.Node? {
        LeftKeeps(t.left, k, v);
        RightKeeps(t.(left := RotateLeft(t.left)), k, v);
      }
    }
    if t.right.Node? {
      LeftKeeps(t, k, v);
    }
  }

  lemma RightKeeps(t: Tree, k: nat, v: nat)
    requires t.Node? && t.left.Node?
    ensures Has(RotateRight(t), k, v) <==> Has(t, k, v)
    ensures HasKey(RotateRight(t), k) <==> HasKey(t, k)
    ensures Below(RotateRight(t), k) <==> Below(t, k)
    ensures Above(RotateRight(t), k) <==> Above(t, k)
    ensures Size(RotateRight(t)) == Size(t)
  {
  }

  lemma LeftKeeps(t: Tree, k: nat, v: nat)
    requires t.Node? && t.right.Node?
    ensures Has(RotateLeft(t), k, v) <==> Has(t, k, v)
    ensures HasKey(RotateLeft(t), k) <==> HasKey(t, k)
    ensures Below(RotateLeft(t), k) <==> Below(t, k)
    ensures Above(RotateLeft(t), k) <==> Above(t, k)
    ensures Size(RotateLeft(t)) == Size(t)
  {
  }

  /** Insertion adds its binding when the key is new, and nothing else. */
  lemma {:induction false} InsertHas(t: Tree, key: nat, value: nat, k: nat, v: nat)
    requires Sorted(t)
    ensures Has(Insert(t, key, value), k, v) <==> Has(t, k, v) || (k == key && v == value && !HasKey(t, key))
  {
    hide Rebalance;
    if t.Node? && key < t.key {
      AboveLacks(t.right, t.key, key);
      RebalanceKeeps(t.(left := Insert(t.left, key, value)), key, k, v);
      InsertHas(t.left, key, value, k, v);
    } else if t.Node? && key > t.key {
      BelowLacks(t.left, t.key, key);
      RebalanceKeeps(t.(right := Insert(t.right, key, value)), key, k, v);
      InsertHas(t.right, key, value, k, v);
    }
  }

  /** One more node for a new key, none for a key already there. */
  lemma {:induction false} InsertSize(t: Tree, key: nat, value: nat)
    requires Sorted(t)
    ensures Size(Insert(t, key, value)) == if HasKey(t, key) then Size(t) else Size(t) + 1
  {
    hide Rebalance;
    if t.Node? && key < t.key {
      AboveLacks(t.right, t.key, key);
      RebalanceKeeps(t.(left := Insert(t.left, key, value)), key, key, value);
      InsertSize(t.left, key, value);
    } else if t.Node? && key > t.key {
      BelowLacks(t.left, t.key, key);
      RebalanceKeeps(t.(right := Insert(t.right, key, value)), key, key, value);
      InsertSize(t.right, key, value);
    }
  }

  /** Insertion keeps the search order. */
  lemma {:induction false} InsertSorted(t: Tree, key: nat, value: nat)
    requires Sorted(t)
    ensures Sorted(Insert(t, key, value))
  {
    if t.Node? && key < t.key {
      InsertSorted(t.left, key, value);
      InsertBounds(t.left, key, value, t.key);
      RebalanceSorted(t.(left := Insert(t.left, key, value)), key);
    } else if t.Node? && key > t.key {
      InsertSorted(t.right, key, value);
      InsertBounds(t.right, key, value, t.key);
      RebalanceSorted(t.(right := Insert(t.right, key, value)), key);
    }
  }

  lemma {:induction false} InsertBounds(t: Tree, key: nat, value: nat, b: nat)
    ensures Below(t, b) && key < b ==> Below(Insert(t, key, value), b)
    ensures Above(t, b) && key > b ==> Above(Insert(t, key, value), b)
  {
    hide Rebalance;
    if t.Node? && key < t.key {
      RebalanceKeeps(t.(left := Insert(t.left, key, value)), key, b, 0);
      InsertBounds(t.left, key, value, b);
    } else if t.Node? && key > t.key {
      RebalanceKeeps(t.(right := Insert(t.right, key, value)), key, b, 0);
      InsertBounds(t.right, key, value, b);
    }
  }

  lemma RebalanceSorted(t: Tree, key: nat)
    requires t.Node? && Sorted(t)
    ensures Sorted(Rebalance(t, key))
  {
    var l, r := t.left, t.right;
    if l.Node? {
      RotatedRight(t);
      if l.right.Node? {
        RotatedLeft(l);
        LeftKeeps(l, t.key, 0);
        RotatedRight(t.(left := RotateLeft(l)));
      }
    }
    if r.Node? {
      RotatedLeft(t);
    }
  }

  lemma RotatedRight(t: Tree)
    requires t.Node? && t.left.Node? && Sorted(t)
    ensures Sorted(RotateRight(t))
  {
    AboveMore(t.right, t.key, t.left.key);
  }

  lemma RotatedLeft(t: Tree)
    requires t.Node? && t.right.Node? && Sorted(t)
    ensures Sorted(RotateLeft(t))
  {
    BelowMore(t.left, t.key, t.right.key);
  }

  lemma {:induction false} AboveMore(t: Tree, a: nat, b: nat)
    requires Above(t, a) && b <= a
    ensures Above(t, b)
  {
    if t.Node? {
      AboveMore(t.left, a, b);
      AboveMore(t.right, a, b);
    }
  }

  lemma {:induction false} BelowMore(t: Tree, a: nat, b: nat)
    requires Below(t, a) && a <= b
    ensures Below(t, b)
  {
    if t.Node? {
      BelowMore(t.left, a, b);
      BelowMore(t.right, a, b);
    }
  }

  lemma {:induction false} AboveLacks(t: Tree, b: nat, k: nat)
    requires Above(t, b) && k <= b
    ensures !HasKey(t, k)
  {
    if t.Node? {
      AboveLacks(t.left, b, k);
      AboveLacks(t.right, b, k);
    }
  }

  lemma {:induction false} BelowLacks(t: Tree, b: nat, k: nat)
    requires Below(t, b) && b <= k
    ensures !HasKey(t, k)
  {
    if t.Node? {
      BelowLacks(t.left, b, k);
      BelowLacks(t.right, b, k);
    }
  }

  /** After insertion the key is there. */
  lemma {:induction false} InsertHasKey(t: Tree, key: nat, value: nat)
    ensures HasKey(Insert(t, key, value), key)
  {
    hide Rebalance;
    if t.Node? && key < t.key {
      RebalanceKeeps(t.(left := Insert(t.left, key, value)), key, key, value);
      InsertHasKey(t.left, key, value);
    } else if t.Node? && key > t.key {
      RebalanceKeeps(t.(right := Insert(t.right, key, value)), key, key, value);
      InsertHasKey(t.right, key, value);
    }
  }

  /** In the left-right case there is a right grandchild to rotate. */
  lemma GrandchildThere(t: Tree, key: nat)
    requires t.Node? && Sorted(t) && HasKey(t, key) && key > t.key
    ensures t.right.Node?
  {
    BelowLacks(t.left, t.key, key);
  }

  /** A key other than the root's is on its own side only. */
  lemma BothSides(t: Tree, k: nat)
    requires Sorted(t) && t.Node?
    ensures HasKey(t, k) <==> k == t.key || (k < t.key && HasKey(t.left, k)) || (k > t.key && HasKey(t.right, k))
  {
    if k >= t.key { BelowLacks(t.left, t.key, k); }
    if k <= t.key { AboveLacks(t.right, t.key, k); }
  }

  lemma {:induction false} HasIsKey(t: Tree, k: nat, v: nat)
    requires Has(t, k, v)
    ensures HasKey(t, k)
  {
    if Has(t.left, k, v) { HasIsKey(t.left, k, v); }
    if Has(t.right, k, v) { HasIsKey(t.right, k, v); }
  }

  /** Every key is below `q`. */
  ghost predicate NoneFrom(t: Tree, q: nat)
  {
    forall k: nat :: HasKey(t, k) ==> k < q
  }

  /** No key from `q` on is below `b`. */
  ghost predicate NoneBetween(t: Tree, q: nat, b: nat)
  {
    forall k: nat :: HasKey(t, k) && k >= q ==> b <= k
  }

  /** Where the least key not below `q` is. */
  lemma LeastFrom(t: Tree, q: nat, b: nat)
    requires Sorted(t) && t.Node?
    ensures t.key >= q && NoneFrom(t.left, q) ==> NoneBetween(t, q, t.key)
    ensures t.key >= q && NoneBetween(t.left, q, b) && HasKey(t.left, b) ==> NoneBetween(t, q, b)
    ensures t.key < q && NoneFrom(t.right, q) ==> NoneFrom(t, q)
    ensures t.key < q && NoneBetween(t.right, q, b) ==> NoneBetween(t, q, b)
  {
    forall k: nat ensures HasKey(t, k) <==>
        k == t.key || (k < t.key && HasKey(t.left, k)) || (k > t.key && HasKey(t.right, k)) {
      BothSides(t, k);
    }
    BothSides(t, b);
    if HasKey(t.left, b) { assert b < t.key by { if b >= t.key { BelowLacks(t.left, t.key, b); } } }
  }

  lemma SortedParts(t: Tree)
    requires Sorted(t) && t.Node?
    ensures Sorted(t.left) && Sorted(t.right)
  {
  }
}
