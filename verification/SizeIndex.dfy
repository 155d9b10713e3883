/** The free-page index of the virtual page manager: for each block size, the list of the
    addresses of the free blocks of that size.  The tree that holds it is taken at its map
    contract (kernel/src/Data-structures/AVLTree.hpp). */
module SizeIndex {
  import opened Options
  import opened Machine
  import opened Seqs
  import opened VirtualSpace

  type Index = map<nat, seq<nat>>

  ghost predicate Distinct(s: seq<nat>)
  {
    forall i, j :: 0 <= i < j < |s| ==> s[i] != s[j]
  }

  /** The index lists exactly the blocks `m`, each once, under its size. */
  ghost predicate Lists(idx: Index, m: Blocks)
  {
    && (forall k :: k in idx ==> idx[k] != [] && Distinct(idx[k]))
    && (forall k, a :: k in idx && a in idx[k] ==> a in m && m[a] == k)
    && (forall a :: a in m ==> m[a] in idx && a in idx[m[a]])
  }

  /** `findNodeOrHigher`: the least size present that is at least `k`. */
  function Higher(idx: Index, k: nat): (r: Option<nat>)
    ensures r.Some? ==> r.value in idx && r.value >= k && forall x :: x in idx && k <= x ==> r.value <= x
    ensures r.None? ==> forall x :: x in idx ==> x < k
  {
    var above := set x | x in idx && x >= k;
    assert forall x :: x in idx && k <= x ==> x in above;
    if above == {} then None
    else
      LeastExists(above);
      var x :| x in above && forall y :: y in above ==> x <= y;
      Some(x)
  }

  lemma LeastExists(s: set<nat>)
    requires s != {}
    ensures exists x :: x in s && forall y :: y in s ==> x <= y
  {
    var x := Least(s);
  }

  lemma {:induction false} Least(s: set<nat>) returns (x: nat)
    requires s != {}
    ensures x in s && forall y :: y in s ==> x <= y
    decreases |s|
  {
    x :| x in s;
    if s != {x} {
      var m := Least(s - {x});
      assert forall y :: y in s ==> y == x || y in s - {x};
      x := if x <= m then x else m;
    }
  }

  lemma {:induction false} WithoutMembers(s: seq<nat>, a: nat)
    requires Distinct(s)
    ensures Distinct(Without(s, a))
    ensures forall x :: x in Without(s, a) <==> x in s && x != a
  {
    if s != [] {
      assert s == [s[0]] + s[1..];
      assert forall i :: 0 <= i < |s| - 1 ==> s[1..][i] == s[i + 1];
      WithoutMembers(s[1..], a);
      assert s[0] !in s[1..];
      if s[0] != a {
        DistinctCons(s[0], Without(s[1..], a));
      }
    }
  }

  lemma DistinctCons(x: nat, s: seq<nat>)
    requires Distinct(s) && x !in s
    ensures Distinct([x] + s)
  {
  }

  /** Delete the entry for `a` under size `k`; a size with no entries left disappears. */
  function Delete(idx: Index, k: nat, a: nat): Index
    requires k in idx
  {
    if Without(idx[k], a) == [] then idx - {k} else idx[k := Without(idx[k], a)]
  }

  /** Append an entry for `a` under size `k`. */
  function Insert(idx: Index, k: nat, a: nat): Index
  {
    idx[k := (if k in idx then idx[k] else []) + [a]]
  }

  /** Blocks of one size are served in the order in which they became free: a new entry goes behind
      the others, and taking one out leaves the order of the rest. */
  lemma OldestFirst(idx: Index, k: nat, a: nat, i: nat, j: nat)
    requires k in idx && Distinct(idx[k]) && i < j < |idx[k]|
    ensures var s := Insert(idx, k, a)[k]; s[|s| - 1] == a && s[i] == idx[k][i] && s[j] == idx[k][j]
    ensures idx[k][i] != a && idx[k][j] != a ==>
              && k in Delete(idx, k, a)
              && Before(Delete(idx, k, a)[k], idx[k][i], idx[k][j])
  {
    if idx[k][i] != a && idx[k][j] != a {
      WithoutOrder(idx[k], a, i, j);
    }
  }

  ghost predicate Before(s: seq<nat>, x: nat, y: nat)
  {
    exists i, j :: 0 <= i < j < |s| && s[i] == x && s[j] == y
  }

  lemma {:induction false} WithoutOrder(s: seq<nat>, a: nat, i: nat, j: nat)
    requires i < j < |s| && s[i] != a && s[j] != a
    ensures Before(Without(s, a), s[i], s[j])
    decreases |s|
  {
    var r := Without(s, a);
    if s[0] == a {
      assert r[i - 1] == s[i] && r[j - 1] == s[j];
    } else if i > 0 {
      WithoutOrder(s[1..], a, i - 1, j - 1);
      var x, y :| 0 <= x < y < |r| - 1 && r[1..][x] == s[i] && r[1..][y] == s[j];
      assert r[x + 1] == s[i] && r[y + 1] == s[j];
    } else {
      WithoutKeeps(s[1..], a, j - 1);
      var y :| 0 <= y < |r| - 1 && r[1..][y] == s[j];
      assert r[0] == s[0] && r[y + 1] == s[j];
    }
  }

  lemma {:induction false} WithoutKeeps(s: seq<nat>, a: nat, j: nat)
    requires j < |s| && s[j] != a
    ensures s[j] in Without(s, a)
    decreases |s|
  {
    if s[0] != a && j > 0 {
      WithoutKeeps(s[1..], a, j - 1);
    }
  }

  lemma DeleteLists(idx: Index, m: Blocks, a: nat)
    requires Lists(idx, m) && a in m
    ensures Lists(Delete(idx, m[a], a), m - {a})
  {
    WithoutMembers(idx[m[a]], a);
    var idx', m' := Delete(idx, m[a], a), m - {a};
    forall b | b in m' ensures m'[b] in idx' && b in idx'[m'[b]] {
      assert m[b] in idx && b in idx[m[b]];
      if m[b] == m[a] { assert b in Without(idx[m[a]], a); }
    }
  }

  lemma InsertLists(idx: Index, m: Blocks, k: nat, a: nat)
    requires Lists(idx, m) && a !in m
    ensures Lists(Insert(idx, k, a), m[a := k])
  {
    var idx', m' := Insert(idx, k, a), m[a := k];
    forall b | b in m' ensures m'[b] in idx' && b in idx'[m'[b]] {
      assert b != a ==> m[b] in idx && b in idx[m[b]];
    }
  }

  /** `Internal_SplitFreeBlock`: arguments that name no such block are ignored. */
  function SplitFree(idx: Index, a: nat, c: nat, n: nat): Index
  {
    if c <= n || c !in idx || a !in idx[c] then idx
    else Insert(Insert(Delete(idx, c, a), n, a), c - n, a + PAGE * n)
  }

  /** What a split request does to the blocks. */
  function SplitBlocks(m: Blocks, a: nat, c: nat, n: nat): Blocks
  {
    if a in m && m[a] == c && 0 < n < c then SplitAt(m, a, n) else m
  }

  lemma SplitFreeLists(idx: Index, m: Blocks, lo: nat, hi: nat, a: nat, c: nat, n: nat)
    requires Lists(idx, m) && Apart(m, lo, hi) && n > 0
    ensures Lists(SplitFree(idx, a, c, n), SplitBlocks(m, a, c, n))
  {
    ListedIff(idx, m, a, c);
    hide Lists, Delete, Insert, SplitAt;
    if n < c && c in idx && a in idx[c] {
      CutIsFresh(m, lo, hi, a, n);
      SplitListed(idx, m, a, n);
    }
  }

  lemma ListedIff(idx: Index, m: Blocks, a: nat, c: nat)
    requires Lists(idx, m)
    ensures c in idx && a in idx[c] <==> a in m && m[a] == c
  {
  }

  lemma SplitListed(idx: Index, m: Blocks, a: nat, n: nat)
    requires Lists(idx, m) && a in m && 0 < n < m[a] && a + PAGE * n !in m && m[a] in idx
    ensures Lists(Insert(Insert(Delete(idx, m[a], a), n, a), m[a] - n, a + PAGE * n), SplitAt(m, a, n))
  {
    hide Lists, Delete, Insert;
    DeleteLists(idx, m, a);
    InsertLists(Delete(idx, m[a], a), m - {a}, n, a);
    PutAgain(m, a, n);
    InsertLists(Insert(Delete(idx, m[a], a), n, a), m[a := n], m[a] - n, a + PAGE * n);
  }

  lemma PutAgain<K, V>(m: map<K, V>, a: K, v: V)
    ensures (m - {a})[a := v] == m[a := v]
  {
  }

  /** A split request never changes which bytes are free. */
  lemma SplitBlocksSame(m: Blocks, lo: nat, hi: nat, a: nat, c: nat, n: nat)
    requires Apart(m, lo, hi)
    ensures Apart(SplitBlocks(m, a, c, n), lo, hi)
    ensures forall p: int :: Holds(SplitBlocks(m, a, c, n), p) <==> Holds(m, p)
  {
    if a in m && m[a] == c && 0 < n < c {
      SplitApart(m, lo, hi, a, n);
      forall p: int ensures Holds(SplitBlocks(m, a, c, n), p) <==> Holds(m, p) {
        SplitHolds(m, lo, hi, a, n, p);
      }
    }
  }
}
