/** Page blocks as maps from start address to page count, and what it means for such
    blocks to fill a region exactly. */
module VirtualSpace {
  import opened Machine

  type Blocks = map<nat, nat>

  /** Byte `p` lies in the block at `a`. */
  ghost predicate Covers(m: Blocks, a: nat, p: int)
  {
    a in m && a <= p < a + PAGE * m[a]
  }

  /** Byte `p` lies in one of the blocks. */
  ghost predicate Holds(m: Blocks, p: int)
  {
    exists a: nat :: Covers(m, a, p)
  }

  /** Non-empty blocks inside `[lo, hi)`, a whole number of pages from `lo`, none overlapping. */
  ghost predicate Apart(m: Blocks, lo: nat, hi: nat)
  {
    && (forall a :: a in m ==> m[a] > 0 && lo <= a && a + PAGE * m[a] <= hi && (a - lo) % PAGE == 0)
    && (forall a, b :: a in m && b in m && a < b ==> a + PAGE * m[a] <= b)
  }

  /** Every byte of `[lo, hi)` is in exactly one block, free or used. */
  ghost predicate Partition(free: Blocks, used: Blocks, lo: nat, hi: nat)
  {
    && Apart(free, lo, hi) && Apart(used, lo, hi)
    && forall p: int {:trigger Holds(free, p)} {:trigger Holds(used, p)} :: lo <= p < hi ==>
         (Holds(free, p) <==> !Holds(used, p))
  }

  /** Cut the block at `a` after its first `n` pages. */
  function SplitAt(m: Blocks, a: nat, n: nat): Blocks
    requires a in m && 0 < n < m[a]
  {
    m[a := n][a + PAGE * n := m[a] - n]
  }

  /** The cut falls strictly inside a block, so no other block starts there. */
  lemma CutIsFresh(m: Blocks, lo: nat, hi: nat, a: nat, n: nat)
    requires Apart(m, lo, hi) && a in m && 0 < n < m[a]
    ensures a + PAGE * n !in m
  {
  }

  lemma SplitApart(m: Blocks, lo: nat, hi: nat, a: nat, n: nat)
    requires Apart(m, lo, hi) && a in m && 0 < n < m[a]
    ensures Apart(SplitAt(m, a, n), lo, hi)
  {
    var m', c := SplitAt(m, a, n), a + PAGE * n;
    CutIsFresh(m, lo, hi, a, n);
    PagesOn(a - lo, n);
    forall x, y | x in m' && y in m' && x < y ensures x + PAGE * m'[x] <= y {
      assert x == a || x == c || x in m;
      assert y == a || y == c || y in m;
    }
  }

  lemma PagesOn(x: int, n: nat)
    requires x % PAGE == 0
    ensures (x + PAGE * n) % PAGE == 0
  {
  }

  lemma SplitHolds(m: Blocks, lo: nat, hi: nat, a: nat, n: nat, p: int)
    requires Apart(m, lo, hi) && a in m && 0 < n < m[a]
    ensures Holds(SplitAt(m, a, n), p) <==> Holds(m, p)
  {
    var m', c := SplitAt(m, a, n), a + PAGE * n;
    CutIsFresh(m, lo, hi, a, n);
    hide Apart;
    if Holds(m, p) {
      var x: nat :| Covers(m, x, p);
      assert Covers(m', if x != a then x else if p < c then a else c, p);
    }
    if Holds(m', p) {
      var x: nat :| Covers(m', x, p);
      assert Covers(m, if x == c then a else x, p);
    }
  }

  /** Dropping a block uncovers exactly its own bytes. */
  lemma DropHolds(m: Blocks, lo: nat, hi: nat, a: nat, p: int)
    requires Apart(m, lo, hi) && a in m
    ensures Holds(m - {a}, p) <==> Holds(m, p) && !(a <= p < a + PAGE * m[a])
  {
    var m' := m - {a};
    if Holds(m', p) {
      var x: nat :| Covers(m', x, p);
      assert Covers(m, x, p);
    }
    if Holds(m, p) && !(a <= p < a + PAGE * m[a]) {
      var x: nat :| Covers(m, x, p);
      assert Covers(m', x, p);
    }
  }

  lemma DropApart(m: Blocks, lo: nat, hi: nat, a: nat)
    requires Apart(m, lo, hi)
    ensures Apart(m - {a}, lo, hi)
  {
  }

  /** A block over bytes no block holds covers exactly those bytes more. */
  lemma AddBlock(m: Blocks, lo: nat, hi: nat, a: nat, n: nat)
    requires Apart(m, lo, hi) && n > 0 && lo <= a && a + PAGE * n <= hi && (a - lo) % PAGE == 0
    requires forall p: int {:trigger Holds(m, p)} :: a <= p < a + PAGE * n ==> !Holds(m, p)
    ensures a !in m && Apart(m[a := n], lo, hi)
    ensures forall p: int :: Holds(m[a := n], p) <==> Holds(m, p) || a <= p < a + PAGE * n
  {
    var m' := m[a := n];
    forall x | x in m ensures x + PAGE * m[x] <= a || a + PAGE * n <= x {
      var p := if x < a then a else x;
      assert Covers(m, x, p) ==> Holds(m, p);
    }
    assert a !in m by {
      assert Covers(m, a, a) ==> Holds(m, a);
    }
    forall p: int ensures Holds(m', p) <==> Holds(m, p) || a <= p < a + PAGE * n {
      hide Apart;
      if Holds(m, p) {
        var x: nat :| Covers(m, x, p);
        assert Covers(m', x, p);
      }
      if a <= p < a + PAGE * n {
        assert Covers(m', a, p);
      }
      if Holds(m', p) {
        var x: nat :| Covers(m', x, p);
        assert x != a ==> Covers(m, x, p);
      }
    }
  }

  /** Some one block holds all of `[addr, addr + PAGE * count)`. */
  ghost predicate Contains(m: Blocks, b: nat, addr: nat, count: nat)
  {
    b in m && b <= addr && addr + PAGE * count <= b + PAGE * m[b]
  }

  /** There are pages to take, and one block holds them all. */
  ghost predicate Fits(m: Blocks, addr: nat, count: nat)
  {
    count > 0 && exists b :: Contains(m, b, addr, count)
  }

  /** The bytes held are those held before, less the given pages when `taken`. */
  ghost predicate Cleared(before: Blocks, after: Blocks, taken: bool, addr: nat, count: nat)
  {
    forall p: int :: Holds(after, p) <==> Holds(before, p) && !(taken && addr <= p < addr + PAGE * count)
  }

  lemma NothingCleared(m: Blocks, addr: nat, count: nat)
    ensures Cleared(m, m, false, addr, count)
  {
  }

  lemma FitsAt(m: Blocks, a: nat, count: nat)
    requires a in m && 0 < count <= m[a]
    ensures Fits(m, a, count)
  {
    assert Contains(m, a, a, count);
  }

  /** The whole range is free. */
  lemma ContainedHolds(m: Blocks, b: nat, addr: nat, count: nat, p: int)
    requires Contains(m, b, addr, count) && addr <= p < addr + PAGE * count
    ensures Holds(m, p)
  {
    assert Covers(m, b, p);
  }
}
