/** The kernel heap seen as tiles: header-plus-payload blocks laid end to end
    over the arena, each free or live.  Allocation and release are stated on
    the tiles alone, with no free list and no addresses to chase; the class in
    `HeapAllocator.dfy` is proved to do exactly this through its headers. */
module HeapTiles {
  import opened Options
  import opened Seqs

  const HEADER: nat := 16

  datatype Tile = Tile(addr: nat, size: nat, free: bool)
  {
    function End(): nat { addr + HEADER + size }
    function Payload(): nat { addr + HEADER }
  }

  /** A free-list entry. */
  datatype Block = Block(addr: nat, size: nat)
  {
    function End(): nat { addr + HEADER + size }
  }

  // ---------------------------------------------------------------- invariant

  /** The tiles follow one another without gap or overlap. */
  ghost predicate Abut(ts: seq<Tile>)
  {
    forall i, j {:trigger ts[i], ts[j]} :: 0 <= i < |ts| && j == i + 1 < |ts| ==> ts[j].addr == ts[i].End()
  }

  predicate Is16(x: nat)
  {
    x % 16 == 0
  }

  lemma Is16Add(x: nat, y: nat)
    requires Is16(x)
    ensures Is16(y) <==> Is16(x + HEADER + y)
  {
  }

  ghost predicate Aligned(ts: seq<Tile>)
  {
    forall i :: 0 <= i < |ts| ==> Is16(ts[i].addr) && Is16(ts[i].size)
  }

  ghost predicate NoFreeNeighbours(ts: seq<Tile>)
  {
    forall i, j {:trigger ts[i], ts[j]} :: 0 <= i < |ts| && j == i + 1 < |ts| ==> !(ts[i].free && ts[j].free)
  }

  /** The arena `[lo, hi)` is tiled and fully coalesced. */
  ghost predicate Tiled(ts: seq<Tile>, lo: nat, hi: nat)
  {
    && ts != [] && ts[0].addr == lo && ts[|ts| - 1].End() == hi
    && Abut(ts) && Aligned(ts) && NoFreeNeighbours(ts)
  }

  lemma {:induction false} TilesOrdered(ts: seq<Tile>, i: nat, j: nat)
    requires Abut(ts) && i < j < |ts|
    ensures ts[i].End() <= ts[j].addr
    decreases j
  {
    if i + 1 < j {
      TilesOrdered(ts, i, j - 1);
    }
  }

  lemma DistinctAddresses(ts: seq<Tile>, i: nat, j: nat)
    requires Abut(ts) && i < |ts| && j < |ts|
    ensures i != j ==> ts[i].addr != ts[j].addr
  {
    if i < j { TilesOrdered(ts, i, j); } else if j < i { TilesOrdered(ts, j, i); }
  }

  // --------------------------------------------------------------- operations

  /** First fit: the lowest-addressed free tile of at least `n` bytes, or `|ts|`. */
  function FirstFit(ts: seq<Tile>, n: nat): (i: nat)
    ensures i <= |ts|
    ensures i < |ts| ==> ts[i].free && ts[i].size >= n
    ensures forall j :: 0 <= j < i ==> !(ts[j].free && ts[j].size >= n)
  {
    if ts == [] then 0
    else if ts[0].free && ts[0].size >= n then 0
    else
      var k := FirstFit(ts[1..], n);
      assert forall j :: 1 <= j < k + 1 ==> ts[j] == ts[1..][j - 1];
      k + 1
  }

  /** A tile is split only when more than a bare header would be left over. */
  predicate Splits(t: Tile, n: nat)
  {
    t.size > n + HEADER
  }

  /** Hand out the first `n` bytes of free tile `i`. */
  function AllocAt(ts: seq<Tile>, i: nat, n: nat): (us: seq<Tile>)
    requires i < |ts| && ts[i].free && ts[i].size >= n
    ensures |ts| <= |us|
  {
    var t := ts[i];
    if Splits(t, n) then
      ts[..i] + [Tile(t.addr, n, false), Tile(t.addr + HEADER + n, t.size - n - HEADER, true)] + ts[i + 1..]
    else
      ts[i := t.(free := false)]
  }

  /** The outcome of asking for `n` bytes: the tiles afterwards and the payload handed out.
      Nothing asked for, or no tile large enough, changes nothing and yields null. */
  function Granted(ts: seq<Tile>, request: Option<nat>): (seq<Tile>, nat)
  {
    if request.None? then (ts, 0)
    else
      var i := FirstFit(ts, request.value);
      if i == |ts| then (ts, 0) else (AllocAt(ts, i, request.value), ts[i].Payload())
  }

  /** Tile `i` is the lowest free one of at least `n` bytes. */
  ghost predicate Lowest(ts: seq<Tile>, n: nat, i: int)
  {
    && 0 <= i < |ts| && ts[i].free && ts[i].size >= n
    && forall j :: 0 <= j < i ==> !(ts[j].free && ts[j].size >= n)
  }

  /** No free tile holds `n` bytes. */
  ghost predicate NoRoom(ts: seq<Tile>, n: nat)
  {
    forall i :: 0 <= i < |ts| ==> !(ts[i].free && ts[i].size >= n)
  }

  /** What asking for `n` bytes means: null, and nothing changed, exactly when no free tile holds
      them; else the payload of the lowest that does.  Of that tile all but a free remainder is
      live, and there is a remainder exactly when more than a header is left over. */
  ghost predicate Serves(ts: seq<Tile>, n: nat, us: seq<Tile>, ptr: nat)
  {
    && (ptr == 0 <==> NoRoom(ts, n))
    && (ptr == 0 ==> us == ts)
    && forall i :: Lowest(ts, n, i) ==>
         && ptr == ts[i].addr + 16
         && i < |us| && us[..i] == ts[..i] && us[i].addr == ts[i].addr && !us[i].free
         && if ts[i].size <= n + 16 then us[i].size == ts[i].size && us[i + 1..] == ts[i + 1..]
            else
              && us[i].size == n && i + 1 < |us| && us[i + 1].free && us[i + 1].addr == us[i].End()
              && us[i + 1].End() == ts[i].End() && us[i + 2..] == ts[i + 1..]
  }

  /** A request is granted exactly when it can be. */
  lemma GrantedExactly(ts: seq<Tile>, n: nat)
    ensures Serves(ts, n, Granted(ts, Some(n)).0, Granted(ts, Some(n)).1)
    ensures Granted(ts, None) == (ts, 0)
  {
    var k := FirstFit(ts, n);
    forall i | Lowest(ts, n, i) ensures i == k {
      assert !(i < k) && !(k < i);
    }
  }

  function Join(a: Tile, b: Tile): Tile
  {
    Tile(a.addr, a.size + HEADER + b.size, true)
  }

  /** Index of the first tile to the right of `i` that a release of `i` does not absorb. */
  function RightOf(ts: seq<Tile>, i: nat): (j: nat)
    requires i < |ts|
    ensures i < j <= |ts|
  {
    if i + 1 < |ts| && ts[i + 1].free then i + 2 else i + 1
  }

  function FreedRight(ts: seq<Tile>, i: nat): Tile
    requires i < |ts|
  {
    if RightOf(ts, i) == i + 2 then Join(ts[i], ts[i + 1]) else ts[i].(free := true)
  }

  /** Index of the leftmost tile that a release of `i` absorbs. */
  function LeftOf(ts: seq<Tile>, i: nat): (k: nat)
    requires i < |ts|
    ensures k <= i <= k + 1
  {
    if i > 0 && ts[i - 1].free then i - 1 else i
  }

  /** The free tile that takes the place of `i` and of the neighbours it absorbs. */
  function Freed(ts: seq<Tile>, i: nat): (t: Tile)
    requires i < |ts|
    ensures t.free
  {
    if LeftOf(ts, i) < i then Join(ts[i - 1], FreedRight(ts, i)) else FreedRight(ts, i)
  }

  /** Release tile `i`, absorbing a free neighbour on either side. */
  function FreeAt(ts: seq<Tile>, i: nat): seq<Tile>
    requires i < |ts|
  {
    ts[..LeftOf(ts, i)] + [Freed(ts, i)] + ts[RightOf(ts, i)..]
  }

  /** A run of tiles is well formed when its two halves are and they meet. */
  lemma Glue(xs: seq<Tile>, ys: seq<Tile>)
    requires xs != [] && ys != []
    ensures Sound(xs + ys) <==> Sound(xs) && Sound(ys) && Meets(xs[|xs| - 1], ys[0])
  {
    var ts := xs + ys;
    if Sound(ts) {
      assert forall i :: 0 <= i < |xs| ==> xs[i] == ts[i];
      assert forall i {:trigger ys[i]} :: 0 <= i < |ys| ==> ys[i] == ts[|xs| + i];
      assert xs[|xs| - 1] == ts[|xs| - 1] && ys[0] == ts[|xs|];
    }
  }

  ghost predicate Meets(a: Tile, b: Tile)
  {
    b.addr == a.End() && !(a.free && b.free)
  }

  ghost predicate Sound(ts: seq<Tile>)
  {
    Abut(ts) && Aligned(ts) && NoFreeNeighbours(ts)
  }

  /** Replacing a stretch of tiles by one that spans the same bytes keeps the arena
      tiled, provided no free tile ends up beside a free neighbour. */
  lemma Splice(xs: seq<Tile>, old_: seq<Tile>, new_: seq<Tile>, ys: seq<Tile>, lo: nat, hi: nat)
    requires Tiled(xs + old_ + ys, lo, hi)
    requires old_ != [] && new_ != [] && Sound(new_)
    requires new_[0].addr == old_[0].addr && new_[|new_| - 1].End() == old_[|old_| - 1].End()
    requires xs != [] ==> !(xs[|xs| - 1].free && new_[0].free)
    requires ys != [] ==> !(new_[|new_| - 1].free && ys[0].free)
    ensures Tiled(xs + new_ + ys, lo, hi)
  {
    if ys == [] {
      assert xs + old_ + ys == xs + old_ && xs + new_ + ys == xs + new_;
    } else {
      Glue(xs + old_, ys);
      Glue(xs + new_, ys);
    }
    if xs == [] {
      assert xs + old_ == old_ && xs + new_ == new_;
    } else {
      Glue(xs, old_);
      Glue(xs, new_);
    }
  }

  /** What the invariant says of tile `i` and its neighbours. */
  lemma Neighbours(ts: seq<Tile>, lo: nat, hi: nat, i: nat)
    requires Tiled(ts, lo, hi) && i < |ts|
    ensures Is16(ts[i].addr) && Is16(ts[i].size)
    ensures i > 0 ==> Meets(ts[i - 1], ts[i])
    ensures i + 1 < |ts| ==> Meets(ts[i], ts[i + 1])
  {
    hide Is16;
  }

  lemma SoundOne(t: Tile)
    requires Is16(t.addr) && Is16(t.size)
    ensures Sound([t])
  {
    hide Is16;
  }

  lemma SoundTwo(t: Tile, u: Tile)
    requires Is16(t.addr) && Is16(t.size) && Is16(u.addr) && Is16(u.size) && Meets(t, u)
    ensures Sound([t, u])
  {
    hide Is16;
  }

  lemma SplitAligned(t: Tile, n: nat)
    requires Is16(t.addr) && Is16(t.size) && Is16(n) && Splits(t, n)
    ensures Is16(t.addr + HEADER + n) && Is16(t.size - n - HEADER)
  {
    Is16Add(t.addr, n);
    Is16Add(n, t.size - n - HEADER);
  }

  lemma AllocKeepsTiling(ts: seq<Tile>, lo: nat, hi: nat, i: nat, n: nat)
    requires Tiled(ts, lo, hi) && Is16(n)
    requires i < |ts| && ts[i].free && ts[i].size >= n
    ensures Tiled(AllocAt(ts, i, n), lo, hi)
  {
    hide Tiled, Sound, Is16, AllocAt;
    var t, mid := ts[i], AllocAt([ts[i]], 0, n);
    AllocParts(ts, i, n);
    Neighbours(ts, lo, hi, i);
    if Splits(t, n) {
      SplitAligned(t, n);
      SoundTwo(mid[0], mid[1]);
    } else {
      SoundOne(mid[0]);
    }
    Splice(ts[..i], [t], mid, ts[i + 1..], lo, hi);
  }

  /** Only tile `i` is touched. */
  lemma AllocParts(ts: seq<Tile>, i: nat, n: nat)
    requires i < |ts| && ts[i].free && ts[i].size >= n
    ensures ts == ts[..i] + [ts[i]] + ts[i + 1..]
    ensures AllocAt(ts, i, n) == ts[..i] + AllocAt([ts[i]], 0, n) + ts[i + 1..]
    ensures var t := ts[i];
            AllocAt([t], 0, n) ==
            if Splits(t, n) then [Tile(t.addr, n, false), Tile(t.addr + HEADER + n, t.size - n - HEADER, true)]
            else [t.(free := false)]
  {
  }

  lemma JoinSpan(a: Tile, b: Tile)
    requires b.addr == a.End() && Is16(a.size) && Is16(b.size)
    ensures Join(a, b).addr == a.addr && Join(a, b).End() == b.End() && Is16(Join(a, b).size)
  {
    Is16Add(a.size, b.size);
  }

  /** The freed tile spans what it absorbs and has no free tile beside it. */
  lemma FreedSpan(ts: seq<Tile>, lo: nat, hi: nat, i: nat)
    requires Tiled(ts, lo, hi) && i < |ts| && !ts[i].free
    ensures var u, k, r := Freed(ts, i), LeftOf(ts, i), RightOf(ts, i);
            && u.free && u.addr == ts[k].addr && u.End() == ts[r - 1].End() && Is16(u.addr) && Is16(u.size)
            && (k > 0 ==> !ts[k - 1].free) && (r < |ts| ==> !ts[r].free)
  {
    hide Tiled, Sound, Is16, Join;
    Neighbours(ts, lo, hi, i);
    if RightOf(ts, i) == i + 2 {
      Neighbours(ts, lo, hi, i + 1);
      JoinSpan(ts[i], ts[i + 1]);
    }
    if LeftOf(ts, i) < i {
      Neighbours(ts, lo, hi, i - 1);
      JoinSpan(ts[i - 1], FreedRight(ts, i));
    }
  }

  lemma FreeKeepsTiling(ts: seq<Tile>, lo: nat, hi: nat, i: nat)
    requires Tiled(ts, lo, hi) && i < |ts| && !ts[i].free
    ensures Tiled(FreeAt(ts, i), lo, hi)
  {
    hide Tiled, Sound, Is16, Freed, LeftOf, RightOf;
    var k, r, u := LeftOf(ts, i), RightOf(ts, i), Freed(ts, i);
    FreedSpan(ts, lo, hi, i);
    CutRange(ts, k, r);
    SoundOne(u);
    Splice(ts[..k], ts[k..r], [u], ts[r..], lo, hi);
  }

  // ----------------------------------------------------------- live addresses

  ghost function Live(ts: seq<Tile>): set<nat>
  {
    set i | 0 <= i < |ts| && !ts[i].free :: ts[i].addr
  }

  lemma AllocLive(ts: seq<Tile>, i: nat, n: nat)
    requires Abut(ts) && i < |ts| && ts[i].free && ts[i].size >= n
    ensures Live(AllocAt(ts, i, n)) == Live(ts) + {ts[i].addr}
    ensures ts[i].addr !in Live(ts)
    ensures AllocAt(ts, i, n)[i] == Tile(ts[i].addr, if Splits(ts[i], n) then n else ts[i].size, false)
  {
    var us := AllocAt(ts, i, n);
    forall j | 0 <= j < |ts| && !ts[j].free ensures ts[j].addr != ts[i].addr && ts[j].addr in Live(us) {
      DistinctAddresses(ts, i, j);
      var m := if j < i || !Splits(ts[i], n) then j else j + 1;
      assert us[m] == ts[j];
    }
    assert us[i].addr in Live(us);
    forall m | 0 <= m < |us| && !us[m].free ensures us[m].addr in Live(ts) + {ts[i].addr} {
      var j := if m < i || !Splits(ts[i], n) then m else m - 1;
      assert m == i || us[m] == ts[j];
    }
  }

  /** A release leaves the other live tiles as they are, sizes included. */
  lemma FreeOthers(ts: seq<Tile>, i: nat)
    requires Abut(ts) && i < |ts| && !ts[i].free
    ensures forall t: Tile :: !t.free ==> (t in FreeAt(ts, i) <==> t in ts && t.addr != ts[i].addr)
  {
    forall t: Tile | !t.free ensures t in FreeAt(ts, i) <==> t in ts && t.addr != ts[i].addr {
      hide Abut, FreeAt;
      if t in FreeAt(ts, i) {
        var j := Remains(ts, i, t);
        DistinctAddresses(ts, i, j);
      }
      if t in ts && t.addr != ts[i].addr {
        Stays(ts, i, t);
      }
    }
  }

  lemma Remains(ts: seq<Tile>, i: nat, t: Tile) returns (j: nat)
    requires i < |ts| && !t.free && t in FreeAt(ts, i)
    ensures j < |ts| && j != i && ts[j] == t
  {
    var us, k := FreeAt(ts, i), LeftOf(ts, i);
    var m :| 0 <= m < |us| && us[m] == t;
    j := if m < k then m else m - k - 1 + RightOf(ts, i);
  }

  lemma Stays(ts: seq<Tile>, i: nat, t: Tile)
    requires i < |ts| && !t.free && t in ts && t.addr != ts[i].addr
    ensures t in FreeAt(ts, i)
  {
    var us, k := FreeAt(ts, i), LeftOf(ts, i);
    var j :| 0 <= j < |ts| && ts[j] == t;
    assert us[if j < k then j else j + k + 1 - RightOf(ts, i)] == t;
  }

  lemma FreeLive(ts: seq<Tile>, i: nat)
    requires Abut(ts) && i < |ts| && !ts[i].free
    ensures Live(FreeAt(ts, i)) == Live(ts) - {ts[i].addr}
    ensures forall t: Tile :: !t.free ==> (t in FreeAt(ts, i) <==> t in ts && t.addr != ts[i].addr)
  {
    FreeOthers(ts, i);
    hide FreeAt, Abut, Live;
    forall a: nat ensures a in Live(FreeAt(ts, i)) <==> a in Live(ts) && a != ts[i].addr {
      LiveHas(ts, a);
      LiveHas(FreeAt(ts, i), a);
    }
  }

  lemma LiveHas(ts: seq<Tile>, a: nat)
    ensures a in Live(ts) <==> exists t :: t in ts && !t.free && t.addr == a
  {
    if a in Live(ts) {
      var i :| 0 <= i < |ts| && !ts[i].free && ts[i].addr == a;
      assert ts[i] in ts;
    }
  }

  /** Position of the tile that starts at `a`. */
  function IndexOf(ts: seq<Tile>, a: nat): (i: nat)
    requires exists j :: 0 <= j < |ts| && ts[j].addr == a
    ensures i < |ts| && ts[i].addr == a
  {
    if ts[0].addr == a then 0
    else
      assert exists j :: 0 <= j < |ts[1..]| && ts[1..][j].addr == a by {
        var j :| 0 <= j < |ts| && ts[j].addr == a;
        assert ts[1..][j - 1].addr == a;
      }
      IndexOf(ts[1..], a) + 1
  }

  lemma LiveIndex(ts: seq<Tile>, a: nat)
    requires Abut(ts) && a in Live(ts)
    ensures exists j :: 0 <= j < |ts| && ts[j].addr == a
    ensures !ts[IndexOf(ts, a)].free
  {
    var j :| 0 <= j < |ts| && !ts[j].free && ts[j].addr == a;
    DistinctAddresses(ts, j, IndexOf(ts, a));
  }

  // ------------------------------------------------------- whole-heap theorems

  /** A live payload never reaches into another tile, header or payload. */
  lemma LivePayloadsDisjoint(ts: seq<Tile>, lo: nat, hi: nat, i: nat, j: nat)
    requires Tiled(ts, lo, hi) && i < j < |ts|
    ensures lo <= ts[i].addr && ts[i].Payload() + ts[i].size <= ts[j].addr < ts[j].Payload()
    ensures ts[j].Payload() + ts[j].size <= hi
    ensures Is16(ts[i].Payload()) && Is16(ts[j].Payload())
  {
    hide Is16, Abut, NoFreeNeighbours;
    TilesOrdered(ts, i, j);
    if i > 0 { TilesOrdered(ts, 0, i); }
    if j + 1 < |ts| { TilesOrdered(ts, j, |ts| - 1); }
    PayloadAligned(ts[i]);
    PayloadAligned(ts[j]);
  }

  lemma PayloadAligned(t: Tile)
    requires Is16(t.addr)
    ensures Is16(t.Payload())
  {
  }

  /** Releasing what was just handed out restores the tiles exactly. */
  lemma AllocThenFree(ts: seq<Tile>, lo: nat, hi: nat, i: nat, n: nat)
    requires Tiled(ts, lo, hi) && i < |ts| && ts[i].free && ts[i].size >= n
    ensures FreeAt(AllocAt(ts, i, n), i) == ts
  {
    var us := AllocAt(ts, i, n);
    assert i > 0 ==> us[i - 1] == ts[i - 1] && !us[i - 1].free;
    if Splits(ts[i], n) {
      assert us[i + 1].free;
      assert us[i + 2..] == ts[i + 1..];
    } else {
      assert i + 1 < |ts| ==> us[i + 1] == ts[i + 1] && !us[i + 1].free;
      assert us[i + 1..] == ts[i + 1..];
    }
  }

  /** With nothing live the coalesced arena is one free tile. */
  lemma NothingLive(ts: seq<Tile>, lo: nat, hi: nat)
    requires Tiled(ts, lo, hi) && Live(ts) == {}
    ensures hi >= lo + HEADER && ts == [Tile(lo, hi - lo - HEADER, true)]
  {
    if |ts| > 1 {
      assert !(ts[0].free && ts[1].free);
    }
    forall i | 0 <= i < |ts| ensures ts[i].free {
      assert ts[i].addr !in Live(ts);
    }
  }

  /** `order` names live tiles, each once. */
  ghost predicate Releasable(ts: seq<Tile>, order: seq<nat>)
  {
    && (forall a :: a in order ==> a in Live(ts))
    && (forall i, j :: 0 <= i < j < |order| ==> order[i] != order[j])
  }

  lemma ReleasableStep(ts: seq<Tile>, lo: nat, hi: nat, order: seq<nat>)
    requires Tiled(ts, lo, hi) && Releasable(ts, order) && order != []
    ensures exists j :: 0 <= j < |ts| && ts[j].addr == order[0]
    ensures var us := FreeAt(ts, IndexOf(ts, order[0]));
            Tiled(us, lo, hi) && Releasable(us, order[1..]) && Live(us) == Live(ts) - {order[0]}
  {
    assert order[0] in order;
    LiveIndex(ts, order[0]);
    FreeKeepsTiling(ts, lo, hi, IndexOf(ts, order[0]));
    FreeLive(ts, IndexOf(ts, order[0]));
  }

  /** Release the tiles at the given addresses, in that order. */
  ghost function FreeAll(ts: seq<Tile>, lo: nat, hi: nat, order: seq<nat>): seq<Tile>
    requires Tiled(ts, lo, hi) && Releasable(ts, order)
    decreases order
  {
    if order == [] then ts
    else
      ReleasableStep(ts, lo, hi, order);
      FreeAll(FreeAt(ts, IndexOf(ts, order[0])), lo, hi, order[1..])
  }

  /** Releasing every live tile, in any order, leaves one free tile over the whole arena. */
  lemma {:induction false} FreeAllCollapses(ts: seq<Tile>, lo: nat, hi: nat, order: seq<nat>)
    requires Tiled(ts, lo, hi) && Releasable(ts, order)
    requires forall a :: a in Live(ts) ==> a in order
    ensures hi >= lo + HEADER && FreeAll(ts, lo, hi, order) == [Tile(lo, hi - lo - HEADER, true)]
    decreases order
  {
    if order == [] {
      NothingLive(ts, lo, hi);
    } else {
      ReleasableStep(ts, lo, hi, order);
      FreeAllCollapses(FreeAt(ts, IndexOf(ts, order[0])), lo, hi, order[1..]);
    }
  }

  // ------------------------------------------------------------ the free list

  /** The free tiles in address order: what the free list must hold. */
  function FreeOf(ts: seq<Tile>): seq<Block>
  {
    if ts == [] then []
    else (if ts[0].free then [Block(ts[0].addr, ts[0].size)] else []) + FreeOf(ts[1..])
  }

  lemma {:induction false} FreeOfConcat(xs: seq<Tile>, ys: seq<Tile>)
    ensures FreeOf(xs + ys) == FreeOf(xs) + FreeOf(ys)
  {
    Parts(xs, ys);
    if xs != [] {
      FreeOfConcat(xs[1..], ys);
    }
  }

  lemma FreeOfOne(t: Tile)
    ensures FreeOf([t]) == if t.free then [Block(t.addr, t.size)] else []
  {
    assert [t][1..] == [];
  }

  /** The free list around tile `i`. */
  lemma FreeOfAround(ts: seq<Tile>, i: nat)
    requires i < |ts|
    ensures FreeOf(ts) == FreeOf(ts[..i]) + FreeOf([ts[i]]) + FreeOf(ts[i + 1..])
  {
    Cut(ts, i);
    FreeOfConcat(ts[..i] + [ts[i]], ts[i + 1..]);
    FreeOfConcat(ts[..i], [ts[i]]);
  }

  ghost predicate Ordered(f: seq<Block>)
  {
    forall i, j :: 0 <= i < j < |f| ==> f[i].End() <= f[j].addr
  }

  /** The entries are exactly the free tiles. */
  lemma {:induction false} FreeOfMember(ts: seq<Tile>, b: Block)
    ensures b in FreeOf(ts) <==> Tile(b.addr, b.size, true) in ts
    decreases |ts|
  {
    if ts != [] {
      FreeOfMember(ts[1..], b);
      DropCons(ts, 0);
      assert ts[0..] == ts;
    }
  }

  /** The entries lie inside the tiles' span, in address order. */
  lemma {:induction false} FreeOfWithin(ts: seq<Tile>, lo: nat, hi: nat)
    requires Abut(ts) && (ts != [] ==> lo <= ts[0].addr && ts[|ts| - 1].End() <= hi)
    ensures Ordered(FreeOf(ts))
    ensures forall b :: b in FreeOf(ts) ==> lo <= b.addr && b.End() <= hi
    decreases |ts|
  {
    if ts != [] {
      if |ts| > 1 { TilesOrdered(ts, 0, |ts| - 1); }
      AbutTail(ts);
      FreeOfWithin(ts[1..], ts[0].End(), hi);
      hide Abut;
      if ts[0].free {
        OrderedCons(Block(ts[0].addr, ts[0].size), FreeOf(ts[1..]));
      } else {
        assert FreeOf(ts) == FreeOf(ts[1..]);
      }
    }
  }

  lemma AbutTail(ts: seq<Tile>)
    requires Abut(ts) && ts != []
    ensures Abut(ts[1..]) && (|ts| > 1 ==> ts[1].addr == ts[0].End())
  {
  }

  lemma OrderedCons(b: Block, f: seq<Block>)
    requires Ordered(f) && forall c :: c in f ==> b.End() <= c.addr
    ensures Ordered([b] + f)
  {
  }

  /** Put `b` between `l` and `r`, absorbing a neighbour that touches it. */
  function Weave(l: seq<Block>, b: Block, r: seq<Block>): seq<Block>
  {
    if r != [] && b.End() == r[0].addr then
      WeaveLeft(l, Block(b.addr, b.size + HEADER + r[0].size)) + r[1..]
    else
      WeaveLeft(l, b) + r
  }

  function WeaveLeft(l: seq<Block>, b: Block): seq<Block>
  {
    if l != [] && l[|l| - 1].End() == b.addr then
      l[..|l| - 1] + [Block(l[|l| - 1].addr, l[|l| - 1].size + HEADER + b.size)]
    else
      l + [b]
  }

  /** The free list just left of tile `i`. */
  lemma LeftNeighbour(ts: seq<Tile>, i: nat)
    requires Abut(ts) && i < |ts|
    ensures forall b :: b in FreeOf(ts[..i]) ==> b.addr < b.End() <= ts[i].addr
    ensures i > 0 && ts[i - 1].free ==>
              FreeOf(ts[..i]) == FreeOf(ts[..i - 1]) + [Block(ts[i - 1].addr, ts[i - 1].size)]
    ensures i > 0 && ts[i - 1].free ==> ts[i - 1].End() == ts[i].addr
    ensures !(i > 0 && ts[i - 1].free) ==> forall b :: b in FreeOf(ts[..i]) ==> b.End() < ts[i].addr
  {
    if i > 0 {
      var xs := ts[..i - 1];
      TakeSnoc(ts, i - 1);
      FreeOfConcat(xs, [ts[i - 1]]);
      FreeOfOne(ts[i - 1]);
      assert xs != [] ==> xs[|xs| - 1].End() == ts[i - 1].addr;
      FreeOfWithin(xs, 0, ts[i - 1].addr);
    }
  }

  /** The free list just right of tile `i`. */
  lemma RightNeighbour(ts: seq<Tile>, i: nat)
    requires Abut(ts) && i < |ts|
    ensures forall b :: b in FreeOf(ts[i + 1..]) ==> ts[i].End() <= b.addr
    ensures i + 1 < |ts| && ts[i + 1].free ==>
              FreeOf(ts[i + 1..]) == [Block(ts[i + 1].addr, ts[i + 1].size)] + FreeOf(ts[i + 2..])
    ensures i + 1 < |ts| ==> ts[i].End() == ts[i + 1].addr
    ensures !(i + 1 < |ts| && ts[i + 1].free) ==> forall b :: b in FreeOf(ts[i + 1..]) ==> ts[i].End() < b.addr
  {
    if i + 1 < |ts| {
      var ys := ts[i + 2..];
      DropCons(ts, i + 1);
      FreeOfConcat([ts[i + 1]], ys);
      FreeOfOne(ts[i + 1]);
      if ys != [] {
        assert ys[0].addr == ts[i + 1].End();
        FreeOfWithin(ys, ts[i + 1].End(), ys[|ys| - 1].End());
      }
    }
  }

  lemma FreeOfGlued(xs: seq<Tile>, u: Tile, ys: seq<Tile>)
    requires u.free
    ensures FreeOf(xs + [u] + ys) == FreeOf(xs) + [Block(u.addr, u.size)] + FreeOf(ys)
  {
    hide FreeOf;
    FreeOfConcat(xs + [u], ys);
    FreeOfConcat(xs, [u]);
    FreeOfOne(u);
  }

  /** On the left, touching in the list and neighbouring in the arena are the same thing. */
  lemma LeftTouch(ts: seq<Tile>, i: nat)
    requires Abut(ts) && i < |ts|
    ensures var k, u, v := LeftOf(ts, i), FreedRight(ts, i), Freed(ts, i);
            && WeaveLeft(FreeOf(ts[..i]), Block(u.addr, u.size)) == FreeOf(ts[..k]) + [Block(v.addr, v.size)]
            && |FreeOf(ts[..k])| == |FreeOf(ts[..i])| + k - i
  {
    var l := FreeOf(ts[..i]);
    LeftNeighbour(ts, i);
    hide FreeOf, Abut;
    if LeftOf(ts, i) == i {
      assert l != [] ==> l[|l| - 1] in l;
    } else {
      Parts(FreeOf(ts[..i - 1]), [Block(ts[i - 1].addr, ts[i - 1].size)]);
    }
  }

  /** And so it is on the right. */
  lemma RightTouch(ts: seq<Tile>, i: nat)
    requires Abut(ts) && i < |ts| && !ts[i].free
    ensures var l, g, u := FreeOf(ts[..i]), FreeOf(ts[i + 1..]), FreedRight(ts, i);
            && Weave(l, Block(ts[i].addr, ts[i].size), g)
               == WeaveLeft(l, Block(u.addr, u.size)) + FreeOf(ts[RightOf(ts, i)..])
            && |FreeOf(ts[RightOf(ts, i)..])| == |g| + 1 + i - RightOf(ts, i)
  {
    var g, b := FreeOf(ts[i + 1..]), Block(ts[i].addr, ts[i].size);
    RightNeighbour(ts, i);
    hide FreeOf, Weave, WeaveLeft, Abut;
    if RightOf(ts, i) == i + 2 {
      WeaveTouch(FreeOf(ts[..i]), b, Block(ts[i + 1].addr, ts[i + 1].size), FreeOf(ts[i + 2..]));
    } else {
      WeaveClear(FreeOf(ts[..i]), b, g);
    }
  }

  lemma WeaveTouch(l: seq<Block>, b: Block, c: Block, r: seq<Block>)
    requires b.End() == c.addr
    ensures Weave(l, b, [c] + r) == WeaveLeft(l, Block(b.addr, b.size + HEADER + c.size)) + r
  {
    hide WeaveLeft;
    Parts([c], r);
  }

  lemma WeaveClear(l: seq<Block>, b: Block, r: seq<Block>)
    requires forall c :: c in r ==> b.End() < c.addr
    ensures Weave(l, b, r) == WeaveLeft(l, b) + r
  {
    hide WeaveLeft;
    assert r != [] ==> r[0] in r;
  }

  /** Releasing a tile is, on the free list, an insertion that coalesces with whatever touches. */
  lemma FreeOfFreeAt(ts: seq<Tile>, i: nat)
    requires Abut(ts) && i < |ts| && !ts[i].free
    ensures var l, r := FreeOf(ts[..i]), FreeOf(ts[i + 1..]);
            && FreeOf(ts) == l + r
            && FreeOf(FreeAt(ts, i)) == Weave(l, Block(ts[i].addr, ts[i].size), r)
            && |FreeOf(ts)| + 1 - |FreeOf(FreeAt(ts, i))| == |ts| - |FreeAt(ts, i)|
  {
    hide FreeOf, Freed, FreedRight;
    FreeOfAround(ts, i);
    FreeOfOne(ts[i]);
    LeftTouch(ts, i);
    RightTouch(ts, i);
    assert Freed(ts, i).free;
    FreeOfGlued(ts[..LeftOf(ts, i)], Freed(ts, i), ts[RightOf(ts, i)..]);
  }

  /** Handing out tile `i` removes its entry; a split puts the remainder back in its
      place, where it touches nothing. */
  lemma FreeOfAllocAt(ts: seq<Tile>, i: nat, n: nat)
    requires Abut(ts) && NoFreeNeighbours(ts) && i < |ts| && ts[i].free && ts[i].size >= n
    ensures var l, r := FreeOf(ts[..i]), FreeOf(ts[i + 1..]);
            && FreeOf(ts) == l + [Block(ts[i].addr, ts[i].size)] + r
            && (!Splits(ts[i], n) ==> FreeOf(AllocAt(ts, i, n)) == l + r)
            && (Splits(ts[i], n) ==>
                  FreeOf(AllocAt(ts, i, n)) == Weave(l, Block(ts[i].addr + HEADER + n, ts[i].size - n - HEADER), r))
  {
    hide FreeOf, AllocAt, Weave;
    FreeOfAround(ts, i);
    FreeOfOne(ts[i]);
    if Splits(ts[i], n) {
      FreeOfSplit(ts, i, n);
      RemainderTouchesNothing(ts, i, n);
      WeaveLoose(FreeOf(ts[..i]), Block(ts[i].addr + HEADER + n, ts[i].size - n - HEADER), FreeOf(ts[i + 1..]));
    } else {
      FreeOfUnsplit(ts, i, n);
    }
  }

  lemma WeaveLoose(l: seq<Block>, b: Block, r: seq<Block>)
    requires l != [] ==> l[|l| - 1].End() != b.addr
    requires r != [] ==> b.End() != r[0].addr
    ensures Weave(l, b, r) == l + [b] + r
  {
  }

  lemma FreeOfUnsplit(ts: seq<Tile>, i: nat, n: nat)
    requires i < |ts| && ts[i].free && ts[i].size >= n && !Splits(ts[i], n)
    ensures FreeOf(AllocAt(ts, i, n)) == FreeOf(ts[..i]) + FreeOf(ts[i + 1..])
  {
    hide FreeOf;
    var us := AllocAt(ts, i, n);
    assert us[..i] == ts[..i] && us[i + 1..] == ts[i + 1..];
    FreeOfAround(us, i);
    FreeOfOne(us[i]);
  }

  lemma FreeOfSplit(ts: seq<Tile>, i: nat, n: nat)
    requires i < |ts| && ts[i].free && Splits(ts[i], n)
    ensures FreeOf(AllocAt(ts, i, n)) ==
              FreeOf(ts[..i]) + [Block(ts[i].addr + HEADER + n, ts[i].size - n - HEADER)] + FreeOf(ts[i + 1..])
  {
    var live := Tile(ts[i].addr, n, false);
    var rest := Tile(ts[i].addr + HEADER + n, ts[i].size - n - HEADER, true);
    assert AllocAt(ts, i, n) == (ts[..i] + [live]) + [rest] + ts[i + 1..];
    FreeOfGlued(ts[..i] + [live], rest, ts[i + 1..]);
    FreeOfConcat(ts[..i], [live]);
    FreeOfOne(live);
  }

  lemma RemainderTouchesNothing(ts: seq<Tile>, i: nat, n: nat)
    requires Abut(ts) && NoFreeNeighbours(ts) && i < |ts| && ts[i].free && Splits(ts[i], n)
    ensures var l, r := FreeOf(ts[..i]), FreeOf(ts[i + 1..]);
            var rest := Block(ts[i].addr + HEADER + n, ts[i].size - n - HEADER);
            && (l != [] ==> l[|l| - 1].End() != rest.addr)
            && (r != [] ==> rest.End() != r[0].addr)
  {
    LeftNeighbour(ts, i);
    RightNeighbour(ts, i);
    assert i + 1 < |ts| ==> Meets(ts[i], ts[i + 1]);
    var l, r := FreeOf(ts[..i]), FreeOf(ts[i + 1..]);
    assert l != [] ==> l[|l| - 1] in l;
    assert r != [] ==> r[0] in r;
  }

  // ------------------------------------------------------------- byte accounts

  /** Payload bytes in free (or in live) tiles. */
  function Bytes(ts: seq<Tile>, free: bool): nat
  {
    if ts == [] then 0 else (if ts[0].free == free then ts[0].size else 0) + Bytes(ts[1..], free)
  }

  lemma {:induction false} BytesConcat(xs: seq<Tile>, ys: seq<Tile>, free: bool)
    ensures Bytes(xs + ys, free) == Bytes(xs, free) + Bytes(ys, free)
  {
    Parts(xs, ys);
    if xs != [] {
      BytesConcat(xs[1..], ys, free);
    }
  }

  lemma BytesAround(xs: seq<Tile>, mid: seq<Tile>, ys: seq<Tile>, free: bool)
    ensures Bytes(xs + mid + ys, free) == Bytes(xs, free) + Bytes(mid, free) + Bytes(ys, free)
  {
    BytesConcat(xs + mid, ys, free);
    BytesConcat(xs, mid, free);
  }

  lemma BytesFew(a: Tile, b: Tile, c: Tile, free: bool)
    ensures Bytes([a], free) == if a.free == free then a.size else 0
    ensures Bytes([a, b], free) == Bytes([a], free) + Bytes([b], free)
    ensures Bytes([a, b, c], free) == Bytes([a], free) + Bytes([b], free) + Bytes([c], free)
  {
    assert [a][1..] == [] && [b][1..] == [] && [c][1..] == [];
    assert [a, b] == [a] + [b] && [a, b, c] == [a] + [b] + [c];
    BytesConcat([a], [b], free);
    BytesConcat([a] + [b], [c], free);
  }

  lemma AllocBytes(ts: seq<Tile>, i: nat, n: nat)
    requires i < |ts| && ts[i].free && ts[i].size >= n
    ensures var us := AllocAt(ts, i, n);
            && Bytes(us, false) == Bytes(ts, false) + us[i].size
            && Bytes(us, true) + us[i].size + HEADER * (|us| - |ts|) == Bytes(ts, true)
  {
    var us := AllocAt(ts, i, n);
    var k := if Splits(ts[i], n) then i + 2 else i + 1;
    assert ts == ts[..i] + [ts[i]] + ts[i + 1..];
    assert us == ts[..i] + us[i..k] + ts[i + 1..];
    assert us[i..k] == if Splits(ts[i], n) then [us[i], us[i + 1]] else [us[i]];
    BytesAround(ts[..i], [ts[i]], ts[i + 1..], true);
    BytesAround(ts[..i], us[i..k], ts[i + 1..], true);
    BytesFew(us[i], us[k - 1], ts[i], true);
    BytesFew(ts[i], ts[i], ts[i], true);
    BytesAround(ts[..i], [ts[i]], ts[i + 1..], false);
    BytesAround(ts[..i], us[i..k], ts[i + 1..], false);
    BytesFew(us[i], us[k - 1], ts[i], false);
    BytesFew(ts[i], ts[i], ts[i], false);
  }

  lemma FreeBytes(ts: seq<Tile>, i: nat)
    requires i < |ts| && !ts[i].free
    ensures var us := FreeAt(ts, i);
            && Bytes(us, false) + ts[i].size == Bytes(ts, false)
            && Bytes(us, true) == Bytes(ts, true) + ts[i].size + HEADER * (|ts| - |us|)
  {
    var r := RightOf(ts, i);
    var k := LeftOf(ts, i);
    var u := Freed(ts, i);
    CutRange(ts, k, r);
    MidBytes(ts, i, true);
    MidBytes(ts, i, false);
    BytesAround(ts[..k], ts[k..r], ts[r..], true);
    BytesAround(ts[..k], [u], ts[r..], true);
    BytesAround(ts[..k], ts[k..r], ts[r..], false);
    BytesAround(ts[..k], [u], ts[r..], false);
  }

  lemma MidBytes(ts: seq<Tile>, i: nat, free: bool)
    requires i < |ts| && !ts[i].free
    ensures var mid, u := ts[LeftOf(ts, i)..RightOf(ts, i)], Freed(ts, i);
            if free then Bytes([u], true) == Bytes(mid, true) + ts[i].size + HEADER * (|mid| - 1)
            else Bytes([u], false) == 0 && Bytes(mid, false) == ts[i].size
  {
    var k, r, u := LeftOf(ts, i), RightOf(ts, i), Freed(ts, i);
    BytesFew(u, u, u, free);
    if r - k == 1 {
      assert ts[k..r] == [ts[i]];
      BytesFew(ts[i], u, u, free);
    } else if r - k == 2 {
      assert ts[k..r] == [ts[k], ts[k + 1]];
      BytesFew(ts[k], ts[k + 1], u, free);
      BytesFew(ts[k + 1], u, u, free);
    } else {
      assert ts[k..r] == [ts[k], ts[i], ts[i + 1]];
      BytesFew(ts[k], ts[i], ts[i + 1], free);
      BytesFew(ts[i], u, u, free);
      BytesFew(ts[i + 1], u, u, free);
    }
  }

  /** Headers and payloads together account for every byte of the arena. */
  lemma {:induction false} ArenaBytes(ts: seq<Tile>)
    requires Abut(ts) && ts != []
    ensures ts[0].addr + Bytes(ts, true) + Bytes(ts, false) + HEADER * |ts| == ts[|ts| - 1].End()
    decreases |ts|
  {
    if |ts| > 1 {
      assert ts[1].addr == ts[0].End();
      ArenaBytes(ts[1..]);
    } else {
      assert ts[1..] == [];
    }
  }
}
