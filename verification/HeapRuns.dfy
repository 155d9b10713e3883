/** Whole runs of the heap interface: any sequence of `kmalloc`, `kcalloc` and `kfree`. */
module HeapRuns {
  import opened Options
  import opened Machine
  import opened HeapTiles

  datatype Call =
    | Malloc(size: nat)
    | Calloc(num: nat, size: nat)
    | Release(ptr: nat)

  /** The tiles, and for each block handed out and not yet released the number of
      bytes its caller asked for (the true product, for `kcalloc`). */
  datatype Heap = Heap(tiles: seq<Tile>, asked: map<nat, nat>)

  function Asked(c: Call): nat
    requires !c.Release?
  {
    if c.Malloc? then c.size else c.num * c.size
  }

  function Rounded(c: Call): Option<nat>
    requires !c.Release?
  {
    match c
    case Malloc(size) => if size == 0 then None else Some(AlignUp16(size))
    case Calloc(num, size) => Some(AlignUp16(Wrap(size * num)))
  }

  /** Arguments are machine words, and only a payload that is out may be released. */
  predicate Enabled(h: Heap, c: Call)
  {
    match c
    case Malloc(size) => size < WORD
    case Calloc(num, size) => num < WORD && size < WORD
    case Release(ptr) => ptr >= HEADER && ptr - HEADER in h.asked
  }

  /** Nothing overlaps, nothing is lost, and the books match: a block is out exactly
      when its tile is live, and it holds what was asked for exactly when rounding the
      request up did not overflow a 64-bit word. */
  ghost predicate Sound(h: Heap, lo: nat, hi: nat)
  {
    && 0 < lo && hi < WORD && Tiled(h.tiles, lo, hi)
    && h.asked.Keys == Live(h.tiles)
    && AllServed(h)
  }

  ghost predicate AllServed(h: Heap)
  {
    forall i :: 0 <= i < |h.tiles| && !h.tiles[i].free ==> Served(h, h.tiles[i])
  }

  ghost predicate Served(h: Heap, t: Tile)
  {
    t.addr in h.asked && (t.size >= h.asked[t.addr] <==> h.asked[t.addr] <= WORD - 16)
  }

  ghost predicate HasTile(ts: seq<Tile>, a: int)
  {
    exists j :: 0 <= j < |ts| && ts[j].addr == a
  }

  ghost function Step(h: Heap, c: Call): Heap
    requires Enabled(h, c)
    requires c.Release? ==> HasTile(h.tiles, c.ptr - HEADER)
  {
    if c.Release? then
      Heap(FreeAt(h.tiles, IndexOf(h.tiles, c.ptr - HEADER)), h.asked - {c.ptr - HEADER})
    else
      var (ts, ptr) := Granted(h.tiles, Rounded(c));
      Heap(ts, if ptr == 0 then h.asked else h.asked[ptr - HEADER := Asked(c)])
  }

  /** A rounded request is met by any tile that fits it, unless rounding overflowed. */
  lemma RoundingServes(c: Call, n: nat, size: nat)
    requires !c.Release? && Rounded(c) == Some(n)
    requires c.Malloc? ==> c.size < WORD
    requires n <= size < WORD - 16
    ensures size >= Asked(c) <==> Asked(c) <= WORD - 16
    ensures Is16(n)
  {
    AlignUp16Reaches(if c.Malloc? then c.size else Wrap(c.size * c.num));
    if c.Calloc? {
      assert c.num * c.size == c.size * c.num;
    }
  }

  lemma AllocTile(ts: seq<Tile>, i: nat, n: nat, m: nat)
    requires i < |ts| && ts[i].free && ts[i].size >= n && m < |AllocAt(ts, i, n)| && m != i
             && !AllocAt(ts, i, n)[m].free
    ensures exists j :: 0 <= j < |ts| && j != i && ts[j] == AllocAt(ts, i, n)[m]
  {
    var us := AllocAt(ts, i, n);
    var j := if m < i || !Splits(ts[i], n) then m else m - 1;
    assert ts[j] == us[m];
  }

  lemma FreeTile(ts: seq<Tile>, i: nat, m: nat)
    requires i < |ts| && !ts[i].free && m < |FreeAt(ts, i)| && !FreeAt(ts, i)[m].free
    ensures exists j :: 0 <= j < |ts| && j != i && ts[j] == FreeAt(ts, i)[m]
  {
    var k, r := LeftOf(ts, i), RightOf(ts, i);
    var j := if m < k then m else m - k - 1 + r;
    assert ts[j] == FreeAt(ts, i)[m];
  }

  lemma TileFits(ts: seq<Tile>, lo: nat, hi: nat, i: nat)
    requires Tiled(ts, lo, hi) && hi < WORD && i < |ts|
    ensures ts[i].size < WORD - 16
  {
    if i + 1 < |ts| { TilesOrdered(ts, i, |ts| - 1); }
  }

  lemma GrantServes(h: Heap, i: nat, n: nat, asked: nat)
    requires AllServed(h) && Abut(h.tiles) && i < |h.tiles| && h.tiles[i].free && h.tiles[i].size >= n
    requires AllocAt(h.tiles, i, n)[i].size >= asked <==> asked <= WORD - 16
    ensures AllServed(Heap(AllocAt(h.tiles, i, n), h.asked[h.tiles[i].addr := asked]))
  {
    var ts, us := h.tiles, AllocAt(h.tiles, i, n);
    var h' := Heap(us, h.asked[ts[i].addr := asked]);
    AllocLive(ts, i, n);
    forall m | 0 <= m < |us| && !us[m].free ensures Served(h', us[m]) {
      hide AllocAt, Live, Abut;
      if m != i {
        AllocTile(ts, i, n, m);
        var j :| 0 <= j < |ts| && j != i && ts[j] == us[m];
        DistinctAddresses(ts, i, j);
        assert Served(h, ts[j]);
      }
    }
  }

  lemma ReleaseServes(h: Heap, i: nat)
    requires AllServed(h) && Abut(h.tiles) && i < |h.tiles| && !h.tiles[i].free
    ensures AllServed(Heap(FreeAt(h.tiles, i), h.asked - {h.tiles[i].addr}))
  {
    var ts, us := h.tiles, FreeAt(h.tiles, i);
    var h' := Heap(us, h.asked - {ts[i].addr});
    forall m | 0 <= m < |us| && !us[m].free ensures Served(h', us[m]) {
      hide FreeAt, Abut;
      FreeTile(ts, i, m);
      var j :| 0 <= j < |ts| && j != i && ts[j] == us[m];
      DistinctAddresses(ts, i, j);
      assert Served(h, ts[j]);
    }
  }

  lemma GrantKeepsSound(h: Heap, lo: nat, hi: nat, c: Call, i: nat, n: nat)
    requires Sound(h, lo, hi) && Enabled(h, c) && !c.Release? && Rounded(c) == Some(n)
    requires i == FirstFit(h.tiles, n) < |h.tiles|
    ensures Sound(Heap(AllocAt(h.tiles, i, n), h.asked[h.tiles[i].addr := Asked(c)]), lo, hi)
  {
    hide AllocAt, Live, Tiled, AllServed, Rounded, Asked, FirstFit;
    TileFits(h.tiles, lo, hi, i);
    RoundingServes(c, n, h.tiles[i].size);
    AllocKeepsTiling(h.tiles, lo, hi, i, n);
    TiledAbuts(h.tiles, lo, hi);
    AllocLive(h.tiles, i, n);
    RoundingServes(c, n, AllocAt(h.tiles, i, n)[i].size);
    GrantServes(h, i, n, Asked(c));
  }

  lemma TiledAbuts(ts: seq<Tile>, lo: nat, hi: nat)
    requires Tiled(ts, lo, hi)
    ensures Abut(ts) && lo <= ts[0].addr
  {
  }

  /** A live block can be released: its tile is there and is not free. */
  lemma ReleaseFinds(h: Heap, lo: nat, hi: nat, a: nat)
    requires Sound(h, lo, hi) && a in h.asked
    ensures HasTile(h.tiles, a) && !h.tiles[IndexOf(h.tiles, a)].free
  {
    hide AllServed, Tiled;
    TiledAbuts(h.tiles, lo, hi);
    LiveIndex(h.tiles, a);
  }

  lemma ReleaseKeepsSound(h: Heap, lo: nat, hi: nat, i: nat)
    requires Sound(h, lo, hi) && i < |h.tiles| && !h.tiles[i].free
    ensures Sound(Heap(FreeAt(h.tiles, i), h.asked - {h.tiles[i].addr}), lo, hi)
  {
    hide FreeAt, Live, Tiled, AllServed;
    TiledAbuts(h.tiles, lo, hi);
    FreeKeepsTiling(h.tiles, lo, hi, i);
    FreeLive(h.tiles, i);
    ReleaseServes(h, i);
  }

  /** Every call keeps the heap sound. */
  lemma StepKeepsSound(h: Heap, lo: nat, hi: nat, c: Call)
    requires Sound(h, lo, hi) && Enabled(h, c)
    ensures c.Release? ==> HasTile(h.tiles, c.ptr - HEADER)
    ensures Sound(Step(h, c), lo, hi)
  {
    hide FreeAt, AllocAt, Sound, Rounded, Asked;
    if c.Release? {
      ReleaseFinds(h, lo, hi, c.ptr - HEADER);
      ReleaseKeepsSound(h, lo, hi, IndexOf(h.tiles, c.ptr - HEADER));
    } else if Rounded(c).Some? {
      var n := Rounded(c).value;
      var i := FirstFit(h.tiles, n);
      if i < |h.tiles| {
        GrantKeepsSound(h, lo, hi, c, i, n);
      }
    }
  }

  /** `hs` is a run: each heap follows from the one before by an enabled call. */
  ghost predicate IsRun(hs: seq<Heap>, calls: seq<Call>)
  {
    && |hs| == |calls| + 1
    && forall k :: 0 <= k < |calls| ==> Follows(hs[k], calls[k], hs[k + 1])
  }

  ghost predicate Follows(h: Heap, c: Call, h': Heap)
  {
    && Enabled(h, c)
    && (c.Release? ==> HasTile(h.tiles, c.ptr - HEADER))
    && h' == Step(h, c)
  }

  /** From the fresh heap, whatever the calls, every heap of the run is sound. */
  lemma {:induction false} RunIsSound(hs: seq<Heap>, calls: seq<Call>, lo: nat, hi: nat, k: nat)
    requires IsRun(hs, calls) && k < |hs|
    requires 0 < lo && lo + HEADER <= hi < WORD && Is16(lo) && Is16(hi - lo - HEADER)
    requires hs[0] == Heap([Tile(lo, hi - lo - HEADER, true)], map[])
    ensures Sound(hs[k], lo, hi)
    decreases k
  {
    if k == 0 {
      SoundOne(Tile(lo, hi - lo - HEADER, true));
      assert Live(hs[0].tiles) == {};
    } else {
      RunIsSound(hs, calls, lo, hi, k - 1);
      hide Sound, Step;
      assert Follows(hs[k - 1], calls[k - 1], hs[k - 1 + 1]);
      StepKeepsSound(hs[k - 1], lo, hi, calls[k - 1]);
    }
  }

  /** A call and the release of what it handed out leave the heap as it was. */
  lemma GrantThenRelease(h: Heap, lo: nat, hi: nat, c: Call)
    requires Sound(h, lo, hi) && Enabled(h, c) && !c.Release?
    requires Granted(h.tiles, Rounded(c)).1 != 0
    ensures var h' := Step(h, c);
            var p := Granted(h.tiles, Rounded(c)).1;
            p >= HEADER && Follows(h', Release(p), h)
  {
    hide FreeAt, AllocAt, Rounded, Asked, AllServed, Tiled, Live;
    var n := Rounded(c).value;
    var i := FirstFit(h.tiles, n);
    var h' := Step(h, c);
    var a := h.tiles[i].addr;
    StepKeepsSound(h, lo, hi, c);
    TiledAbuts(h.tiles, lo, hi);
    TiledAbuts(h'.tiles, lo, hi);
    AllocLive(h.tiles, i, n);
    ReleaseFinds(h', lo, hi, a);
    DistinctAddresses(h'.tiles, i, IndexOf(h'.tiles, a));
    AllocThenFree(h.tiles, lo, hi, i, n);
    assert h'.asked - {a} == h.asked;
  }

  /** A call whose rounding does not overflow is served exactly when some free tile holds what it
      asks for, and then the block goes to the lowest such tile. */
  lemma CallServed(h: Heap, lo: nat, hi: nat, c: Call)
    requires Sound(h, lo, hi) && Enabled(h, c) && !c.Release? && Asked(c) <= WORD - 16
    ensures c.Malloc? && c.size == 0 ==> Step(h, c) == h
    ensures c.Calloc? || c.size > 0 ==>
              && (Step(h, c) == h <==> NoRoom(h.tiles, Asked(c)))
              && forall i :: Lowest(h.tiles, Asked(c), i) ==>
                   Step(h, c).asked == h.asked[h.tiles[i].addr := Asked(c)] && h.tiles[i].addr !in h.asked
  {
    hide Sound, Granted, Asked, Lowest, Serves, NoRoom, Rounded, Step, Enabled;
    if c.Calloc? || c.size > 0 {
      var n := StepIs(h, c);
      var us, ptr := Granted(h.tiles, Some(n)).0, Granted(h.tiles, Some(n)).1;
      RoundedFits(h, lo, hi, c, n);
      GrantedExactly(h.tiles, n);
      ServedFrom(h, lo, hi, n, us, ptr);
      assert ptr != 0 ==> ptr - HEADER in Step(h, c).asked;
    } else {
      NothingAsked(h, c);
    }
  }

  lemma StepIs(h: Heap, c: Call) returns (n: nat)
    requires Enabled(h, c) && !c.Release? && (c.Calloc? || c.size > 0)
    ensures Rounded(c) == Some(n)
    ensures var (us, ptr) := Granted(h.tiles, Some(n));
            Step(h, c) == Heap(us, if ptr == 0 then h.asked else h.asked[ptr - HEADER := Asked(c)])
  {
    hide AlignUp16, Wrap, FirstFit;
    n := Rounded(c).value;
  }

  lemma NothingAsked(h: Heap, c: Call)
    requires Enabled(h, c) && c.Malloc? && c.size == 0
    ensures Step(h, c) == h
  {
  }

  /** What a grant tells: something was handed out exactly when a tile could serve, and then it
      is the lowest one's payload, which nobody holds. */
  lemma ServedFrom(h: Heap, lo: nat, hi: nat, n: nat, us: seq<Tile>, ptr: nat)
    requires Sound(h, lo, hi) && Serves(h.tiles, n, us, ptr)
    ensures ptr == 0 <==> NoRoom(h.tiles, n)
    ensures ptr == 0 ==> us == h.tiles
    ensures ptr != 0 ==> ptr >= HEADER && ptr - HEADER !in h.asked
    ensures forall i :: Lowest(h.tiles, n, i) ==> 0 <= i < |h.tiles| && ptr == h.tiles[i].addr + HEADER
  {
    FreeIsFresh(h, lo, hi);
    if ptr != 0 {
      var i := FirstFit(h.tiles, n);
      assert Lowest(h.tiles, n, i);
    }
  }

  /** Tiles come in multiples of 16 bytes, so rounding a request up rules none of them out. */
  lemma RoundedFits(h: Heap, lo: nat, hi: nat, c: Call, n: nat)
    requires Sound(h, lo, hi) && !c.Release? && Rounded(c) == Some(n) && Asked(c) <= WORD - 16
    ensures NoRoom(h.tiles, n) <==> NoRoom(h.tiles, Asked(c))
    ensures forall i :: Lowest(h.tiles, n, i) <==> Lowest(h.tiles, Asked(c), i)
  {
    assert c.Calloc? ==> c.num * c.size == c.size * c.num;
    AlignUp16Reaches(Asked(c));
    forall i | 0 <= i < |h.tiles| ensures h.tiles[i].size >= n <==> h.tiles[i].size >= Asked(c) {
      assert Is16(h.tiles[i].size);
      NextMultiple(Asked(c), n, h.tiles[i].size);
    }
  }

  lemma NextMultiple(x: nat, n: nat, size: nat)
    requires n % 16 == 0 && x <= n < x + 16 && size % 16 == 0
    ensures size >= n <==> size >= x
  {
  }

  lemma FreeIsFresh(h: Heap, lo: nat, hi: nat)
    requires Sound(h, lo, hi)
    ensures forall i :: 0 <= i < |h.tiles| && h.tiles[i].free ==> h.tiles[i].addr !in h.asked
  {
    forall i | 0 <= i < |h.tiles| && h.tiles[i].free ensures h.tiles[i].addr !in h.asked {
      if h.tiles[i].addr in h.asked {
        var j :| 0 <= j < |h.tiles| && !h.tiles[j].free && h.tiles[j].addr == h.tiles[i].addr;
        DistinctAddresses(h.tiles, i, j);
      }
    }
  }

  /** A request for 2^64 - 1 bytes rounds up to none, and is granted an empty payload. */
  lemma RoundingWraps()
    ensures var h := Heap([Tile(4096, 4080, true)], map[]);
            Step(h, Malloc(WORD - 1)) == Heap([Tile(4096, 0, false), Tile(4112, 4064, true)], map[4096 := WORD - 1])
  {
    var ts := [Tile(4096, 4080, true)];
    assert AlignUp16(WORD - 1) == 0;
    assert FirstFit(ts, 0) == 0;
    assert AllocAt(ts, 0, 0) == [Tile(4096, 0, false), Tile(4112, 4064, true)];
  }
}
