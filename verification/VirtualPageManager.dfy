/** The virtual page manager (kernel/src/Memory/VirtualPageManager.cpp): a size index of free
    blocks, an address index of used and reserved ones, splitting on allocation. */
module VirtualPageManager {
  import opened Options
  import opened Machine
  import opened VirtualSpace
  import opened SizeIndex

  /** kernel/src/Memory/VirtualRegion.cpp, with its 64-bit wrap-around. */
  datatype Region = Region(start: nat, end: nat)
  {
    function Size(): int { end - start }

    predicate IsInside(mem: nat, size: nat)
    {
      mem >= start && Wrap(mem + size) <= end
    }

    /** `EnsureIsInside`: the clipped range, or nothing when it is out of bounds. */
    function Clip(mem: nat, size: nat): Option<(nat, nat)>
    {
      if IsInside(mem, size) then Some((mem, size))
      else if mem > end || Wrap(mem + size) <= start then None
      else Some((if mem < start then start else mem, if size > Size() then Wrap(size - (mem - start)) else size))
    }

    /** The page address and count of a request, clipped when it is to be checked. */
    function Pages(addr: nat, count: nat, check: bool): Option<(nat, nat)>
    {
      if !check then Some((addr, count))
      else
        match Clip(addr, Wrap(count * PAGE))
        case None => None
        case Some((a, length)) => Some((a, length / PAGE))
    }

    /** First byte past the last whole page. */
    function Limit(): int { start + PAGE * (Size() / PAGE) }
  }

  /** `count << 12` in 64 bits. */
  function Bytes(count: nat): nat
  {
    Wrap(count * PAGE)
  }

  datatype Entry = Entry(count: nat, reserved: bool)

  function Counts(used: map<nat, Entry>): Blocks
  {
    map a | a in used :: used[a].count
  }

  class Manager {
    const region: Region
    var index: Index
    var used: map<nat, Entry>
    ghost var free: Blocks

    ghost predicate FreeValid()
      reads this
    {
      && region.start <= region.end < WORD
      && Lists(index, free) && Apart(free, region.start, region.Limit())
    }

    /** Every byte of the region's whole pages is in exactly one block, free or used. */
    ghost predicate Valid()
      reads this
    {
      FreeValid() && Partition(free, Counts(used), region.start, region.Limit())
    }

    /** `Internal_SplitFreeBlock`. */
    method Split(a: nat, c: nat, n: nat)
      requires FreeValid() && n > 0
      modifies this`index, this`free
      ensures FreeValid() && free == SplitBlocks(old(free), a, c, n)
      ensures forall p: int :: Holds(free, p) <==> Holds(old(free), p)
    {
      SplitFreeLists(index, free, region.start, region.Limit(), a, c, n);
      SplitBlocksSame(free, region.start, region.Limit(), a, c, n);
      index := SplitFree(index, a, c, n);
      free := SplitBlocks(free, a, c, n);
    }

    /** Take the free block of exactly this address and size out of the index, if there is one. */
    method Remove(addr: nat, count: nat) returns (ok: bool)
      requires FreeValid()
      modifies this`index, this`free
      ensures FreeValid()
      ensures ok <==> addr in old(free) && old(free)[addr] == count
      ensures free == if ok then old(free) - {addr} else old(free)
    {
      ListedIff(index, free, addr, count);
      if count !in index || addr !in index[count] {
        return false;
      }
      DeleteLists(index, free, addr);
      DropApart(free, region.start, region.Limit(), addr);
      index := Delete(index, count, addr);
      free := free - {addr};
      return true;
    }

    /** First address in the list whose block, as the wrapping comparison sees it, holds the range. */
    method Scan(key: nat, addr: nat, length: nat) returns (b: Option<nat>)
      requires FreeValid() && key in index
      ensures b.Some? ==> b.value in index[key] && Region(b.value, b.value + key * PAGE).IsInside(addr, length)
      ensures b.None? ==> forall a :: a in index[key] ==> !Region(a, a + key * PAGE).IsInside(addr, length)
    {
      var list := index[key];
      for j := 0 to |list|
        invariant forall i :: 0 <= i < j ==> !Region(list[i], list[i] + key * PAGE).IsInside(addr, length)
      {
        if Region(list[j], list[j] + key * PAGE).IsInside(addr, length) {
          return Some(list[j]);
        }
      }
      return None;
    }

    /** Cut the block found around the wanted range.  When the range really lies in the block
        it becomes a block of its own; a range that wraps past the top of memory may cut a
        block too, but which bytes are free never changes. */
    method SplitAround(b: nat, key: nat, addr: nat, length: nat, count: nat)
      requires FreeValid() && b in free && free[b] == key && 0 < count <= key
      requires length == count * PAGE && addr < WORD && (addr - b) % PAGE == 0
      requires Region(b, b + key * PAGE).IsInside(addr, length)
      modifies this`index, this`free
      ensures FreeValid()
      ensures forall p: int :: Holds(free, p) <==> Holds(old(free), p)
      ensures addr + length < WORD ==> addr in free && free[addr] == count
    {
      hide Lists, Apart, Holds;
      var start, end, newKey := b, b + key * PAGE, key;
      if addr > start {
        var n := (addr - b) / PAGE;
        assert addr == b + PAGE * n;
        Split(b, key, n);
        start := if addr <= end then addr else start;
        ghost var a := if n < key then addr else b;
        ListedIff(index, free, a, free[a]);
        var node := Higher(index, (end - start) / PAGE);
        assert (end - start) / PAGE <= free[a];
        newKey := node.value;
      }
      if length < end - start {
        Split(start, newKey, count);
      }
    }

    /** Look through the blocks of one size for one that holds the range, and cut it out. */
    method TryKey(key: nat, addr: nat, length: nat, count: nat) returns (found: bool)
      requires FreeValid() && key in index && 0 < count <= key
      requires length == count * PAGE && addr < WORD && (addr - region.start) % PAGE == 0
      modifies this`index, this`free
      ensures FreeValid()
      ensures forall p: int :: Holds(free, p) <==> Holds(old(free), p)
      ensures !found ==> index == old(index) && free == old(free)
      ensures !found ==> forall b :: b in free && free[b] == key ==> !Contains(free, b, addr, count)
      ensures found && addr + length < WORD ==>
                addr in free && free[addr] == count && exists b :: Contains(old(free), b, addr, count)
    {
      hide Lists, Apart, Holds;
      if addr in index[key] {
        ListedIff(index, free, addr, key);
        assert Contains(free, addr, addr, count);
        if key > count {
          Split(addr, key, count);
        }
        return true;
      }
      var b := Scan(key, addr, length);
      if b.None? {
        NoneInside(index, free, region.start, region.Limit(), key, addr, length, count);
        return false;
      }
      InsideBlock(index, free, region.start, region.Limit(), key, b.value, addr, length, count);
      SplitAround(b.value, key, addr, length, count);
      return true;
    }

    /** The search loop: sizes in increasing order, from the first that could hold the range. */
    method FindAndSplit(addr: nat, length: nat, count: nat) returns (found: bool)
      requires FreeValid() && count > 0
      requires length == count * PAGE && addr < WORD && (addr - region.start) % PAGE == 0
      modifies this`index, this`free
      ensures FreeValid()
      ensures forall p: int :: Holds(free, p) <==> Holds(old(free), p)
      ensures !found ==> index == old(index) && free == old(free) && forall b :: !Contains(free, b, addr, count)
      ensures found && addr + length < WORD ==>
                addr in free && free[addr] == count && exists b :: Contains(old(free), b, addr, count)
    {
      var node := Higher(index, count);
      found := false;
      while node.Some? && !found
        invariant FreeValid()
        invariant !found ==> index == old(index) && free == old(free)
        invariant !found && node.Some? ==> node.value in index && count <= node.value
        invariant !found ==> forall b :: b in free && count <= free[b] && (node.Some? ==> free[b] < node.value) ==>
                               !Contains(free, b, addr, count)
        invariant forall p: int :: Holds(free, p) <==> Holds(old(free), p)
        invariant found && addr + length < WORD ==>
                    addr in free && free[addr] == count && exists b :: Contains(old(free), b, addr, count)
        decreases if found then {} else set x | x in index && node.Some? && x >= node.value
      {
        var key := node.value;
        found := TryKey(key, addr, length, count);
        node := Higher(index, key + 1);
        KeysListed(index, free, key);
      }
    }

    /** Take a range out of the free blocks, after clipping it to the region. */
    method UnfreePages(addr: nat, count: nat, exact: bool) returns (ok: bool)
      requires FreeValid() && addr < WORD && count < WORD && (addr - region.start) % PAGE == 0
      modifies this`index, this`free
      ensures FreeValid()
      ensures match region.Clip(addr, Bytes(count)) {
                case None => !ok && free == old(free)
                case Some((a, length)) =>
                  var c := length / PAGE;
                  && (exact ==> (ok <==> c > 0 && a in old(free) && old(free)[a] == c))
                  && (!exact ==> (ok <==> Fits(old(free), a, c)))
                  && (exact ==> free == if ok then old(free) - {a} else old(free))
                  && Cleared(old(free), free, ok, a, c)
              }
    {
      var clipped := region.Clip(addr, Bytes(count));
      if clipped.None? {
        return false;
      }
      ClipAligned(region, addr, count);
      var (a, length) := clipped.value;
      var c := length / PAGE;
      if c == 0 {
        return false;
      }
      if !exact {
        var found := FindAndSplit(a, length, c);
        if !found {
          return false;
        }
      }
      ghost var before := free;
      ok := Remove(a, c);
      if ok {
        Dropped(before, region.start, region.Limit(), a);
      }
    }

    /** Put a block on the free list.  The caller owns the range: no block holds any of it. */
    method FreePages(addr: nat, count: nat)
      requires FreeValid() && count > 0 && region.start <= addr && addr + PAGE * count <= region.Limit()
      requires (addr - region.start) % PAGE == 0
      requires forall p: int {:trigger Holds(free, p)} :: addr <= p < addr + PAGE * count ==> !Holds(free, p)
      modifies this`index, this`free
      ensures FreeValid() && free == old(free)[addr := count]
      ensures forall p: int :: Holds(free, p) <==> Holds(old(free), p) || addr <= p < addr + PAGE * count
    {
      hide Apart, Lists, Holds;
      AddBlock(free, region.start, region.Limit(), addr, count);
      InsertLists(index, free, count, addr);
      ClipInside(region, addr, count);
      var clipped := region.Clip(addr, Bytes(count));
      index := Insert(index, clipped.value.1 / PAGE, clipped.value.0);
      ghost var before := free;
      free := before[addr := count];
      forall p: int ensures Holds(free, p) <==> Holds(before, p) || addr <= p < addr + PAGE * count {
        assert Holds(before[addr := count], p) <==> Holds(before, p) || addr <= p < addr + PAGE * count;
      }
    }

    /** A manager for a fresh region: all of it is free. */
    constructor (region: Region)
      requires region.start <= region.end < WORD
      ensures Valid() && this.region == region && used == map[]
      ensures free == if region.Size() / PAGE > 0 then map[region.start := region.Size() / PAGE] else map[]
      ensures forall p: int :: region.start <= p < region.Limit() ==> Holds(free, p)
    {
      this.region := region;
      index, used, free := map[], map[], map[];
      new;
      assert Counts(used) == map[];
      if region.Size() / PAGE > 0 {
        FreePages(region.start, region.Size() / PAGE);
      }
    }

    /** Record a used block; with `unfree`, also take it off the free list.  With `check` the range
        is clipped first and need not be a free block of its own. */
    method LockPages(addr: nat, count: nat, unfree: bool, check: bool)
      requires FreeValid() && addr < WORD && count < WORD && (addr - region.start) % PAGE == 0
      modifies this`index, this`free, this`used
      ensures FreeValid()
      ensures match region.Pages(addr, count, check) {
                case None => free == old(free) && used == old(used)
                case Some((a, n)) =>
                  var recorded := n > 0 && a !in old(used);
                  && used == (if recorded then old(used)[a := Entry(n % HALF, false)] else old(used))
                  && (!(recorded && unfree) ==> free == old(free))
                  && (recorded && unfree ==> Unfreed(old(free), a, n, !check))
              }
    {
      var pages := region.Pages(addr, count, check);
      if pages.None? {
        return;
      }
      ClipAligned(region, addr, count);
      var (a, n) := pages.value;
      if n == 0 || a in used {
        return;
      }
      used := used[a := Entry(n % HALF, false)];
      if unfree {
        var _ := UnfreePages(a, n, !check);
      }
    }

    /** The free bytes after unfreeing `n` pages at `a`. */
    ghost predicate Unfreed(before: Blocks, a: nat, n: nat, exact: bool)
      reads this
    {
      match region.Clip(a, Bytes(n))
      case None => free == before
      case Some((x, length)) =>
        var c := length / PAGE;
        var ok := if exact then c > 0 && x in before && before[x] == c else Fits(before, x, c);
        Cleared(before, free, ok, x, c) && (exact ==> free == if ok then before - {x} else before)
    }

    /** Give back a used block.  Only an exact match of a used block is accepted. */
    method UnlockPages(addr: nat, count: nat)
      requires Valid() && addr < WORD && count < WORD
      modifies this`index, this`free, this`used
      ensures Valid()
      ensures match region.Clip(addr, Bytes(count)) {
                case None => free == old(free) && used == old(used)
                case Some((a, length)) =>
                  if length / PAGE > 0 && a in old(used) && old(used)[a] == Entry(length / PAGE, false)
                  then used == old(used) - {a} && free == old(free)[a := length / PAGE]
                  else free == old(free) && used == old(used)
              }
    {
      var clipped := region.Clip(addr, Bytes(count));
      if clipped.None? {
        return;
      }
      var (a, length) := clipped.value;
      var c := length / PAGE;
      if c == 0 || a !in used || used[a] != Entry(c, false) {
        return;
      }
      Unlocked(free, used, region.start, region.Limit(), a);
      used := used - {a};
      FreePages(a, c);
    }

    /** Allocate `count` pages anywhere: the best fit, cut to size.  Success is a non-null address
        exactly when the block taken does not start at address 0. */
    method AllocateAny(count: nat) returns (mem: nat, ghost hit: bool)
      requires Valid() && count < WORD
      modifies this`index, this`free, this`used
      ensures Valid()
      ensures hit <==> count > 0 && exists b :: b in old(free) && old(free)[b] >= count
      ensures mem == 0 <==> !hit || old(BestFit(count)) == 0
      ensures !hit ==> mem == 0 && free == old(free) && used == old(used)
      ensures hit ==>
                && mem == old(BestFit(count))
                && mem in old(free) && old(free)[mem] >= count
                && (forall b :: b in old(free) && old(free)[b] >= count ==> old(free)[mem] <= old(free)[b])
                && mem !in old(used) && used == old(used)[mem := Entry(count, false)]
                && free == TakeFrom(old(free), mem, count)
      ensures Cleared(old(free), free, hit, mem, count)
    {
      hide Apart, Lists, Holds, Partition, Cleared, Fits, Wrap, Region.Limit, Bytes, SplitBlocks, TakeFrom;
      LimitInside(region);
      if count == 0 {
        NothingCleared(free, 0, count);
        return 0, false;
      }
      KeysListed(index, free, count);
      var node := Higher(index, count);
      if node.None? {
        NothingCleared(free, 0, count);
        return 0, false;
      }
      var key := node.value;
      ChosenBlock(index, free, Counts(used), region.start, region.Limit(), key, count);
      mem, hit := index[key][0], true;
      ghost var before := free;
      CutBlock(before, mem, key, count);
      if key > count {
        Split(mem, key, count);
      }
      ghost var used0, cut := used, free;
      FitsAt(before, mem, count);
      ClipInside(region, mem, count);
      LockPages(mem, count, true, false);
      ClearedAfter(before, cut, free, mem, count);
      LockedAt(before, free, used0, region.start, region.Limit(), mem, count, count);
    }

    /** The block the best fit is cut from: the first listed under the least sufficient size. */
    ghost function BestFit(count: nat): nat
      reads this
    {
      var key := Higher(index, count);
      if key.Some? && index[key.value] != [] then index[key.value][0] else 0
    }

    /** Allocate `count` pages at a given page address. */
    method AllocateAt(addr: nat, count: nat) returns (mem: nat)
      requires Valid() && addr < WORD && count < WORD && (addr - region.start) % PAGE == 0
      modifies this`index, this`free, this`used
      ensures FreeValid()
      ensures var c := count % PAGES;
              var hit := Fits(old(free), addr, c);
              && mem == (if hit then addr else 0)
              && Cleared(old(free), free, hit, addr, c)
              && used == (if hit then old(used)[addr := Entry(count % HALF, false)] else old(used))
              && (Valid() <==> !hit || count % HALF < PAGES)
    {
      hide Apart, Lists, Holds, Partition, Bytes, Unfreed, Cleared, Fits, Wrap, Region.Limit;
      BytesPages(count);
      LimitInside(region);
      if count == 0 || !region.IsInside(addr, Bytes(count)) {
        OutsideMisses(free, region, addr, count);
        NothingCleared(free, addr, count % PAGES);
        return 0;
      }
      ghost var before, used0, c := free, used, count % PAGES;
      assert region.Clip(addr, Bytes(count)) == Some((addr, Bytes(count)));
      hide Region.Clip, Region.IsInside;
      var ok := UnfreePages(addr, count, false);
      if !ok {
        SamePartition(before, free, Counts(used), region.start, region.Limit(), addr, c);
        return 0;
      }
      HitIsUnused(before, used, region.start, region.Limit(), addr, c);
      LockPages(addr, count, false, false);
      LockedAt(before, free, used0, region.start, region.Limit(), addr, c, count % HALF);
      return addr;
    }
  }

  /** The blocks after taking the first `n` pages of the one at `a`. */
  function TakeFrom(m: Blocks, a: nat, n: nat): Blocks
    requires a in m && n <= m[a]
  {
    (if n < m[a] then m[a + PAGE * n := m[a] - n] else m) - {a}
  }

  /** Cut off what is not wanted, and the wanted block can be taken. */
  lemma CutBlock(m: Blocks, a: nat, key: nat, n: nat)
    requires a in m && m[a] == key && 0 < n <= key
    ensures var cut := if key > n then SplitBlocks(m, a, key, n) else m;
            a in cut && cut[a] == n && cut - {a} == TakeFrom(m, a, n)
  {
  }

  lemma ClearedAfter(before: Blocks, cut: Blocks, after: Blocks, addr: nat, count: nat)
    requires forall p: int {:trigger Holds(cut, p)} :: Holds(cut, p) <==> Holds(before, p)
    requires Cleared(cut, after, true, addr, count)
    ensures Cleared(before, after, true, addr, count)
  {
    hide Holds;
    forall p: int ensures Holds(after, p) <==> Holds(before, p) && !(addr <= p < addr + PAGE * count) {
      assert Holds(cut, p) <==> Holds(before, p);
    }
  }

  /** The first page of a region at address 0 is handed out, and the caller gets null. */
  method NullSuccess() returns (manager: Manager, mem: nat)
    ensures mem == 0 && manager.used == map[0 := Entry(1, false)]
  {
    manager := new Manager(Region(0, 2 * PAGE));
    assert 0 in manager.free && manager.free[0] == 2;
    ghost var hit;
    mem, hit := manager.AllocateAny(1);
  }

  /** A request for 2^52 + 1 pages takes one page and records the whole number. */
  method PagesWrap() returns (manager: Manager, mem: nat)
    ensures mem == PAGE && manager.used == map[PAGE := Entry(PAGES + 1, false)] && !manager.Valid()
  {
    manager := new Manager(Region(PAGE, 3 * PAGE));
    FitsAt(manager.free, PAGE, 1);
    mem := manager.AllocateAt(PAGE, PAGES + 1);
  }

  /** What clipping does as long as nothing wraps: a range is refused exactly when it misses the
      region, and what is left of any other is what it shares with the region exactly when it lay
      inside already; else too much is left. */
  lemma ClipExactly(r: Region, mem: nat, size: nat)
    requires r.start <= r.end < WORD && mem + size < WORD && r.start + size < WORD + mem
    ensures r.Clip(mem, size) == None <==> mem > r.end || (mem < r.start && mem + size <= r.start)
    ensures r.Clip(mem, size).Some? ==>
              var (a, n) := r.Clip(mem, size).value;
              var from, to := if mem < r.start then r.start else mem, if mem + size < r.end then mem + size else r.end;
              && a == from && a + n >= to
              && (a + n == to <==> r.start <= mem && mem + size <= r.end)
  {
  }

  /** Two pages of which the second lies beyond a region of two are not cut to one. */
  lemma ClipLeaves()
    ensures Region(2 * PAGE, 4 * PAGE).Clip(3 * PAGE, 2 * PAGE) == Some((3 * PAGE, 2 * PAGE))
  {
    assert !Region(2 * PAGE, 4 * PAGE).IsInside(3 * PAGE, 2 * PAGE);
  }

  /** A checked request keeps its pages when they lie inside the region and is refused when they
      miss it; an unchecked one always keeps them. */
  lemma PagesExactly(r: Region, addr: nat, count: nat)
    requires r.start <= r.end < WORD && addr + PAGE * count < WORD && r.start + PAGE * count < WORD + addr
    ensures r.Pages(addr, count, false) == Some((addr, count))
    ensures r.Pages(addr, count, true) == Some((addr, count)) <== r.start <= addr && addr + PAGE * count <= r.end
    ensures r.Pages(addr, count, true) == None <==>
              addr > r.end || (addr < r.start && addr + PAGE * count <= r.start)
    ensures r.Pages(addr, count, true).Some? ==>
              var (a, n) := r.Pages(addr, count, true).value;
              var (b, size) := r.Clip(addr, PAGE * count).value;
              a == b && PAGE * n <= size < PAGE * n + PAGE
  {
    ClipExactly(r, addr, PAGE * count);
    assert Wrap(count * PAGE) == PAGE * count;
  }

  /** A range inside the region is not clipped. */
  lemma ClipInside(r: Region, addr: nat, count: nat)
    requires r.start <= r.end < WORD && r.start <= addr && addr + PAGE * count <= r.Limit()
    ensures r.Clip(addr, Bytes(count)) == Some((addr, PAGE * count)) && PAGE * count / PAGE == count
  {
  }

  /** A clipped range is a whole number of pages at a page address. */
  lemma ClipAligned(r: Region, addr: nat, count: nat)
    requires r.start <= r.end < WORD && addr < WORD && (addr - r.start) % PAGE == 0
    ensures match r.Clip(addr, Bytes(count)) {
              case None => true
              case Some((a, length)) =>
                a < WORD && length < WORD && (a - r.start) % PAGE == 0 && length == length / PAGE * PAGE
            }
  {
    BytesPages(count);
    var n := count % PAGES - (addr - r.start) / PAGE;
    assert Bytes(count) - (addr - r.start) == PAGE * n;
    WholePages(n);
  }

  lemma WholePages(n: int)
    ensures Wrap(PAGE * n) % PAGE == 0
  {
    assert WORD == PAGE * PAGES;
    var q, c := n / PAGES, n % PAGES;
    assert n == q * PAGES + c;
    assert PAGE * n == q * WORD + PAGE * c;
    WrapMultiple(q, PAGE * c);
  }

  /** Pages in a 64-bit address space. */
  const PAGES: nat := 0x10_0000_0000_0000

  lemma LimitInside(r: Region)
    requires r.start <= r.end
    ensures r.start <= r.Limit() <= r.end
  {
  }

  lemma BytesPages(count: nat)
    ensures Bytes(count) / PAGE == count % PAGES && Bytes(count) == PAGE * (count % PAGES)
    ensures count < WORD && count % HALF < PAGES ==> count % HALF == count % PAGES
  {
    assert WORD == PAGE * PAGES;
    var q, c := count / PAGES, count % PAGES;
    assert count == q * PAGES + c;
    assert count * PAGE == q * WORD + c * PAGE;
    WrapMultiple(q, c * PAGE);
  }

  lemma WrapMultiple(q: int, x: nat)
    requires x < WORD
    ensures Wrap(q * WORD + x) == x
  {
  }

  const HALF: nat := 0x8000_0000_0000_0000

  /** Dropping a used block leaves its bytes in no block at all. */
  lemma Unlocked(free: Blocks, used: map<nat, Entry>, lo: nat, hi: nat, a: nat)
    requires Partition(free, Counts(used), lo, hi) && a in used
    ensures var n := used[a].count;
            && n > 0 && lo <= a && a + PAGE * n <= hi && (a - lo) % PAGE == 0
            && (forall p: int {:trigger Holds(free, p)} :: a <= p < a + PAGE * n ==> !Holds(free, p))
            && Apart(Counts(used - {a}), lo, hi)
            && forall p: int :: Holds(Counts(used - {a}), p) <==> Holds(Counts(used), p) && !(a <= p < a + PAGE * n)
  {
    var m: Blocks := Counts(used);
    assert Counts(used - {a}) == m - {a};
    assert a in m;
    DropApart(m, lo, hi, a);
    Dropped(m, lo, hi, a);
    forall p: int | a <= p < a + PAGE * m[a] ensures !Holds(free, p) {
      assert Covers(m, a, p);
      assert Holds(m, p);
    }
  }

  /** Every size that occurs is listed, so the next size up misses no block. */
  lemma KeysListed(idx: Index, m: Blocks, key: nat)
    requires Lists(idx, m)
    ensures forall b :: b in m ==> m[b] in idx
  {
  }

  /** The head of the list of the least sufficient size is a best fit, and is not in use. */
  lemma ChosenBlock(idx: Index, m: Blocks, u: Blocks, lo: nat, hi: nat, key: nat, count: nat)
    requires Lists(idx, m) && Partition(m, u, lo, hi) && hi < WORD && key in idx && count > 0
    requires Higher(idx, count) == Some(key)
    ensures idx[key] != []
    ensures var a := idx[key][0];
            && a in m && m[a] == key && a < WORD && (a - lo) % PAGE == 0 && a !in u
            && lo <= a && a + PAGE * key <= hi && Bytes(count) == PAGE * count
            && Bytes(count) / PAGE == count && count < HALF
            && forall b :: b in m && m[b] >= count ==> key <= m[b]
  {
    var a := idx[key][0];
    assert a in idx[key];
    InFreeNotUsed(m, u, lo, hi, a);
    KeysListed(idx, m, key);
  }

  lemma InFreeNotUsed(m: Blocks, u: Blocks, lo: nat, hi: nat, a: nat)
    requires Partition(m, u, lo, hi) && a in m
    ensures a !in u
  {
    assert Covers(m, a, a) && Holds(m, a);
    if a in u { assert Covers(u, a, a) && Holds(u, a); }
  }

  /** A range inside a free block lies inside the region, and no used block starts there. */
  lemma HitIsUnused(m: Blocks, used: map<nat, Entry>, lo: nat, hi: nat, addr: nat, c: nat)
    requires Partition(m, Counts(used), lo, hi) && Fits(m, addr, c)
    ensures addr !in used && lo <= addr && addr + PAGE * c <= hi
    ensures forall p: int :: addr <= p < addr + PAGE * c ==> Holds(m, p) && !Holds(Counts(used), p)
  {
    var b :| Contains(m, b, addr, c);
    forall p: int | addr <= p < addr + PAGE * c ensures Holds(m, p) && !Holds(Counts(used), p) {
      ContainedHolds(m, b, addr, c, p);
    }
    assert Holds(m, addr);
    if addr in used {
      assert Covers(Counts(used), addr, addr);
      assert Holds(Counts(used), addr);
    }
  }

  lemma OutsideMisses(m: Blocks, r: Region, addr: nat, count: nat)
    requires r.start <= r.end < WORD && Apart(m, r.start, r.Limit())
    requires count == 0 || !r.IsInside(addr, Bytes(count))
    ensures !Fits(m, addr, count % PAGES)
  {
    BytesPages(count);
    if count % PAGES > 0 {
      forall b ensures !Contains(m, b, addr, count % PAGES) {
        assert Contains(m, b, addr, count % PAGES) ==> r.IsInside(addr, Bytes(count));
      }
    }
  }

  /** Recording the range taken as a used block of `n` pages keeps the partition when `n` is
      what was taken, and cannot when `n` does not even fit the address space. */
  lemma LockedAt(before: Blocks, after: Blocks, used: map<nat, Entry>, lo: nat, hi: nat, addr: nat, c: nat, n: nat)
    requires Partition(before, Counts(used), lo, hi) && hi < WORD && (addr - lo) % PAGE == 0
    requires Fits(before, addr, c) && Apart(after, lo, hi) && Cleared(before, after, true, addr, c)
    ensures n == c ==> Partition(after, Counts(used[addr := Entry(n, false)]), lo, hi)
    ensures n >= PAGES ==> !Partition(after, Counts(used[addr := Entry(n, false)]), lo, hi)
  {
    HitIsUnused(before, used, lo, hi, addr, c);
    var u: Blocks := Counts(used);
    var u' := Counts(used[addr := Entry(n, false)]);
    assert u' == u[addr := n];
    if n == c {
      AddBlock(u, lo, hi, addr, c);
    }
    if n >= PAGES {
      assert addr in u' && u'[addr] == n && addr + PAGE * n > hi;
    }
  }

  lemma SamePartition(before: Blocks, after: Blocks, u: Blocks, lo: nat, hi: nat, addr: nat, c: nat)
    requires Partition(before, u, lo, hi) && Apart(after, lo, hi)
    requires Cleared(before, after, false, addr, c)
    ensures Partition(after, u, lo, hi)
  {
    hide Apart, Holds;
    forall p: int | lo <= p < hi ensures Holds(after, p) <==> !Holds(u, p) {
      assert Holds(after, p) <==> Holds(before, p);
    }
  }

  lemma NoneInside(idx: Index, m: Blocks, lo: nat, hi: nat, key: nat, addr: nat, length: nat, count: nat)
    requires Lists(idx, m) && Apart(m, lo, hi) && hi < WORD && key in idx && length == count * PAGE
    requires forall a :: a in idx[key] ==> !Region(a, a + key * PAGE).IsInside(addr, length)
    ensures forall b :: b in m && m[b] == key ==> !Contains(m, b, addr, count)
  {
    forall b | b in m && m[b] == key ensures !Contains(m, b, addr, count) {
      assert b in idx[key];
    }
  }

  lemma InsideBlock(idx: Index, m: Blocks, lo: nat, hi: nat, key: nat, b: nat, addr: nat, length: nat, count: nat)
    requires Lists(idx, m) && Apart(m, lo, hi) && hi < WORD && key in idx && length == count * PAGE
    requires b in idx[key] && Region(b, b + key * PAGE).IsInside(addr, length) && (addr - lo) % PAGE == 0
    ensures b in m && m[b] == key && (addr - b) % PAGE == 0
    ensures addr + length < WORD ==> Contains(m, b, addr, count)
  {
    assert b in m && m[b] == key && (b - lo) % PAGE == 0;
    SameOffset(addr, b, lo);
  }

  lemma SameOffset(x: int, y: int, lo: int)
    requires (x - lo) % PAGE == 0 && (y - lo) % PAGE == 0
    ensures (x - y) % PAGE == 0
  {
  }

  /** Removing a block, stated on the free bytes. */
  lemma Dropped(m: Blocks, lo: nat, hi: nat, a: nat)
    requires Apart(m, lo, hi) && a in m
    ensures forall p: int :: Holds(m - {a}, p) <==> Holds(m, p) && !(a <= p < a + PAGE * m[a])
  {
    forall p: int ensures Holds(m - {a}, p) <==> Holds(m, p) && !(a <= p < a + PAGE * m[a]) {
      DropHolds(m, lo, hi, a, p);
    }
  }
}
