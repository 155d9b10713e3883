/** The block headers in memory and the list threaded through them. */
module HeapMemory {
  import opened HeapTiles

  /** A block header as it lies in memory.  `next` is a pointer; 0 is null. */
  datatype Header = Header(size: nat, isFree: bool, next: nat)

  type Memory = map<nat, Header>

  /** Address of the `i`-th list entry; null past the end. */
  function AddrAt(f: seq<Block>, i: nat): nat
  {
    if i < |f| then f[i].addr else 0
  }

  /** Where the header of entry `i` points. */
  function NextOf(f: seq<Block>, i: nat, after: nat): nat
  {
    if i + 1 < |f| then f[i + 1].addr else after
  }

  /** The headers of `f` point one to the next, the last one to `after`. */
  ghost predicate Segment(mem: Memory, f: seq<Block>, after: nat)
  {
    forall i :: 0 <= i < |f| ==> f[i].addr in mem && mem[f[i].addr] == Header(f[i].size, true, NextOf(f, i, after))
  }

  /** The list that starts at `head` runs through exactly the blocks of `f`. */
  ghost predicate ListIs(mem: Memory, head: nat, f: seq<Block>)
  {
    head == AddrAt(f, 0) && Segment(mem, f, 0)
  }

  ghost predicate Increasing(f: seq<Block>)
  {
    && (forall i :: 0 <= i < |f| ==> 0 < f[i].addr)
    && (forall i, j :: 0 <= i < j < |f| ==> f[i].addr < f[j].addr)
  }

  /** `a` is no list entry. */
  ghost predicate Apart(f: seq<Block>, a: nat)
  {
    forall i :: 0 <= i < |f| ==> f[i].addr != a
  }

  lemma SegmentConcat(mem: Memory, l: seq<Block>, r: seq<Block>, after: nat)
    ensures Segment(mem, l + r, after) <==>
            Segment(mem, l, if r == [] then after else r[0].addr) && Segment(mem, r, after)
  {
    var f := l + r;
    var mid := if r == [] then after else r[0].addr;
    forall i | 0 <= i < |l| ensures l[i] == f[i] && NextOf(l, i, mid) == NextOf(f, i, after) {
    }
    forall i | 0 <= i < |r| ensures r[i] == f[|l| + i] && NextOf(r, i, after) == NextOf(f, |l| + i, after) {
    }
    assert forall i :: |l| <= i < |f| ==> f[i] == r[i - |l|];
  }

  lemma SegmentOne(mem: Memory, b: Block, after: nat)
    ensures Segment(mem, [b], after) <==> b.addr in mem && mem[b.addr] == Header(b.size, true, after)
  {
    assert [b][0] == b;
  }

  lemma SegmentNone(mem: Memory, after: nat)
    ensures Segment(mem, [], after)
  {
  }

  lemma SegmentAt(mem: Memory, f: seq<Block>, after: nat, i: nat)
    requires Segment(mem, f, after) && i < |f|
    ensures f[i].addr in mem && mem[f[i].addr] == Header(f[i].size, true, NextOf(f, i, after))
  {
  }

  lemma SegmentFrame(mem: Memory, f: seq<Block>, after: nat, a: nat, h: Header)
    requires Segment(mem, f, after) && Apart(f, a)
    ensures Segment(mem[a := h], f, after)
  {
  }

  lemma SegmentElsewhere(mem: Memory, mem': Memory, f: seq<Block>, after: nat, a: nat)
    requires Segment(mem, f, after) && Apart(f, a) && mem.Keys == mem'.Keys
    requires forall x :: x in mem && x != a ==> mem'[x] == mem[x]
    ensures Segment(mem', f, after)
  {
  }

  /** The header of every live tile records its size and that it is taken. */
  ghost predicate LiveHeaders(mem: Memory, ts: seq<Tile>)
  {
    forall t :: t in ts && !t.free ==> t.addr in mem && mem[t.addr].size == t.size && !mem[t.addr].isFree
  }

  lemma OrderedIncreasing(f: seq<Block>)
    requires Ordered(f) && forall b :: b in f ==> 0 < b.addr
    ensures Increasing(f)
  {
    forall i | 0 <= i < |f| ensures 0 < f[i].addr {
      assert f[i] in f;
    }
  }

  /** The free list of a tiled arena is in strict address order. */
  lemma TilesIncreasing(ts: seq<Tile>, lo: nat, hi: nat)
    requires Tiled(ts, lo, hi) && 0 < lo
    ensures Ordered(FreeOf(ts)) && Increasing(FreeOf(ts))
  {
    FreeOfWithin(ts, lo, hi);
    OrderedIncreasing(FreeOf(ts));
  }

  /** The first large enough block of the list is the first fit among the tiles. */
  lemma FirstFitInList(ts: seq<Tile>, n: nat, k: nat)
    requires k <= |FreeOf(ts)|
    requires forall j :: 0 <= j < k ==> FreeOf(ts)[j].size < n
    requires k < |FreeOf(ts)| ==> FreeOf(ts)[k].size >= n
    ensures FirstFit(ts, n) < |ts| <==> k < |FreeOf(ts)|
    ensures FirstFit(ts, n) < |ts| ==> k == |FreeOf(ts[..FirstFit(ts, n)])|
  {
    var i, f := FirstFit(ts, n), FreeOf(ts);
    if i < |ts| {
      var l := FreeOf(ts[..i]);
      FreeOfAround(ts, i);
      FreeOfOne(ts[i]);
      hide FreeOf;
      assert f[|l|] == Block(ts[i].addr, ts[i].size);
      forall j | 0 <= j < |l| ensures f[j].size < n {
        FreeOfMember(ts[..i], l[j]);
        assert f[j] == l[j];
      }
    } else if k < |f| {
      FreeOfMember(ts, f[k]);
    }
  }

  lemma ApartFront(l: seq<Block>, r: seq<Block>, a: nat)
    requires Apart(l + r, a)
    ensures Apart(l, a)
  {
    assert forall i :: 0 <= i < |l| ==> l[i] == (l + r)[i];
  }

  /** A live tile is no list entry and keeps clear of every other tile. */
  lemma LiveTileClear(ts: seq<Tile>, t: Tile, i: nat)
    requires Abut(ts) && t in ts && !t.free && i < |ts|
    ensures Apart(FreeOf(ts), t.addr) && Apart(FreeOf(ts[..i]), t.addr)
    ensures t != ts[i] ==> t.addr < ts[i].addr || ts[i].End() <= t.addr
    ensures t != ts[i] ==> t.addr != ts[i].addr
  {
    var j :| 0 <= j < |ts| && ts[j] == t;
    var f := FreeOf(ts);
    forall m | 0 <= m < |f| ensures f[m].addr != t.addr {
      FreeOfMember(ts, f[m]);
      var x :| 0 <= x < |ts| && ts[x] == Tile(f[m].addr, f[m].size, true);
      DistinctAddresses(ts, j, x);
    }
    if j < i { TilesOrdered(ts, j, i); } else if i < j { TilesOrdered(ts, i, j); }
    FreeOfAround(ts, i);
    ApartFront(FreeOf(ts[..i]) + FreeOf([ts[i]]), FreeOf(ts[i + 1..]), t.addr);
    ApartFront(FreeOf(ts[..i]), FreeOf([ts[i]]), t.addr);
  }

  lemma AllocMembers(ts: seq<Tile>, i: nat, n: nat, t: Tile)
    requires i < |ts| && ts[i].free && ts[i].size >= n && t in AllocAt(ts, i, n) && !t.free
    ensures t == Tile(ts[i].addr, if Splits(ts[i], n) then n else ts[i].size, false) || t in ts
  {
  }

  lemma FreeMembers(ts: seq<Tile>, i: nat, t: Tile)
    requires Abut(ts) && i < |ts| && !ts[i].free && t in FreeAt(ts, i) && !t.free
    ensures t in ts && t.addr != ts[i].addr
  {
    var us, k, r := FreeAt(ts, i), LeftOf(ts, i), RightOf(ts, i);
    var m :| 0 <= m < |us| && us[m] == t;
    var j := if m < k then m else m - k - 1 + r;
    assert t == ts[j];
    DistinctAddresses(ts, i, j);
  }
}

/** The kernel heap allocator: block headers rewritten in place, a first-fit,
    address-ordered free list with splitting and two-sided coalescing
    (kernel/src/Memory/kmalloc.cpp). */
module HeapAllocator {
  import opened Options
  import opened Machine
  import opened Seqs
  import opened HeapTiles
  import opened HeapMemory

  class Allocator {
    var mem: Memory
    var freeList: nat
    // The `size_t` counters, kept unreduced: the machine holds each modulo 2^64.
    var freeMem: int
    var usedMem: int
    var metadataMem: int
    const start: nat
    const numBytes: nat
    ghost var tiles: seq<Tile>
    // Handouts so far of a block exactly one header larger than asked for.
    ghost var drift: nat

    ghost predicate Valid()
      reads this
    {
      && 0 < start && start + numBytes < WORD
      && Tiled(tiles, start, start + numBytes)
      && LiveHeaders(mem, tiles)
      && ListIs(mem, freeList, FreeOf(tiles))
      && freeMem == Bytes(tiles, true) + HEADER * drift
      && usedMem == Bytes(tiles, false) - HEADER * drift
      && metadataMem == HEADER * |tiles|
    }

    /** The sized constructor, on page-aligned memory from the page manager. */
    constructor (size: nat, ptr: nat)
      requires 0 < ptr && ptr % PAGE == 0 && ptr + size + HEADER + PAGE < WORD
      ensures Valid() && start == ptr && drift == 0
      ensures size + HEADER <= numBytes < size + HEADER + PAGE && numBytes % PAGE == 0
      ensures tiles == [Tile(ptr, numBytes - HEADER, true)]
    {
      var numPages := (size + HEADER + (PAGE - 1)) / PAGE;
      var bytes := numPages * PAGE;
      start, numBytes := ptr, bytes;
      mem := map[ptr := Header(bytes - HEADER, true, 0)];
      metadataMem := HEADER;
      freeMem := bytes - HEADER;
      usedMem := 0;
      freeList := ptr;
      tiles := [Tile(ptr, bytes - HEADER, true)];
      drift := 0;
      new;
      WholeArena(ptr, bytes);
    }

    /** Close the list after entry `h`, merging `h` with `curr` when they touch. */
    method JoinNext(h: nat, curr: nat, ghost l: seq<Block>, ghost r: seq<Block>)
      requires h in mem && mem[h].isFree && Segment(mem, l, h) && Apart(l, h)
      requires r != [] && r[0].addr == curr && Segment(mem, r, 0) && Apart(r, h)
      modifies this`mem, this`freeMem, this`metadataMem
      ensures var b := Block(h, old(mem[h].size));
              var touch := b.End() == curr;
              && Segment(mem, l + (if touch then [Block(h, b.size + HEADER + r[0].size)] + r[1..] else [b] + r), 0)
              && freeMem == old(freeMem) + (if touch then HEADER else 0)
              && metadataMem == old(metadataMem) - (if touch then HEADER else 0)
      ensures mem.Keys == old(mem.Keys)
      ensures forall a :: a in mem && a != h ==> mem[a] == old(mem[a])
    {
      ghost var m := mem;
      ghost var b := Block(h, mem[h].size);
      if h + HEADER + mem[h].size == curr && mem[curr].isFree {
        mem := mem[h := Header(mem[h].size + HEADER + mem[curr].size, mem[h].isFree, mem[curr].next)];
        freeMem := freeMem + HEADER;
        metadataMem := metadataMem - HEADER;
        assert r == [r[0]] + r[1..];
        SegmentConcat(m, [r[0]], r[1..], 0);
        SegmentFrame(m, r[1..], 0, h, mem[h]);
        SegmentConcat(mem, [Block(h, b.size + HEADER + r[0].size)], r[1..], 0);
        SegmentConcat(mem, l, [Block(h, b.size + HEADER + r[0].size)] + r[1..], 0);
      } else {
        mem := mem[h := mem[h].(next := curr)];
        SegmentFrame(m, r, 0, h, mem[h]);
        SegmentConcat(mem, [b], r, 0);
        SegmentConcat(mem, l, [b] + r, 0);
      }
      SegmentFrame(m, l, h, h, mem[h]);
    }

    /** Hang `header` behind `prev`, or merge it into `prev` when they touch.  The entry
        that now ends the left part is returned; its `next` is still to be set. */
    method JoinPrev(prev: nat, header: nat, curr: nat, ghost l: seq<Block>) returns (h: nat)
      requires l != [] && l[|l| - 1].addr == prev && Segment(mem, l, curr) && Increasing(l)
      requires header in mem && mem[header].isFree && Apart(l, header)
      modifies this`mem, this`freeMem, this`metadataMem
      ensures var b := Block(header, old(mem[header].size));
              var w := WeaveLeft(l, b);
              && h in mem && mem[h].isFree && w[|w| - 1] == Block(h, mem[h].size)
              && Segment(mem, w[..|w| - 1], h) && Apart(w[..|w| - 1], h)
              && freeMem == old(freeMem) + HEADER * (|l| + 1 - |w|)
              && metadataMem == old(metadataMem) - HEADER * (|l| + 1 - |w|)
      ensures h == header || (h == prev && mem[h].next == curr)
      ensures mem.Keys == old(mem.Keys)
      ensures forall a :: a in mem && a != prev ==> mem[a] == old(mem[a])
    {
      ghost var m, l0 := mem, l[..|l| - 1];
      assert l == l0 + [l[|l| - 1]];
      SegmentConcat(m, l0, [l[|l| - 1]], curr);
      assert mem[prev] == Header(l[|l| - 1].size, true, curr);
      h := header;
      if prev + HEADER + mem[prev].size == header && mem[prev].isFree {
        mem := mem[prev := Header(mem[prev].size + HEADER + mem[header].size, mem[prev].isFree, curr)];
        h := prev;
        freeMem := freeMem + HEADER;
        metadataMem := metadataMem - HEADER;
      } else {
        mem := mem[prev := mem[prev].(next := header)];
      }
      SegmentFrame(m, l0, prev, prev, mem[prev]);
      SegmentConcat(mem, l0, [l[|l| - 1]], header);
      assert (l + [Block(header, 0)])[..|l|] == l;
    }

    /** The place found: `prev < header < curr`, where `prev` may be null. */
    method InsertBetween(prev: nat, header: nat, curr: nat, ghost l: seq<Block>, ghost r: seq<Block>)
      requires Segment(mem, l, curr) && Increasing(l) && (if l == [] then prev == 0 else prev == l[|l| - 1].addr)
      requires r != [] && r[0].addr == curr && Segment(mem, r, 0) && Apart(r, header) && Apart(r, prev)
      requires header in mem && mem[header].isFree && Apart(l, header)
      requires freeList == (if l == [] then curr else l[0].addr)
      modifies this`mem, this`freeList, this`freeMem, this`metadataMem
      ensures var g := Weave(l, Block(header, old(mem[header].size)), r);
              && ListIs(mem, freeList, g)
              && freeMem == old(freeMem) + HEADER * (|l| + |r| + 1 - |g|)
              && metadataMem == old(metadataMem) - HEADER * (|l| + |r| + 1 - |g|)
      ensures mem.Keys == old(mem.Keys)
      ensures forall a :: a in mem && a != header && Apart(l, a) ==> mem[a] == old(mem[a])
    {
      hide Segment, WeaveLeft, Weave;
      ghost var b := Block(header, mem[header].size);
      ghost var w := WeaveLeft(l, b);
      WeaveInTwo(l, b, r);
      WeaveLeftParts(l, b);
      var h := header;
      if prev == 0 {
        freeList := header;
        SegmentNone(mem, header);
      } else {
        h := JoinPrev(prev, header, curr, l);
        SegmentElsewhere(old(mem), mem, r, 0, prev);
      }
      JoinNext(h, curr, w[..|w| - 1], r);
    }

    /** The end of the list reached: `header` lies above every entry. */
    method Append(prev: nat, header: nat, ghost l: seq<Block>)
      requires l != [] && ListIs(mem, freeList, l) && Increasing(l) && prev == l[|l| - 1].addr
      requires header in mem && mem[header].isFree && Apart(l, header)
      modifies this`mem, this`freeMem, this`metadataMem
      ensures var g := WeaveLeft(l, Block(header, old(mem[header].size)));
              && ListIs(mem, freeList, g)
              && freeMem == old(freeMem) + HEADER * (|l| + 1 - |g|)
              && metadataMem == old(metadataMem) - HEADER * (|l| + 1 - |g|)
      ensures mem.Keys == old(mem.Keys)
      ensures forall a :: a in mem && a != header && a != prev ==> mem[a] == old(mem[a])
    {
      ghost var w := WeaveLeft(l, Block(header, mem[header].size));
      ghost var w0 := w[..|w| - 1];
      TakeSnoc(w, |w| - 1);
      assert Apart(w0, header);
      var h := JoinPrev(prev, header, 0, l);
      hide Segment, WeaveLeft;
      ghost var m := mem;
      mem := mem[header := mem[header].(next := 0)];
      SegmentFrame(m, w0, h, header, mem[header]);
      SegmentOne(mem, w[|w| - 1], 0);
      SegmentConcat(mem, w0, [w[|w| - 1]], 0);
    }

    /** Walk the list to the entries between which `header` belongs; null at either end. */
    method FindPlace(header: nat, ghost l: seq<Block>, ghost r: seq<Block>) returns (prev: nat, curr: nat)
      requires ListIs(mem, freeList, l + r) && Increasing(l + r) && 0 < header
      requires forall j :: 0 <= j < |l| ==> l[j].addr < header
      requires forall j :: 0 <= j < |r| ==> header < r[j].addr
      ensures prev == (if l == [] then 0 else l[|l| - 1].addr) && curr == AddrAt(r, 0)
    {
      ghost var f := l + r;
      prev, curr := 0, freeList;
      ghost var k: nat := 0;
      while curr != 0 && !(prev < header < curr)
        invariant k <= |l| && prev == (if k == 0 then 0 else f[k - 1].addr) && curr == AddrAt(f, k)
        decreases |f| - k
      {
        SegmentAt(mem, f, 0, k);
        prev := curr;
        curr := mem[curr].next;
        k := k + 1;
      }
    }

    /** Insert a block into the address-ordered list, merging it with the list entries
        it touches.  `l` and `r` are the entries below and above it. */
    method AddToFreeList(header: nat, ghost l: seq<Block>, ghost r: seq<Block>)
      requires ListIs(mem, freeList, l + r) && Increasing(l + r)
      requires 0 < header && header in mem && mem[header].isFree
      requires forall j :: 0 <= j < |l| ==> l[j].addr < header
      requires forall j :: 0 <= j < |r| ==> header < r[j].addr
      modifies this`mem, this`freeList, this`freeMem, this`metadataMem
      ensures var g := Weave(l, Block(header, old(mem[header].size)), r);
              && ListIs(mem, freeList, g)
              && freeMem == old(freeMem) + HEADER * (|l| + |r| + 1 - |g|)
              && metadataMem == old(metadataMem) - HEADER * (|l| + |r| + 1 - |g|)
      ensures mem.Keys == old(mem.Keys)
      ensures forall a :: a in mem && a != header && Apart(l, a) ==> mem[a] == old(mem[a])
    {
      hide Weave, Segment;
      WeaveAtEnd(l, Block(header, mem[header].size));
      if freeList == 0 {
        freeList := header;
        mem := mem[header := mem[header].(next := 0)];
        SegmentOne(mem, Block(header, mem[header].size), 0);
        return;
      }
      SegmentConcat(mem, l, r, 0);
      PartsIncreasing(l, r);
      var prev, curr := FindPlace(header, l, r);
      if curr != 0 {
        InsertBetween(prev, header, curr, l, r);
      } else {
        Parts(l, r);
        Append(prev, header, l);
      }
    }

    /** Walk the list to the first block of at least `n` bytes. */
    method FindFit(n: nat, ghost f: seq<Block>) returns (prev: nat, curr: nat, ghost k: nat)
      requires ListIs(mem, freeList, f) && Increasing(f)
      ensures k <= |f| && prev == (if k == 0 then 0 else f[k - 1].addr) && curr == AddrAt(f, k)
      ensures forall j :: 0 <= j < k ==> f[j].size < n
      ensures k < |f| ==> f[k].size >= n
    {
      prev, curr, k := 0, freeList, 0;
      while curr != 0 && mem[curr].size < n
        invariant k <= |f| && prev == (if k == 0 then 0 else f[k - 1].addr) && curr == AddrAt(f, k)
        invariant curr in mem || curr == 0
        invariant forall j :: 0 <= j < k ==> f[j].size < n
        decreases |f| - k
      {
        prev := curr;
        curr := mem[curr].next;
        k := k + 1;
      }
    }

    /** Take `curr` out of the list and mark it taken. */
    method Unlink(prev: nat, curr: nat, ghost l: seq<Block>, ghost b: Block, ghost r: seq<Block>)
      requires ListIs(mem, freeList, l + [b] + r) && Increasing(l + [b] + r)
      requires prev == (if l == [] then 0 else l[|l| - 1].addr) && curr == b.addr
      modifies this`mem, this`freeList
      ensures ListIs(mem, freeList, l + r)
      ensures mem.Keys == old(mem.Keys)
      ensures curr in mem && mem[curr].size == b.size && !mem[curr].isFree
      ensures forall a :: a in mem && a != curr && Apart(l, a) ==> mem[a] == old(mem[a])
    {
      hide Segment, Increasing;
      Unlinked(mem, freeList, l, b, r);
      if prev == 0 {
        freeList := mem[curr].next;
      } else {
        mem := mem[prev := mem[prev].(next := mem[curr].next)];
      }
      mem := mem[curr := mem[curr].(isFree := false)];
    }

    /** Cut a taken block down to `n` bytes and put the remainder on the list. */
    method Split(curr: nat, n: nat, ghost l: seq<Block>, ghost b: Block, ghost r: seq<Block>)
      requires ListIs(mem, freeList, l + r) && Ordered(l + [b] + r) && Increasing(l + [b] + r) && curr == b.addr
      requires curr in mem && mem[curr].size == b.size && !mem[curr].isFree && b.size > n + HEADER
      modifies this`mem, this`freeList, this`freeMem, this`metadataMem
      ensures var g := Weave(l, Block(curr + HEADER + n, b.size - n - HEADER), r);
              && ListIs(mem, freeList, g)
              && freeMem == old(freeMem) - HEADER + HEADER * (|l| + |r| + 1 - |g|)
              && metadataMem == old(metadataMem) + HEADER - HEADER * (|l| + |r| + 1 - |g|)
      ensures curr in mem && mem[curr].size == n && !mem[curr].isFree
      ensures forall a :: a in old(mem) && (a < curr || b.End() <= a) && Apart(l, a) ==>
                a in mem && mem[a] == old(mem[a])
    {
      hide Segment, Weave, Apart, Ordered, Increasing;
      ghost var m := mem;
      var next := curr + HEADER + n;
      var garbage: nat := *;
      mem := mem[next := Header(mem[curr].size - n - HEADER, true, garbage)];
      mem := mem[curr := mem[curr].(size := n)];
      freeMem := freeMem - HEADER;
      AroundApart(l, b, r);
      RemainderApart(l, b, r, n);
      SegmentFrame(m, l + r, 0, next, mem[next]);
      SegmentFrame(m[next := mem[next]], l + r, 0, curr, mem[curr]);
      AddToFreeList(next, l, r);
      metadataMem := metadataMem + HEADER;
    }

    /** Hand out the first `n` bytes of list entry `b`. */
    method Take(prev: nat, curr: nat, n: nat, ghost l: seq<Block>, ghost b: Block, ghost r: seq<Block>)
      requires ListIs(mem, freeList, l + [b] + r) && Ordered(l + [b] + r) && Increasing(l + [b] + r)
      requires prev == (if l == [] then 0 else l[|l| - 1].addr) && curr == b.addr && b.size >= n
      modifies this`mem, this`freeList, this`freeMem, this`metadataMem
      ensures b.size <= n + HEADER ==>
                && ListIs(mem, freeList, l + r)
                && freeMem == old(freeMem) && metadataMem == old(metadataMem)
      ensures b.size > n + HEADER ==>
                && var g := Weave(l, Block(curr + HEADER + n, b.size - n - HEADER), r);
                && ListIs(mem, freeList, g)
                && freeMem == old(freeMem) - HEADER + HEADER * (|l| + |r| + 1 - |g|)
                && metadataMem == old(metadataMem) + HEADER - HEADER * (|l| + |r| + 1 - |g|)
      ensures curr in mem && mem[curr].size == (if b.size > n + HEADER then n else b.size) && !mem[curr].isFree
      ensures forall a :: a in old(mem) && (a < curr || b.End() <= a) && Apart(l, a) ==>
                a in mem && mem[a] == old(mem[a])
    {
      hide Segment, Weave, Increasing, Ordered;
      Unlink(prev, curr, l, b, r);
      if mem[curr].size > n + HEADER {
        Split(curr, n, l, b, r);
      }
    }

    /** Hand out free tile `i`, found at `curr`. */
    method HandOut(prev: nat, curr: nat, n: nat, ghost i: nat) returns (ptr: nat)
      requires Valid() && Is16(n) && i < |tiles| && tiles[i].free && tiles[i].size >= n && tiles[i].addr == curr
      requires var l := FreeOf(tiles[..i]); prev == if l == [] then 0 else l[|l| - 1].addr
      modifies this
      ensures Valid() && tiles == AllocAt(old(tiles), i, n) && ptr == old(tiles)[i].Payload()
      ensures drift == old(drift) + (if old(tiles)[i].size == n + HEADER then 1 else 0)
    {
      hide FreeOf, Segment, AllocAt, Weave, Increasing, Ordered, Tiled, LiveHeaders, Bytes, Apart, Is16;
      ghost var ts, m := tiles, mem;
      ghost var l, b, r := FreeOf(ts[..i]), Block(ts[i].addr, ts[i].size), FreeOf(ts[i + 1..]);
      AllocFacts(ts, start, start + numBytes, i, n);
      Take(prev, curr, n, l, b, r);
      usedMem := usedMem + n;
      freeMem := freeMem - n;
      ptr := curr + HEADER;
      AllocLiveHeaders(m, mem, ts, i, n);
      tiles := AllocAt(ts, i, n);
      drift := drift + (if ts[i].size == n + HEADER then 1 else 0);
    }

    /** First fit.  Null when no free block is large enough (the kernel then panics). */
    method Allocate(size: nat) returns (ptr: nat)
      requires Valid() && size < WORD
      modifies this
      ensures Valid()
      ensures var n := AlignUp16(size);
              var i := FirstFit(old(tiles), n);
              if i == |old(tiles)| then ptr == 0 && tiles == old(tiles) && drift == old(drift)
              else
                && tiles == AllocAt(old(tiles), i, n)
                && ptr == old(tiles)[i].Payload()
                && drift == old(drift) + (if old(tiles)[i].size == n + HEADER then 1 else 0)
    {
      var n := AlignUp16(size);
      TilesIncreasing(tiles, start, start + numBytes);
      var prev, curr;
      ghost var k;
      prev, curr, k := FindFit(n, FreeOf(tiles));
      ghost var i := FirstFit(tiles, n);
      FirstFitInList(tiles, n, k);
      AlignUp16Reaches(size);
      if curr == 0 {
        return 0;
      }
      FreeOfAround(tiles, i);
      FreeOfOne(tiles[i]);
      hide FreeOf, AllocAt, Tiled, LiveHeaders, Bytes, Segment;
      ptr := HandOut(prev, curr, n, i);
    }

    /** Give a live block back to the list. */
    method Free(ptr: nat)
      requires Valid() && HEADER <= ptr && ptr - HEADER in Live(tiles)
      modifies this
      ensures Valid() && drift == old(drift)
      ensures exists j :: 0 <= j < |old(tiles)| && old(tiles)[j].addr == ptr - HEADER
      ensures tiles == FreeAt(old(tiles), IndexOf(old(tiles), ptr - HEADER))
    {
      hide FreeOf, Segment, FreeAt, Weave, Increasing, Tiled, LiveHeaders, Bytes, Apart, Live;
      ghost var ts, m := tiles, mem;
      var header := ptr - HEADER;
      LiveTile(mem, ts, start, start + numBytes, header);
      ghost var i := IndexOf(ts, header);
      ghost var l, r := FreeOf(ts[..i]), FreeOf(ts[i + 1..]);
      FreeFacts(ts, start, start + numBytes, i);
      mem := mem[header := mem[header].(isFree := true)];
      SegmentFrame(m, l + r, 0, header, mem[header]);
      usedMem := usedMem - mem[header].size;
      freeMem := freeMem + mem[header].size;
      AddToFreeList(header, l, r);
      FreeLiveHeaders(m, mem, ts, i);
      tiles := FreeAt(ts, i);
    }

    method GetFreeMem() returns (bytes: nat)
      requires Valid()
      ensures bytes == Wrap(Bytes(tiles, true) + HEADER * drift)
    {
      bytes := Wrap(freeMem);
    }

    method GetUsedMem() returns (bytes: nat)
      requires Valid()
      ensures bytes == Wrap(Bytes(tiles, false) - HEADER * drift)
    {
      bytes := Wrap(usedMem);
    }

    /** The drift of the free and used counters cancels: the total is always the arena. */
    method GetTotalMem() returns (bytes: nat)
      requires Valid()
      ensures bytes == numBytes
    {
      ArenaBytes(tiles);
      bytes := Wrap(usedMem + freeMem + metadataMem);
    }

    /** The lowest block that holds the size rounded up, or null when none does. */
    method KMalloc(initialised: bool, size: nat) returns (ptr: nat)
      requires Valid() && size < WORD
      modifies this
      ensures Valid()
      ensures if initialised && size != 0 then Serves(old(tiles), AlignUp16(size), tiles, ptr)
              else ptr == 0 && tiles == old(tiles)
      ensures tiles == Granted(old(tiles), if initialised && size != 0 then Some(AlignUp16(size)) else None).0
      ensures ptr == Granted(old(tiles), if initialised && size != 0 then Some(AlignUp16(size)) else None).1
    {
      if size == 0 || !initialised {
        return 0;
      }
      AlignUp16Reaches(size);
      GrantedExactly(tiles, AlignUp16(size));
      hide Serves;
      ptr := Allocate(AlignUp16(size));
    }

    /** The same for the product, which wraps; the cleared payload is not part of this model. */
    method KCalloc(initialised: bool, num: nat, size: nat) returns (ptr: nat)
      requires Valid() && num < WORD && size < WORD
      modifies this
      ensures Valid()
      ensures if initialised then Serves(old(tiles), AlignUp16(Wrap(size * num)), tiles, ptr)
              else ptr == 0 && tiles == old(tiles)
      ensures tiles == Granted(old(tiles), if initialised then Some(AlignUp16(Wrap(size * num))) else None).0
      ensures ptr == Granted(old(tiles), if initialised then Some(AlignUp16(Wrap(size * num))) else None).1
    {
      if !initialised {
        return 0;
      }
      AlignUp16Reaches(Wrap(size * num));
      GrantedExactly(tiles, AlignUp16(Wrap(size * num)));
      hide Serves;
      ptr := Allocate(AlignUp16(Wrap(size * num)));
    }
  }

  /** Every live tile's header can be found at its address. */
  lemma LiveTile(mem: Memory, ts: seq<Tile>, lo: nat, hi: nat, a: nat)
    requires Tiled(ts, lo, hi) && LiveHeaders(mem, ts) && a in Live(ts)
    ensures exists j :: 0 <= j < |ts| && ts[j].addr == a
    ensures var i := IndexOf(ts, a);
            !ts[i].free && a in mem && mem[a].size == ts[i].size
  {
    LiveIndex(ts, a);
    assert ts[IndexOf(ts, a)] in ts;
  }

  /** What a release does to the tiling, the free list and the byte accounts. */
  lemma FreeFacts(ts: seq<Tile>, lo: nat, hi: nat, i: nat)
    requires Tiled(ts, lo, hi) && 0 < lo && i < |ts| && !ts[i].free
    ensures Tiled(FreeAt(ts, i), lo, hi) && Abut(ts) && 0 < ts[i].addr
    ensures var l, r, us := FreeOf(ts[..i]), FreeOf(ts[i + 1..]), FreeAt(ts, i);
            && FreeOf(ts) == l + r && Increasing(l + r) && Apart(l + r, ts[i].addr)
            && (forall j :: 0 <= j < |l| ==> l[j].addr < ts[i].addr)
            && (forall j :: 0 <= j < |r| ==> ts[i].addr < r[j].addr)
            && FreeOf(us) == Weave(l, Block(ts[i].addr, ts[i].size), r)
            && Bytes(us, false) == Bytes(ts, false) - ts[i].size
            && Bytes(us, true) == Bytes(ts, true) + ts[i].size + HEADER * (|l| + |r| + 1 - |FreeOf(us)|)
            && |us| == |ts| - (|l| + |r| + 1 - |FreeOf(us)|)
  {
    hide FreeOf, FreeAt, Bytes;
    TilesIncreasing(ts, lo, hi);
    FreeOfFreeAt(ts, i);
    FreeKeepsTiling(ts, lo, hi, i);
    FreeBytes(ts, i);
    LiveTileClear(ts, ts[i], i);
    LeftNeighbour(ts, i);
    RightNeighbour(ts, i);
    if i > 0 { TilesOrdered(ts, 0, i); }
    var l, r := FreeOf(ts[..i]), FreeOf(ts[i + 1..]);
    forall j | 0 <= j < |l| ensures l[j].addr < ts[i].addr {
      assert l[j] in l;
    }
    forall j | 0 <= j < |r| ensures ts[i].addr < r[j].addr {
      assert r[j] in r;
    }
  }

  lemma FreeLiveHeaders(mem: Memory, mem': Memory, ts: seq<Tile>, i: nat)
    requires LiveHeaders(mem, ts) && Abut(ts) && i < |ts| && !ts[i].free
    requires mem'.Keys == mem.Keys
    requires forall a :: a in mem && a != ts[i].addr && Apart(FreeOf(ts[..i]), a) ==> mem'[a] == mem[a]
    ensures LiveHeaders(mem', FreeAt(ts, i))
  {
    hide FreeOf, FreeAt, Abut, Apart;
    forall t | t in FreeAt(ts, i) && !t.free
      ensures t.addr in mem' && mem'[t.addr].size == t.size && !mem'[t.addr].isFree
    {
      FreeMembers(ts, i, t);
      LiveTileClear(ts, t, i);
    }
  }

  /** Live headers survive an allocation that stays inside its tile and the list below it. */
  lemma AllocLiveHeaders(mem: Memory, mem': Memory, ts: seq<Tile>, i: nat, n: nat)
    requires LiveHeaders(mem, ts) && Abut(ts) && i < |ts| && ts[i].free && ts[i].size >= n
    requires var a := ts[i].addr;
             && a in mem' && !mem'[a].isFree
             && mem'[a].size == if Splits(ts[i], n) then n else ts[i].size
    requires forall a :: a in mem && (a < ts[i].addr || ts[i].End() <= a) && Apart(FreeOf(ts[..i]), a) ==>
               a in mem' && mem'[a] == mem[a]
    ensures LiveHeaders(mem', AllocAt(ts, i, n))
  {
    hide FreeOf, AllocAt, Abut, Apart;
    forall t | t in AllocAt(ts, i, n) && !t.free
      ensures t.addr in mem' && mem'[t.addr].size == t.size && !mem'[t.addr].isFree
    {
      AllocMembers(ts, i, n, t);
      if t in ts {
        LiveTileClear(ts, t, i);
        assert t.addr in mem;
      }
    }
  }

  /** What an allocation does to the tiling, the free list and the byte accounts. */
  lemma AllocFacts(ts: seq<Tile>, lo: nat, hi: nat, i: nat, n: nat)
    requires Tiled(ts, lo, hi) && 0 < lo && i < |ts| && ts[i].free && ts[i].size >= n && Is16(n)
    ensures Tiled(AllocAt(ts, i, n), lo, hi) && Abut(ts)
    ensures var l, b, r := FreeOf(ts[..i]), Block(ts[i].addr, ts[i].size), FreeOf(ts[i + 1..]);
            && FreeOf(ts) == l + [b] + r && Ordered(l + [b] + r) && Increasing(l + [b] + r)
            && (!Splits(ts[i], n) ==> FreeOf(AllocAt(ts, i, n)) == l + r)
            && (Splits(ts[i], n) ==>
                  FreeOf(AllocAt(ts, i, n)) == Weave(l, Block(b.addr + HEADER + n, b.size - n - HEADER), r))
    ensures var us := AllocAt(ts, i, n);
            var d := if ts[i].size == n + HEADER then HEADER else 0;
            var h := if Splits(ts[i], n) then HEADER else 0;
            && Bytes(us, false) == Bytes(ts, false) + n + d
            && Bytes(us, true) == Bytes(ts, true) - n - d - h
            && HEADER * |us| == HEADER * |ts| + h
    ensures Splits(ts[i], n) ==>
              |Weave(FreeOf(ts[..i]), Block(ts[i].addr + HEADER + n, ts[i].size - n - HEADER), FreeOf(ts[i + 1..]))|
              == |FreeOf(ts[..i])| + |FreeOf(ts[i + 1..])| + 1
  {
    hide FreeOf, AllocAt, Bytes;
    TilesIncreasing(ts, lo, hi);
    FreeOfAllocAt(ts, i, n);
    AllocKeepsTiling(ts, lo, hi, i, n);
    AllocAccounts(ts, i, n);
    if Splits(ts[i], n) {
      RemainderTouchesNothing(ts, i, n);
      WeaveLoose(FreeOf(ts[..i]), Block(ts[i].addr + HEADER + n, ts[i].size - n - HEADER), FreeOf(ts[i + 1..]));
    }
  }

  lemma AllocAccounts(ts: seq<Tile>, i: nat, n: nat)
    requires i < |ts| && ts[i].free && ts[i].size >= n && Is16(n) && Is16(ts[i].size)
    ensures var us := AllocAt(ts, i, n);
            var d := if ts[i].size == n + HEADER then HEADER else 0;
            var h := if Splits(ts[i], n) then HEADER else 0;
            && Bytes(us, false) == Bytes(ts, false) + n + d
            && Bytes(us, true) == Bytes(ts, true) - n - d - h
            && HEADER * |us| == HEADER * |ts| + h
  {
    AllocBytes(ts, i, n);
  }

  lemma RemainderApart(l: seq<Block>, b: Block, r: seq<Block>, n: nat)
    requires Ordered(l + [b] + r) && b.size > n + HEADER
    ensures Apart(l + r, b.addr + HEADER + n)
    ensures forall j :: 0 <= j < |l| ==> l[j].addr < b.addr + HEADER + n
    ensures forall j :: 0 <= j < |r| ==> b.addr + HEADER + n < r[j].addr
  {
    var f := l + [b] + r;
    forall j | 0 <= j < |l| ensures l[j].addr < b.addr {
      assert f[j].End() <= f[|l|].addr;
    }
    forall j | 0 <= j < |r| ensures b.End() <= r[j].addr {
      assert f[|l|].End() <= f[|l| + 1 + j].addr;
    }
  }

  /** Memory after the entry `b` has been bypassed and marked taken. */
  lemma Unlinked(mem: Memory, head: nat, l: seq<Block>, b: Block, r: seq<Block>)
    requires ListIs(mem, head, l + [b] + r) && Increasing(l + [b] + r)
    ensures b.addr in mem && mem[b.addr].size == b.size
    ensures l == [] ==>
              ListIs(mem[b.addr := mem[b.addr].(isFree := false)], mem[b.addr].next, l + r)
    ensures l != [] ==>
              && var p := l[|l| - 1].addr;
              && p in mem && p != b.addr && p != 0
              && ListIs(mem[p := mem[p].(next := mem[b.addr].next)][b.addr := mem[b.addr].(isFree := false)],
                        head, l + r)
  {
    var next := if r == [] then 0 else r[0].addr;
    AroundIncreasing(l, b, r);
    AroundApart(l, b, r);
    SegmentConcat(mem, l + [b], r, 0);
    SegmentConcat(mem, l, [b], next);
    SegmentOne(mem, b, next);
    hide Segment, Increasing;
    var m := mem;
    if l == [] {
      Parts(l, r);
    } else {
      var p := l[|l| - 1].addr;
      Retarget(mem, l, b.addr, next);
      m := mem[p := mem[p].(next := next)];
      SegmentFrame(mem, r, 0, p, m[p]);
      SegmentConcat(m, l, r, 0);
    }
    SegmentFrame(m, l + r, 0, b.addr, mem[b.addr].(isFree := false));
  }

  lemma AroundIncreasing(l: seq<Block>, b: Block, r: seq<Block>)
    requires Increasing(l + [b] + r)
    ensures Increasing(l) && 0 < b.addr && Apart(r, 0)
    ensures l != [] ==> Apart(r, l[|l| - 1].addr) && l[|l| - 1].addr != b.addr && l[|l| - 1].addr != 0
  {
    var f := l + [b] + r;
    assert forall i :: 0 <= i < |l| ==> l[i] == f[i];
    assert b == f[|l|];
    assert forall i :: 0 <= i < |r| ==> r[i] == f[|l| + 1 + i];
  }

  lemma AroundApart(l: seq<Block>, b: Block, r: seq<Block>)
    requires Increasing(l + [b] + r)
    ensures Increasing(l + r) && Apart(l + r, b.addr) && Apart(l, b.addr)
  {
    var f, g := l + [b] + r, l + r;
    assert forall i :: 0 <= i < |l| ==> g[i] == f[i];
    assert forall i :: |l| <= i < |g| ==> g[i] == f[i + 1];
    assert b == f[|l|];
    ApartFront(l, r, b.addr);
  }

  /** Pointing the last header of a segment elsewhere. */
  lemma Retarget(mem: Memory, l: seq<Block>, after: nat, after': nat)
    requires l != [] && Segment(mem, l, after) && Increasing(l)
    ensures l[|l| - 1].addr in mem
    ensures var a := l[|l| - 1].addr;
            Segment(mem[a := mem[a].(next := after')], l, after')
  {
  }

  lemma WeaveLeftParts(l: seq<Block>, b: Block)
    ensures var w := WeaveLeft(l, b);
            && |l| <= |w| <= |l| + 1 && w != []
            && (if l == [] then w == [b] && w[..|w| - 1] == [] else w[0].addr == l[0].addr)
  {
  }

  lemma PartsIncreasing(l: seq<Block>, r: seq<Block>)
    requires Increasing(l + r)
    ensures Increasing(l) && (r != [] ==> r[0].addr != 0)
    ensures Apart(r, 0) && (l != [] ==> Apart(r, l[|l| - 1].addr))
  {
    assert forall i :: 0 <= i < |l| ==> l[i] == (l + r)[i];
    assert forall i :: 0 <= i < |r| ==> r[i] == (l + r)[|l| + i];
  }

  lemma WeaveAtEnd(l: seq<Block>, b: Block)
    ensures Weave(l, b, []) == WeaveLeft(l, b)
    ensures l == [] ==> WeaveLeft(l, b) == [b]
  {
  }

  /** Merging to the left first and to the right afterwards weaves the block in. */
  lemma WeaveInTwo(l: seq<Block>, b: Block, r: seq<Block>)
    requires r != []
    ensures var w := WeaveLeft(l, b);
            var e := w[|w| - 1];
            && (e.End() == r[0].addr <==> b.End() == r[0].addr)
            && Weave(l, b, r) == w[..|w| - 1] +
                 (if e.End() == r[0].addr then [Block(e.addr, e.size + HEADER + r[0].size)] + r[1..] else [e] + r)
  {
  }

  lemma PageIs16(x: nat)
    requires x % PAGE == 0
    ensures Is16(x) && (x >= HEADER ==> Is16(x - HEADER))
  {
  }

  lemma WholeArena(ptr: nat, bytes: nat)
    requires PAGE <= bytes && ptr % PAGE == 0 && bytes % PAGE == 0
    ensures var t := Tile(ptr, bytes - HEADER, true);
            && Tiled([t], ptr, ptr + bytes) && FreeOf([t]) == [Block(t.addr, t.size)]
            && Bytes([t], true) == t.size && Bytes([t], false) == 0
  {
    var t := Tile(ptr, bytes - HEADER, true);
    PageIs16(ptr);
    PageIs16(bytes);
    hide Is16;
    SoundOne(t);
    FreeOfOne(t);
    BytesFew(t, t, t, true);
    BytesFew(t, t, t, false);
  }

  /** A block 16 bytes larger than asked for is handed out whole and counted at the size asked. */
  method CountersDrift() returns (heap: Allocator, ptr: nat, used: nat)
    ensures ptr == 4112 && heap.tiles == [Tile(4096, 4080, false)] && used == 4064
  {
    heap := new Allocator(4080, 4096);
    assert heap.tiles == [Tile(4096, 4080, true)];
    ptr := heap.Allocate(4064);
    used := heap.GetUsedMem();
  }
}
