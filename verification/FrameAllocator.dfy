/** The bitmap (kernel/src/Data-structures/Bitmap.cpp) and the physical page frame allocator on
    top of it (kernel/src/Memory/PhysicalPageFrameAllocator.cpp). */
module FrameAllocator {
  import opened Options
  import opened Machine

  /** Bit `k` of a byte, the most significant first. */
  function Mask(k: nat): bv8
    requires k < 8
  {
    0x80 >> k
  }

  predicate BitOf(b: bv8, k: nat)
    requires k < 8
  {
    b & Mask(k) > 0
  }

  function WithBit(b: bv8, k: nat, value: bool): bv8
    requires k < 8
  {
    if value then b | Mask(k) else b & !Mask(k)
  }

  lemma WithBitIs(b: bv8, k: nat, value: bool, j: nat)
    requires k < 8 && j < 8
    ensures BitOf(WithBit(b, k, value), j) == if j == k then value else BitOf(b, j)
  {
    Masks(k);
    Masks(j);
  }

  lemma Masks(k: nat)
    requires k < 8
    ensures Mask(k) == if k == 0 then 0x80 else if k == 1 then 0x40 else if k == 2 then 0x20 else if k == 3 then 0x10
                       else if k == 4 then 0x08 else if k == 5 then 0x04 else if k == 6 then 0x02 else 0x01
  {
  }

  class Bitmap {
    const size: nat
    const buffer: array<bv8>

    constructor (buffer: array<bv8>)
      ensures this.buffer == buffer && size == buffer.Length
    {
      this.buffer, size := buffer, buffer.Length;
    }

    /** Bits past the end read as clear. */
    predicate Get(index: nat)
      requires size == buffer.Length
      reads buffer
    {
      index / 8 < size && BitOf(buffer[index / 8], index % 8)
    }

    /** Bits past the end cannot be set. */
    method Set(index: nat, value: bool)
      requires size == buffer.Length
      modifies buffer
      ensures forall j: nat :: Get(j) == if j == index && index / 8 < size then value else old(Get(j))
    {
      if index / 8 >= size {
        return;
      }
      var b := buffer[index / 8];
      buffer[index / 8] := WithBit(b, index % 8, value);
      forall j: nat ensures Get(j) == if j == index then value else old(Get(j)) {
        if j / 8 == index / 8 {
          WithBitIs(b, index % 8, value, j % 8);
        }
      }
    }
  }

  /** "No frame": an offset no bitmap can have. */
  const NONE: nat := WORD - 1

  class Frames {
    const bitmap: Bitmap
    var nextFree: nat
    var freeMem: int
    var usedMem: int
    var reservedMem: int

    /** An allocator over the given bitmap, with the cache empty. */
    constructor (bitmap: Bitmap, freeMem: int, reservedMem: int)
      requires bitmap.size == bitmap.buffer.Length && bitmap.size * 8 * PAGE <= WORD
      ensures Valid() && this.bitmap == bitmap && nextFree == NONE
      ensures this.freeMem == freeMem && usedMem == 0 && this.reservedMem == reservedMem
    {
      this.bitmap, this.freeMem, this.reservedMem := bitmap, freeMem, reservedMem;
      usedMem, nextFree := 0, NONE;
    }

    function Count(): nat
    {
      bitmap.size * 8
    }

    predicate Sized()
    {
      bitmap.size == bitmap.buffer.Length && Count() * PAGE <= WORD
    }

    /** Frame `i` is handed out, reserved, or otherwise unavailable. */
    predicate Taken(i: nat)
      requires Sized()
      reads bitmap.buffer
    {
      bitmap.Get(i)
    }

    /** The frames that can still be handed out. */
    ghost function Available(): set<nat>
      requires Sized()
      reads bitmap.buffer
    {
      set f: nat | f < Count() && !Taken(f)
    }

    /** The cache is empty or names a frame that is there and free. */
    predicate CacheSound()
      requires Sized()
      reads this, bitmap.buffer
    {
      nextFree == NONE || (nextFree < Count() && !Taken(nextFree))
    }

    predicate Valid()
      reads this, bitmap.buffer
    {
      Sized() && CacheSound()
    }

    function Total(): int
      reads this
    {
      freeMem + usedMem + reservedMem
    }

    /** By how much the counter of free memory differs from the frames that are free. */
    ghost function Excess(): int
      requires Sized()
      reads this, bitmap.buffer
    {
      freeMem - PAGE * |Available()|
    }

    /** One frame changed hands: the number of free frames follows. */
    twostate lemma OneChanged(f: nat)
      requires Sized() && f < Count()
      requires forall k: nat :: k != f ==> (Taken(k) <==> old(Taken(k)))
      requires Taken(f) != old(Taken(f))
      ensures |Available()| == |old(Available())| + if Taken(f) then -1 else 1
    {
      if Taken(f) {
        assert Available() == old(Available()) - {f};
      } else {
        assert Available() == old(Available()) + {f};
      }
    }

    twostate lemma Counted(f: nat)
      requires Sized() && forall k: nat :: k != f ==> (Taken(k) <==> old(Taken(k)))
      ensures f < Count() && Taken(f) != old(Taken(f)) ==>
                |Available()| == |old(Available())| + if Taken(f) then -1 else 1
      ensures f >= Count() || Taken(f) == old(Taken(f)) ==> |Available()| == |old(Available())|
    {
      if f < Count() && Taken(f) != old(Taken(f)) {
        OneChanged(f);
      } else {
        assert Available() == old(Available());
      }
    }

    /** A free frame, which stops being cached; `NONE` exactly when every frame is taken. */
    method FindFreePage() returns (i: nat)
      requires Valid()
      modifies this`nextFree
      ensures Valid()
      ensures i == NONE <==> forall k: nat :: k < Count() ==> Taken(k)
      ensures i != NONE ==> i < Count() && !Taken(i) && nextFree != i
      ensures i != NONE ==> nextFree == if i + 1 < Count() && !Taken(i + 1) then i + 1 else NONE
      ensures if old(nextFree) != NONE then i == old(nextFree) else i != NONE ==> IsFirstFree(i)
    {
      if nextFree != NONE {
        i := nextFree;
        if i + 1 < Count() && !Taken(i + 1) {
          nextFree := i + 1;
        } else {
          nextFree := NONE;
        }
        assert !Taken(i);
        return;
      }
      i := 0;
      while i < Count()
        invariant 0 <= i <= Count()
        invariant forall k: nat :: k < i ==> Taken(k)
      {
        if !Taken(i) {
          if i + 1 < Count() && !Taken(i + 1) {
            nextFree := i + 1;
          }
          assert !Taken(i);
          return;
        }
        i := i + 1;
      }
      i := NONE;
    }

    /** Set one bit, and count the frame as used if it was free. */
    method LockPage(page: nat)
      requires Sized()
      modifies this`freeMem, this`usedMem, bitmap.buffer
      ensures Sized() && Total() == old(Total())
      ensures forall k: nat :: Taken(k) <==> old(Taken(k)) || (k == page / PAGE && k < Count())
      ensures Excess() == old(Excess()) - if page / PAGE < Count() then 0 else PAGE
    {
      if Taken(page / PAGE) {
        return;
      }
      bitmap.Set(page / PAGE, true);
      freeMem := freeMem - PAGE;
      usedMem := usedMem + PAGE;
      Counted(page / PAGE);
    }

    /** One frame, never one already handed out; `None` (the kernel panics) exactly when every
        frame is taken. */
    method AllocatePage() returns (page: Option<nat>)
      requires Valid()
      modifies this`nextFree, this`freeMem, this`usedMem, bitmap.buffer
      ensures Valid() && Total() == old(Total())
      ensures page == None <==> forall k: nat :: k < Count() ==> old(Taken(k))
      ensures page.Some? ==> page.value % PAGE == 0 && page.value / PAGE < Count() && !old(Taken(page.value / PAGE))
      ensures forall k: nat :: Taken(k) <==> old(Taken(k)) || (page.Some? && k == page.value / PAGE)
      ensures |Available()| == |old(Available())| - if page.Some? then 1 else 0
      ensures Excess() == old(Excess())
      ensures page == None <==> old(Available()) == {}
      ensures page.Some? ==>
                if old(nextFree) != NONE then page.value / PAGE == old(nextFree)
                else old(IsFirstFree(page.value / PAGE))
    {
      ghost var before := Available();
      var index := FindFreePage();
      assert forall k: nat :: Taken(k) <==> old(Taken(k));
      assert Available() == before;
      if index == NONE {
        return None;
      }
      assert index in before;
      LockPage(index * PAGE);
      assert Available() == before - {index};
      return Some(index * PAGE);
    }

    /** Clear one bit and remember the frame; a clear bit, or one past the end, is left alone. */
    method FreePage(page: nat)
      requires Valid()
      modifies this`nextFree, this`freeMem, this`usedMem, bitmap.buffer
      ensures Valid() && Total() == old(Total())
      ensures forall k: nat :: Taken(k) <==> old(Taken(k)) && k != page / PAGE
      ensures Excess() == old(Excess())
      ensures nextFree == if old(Taken(page / PAGE)) then page / PAGE else old(nextFree)
    {
      if !Taken(page / PAGE) {
        return;
      }
      bitmap.Set(page / PAGE, false);
      freeMem := freeMem + PAGE;
      usedMem := usedMem - PAGE;
      nextFree := page / PAGE;
      Counted(page / PAGE);
    }

    method ReservePage(page: nat)
      requires Valid()
      modifies this`nextFree, this`freeMem, this`reservedMem, bitmap.buffer
      ensures Valid() && Total() == old(Total())
      ensures forall k: nat :: Taken(k) <==> old(Taken(k)) || (k == page / PAGE && k < Count())
      ensures Excess() == old(Excess()) - if page / PAGE < Count() then 0 else PAGE
      ensures nextFree == if old(nextFree) == page / PAGE then NONE else old(nextFree)
    {
      if Taken(page / PAGE) {
        return;
      }
      bitmap.Set(page / PAGE, true);
      freeMem := freeMem - PAGE;
      reservedMem := reservedMem + PAGE;
      if nextFree == page / PAGE {
        nextFree := NONE;
      }
      Counted(page / PAGE);
    }

    method UnreservePage(page: nat)
      requires Valid()
      modifies this`nextFree, this`freeMem, this`reservedMem, bitmap.buffer
      ensures Valid() && Total() == old(Total())
      ensures forall k: nat :: Taken(k) <==> old(Taken(k)) && k != page / PAGE
      ensures Excess() == old(Excess())
      ensures nextFree == if old(Taken(page / PAGE)) then page / PAGE else old(nextFree)
    {
      if !Taken(page / PAGE) {
        return;
      }
      bitmap.Set(page / PAGE, false);
      freeMem := freeMem + PAGE;
      reservedMem := reservedMem - PAGE;
      nextFree := page / PAGE;
      Counted(page / PAGE);
    }

    /** A run of clear bits, scanning from the bottom.  Bits past the end count as clear, one bit
        more than asked for must be clear, and a request for one frame is answered with eight
        times its number. */
    method FindFreePages(count: nat) returns (r: nat)
      requires Valid() && count + Count() < WORD
      modifies this`nextFree
      ensures count != 1 ==> Valid()
      ensures count == 0 ==> r == NONE
      ensures count == 1 ==>
                if forall k: nat :: k < Count() ==> Taken(k) then r == NONE && nextFree == old(nextFree)
                else exists i: nat ::
                  IsFirstFree(i) && r == 8 * i && nextFree == if old(nextFree) == i then NONE else old(nextFree)
      ensures count >= 2 && r != NONE ==> r < Count() && Clear(r, count) && !(r <= nextFree < r + count)
      ensures count >= 2 ==> forall i: nat :: i < Count() && (r != NONE ==> i < r) ==> !Clear(i, count)
    {
      if count == 0 {
        return NONE;
      }
      if count == 1 {
        var i := FirstFree();
        if i == NONE {
          return NONE;
        }
        if nextFree == i {
          nextFree := NONE;
        }
        assert IsFirstFree(i) && !Taken(i);
        return i * 8;
      }
      r := FirstRun(count);
      if r != NONE && nextFree >= r && r + count > nextFree {
        nextFree := NONE;
      }
    }

    /** The scan for a single clear bit. */
    method FirstFree() returns (i: nat)
      requires Sized()
      ensures i == NONE <==> forall k: nat :: k < Count() ==> Taken(k)
      ensures i != NONE ==> IsFirstFree(i)
    {
      i := 0;
      while i < Count()
        invariant 0 <= i <= Count()
        invariant forall k: nat :: k < i ==> Taken(k)
      {
        if !Taken(i) {
          return;
        }
        i := i + 1;
      }
      return NONE;
    }

    /** The scan for a run of clear bits, skipping to the bit that ended the last attempt. */
    method FirstRun(count: nat) returns (r: nat)
      requires Sized() && count >= 2
      ensures r != NONE ==> r < Count() && Clear(r, count)
      ensures forall i: nat :: i < Count() && (r != NONE ==> i < r) ==> !Clear(i, count)
    {
      r := 0;
      while r < Count()
        invariant forall i: nat :: i < r && i < Count() ==> !Clear(i, count)
      {
        var next := 1;
        if !Taken(r) {
          var found;
          found, next := RunFrom(r, count);
          if found {
            return;
          }
        }
        ghost var stop := if Taken(r) then r else r + next;
        assert forall i: nat :: r <= i < r + next ==> !Clear(i, count) by {
          assert Taken(stop);
        }
        r := r + next;
      }
      return NONE;
    }

    /** Does a run of clear bits start at `i`?  If not, `i + next` is the first bit that is set. */
    method RunFrom(i: nat, count: nat) returns (found: bool, next: nat)
      requires Sized() && !Taken(i) && count >= 2
      ensures found ==> Clear(i, count)
      ensures !found ==> 1 <= next <= count && Taken(i + next) && forall k: nat :: i <= k < i + next ==> !Taken(k)
    {
      next := 1;
      while next <= count
        invariant 1 <= next <= count + 1
        invariant forall k: nat :: i <= k < i + next ==> !Taken(k)
      {
        if Taken(i + next) {
          return false, next;
        }
        if count <= next {
          return true, next;
        }
        next := next + 1;
      }
      return true, next;
    }

    /** The lowest frame that is free. */
    ghost predicate IsFirstFree(i: nat)
      requires Sized()
      reads bitmap.buffer
    {
      i < Count() && !Taken(i) && forall k: nat :: k < i ==> Taken(k)
    }

    /** `count + 1` bits from `i` on all read as clear. */
    ghost predicate Clear(i: nat, count: nat)
      requires Sized()
      reads bitmap.buffer
    {
      forall k: nat :: i <= k <= i + count ==> !Taken(k)
    }

    /** A run of that many clear bits, and one more, starts inside memory and ends there. */
    ghost predicate RunInside(count: nat)
      requires Sized()
      reads bitmap.buffer
    {
      exists i: nat :: i + count <= Count() && Clear(i, count)
    }

    /** With `i` the lowest free frame, frame `8 * i` is there and free too. */
    ghost predicate EighthFree()
      requires Sized()
      reads bitmap.buffer
    {
      exists i: nat :: IsFirstFree(i) && 8 * i < Count() && !Taken(8 * i)
    }

    /** The lowest run is inside memory exactly when some run is. */
    lemma LowestInside(r: nat, count: nat)
      requires Sized() && count >= 2 && (r != NONE ==> r < Count() && Clear(r, count))
      requires forall i: nat :: i < Count() && (r != NONE ==> i < r) ==> !Clear(i, count)
      ensures r != NONE && r + count <= Count() <==> RunInside(count)
    {
      hide Clear, Taken;
    }

    lemma EighthIs(i: nat)
      requires Sized() && IsFirstFree(i)
      ensures EighthFree() <==> 8 * i < Count() && !Taken(8 * i)
    {
      forall j: nat | IsFirstFree(j) ensures j == i {
      }
    }

    /** The frames of a run that lie past the end of memory. */
    function Beyond(first: nat, count: nat): nat
    {
      if first + count <= Count() then 0 else if first >= Count() then count else first + count - Count()
    }

    method LockPages(start: nat, count: nat)
      requires Sized() && start % PAGE == 0
      modifies this`freeMem, this`usedMem, bitmap.buffer
      ensures Sized() && Total() == old(Total())
      ensures forall k: nat :: Taken(k) <==> old(Taken(k)) || (start / PAGE <= k < start / PAGE + count && k < Count())
      ensures Excess() == old(Excess()) - PAGE * Beyond(start / PAGE, count)
    {
      hide Taken, Available;
      for i := 0 to count
        invariant Total() == old(Total())
        invariant Excess() == old(Excess()) - PAGE * Beyond(start / PAGE, i)
        invariant forall k: nat :: Taken(k) <==> old(Taken(k)) || (start / PAGE <= k < start / PAGE + i && k < Count())
      {
        LockPage(i * PAGE + start);
      }
    }

    /** A run of frames.  For two frames or more, every frame of the run that exists was free and
        no other is touched; the run stays inside memory exactly when some run of clear bits that
        does was there to be found.  A request for one frame yields frame `8 * i`, with `i` the
        lowest free frame: a free frame exactly when frame `8 * i` is there and is free, and the
        cache is spoilt exactly when it named that frame. */
    method AllocatePages(count: nat) returns (page: Option<nat>)
      requires Valid() && count + Count() < WORD
      modifies this`nextFree, this`freeMem, this`usedMem, bitmap.buffer
      ensures Total() == old(Total()) && Sized()
      ensures page.Some? ==> page.value % PAGE == 0
      ensures Excess() == old(Excess()) - if page.Some? then PAGE * Beyond(page.value / PAGE, count) else 0
      ensures count >= 2 && page.Some? ==>
                forall k: nat :: page.value / PAGE <= k < page.value / PAGE + count ==> !old(Taken(k))
      ensures forall k: nat :: Taken(k) <==>
                (old(Taken(k)) || (page.Some? && page.value / PAGE <= k < page.value / PAGE + count && k < Count()))
      ensures count >= 2 ==>
                && Valid()
                && (page.Some? ==> page.value / PAGE < Count() && old(Clear(page.value / PAGE, count)))
                && (forall i: nat :: i < Count() && (page.Some? ==> i < page.value / PAGE) ==> !old(Clear(i, count)))
                && (page.Some? && page.value / PAGE + count <= Count() <==> old(RunInside(count)))
      ensures count == 1 ==>
                && (page.None? <==> forall k: nat :: k < Count() ==> old(Taken(k)))
                && (page.Some? ==>
                      && page.value / PAGE % 8 == 0 && old(IsFirstFree(page.value / PAGE / 8))
                      && (page.value / PAGE < Count() && !old(Taken(page.value / PAGE)) <==> old(EighthFree()))
                      && (Valid() <==> old(nextFree) != page.value / PAGE || page.value == 0))
    {
      hide Taken;
      var index := FindFreePages(count);
      assert forall i: nat :: Clear(i, count) <==> old(Clear(i, count));
      if count >= 2 {
        LowestInside(index, count);
      }
      if index == NONE {
        return None;
      }
      if count == 1 {
        EighthIs(index / 8);
      }
      hide Clear, IsFirstFree, RunInside, EighthFree;
      LockPages(index * PAGE, count);
      return Some(index * PAGE);
    }
  }

  /** The frame freed last is the next one handed out. */
  method ReusedFirst(frames: Frames, page: nat) returns (again: Option<nat>)
    requires frames.Valid() && page % PAGE == 0 && frames.Taken(page / PAGE)
    modifies frames, frames.bitmap.buffer
    ensures frames.Valid() && again == Some(page)
    ensures forall k: nat :: frames.Taken(k) <==> old(frames.Taken(k))
  {
    frames.FreePage(page);
    again := frames.AllocatePage();
  }

  /** Of eight frames the last two are free; a run of three is found there, one frame too long,
      and the counter of free memory ends a page below none. */
  method RunLeavesMemory() returns (frames: Frames, page: Option<nat>)
    ensures page == Some(6 * PAGE) && frames.Count() == 8 && frames.freeMem == -(PAGE as int)
    ensures forall k: nat :: frames.Sized() && (frames.Taken(k) <==> k < 8)
  {
    var buffer := new bv8[1](_ => 0xFC);
    var bitmap := new Bitmap(buffer);
    frames := new Frames(bitmap, 2 * PAGE, 0);
    forall k: nat ensures frames.Taken(k) <==> k < 6 {
      if k < 8 { Masks(k); }
    }
    assert frames.Clear(6, 3);
    forall i: nat | i < 6 ensures !frames.Clear(i, 3) {
      assert frames.Taken(i);
    }
    assert frames.Available() == {6, 7};
    page := frames.AllocatePages(3);
    assert frames.Available() == {};
  }

  /** Frame 1 is the lowest free one; a run of one frame is answered with frame 8, which was
      taken, and frame 1 stays free. */
  method OneFrameTwice() returns (frames: Frames, taken: bool, page: Option<nat>)
    ensures taken && page == Some(8 * PAGE) && frames.Sized() && !frames.Taken(1)
  {
    var buffer := new bv8[2](_ => 0xBF);
    var bitmap := new Bitmap(buffer);
    frames := new Frames(bitmap, 0, 0);
    forall k: nat ensures frames.Taken(k) <==> k < 16 && k != 1 && k != 9 {
      if k < 16 { Masks(k % 8); }
    }
    assert frames.IsFirstFree(1);
    taken := frames.Taken(8);
    page := frames.AllocatePages(1);
  }
}
