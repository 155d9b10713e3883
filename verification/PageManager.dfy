/** The page manager (kernel/src/Memory/PageManager.cpp): page objects over a virtual page
    manager, a page table and the physical frame allocator. */
module PageManager {
  import opened Machine
  import opened VirtualSpace
  import opened SizeIndex
  import opened VirtualPageManager
  import opened FrameAllocator
  import opened PageObjects

  /** The physical address of a page; 0 when it is not mapped. */
  function Physical(table: Table, v: nat): nat
  {
    if v in table then table[v] else 0
  }

  /** The test for allocating inside a reservation. */
  predicate Offers(o: PageObject, addr: nat, count: nat, perms: Permissions)
  {
    && Region(o.addr, o.addr + o.count * PAGE).IsInside(addr, Bytes(count))
    && o.standby && !o.inUse && o.perms == perms
  }

  /** The first object from `i` on that offers the pages; `|os|` when there is none. */
  function FirstOffer(os: seq<PageObject>, i: nat, addr: nat, count: nat, perms: Permissions): (k: nat)
    requires i <= |os|
    ensures i <= k <= |os|
    ensures k < |os| ==> Offers(os[k], addr, count, perms)
    ensures forall j :: i <= j < k ==> !Offers(os[j], addr, count, perms)
    decreases |os| - i
  {
    if i == |os| || Offers(os[i], addr, count, perms) then i else FirstOffer(os, i + 1, addr, count, perms)
  }

  /** The test for an address that is already taken. */
  predicate Clashes(o: PageObject, addr: nat, count: nat)
  {
    if count == 1 then o.addr == addr else Region(o.addr, o.addr + o.count * PAGE).IsInside(addr, Bytes(count))
  }

  /** Object `k` reduced to the given pages and put in use, what was left and right of them
      appended; all in 64-bit arithmetic. */
  function Carve(os: seq<PageObject>, k: nat, addr: nat, count: nat): seq<PageObject>
    requires k < |os| && os[k].addr <= addr
  {
    var o := os[k];
    var before := (addr - o.addr) / PAGE;
    var rest := if addr > o.addr then Wrap(o.count - before) else o.count;
    os[k := PageObject(addr, if count < rest then count else rest, true, false, o.perms)]
    + (if addr > o.addr then [o.(count := before)] else [])
    + (if count < rest then [o.(addr := Wrap(addr + Bytes(count)), count := rest - count)] else [])
  }

  /** `v` is the address of one of the pages, as the mapping loop computes it. */
  ghost predicate IsMapped(addr: nat, count: nat, v: nat)
  {
    exists j: nat {:trigger WrapAt(addr, j)} :: j < count && v == WrapAt(addr, j)
  }

  function WrapAt(addr: nat, j: nat): nat
  {
    Wrap(addr + PAGE * j)
  }

  /** Frame `f` backs one of the first `n` pages from `addr`. */
  ghost predicate Frees(table: Table, addr: nat, n: nat, f: nat)
  {
    exists j: nat {:trigger PageAt(addr, j)} :: j < n && Physical(table, PageAt(addr, j)) / PAGE == f
  }

  function PageAt(addr: nat, j: nat): nat
  {
    addr + PAGE * j
  }

  class PageManager {
    const vpm: Manager
    const frames: Frames
    var objects: seq<PageObject>
    var table: Table

    constructor (vpm: Manager, frames: Frames)
      requires vpm.Valid() && frames.Valid()
      ensures Valid() && this.vpm == vpm && this.frames == frames && objects == [] && table == map[]
    {
      this.vpm, this.frames := vpm, frames;
      objects, table := [], map[];
    }

    /** Every mapped page has a frame that is marked used. */
    ghost predicate FramesHeld()
      requires frames.Sized()
      reads this`table, frames.bitmap.buffer
    {
      forall v :: v in table ==> table[v] % PAGE == 0 && frames.Taken(table[v] / PAGE)
    }

    ghost predicate Valid()
      reads this, vpm, frames, frames.bitmap.buffer
    {
      && vpm.Valid() && frames.Valid()
      && Aligned(objects, vpm.region.start)
      && Sound(objects, Counts(vpm.used), table) && FramesHeld()
    }

    /** Every used byte lies in some object. */
    ghost predicate Complete()
      reads this, vpm
    {
      Claims(objects, Counts(vpm.used))
    }

    /** The first standby object the request falls into. */
    method FindStandby(addr: nat, count: nat, perms: Permissions) returns (k: nat)
      ensures k == FirstOffer(objects, 0, addr, count, perms)
    {
      k := 0;
      while k < |objects|
        invariant k <= |objects|
        invariant FirstOffer(objects, 0, addr, count, perms) == FirstOffer(objects, k, addr, count, perms)
      {
        if Offers(objects[k], addr, count, perms) {
          return;
        }
        k := k + 1;
      }
    }

    method FindClash(addr: nat, count: nat) returns (clash: bool)
      ensures clash <==> exists i :: 0 <= i < |objects| && Clashes(objects[i], addr, count)
    {
      var i := 0;
      while i < |objects|
        invariant i <= |objects|
        invariant forall j :: 0 <= j < i ==> !Clashes(objects[j], addr, count)
      {
        if Clashes(objects[i], addr, count) {
          return true;
        }
        i := i + 1;
      }
      return false;
    }

    /** Give each of the pages a frame; running out of frames is a kernel panic. */
    method MapPages(addr: nat, count: nat) returns (panicked: bool)
      requires frames.Valid() && FramesHeld() && Injective(table)
      modifies this`table, frames, frames.bitmap.buffer
      ensures frames.Valid() && FramesHeld() && Injective(table)
      ensures Keeps(old(table), table, addr, count)
      ensures forall v: nat :: v in table && (v in old(table) ==> table[v] != old(table)[v]) ==>
                (var f := table[v] / PAGE; !old(frames.Taken(f)))
      ensures !panicked ==> Adds(old(table), table, addr, count)
      ensures panicked <==> |old(frames.Available())| < count
      ensures !panicked ==> |frames.Available()| == |old(frames.Available())| - count
      ensures forall f: nat :: old(frames.Taken(f)) ==> frames.Taken(f)
    {
      hide Frames.Taken, Frames.Available, Frames.CacheSound, Injective, Keeps, Adds;
      var j := 0;
      NoneMapped(table, addr);
      while j < count
        invariant j <= count
        invariant frames.Valid() && FramesHeld() && Injective(table)
        invariant Keeps(old(table), table, addr, j) && Adds(old(table), table, addr, j)
        invariant forall v: nat :: v in table && (v in old(table) ==> table[v] != old(table)[v]) ==>
                    (var f := table[v] / PAGE; !old(frames.Taken(f)))
        invariant forall f: nat :: old(frames.Taken(f)) ==> frames.Taken(f)
        invariant |frames.Available()| == |old(frames.Available())| - j
      {
        var page := frames.AllocatePage();
        if page.None? {
          KeepsMore(old(table), table, addr, j, count);
          return true;
        }
        NextMapped(old(table), table, addr, j, page.value);
        MapOne(table, WrapAt(addr, j), page.value);
        table := table[WrapAt(addr, j) := page.value];
        j := j + 1;
      }
      return false;
    }

    /** There is virtual space for the pages, not at address 0, and no object claims the address. */
    ghost predicate SpaceFor(count: nat, addr: nat)
      reads this`objects, vpm
    {
      && count > 0
      && (addr == 0 ==> (exists b :: b in vpm.free && vpm.free[b] >= count) && vpm.BestFit(count) != 0)
      && (addr != 0 ==> Fits(vpm.free, addr, count))
      && (addr != 0 ==> forall i :: 0 <= i < |objects| ==> !Clashes(objects[i], addr, count))
    }

    /** The virtual page manager hands out the pages at address 0, which passes for failure. */
    ghost predicate Leaks(count: nat, addr: nat)
      reads vpm
    {
      addr == 0 < count && (exists b :: b in vpm.free && vpm.free[b] >= count) && vpm.BestFit(count) == 0
    }

    lemma NoLeak(count: nat, addr: nat)
      requires addr != 0
      ensures !Leaks(count, addr)
    {
    }

    /** Pages of virtual space that no object holds, at `addr` when it is given. */
    method FindSpace(count: nat, addr: nat) returns (virt: nat)
      requires vpm.Valid() && count < PAGES && addr < WORD
      requires addr != 0 ==> (addr - vpm.region.start) % PAGE == 0
      modifies vpm
      ensures vpm.Valid()
      ensures virt == 0 ==>
                vpm.used == if old(Leaks(count, addr)) then old(vpm.used)[0 := Entry(count, false)] else old(vpm.used)
      ensures virt != 0 ==>
                && (addr == 0 || virt == addr) && (virt - vpm.region.start) % PAGE == 0 && virt + PAGE * count < WORD
                && forall p: int :: InRange(virt, count, p) ==> !Holds(Counts(old(vpm.used)), p)
      ensures virt != 0 ==>
                forall p: int :: Holds(Counts(vpm.used), p) <==>
                    Holds(Counts(old(vpm.used)), p) || InRange(virt, count, p)
      ensures forall p: int :: Holds(Counts(old(vpm.used)), p) ==> Holds(Counts(vpm.used), p)
      ensures virt != 0 <==> old(SpaceFor(count, addr))
      ensures old(Leaks(count, addr)) ==>
                virt == 0 && Holds(Counts(vpm.used), 0) && !Holds(Counts(old(vpm.used)), 0)
      ensures virt != 0 ==> vpm.used == old(vpm.used)[virt := Entry(count, false)]
      ensures virt != 0 && addr == 0 ==> BestTaken(old(vpm.free), vpm.free, virt, count)
    {
      hide Partition, Apart, Lists, Holds, Bytes, Clashes, Cleared;
      assert count % PAGES == count && count % HALF == count;
      ghost var free0, used0, lo, hi := vpm.free, vpm.used, vpm.region.start, vpm.region.Limit();
      if addr == 0 {
        ghost var hit;
        virt, hit := vpm.AllocateAny(count);
        if hit {
          BlockAligned(free0, lo, hi, virt);
          assert Contains(free0, virt, virt, count);
          UsedGrows(free0, used0, vpm.free, vpm.used, lo, hi, virt, count, virt);
          assert InRange(virt, count, virt);
        }
      } else {
        if count != 1 && !vpm.region.IsInside(addr, Bytes(count)) {
          OutsideMisses(free0, vpm.region, addr, count);
          return 0;
        }
        var clash := FindClash(addr, count);
        if clash {
          return 0;
        }
        virt := vpm.AllocateAt(addr, count);
        if virt != 0 {
          ghost var b: nat :| Contains(free0, b, addr, count);
          UsedGrows(free0, used0, vpm.free, vpm.used, lo, hi, addr, count, b);
        }
      }
    }

    /** Turn the given pages of a standby object into an object in use. */
    method CarveStandby(k: nat, addr: nat, count: nat, ghost used: Blocks, ghost lo: nat)
      requires k < |objects| && !objects[k].inUse && objects[k].addr <= addr < WORD && count < PAGES
      requires objects[k].count < WORD
      requires Disjoint(objects) && Backed(objects, used) && Aligned(objects, lo) && (addr - lo) % PAGE == 0
      modifies this`objects
      ensures objects == Carve(old(objects), k, addr, count)
      ensures Holding(old(objects)[k], addr, count) ==>
                && Disjoint(objects) && Backed(objects, used) && Aligned(objects, lo)
                && (forall v: nat :: MappedBy(objects, v) <==> MappedBy(old(objects), v) || IsPage(addr, count, v))
                && SameClaims(old(objects), objects)
    {
      hide Disjoint, Backed, MappedBy, IsPage, Aligned, Wrap, Bytes, Holding, SameClaims;
      CarveKeeps(objects, used, lo, k, addr, count);
      var o := objects[k];
      if addr > o.addr {
        var before := (addr - o.addr) / PAGE;
        var left, right := o.(count := before), o.(addr := addr, count := Wrap(o.count - before));
        objects := objects[k := right] + [left];
      }
      o := objects[k];
      if count < o.count {
        var right, left := o.(addr := Wrap(addr + Bytes(count)), count := o.count - count), o.(count := count);
        objects := objects[k := left] + [right];
      }
      o := objects[k];
      objects := objects[k := o.(inUse := true, standby := false)];
    }

    /** Allocate and map pages: inside a matching reservation when there is one, else in fresh
        virtual space.  The invariants are kept exactly when the reservation found really holds
        the pages, that is, when the end of the request does not wrap. */
    method AllocatePages(count: nat, perms: Permissions, addr: nat) returns (virt: nat, panicked: bool)
      requires Valid() && count < PAGES && addr < WORD
      requires addr != 0 ==> (addr - vpm.region.start) % PAGE == 0
      modifies this`objects, this`table, vpm, frames, frames.bitmap.buffer
      ensures !panicked ==> (Valid() <==> !old(WrapsInto(count, perms, addr)))
      ensures panicked <==> virt != 0 && |old(frames.Available())| < count
      ensures !panicked ==> |frames.Available()| == |old(frames.Available())| - if virt == 0 then 0 else count
      ensures var k := FirstOffer(old(objects), 0, addr, count, perms);
              if addr != 0 && k < |old(objects)| then
                virt == addr && objects == Carve(old(objects), k, addr, count) && vpm.used == old(vpm.used)
              else
                && (virt != 0 <==> old(SpaceFor(count, addr)))
                && (virt != 0 && addr != 0 ==> virt == addr)
                && objects == (if virt == 0 then old(objects)
                   else old(objects) + [PageObject(virt, count, true, false, perms)])
                && (virt != 0 ==> vpm.used == old(vpm.used)[virt := Entry(count, false)])
                && (virt != 0 && addr == 0 ==> BestTaken(old(vpm.free), vpm.free, virt, count))
                && (virt == 0 ==>
                      vpm.used == if old(Leaks(count, addr)) then old(vpm.used)[0 := Entry(count, false)]
                                  else old(vpm.used))
      ensures virt < WORD && (virt == 0 ==> !panicked && table == old(table))
      ensures Keeps(old(table), table, virt, count)
      ensures forall v: nat :: v in table && (v in old(table) ==> table[v] != old(table)[v]) ==>
                (var f := table[v] / PAGE; !old(frames.Taken(f)))
      ensures virt != 0 && !panicked ==> Adds(old(table), table, virt, count)
      ensures virt != 0 && !old(WrapsInto(count, perms, addr)) ==>
                forall v: nat :: IsMapped(virt, count, v) ==> IsPage(virt, count, v) && v !in old(table)
      ensures old(Complete() && !WrapsInto(count, perms, addr)) ==> (Complete() <==> !old(Leaks(count, addr)))
    {
      hide Disjoint, Backed, MappedBy, IsPage, Aligned, Offers, Partition, Holds, InRange, Injective, Claims,
           SpaceFor, Leaks, IsMapped, Frames.Taken, Frames.Available, Frames.CacheSound, Manager.Valid,
           Holding, Carve, Keeps, Adds, Valid;
      if addr != 0 {
        var k := FindStandby(addr, count, perms);
        if k < |objects| {
          NoLeak(count, addr);
          panicked := UseStandby(k, count, perms, addr);
          return addr, panicked;
        }
      }
      virt, panicked := UseFresh(count, perms, addr);
    }

    /** Allocation in virtual space that no object holds. */
    method UseFresh(count: nat, perms: Permissions, addr: nat) returns (virt: nat, panicked: bool)
      requires Valid() && count < PAGES && addr < WORD
      requires addr != 0 ==> (addr - vpm.region.start) % PAGE == 0
      modifies this`objects, this`table, vpm, frames, frames.bitmap.buffer
      ensures !panicked ==> Valid()
      ensures panicked <==> virt != 0 && |old(frames.Available())| < count
      ensures !panicked ==> |frames.Available()| == |old(frames.Available())| - if virt == 0 then 0 else count
      ensures virt != 0 <==> old(SpaceFor(count, addr))
      ensures virt != 0 && addr != 0 ==> virt == addr
      ensures objects ==
                if virt == 0 then old(objects) else old(objects) + [PageObject(virt, count, true, false, perms)]
      ensures virt != 0 ==> vpm.used == old(vpm.used)[virt := Entry(count, false)]
      ensures virt != 0 && addr == 0 ==> BestTaken(old(vpm.free), vpm.free, virt, count)
      ensures virt == 0 ==>
                vpm.used == if old(Leaks(count, addr)) then old(vpm.used)[0 := Entry(count, false)] else old(vpm.used)
      ensures virt < WORD && (virt == 0 ==> table == old(table)) && Keeps(old(table), table, virt, count)
      ensures forall v: nat :: v in table && (v in old(table) ==> table[v] != old(table)[v]) ==>
                (var f := table[v] / PAGE; !old(frames.Taken(f)))
      ensures virt != 0 && !panicked ==> Adds(old(table), table, virt, count)
      ensures virt != 0 ==> forall v: nat :: IsMapped(virt, count, v) ==> IsPage(virt, count, v) && v !in old(table)
      ensures old(Complete()) ==> (Complete() <==> !old(Leaks(count, addr)))
    {
      hide Disjoint, Backed, MappedBy, IsPage, Aligned, Partition, Holds, InRange, Injective, Claims, SpaceFor,
           Leaks, IsMapped, Frames.Taken, Frames.Available, Frames.CacheSound, Manager.Valid;
      ghost var used := Counts(vpm.used);
      virt := FindSpace(count, addr);
      if virt == 0 {
        BackedMore(objects, used, Counts(vpm.used));
        Leaked(objects, used, Counts(vpm.used));
        return 0, false;
      }
      var o := PageObject(virt, count, true, false, perms);
      ClaimedFresh(objects, used, Counts(vpm.used), o);
      FreshObject(objects, used, Counts(vpm.used), table, vpm.region.start, o);
      objects := objects + [o];
      MappedPages(virt, count);
      panicked := MapPages(virt, count);
    }

    /** The first reservation that offers the pages is one their end wraps into. */
    predicate WrapsInto(count: nat, perms: Permissions, addr: nat)
      reads this`objects
    {
      addr != 0 && FirstOffer(objects, 0, addr, count, perms) < |objects| && addr + PAGE * count >= WORD
    }

    /** Allocation inside reservation `k`. */
    method UseStandby(k: nat, count: nat, perms: Permissions, addr: nat) returns (panicked: bool)
      requires Valid() && count < PAGES && addr < WORD && (addr - vpm.region.start) % PAGE == 0
      requires k < |objects| && Offers(objects[k], addr, count, perms)
      modifies this`objects, this`table, frames, frames.bitmap.buffer
      ensures !panicked ==> (Valid() <==> addr + PAGE * count < WORD)
      ensures panicked <==> |old(frames.Available())| < count
      ensures !panicked ==> |frames.Available()| == |old(frames.Available())| - count
      ensures old(objects)[k].addr <= addr && objects == Carve(old(objects), k, addr, count)
      ensures Keeps(old(table), table, addr, count)
      ensures forall v: nat :: v in table && (v in old(table) ==> table[v] != old(table)[v]) ==>
                (var f := table[v] / PAGE; !old(frames.Taken(f)))
      ensures !panicked ==> Adds(old(table), table, addr, count)
      ensures addr + PAGE * count < WORD ==> forall v: nat :: IsMapped(addr, count, v) ==>
                IsPage(addr, count, v) && v !in old(table)
      ensures addr + PAGE * count < WORD && old(Complete()) ==> Complete()
    {
      hide Claimed, Disjoint, Backed, MappedBy, IsPage, Aligned, Partition, Holds, InRange, Injective, IsMapped,
           Frames.Taken, Frames.Available, Frames.CacheSound, Holding, Lists, Apart;
      ghost var used, os := Counts(vpm.used), objects;
      if addr + PAGE * count < WORD {
        OfferFits(objects[k], addr, count, perms);
        StandbyUnmapped(objects, table, k, addr, count, perms);
        MappedPages(addr, count);
      }
      ObjectSmall(objects, vpm.free, used, vpm.region, k);
      CarveStandby(k, addr, count, used, vpm.region.start);
      if addr + PAGE * count < WORD && Claims(os, used) {
        ClaimsSame(os, objects, used);
      }
      panicked := MapPages(addr, count);
      if addr + PAGE * count >= WORD && !panicked {
        Wrapped(os, objects, vpm.free, used, table, vpm.region, k, addr, count, perms);
      }
    }

    /** Set virtual space aside without mapping it. */
    method ReservePages(count: nat, perms: Permissions, addr: nat) returns (virt: nat)
      requires Valid() && count < PAGES && addr < WORD
      requires addr != 0 ==> (addr - vpm.region.start) % PAGE == 0
      modifies this`objects, vpm
      ensures Valid()
      ensures virt != 0 <==> old(SpaceFor(count, addr))
      ensures virt != 0 && addr != 0 ==> virt == addr
      ensures virt == 0 ==> objects == old(objects)
      ensures virt == 0 ==>
                vpm.used == if old(Leaks(count, addr)) then old(vpm.used)[0 := Entry(count, false)] else old(vpm.used)
      ensures virt != 0 ==> objects == old(objects) + [PageObject(virt, count, false, true, perms)]
      ensures virt != 0 ==> vpm.used == old(vpm.used)[virt := Entry(count, false)]
      ensures virt != 0 && addr == 0 ==> BestTaken(old(vpm.free), vpm.free, virt, count)
      ensures old(Complete()) ==> (Complete() <==> !old(Leaks(count, addr)))
    {
      hide Disjoint, Backed, MappedBy, IsPage, Aligned, Partition, Holds, InRange, Injective, SpaceFor,
           Leaks, Frames.Taken, Frames.Available, Frames.CacheSound, Manager.Valid;
      ghost var used := Counts(vpm.used);
      virt := FindSpace(count, addr);
      if virt == 0 {
        BackedMore(objects, used, Counts(vpm.used));
        Leaked(objects, used, Counts(vpm.used));
        return;
      }
      var o := PageObject(virt, count, false, true, perms);
      ClaimedFresh(objects, used, Counts(vpm.used), o);
      FreshObject(objects, used, Counts(vpm.used), table, vpm.region.start, o);
      objects := objects + [o];
    }

    /** Free the frame of each page and unmap it. */
    method ReleaseFrames(addr: nat, count: nat)
      requires frames.Valid()
      modifies this`table, frames, frames.bitmap.buffer
      ensures frames.Valid()
      ensures table == Without(old(table), addr, count)
      ensures forall f: nat :: frames.Taken(f) <==> old(frames.Taken(f)) && !Frees(old(table), addr, count, f)
    {
      hide Frames.Taken, Frames.CacheSound, IsPage, Frees;
      NoPage(addr);
      FreesNone(table, addr);
      var i := 0;
      while i < count
        invariant i <= count
        invariant frames.Valid()
        invariant table == Without(old(table), addr, i)
        invariant forall f: nat :: frames.Taken(f) <==> old(frames.Taken(f)) && !Frees(old(table), addr, i, f)
      {
        NextPage(addr, i, count);
        FreesNext(old(table), addr, i);
        frames.FreePage(Physical(table, PageAt(addr, i)));
        table := table - {PageAt(addr, i)};
        i := i + 1;
      }
    }

    /** Free the frames of object `k`, give its pages back, and drop it. */
    method Release(k: nat)
      requires Valid() && k < |objects| && objects[k].count > 0
      modifies this`objects, this`table, vpm, frames, frames.bitmap.buffer
      ensures var o := old(objects)[k];
              && objects == old(objects)[..k] + old(objects)[k + 1..]
              && table == Without(old(table), o.addr, o.count)
              && vpm.Valid() && vpm.used == GivenBack(old(vpm.used), o)
              && vpm.free == FreeAgain(old(vpm.free), old(vpm.used), o)
              && frames.Valid() && (forall f: nat :: frames.Taken(f) <==>
                   old(frames.Taken(f)) && !Frees(old(table), o.addr, o.count, f))
              && (Valid() <==> o.inUse || !ZeroMapped(old(table)))
              && (old(Complete()) ==> (Complete() <==> Whole(old(vpm.used), o)))
    {
      hide Frames.Taken, Frames.CacheSound, IsPage, Frees, Disjoint, Backed, Aligned, MappedBy, Injective,
           Partition, Holds, ZeroMapped, Apart, Claims;
      var o := objects[k];
      ghost var os, t, free, used := objects, table, vpm.free, vpm.used;
      ObjectInside(objects, vpm.free, Counts(vpm.used), vpm.region, k);
      vpm.UnlockPages(o.addr, o.count);
      ReleaseFrames(o.addr, o.count);
      objects := objects[..k] + objects[k + 1..];
      RemovedBacked(os, free, used, vpm.used, vpm.region.start, vpm.region.Limit(), k);
      RemovedMapped(os, t, k);
      RemovedClaims(os, free, used, vpm.used, vpm.region.start, vpm.region.Limit(), k);
      SparedExactly(os, t, k);
      assert FramesHeld() <==> Spared(t, table, o.addr, o.count);
      assert Sound(objects, Counts(vpm.used), table);
    }

    method FindObject(addr: nat, single: bool) returns (k: nat)
      ensures k == FirstObject(objects, 0, addr, single)
    {
      k := 0;
      while k < |objects|
        invariant k <= |objects|
        invariant FirstObject(objects, 0, addr, single) == FirstObject(objects, k, addr, single)
      {
        if IsObject(objects[k], addr, single) {
          return;
        }
        k := k + 1;
      }
    }

    /** Free the one-page object at `addr`. */
    method FreePage(addr: nat)
      requires Valid()
      modifies this`objects, this`table, vpm, frames, frames.bitmap.buffer
      ensures Freed(old(objects), old(table), old(vpm.free), old(vpm.used), addr, true)
      ensures forall f: nat :: frames.Valid() && (frames.Taken(f) <==>
                old(frames.Taken(f)) && !FreedFrame(old(objects), old(table), addr, true, f))
      ensures Valid() <==>
                (var k := FirstObject(old(objects), 0, addr, true);
                 k == |old(objects)| || old(objects)[k].inUse || !ZeroMapped(old(table)))
      ensures old(Complete()) ==>
                (Complete() <==>
                   (var k := FirstObject(old(objects), 0, addr, true);
                    k == |old(objects)| || Whole(old(vpm.used), old(objects)[k])))
    {
      var k := FindObject(addr, true);
      if k < |objects| {
        Release(k);
      }
    }

    /** Free the object of several pages at `addr`. */
    method FreePages(addr: nat)
      requires Valid()
      modifies this`objects, this`table, vpm, frames, frames.bitmap.buffer
      ensures Freed(old(objects), old(table), old(vpm.free), old(vpm.used), addr, false)
      ensures forall f: nat :: frames.Valid() && (frames.Taken(f) <==>
                old(frames.Taken(f)) && !FreedFrame(old(objects), old(table), addr, false, f))
      ensures Valid() <==>
                (var k := FirstObject(old(objects), 0, addr, false);
                 k == |old(objects)| || old(objects)[k].inUse || !ZeroMapped(old(table)))
      ensures old(Complete()) ==>
                (Complete() <==>
                   (var k := FirstObject(old(objects), 0, addr, false);
                    k == |old(objects)| || Whole(old(vpm.used), old(objects)[k])))
    {
      var k := FindObject(addr, false);
      if k < |objects| {
        Release(k);
      }
    }

    /** The objects, page table and used blocks after freeing the object found at `addr`. */
    ghost predicate Freed(os: seq<PageObject>, t: Table, free: Blocks, used: map<nat, Entry>, addr: nat, single: bool)
      reads this, vpm
    {
      var k := FirstObject(os, 0, addr, single);
      if k == |os| then objects == os && table == t && vpm.free == free && vpm.used == used
      else
        && objects == os[..k] + os[k + 1..] && table == Without(t, os[k].addr, os[k].count)
        && vpm.free == FreeAgain(free, used, os[k]) && vpm.used == GivenBack(used, os[k])
    }
  }

  /** The object is a whole used block. */
  predicate Whole(used: map<nat, Entry>, o: PageObject)
  {
    o.addr in used && used[o.addr] == Entry(o.count, false)
  }

  /** Only an object that is a whole used block gives its pages back. */
  function GivenBack(used: map<nat, Entry>, o: PageObject): map<nat, Entry>
  {
    if Whole(used, o) then used - {o.addr} else used
  }

  function FreeAgain(free: Blocks, used: map<nat, Entry>, o: PageObject): Blocks
  {
    if Whole(used, o) then free[o.addr := o.count] else free
  }

  /** The tests by which the two freeing calls pick an object. */
  predicate IsObject(o: PageObject, addr: nat, single: bool)
  {
    o.addr == addr && if single then o.count == 1 else o.count > 1
  }

  function FirstObject(os: seq<PageObject>, i: nat, addr: nat, single: bool): (k: nat)
    requires i <= |os|
    ensures i <= k <= |os|
    ensures k < |os| ==> os[k].addr == addr && if single then os[k].count == 1 else os[k].count > 1
    ensures forall j :: i <= j < k ==> os[j].addr != addr || if single then os[j].count != 1 else os[j].count <= 1
    decreases |os| - i
  {
    if i == |os| || IsObject(os[i], addr, single) then i else FirstObject(os, i + 1, addr, single)
  }

  ghost predicate FreedFrame(os: seq<PageObject>, t: Table, addr: nat, single: bool, f: nat)
  {
    var k := FirstObject(os, 0, addr, single);
    k < |os| && Frees(t, os[k].addr, os[k].count, f)
  }

  /** Frame 0 backs some page. */
  ghost predicate ZeroMapped(t: Table)
  {
    exists v :: v in t && t[v] == 0
  }

  /** None of the pages still mapped lost its frame. */
  ghost predicate Spared(t: Table, t': Table, addr: nat, count: nat)
  {
    forall v :: v in t' ==> !Frees(t, addr, count, t'[v] / PAGE)
  }

  lemma RemovedBacked(os: seq<PageObject>, free: Blocks, used: map<nat, Entry>, used': map<nat, Entry>, lo: nat,
      hi: nat, k: nat)
    requires Disjoint(os) && Backed(os, Counts(used)) && Aligned(os, lo) && k < |os|
             && Partition(free, Counts(used), lo, hi)
    requires used' == GivenBack(used, os[k])
    ensures var os' := os[..k] + os[k + 1..]; Disjoint(os') && Backed(os', Counts(used')) && Aligned(os', lo)
  {
    var a := os[k].addr;
    if used' != used {
      assert Counts(used') == Counts(used) - {a};
      forall p: int ensures Holds(Counts(used), p) && !In(os[k], p) ==> Holds(Counts(used'), p) {
        DropHolds(Counts(used), lo, hi, a, p);
      }
    }
    Removed(os, Counts(used), Counts(used'), k);
  }

  /** Without an object every used byte still lies in one exactly when the object's own bytes
      are no longer used. */
  lemma RemovedClaims(os: seq<PageObject>, free: Blocks, used: map<nat, Entry>, used': map<nat, Entry>, lo: nat,
                      hi: nat, k: nat)
    requires Disjoint(os) && Backed(os, Counts(used)) && k < |os| && os[k].count > 0
    requires Partition(free, Counts(used), lo, hi) && used' == GivenBack(used, os[k])
    ensures Claims(os, Counts(used)) ==> (Claims(os[..k] + os[k + 1..], Counts(used')) <==> Whole(used, os[k]))
  {
    hide Disjoint, Backed, Claimed, Holds, Partition;
    var o, os' := os[k], os[..k] + os[k + 1..];
    if Whole(used, o) {
      assert Counts(used') == Counts(used) - {o.addr};
      forall p: int | Holds(Counts(used'), p) && Claims(os, Counts(used)) ensures Claimed(os', p) {
        DroppedByte(free, Counts(used), lo, hi, o.addr, p);
        ClaimedRemoved(os, k, p);
      }
    } else {
      assert In(o, o.addr);
      assert Holds(Counts(used), o.addr) by { FirstBacked(os, Counts(used), k); }
      ClaimedRemoved(os, k, o.addr);
    }
  }

  lemma FirstBacked(os: seq<PageObject>, used: Blocks, k: nat)
    requires Backed(os, used) && k < |os| && os[k].count > 0
    ensures Holds(used, os[k].addr)
  {
    assert In(os[k], os[k].addr);
  }

  /** A byte held without a block was held with it, and lies outside it. */
  lemma DroppedByte(free: Blocks, used: Blocks, lo: nat, hi: nat, a: nat, p: int)
    requires Partition(free, used, lo, hi) && a in used && Holds(used - {a}, p)
    ensures Holds(used, p) && !InRange(a, used[a], p)
  {
    DropHolds(used, lo, hi, a, p);
  }

  lemma Leaked(os: seq<PageObject>, used: Blocks, used': Blocks)
    requires Backed(os, used)
    ensures Holds(used', 0) && !Holds(used, 0) ==> !Claims(os, used')
  {
    hide Holds, Backed, Claims;
    if Holds(used', 0) && !Holds(used, 0) {
      Unclaimed(os, used, used', 0);
    }
  }

  lemma ClaimedFresh(os: seq<PageObject>, used: Blocks, used': Blocks, o: PageObject)
    requires forall p: int :: Holds(used', p) <==> Holds(used, p) || InRange(o.addr, o.count, p)
    ensures Claims(os, used) ==> Claims(os + [o], used')
  {
    hide Holds, InRange, Claims;
    if Claims(os, used) {
      ClaimsMore(os, used, used', o);
    }
  }

  lemma RemovedMapped(os: seq<PageObject>, t: Table, k: nat)
    requires Disjoint(os) && Mapped(os, t) && k < |os|
    ensures Mapped(os[..k] + os[k + 1..], Without(t, os[k].addr, os[k].count))
  {
    var os', t' := os[..k] + os[k + 1..], Without(t, os[k].addr, os[k].count);
    forall v: nat ensures v in t' <==> MappedBy(os', v) {
      RemovedMaps(os, k, v);
      if os[k].inUse {
        OnlyOwner(os, k, v);
      } else if In(os[k], v) {
        IdleUnmapped(os, k, v);
      }
    }
  }

  /** Inside an object, only that object maps pages. */
  lemma OnlyOwner(os: seq<PageObject>, k: nat, v: int)
    requires Disjoint(os) && k < |os| && os[k].inUse
    ensures MappedBy(os, v) && In(os[k], v) <==> IsPage(os[k].addr, os[k].count, v)
  {
    if In(os[k], v) {
      forall i | 0 <= i < |os| && i != k ensures !In(os[i], v) {
        assert if i < k then Separate(os[i], os[k]) else Separate(os[k], os[i]);
      }
    }
  }

  /** Freeing an object spares the other pages' frames unless it was not mapped and frame 0 is in use. */
  lemma SparedExactly(os: seq<PageObject>, t: Table, k: nat)
    requires Disjoint(os) && Mapped(os, t) && k < |os| && os[k].count > 0
    requires forall v :: v in t ==> t[v] % PAGE == 0
    ensures Spared(t, Without(t, os[k].addr, os[k].count), os[k].addr, os[k].count)
       <==> os[k].inUse || !ZeroMapped(t)
  {
    var o, t' := os[k], Without(t, os[k].addr, os[k].count);
    if o.inUse {
      forall v | v in t' ensures !Frees(t, o.addr, o.count, t'[v] / PAGE) {
        forall j: nat | j < o.count ensures Physical(t, PageAt(o.addr, j)) / PAGE != t'[v] / PAGE {
          OwnPage(os, t, k, j);
        }
      }
    } else {
      forall j: nat | j < o.count ensures Physical(t, PageAt(o.addr, j)) == 0 {
        IdleUnmapped(os, k, PageAt(o.addr, j));
      }
      assert Frees(t, o.addr, o.count, 0) by { assert Physical(t, PageAt(o.addr, 0)) / PAGE == 0; }
      forall v: nat | v in t ensures v in t' {
        if IsPage(o.addr, o.count, v) { IdleUnmapped(os, k, v); }
      }
    }
  }

  lemma OwnPage(os: seq<PageObject>, t: Table, k: nat, j: nat)
    requires Disjoint(os) && Mapped(os, t) && k < |os| && os[k].inUse && j < os[k].count
    ensures PageAt(os[k].addr, j) in t && IsPage(os[k].addr, os[k].count, PageAt(os[k].addr, j))
  {
    NextPage(os[k].addr, j, os[k].count);
    assert MappedBy(os, PageAt(os[k].addr, j));
  }

  function Without(table: Table, addr: nat, count: nat): Table
  {
    map v | v in table && !IsPage(addr, count, v) :: table[v]
  }

  lemma FreesNone(table: Table, addr: nat)
    ensures forall f: nat :: !Frees(table, addr, 0, f)
  {
  }

  lemma FreesNext(table: Table, addr: nat, n: nat)
    ensures forall f: nat :: Frees(table, addr, n + 1, f) <==>
              Frees(table, addr, n, f) || f == Physical(table, PageAt(addr, n)) / PAGE
  {
    forall f: nat ensures Frees(table, addr, n + 1, f) <==>
        Frees(table, addr, n, f) || f == Physical(table, PageAt(addr, n)) / PAGE {
      if Frees(table, addr, n, f) {
        var j: nat :| j < n && Physical(table, PageAt(addr, j)) / PAGE == f;
        assert j < n + 1;
      }
    }
  }

  lemma ObjectInside(os: seq<PageObject>, free: Blocks, used: Blocks, r: Region, k: nat)
    requires r.start <= r.end < WORD
    requires Partition(free, used, r.start, r.Limit()) && Backed(os, used) && k < |os| && os[k].count > 0
    ensures r.start <= os[k].addr && os[k].addr + PAGE * os[k].count <= r.Limit() <= r.end
    ensures Bytes(os[k].count) == PAGE * os[k].count && os[k].count < WORD
    ensures r.IsInside(os[k].addr, Bytes(os[k].count))
  {
    var first, last := os[k].addr, os[k].addr + PAGE * os[k].count - 1;
    assert In(os[k], first) && In(os[k], last);
    HeldInside(used, r.start, r.Limit(), first);
    HeldInside(used, r.start, r.Limit(), last);
  }

  lemma StandbyUnmapped(os: seq<PageObject>, table: Table, k: nat, addr: nat, count: nat, perms: Permissions)
    requires Disjoint(os) && Mapped(os, table) && k < |os| && Offers(os[k], addr, count, perms)
    requires Holding(os[k], addr, count)
    ensures forall v: nat :: IsPage(addr, count, v) ==> v !in table
  {
    forall v: nat | IsPage(addr, count, v) ensures v !in table {
      IdleUnmapped(os, k, v);
    }
  }

  lemma FreshObject(os: seq<PageObject>, used: Blocks, used': Blocks, table: Table, lo: nat, o: PageObject)
    requires Sound(os, used, table) && Aligned(os, lo) && (o.addr - lo) % PAGE == 0
    requires forall p: int :: InRange(o.addr, o.count, p) ==> !Holds(used, p)
    requires forall p: int :: Holds(used', p) <==> Holds(used, p) || InRange(o.addr, o.count, p)
    ensures Disjoint(os + [o]) && Backed(os + [o], used') && Aligned(os + [o], lo)
    ensures forall v: nat :: IsPage(o.addr, o.count, v) ==> v !in table
    ensures forall v: nat :: MappedBy(os + [o], v) <==> MappedBy(os, v) || (o.inUse && IsPage(o.addr, o.count, v))
  {
    Appended(os, used, used', o);
    forall v: nat ensures MappedBy(os + [o], v) <==> MappedBy(os, v) || (o.inUse && IsPage(o.addr, o.count, v)) {
      AppendedMaps(os, o, v);
    }
    forall v: nat | IsPage(o.addr, o.count, v) ensures v !in table {
      UnbackedUnmapped(os, used, v);
    }
  }

  /** The pages were cut from the start of a smallest sufficient block. */
  ghost predicate BestTaken(free: Blocks, free': Blocks, virt: nat, count: nat)
  {
    && virt in free && count <= free[virt] && free' == TakeFrom(free, virt, count)
    && forall b :: b in free && free[b] >= count ==> free[virt] <= free[b]
  }

  /** The pages lie inside the object. */
  predicate Holding(o: PageObject, addr: nat, count: nat)
  {
    o.addr <= addr && addr + PAGE * count <= o.addr + PAGE * o.count && addr + PAGE * count < WORD
  }

  /** Without wrap-around, an offer holds the requested pages. */
  lemma OfferFits(o: PageObject, addr: nat, count: nat, perms: Permissions)
    requires count < PAGES && addr + PAGE * count < WORD && Offers(o, addr, count, perms)
    ensures Holding(o, addr, count)
  {
  }

  /** A reservation is offered for a request that does not wrap exactly when it holds the pages, is
      still unused, and is for the same use. */
  lemma OffersExactly(o: PageObject, addr: nat, count: nat, perms: Permissions)
    requires addr + PAGE * count < WORD && o.addr + PAGE * o.count < WORD
    ensures Offers(o, addr, count, perms) <==>
              && o.addr <= addr && addr + PAGE * count <= o.addr + PAGE * o.count
              && o.standby && !o.inUse && o.perms == perms
  {
  }

  /** Byte `p` is set aside, unused, for the given use. */
  ghost predicate Reserved(os: seq<PageObject>, perms: Permissions, p: int)
  {
    exists i :: 0 <= i < |os| && In(os[i], p) && os[i].standby && !os[i].inUse && os[i].perms == perms
  }

  lemma ReservedAppend(os: seq<PageObject>, o: PageObject, perms: Permissions, p: int)
    ensures Reserved(os + [o], perms, p) <==>
              Reserved(os, perms, p) || (In(o, p) && o.standby && !o.inUse && o.perms == perms)
  {
    var os' := os + [o];
    if Reserved(os, perms, p) {
      var i :| 0 <= i < |os| && In(os[i], p) && os[i].standby && !os[i].inUse && os[i].perms == perms;
      assert os'[i] == os[i];
    }
    assert os'[|os|] == o;
  }

  /** An object put in use no longer reserves its bytes, and no other object held them. */
  lemma ReservedTaken(os: seq<PageObject>, k: nat, o: PageObject, perms: Permissions, p: int)
    requires Disjoint(os) && k < |os| && o.inUse
    ensures Reserved(os[k := o], perms, p) <==> Reserved(os, perms, p) && !In(os[k], p)
  {
    var os' := os[k := o];
    if Reserved(os', perms, p) {
      var i :| 0 <= i < |os'| && In(os'[i], p) && os'[i].standby && !os'[i].inUse && os'[i].perms == perms;
      assert os[i] == os'[i];
      assert if i < k then Separate(os[i], os[k]) else Separate(os[k], os[i]);
    }
    if Reserved(os, perms, p) && !In(os[k], p) {
      var i :| 0 <= i < |os| && In(os[i], p) && os[i].standby && !os[i].inUse && os[i].perms == perms;
      assert os'[i] == os[i];
    }
  }

  /** Using part of a reservation gives an object of just the pages and the use asked for, and
      takes just those pages out of what is reserved. */
  lemma CarveGives(os: seq<PageObject>, lo: nat, k: nat, addr: nat, count: nat, perms: Permissions)
    requires Disjoint(os) && Aligned(os, lo) && (addr - lo) % PAGE == 0 && k < |os| && count < PAGES
    requires addr + PAGE * count < WORD && os[k].addr + PAGE * os[k].count < WORD && Offers(os[k], addr, count, perms)
    ensures os[k].addr <= addr
    ensures var os' := Carve(os, k, addr, count);
            && k < |os'| && os'[k] == PageObject(addr, count, true, false, perms)
            && forall q: Permissions, p: int :: Reserved(os', q, p) <==> Reserved(os, q, p) && !InRange(addr, count, p)
  {
    hide Disjoint, Reserved, Aligned, Bytes, Wrap;
    OffersExactly(os[k], addr, count, perms);
    AlignedAt(os, lo, k, addr);
    var o := os[k];
    CarveParts(o, addr, count);
    var os' := Carve(os, k, addr, count);
    var before := (addr - o.addr) / PAGE;
    var left, right := o.(count := before), o.(addr := addr + PAGE * count, count := o.count - before - count);
    var taken := PageObject(addr, count, true, false, perms);
    var os1 := if addr > o.addr then os[k := taken] + [left] else os[k := taken];
    assert os' == if count < o.count - before then os1 + [right] else os1;
    forall q: Permissions, p: int ensures Reserved(os', q, p) <==> Reserved(os, q, p) && !InRange(addr, count, p) {
      ReservedTaken(os, k, taken, q, p);
      ReservedAppend(os[k := taken], left, q, p);
      ReservedAppend(os1, right, q, p);
      if In(o, p) {
        ReservedHere(os, k, q, p);
      }
    }
  }

  lemma ReservedHere(os: seq<PageObject>, k: nat, perms: Permissions, p: int)
    requires Disjoint(os) && k < |os| && os[k].standby && !os[k].inUse && In(os[k], p)
    ensures Reserved(os, perms, p) <==> os[k].perms == perms
  {
  }

  /** At an address asked for, the test against the objects adds nothing: there is space exactly
      when one free block holds the pages. */
  lemma SpaceExactly(pm: PageManager, count: nat, addr: nat)
    requires pm.Valid() && addr != 0 && count < PAGES && forall o :: o in pm.objects ==> o.count > 0
    ensures pm.SpaceFor(count, addr) <==> count > 0 && Fits(pm.vpm.free, addr, count)
  {
    hide Lists, Apart, Disjoint, Mapped, Aligned, Fits, Partition, Holds, Frames.Taken, Frames.CacheSound;
    var vpm := pm.vpm;
    if count > 0 && Fits(vpm.free, addr, count) {
      HitIsUnused(vpm.free, vpm.used, vpm.region.start, vpm.region.Limit(), addr, count);
      LimitInside(vpm.region);
      forall i | 0 <= i < |pm.objects| ensures !Clashes(pm.objects[i], addr, count) {
        NoClash(pm.objects, Counts(vpm.used), i, addr, count);
      }
    }
  }

  lemma NoClash(os: seq<PageObject>, used: Blocks, i: nat, addr: nat, count: nat)
    requires Backed(os, used) && i < |os| && os[i].count > 0 && 0 < count < PAGES && addr + PAGE * count < WORD
    requires forall p: int :: addr <= p < addr + PAGE * count ==> !Holds(used, p)
    ensures !Clashes(os[i], addr, count)
  {
    assert In(os[i], addr) ==> Holds(used, addr);
  }

  /** The arithmetic of carving is exact for pages inside the object. */
  lemma CarveParts(o: PageObject, addr: nat, count: nat)
    requires o.addr <= addr < WORD && o.count < WORD && (addr - o.addr) % PAGE == 0 && count < PAGES
    ensures var before := (addr - o.addr) / PAGE;
            Holding(o, addr, count) ==>
              && addr == o.addr + PAGE * before && before + count <= o.count
              && Wrap(o.count - before) == o.count - before
              && Wrap(addr + Bytes(count)) == addr + PAGE * count
  {
  }

  lemma ObjectSmall(os: seq<PageObject>, free: Blocks, used: Blocks, r: Region, k: nat)
    requires r.start <= r.end < WORD
    requires Partition(free, used, r.start, r.Limit()) && Backed(os, used) && k < |os|
    ensures os[k].count < WORD && (os[k].addr < WORD ==> os[k].addr + PAGE * os[k].count < WORD)
  {
    if os[k].count > 0 {
      ObjectInside(os, free, used, r, k);
    }
  }

  /** Nothing beyond the address space is backed, and no page that ends there is mapped. */
  lemma NothingBeyond(os: seq<PageObject>, free: Blocks, used: Blocks, r: Region)
    requires r.start <= r.end < WORD && Partition(free, used, r.start, r.Limit())
    ensures Backed(os, used) ==> forall i, p: int :: 0 <= i < |os| && In(os[i], p) ==> p < WORD - 1
    ensures Backed(os, used) ==> forall v: int :: MappedBy(os, v) ==> v + PAGE < WORD
  {
    if Backed(os, used) {
      forall i, p: int | 0 <= i < |os| && In(os[i], p) ensures p < WORD - 1 {
        HeldInside(used, r.start, r.Limit(), p);
      }
      forall v: int | MappedBy(os, v) ensures v + PAGE < WORD {
        var i :| 0 <= i < |os| && os[i].inUse && IsPage(os[i].addr, os[i].count, v);
        PageInside(os[i].addr, os[i].count, v);
        assert In(os[i], v + PAGE - 1);
      }
    }
  }

  lemma PageInside(addr: nat, count: nat, v: int)
    requires IsPage(addr, count, v)
    ensures v + PAGE <= addr + PAGE * count
  {
    var j := (v - addr) / PAGE;
    assert v == addr + PAGE * j;
  }

  /** Carving pages whose end wraps leaves an object beyond the address space, or maps a page
      that no object holds. */
  lemma Wrapped(os: seq<PageObject>, os': seq<PageObject>, free: Blocks, used: Blocks, table: Table, r: Region,
                k: nat, addr: nat, count: nat, perms: Permissions)
    requires r.start <= r.end < WORD && Partition(free, used, r.start, r.Limit())
    requires Backed(os, used) && Aligned(os, r.start) && k < |os| && Offers(os[k], addr, count, perms)
    requires addr < WORD <= addr + PAGE * count && count < PAGES && (addr - r.start) % PAGE == 0
    requires os[k].addr <= addr && os' == Carve(os, k, addr, count)
    requires forall v: nat :: IsMapped(addr, count, v) ==> v in table
    ensures !Sound(os', used, table)
  {
    hide Disjoint, Backed, MappedBy, Injective, Partition, Aligned;
    ObjectSmall(os, free, used, r, k);
    NothingBeyond(os', free, used, r);
    AlignedAt(os, r.start, k, addr);
    var o := os[k];
    var before := (addr - o.addr) / PAGE;
    assert addr == o.addr + PAGE * before;
    if before > o.count {
      var rest := Wrap(o.count - before);
      assert rest == WORD + o.count - before && count < rest;
      var last := os'[|os'| - 1];
      assert last.count == rest - count;
      assert In(last, last.addr + PAGE * last.count - 1);
    } else {
      TopPage(addr, count);
    }
  }

  /** The page at the top of the address space is among those mapped. */
  lemma TopPage(addr: nat, count: nat)
    requires addr < WORD <= addr + PAGE * count
    ensures exists v: nat :: IsMapped(addr, count, v) && v + PAGE >= WORD
  {
    var j := (WORD - 1 - addr) / PAGE;
    var v := addr + PAGE * j;
    assert v < WORD <= v + PAGE && j < count;
    assert v == WrapAt(addr, j);
    assert IsMapped(addr, count, v);
  }

  /** Only the given pages got another frame. */
  ghost predicate Keeps(t: Table, t': Table, addr: nat, count: nat)
  {
    forall v: nat :: v in t && !IsMapped(addr, count, v) ==> v in t' && t'[v] == t[v]
  }

  /** Exactly the given pages are mapped besides those that were. */
  ghost predicate Adds(t: Table, t': Table, addr: nat, count: nat)
  {
    forall v: nat :: v in t' <==> v in t || IsMapped(addr, count, v)
  }

  lemma NoneMapped(t: Table, addr: nat)
    ensures Keeps(t, t, addr, 0) && Adds(t, t, addr, 0)
  {
  }

  lemma NextMapped(t: Table, t': Table, addr: nat, j: nat, f: nat)
    requires Keeps(t, t', addr, j) && Adds(t, t', addr, j)
    ensures var t'' := t'[WrapAt(addr, j) := f]; Keeps(t, t'', addr, j + 1) && Adds(t, t'', addr, j + 1)
  {
    assert IsMapped(addr, j + 1, WrapAt(addr, j));
    forall v: nat ensures IsMapped(addr, j + 1, v) <==> IsMapped(addr, j, v) || v == WrapAt(addr, j) {
      if IsMapped(addr, j, v) {
        MappedMore(addr, j, j + 1, v);
      }
    }
  }

  lemma MappedMore(addr: nat, j: nat, count: nat, v: nat)
    requires j <= count && IsMapped(addr, j, v)
    ensures IsMapped(addr, count, v)
  {
    var i: nat :| i < j && v == WrapAt(addr, i);
    assert i < count;
  }

  lemma KeepsMore(t: Table, t': Table, addr: nat, j: nat, count: nat)
    requires Keeps(t, t', addr, j) && j <= count
    ensures Keeps(t, t', addr, count)
  {
    forall v: nat | v in t && !IsMapped(addr, count, v) ensures v in t' && t'[v] == t[v] {
      if IsMapped(addr, j, v) {
        MappedMore(addr, j, count, v);
      }
    }
  }

  /** Without wrap-around the addresses the loop computes are those of the pages. */
  lemma MappedPages(addr: nat, count: nat)
    requires addr + PAGE * count < WORD
    ensures forall v: nat :: IsMapped(addr, count, v) <==> IsPage(addr, count, v)
  {
    forall v: nat ensures IsMapped(addr, count, v) <==> IsPage(addr, count, v) {
      if IsMapped(addr, count, v) {
        var j: nat :| j < count && v == WrapAt(addr, j);
        assert v - addr == PAGE * j;
      }
      if IsPage(addr, count, v) {
        var j := (v - addr) / PAGE;
        assert v == addr + PAGE * j && v == WrapAt(addr, j);
      }
    }
  }

  lemma BackedMore(os: seq<PageObject>, used: Blocks, used': Blocks)
    requires Backed(os, used) && forall p: int {:trigger Holds(used', p)} :: Holds(used, p) ==> Holds(used', p)
    ensures Backed(os, used')
  {
    hide Holds, In;
    forall i, p: int | 0 <= i < |os| && In(os[i], p) ensures Holds(used', p) {
      assert Holds(used, p);
    }
  }

  /** The bounds test agrees with containment exactly when the end does not wrap into the region. */
  lemma InsideExactly(r: Region, mem: nat, size: nat)
    requires r.start <= r.end < WORD && mem < WORD && size < WORD
    ensures (r.IsInside(mem, size) <==> r.start <= mem && mem + size <= r.end)
       <==> (mem + size < WORD || mem < r.start || mem + size - WORD > r.end)
  {
  }

  /** The last page of the address space passes for part of any reservation. */
  lemma LastPageOffered(o: PageObject)
    requires o.addr < WORD && o.standby && !o.inUse
    ensures Offers(o, WORD - PAGE, 1, o.perms) <==> o.addr <= WORD - PAGE
  {
    assert Bytes(1) == PAGE && Wrap(WORD) == 0;
  }

  /** Carving pages that lie inside the object keeps the objects apart and backed, maps those
      pages and leaves no byte out. */
  lemma CarveKeeps(os: seq<PageObject>, used: Blocks, lo: nat, k: nat, addr: nat, count: nat)
    requires k < |os| && !os[k].inUse && os[k].addr <= addr < WORD && count < PAGES && os[k].count < WORD
    requires Disjoint(os) && Backed(os, used) && Aligned(os, lo) && (addr - lo) % PAGE == 0
    ensures var os' := Carve(os, k, addr, count);
            Holding(os[k], addr, count) ==>
              && Disjoint(os') && Backed(os', used) && Aligned(os', lo) && SameClaims(os, os')
              && forall v: nat :: MappedBy(os', v) <==> MappedBy(os, v) || IsPage(addr, count, v)
  {
    hide Disjoint, Backed, MappedBy, IsPage, Aligned, Wrap, Bytes, Holding, SameClaims, Recut;
    if Holding(os[k], addr, count) {
      AlignedAt(os, lo, k, addr);
      CarveParts(os[k], addr, count);
      Offset(lo, addr, addr);
      Uncut(os);
      var o, os1 := os[k], os;
      var before := (addr - o.addr) / PAGE;
      if addr > o.addr {
        var left, right := o.(count := before), o.(addr := addr, count := o.count - before);
        CutInTwo(os, os, used, lo, k, right, left);
        os1 := os[k := right] + [left];
      }
      var m, os2 := os1[k], os1;
      if count < m.count {
        var right, left := m.(addr := addr + PAGE * count, count := m.count - count), m.(count := count);
        CutInTwo(os, os1, used, lo, k, left, right);
        os2 := os1[k := left] + [right];
      }
      Started(os, os2, used, lo, k, os2[k].(inUse := true, standby := false));
      assert os2[k := os2[k].(inUse := true, standby := false)] == Carve(os, k, addr, count);
    }
  }

  /** The objects were only cut: the same bytes lie in objects and the same pages are mapped. */
  ghost predicate Recut(os: seq<PageObject>, os': seq<PageObject>)
  {
    SameClaims(os, os') && forall v: int :: MappedBy(os', v) <==> MappedBy(os, v)
  }

  lemma Uncut(os: seq<PageObject>)
    ensures Recut(os, os)
  {
  }

  /** One of two halves stays in place, the other is appended; nothing in use changes. */
  lemma CutInTwo(first: seq<PageObject>, os: seq<PageObject>, used: Blocks, lo: nat, k: nat, a: PageObject,
                 b: PageObject)
    requires Recut(first, os)
    requires Disjoint(os) && Backed(os, used) && k < |os| && !os[k].inUse && !a.inUse && !b.inUse
    requires Aligned(os, lo) && (a.addr - lo) % PAGE == 0 && (b.addr - lo) % PAGE == 0
    requires a.count + b.count == os[k].count
    requires (a.addr == os[k].addr && b.addr == a.addr + PAGE * a.count)
             || (b.addr == os[k].addr && a.addr == b.addr + PAGE * b.count)
    ensures Disjoint(os[k := a] + [b]) && Backed(os[k := a] + [b], used) && Aligned(os[k := a] + [b], lo)
    ensures Recut(first, os[k := a] + [b])
  {
    CutObject(os, used, k, a, b);
    hide Claimed, MappedBy;
    forall p: int ensures Claimed(os[k := a] + [b], p) <==> Claimed(first, p) {
      ClaimedCut(os, k, a, b, p);
    }
    forall v: int ensures MappedBy(os[k := a] + [b], v) <==> MappedBy(first, v) {
      UpdatedMaps(os, k, a, v);
      AppendedMaps(os[k := a], b, v);
    }
  }

  /** Putting an idle object in use maps exactly its pages. */
  lemma Started(first: seq<PageObject>, os: seq<PageObject>, used: Blocks, lo: nat, k: nat, o: PageObject)
    requires Recut(first, os)
    requires Disjoint(os) && Backed(os, used) && Aligned(os, lo) && k < |os| && !os[k].inUse
    requires o.inUse && o.addr == os[k].addr && o.count == os[k].count
    ensures Disjoint(os[k := o]) && Backed(os[k := o], used) && Aligned(os[k := o], lo)
    ensures forall v: int :: MappedBy(os[k := o], v) <==> MappedBy(first, v) || IsPage(o.addr, o.count, v)
    ensures SameClaims(first, os[k := o])
  {
    hide Claimed, MappedBy;
    var os' := os[k := o];
    forall p: int ensures Claimed(os', p) <==> Claimed(first, p) {
      ClaimedUpdate(os, k, o, p);
    }
    forall i, j | 0 <= i < j < |os'| ensures Separate(os'[i], os'[j]) {
      assert Separate(os[i], os[j]);
    }
    forall i, p: int | 0 <= i < |os'| && In(os'[i], p) ensures Holds(used, p) {
      assert In(os[i], p);
    }
    forall v: int ensures MappedBy(os', v) <==> MappedBy(first, v) || IsPage(o.addr, o.count, v) {
      UpdatedMaps(os, k, o, v);
    }
  }

  lemma AlignedAt(os: seq<PageObject>, lo: nat, k: nat, addr: nat)
    requires Aligned(os, lo) && k < |os| && (addr - lo) % PAGE == 0
    ensures (addr - os[k].addr) % PAGE == 0 && (os[k].addr - lo) % PAGE == 0
  {
    Offset(lo, addr, os[k].addr);
  }

  lemma BlockAligned(m: Blocks, lo: nat, hi: nat, a: nat)
    requires Apart(m, lo, hi) && a in m
    ensures (a - lo) % PAGE == 0
  {
  }

  lemma NoPage(addr: nat)
    ensures forall v: nat :: !IsPage(addr, 0, v)
  {
  }

  lemma NextPage(addr: nat, j: nat, count: nat)
    requires j < count
    ensures forall v: nat :: IsPage(addr, j + 1, v) <==> IsPage(addr, j, v) || v == PageAt(addr, j)
    ensures IsPage(addr, count, PageAt(addr, j)) && !IsPage(addr, j, PageAt(addr, j))
  {
    forall v: nat ensures IsPage(addr, j + 1, v) <==> IsPage(addr, j, v) || v == PageAt(addr, j) {
      var d := (v - addr) / PAGE;
      assert v - addr == PAGE * d + (v - addr) % PAGE;
      assert IsPage(addr, j + 1, v) ==> d <= j;
    }
  }

  lemma MapOne(table: Table, v: nat, f: nat)
    requires Injective(table)
    requires forall w :: w in table ==> table[w] != f
    ensures Injective(table[v := f])
  {
  }

  /** What the free blocks lose, the used blocks gain. */
  lemma UsedGrows(free: Blocks, used: map<nat, Entry>, free': Blocks, used': map<nat, Entry>, lo: nat, hi: nat,
                  addr: nat, count: nat, b: nat)
    requires Partition(free, Counts(used), lo, hi) && Partition(free', Counts(used'), lo, hi)
    requires Contains(free, b, addr, count)
    requires Cleared(free, free', true, addr, count)
    ensures addr + PAGE * count <= hi
    ensures forall p: int :: InRange(addr, count, p) ==> !Holds(Counts(used), p)
    ensures forall p: int :: Holds(Counts(used'), p) <==> Holds(Counts(used), p) || InRange(addr, count, p)
  {
    forall p: int
      ensures InRange(addr, count, p) ==> !Holds(Counts(used), p)
      ensures Holds(Counts(used'), p) <==> Holds(Counts(used), p) || InRange(addr, count, p)
    {
      assert InRange(addr, count, p) ==> Covers(free, b, p);
      HeldInside(Counts(used), lo, hi, p);
      HeldInside(Counts(used'), lo, hi, p);
      HeldInside(free, lo, hi, p);
    }
  }

  lemma HeldInside(m: Blocks, lo: nat, hi: nat, p: int)
    requires Apart(m, lo, hi)
    ensures Holds(m, p) ==> lo <= p < hi
  {
    if Holds(m, p) {
      var a: nat :| Covers(m, a, p);
      assert lo <= a && a + PAGE * m[a] <= hi;
    }
  }
}
