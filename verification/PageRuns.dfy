/** Runs of page manager calls that end in a state the invariants rule out. */
module PageRuns {
  import opened Machine
  import opened VirtualSpace
  import opened SizeIndex
  import opened VirtualPageManager
  import opened FrameAllocator
  import opened PageObjects
  import opened PageManager

  /** The eight frames of one bitmap byte. */
  method SmallFrames(bits: bv8) returns (frames: Frames)
    ensures frames.Valid() && frames.Count() == 8 && fresh(frames) && fresh(frames.bitmap.buffer)
    ensures forall f: nat :: frames.Taken(f) <==> f < 8 && BitOf(bits, f)
  {
    var buffer := new bv8[1](_ => bits);
    var bitmap := new Bitmap(buffer);
    frames := new Frames(bitmap, 0, 0);
  }

  /** A manager over sixteen pages and eight frames. */
  method Small(bits: bv8) returns (pm: PageManager)
    ensures pm.Valid() && Own(pm) && fresh(pm) && fresh(pm.vpm) && fresh(pm.frames) && fresh(pm.frames.bitmap.buffer)
    ensures pm.objects == [] && pm.table == map[] && pm.vpm.free == map[PAGE := 16] && pm.vpm.used == map[]
    ensures forall f: nat :: pm.frames.Taken(f) <==> f < 8 && BitOf(bits, f)
  {
    hide Partition, Lists, Apart, Holds, Frames.Taken, BitOf;
    var frames := SmallFrames(bits);
    var vpm := new Manager(Region(PAGE, 17 * PAGE));
    pm := new PageManager(vpm, frames);
  }

  predicate Own(pm: PageManager)
  {
    pm.vpm.region == Region(PAGE, 17 * PAGE) && pm.frames.Sized() && pm.frames.Count() == 8
  }

  /** In a region that does not start at address 0, any sufficient block makes space. */
  lemma SpaceAnywhere(pm: PageManager, count: nat, b: nat)
    requires pm.vpm.Valid() && Own(pm) && b in pm.vpm.free && pm.vpm.free[b] >= count > 0
    ensures pm.SpaceFor(count, 0)
  {
    hide Partition, Lists, Apart;
    var vpm := pm.vpm;
    KeysListed(vpm.index, vpm.free, count);
    var key := Higher(vpm.index, count).value;
    ChosenBlock(vpm.index, vpm.free, Counts(vpm.used), vpm.region.start, vpm.region.Limit(), key, count);
  }

  /** Reserve pages and ask for the last page of the address space: the request is granted, and
      the objects no longer describe the address space. */
  method WrapBreaks(perms: Permissions) returns (pm: PageManager, virt: nat)
    ensures virt == WORD - PAGE && !pm.Valid()
  {
    pm := Small(0);
    SpaceAnywhere(pm, 2, PAGE);
    var a := pm.ReservePages(2, perms, 0);
    LastPageOffered(pm.objects[0]);
    Masks(0);
    assert 0 in pm.frames.Available();
    var panicked;
    virt, panicked := pm.AllocatePages(1, perms, WORD - PAGE);
  }

  /** Reserve two pages and free them again: frame 0 is freed, nothing else changes but the cut
      in the free blocks, and the invariants survive exactly when frame 0 was not mapped. */
  method ReserveAndFree(pm: PageManager, perms: Permissions, b: nat) returns (virt: nat)
    requires pm.Valid() && Own(pm) && b in pm.vpm.free && pm.vpm.free[b] >= 2
    requires forall o :: o in pm.objects ==> o.count == 1
    modifies pm, pm.vpm, pm.frames, pm.frames.bitmap.buffer
    ensures pm.objects == old(pm.objects) && pm.table == old(pm.table)
    ensures BestTaken(old(pm.vpm.free), TakeFrom2(old(pm.vpm.free), virt), virt, 2)
    ensures pm.vpm.free == TakeFrom2(old(pm.vpm.free), virt)[virt := 2]
    ensures forall f: nat :: pm.frames.Taken(f) <==> old(pm.frames.Taken(f)) && f != 0
    ensures pm.Valid() <==> !ZeroMapped(old(pm.table))
  {
    hide Frames.Taken, Partition, Lists, Apart, Holds, ZeroMapped, Disjoint, Backed, Aligned, MappedBy,
         Injective, Frees, Frames.Available, PageManager.SpaceFor, FirstObject, IsPage;
    SpaceAnywhere(pm, 2, b);
    virt := pm.ReservePages(2, perms, 0);
    LastObject(old(pm.objects), pm.objects[|pm.objects| - 1], virt);
    IdleFrees(pm.objects, pm.table, |pm.objects| - 1);
    pm.FreePages(virt);
  }

  function TakeFrom2(m: Blocks, a: nat): Blocks
  {
    if a in m && m[a] >= 2 then TakeFrom(m, a, 2) else m
  }

  lemma LastObject(os: seq<PageObject>, o: PageObject, addr: nat)
    requires (forall x :: x in os ==> x.count == 1) && o.addr == addr && o.count == 2
    ensures var os' := os + [o]; FirstObject(os', 0, addr, false) == |os| && os'[..|os|] + os'[|os| + 1..] == os
  {
    var os' := os + [o];
    assert IsObject(os'[|os|], addr, false);
    forall j | 0 <= j < |os| ensures !IsObject(os'[j], addr, false) {
      assert os'[j] in os;
    }
  }

  /** The pages of a reservation have no frames, so freeing it frees frame 0 alone. */
  lemma IdleFrees(os: seq<PageObject>, t: Table, k: nat)
    requires Disjoint(os) && Mapped(os, t) && k < |os| && !os[k].inUse && os[k].count > 0
    ensures forall f: nat :: Frees(t, os[k].addr, os[k].count, f) <==> f == 0
    ensures Without(t, os[k].addr, os[k].count) == t
  {
    forall j: nat | j < os[k].count ensures Physical(t, PageAt(os[k].addr, j)) == 0 {
      IdleUnmapped(os, k, PageAt(os[k].addr, j));
    }
    assert Physical(t, PageAt(os[k].addr, 0)) / PAGE == 0;
    forall v | v in t ensures !IsPage(os[k].addr, os[k].count, v) {
      if IsPage(os[k].addr, os[k].count, v) {
        IdleUnmapped(os, k, v);
      }
    }
  }

  /** With one free frame, frame 0, the next page allocated gets it. */
  method TakeFrameZero(pm: PageManager, perms: Permissions, b: nat) returns (virt: nat)
    requires pm.Valid() && Own(pm) && b in pm.vpm.free && pm.vpm.free[b] >= 1
    requires pm.objects == [] && pm.table == map[] && forall f: nat :: pm.frames.Taken(f) <==> 0 < f < 8
    modifies pm, pm.vpm, pm.frames, pm.frames.bitmap.buffer
    ensures pm.Valid() && pm.objects == [PageObject(virt, 1, true, false, perms)]
    ensures BestTaken(old(pm.vpm.free), pm.vpm.free, virt, 1)
    ensures virt in pm.table && pm.table[virt] == 0 && ZeroMapped(pm.table)
  {
    hide Partition, Lists, Apart, Holds, Disjoint, Backed, Aligned, MappedBy, Injective,
         PageManager.SpaceFor, Keeps, IsMapped, Frames.Taken;
    SpaceAnywhere(pm, 1, b);
    assert 0 in pm.frames.Available();
    var panicked;
    virt, panicked := pm.AllocatePages(1, perms, 0);
    FirstMapped(virt);
    TakenInside(pm.frames, pm.table[virt] / PAGE);
  }

  lemma TakenInside(frames: Frames, f: nat)
    requires frames.Sized()
    ensures frames.Taken(f) ==> f < frames.Count()
  {
  }

  lemma FirstMapped(virt: nat)
    ensures virt < WORD ==> IsMapped(virt, 1, virt)
  {
    assert virt < WORD ==> virt == WrapAt(virt, 0);
  }

  /** With every frame taken: reserve two pages and free them, which frees frame 0; allocate a
      page, which gets it; then free another reservation.  The page is left on a free frame. */
  method FrameZeroLost(perms: Permissions) returns (pm: PageManager, virt: nat)
    ensures virt in pm.table && pm.table[virt] == 0 && pm.frames.Sized() && !pm.frames.Taken(0) && !pm.Valid()
  {
    pm := Small(0xFF);
    forall f: nat | f < 8 ensures BitOf(0xFF, f) {
      Masks(f);
    }
    hide BitOf, Frames.Taken, PageManager.Valid, ZeroMapped, BestTaken, TakeFrom2;
    NotZeroMapped();
    var a := ReserveAndFree(pm, perms, PAGE);
    FirstCut(a);
    virt := TakeFrameZero(pm, perms, 3 * PAGE);
    SecondCut(pm.vpm.free, virt);
    var c := ReserveAndFree(pm, perms, 3 * PAGE);
  }

  lemma FirstCut(a: nat)
    requires var free := map[PAGE := 16]; BestTaken(free, TakeFrom2(free, a), a, 2)
    ensures TakeFrom2(map[PAGE := 16], a)[a := 2] == map[PAGE := 2, 3 * PAGE := 14]
  {
  }

  /** The smaller block is the one cut. */
  lemma SecondCut(free': Blocks, virt: nat)
    requires BestTaken(map[PAGE := 2, 3 * PAGE := 14], free', virt, 1)
    ensures 3 * PAGE in free' && free'[3 * PAGE] == 14
  {
    var free := map[PAGE := 2, 3 * PAGE := 14];
    assert free[virt] <= free[PAGE];
  }

  lemma NotZeroMapped()
    ensures !ZeroMapped(map[])
  {
  }

  /** Reserve two pages and use the first of them: the reservation is cut in two. */
  method HalfUsed(perms: Permissions) returns (pm: PageManager)
    ensures pm.Valid() && Own(pm) && fresh(pm) && fresh(pm.vpm) && fresh(pm.frames) && fresh(pm.frames.bitmap.buffer)
    ensures pm.objects == [PageObject(PAGE, 1, true, false, perms), PageObject(2 * PAGE, 1, false, true, perms)]
    ensures pm.vpm.used == map[PAGE := Entry(2, false)]
  {
    hide Partition, Lists, Apart, Holds, Disjoint, Backed, Aligned, MappedBy, Injective, PageManager.SpaceFor,
         Keeps, IsMapped, Frames.Taken, IsPage, Claims, InRange;
    pm := Small(0);
    SpaceAnywhere(pm, 2, PAGE);
    var a := pm.ReservePages(2, perms, 0);
    assert a == PAGE && pm.objects == [PageObject(PAGE, 2, false, true, perms)];
    assert Offers(pm.objects[0], PAGE, 1, perms);
    Masks(0);
    assert 0 in pm.frames.Available();
    var virt, panicked := pm.AllocatePages(1, perms, PAGE);
  }

  /** Freeing both halves leaves no object, and both pages used for good. */
  method PagesLost(perms: Permissions) returns (pm: PageManager)
    ensures pm.Valid() && pm.objects == [] && pm.vpm.used == map[PAGE := Entry(2, false)] && !pm.Complete()
  {
    hide Partition, Lists, Apart, Holds, Disjoint, Backed, Aligned, Injective, Frames.Taken, Frees, Claims;
    pm := HalfUsed(perms);
    pm.FreePage(PAGE);
    NothingMapped(pm.objects, pm.table);
    pm.FreePage(2 * PAGE);
    Unowned(Counts(pm.vpm.used), PAGE);
  }

  lemma Unowned(used: Blocks, a: nat)
    requires a in used && used[a] > 0
    ensures !Claims([], used)
  {
    assert Covers(used, a, a) && !Claimed([], a);
  }

  lemma NothingMapped(os: seq<PageObject>, t: Table)
    requires Mapped(os, t) && forall o :: o in os ==> !o.inUse
    ensures t == map[] && !ZeroMapped(t)
  {
    forall v: nat ensures v !in t {
      assert !MappedBy(os, v);
    }
  }
}
