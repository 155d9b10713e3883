/** The page objects of a page manager and the pages they map, as plain values. */
module PageObjects {
  import opened Machine
  import opened VirtualSpace

  datatype Permissions = READ | WRITE | EXECUTE | READ_WRITE | READ_EXECUTE

  datatype PageObject = PageObject(addr: nat, count: nat, inUse: bool, standby: bool, perms: Permissions)

  type Table = map<nat, nat>

  /** Byte `p` lies in the `count` pages from `addr`. */
  predicate InRange(addr: nat, count: nat, p: int)
  {
    addr <= p < addr + PAGE * count
  }

  /** `v` is the address of one of those pages. */
  predicate IsPage(addr: nat, count: nat, v: int)
  {
    InRange(addr, count, v) && (v - addr) % PAGE == 0
  }

  predicate In(o: PageObject, p: int)
  {
    InRange(o.addr, o.count, p)
  }

  ghost predicate Separate(a: PageObject, b: PageObject)
  {
    forall p: int :: !(In(a, p) && In(b, p))
  }

  /** No byte lies in two objects. */
  ghost predicate Disjoint(os: seq<PageObject>)
  {
    forall i, j :: 0 <= i < j < |os| ==> Separate(os[i], os[j])
  }

  /** Every byte of every object lies in a block the virtual page manager counts as used. */
  ghost predicate Backed(os: seq<PageObject>, used: Blocks)
  {
    forall i, p: int :: 0 <= i < |os| && In(os[i], p) ==> Holds(used, p)
  }

  ghost predicate Claimed(os: seq<PageObject>, p: int)
  {
    exists i :: 0 <= i < |os| && In(os[i], p)
  }

  ghost predicate SameClaims(os: seq<PageObject>, os': seq<PageObject>)
  {
    forall p: int :: Claimed(os', p) <==> Claimed(os, p)
  }

  /** The other half: every used byte lies in some object, so freeing objects can give it back. */
  ghost predicate Claims(os: seq<PageObject>, used: Blocks)
  {
    forall p: int :: Holds(used, p) ==> Claimed(os, p)
  }

  ghost predicate MappedBy(os: seq<PageObject>, v: int)
  {
    exists i :: 0 <= i < |os| && os[i].inUse && IsPage(os[i].addr, os[i].count, v)
  }

  /** A page is mapped exactly when its object is in use, and no two pages share a frame. */
  ghost predicate Mapped(os: seq<PageObject>, table: Table)
  {
    && (forall v: nat :: v in table <==> MappedBy(os, v))
    && Injective(table)
  }

  ghost predicate Injective(table: Table)
  {
    forall v, w :: v in table && w in table && v != w ==> table[v] != table[w]
  }

  ghost predicate Sound(os: seq<PageObject>, used: Blocks, table: Table)
  {
    Disjoint(os) && Backed(os, used) && Mapped(os, table)
  }

  /** A new object over bytes that were not backed. */
  lemma Appended(os: seq<PageObject>, used: Blocks, used': Blocks, o: PageObject)
    requires Disjoint(os) && Backed(os, used)
    requires forall p: int :: In(o, p) ==> !Holds(used, p)
    requires forall p: int :: Holds(used', p) <==> Holds(used, p) || In(o, p)
    ensures Disjoint(os + [o]) && Backed(os + [o], used')
  {
    var os' := os + [o];
    forall i, j | 0 <= i < j < |os'| ensures Separate(os'[i], os'[j]) {
      if j < |os| {
        assert Separate(os[i], os[j]);
      } else {
        forall p: int ensures !(In(os'[i], p) && In(os'[j], p)) {
          assert In(os[i], p) ==> Holds(used, p);
        }
      }
    }
    forall i, p: int | 0 <= i < |os'| && In(os'[i], p) ensures Holds(used', p) {
      assert i < |os| ==> Holds(used, p);
    }
  }

  /** Appending objects that are not in use maps nothing new. */
  lemma AppendedMaps(os: seq<PageObject>, o: PageObject, v: int)
    ensures MappedBy(os + [o], v) <==> MappedBy(os, v) || (o.inUse && IsPage(o.addr, o.count, v))
  {
    var os' := os + [o];
    if MappedBy(os, v) {
      var i :| 0 <= i < |os| && os[i].inUse && IsPage(os[i].addr, os[i].count, v);
      assert os'[i] == os[i];
    }
    if o.inUse && IsPage(o.addr, o.count, v) {
      assert os'[|os|] == o;
    }
  }

  /** Replacing one object. */
  lemma UpdatedMaps(os: seq<PageObject>, k: nat, o: PageObject, v: int)
    requires k < |os| && !os[k].inUse
    ensures MappedBy(os[k := o], v) <==> MappedBy(os, v) || (o.inUse && IsPage(o.addr, o.count, v))
  {
    var os' := os[k := o];
    if MappedBy(os, v) {
      var i :| 0 <= i < |os| && os[i].inUse && IsPage(os[i].addr, os[i].count, v);
      assert os'[i] == os[i];
    }
    if o.inUse && IsPage(o.addr, o.count, v) {
      assert os'[k] == o;
    }
    if MappedBy(os', v) {
      var i :| 0 <= i < |os'| && os'[i].inUse && IsPage(os'[i].addr, os'[i].count, v);
      assert i != k ==> os[i] == os'[i];
    }
  }

  /** Cutting an object in two. */
  lemma CutObject(os: seq<PageObject>, used: Blocks, k: nat, a: PageObject, b: PageObject)
    requires Disjoint(os) && Backed(os, used) && k < |os|
    requires forall p: int :: In(os[k], p) <==> In(a, p) || In(b, p)
    requires Separate(a, b)
    ensures Disjoint(os[k := a] + [b]) && Backed(os[k := a] + [b], used)
  {
    var os' := os[k := a] + [b];
    forall i, j | 0 <= i < j < |os'| ensures Separate(os'[i], os'[j]) {
      var x, y := if i == k then os[k] else os'[i], if j == k || j == |os| then os[k] else os'[j];
      if !(i == k && j == |os|) {
        assert Separate(x, y) by {
          if j == |os| {
            if i < k { assert Separate(os[i], os[k]); } else { assert Separate(os[k], os[i]); }
          } else {
            assert Separate(os[i], os[j]);
          }
        }
        forall p: int ensures !(In(os'[i], p) && In(os'[j], p)) {
          assert In(os'[i], p) ==> In(x, p);
          assert In(os'[j], p) ==> In(y, p);
        }
      }
    }
    forall i, p: int | 0 <= i < |os'| && In(os'[i], p) ensures Holds(used, p) {
      var m := if i == |os| then k else i;
      assert In(os[m], p);
    }
  }

  /** Taking an object off the list. */
  lemma Removed(os: seq<PageObject>, used: Blocks, used': Blocks, k: nat)
    requires Disjoint(os) && Backed(os, used) && k < |os|
    requires forall p: int :: Holds(used, p) && !In(os[k], p) ==> Holds(used', p)
    ensures Disjoint(os[..k] + os[k + 1..]) && Backed(os[..k] + os[k + 1..], used')
  {
    var os' := os[..k] + os[k + 1..];
    forall i, j | 0 <= i < j < |os'| ensures Separate(os'[i], os'[j]) {
      assert Separate(os[if i < k then i else i + 1], os[if j < k then j else j + 1]);
    }
    forall i, p: int | 0 <= i < |os'| && In(os'[i], p) ensures Holds(used', p) {
      var m := if i < k then i else i + 1;
      assert In(os[m], p);
      assert if m < k then Separate(os[m], os[k]) else Separate(os[k], os[m]);
      assert !In(os[k], p);
    }
  }

  lemma RemovedMaps(os: seq<PageObject>, k: nat, v: int)
    requires Disjoint(os) && k < |os|
    ensures MappedBy(os[..k] + os[k + 1..], v) <==> MappedBy(os, v) && !(os[k].inUse && In(os[k], v))
  {
    var os' := os[..k] + os[k + 1..];
    if MappedBy(os', v) {
      var i :| 0 <= i < |os'| && os'[i].inUse && IsPage(os'[i].addr, os'[i].count, v);
      var m := if i < k then i else i + 1;
      assert os[m] == os'[i];
      assert if m < k then Separate(os[m], os[k]) else Separate(os[k], os[m]);
    }
    if MappedBy(os, v) && (!In(os[k], v) || !os[k].inUse) {
      var i :| 0 <= i < |os| && os[i].inUse && IsPage(os[i].addr, os[i].count, v);
      assert i != k;
      assert os'[if i < k then i else i - 1] == os[i];
    }
  }

  /** No page of an object that is not in use is mapped. */
  lemma IdleUnmapped(os: seq<PageObject>, k: nat, v: int)
    requires Disjoint(os) && k < |os| && !os[k].inUse && In(os[k], v)
    ensures !MappedBy(os, v)
  {
    forall i | 0 <= i < |os| && os[i].inUse ensures !IsPage(os[i].addr, os[i].count, v) {
      assert if i < k then Separate(os[i], os[k]) else Separate(os[k], os[i]);
    }
  }

  /** Nor is any page outside the used blocks. */
  lemma UnbackedUnmapped(os: seq<PageObject>, used: Blocks, v: int)
    requires Backed(os, used) && !Holds(used, v)
    ensures !MappedBy(os, v)
  {
    forall i | 0 <= i < |os| ensures !IsPage(os[i].addr, os[i].count, v) {
      assert !In(os[i], v);
    }
  }

  /** Objects start a whole number of pages from `lo`. */
  ghost predicate Aligned(os: seq<PageObject>, lo: nat)
  {
    forall i :: 0 <= i < |os| ==> (os[i].addr - lo) % PAGE == 0
  }

  lemma Offset(lo: nat, x: int, y: int)
    requires (x - lo) % PAGE == 0 && (y - lo) % PAGE == 0
    ensures (x - y) % PAGE == 0
    ensures forall n: nat :: (x + PAGE * n - lo) % PAGE == 0
  {
    assert x - y == PAGE * ((x - lo) / PAGE - (y - lo) / PAGE);
    forall n: nat ensures (x + PAGE * n - lo) % PAGE == 0 {
      assert x + PAGE * n - lo == PAGE * ((x - lo) / PAGE + n);
    }
  }

  // ---- Used bytes and objects ------------------------------------------------------------

  lemma ClaimedAppend(os: seq<PageObject>, o: PageObject, p: int)
    ensures Claimed(os + [o], p) <==> Claimed(os, p) || In(o, p)
  {
    var os' := os + [o];
    if Claimed(os, p) {
      var i :| 0 <= i < |os| && In(os[i], p);
      assert os'[i] == os[i];
    }
    if In(o, p) {
      assert os'[|os|] == o;
    }
  }

  lemma ClaimedUpdate(os: seq<PageObject>, k: nat, o: PageObject, p: int)
    requires k < |os|
    ensures Claimed(os[k := o], p) || In(os[k], p) <==> Claimed(os, p) || In(o, p)
    ensures In(o, p) ==> Claimed(os[k := o], p)
    ensures In(os[k], p) ==> Claimed(os, p)
  {
    var os' := os[k := o];
    assert In(o, p) ==> In(os'[k], p);
    if Claimed(os, p) && !In(os[k], p) {
      var i :| 0 <= i < |os| && In(os[i], p);
      assert os'[i] == os[i];
    }
    if Claimed(os', p) && !In(o, p) {
      var i :| 0 <= i < |os'| && In(os'[i], p);
      assert os'[i] == os[i];
    }
  }

  /** Cutting an object in two claims the same bytes. */
  lemma ClaimedCut(os: seq<PageObject>, k: nat, a: PageObject, b: PageObject, p: int)
    requires k < |os| && (In(os[k], p) <==> In(a, p) || In(b, p))
    ensures Claimed(os[k := a] + [b], p) <==> Claimed(os, p)
  {
    hide Claimed;
    ClaimedUpdate(os, k, a, p);
    ClaimedAppend(os[k := a], b, p);
  }

  lemma ClaimedRemoved(os: seq<PageObject>, k: nat, p: int)
    requires Disjoint(os) && k < |os|
    ensures Claimed(os[..k] + os[k + 1..], p) <==> Claimed(os, p) && !In(os[k], p)
  {
    var os' := os[..k] + os[k + 1..];
    if Claimed(os', p) {
      var i :| 0 <= i < |os'| && In(os'[i], p);
      var m := if i < k then i else i + 1;
      assert os[m] == os'[i];
      assert if m < k then Separate(os[m], os[k]) else Separate(os[k], os[m]);
    }
    if Claimed(os, p) && !In(os[k], p) {
      var i :| 0 <= i < |os| && In(os[i], p);
      assert os'[if i < k then i else i - 1] == os[i];
    }
  }

  /** A new object over the bytes newly used leaves none unclaimed. */
  lemma ClaimsMore(os: seq<PageObject>, used: Blocks, used': Blocks, o: PageObject)
    requires Claims(os, used) && forall p: int :: Holds(used', p) <==> Holds(used, p) || InRange(o.addr, o.count, p)
    ensures Claims(os + [o], used')
  {
    hide Holds, Claimed, InRange;
    forall p: int | Holds(used', p) ensures Claimed(os + [o], p) {
      ClaimedAppend(os, o, p);
    }
  }

  /** A byte newly used that no object was given stays unclaimed. */
  lemma Unclaimed(os: seq<PageObject>, used: Blocks, used': Blocks, p: int)
    requires Backed(os, used) && Holds(used', p) && !Holds(used, p)
    ensures !Claims(os, used')
  {
    assert !Claimed(os, p);
  }

  lemma ClaimsSame(os: seq<PageObject>, os': seq<PageObject>, used: Blocks)
    requires Claims(os, used) && SameClaims(os, os')
    ensures Claims(os', used)
  {
    hide Claimed, Holds;
  }
}
