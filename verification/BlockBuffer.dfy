/** The kernel's block buffer (kernel/src/Data-structures/Buffer.cpp) against a flat array of
    bytes. */
module BlockBuffer {
  import opened Bytes
  import opened Seqs

  type Block = array<Byte>

  /** All bytes of the blocks, in order. */
  ghost function Flat(bs: seq<Block>): seq<Byte>
    reads bs
  {
    if bs == [] then [] else bs[0][..] + Flat(bs[1..])
  }

  /** The number of bytes in the blocks. */
  function Total(bs: seq<Block>): nat
  {
    if bs == [] then 0 else bs[0].Length + Total(bs[1..])
  }

  lemma {:induction false} FlatLength(bs: seq<Block>)
    ensures |Flat(bs)| == Total(bs)
  {
    if bs != [] {
      FlatLength(bs[1..]);
    }
  }

  function Splice(s: seq<Byte>, at: nat, d: seq<Byte>): (r: seq<Byte>)
    requires at + |d| <= |s|
    ensures |r| == |s|
  {
    s[..at] + d + s[at + |d|..]
  }

  function Zeros(n: nat): (z: seq<Byte>)
    ensures |z| == n
  {
    seq(n, _ => 0)
  }

  function AlignUp(n: nat, align: nat): (r: nat)
    requires align > 0
    ensures r >= n
  {
    (n + align - 1) / align * align
  }

  function Copies(q: nat, align: nat): nat
  {
    q * align
  }

  /** Rounding goes up to the next whole number of blocks. */
  lemma AlignUpIs(n: nat, align: nat)
    requires align > 0
    ensures n <= AlignUp(n, align) < n + align && exists q: nat :: AlignUp(n, align) == Copies(q, align)
  {
    var q, k := (n + align - 1) / align, (n + align - 1) % align;
    assert n + align - 1 == q * align + k;
    assert AlignUp(n, align) == Copies(q, align);
  }

  /** A flat array after writing at `at`, grown by whole blocks when the data does not fit. */
  function Written(s: seq<Byte>, at: nat, d: seq<Byte>, blockSize: nat): seq<Byte>
    requires at <= |s| && blockSize > 0
  {
    if at + |d| <= |s| then Splice(s, at, d)
    else
      var excess := at + |d| - |s|;
      s[..at] + d + Zeros(AlignUp(excess, blockSize) - excess)
  }

  /** What a read delivers: as many of the bytes as there are. */
  function Delivered(s: seq<Byte>, offset: nat, n: nat): seq<Byte>
  {
    if offset >= |s| then [] else s[offset..if offset + n <= |s| then offset + n else |s|]
  }

  class Buffer {
    var size: nat
    const blockSize: nat
    var blocks: seq<Block>

    ghost predicate Valid()
      reads this, blocks
    {
      blockSize > 0 && Distinct(blocks) && size == |Flat(blocks)| == Total(blocks)
    }

    constructor (n: nat, blockSize: nat)
      requires blockSize > 0
      ensures Valid() && fresh(blocks) && this.blockSize == blockSize
      ensures Flat(blocks) == Zeros(AlignUp(n, blockSize))
    {
      size, this.blockSize, blocks := 0, blockSize, [];
      new;
      var b := AddBlock(AlignUp(n, blockSize));
    }

    method AddBlock(n: nat) returns (b: Block)
      requires Valid()
      modifies this
      ensures Valid() && fresh(b) && b.Length == n && blocks == old(blocks) + [b]
      ensures Flat(blocks) == old(Flat(blocks)) + Zeros(n)
    {
      b := new Byte[n](_ => 0);
      FlatSnoc(blocks, b);
      FlatLength(blocks + [b]);
      assert b[..] == Zeros(n);
      blocks := blocks + [b];
      size := size + n;
    }

    /** Copy bytes into one block. */
    method CopyIn(k: nat, at: nat, d: seq<Byte>)
      requires Valid() && k < |blocks| && at + |d| <= blocks[k].Length
      modifies blocks[k]
      ensures Valid() && Total(blocks[..k]) + at + |d| <= |old(Flat(blocks))|
      ensures Flat(blocks) == Splice(old(Flat(blocks)), Total(blocks[..k]) + at, d)
    {
      hide Flat, Total;
      var b := blocks[k];
      ghost var head, block, tail := Flat(blocks[..k]), b[..], Flat(blocks[k + 1..]);
      FlatCut(blocks, k);
      FlatLength(blocks[..k]);
      forall i | 0 <= i < |d| {
        b[at + i] := d[i];
      }
      assert b[..] == Splice(block, at, d);
      assert b !in blocks[..k] && b !in blocks[k + 1..];
      FlatCut(blocks, k);
      SpliceInside(head, block, tail, at, d);
    }

    /** The block that holds an offset, and where in it. */
    method Locate(offset: nat) returns (k: nat, within: nat)
      requires Valid()
      ensures k <= |blocks| && (k < |blocks| <==> offset < size)
      ensures k < |blocks| ==> within < blocks[k].Length && Total(blocks[..k]) + within == offset
    {
      hide Flat, Total;
      NoneTotal(blocks);
      var start := 0;
      k, within := 0, 0;
      while k < |blocks|
        invariant k <= |blocks| && start == Total(blocks[..k]) <= offset
      {
        TotalStep(blocks, k);
        var b := blocks[k];
        if offset >= start && offset < start + b.Length {
          within := offset - start;
          return;
        }
        start := start + b.Length;
        k := k + 1;
      }
      assert blocks[..k] == blocks;
    }

    /** Write bytes at an offset; past the end they go to a new block at the end. */
    method Write(offset: nat, data: seq<Byte>)
      requires Valid()
      modifies this, blocks
      ensures Valid() && |blocks| >= |old(blocks)| && blocks[..|old(blocks)|] == old(blocks)
              && fresh(blocks[|old(blocks)|..])
      ensures Flat(blocks) ==
                Written(old(Flat(blocks)), if offset < old(size) then offset else old(size), data, blockSize)
    {
      hide Flat, Total, Written, Splice;
      var k, within := Locate(offset);
      if k == |blocks| {
        WriteAtEnd(data);
        return;
      }
      ghost var s, at := Flat(blocks), offset;
      TotalStep(blocks, k);
      if at + |data| <= |s| {
        WrittenInside(s, at, data, blockSize);
      }
      if blocks[k].Length - within >= |data| {
        CopyIn(k, within, data);
        return;
      }
      var done: nat := blocks[k].Length - within;
      CopyIn(k, within, data[..done]);
      var i := k + 1;
      while i < |blocks|
        invariant k < i <= |blocks| && blocks == old(blocks) && done <= |data| && Valid()
        invariant at + done == Total(blocks[..i]) <= |s| && done < |data|
        invariant Flat(blocks) == Splice(s, at, data[..done])
      {
        TotalStep(blocks, i);
        var b := blocks[i];
        var n := if |data| - done <= b.Length then |data| - done else b.Length;
        SpliceTwice(s, at, data[..done], data[done..done + n]);
        TakeMore(data, done, n);
        CopyIn(i, 0, data[done..done + n]);
        if |data| - done <= b.Length {
          assert data[..done + n] == data;
          return;
        }
        done := done + n;
        i := i + 1;
      }
      assert blocks[..i] == blocks;
      Extend(s, at, data, done);
    }

    /** The last part of a write that runs past the end goes to a new block. */
    method Extend(ghost s: seq<Byte>, ghost at: nat, data: seq<Byte>, done: nat)
      requires Valid() && done < |data| && at + done == |s| == size && Flat(blocks) == Splice(s, at, data[..done])
      modifies this
      ensures Valid() && |blocks| == |old(blocks)| + 1 && blocks[..|old(blocks)|] == old(blocks)
              && fresh(blocks[|old(blocks)|..])
      ensures Flat(blocks) == Written(s, at, data, blockSize)
    {
      hide Flat, Total, Splice;
      var m := AlignUp(|data| - done, blockSize);
      var b := AddBlock(m);
      assert blocks[..|blocks| - 1] == old(blocks);
      Appended(s, at, data[..done], data[done..], m);
      TakeMore(data, done, |data| - done);
      assert data[..|data|] == data;
      CopyIn(|blocks| - 1, 0, data[done..]);
    }

    /** Copy bytes of one block to the next place in the destination. */
    method Fetch(k: nat, at: nat, n: nat, data: array<Byte>, done: nat, ghost s: seq<Byte>, ghost offset: nat,
        ghost before: seq<Byte>)
      requires Valid() && data !in blocks && s == Flat(blocks)
      requires k < |blocks| && at + n <= blocks[k].Length && done + n <= data.Length == |before|
      requires offset + done == Total(blocks[..k]) + at && offset + done <= |s|
               && data[..] == Image(s, offset, done, before)
      modifies data
      ensures Valid() && Flat(blocks) == s && offset + done + n <= |s| && data[..] == Image(s, offset, done + n, before)
    {
      hide Flat, Total, Image;
      var b := blocks[k];
      FlatWindow(blocks, k, at, n);
      Filled(s, offset, done, before, n);
      ghost var now := data[..];
      CopyOut(b, at, n, data, done);
      assert data[..] == now[..done] + s[offset + done..offset + done + n] + now[done + n..];
    }

    /** Read bytes at an offset into an array, which keeps what the buffer cannot fill. */
    method Read(offset: nat, data: array<Byte>, n: nat)
      requires Valid() && n <= data.Length && data !in blocks
      modifies data
      ensures Valid() && Flat(blocks) == old(Flat(blocks))
      ensures var got := Delivered(Flat(blocks), offset, n);
              |got| <= n && data[..] == got + old(data[|got|..])
    {
      hide Flat, Total;
      ghost var s, before := Flat(blocks), data[..];
      var k, within := Locate(offset);
      if k == |blocks| {
        NoMore(before);
        assert before[0..] == before;
        return;
      }
      hide Image, Delivered, Distinct;
      TotalStep(blocks, k);
      var done: nat := if blocks[k].Length - within >= n then n else blocks[k].Length - within;
      NothingFilled(s, offset, before);
      Fetch(k, within, done, data, 0, s, offset, before);
      done := ReadOn(k + 1, data, n, done, s, offset, before);
      AllDelivered(s, offset, n, done, before);
    }

    /** Go on reading from the start of block `k`. */
    method ReadOn(k: nat, data: array<Byte>, n: nat, start: nat, ghost s: seq<Byte>, ghost offset: nat,
        ghost before: seq<Byte>) returns (done: nat)
      requires Valid() && data !in blocks && s == Flat(blocks)
      requires k <= |blocks| && start <= n <= data.Length == |before|
               && (start < n ==> offset + start == Total(blocks[..k]))
      requires offset + start <= |s| && data[..] == Image(s, offset, start, before)
      modifies data
      ensures Valid() && Flat(blocks) == s && done <= n && (done == n || offset + done == |s|)
      ensures offset + done <= |s| && data[..] == Image(s, offset, done, before)
    {
      hide Flat, Total, Image, Distinct;
      var i := k;
      done := start;
      while i < |blocks| && done < n
        invariant k <= i <= |blocks| && done <= n && Valid() && Flat(blocks) == s
        invariant done < n ==> offset + done == Total(blocks[..i])
        invariant offset + done <= |s|
        invariant data[..] == Image(s, offset, done, before)
      {
        TotalStep(blocks, i);
        var m: nat := if n - done <= blocks[i].Length then n - done else blocks[i].Length;
        Fetch(i, 0, m, data, done, s, offset, before);
        done := done + m;
        i := i + 1;
      }
      assert i == |blocks| ==> blocks[..i] == blocks;
    }

    method WriteAtEnd(data: seq<Byte>)
      requires Valid()
      modifies this
      ensures Valid() && |blocks| == |old(blocks)| + 1 && blocks[..|old(blocks)|] == old(blocks)
              && fresh(blocks[|old(blocks)|..])
      ensures Flat(blocks) == Written(old(Flat(blocks)), old(size), data, blockSize)
    {
      hide Flat, Total, Splice;
      ghost var s := Flat(blocks);
      var m := AlignUp(|data|, blockSize);
      var b := AddBlock(m);
      assert blocks[..|blocks| - 1] == old(blocks);
      AtEnd(s, data, m);
      CopyIn(|blocks| - 1, 0, data);
    }
  }

  /** Copy bytes out of a block. */
  method CopyOut(b: Block, at: nat, n: nat, data: array<Byte>, pos: nat)
    requires b != data && at + n <= b.Length && pos + n <= data.Length
    modifies data
    ensures data[..] == old(data[..pos]) + b[at..at + n] + old(data[pos + n..])
  {
    forall i | 0 <= i < n {
      data[pos + i] := b[at + i];
    }
  }

  lemma FlatWindow(bs: seq<Block>, k: nat, at: nat, n: nat)
    requires k < |bs| && at + n <= bs[k].Length
    ensures var p := Total(bs[..k]) + at; p + n <= |Flat(bs)| && Flat(bs)[p..p + n] == bs[k][at..at + n]
  {
    hide Flat, Total;
    FlatCut(bs, k);
    FlatLength(bs[..k]);
    WindowInside(Flat(bs[..k]), bs[k][..], Flat(bs[k + 1..]), at, n);
    assert bs[k][..][at..at + n] == bs[k][at..at + n];
  }

  lemma WindowInside(head: seq<Byte>, block: seq<Byte>, tail: seq<Byte>, at: nat, n: nat)
    requires at + n <= |block|
    ensures var p := |head| + at; (head + block + tail)[p..p + n] == block[at..at + n]
  {
  }

  /** The destination after `done` bytes from `offset` on. */
  function Image(s: seq<Byte>, offset: nat, done: nat, before: seq<Byte>): seq<Byte>
    requires offset + done <= |s| && done <= |before|
  {
    s[offset..offset + done] + before[done..]
  }

  lemma Filled(s: seq<Byte>, offset: nat, done: nat, before: seq<Byte>, m: nat)
    requires done + m <= |before| && offset + done + m <= |s|
    ensures var now := Image(s, offset, done, before);
            |now| == |before|
            && now[..done] + s[offset + done..offset + done + m] + now[done + m..] == Image(s, offset, done + m, before)
  {
  }

  lemma AllDelivered(s: seq<Byte>, offset: nat, n: nat, done: nat, before: seq<Byte>)
    requires offset < |s| && offset + done <= |s| && done <= n <= |before| && (done == n || offset + done == |s|)
    ensures |Delivered(s, offset, n)| == done
            && Image(s, offset, done, before) == Delivered(s, offset, n) + before[done..]
  {
  }

  lemma NothingFilled(s: seq<Byte>, offset: nat, before: seq<Byte>)
    requires offset <= |s|
    ensures Image(s, offset, 0, before) == before
  {
  }

  lemma AtEnd(s: seq<Byte>, data: seq<Byte>, m: nat)
    requires |data| <= m && (|data| == 0 ==> m == 0)
    ensures Splice(s + Zeros(m), |s|, data) == s + data + Zeros(m - |data|)
    ensures |data| == 0 ==> Splice(s + Zeros(m), |s|, data) == Splice(s, |s|, data)
    ensures s[..|s|] == s
  {
  }

  lemma NoneTotal(bs: seq<Block>)
    ensures Total(bs[..0]) == 0
  {
  }

  lemma TakeMore(data: seq<Byte>, done: nat, n: nat)
    requires done + n <= |data|
    ensures data[..done] + data[done..done + n] == data[..done + n]
  {
  }

  lemma WrittenInside(s: seq<Byte>, at: nat, data: seq<Byte>, blockSize: nat)
    requires at + |data| <= |s| && blockSize > 0
    ensures Written(s, at, data, blockSize) == Splice(s, at, data)
  {
  }

  lemma SpliceTwice(s: seq<Byte>, at: nat, a: seq<Byte>, b: seq<Byte>)
    requires at + |a| + |b| <= |s|
    ensures Splice(Splice(s, at, a), at + |a|, b) == Splice(s, at, a + b)
  {
  }

  /** Overwriting the start of an appended block of zeros. */
  lemma Appended(s: seq<Byte>, at: nat, a: seq<Byte>, b: seq<Byte>, m: nat)
    requires at + |a| == |s| && |b| <= m
    ensures Splice(Splice(s, at, a) + Zeros(m), |s|, b) == s[..at] + (a + b) + Zeros(m - |b|)
  {
  }

  lemma TotalStep(bs: seq<Block>, k: nat)
    requires k < |bs|
    ensures Total(bs[..k + 1]) == Total(bs[..k]) + bs[k].Length <= Total(bs)
  {
    TotalCut(bs, k + 1);
    TotalCut(bs[..k + 1], k);
    assert bs[..k + 1][..k] == bs[..k] && bs[..k + 1][k..] == [bs[k]] && [bs[k]][1..] == [];
  }

  lemma {:induction false} TotalCut(bs: seq<Block>, k: nat)
    requires k <= |bs|
    ensures Total(bs) == Total(bs[..k]) + Total(bs[k..])
    decreases |bs|
  {
    if k > 0 {
      TotalCut(bs[1..], k - 1);
      assert bs[1..][..k - 1] == bs[..k][1..] && bs[1..][k - 1..] == bs[k..];
    } else {
      assert bs[..0] == [] && bs[0..] == bs;
    }
  }

  lemma SpliceInside(head: seq<Byte>, block: seq<Byte>, tail: seq<Byte>, at: nat, d: seq<Byte>)
    requires at + |d| <= |block|
    ensures head + Splice(block, at, d) + tail == Splice(head + block + tail, |head| + at, d)
  {
  }

  ghost predicate Distinct(bs: seq<Block>)
  {
    forall i, j :: 0 <= i < j < |bs| ==> bs[i] != bs[j]
  }

  lemma {:induction false} FlatSnoc(bs: seq<Block>, b: Block)
    ensures Flat(bs + [b]) == Flat(bs) + b[..]
  {
    TailSnoc(bs, b);
    if bs == [] {
      NoMore(b[..]);
    } else {
      FlatSnoc(bs[1..], b);
      Assoc(bs[0][..], Flat(bs[1..]), b[..]);
    }
  }

  lemma {:induction false} FlatCut(bs: seq<Block>, k: nat)
    requires k < |bs|
    ensures Flat(bs) == Flat(bs[..k]) + bs[k][..] + Flat(bs[k + 1..])
    decreases |bs|
  {
    if k > 0 {
      FlatCut(bs[1..], k - 1);
      assert bs[1..][..k - 1] == bs[..k][1..] && bs[1..][k..] == bs[k + 1..] && bs[..k][0] == bs[0];
      Assoc(bs[0][..], Flat(bs[..k][1..]), bs[k][..]);
      Assoc(bs[0][..], Flat(bs[..k][1..]) + bs[k][..], Flat(bs[k + 1..]));
    } else {
      assert bs[..0] == [];
      NoMore(bs[0][..]);
    }
  }

  // ---- The flat array ------------------------------------------------------------------

  /** A write changes the addressed bytes and no others, and grows the array by whole blocks. */
  lemma WriteChanges(s: seq<Byte>, at: nat, d: seq<Byte>, blockSize: nat)
    requires at <= |s| && blockSize > 0
    ensures var w := Written(s, at, d, blockSize);
            && |w| == |s| + (if at + |d| <= |s| then 0 else AlignUp(at + |d| - |s|, blockSize)) && at + |d| <= |w|
            && w[at..at + |d|] == d
            && (forall i :: 0 <= i < |s| && !(at <= i < at + |d|) ==> w[i] == s[i])
            && forall i :: |s| <= i < |w| && at + |d| <= i ==> w[i] == 0
  {
  }

  /** A read delivers the bytes from the offset on, up to the number asked for or to the end. */
  lemma DeliveredIs(s: seq<Byte>, offset: nat, n: nat)
    ensures var d := Delivered(s, offset, n);
            && (|d| == n <==> n == 0 || offset + n <= |s|) && |d| <= n
            && (|d| < n ==> |d| == if offset < |s| then |s| - offset else 0)
            && forall i :: 0 <= i < |d| ==> d[i] == s[offset + i]
  {
  }

  /** The array after the call for an offset anywhere. */
  function AfterWrite(s: seq<Byte>, offset: nat, d: seq<Byte>, blockSize: nat): seq<Byte>
    requires blockSize > 0
  {
    Written(s, if offset < |s| then offset else |s|, d, blockSize)
  }

  /** Whatever was written at an offset is read back there exactly when the offset was not
      beyond the end. */
  lemma ReadsBackExactly(s: seq<Byte>, offset: nat, n: nat, blockSize: nat)
    requires n > 0 && blockSize > 0
    ensures (forall d: seq<Byte> :: |d| == n ==> Delivered(AfterWrite(s, offset, d, blockSize), offset, n) == d) <==>
              offset <= |s|
  {
    if offset <= |s| {
      forall d: seq<Byte> | |d| == n ensures Delivered(AfterWrite(s, offset, d, blockSize), offset, n) == d {
        WriteChanges(s, offset, d, blockSize);
      }
    } else {
      var d: seq<Byte> := [1] + Zeros(n - 1);
      var w := AfterWrite(s, offset, d, blockSize);
      assert w[..|s|] == s && w[|s|] == 1;
      assert forall i :: |s| < i < |w| ==> w[i] == 0;
      var got := Delivered(w, offset, n);
      assert got == [] || got[0] == 0;
      assert |d| == n && got != d;
    }
  }

  /** A byte written to an empty buffer at offset 1 is read back at offset 0. */
  lemma WriteBeyond()
    ensures var w := AfterWrite([], 1, [7], 64); Delivered(w, 1, 1) == [0] && Delivered(w, 0, 1) == [7]
  {
    assert AlignUp(1, 64) == 64;
    assert AfterWrite([], 1, [7], 64) == [7] + Zeros(63);
  }
}
