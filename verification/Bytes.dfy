/** Bytes, byte-addressed memory and little-endian numbers. */
module Bytes {
  type Byte = x: int | 0 <= x < 256

  type Memory = nat -> Byte

  function Store(m: Memory, a: nat, bytes: seq<Byte>): Memory
  {
    (x: nat) => if a <= x < a + |bytes| then bytes[x - a] else m(x)
  }

  function Load(m: Memory, a: nat, n: nat): (s: seq<Byte>)
    ensures |s| == n && forall i :: 0 <= i < n ==> s[i] == m(a + i)
  {
    seq(n, i requires 0 <= i => m(a + i))
  }

  /** The lowest `n` bytes of a number, least significant first. */
  function Little(x: nat, n: nat): (s: seq<Byte>)
    ensures |s| == n
    decreases n
  {
    if n == 0 then [] else [x % 256] + Little(x / 256, n - 1)
  }

  function FromLittle(s: seq<Byte>): nat
  {
    if s == [] then 0 else s[0] + 256 * FromLittle(s[1..])
  }

  lemma {:induction false} LittleFromLittle(s: seq<Byte>)
    ensures Little(FromLittle(s), |s|) == s
  {
    if s != [] {
      LittleFromLittle(s[1..]);
    }
  }

  function Range(n: nat): nat
  {
    if n == 0 then 1 else 256 * Range(n - 1)
  }

  /** A byte has 256 times the weight of the one before it. */
  lemma {:induction false} FromLittleConcat(a: seq<Byte>, b: seq<Byte>)
    ensures FromLittle(a + b) == FromLittle(a) + Range(|a|) * FromLittle(b)
    ensures |a| == 1 ==> FromLittle(a) == a[0]
  {
    if a == [] {
      assert a + b == b;
    } else {
      FromLittleConcat(a[1..], b);
      assert (a + b)[1..] == a[1..] + b;
      Weigh(Range(|a| - 1), FromLittle(b));
    }
  }

  lemma Weigh(x: nat, y: nat)
    ensures 256 * (x * y) == 256 * x * y
  {
  }

  lemma {:induction false} FromLittleLittle(x: nat, n: nat)
    requires x < Range(n)
    ensures FromLittle(Little(x, n)) == x
    decreases n
  {
    if n > 0 {
      FromLittleLittle(x / 256, n - 1);
      assert Little(x, n)[1..] == Little(x / 256, n - 1);
    }
  }
}
