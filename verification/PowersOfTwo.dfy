/** Even factors and powers of two, for telling numbers apart in 64 bits. */
module PowersOfTwo {
  import opened Machine
  import opened Digits

  lemma Regroup(x: int, y: int, z: int)
    ensures x * y * z == x * (z * y)
  {
  }

  /** A positive number times a positive power of an even base is a different number, and a
      different one in 64 bits too: the two differ by an odd multiple. */
  lemma ZerosMatter(v: nat, base: nat, t: nat)
    requires base >= 2 && base % 2 == 0 && v > 0
    ensures v * Pow(base, t) == v <==> t == 0
    ensures v < WORD ==> (Wrap(v * Pow(base, t)) == v <==> t == 0)
  {
    hide Pow, Wrap;
    PowFirst(base, t);
    if t > 0 {
      EvenMultiple(v, Pow(base, t));
    }
  }

  lemma EvenMultiple(v: nat, m: nat)
    requires v > 0 && m >= 2 && m % 2 == 0
    ensures v * m != v
    ensures v < WORD ==> Wrap(v * m) != v
  {
    hide Pow, Wrap;
    assert v * m == v * (m - 1) + v && v * (m - 1) > 0;
    if v < WORD && Wrap(v * m) == v {
      var q := Quotient(v * m);
      PowWord();
      var r := OddFactor(v, m - 1, q, 64);
      NoMultiple(v, r);
    }
  }

  lemma Quotient(x: int) returns (q: int)
    ensures x == q * WORD + Wrap(x)
  {
    q := x / WORD;
  }

  lemma NoMultiple(v: int, r: int)
    requires 0 < v < WORD
    ensures v != r * WORD
  {
  }

  lemma {:induction false} PowFirst(base: nat, t: nat)
    requires base >= 2 && base % 2 == 0
    ensures if t == 0 then Pow(base, t) == 1 else Pow(base, t) >= 2 && Pow(base, t) % 2 == 0
    decreases t
  {
    if t > 0 {
      PowFirst(base, t - 1);
      EvenProduct(base, Pow(base, t - 1));
    }
  }

  lemma EvenProduct(x: nat, y: nat)
    requires x >= 2 && x % 2 == 0 && y >= 1
    ensures x * y >= 2 && (x * y) % 2 == 0
  {
    assert x * y == 2 * (x / 2 * y);
    assert x / 2 * y >= 1;
  }

  lemma PowWord()
    ensures Pow(2, 64) == WORD
  {
    assert Pow(2, 8) == 0x100;
    assert Pow(2, 16) == 0x1_0000;
    assert Pow(2, 24) == 0x100_0000;
    assert Pow(2, 32) == 0x1_0000_0000;
    assert Pow(2, 40) == 0x100_0000_0000;
    assert Pow(2, 48) == 0x1_0000_0000_0000;
    assert Pow(2, 56) == 0x100_0000_0000_0000;
  }

  /** A power of two that divides an odd multiple of a number divides the number. */
  lemma {:induction false} OddFactor(v: int, odd: int, q: int, e: nat) returns (r: int)
    requires odd % 2 == 1 && v * odd == q * Pow(2, e)
    ensures v == r * Pow(2, e)
    decreases e
  {
    if e == 0 {
      return v;
    }
    var p := Pow(2, e - 1);
    assert q * Pow(2, e) == 2 * (q * p) by { Regroup(q, p, 2); }
    OddTimes(v, odd);
    assert v == 2 * (v / 2);
    assert v * odd == 2 * (v / 2 * odd) by { Regroup(v / 2, odd, 2); }
    r := OddFactor(v / 2, odd, q, e - 1);
    Regroup(r, p, 2);
  }

  lemma OddTimes(v: int, odd: int)
    requires odd % 2 == 1 && (v * odd) % 2 == 0
    ensures v % 2 == 0
  {
    var h := odd / 2;
    assert odd == 2 * h + 1;
    Spread(v, h);
    Halved(v * odd, v * h, v);
  }

  lemma Spread(v: int, h: int)
    ensures v * (2 * h + 1) == 2 * (v * h) + v
  {
  }

  lemma Halved(x: int, y: int, v: int)
    requires x == 2 * y + v && x % 2 == 0
    ensures v % 2 == 0
  {
  }
}
