/** Numerals: writing a number in a radix and reading it back. */
module Digits {
  /** The entry of the upper- or lower-case digit table. */
  function DigitChar(k: nat, upper: bool): char
    requires k < 16
  {
    if k < 10 then ('0' as nat + k) as char
    else if upper then ('A' as nat + (k - 10)) as char
    else ('a' as nat + (k - 10)) as char
  }

  /** `n` copies of `c`; none when `n` is not positive. */
  function Times(c: char, n: int): (s: string)
    ensures |s| == if n <= 0 then 0 else n
    ensures forall i :: 0 <= i < |s| ==> s[i] == c
  {
    if n <= 0 then [] else seq(n, _ => c)
  }

  lemma TimesNext(c: char, n: nat)
    ensures Times(c, n + 1) == Times(c, n) + [c]
  {
  }

  function Over(num: nat, radix: nat): nat
    requires radix >= 2
  {
    num / radix
  }

  function Last(num: nat, radix: nat): nat
    requires radix >= 2
  {
    num % radix
  }

  lemma OverLast(num: nat, radix: nat)
    requires radix >= 2
    ensures num == Over(num, radix) * radix + Last(num, radix) && Last(num, radix) < radix
    ensures num > 0 ==> Over(num, radix) < num && Over(num, radix) + Over(num, radix) <= num
  {
    hide Over, Last;
    Divided(num, radix);
    Twice(Over(num, radix), Last(num, radix), radix, num);
  }

  lemma Divided(num: nat, radix: nat)
    requires radix >= 2
    ensures num == Over(num, radix) * radix + Last(num, radix) && Last(num, radix) < radix
  {
  }

  lemma Twice(q: nat, r: nat, k: nat, n: nat)
    requires k >= 2 && n == q * k + r
    ensures q + q <= n
  {
    assert q * k == q + q + q * (k - 2);
  }

  /** The numeral of a positive number, most significant digit first. */
  function Numeral(num: nat, radix: nat, upper: bool): string
    requires 2 <= radix <= 16
    decreases num
  {
    OverLast(num, radix);
    if num == 0 then ""
    else Numeral(Over(num, radix), radix, upper) + [DigitChar(Last(num, radix), upper)]
  }

  /** What a digit character stands for in a base the parsers know. */
  function DigitOf(c: char, base: int): int
  {
    if base == 16 && 'a' <= c <= 'f' then c as int - 'a' as int + 10
    else if base == 16 && 'A' <= c <= 'F' then c as int - 'A' as int + 10
    else if base in {10, 16} && '0' <= c <= '9' then c as int - '0' as int
    else if base == 8 && '0' <= c <= '7' then c as int - '0' as int
    else if base == 2 && '0' <= c <= '1' then c as int - '0' as int
    else -1
  }

  /** The digits of base 2, 8, 10 and 16 are the first entries of the digit tables, in either case;
      no other base has any. */
  lemma DigitsExactly(c: char, base: int, k: nat)
    requires k < 16
    ensures base in {2, 8, 10, 16} ==>
              (DigitOf(c, base) == k <==> k < base && (c == DigitChar(k, false) || c == DigitChar(k, true)))
    ensures base !in {2, 8, 10, 16} ==> DigitOf(c, base) < 0
    ensures DigitOf(c, base) < 16
  {
  }

  predicate AllDigits(s: string, base: int)
  {
    forall i :: 0 <= i < |s| ==> DigitOf(s[i], base) >= 0
  }

  /** The number a string of digits denotes. */
  function Value(s: string, base: int): int
  {
    if s == "" then 0 else Value(s[..|s| - 1], base) * base + DigitOf(s[|s| - 1], base)
  }

  lemma ValueNext(s: string, base: int, i: nat)
    requires i < |s|
    ensures Value(s[..i + 1], base) == Value(s[..i], base) * base + DigitOf(s[i], base)
  {
    assert s[..i + 1][..i] == s[..i];
  }

  /** A numeral denotes its number, and has no leading zero. */
  lemma {:induction false} NumeralValue(num: nat, radix: nat, upper: bool)
    requires radix in {8, 10, 16}
    ensures Value(Numeral(num, radix, upper), radix) == num
    ensures AllDigits(Numeral(num, radix, upper), radix)
    ensures num > 0 ==> Numeral(num, radix, upper) != "" && Numeral(num, radix, upper)[0] != '0'
  {
    hide DigitOf, DigitChar, Value, AllDigits, Over, Last;
    OverLast(num, radix);
    if num == 0 {
      ValueEmpty(radix);
    } else {
      NumeralValue(Over(num, radix), radix, upper);
      DigitRead(Last(num, radix), radix, upper);
      ValueSnoc(Numeral(Over(num, radix), radix, upper), DigitChar(Last(num, radix), upper), radix);
    }
  }

  lemma ValueEmpty(base: int)
    ensures Value("", base) == 0 && AllDigits("", base)
  {
  }

  lemma ValueSnoc(s: string, c: char, base: int)
    ensures Value(s + [c], base) == Value(s, base) * base + DigitOf(c, base)
    ensures AllDigits(s + [c], base) <==> AllDigits(s, base) && DigitOf(c, base) >= 0
  {
    assert (s + [c])[..|s|] == s;
  }

  lemma DigitRead(k: nat, radix: nat, upper: bool)
    requires radix in {8, 10, 16} && k < radix
    ensures DigitOf(DigitChar(k, upper), radix) == k
    ensures k > 0 ==> DigitChar(k, upper) != '0'
  {
  }

  /** Leading zeros change nothing. */
  lemma {:induction false} ValueZeros(z: int, s: string, base: int)
    requires base in {8, 10, 16}
    ensures Value(Times('0', z) + s, base) == Value(s, base)
    decreases |s|, z
  {
    var t := Times('0', z) + s;
    if s != "" {
      assert t[..|t| - 1] == Times('0', z) + s[..|s| - 1];
      ValueZeros(z, s[..|s| - 1], base);
    } else if z > 0 {
      assert t[..|t| - 1] == Times('0', z - 1) + "";
      ValueZeros(z - 1, "", base);
    }
  }

  /** A string of digits denotes a number below the power of the base its length allows. */
  lemma {:induction false} ValueBound(s: string, base: nat)
    requires base in {8, 10, 16} && AllDigits(s, base)
    ensures 0 <= Value(s, base) < Pow(base, |s|)
  {
    if s != "" {
      var t, c := s[..|s| - 1], s[|s| - 1];
      ValueBound(t, base);
      assert 0 <= DigitOf(c, base) < base;
      assert Value(t, base) * base <= (Pow(base, |t|) - 1) * base;
    }
  }

  function Pow(b: nat, e: nat): nat
  {
    if e == 0 then 1 else b * Pow(b, e - 1)
  }
}
