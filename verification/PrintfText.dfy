/** Small facts about printed text. */
module PrintfText {
  import opened Options
  import opened Digits
  import opened PrintfSpec
  import opened PrintfScan

  lemma Regroup4(a: string, b: string, c: string, d: string)
    ensures a + b + c + d == a + (b + c + d)
  {
  }

  lemma TimesMax(c: char, n: int)
    ensures Times(c, n) == Times(c, Max(n, 0))
  {
  }

  lemma FillerNone(digits: int, zeroPad: bool, length: int)
    ensures length <= 0 ==> Filler(length, digits, zeroPad) == ""
    ensures Filler(0, digits, zeroPad) == ""
  {
  }

  lemma FillerNext(k: nat, digits: int, zeroPad: bool)
    ensures Filler(k + 1, digits, zeroPad) == Filler(k, digits, zeroPad) + [if zeroPad || k < digits then '0' else ' ']
  {
  }

  /** A zero looks the same in every radix. */
  lemma ZeroAnyRadix(length: int, digits: int, radix: nat, zeroPad: bool, left: bool, upper: bool)
    requires 2 <= radix <= 16
    ensures UintText(length, digits, 0, radix, zeroPad, left, upper)
            == UintText(length, digits, 0, 10, zeroPad, left, false)
  {
  }

  lemma JoinEmpty(rest: Option<string>)
    ensures Join("", rest) == rest
  {
    assert rest.Some? ==> "" + rest.value == rest.value;
  }

  lemma JoinJoin(a: string, b: string, rest: Option<string>)
    ensures Join(a, Join(b, rest)) == Join(a + b, rest)
  {
    if rest.Some? {
      assert a + (b + rest.value) == a + b + rest.value;
    }
  }

  lemma WidthAtEnd(f: string, i: nat, d: Directive, args: seq<Arg>)
    requires i <= |f| && AtEnd(f, i)
    ensures AtWidth(f, i, d, args) == Some("") && AtPrecision(f, i, d, args) == Some("")
  {
    assert DigitsEnd(f, i) == i;
  }

  /** A format that ends inside a directive prints no more. */
  lemma NothingRemains(mode: Mode, f: string, i: nat, d: Directive, args: seq<Arg>)
    requires i <= |f| && AtEnd(f, i)
    ensures Remaining(mode, f, i, d, args) == Some("")
  {
    if mode == AT_FLAGS {
      assert FlagsEnd(f, i) == i;
      WidthAtEnd(f, i, d.(flags := d.flags + SetOf(f, i, i)), args);
    }
    WidthAtEnd(f, i, d, args);
  }
}
