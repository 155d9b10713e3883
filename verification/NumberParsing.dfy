/** Reading numbers back (Userland/Libraries/LibC/src/stdlib.c) and the laws that tie the
    parsers to the printers. */
module NumberParsing {
  import opened Options
  import opened Machine
  import opened Digits
  import opened PrintfSpec
  import opened PowersOfTwo

  /** End of the run of digits of the base from `i`. */
  function RunEnd(s: string, i: nat, base: int): (j: nat)
    requires i <= |s|
    ensures i <= j <= |s| && AllDigits(s[i..j], base)
    ensures j < |s| ==> DigitOf(s[j], base) < 0
    decreases |s| - i
  {
    if i < |s| && DigitOf(s[i], base) >= 0 then
      var j := RunEnd(s, i + 1, base);
      assert s[i..j] == [s[i]] + s[i + 1..j];
      j
    else i
  }

  /** The number `strtoul` reads at the front of a string, before reduction. */
  function Reading(s: string, base: int): int
  {
    Value(s[..RunEnd(s, 0, base)], base)
  }

  /** The number `strtol` reads at the front of a string. */
  function SignedReading(s: string, base: int): int
  {
    if s != "" && s[0] == '-' then -Reading(s[1..], base) else Reading(s, base)
  }

  /** `strtoul`: the digits at the front of the string, reduced to 64 bits.  The end pointer is set
      to the first character that is not a digit, and not at all when the whole string was read. */
  method StrToUL(s: string, base: int) returns (value: nat, end: Option<nat>)
    ensures value == Wrap(Reading(s, base))
    ensures var j := RunEnd(s, 0, base); end == if AtEnd(s, j) then None else Some(j)
  {
    hide DigitOf, Value, Wrap;
    ValueEmpty(base);
    value, end := 0, None;
    var i := 0;
    assert s[..0] == "" && Wrap(0) == 0;
    while !AtEnd(s, i)
      invariant i <= |s| && RunEnd(s, i, base) == RunEnd(s, 0, base)
      invariant value == Wrap(Value(s[..i], base))
      decreases |s| - i
    {
      var digit := DigitOf(s[i], base);
      if digit < 0 {
        end := Some(i);
        break;
      }
      value := Wrap(Wrap(value * base) + digit);
      ValueNext(s, base, i);
      WrapHorner(Value(s[..i], base), base, digit);
      i := i + 1;
    }
    RunStops(s, i, base);
  }

  /** The 64-bit signed number a value is reduced to. */
  function Signed64(x: int): int
  {
    Wrap(x + HALF64) - HALF64
  }

  /** `strtol`: the same after an optional minus sign, in 64-bit signed arithmetic. */
  method StrToL(s: string, base: int) returns (value: int, end: Option<nat>)
    ensures value == Signed64(SignedReading(s, base))
    ensures var j := RunEnd(s, if |s| > 0 && s[0] == '-' then 1 else 0, base);
            end == if AtEnd(s, j) then None else Some(j)
  {
    hide DigitOf, Value, SignedReading, Signed64;
    ValueEmpty(base);
    SignedSmall(0);
    value, end := 0, None;
    var start := if |s| > 0 && s[0] == '-' then 1 else 0;
    var i := start;
    assert s[start..start] == "";
    while !AtEnd(s, i)
      invariant start <= i <= |s| && RunEnd(s, i, base) == RunEnd(s, start, base)
      invariant value == Signed64(Value(s[start..i], base))
      decreases |s| - i
    {
      var digit := DigitOf(s[i], base);
      if digit < 0 {
        end := Some(i);
        break;
      }
      SignedHorner(Value(s[start..i], base), base, digit);
      value := Signed64(Signed64(value * base) + digit);
      ValueSlice(s, start, i, base);
      i := i + 1;
    }
    RunStops(s, i, base);
    SignedEnd(s, base);
    if start == 1 {
      SignedNegate(Value(s[start..i], base));
      value := Signed64(value * -1);
    }
  }

  lemma SignedSmall(x: int)
    ensures -(HALF64 as int) <= x < HALF64 ==> Signed64(x) == x
    ensures Signed64(Signed64(x)) == Signed64(x)
  {
  }

  lemma SignedShift(x: int, k: int)
    ensures Signed64(x + k * WORD) == Signed64(x)
  {
    WrapAdd(x + HALF64, k);
  }

  /** Reducing after every step is reducing at the end. */
  lemma SignedHorner(v: int, base: int, digit: int)
    ensures Signed64(Signed64(Signed64(v) * base) + digit) == Signed64(v * base + digit)
  {
    hide Signed64;
    var q := SignedQuotient(v);
    Distribute(Signed64(v), q, base);
    SignedShift(Signed64(v) * base, q * base);
    var w := SignedQuotient(v * base);
    assert v * base + digit == Signed64(v * base) + digit + w * WORD;
    SignedShift(Signed64(v * base) + digit, w);
  }

  lemma Distribute(x: int, q: int, base: int)
    ensures (x + q * WORD) * base == x * base + q * base * WORD
  {
  }

  lemma SignedNegate(v: int)
    ensures Signed64(Signed64(v) * -1) == Signed64(-v)
  {
    hide Signed64;
    var q := SignedQuotient(v);
    SignedShift(Signed64(v) * -1, -q);
    assert -v == Signed64(v) * -1 + (-q) * WORD;
  }

  lemma SignedQuotient(v: int) returns (q: int)
    ensures v == Signed64(v) + q * WORD
  {
    q := (v + HALF64) / WORD;
  }

  lemma ValueSlice(s: string, start: nat, i: nat, base: int)
    requires start <= i < |s|
    ensures Value(s[start..i + 1], base) == Value(s[start..i], base) * base + DigitOf(s[i], base)
  {
    assert s[start..i + 1] == s[start..i] + [s[i]];
    ValueSnoc(s[start..i], s[i], base);
  }

  lemma SignedEnd(s: string, base: int)
    ensures var start := if |s| > 0 && s[0] == '-' then 1 else 0;
            var v := Value(s[start..RunEnd(s, start, base)], base);
            SignedReading(s, base) == if start == 1 then -v else v
  {
    if |s| > 0 && s[0] == '-' {
      RunShift(s, 0, base);
      assert s[1..][..RunEnd(s[1..], 0, base)] == s[1..RunEnd(s, 1, base)];
    }
  }

  lemma {:induction false} RunShift(s: string, i: nat, base: int)
    requires i < |s|
    ensures RunEnd(s, i + 1, base) == RunEnd(s[1..], i, base) + 1
    decreases |s| - i
  {
    if i + 1 < |s| && DigitOf(s[i + 1], base) >= 0 {
      RunShift(s, i + 1, base);
    }
  }

  lemma RunStops(s: string, i: nat, base: int)
    requires i <= |s| && (AtEnd(s, i) || DigitOf(s[i], base) < 0)
    ensures RunEnd(s, i, base) == i
  {
  }

  lemma WrapHorner(v: int, base: int, digit: int)
    ensures Wrap(Wrap(Wrap(v) * base) + digit) == Wrap(v * base + digit)
  {
    var q := v / WORD;
    assert v == q * WORD + Wrap(v);
    assert v * base == q * base * WORD + Wrap(v) * base;
    WrapAdd(Wrap(v) * base, q * base);
    var w := Wrap(v) * base / WORD;
    WrapAdd(Wrap(Wrap(v) * base) + digit, w + q * base);
  }

  lemma WrapAdd(x: int, k: int)
    ensures Wrap(x + k * WORD) == Wrap(x)
  {
  }

  // ---- Printing and reading back -------------------------------------------------------

  lemma {:induction false} RunFrom(s: string, i: nat, k: nat, base: int)
    requires i <= k <= |s| && AllDigits(s[i..k], base) && (k < |s| ==> DigitOf(s[k], base) < 0)
    ensures RunEnd(s, i, base) == k
    decreases k - i
  {
    if i < k {
      assert s[i..k][0] == s[i] && s[i..k][1..] == s[i + 1..k];
      RunFrom(s, i + 1, k, base);
    }
  }

  /** Digits, then nothing or a space: the digits are read. */
  lemma ReadsDigits(digits: string, spaces: int, base: int)
    requires AllDigits(digits, base)
    ensures Reading(digits + Times(' ', spaces), base) == Value(digits, base)
  {
    var s := digits + Times(' ', spaces);
    assert s[..|digits|] == digits;
    RunFrom(s, 0, |digits|, base);
  }

  lemma ZerosDigits(z: int, s: string, base: int)
    requires base in {8, 10, 16} && AllDigits(s, base)
    ensures AllDigits(Times('0', z) + s, base) && AllDigits(s + Times('0', z), base)
  {
  }

  /** Zeros after a number multiply it by a power of the base. */
  lemma {:induction false} TrailingZeros(s: string, t: nat, base: nat)
    requires base in {8, 10, 16}
    ensures Value(s + Times('0', t), base) == Value(s, base) * Pow(base, t)
  {
    hide Value, Times;
    if t == 0 {
      assert Times('0', 0) == "" && s + "" == s;
    } else {
      TrailingZeros(s, t - 1, base);
      TimesNext('0', t - 1);
      assert s + Times('0', t) == s + Times('0', t - 1) + ['0'];
      ValueSnoc(s + Times('0', t - 1), '0', base);
      Regroup(Value(s, base), Pow(base, t - 1), base);
    }
  }

  /** The condition under which padding does not get in the way of reading a number back. */
  predicate Readable(length: int, digits: int, num: nat, radix: nat, zeroPad: bool, left: bool, upper: bool)
    requires 2 <= radix <= 16
  {
    num == 0 || left != zeroPad || length <= Max(|Numeral(num, radix, upper)|, digits)
  }

  /** `strtoul` reads a printed positive number back exactly when it is padded with zeros on
      the left or with spaces on the right, or not padded beyond its precision; reducing to 64
      bits never hides the difference. */
  lemma ReadsBack(length: int, digits: int, num: nat, radix: nat, zeroPad: bool, left: bool, upper: bool)
    requires radix in {8, 10, 16} && num > 0
    ensures Reading(UintText(length, digits, num, radix, zeroPad, left, upper), radix) == num
       <==> Readable(length, digits, num, radix, zeroPad, left, upper)
    ensures num < WORD ==>
              (Wrap(Reading(UintText(length, digits, num, radix, zeroPad, left, upper), radix)) == num
               <==> Readable(length, digits, num, radix, zeroPad, left, upper))
  {
    hide Reading, Value, DigitOf, Numeral, AllDigits, Filler, Times;
    var d := Numeral(num, radix, upper);
    NumeralValue(num, radix, upper);
    if length <= |d| {
      ReadsPlain(d, radix);
    } else if left {
      LeftReads(length - |d|, digits - |d|, d, num, radix, zeroPad);
    } else {
      FilledReads(length - |d|, digits - |d|, d, num, radix, zeroPad);
    }
  }

  lemma ReadsPlain(s: string, base: int)
    requires AllDigits(s, base)
    ensures Reading(s, base) == Value(s, base)
  {
    assert s + Times(' ', 0) == s;
    ReadsDigits(s, 0, base);
  }

  lemma LeftReads(length: int, zeros: int, d: string, num: nat, radix: nat, zeroPad: bool)
    requires radix in {8, 10, 16} && AllDigits(d, radix) && Value(d, radix) == num > 0 && length > 0
    ensures var z := Max(zeros, 0);
            var r := Reading(Times('0', z) + d + Times(if zeroPad then '0' else ' ', length - z), radix);
            && (r == num <==> !zeroPad || length <= z)
            && (num < WORD ==> (Wrap(r) == num <==> !zeroPad || length <= z))
  {
    hide Reading, Value, DigitOf, AllDigits;
    var z := Max(zeros, 0);
    var n := length - z;
    ValueZeros(z, d, radix);
    ZerosDigits(z, d, radix);
    if zeroPad {
      ZerosDigits(n, Times('0', z) + d, radix);
      ReadsPlain(Times('0', z) + d + Times('0', n), radix);
      TrailingZeros(Times('0', z) + d, Max(n, 0), radix);
      ZerosMatter(num, radix, Max(n, 0));
      assert Times('0', n) == Times('0', Max(n, 0));
    } else {
      ReadsDigits(Times('0', z) + d, n, radix);
    }
  }

  lemma FilledReads(length: int, zeros: int, d: string, num: nat, radix: nat, zeroPad: bool)
    requires radix in {8, 10, 16} && AllDigits(d, radix) && Value(d, radix) == num > 0 && length > 0
    ensures var r := Reading(Filler(length, zeros, zeroPad) + d, radix);
            && (r == num <==> zeroPad || length <= Max(0, zeros))
            && (num < WORD ==> (Wrap(r) == num <==> zeroPad || length <= Max(0, zeros)))
  {
    hide Reading, Value, DigitOf, AllDigits;
    var z := if zeroPad then length else Max(Min(zeros, length), 0);
    ValueZeros(z, d, radix);
    ZerosDigits(z, d, radix);
    if z >= length {
      assert Filler(length, zeros, zeroPad) == Times('0', length);
      ReadsPlain(Times('0', z) + d, radix);
    } else {
      StopsAtSpace(z, length - z, d, radix);
      assert Filler(length, zeros, zeroPad) + d == Times('0', z) + Times(' ', length - z) + d;
    }
  }

  lemma StopsAtSpace(z: nat, spaces: nat, rest: string, radix: nat)
    requires radix in {8, 10, 16} && spaces > 0
    ensures Reading(Times('0', z) + Times(' ', spaces) + rest, radix) == 0
  {
    var s := Times('0', z) + Times(' ', spaces) + rest;
    assert s[..z] == Times('0', z);
    RunFrom(s, 0, z, radix);
    ValueZeros(z, "", radix);
    assert Times('0', z) + "" == Times('0', z);
  }

  /** A printed zero reads as zero. */
  lemma ZeroReads(length: int, digits: int, radix: nat, zeroPad: bool, left: bool, upper: bool)
    requires radix in {8, 10, 16}
    ensures Reading(UintText(length, digits, 0, radix, zeroPad, left, upper), radix) == 0
  {
    hide Reading, Value, DigitOf, AllDigits;
    var one := if digits != 0 then 1 else 0;
    if length <= 1 {
      assert Times('0', 0) == "" && Times('0', one) + "" == Times('0', one);
      ZerosRead(one, "", radix);
    } else if left {
      var z := Max(digits, 0) + one;
      ZerosRead(z, if zeroPad then Times('0', length - z) else Times(' ', length - z), radix);
    } else if zeroPad {
      ZerosRead(length - one, Times('0', one), radix);
    } else {
      var n := length - one;
      var z := Max(Min(digits - one, n), 0);
      ZerosRead(z, if z < n then Times(' ', n - z) + Times('0', one) else Times('0', one), radix);
      assert Times('0', z) + (Times(' ', n - z) + Times('0', one))
        == Times('0', z) + Times(' ', n - z) + Times('0', one);
      assert z >= n ==> Times(' ', n - z) == "" && Times(' ', n - z) + Times('0', one) == Times('0', one);
    }
  }

  lemma ZerosRead(z: int, rest: string, radix: nat)
    requires radix in {8, 10, 16}
    requires (exists n :: rest == Times('0', n)) || (rest != "" && rest[0] == ' ')
    ensures Reading(Times('0', z) + rest, radix) == 0
  {
    var s, k := Times('0', z) + rest, if rest != "" && rest[0] == ' ' then |Times('0', z)| else |Times('0', z) + rest|;
    RunFrom(s, 0, k, radix);
    ValueZeros(k, "", radix);
    assert s[..k] == Times('0', k) + "";
  }

  /** And the condition for a signed number: a positive one has no sign or blank in front. */
  predicate SignedReadable(num: int, flags: set<char>, length: int, digits: int, radix: nat, upper: bool)
    requires 2 <= radix <= 16
  {
    num == 0 || (&& (num < 0 || ('+' !in flags && ' ' !in flags))
                 && Readable(if num < 0 then length - 1 else length, digits, Magnitude(num), radix,
                             '0' in flags, '-' in flags, upper))
  }

  /** `strtol` reads a printed signed number back exactly when its magnitude is readable and
      a positive one was printed without a sign or blank. */
  lemma SignedReadsBack(num: int, flags: set<char>, length: int, digits: int, radix: nat, upper: bool)
    requires radix in {8, 10, 16}
    ensures SignedReading(IntText(num, flags, length, digits, radix, upper), radix) == num
       <==> SignedReadable(num, flags, length, digits, radix, upper)
    ensures -(HALF64 as int) <= num < HALF64 ==>
              (Signed64(SignedReading(IntText(num, flags, length, digits, radix, upper), radix)) == num
               <==> SignedReadable(num, flags, length, digits, radix, upper))
  {
    hide Reading, UintText, IntText, Readable, Signed64, SignedReading, Wrap;
    var sign := Sign(num, '+' in flags, ' ' in flags);
    SignedText(num, flags, length, digits, radix, upper);
    SignedSmall(0);
    if num == 0 {
      ZeroReads(length - |sign|, digits, radix, '0' in flags, '-' in flags, upper);
    } else {
      var body := UintText(length - |sign|, digits, Magnitude(num), radix, '0' in flags, '-' in flags, upper);
      ReadsBack(length - |sign|, digits, Magnitude(num), radix, '0' in flags, '-' in flags, upper);
      SignedFits(Reading(body, radix), num);
    }
  }

  /** What `strtol` makes of a minus sign, no sign, and a plus or blank. */
  lemma SignedText(num: int, flags: set<char>, length: int, digits: int, radix: nat, upper: bool)
    requires radix in {8, 10, 16}
    ensures var sign := Sign(num, '+' in flags, ' ' in flags);
            var body := UintText(length - |sign|, digits, Magnitude(num), radix, '0' in flags, '-' in flags, upper);
            SignedReading(IntText(num, flags, length, digits, radix, upper), radix)
            == if num < 0 then -Reading(body, radix) else if sign == "" then Reading(body, radix) else 0
  {
    hide Reading, UintText;
    var sign := Sign(num, '+' in flags, ' ' in flags);
    var body := UintText(length - |sign|, digits, Magnitude(num), radix, '0' in flags, '-' in flags, upper);
    UnsignedFront(length - |sign|, digits, Magnitude(num), radix, '0' in flags, '-' in flags, upper);
    if num < 0 {
      assert (sign + body)[1..] == body;
    } else if sign == "" {
      assert sign + body == body;
    } else {
      SignStops(sign + body, radix);
    }
  }

  /** A signed 64-bit number is reached exactly when its magnitude is. */
  lemma SignedFits(r: int, num: int)
    ensures -(HALF64 as int) <= num < HALF64 ==>
              (Signed64(if num < 0 then -r else r) == num <==> Wrap(r) == Magnitude(num))
  {
  }

  lemma SignStops(s: string, radix: nat)
    requires s != "" && (s[0] == '+' || s[0] == ' ')
    ensures Reading(s, radix) == 0
  {
    assert s[..0] == "";
  }

  lemma UnsignedFront(length: int, digits: int, num: nat, radix: nat, zeroPad: bool, left: bool, upper: bool)
    requires radix in {8, 10, 16}
    ensures var t := UintText(length, digits, num, radix, zeroPad, left, upper); t != "" ==> t[0] != '-'
  {
    hide Numeral, DigitOf;
    if num > 0 {
      NumeralValue(num, radix, upper);
      var d := Numeral(num, radix, upper);
      MinusIsNoDigit(radix);
      assert d[0] != '-';
    }
  }

  lemma MinusIsNoDigit(radix: nat)
    ensures DigitOf('-', radix) < 0
  {
  }

  /** The field width is a minimum, except for a zero with precision 0 in a field of one. */
  lemma FieldWidth(length: int, digits: int, num: nat, radix: nat, zeroPad: bool, left: bool, upper: bool)
    requires 2 <= radix <= 16
    ensures |UintText(length, digits, num, radix, zeroPad, left, upper)| >= length <==>
              !(num == 0 && length == 1 && digits == 0)
  {
  }

  /** Whole directives: what `%lu`, `%lo` and `%lx` print reads back as the argument. */
  lemma UnsignedDirective(spec: char, radix: nat, n: nat)
    requires (spec, radix) in {('u', 10), ('o', 8), ('x', 16)} && n < WORD
    ensures var t := Render(['%', 'l', spec], 0, [Word(n)]); t.Some? && Reading(t.value, radix) == n
  {
    hide Reading, Render, UintText;
    assert UnsignedArg(LONG, n) == n;
    var t := UintText(0, -1, n, radix, false, false, false);
    assert "" + t == t && [Word(n)][1..] == [];
    LongDirective(spec, n, t);
    if n == 0 {
      ZeroReads(0, -1, radix, false, false, false);
    } else {
      ReadsBack(0, -1, n, radix, false, false, false);
    }
  }

  /** And what `%ld` prints, as the signed argument. */
  lemma SignedDirective(n: nat)
    requires n < WORD
    ensures var t := Render("%ld", 0, [Word(n)]); t.Some? && SignedReading(t.value, 10) == SignedArg(LONG, n)
  {
    hide SignedReading, Render, IntText;
    var v := SignedArg(LONG, n);
    var t := IntText(v, {}, 0, -1, 10, false);
    assert [Word(n)][1..] == [] && "" + t == t;
    LongDirective('d', n, t);
    SignedReadsBack(v, {}, 0, -1, 10, false);
  }

  lemma LongDirective(spec: char, n: nat, t: string)
    requires spec in {'u', 'o', 'x', 'd'} && Conversion(BLANK.(len := LONG), spec, [Word(n)]) == Some((t, []))
    ensures Render(['%', 'l', spec], 0, [Word(n)]) == Some(t)
  {
    hide Conversion;
    var f, args := ['%', 'l', spec], [Word(n)];
    assert FlagsEnd(f, 1) == 1 && DigitsEnd(f, 1) == 1;
    assert BLANK.flags + SetOf(f, 1, 1) == {};
    LongTail(f, 1, BLANK, spec, n, t);
    assert AtWidth(f, 1, BLANK, args) == Modifiers(f, 1, BLANK, args);
    assert AfterPercent(f, 1, BLANK, args) == AtWidth(f, 1, BLANK, args);
  }

  /** A directive that ends in `l` and a conversion letter. */
  lemma LongTail(f: string, j: nat, d: Directive, spec: char, n: nat, t: string)
    requires j + 2 == |f| && f[j] == 'l' && f[j + 1] == spec && spec in {'u', 'o', 'x', 'd'} && d.len == Length.NORMAL
    requires Conversion(d.(len := LONG), spec, [Word(n)]) == Some((t, []))
    ensures Modifiers(f, j, d, [Word(n)]) == Some(t)
  {
    hide Conversion;
    assert Render(f, j + 2, []) == Some("") && t + "" == t;
    assert Modifiers(f, j + 1, d.(len := LONG), [Word(n)]) == Some(t);
  }

  /** A run of decimal digits ends where it ends and denotes its value. */
  lemma {:induction false} DecimalRun(f: string, a: nat, i: nat, j: nat)
    requires a <= i <= j < |f| && !IsDigit(f[j]) && AllDigits(f[a..j], 10)
    ensures DigitsEnd(f, i) == j && Decimal(Value(f[a..i], 10), f, i, j) == Value(f[a..j], 10)
    decreases j - i
  {
    if i < j {
      assert f[a..j][i - a] == f[i];
      ValueSlice(f, a, i, 10);
      DecimalRun(f, a, i + 1, j);
    }
  }

  /** A zero-padded width: `%0` and the numeral of `w`, `l` and a conversion letter. */
  function Padded(w: nat, spec: char): string
  {
    "%0" + Numeral(w, 10, false) + ['l', spec]
  }

  /** A precision: `%.` and the numeral of `p`, `l` and a conversion letter. */
  function Precise(p: nat, spec: char): string
  {
    "%." + Numeral(p, 10, false) + ['l', spec]
  }

  lemma PaddedIs(w: nat, spec: char, n: nat, t: string)
    requires spec in {'u', 'o', 'x', 'd'}
    requires Conversion(Directive({'0'}, w, -1, LONG), spec, [Word(n)]) == Some((t, []))
    ensures Render(Padded(w, spec), 0, [Word(n)]) == Some(t)
  {
    hide Conversion, Numeral, Modifiers, Decimal, DigitsEnd, Value, AllDigits;
    var f, args, width := Padded(w, spec), [Word(n)], Numeral(w, 10, false);
    var j := 2 + |width|;
    NumeralValue(w, 10, false);
    NumeralZero10();
    assert f[2..j] == width && f[j] == 'l' && f[j + 1] == spec;
    ValueEmpty(10);
    assert f[2..2] == "";
    DecimalRun(f, 2, 2, j);
    assert f[2] !in FLAGS by { NoFlag(width, f[2]); }
    assert FlagsEnd(f, 2) == 2 && FlagsEnd(f, 1) == 2;
    var d := BLANK.(flags := {'0'});
    assert f[1..2] == "0" && BLANK.flags + SetOf(f, 1, 2) == {'0'};
    LongTail(f, j, d.(width := w), spec, n, t);
    assert AtWidth(f, 2, d, args) == Modifiers(f, j, d.(width := w), args);
    assert AfterPercent(f, 1, BLANK, args) == AtWidth(f, 2, d, args);
  }

  lemma NumeralZero10()
    ensures Numeral(0, 10, false) == ""
  {
  }

  /** The character after the flag is a digit other than zero, or the length letter. */
  lemma NoFlag(width: string, c: char)
    requires AllDigits(width, 10) && (width != "" ==> c == width[0] != '0') && (width == "" ==> c == 'l')
    ensures c !in FLAGS
  {
  }

  lemma PreciseIs(p: nat, spec: char, n: nat, t: string)
    requires spec in {'u', 'o', 'x', 'd'}
    requires Conversion(Directive({}, 0, p, LONG), spec, [Word(n)]) == Some((t, []))
    ensures Render(Precise(p, spec), 0, [Word(n)]) == Some(t)
  {
    hide Conversion, Numeral, Value, AllDigits;
    var f, args, digits := Precise(p, spec), [Word(n)], Numeral(p, 10, false);
    var j := 2 + |digits|;
    NumeralValue(p, 10, false);
    assert f[2..j] == digits && f[j] == 'l' && f[j + 1] == spec && f[1] == '.';
    ValueEmpty(10);
    assert f[2..2] == "";
    DecimalRun(f, 2, 2, j);
    var d := BLANK.(precision := 0);
    assert FlagsEnd(f, 1) == 1 && DigitsEnd(f, 1) == 1 && BLANK.flags + SetOf(f, 1, 1) == {};
    LongTail(f, j, d.(precision := p), spec, n, t);
    hide Modifiers, Decimal;
    PreciseSteps(f, j, p, args);
  }

  lemma PreciseSteps(f: string, j: nat, p: nat, args: seq<Arg>)
    requires 2 <= j < |f| && f[0] == '%' && f[1] == '.' && f[j] == 'l' && DigitsEnd(f, 2) == j
             && Decimal(0, f, 2, j) == p
    ensures Render(f, 0, args) == Modifiers(f, j, BLANK.(precision := p), args)
  {
    hide Convert;
    var d := BLANK.(precision := 0);
    assert FlagsEnd(f, 1) == 1 && DigitsEnd(f, 1) == 1 && BLANK.flags + SetOf(f, 1, 1) == {};
    assert AtPrecision(f, 2, d, args) == Modifiers(f, j, BLANK.(precision := p), args);
    assert Modifiers(f, 1, BLANK, args) == AtPrecision(f, 2, d, args);
    assert AtWidth(f, 1, BLANK, args) == Modifiers(f, 1, BLANK, args);
    assert AfterPercent(f, 1, BLANK, args) == AtWidth(f, 1, BLANK, args);
  }

  /** What zero-padded and precise unsigned directives print reads back as the argument. */
  lemma PaddedUnsigned(spec: char, radix: nat, w: nat, n: nat)
    requires (spec, radix) in {('u', 10), ('o', 8), ('x', 16)} && n < WORD
    ensures var t := Render(Padded(w, spec), 0, [Word(n)]); t.Some? && Reading(t.value, radix) == n
    ensures var t := Render(Precise(w, spec), 0, [Word(n)]); t.Some? && Reading(t.value, radix) == n
  {
    hide Reading, Render, UintText, Padded, Precise;
    assert UnsignedArg(LONG, n) == n && [Word(n)][1..] == [];
    var t, u := UintText(w, -1, n, radix, true, false, false), UintText(w, w, n, radix, false, false, false);
    assert "" + t == t && "" + u == u;
    PaddedIs(w, spec, n, t);
    PreciseIs(w, spec, n, u);
    if n == 0 {
      ZeroReads(w, -1, radix, true, false, false);
      ZeroReads(w, w, radix, false, false, false);
    } else {
      ReadsBack(w, -1, n, radix, true, false, false);
      ReadsBack(w, w, n, radix, false, false, false);
    }
  }

  /** And signed ones, as the signed argument; the most negative number included, in 64-bit
      arithmetic. */
  lemma PaddedSigned(w: nat, n: nat)
    requires n < WORD
    ensures var t := Render(Padded(w, 'd'), 0, [Word(n)]); t.Some? && SignedReading(t.value, 10) == SignedArg(LONG, n)
    ensures var t := Render(Precise(w, 'd'), 0, [Word(n)]); t.Some? && SignedReading(t.value, 10) == SignedArg(LONG, n)
  {
    hide SignedReading, Render, IntText, Padded, Precise, Numeral;
    var v := SignedArg(LONG, n);
    var t, u := IntText(v, {'0'}, w, -1, 10, false), IntText(v, {}, w, w, 10, false);
    assert [Word(n)][1..] == [] && "" + t == t && "" + u == u;
    PaddedIs(w, 'd', n, t);
    PreciseIs(w, 'd', n, u);
    SignedReadsBack(v, {'0'}, w, -1, 10, false);
    SignedReadsBack(v, {}, w, w, 10, false);
  }

  // ---- Two formats that print what one would not expect ---------------------------------

  /** A zero with precision 0 in a field of one prints nothing at all. */
  lemma FieldOfOne()
    ensures Render("%1.0d", 0, [Word(0)]) == Some("")
  {
    var f, args := "%1.0d", [Word(0)];
    var d := BLANK.(width := 1);
    assert FlagsEnd(f, 1) == 1 && DigitsEnd(f, 2) == 2 && DigitsEnd(f, 1) == 2 && Decimal(0, f, 1, 2) == 1;
    assert DigitsEnd(f, 4) == 4 && DigitsEnd(f, 3) == 4 && Decimal(0, f, 3, 4) == 0;
    assert BLANK.flags + SetOf(f, 1, 1) == {};
    EmptyText(args);
    assert Render(f, 5, []) == Some("");
    assert Modifiers(f, 4, d.(precision := 0), args) == Some("");
    assert AtPrecision(f, 3, d.(precision := 0), args) == Modifiers(f, 4, d.(precision := 0), args);
    assert Modifiers(f, 2, d, args) == AtPrecision(f, 3, d.(precision := 0), args);
    assert AtWidth(f, 1, BLANK, args) == Modifiers(f, 2, d, args);
  }

  lemma EmptyText(args: seq<Arg>)
    requires args == [Word(0)]
    ensures Conversion(Directive({}, 1, 0, Length.NORMAL), 'd', args) == Some(("", []))
  {
    assert args[1..] == [] && Times('0', 0) == "" && SignedArg(Length.NORMAL, 0) == 0;
    assert IntText(0, {}, 1, 0, 10, false) == "" + "";
  }

  /** Left-justified and zero-padded, 12 prints, and reads, as 1200. */
  lemma ZerosOnTheRight()
    ensures Render("%-04d", 0, [Word(12)]) == Some("1200") && SignedReading("1200", 10) == 1200
  {
    hide Conversion, SignedReading;
    var f, args := "%-04d", [Word(12)];
    var d := BLANK.(flags := {'-', '0'});
    assert FlagsEnd(f, 3) == 3 && FlagsEnd(f, 2) == 3 && FlagsEnd(f, 1) == 3;
    assert f[1..3] == "-0" && BLANK.flags + SetOf(f, 1, 3) == {'-', '0'};
    assert DigitsEnd(f, 4) == 4 && DigitsEnd(f, 3) == 4 && Decimal(0, f, 3, 4) == 4;
    TwelveText(args);
    assert Render(f, 5, []) == Some("") && "1200" + "" == "1200";
    assert Modifiers(f, 4, d.(width := 4), args) == Some("1200");
    assert AtWidth(f, 3, d, args) == Modifiers(f, 4, d.(width := 4), args);
    assert AfterPercent(f, 1, BLANK, args) == AtWidth(f, 3, d, args);
    Reads1200();
  }

  lemma Reads1200()
    ensures SignedReading("1200", 10) == 1200
  {
    hide Reading;
    assert AllDigits("1200", 10);
    ReadsPlain("1200", 10);
    ValueEmpty(10);
    hide Value;
    ValueSnoc("", '1', 10);
    ValueSnoc("1", '2', 10);
    ValueSnoc("12", '0', 10);
    ValueSnoc("120", '0', 10);
    assert "" + ['1'] == "1" && "1" + ['2'] == "12" && "12" + ['0'] == "120" && "120" + ['0'] == "1200";
  }

  lemma TwelveText(args: seq<Arg>)
    requires args == [Word(12)]
    ensures Conversion(Directive({'-', '0'}, 4, -1, Length.NORMAL), 'd', args) == Some(("1200", []))
  {
    hide UintText;
    TwelveLeft();
    var t := UintText(4, -1, 12, 10, true, true, false);
    assert args[1..] == [] && SignedArg(Length.NORMAL, 12) == 12;
    assert IntText(12, {'-', '0'}, 4, -1, 10, false) == "" + t == t && "" + t == t;
  }

  lemma TwelveLeft()
    ensures UintText(4, -1, 12, 10, true, true, false) == "1200"
  {
    Twelve();
    hide Numeral;
    assert Times('0', 0) == "" && Times('0', 2) == "00";
  }

  lemma Twelve()
    ensures Numeral(12, 10, false) == "12"
  {
    assert Over(12, 10) == 1 && Last(12, 10) == 2 && Over(1, 10) == 0 && Last(1, 10) == 1;
    assert Numeral(1, 10, false) == "" + [DigitChar(1, false)];
    assert Numeral(12, 10, false) == Numeral(1, 10, false) + [DigitChar(2, false)];
  }
}
