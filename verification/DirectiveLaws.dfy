/** What a whole conversion keeps and does not keep: its field width, and its number when it is
    read back. */
module DirectiveLaws {
  import opened Options
  import opened Machine
  import opened Digits
  import opened PrintfSpec
  import opened NumberParsing

  function Radix(spec: char): (radix: nat)
    ensures radix in {8, 10, 16}
  {
    if spec in "xXp" then 16 else if spec == 'o' then 8 else 10
  }

  /** The prefix of an unsigned conversion. */
  function Front(d: Directive, spec: char): string
  {
    Prefix('#' in d.flags, Radix(spec), spec == 'X')
  }

  /** The argument of a conversion that takes a number. */
  function Signed(d: Directive, args: seq<Arg>): int
    requires args != [] && args[0].Word?
  {
    SignedArg(d.len, args[0].bits)
  }

  function Unsigned(d: Directive, spec: char, args: seq<Arg>): (n: nat)
    requires args != [] && args[0].Word?
    ensures n < WORD
  {
    UnsignedArg(if spec == 'p' && d.len.NORMAL? then LONG else d.len, args[0].bits)
  }

  /** The room left for the number itself. */
  function Room(d: Directive, prefix: string): int
  {
    Max(if prefix == "" then d.width else Max(d.width - |prefix|, 0), d.precision)
  }

  // ---- Field width ---------------------------------------------------------------------

  /** When a conversion fills its field: a zero of precision 0 with room for one digit does not,
      nor does a character or a percent sign in a wider field, nor an unknown letter. */
  predicate Fills(d: Directive, spec: char, args: seq<Arg>)
    requires Conversion(d, spec, args).Some?
  {
    if spec in "di" then
      !(Signed(d, args) == 0 && d.precision == 0 && d.width == |Sign(0, '+' in d.flags, ' ' in d.flags)| + 1)
    else if spec in "uoxXp" then
      !(Unsigned(d, spec, args) == 0 && d.precision == 0 && d.width == |Front(d, spec)| + 1)
    else if spec == 's' then true
    else if spec == 'c' || spec == '%' then d.width <= 1
    else d.width <= 0
  }

  /** The width of a directive is a minimum exactly when `Fills` says so. */
  lemma WidthExactly(d: Directive, spec: char, args: seq<Arg>)
    requires Conversion(d, spec, args).Some?
    ensures |Conversion(d, spec, args).value.0| >= d.width <==> Fills(d, spec, args)
  {
    hide UintText, IntText, StrText;
    if spec in "di" {
      var length, n := Max(d.width, d.precision), Signed(d, args);
      IntWidth(n, d.flags, length, d.precision, 10, false);
      assert "" + IntText(n, d.flags, length, d.precision, 10, false) == Conversion(d, spec, args).value.0;
    } else if spec in "uoxXp" {
      FieldWidth(Room(d, Front(d, spec)), d.precision, Unsigned(d, spec, args), Radix(spec), '0' in d.flags,
                 '-' in d.flags, spec == 'X');
      UnsignedIs(d, spec, args);
    } else if spec == 's' {
      StrWidth(args[0].str, d.width, d.precision);
    }
  }

  lemma UnsignedIs(d: Directive, spec: char, args: seq<Arg>)
    requires spec in "uoxXp" && Conversion(d, spec, args).Some?
    ensures args != [] && args[0].Word?
    ensures Conversion(d, spec, args).value.0 ==
              Front(d, spec) + UintText(Room(d, Front(d, spec)), d.precision, Unsigned(d, spec, args), Radix(spec),
                                        '0' in d.flags, '-' in d.flags, spec == 'X')
  {
    hide UintText;
  }

  lemma IntWidth(num: int, flags: set<char>, length: int, digits: int, radix: nat, upper: bool)
    requires 2 <= radix <= 16
    ensures var sign, t := Sign(num, '+' in flags, ' ' in flags), IntText(num, flags, length, digits, radix, upper);
            |t| >= length <==> !(num == 0 && digits == 0 && length == |sign| + 1)
  {
    hide UintText;
    var sign := Sign(num, '+' in flags, ' ' in flags);
    FieldWidth(length - |sign|, digits, Magnitude(num), radix, '0' in flags, '-' in flags, upper);
  }

  lemma StrWidth(s: string, width: int, precision: int)
    ensures |StrText(s, width, precision)| >= width
  {
  }

  /** A character ignores its field width. */
  lemma WideCharacter()
    ensures Render("%2c", 0, [Word(65)]) == Some("A")
  {
    var f, args := "%2c", [Word(65)];
    var d := BLANK.(width := 2);
    assert FlagsEnd(f, 1) == 1 && DigitsEnd(f, 2) == 2 && DigitsEnd(f, 1) == 2 && Decimal(0, f, 1, 2) == 2;
    assert BLANK.flags + SetOf(f, 1, 1) == {} && args[1..] == [];
    assert Conversion(d, 'c', args) == Some(("A", []));
    assert Render(f, 3, []) == Some("") && "A" + "" == "A";
    assert Modifiers(f, 2, d, args) == Some("A");
    assert AtWidth(f, 1, BLANK, args) == Modifiers(f, 2, d, args);
  }

  // ---- Reading back --------------------------------------------------------------------

  /** `strtoul` gives an unsigned conversion's argument back exactly when it is zero, or there is
      no hexadecimal prefix and the padding does not get in the way. */
  lemma UnsignedExactly(d: Directive, spec: char, args: seq<Arg>)
    requires spec in "uoxXp" && Conversion(d, spec, args).Some?
    ensures var t, n, radix := Conversion(d, spec, args).value.0, Unsigned(d, spec, args), Radix(spec);
            Wrap(Reading(t, radix)) == n
            <==> n == 0 || (&& !('#' in d.flags && radix == 16)
                            && Readable(Room(d, Front(d, spec)), d.precision, n, radix, '0' in d.flags,
                                        '-' in d.flags, spec == 'X'))
  {
    hide UintText, Conversion, Reading, Readable, Unsigned, Room, Wrap;
    UnsignedIs(d, spec, args);
    var n, radix, length := Unsigned(d, spec, args), Radix(spec), Room(d, Front(d, spec));
    var u := UintText(length, d.precision, n, radix, '0' in d.flags, '-' in d.flags, spec == 'X');
    if n == 0 {
      ZeroReads(length, d.precision, radix, '0' in d.flags, '-' in d.flags, spec == 'X');
    } else {
      ReadsBack(length, d.precision, n, radix, '0' in d.flags, '-' in d.flags, spec == 'X');
    }
    PrefixReads(u, '#' in d.flags, radix, spec == 'X');
  }

  /** An octal prefix is one more zero; at a hexadecimal one reading stops. */
  lemma PrefixReads(u: string, extra: bool, radix: nat, upper: bool)
    requires radix in {8, 10, 16}
    ensures Reading(Prefix(extra, radix, upper) + u, radix) == if extra && radix == 16 then 0 else Reading(u, radix)
  {
    hide DigitOf, Value, AllDigits;
    var s := Prefix(extra, radix, upper) + u;
    if extra && radix == 16 {
      ZeroThenX(s);
    } else if extra && radix == 8 {
      assert s[1..] == u && s[0] == '0';
      ZeroFirst(s);
    } else {
      assert s == u;
    }
  }

  lemma ZeroThenX(s: string)
    requires |s| >= 2 && s[0] == '0' && s[1] in "xX"
    ensures Reading(s, 16) == 0
  {
    RunFrom(s, 0, 1, 16);
    assert s[..1] == Times('0', 1) + "";
    ValueZeros(1, "", 16);
  }

  lemma ZeroFirst(s: string)
    requires s != "" && s[0] == '0'
    ensures Reading(s, 8) == Reading(s[1..], 8)
  {
    RunShift(s, 0, 8);
    var k := RunEnd(s[1..], 0, 8);
    assert DigitOf(s[0], 8) == 0;
    assert s[..k + 1] == Times('0', 1) + s[1..][..k];
    ValueZeros(1, s[1..][..k], 8);
  }

  /** `strtol` gives a signed conversion's argument back exactly when it is readable. */
  lemma SignedExactly(d: Directive, spec: char, args: seq<Arg>)
    requires spec in "di" && Conversion(d, spec, args).Some?
    ensures var t, n := Conversion(d, spec, args).value.0, Signed(d, args);
            Signed64(SignedReading(t, 10)) == n
            <==> SignedReadable(n, d.flags, Max(d.width, d.precision), d.precision, 10, false)
  {
    hide IntText, SignedReading, Signed64, SignedReadable;
    var length, n := Max(d.width, d.precision), Signed(d, args);
    SignedReadsBack(n, d.flags, length, d.precision, 10, false);
    var t := IntText(n, d.flags, length, d.precision, 10, false);
    assert "" + t == t && Conversion(d, spec, args).value.0 == t;
  }

  /** The alternative form of a hexadecimal number reads as zero. */
  lemma AlternativeForm()
    ensures Render("%#lx", 0, [Word(10)]) == Some("0xa") && Reading("0xa", 16) == 0
  {
    hide Conversion, Reading;
    ZeroThenX("0xa");
    var f, args := "%#lx", [Word(10)];
    var d := BLANK.(flags := {'#'});
    assert FlagsEnd(f, 2) == 2 && FlagsEnd(f, 1) == 2 && DigitsEnd(f, 2) == 2;
    assert f[1..2] == "#" && BLANK.flags + SetOf(f, 1, 2) == {'#'};
    TenText(args);
    LongTail(f, 2, d, 'x', 10, "0xa");
    assert AtWidth(f, 2, d, args) == Modifiers(f, 2, d, args);
    assert AfterPercent(f, 1, BLANK, args) == AtWidth(f, 2, d, args);
  }

  lemma TenText(args: seq<Arg>)
    requires args == [Word(10)]
    ensures Conversion(Directive({'#'}, 0, -1, LONG), 'x', args) == Some(("0xa", []))
  {
    assert Over(10, 16) == 0 && Last(10, 16) == 10 && Numeral(0, 16, false) == "";
    assert Numeral(10, 16, false) == "" + ['a'] == "a";
    assert args[1..] == [] && UnsignedArg(LONG, 10) == 10 && "0x" + "a" == "0xa";
  }
}
