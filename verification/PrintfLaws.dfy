/** What the parts of a directive mean, each stated apart from the functions that scan and print
    it: a directive put together from flags, width, precision, length and letter does what its
    conversion does with exactly those parts, and a conversion's output is laid out place by
    place. */
module PrintfLaws {
  import opened Options
  import opened Machine
  import opened Digits
  import opened PrintfSpec
  import opened PrintfText
  import opened DirectiveLaws
  import opened NumberParsing

  // ---- Arguments -----------------------------------------------------------------------

  /** The sizes of the lengths: 64 bits for the long ones, else 32. */
  function Modulus(len: Length): nat
  {
    match len
    case CHAR => 0x1_0000_0000
    case SHORT => 0x1_0000_0000
    case NORMAL => 0x1_0000_0000
    case LDOUB => 0x1_0000_0000
    case _ => 0x1_0000_0000_0000_0000
  }

  /** An argument is taken as the number of its size that its bits stand for, signed or not. */
  lemma ArgumentsExactly(len: Length, bits: nat)
    ensures var m := Modulus(len);
            && -(m as int) <= 2 * SignedArg(len, bits) < m && (SignedArg(len, bits) - bits) % m == 0
            && UnsignedArg(len, bits) < m && (UnsignedArg(len, bits) - bits) % m == 0
  {
    if Modulus(len) == 0x1_0000_0000 {
      Congruent32(bits);
    } else {
      Congruent64(bits);
    }
  }

  lemma Congruent32(x: nat)
    ensures var m := 0x1_0000_0000; (x % m - x) % m == 0 && (x % m - m - x) % m == 0
  {
  }

  lemma Congruent64(x: nat)
    ensures var m := 0x1_0000_0000_0000_0000; (x % m - x) % m == 0 && (x % m - m - x) % m == 0
  {
  }

  /** What `%ld` prints for any 64 bits reads back as those bits. */
  lemma SignedRoundTrip(n: nat)
    requires n < WORD
    ensures var t := Render("%ld", 0, [Word(n)]); t.Some? && Wrap(SignedReading(t.value, 10)) == n
  {
    hide Render, SignedReading;
    SignedDirective(n);
    ArgumentsExactly(LONG, n);
    SameWord(SignedArg(LONG, n), n);
  }

  lemma SameWord(x: int, n: nat)
    requires n < WORD && (x - n) % WORD == 0
    ensures Wrap(x) == n
  {
    var q := (x - n) / WORD;
    WrapAdd(n, q);
  }

  // ---- Layout --------------------------------------------------------------------------

  /** A positive number, right-justified: the numeral last, zeros in front of it where the
      precision or the zero flag asks for them, counted from the left, and spaces elsewhere. */
  lemma RightLayout(length: int, digits: int, num: nat, radix: nat, zeroPad: bool, upper: bool)
    requires 2 <= radix <= 16 && num > 0
    ensures var t, d := UintText(length, digits, num, radix, zeroPad, false, upper), Numeral(num, radix, upper);
            && |t| == Max(length, |d|) && t[|t| - |d|..] == d
            && forall i :: 0 <= i < |t| - |d| ==> t[i] == if zeroPad || i < digits - |d| then '0' else ' '
  {
    hide Numeral;
  }

  /** And left-justified: the zeros of the precision, the numeral, then padding. */
  lemma LeftLayout(length: int, digits: int, num: nat, radix: nat, zeroPad: bool, upper: bool)
    requires 2 <= radix <= 16 && num > 0
    ensures var t, d := UintText(length, digits, num, radix, zeroPad, true, upper), Numeral(num, radix, upper);
            var z := if length > |d| then Max(digits - |d|, 0) else 0;
            && |t| == Max(length, |d| + z) && t[z..z + |d|] == d
            && (forall i :: 0 <= i < z ==> t[i] == '0')
            && forall i :: z + |d| <= i < |t| ==> t[i] == if zeroPad then '0' else ' '
  {
    hide Numeral;
  }

  /** Zero has no numeral: one digit, unless the precision is 0, and zeros for the precision. */
  lemma ZeroLayout(length: int, digits: int, radix: nat, zeroPad: bool, left: bool, upper: bool)
    requires 2 <= radix <= 16
    ensures var t, one := UintText(length, digits, 0, radix, zeroPad, left, upper), if digits != 0 then 1 else 0;
            && (length <= 1 ==> |t| == one)
            && (length > 1 ==> |t| == Max(length, if left then Max(digits, 0) + one else one))
            && forall i :: 0 <= i < |t| ==>
                 t[i] == if || zeroPad || length <= 1
                            || (if left then i < Max(digits, 0) + one else i < digits - one || i >= |t| - one)
                         then '0' else ' '
  {
  }

  /** A signed number: `-` for a negative one, `+` or a blank for the others when asked for, the
      first of the two winning; then the magnitude in what is left of the field. */
  lemma SignLayout(num: int, flags: set<char>, length: int, digits: int, radix: nat, upper: bool)
    requires 2 <= radix <= 16
    ensures var t := IntText(num, flags, length, digits, radix, upper);
            if num < 0 then
              && t != "" && t[0] == '-'
              && t[1..] == UintText(length - 1, digits, -num, radix, '0' in flags, '-' in flags, upper)
            else if '+' in flags || ' ' in flags then
              && t != "" && t[0] == (if '+' in flags then '+' else ' ')
              && t[1..] == UintText(length - 1, digits, num, radix, '0' in flags, '-' in flags, upper)
            else t == UintText(length, digits, num, radix, '0' in flags, '-' in flags, upper)
  {
    hide UintText;
    var sign := Sign(num, '+' in flags, ' ' in flags);
    var body := UintText(length - |sign|, digits, Magnitude(num), radix, '0' in flags, '-' in flags, upper);
    assert sign != "" ==> (sign + body)[1..] == body;
    assert sign == "" ==> sign + body == body;
  }

  /** A string up to its terminator, cut at a positive precision, then spaces up to the width,
      always on the right. */
  lemma StringLayout(s: string, width: int, precision: int)
    ensures var t, k := StrText(s, width, precision), Shown(s, precision);
            && k <= |s| && |t| == Max(width, k) && t[..k] == s[..k] && '\0' !in t[..k]
            && (precision > 0 ==> k <= precision)
            && (k < |s| ==> s[k] == '\0' || k == precision > 0)
            && forall i :: k <= i < |t| ==> t[i] == ' '
  {
  }

  // ---- Letters -------------------------------------------------------------------------

  function UpperChar(c: char): char
  {
    if 'a' <= c <= 'z' then (c as int - 'a' as int + 'A' as int) as char else c
  }

  function Upper(s: string): (u: string)
    ensures |u| == |s| && forall i :: 0 <= i < |s| ==> u[i] == UpperChar(s[i])
  {
    seq(|s|, i requires 0 <= i < |s| => UpperChar(s[i]))
  }

  predicate IsLower(s: string)
  {
    forall i :: 0 <= i < |s| ==> !('A' <= s[i] <= 'Z')
  }

  lemma UpperConcat(a: string, b: string)
    ensures Upper(a + b) == Upper(a) + Upper(b)
    ensures IsLower(a) && IsLower(b) ==> IsLower(a + b)
  {
  }

  lemma {:induction false} UpperNumeral(num: nat, radix: nat)
    requires 2 <= radix <= 16
    ensures Numeral(num, radix, true) == Upper(Numeral(num, radix, false))
    ensures IsLower(Numeral(num, radix, false))
    decreases num
  {
    OverLast(num, radix);
    if num > 0 {
      UpperNumeral(Over(num, radix), radix);
      UpperConcat(Numeral(Over(num, radix), radix, false), [DigitChar(Last(num, radix), false)]);
      UpperDigit(Last(num, radix));
    }
  }

  lemma UpperDigit(k: nat)
    requires k < 16
    ensures Upper([DigitChar(k, false)]) == [DigitChar(k, true)] && IsLower([DigitChar(k, false)])
  {
  }

  lemma UpperTimes(c: char, n: int)
    requires c == '0' || c == ' '
    ensures Upper(Times(c, n)) == Times(c, n) && IsLower(Times(c, n))
  {
  }

  lemma UpperFiller(length: int, zeros: int, zeroPad: bool)
    ensures Upper(Filler(length, zeros, zeroPad)) == Filler(length, zeros, zeroPad)
    ensures IsLower(Filler(length, zeros, zeroPad))
  {
  }

  lemma UpperUint(length: int, digits: int, num: nat, radix: nat, zeroPad: bool, left: bool)
    requires 2 <= radix <= 16
    ensures UintText(length, digits, num, radix, zeroPad, left, true)
         == Upper(UintText(length, digits, num, radix, zeroPad, left, false))
    ensures IsLower(UintText(length, digits, num, radix, zeroPad, left, false))
  {
    if num == 0 {
      UpperZero(length, digits, radix, zeroPad, left);
    } else {
      UpperPositive(length, digits, num, radix, zeroPad, left);
    }
  }

  lemma UpperZero(length: int, digits: int, radix: nat, zeroPad: bool, left: bool)
    requires 2 <= radix <= 16
    ensures var t := UintText(length, digits, 0, radix, zeroPad, left, false);
            UintText(length, digits, 0, radix, zeroPad, left, true) == t == Upper(t) && IsLower(t)
  {
    ZeroLayout(length, digits, radix, zeroPad, left, false);
    assert UintText(length, digits, 0, radix, zeroPad, left, true)
        == UintText(length, digits, 0, radix, zeroPad, left, false);
    hide UintText;
  }

  lemma UpperPositive(length: int, digits: int, num: nat, radix: nat, zeroPad: bool, left: bool)
    requires 2 <= radix <= 16 && num > 0
    ensures UintText(length, digits, num, radix, zeroPad, left, true)
         == Upper(UintText(length, digits, num, radix, zeroPad, left, false))
    ensures IsLower(UintText(length, digits, num, radix, zeroPad, left, false))
  {
    hide Numeral, Filler, Upper, IsLower, Times;
    UpperNumeral(num, radix);
    var d, pad := Numeral(num, radix, false), if zeroPad then '0' else ' ';
    var z := Max(digits - |d|, 0);
    if length <= |d| {
    } else if left {
      UpperTimes('0', z);
      UpperTimes(pad, length - |d| - z);
      UpperConcat(Times('0', z), d);
      UpperConcat(Times('0', z) + d, Times(pad, length - |d| - z));
    } else {
      UpperFiller(length - |d|, digits - |d|, zeroPad);
      UpperConcat(Filler(length - |d|, digits - |d|, zeroPad), d);
    }
  }

  /** `X` prints what `x` prints with capital letters, which `x` never prints. */
  lemma CapitalLetters(d: Directive, args: seq<Arg>)
    requires Conversion(d, 'x', args).Some?
    ensures Conversion(d, 'X', args).Some?
    ensures var x, y := Conversion(d, 'x', args).value, Conversion(d, 'X', args).value;
            IsLower(x.0) && y == (Upper(x.0), x.1)
  {
    hide UintText, Upper, IsLower;
    var p, q := Prefix('#' in d.flags, 16, false), Prefix('#' in d.flags, 16, true);
    assert Upper(p) == q && IsLower(p) by { UpperPrefix('#' in d.flags); }
    var length := Max(if p == "" then d.width else Max(d.width - |p|, 0), d.precision);
    var n := UnsignedArg(d.len, args[0].bits);
    UpperUint(length, d.precision, n, 16, '0' in d.flags, '-' in d.flags);
    UpperConcat(p, UintText(length, d.precision, n, 16, '0' in d.flags, '-' in d.flags, false));
  }

  lemma UpperPrefix(extra: bool)
    ensures Upper(Prefix(extra, 16, false)) == Prefix(extra, 16, true) && IsLower(Prefix(extra, 16, false))
    ensures |Prefix(extra, 16, false)| == |Prefix(extra, 16, true)|
  {
  }

  /** `#` puts `0x` or `0` in front of a hexadecimal or octal number and takes its width from the
      field; decimal numbers have no alternative form. */
  lemma AlternativeIs(d: Directive, spec: char, args: seq<Arg>)
    requires spec in "uoxp" && '#' in d.flags && Conversion(d, spec, args).Some?
    ensures var front := if spec == 'u' then "" else if spec == 'o' then "0" else "0x";
            var width := if front == "" then d.width else Max(d.width - |front|, 0);
            var plain := d.(flags := d.flags - {'#'}, width := width);
            && Conversion(plain, spec, args).Some?
            && Conversion(d, spec, args).value.0 == front + Conversion(plain, spec, args).value.0
  {
    hide UintText, Conversion, Unsigned;
    var front := if spec == 'u' then "" else if spec == 'o' then "0" else "0x";
    var plain := d.(flags := d.flags - {'#'}, width := if front == "" then d.width else Max(d.width - |front|, 0));
    UnsignedIs(d, spec, args);
    SameArgument(d, plain, spec, args);
    UnsignedIs(plain, spec, args);
    var t := UintText(Room(d, front), d.precision, Unsigned(d, spec, args), Radix(spec), '0' in d.flags,
                      '-' in d.flags, false);
    assert "" + t == t;
  }

  lemma SameArgument(d: Directive, e: Directive, spec: char, args: seq<Arg>)
    requires spec in "uoxp" && Conversion(d, spec, args).Some? && e.len == d.len
    ensures Conversion(e, spec, args).Some? && Unsigned(e, spec, args) == Unsigned(d, spec, args)
  {
    hide UintText, IntText;
  }

  /** The other letters: `i` is `d`, `p` is `x` of a long, `c` the low byte, `%` itself; floating
      point and `n` stop, and anything else prints nothing and takes no argument. */
  lemma OtherLetters(d: Directive, args: seq<Arg>)
    ensures Conversion(d, 'i', args) == Conversion(d, 'd', args)
    ensures Conversion(d, 'p', args) == Conversion(if d.len.NORMAL? then d.(len := LONG) else d, 'x', args)
    ensures args != [] && args[0].Word? ==>
              Conversion(d, 'c', args) == Some(([(args[0].bits % 256) as char], args[1..]))
    ensures args != [] && args[0].Text? ==>
              Conversion(d, 's', args) == Some((StrText(args[0].str, d.width, d.precision), args[1..]))
    ensures Conversion(d, '%', args) == Some(("%", args))
    ensures forall c: char :: c !in SPECS ==>
              Conversion(d, c, args) == if c in "fFeEgGaAn" then None else Some(("", args))
  {
    PointerIs(d, args);
    hide NumberConversion, StrText;
  }

  lemma PointerIs(d: Directive, args: seq<Arg>)
    ensures Conversion(d, 'p', args) == Conversion(if d.len.NORMAL? then d.(len := LONG) else d, 'x', args)
  {
    hide UintText, IntText;
  }

  // ---- Directives from their parts -------------------------------------------------------

  /** A width or precision: left out, a number, or the next argument. */
  datatype Field = Absent | Number(n: nat) | Star

  function FieldText(x: Field): string
  {
    match x
    case Absent => ""
    case Number(n) => Numeral(n, 10, false)
    case Star => "*"
  }

  datatype Parts = Parts(flags: string, width: Field, precision: Field, modifier: string, spec: char)

  /** A width has no leading zero, which would be a flag, and the letter is a conversion. */
  predicate Proper(p: Parts)
  {
    && (forall i :: 0 <= i < |p.flags| ==> p.flags[i] in {'-', '+', ' ', '#', '0'})
    && (p.width.Number? ==> p.width.n > 0)
    && p.modifier in MODIFIERS && p.spec in SPECS
  }

  const MODIFIERS := {"", "h", "hh", "l", "ll", "j", "z", "t", "L"}
  const SPECS := {'d', 'i', 'u', 'o', 'x', 'X', 'p', 'c', 's', '%'}

  function PrecisionText(x: Field): string
  {
    if x.Absent? then "" else "." + FieldText(x)
  }

  function DirectiveText(p: Parts): string
  {
    "%" + p.flags + FieldText(p.width) + PrecisionText(p.precision) + p.modifier + [p.spec]
  }

  function LengthOf(modifier: string): Length
  {
    if modifier == "h" then SHORT
    else if modifier == "hh" then CHAR
    else if modifier == "l" then LONG
    else if modifier == "ll" then LONG_LONG
    else if modifier == "j" then INTMAX
    else if modifier == "z" then SIZET
    else if modifier == "t" then PTRDIFFT
    else if modifier == "L" then LDOUB
    else Length.NORMAL
  }

  /** The number a width or precision stands for, and the arguments it leaves. */
  function FieldValue(x: Field, absent: int, args: seq<Arg>): Option<(int, seq<Arg>)>
  {
    match x
    case Absent => Some((absent, args))
    case Number(n) => Some((n, args))
    case Star => if args != [] && args[0].Word? then Some((SignedArg(Length.NORMAL, args[0].bits), args[1..])) else None
  }

  function FlagSet(flags: string): set<char>
  {
    set c | c in flags
  }

  /** The meaning of a directive: its width, precision and conversion in that order. */
  function Meaning(p: Parts, args: seq<Arg>): Option<(string, seq<Arg>)>
  {
    match FieldValue(p.width, 0, args)
    case None => None
    case Some((width, more)) =>
      match FieldValue(p.precision, -1, more)
      case None => None
      case Some((precision, rest)) =>
        Conversion(Directive(FlagSet(p.flags), width, precision, LengthOf(p.modifier)), p.spec, rest)
  }

  /** The directive stands at `i` of the format. */
  ghost predicate StandsAt(f: string, i: nat, p: Parts)
  {
    i + |DirectiveText(p)| <= |f| && f[i..i + |DirectiveText(p)|] == DirectiveText(p)
  }

  /** A directive anywhere in a format prints its meaning, and printing goes on behind it. */
  lemma DirectiveIs(f: string, i: nat, p: Parts, args: seq<Arg>)
    requires Proper(p) && StandsAt(f, i, p)
    ensures Render(f, i, args) ==
            match Meaning(p, args)
            case None => None
            case Some((t, more)) => Join(t, Render(f, i + |DirectiveText(p)|, more))
  {
    hide Conversion, Modifiers, AtWidth, AtPrecision, FieldText, PrecisionText, StandsAt, DirectiveText, Render;
    var b, c, d, e := Places(f, i, p);
    FlagsAre(f, i + 1, b, args);
    var flags := BLANK.(flags := FlagSet(p.flags));
    WidthIs(f, b, c, p.width, flags, args);
    if FieldValue(p.width, 0, args).Some? {
      var (width, more) := FieldValue(p.width, 0, args).value;
      PrecisionIs(f, c, d, p.precision, flags.(width := width), more);
      if FieldValue(p.precision, -1, more).Some? {
        var (precision, last) := FieldValue(p.precision, -1, more).value;
        ModifierIs(f, d, e, p.modifier, flags.(width := width, precision := precision), last);
      }
    }
  }

  /** Neither a digit, nor a flag, nor a star. */
  predicate Ends(c: char)
  {
    c == '.' || IsLetter(c)
  }

  predicate IsLetter(c: char)
  {
    c in SPECS || c in {'h', 'l', 'j', 'z', 't', 'L'}
  }

  /** Where the parts of a directive stand. */
  lemma Places(f: string, i: nat, p: Parts) returns (b: nat, c: nat, d: nat, e: nat)
    requires Proper(p) && StandsAt(f, i, p)
    ensures i < b <= c <= d <= e < |f| && e + 1 == i + |DirectiveText(p)|
    ensures f[i] == '%' && f[i + 1..b] == p.flags && f[b..c] == FieldText(p.width)
    ensures f[c..d] == PrecisionText(p.precision) && f[d..e] == p.modifier && f[e] == p.spec
    ensures IsLetter(f[d]) && Ends(f[c]) && f[b] !in FLAGS
  {
    b := i + 1 + |p.flags|;
    c := b + |FieldText(p.width)|;
    d := c + |PrecisionText(p.precision)|;
    e := d + |p.modifier|;
    hide FieldText, PrecisionText, Proper, Ends, IsLetter, StandsAt, DirectiveText;
    Slices(f, i, p);
    LetterAt(f, d, e, p);
    PrecisionFirst(f, c, d, p.precision);
    WidthFirst(f, b, c, p);
  }

  lemma Slices(f: string, i: nat, p: Parts)
    requires StandsAt(f, i, p)
    ensures var b := i + 1 + |p.flags|; var c := b + |FieldText(p.width)|;
            var d := c + |PrecisionText(p.precision)|; var e := d + |p.modifier|;
            && e < |f| && e + 1 == i + |DirectiveText(p)|
            && f[i] == '%' && f[i + 1..b] == p.flags && f[b..c] == FieldText(p.width)
            && f[c..d] == PrecisionText(p.precision) && f[d..e] == p.modifier && f[e] == p.spec
  {
    hide FieldText, PrecisionText;
    var e := i + |DirectiveText(p)| - 1;
    Six(f, i, "%", p.flags, FieldText(p.width), PrecisionText(p.precision), p.modifier, [p.spec]);
    assert f[e] == f[e..e + 1][0] && f[i] == f[i..i + 1][0];
  }

  lemma Six(f: string, i: nat, s0: string, s1: string, s2: string, s3: string, s4: string, s5: string)
    requires i + |s0 + s1 + s2 + s3 + s4 + s5| <= |f|
    requires f[i..i + |s0 + s1 + s2 + s3 + s4 + s5|] == s0 + s1 + s2 + s3 + s4 + s5
    ensures var a := i + |s0|; var b := a + |s1|; var c := b + |s2|; var d := c + |s3|; var e := d + |s4|;
            && f[i..a] == s0 && f[a..b] == s1 && f[b..c] == s2 && f[c..d] == s3 && f[d..e] == s4
            && f[e..e + |s5|] == s5
  {
    var a := i + |s0|; var b := a + |s1|; var c := b + |s2|; var d := c + |s3|; var e := d + |s4|;
    Two(f, i, s0 + s1 + s2 + s3 + s4, s5);
    Two(f, i, s0 + s1 + s2 + s3, s4);
    Two(f, i, s0 + s1 + s2, s3);
    Two(f, i, s0 + s1, s2);
    Two(f, i, s0, s1);
  }

  lemma Two(f: string, i: nat, s: string, t: string)
    requires i + |s + t| <= |f| && f[i..i + |s + t|] == s + t
    ensures f[i..i + |s|] == s && f[i + |s|..i + |s| + |t|] == t
  {
    assert f[i..i + |s|] == f[i..i + |s + t|][..|s|];
    assert f[i + |s|..i + |s| + |t|] == f[i..i + |s + t|][|s|..];
  }

  lemma LetterAt(f: string, d: nat, e: nat, p: Parts)
    requires Proper(p) && d <= e < |f| && f[d..e] == p.modifier && f[e] == p.spec
    ensures IsLetter(f[d]) && Ends(f[d])
  {
    assert d < e ==> f[d] == p.modifier[0];
  }

  lemma PrecisionFirst(f: string, c: nat, d: nat, x: Field)
    requires c <= d < |f| && f[c..d] == PrecisionText(x) && Ends(f[d])
    ensures Ends(f[c])
  {
    assert c < d ==> f[c] == f[c..d][0];
  }

  lemma WidthFirst(f: string, b: nat, c: nat, p: Parts)
    requires Proper(p) && b <= c < |f| && f[b..c] == FieldText(p.width) && Ends(f[c])
    ensures f[b] !in FLAGS
  {
    if b < c {
      assert f[b] == f[b..c][0];
      if p.width.Number? {
        NumeralValue(p.width.n, 10, false);
        hide Numeral;
        assert DigitOf(f[b], 10) >= 0;
      }
    }
  }

  lemma {:induction false} FlagsRun(f: string, i: nat, b: nat)
    requires i <= b < |f| && f[b] !in FLAGS && forall k :: i <= k < b ==> f[k] in FLAGS
    ensures FlagsEnd(f, i) == b
    decreases b - i
  {
    if i < b {
      FlagsRun(f, i + 1, b);
    }
  }

  lemma FlagsAre(f: string, a: nat, b: nat, args: seq<Arg>)
    requires 0 < a <= b < |f| && f[a - 1] == '%' && f[b] !in FLAGS
    requires forall k :: 0 <= k < b - a ==> f[a..b][k] in {'-', '+', ' ', '#', '0'}
    ensures Render(f, a - 1, args) == AtWidth(f, b, BLANK.(flags := FlagSet(f[a..b])), args)
  {
    hide AtWidth;
    forall k | a <= k < b ensures f[k] in FLAGS {
      assert f[k] == f[a..b][k - a];
    }
    FlagsRun(f, a, b);
    assert BLANK.flags + SetOf(f, a, b) == FlagSet(f[a..b]);
  }

  lemma NumberRun(f: string, a: nat, b: nat, n: nat)
    requires a <= b < |f| && f[a..b] == Numeral(n, 10, false) && Ends(f[b])
    ensures DigitsEnd(f, a) == b && Decimal(0, f, a, b) == n
  {
    hide Numeral, Value, AllDigits, Decimal, DigitsEnd;
    NumeralValue(n, 10, false);
    ValueEmpty(10);
    assert f[a..a] == "";
    DecimalRun(f, a, a, b);
  }

  lemma WidthIs(f: string, b: nat, c: nat, x: Field, d: Directive, args: seq<Arg>)
    requires b <= c < |f| && f[b..c] == FieldText(x) && Ends(f[c]) && d.width == 0
    ensures AtWidth(f, b, d, args) ==
            match FieldValue(x, 0, args)
            case None => None
            case Some((n, more)) => Modifiers(f, c, d.(width := n), more)
  {
    hide Modifiers, Numeral, SignedArg;
    match x
    case Absent =>
      assert b == c && DigitsEnd(f, b) == b && d.(width := 0) == d;
    case Number(n) =>
      NumberRun(f, b, c, n);
    case Star =>
      assert f[b..c][0] == f[b] && DigitsEnd(f, b) == b && c == b + 1;
  }

  lemma PrecisionIs(f: string, c: nat, d: nat, x: Field, dir: Directive, args: seq<Arg>)
    requires c <= d < |f| && f[c..d] == PrecisionText(x) && IsLetter(f[d]) && dir.precision == -1
    ensures Modifiers(f, c, dir, args) ==
            match FieldValue(x, -1, args)
            case None => None
            case Some((n, more)) => Modifiers(f, d, dir.(precision := n), more)
  {
    hide Numeral, SignedArg, Convert;
    if x.Absent? {
      assert c == d && dir.(precision := -1) == dir;
    } else {
      assert f[c] == f[c..d][0] == '.';
      assert f[c + 1..d] == f[c..d][1..] == FieldText(x);
      var dot := dir.(precision := 0);
      AfterDot(f, c + 1, d, x, dot, args);
      hide AtPrecision;
      assert Modifiers(f, c, dir, args) == AtPrecision(f, c + 1, dot, args);
    }
  }

  lemma AfterDot(f: string, c: nat, d: nat, x: Field, dot: Directive, args: seq<Arg>)
    requires c <= d < |f| && f[c..d] == FieldText(x) && IsLetter(f[d]) && dot.precision == 0 && !x.Absent?
    ensures AtPrecision(f, c, dot, args) ==
            match FieldValue(x, -1, args)
            case None => None
            case Some((n, more)) => Modifiers(f, d, dot.(precision := n), more)
  {
    hide Modifiers, Numeral, SignedArg;
    if x.Number? {
      NumberRun(f, c, d, x.n);
    } else {
      assert f[c..d][0] == f[c] && DigitsEnd(f, c) == c && d == c + 1;
    }
  }

  lemma ModifierIs(f: string, d: nat, e: nat, m: string, dir: Directive, args: seq<Arg>)
    requires d <= e < |f| && f[d..e] == m && m in MODIFIERS && f[e] in SPECS && dir.len == Length.NORMAL
    ensures Modifiers(f, d, dir, args) == Convert(f, e, dir.(len := LengthOf(m)), args)
  {
    hide Convert;
    assert |m| >= 1 ==> f[d] == f[d..e][0];
    assert |m| >= 2 ==> f[d + 1] == f[d..e][1];
    assert dir.(len := Length.NORMAL) == dir;
    if |m| == 2 {
      var half := dir.(len := WithLength(dir.len, f[d]));
      assert Modifiers(f, e, dir.(len := LengthOf(m)), args) == Convert(f, e, dir.(len := LengthOf(m)), args);
      assert Modifiers(f, d + 1, half, args) == Modifiers(f, e, dir.(len := LengthOf(m)), args);
    }
  }

  /** A directive with a second precision ends the printing. */
  lemma TwoPrecisions(f: string, i: nat, j: nat, p: nat, args: seq<Arg>)
    requires i + 2 <= j < |f| && f[i] == '%' && f[i + 1] == '.' && f[i + 2..j] == Numeral(p, 10, false) && f[j] == '.'
    ensures Render(f, i, args) == None
  {
    hide Numeral, Modifiers, AtWidth, AtPrecision, Convert;
    NumberRun(f, i + 2, j, p);
    FlagsAre(f, i + 1, i + 1, args);
    SecondDot(f, i + 1, j, p, BLANK.(flags := FlagSet(f[i + 1..i + 1])), args);
  }

  lemma SecondDot(f: string, i: nat, j: nat, p: nat, d: Directive, args: seq<Arg>)
    requires i < j < |f| && f[i] == '.' && f[j] == '.' && d.precision == -1
    requires DigitsEnd(f, i + 1) == j && Decimal(0, f, i + 1, j) == p
    ensures AtWidth(f, i, d, args) == None
  {
    hide Convert;
    assert DigitsEnd(f, i) == i;
    assert Modifiers(f, j, d.(width := d.width, precision := p), args) == None;
    assert AtPrecision(f, i + 1, d.(precision := 0), args) == Modifiers(f, j, d.(precision := p), args);
    assert Modifiers(f, i, d, args) == AtPrecision(f, i + 1, d.(precision := 0), args);
    assert d.(width := d.width) == d;
  }

  /** Text without directives prints as it is. */
  lemma {:induction false} PlainIs(f: string, i: nat, j: nat, args: seq<Arg>)
    requires i <= j <= |f| && '%' !in f[i..j] && '\0' !in f[i..j]
    ensures Render(f, i, args) == Join(f[i..j], Render(f, j, args))
    decreases j - i
  {
    hide Render, Join;
    var rest := Render(f, j, args);
    if i == j {
      assert f[i..j] == "";
      JoinEmpty(rest);
    } else {
      assert f[i..j][0] == f[i] && f[i..j] == [f[i]] + f[i + 1..j];
      PlainStep(f, i, args);
      PlainIs(f, i + 1, j, args);
      JoinJoin([f[i]], f[i + 1..j], rest);
    }
  }

  lemma PlainStep(f: string, i: nat, args: seq<Arg>)
    requires i < |f| && f[i] != '%' && f[i] != '\0'
    ensures Render(f, i, args) == Join([f[i]], Render(f, i + 1, args))
  {
  }

  // ---- Precision -----------------------------------------------------------------------

  /** The number of digits among the characters. */
  function DigitCount(s: string, radix: nat): nat
  {
    if s == "" then 0
    else DigitCount(s[..|s| - 1], radix) + if DigitOf(s[|s| - 1], radix) >= 0 then 1 else 0
  }

  lemma {:induction false} CountConcat(a: string, b: string, radix: nat)
    ensures DigitCount(a + b, radix) == DigitCount(a, radix) + DigitCount(b, radix)
    decreases |b|
  {
    hide DigitOf;
    if b == "" {
      assert a + b == a;
    } else {
      assert (a + b)[..|a + b| - 1] == a + b[..|b| - 1];
      CountConcat(a, b[..|b| - 1], radix);
    }
  }

  lemma {:induction false} CountAll(s: string, radix: nat)
    requires AllDigits(s, radix)
    ensures DigitCount(s, radix) == |s|
  {
    if s != "" {
      CountAll(s[..|s| - 1], radix);
    }
  }

  lemma {:induction false} CountTimes(n: int, radix: nat)
    requires radix in {8, 10, 16}
    ensures DigitCount(Times('0', n), radix) == Max(n, 0) && DigitCount(Times(' ', n), radix) == 0
    decreases n
  {
    if n > 0 {
      CountTimes(n - 1, radix);
      assert Times('0', n)[..n - 1] == Times('0', n - 1) && Times(' ', n)[..n - 1] == Times(' ', n - 1);
      hide Times;
      assert DigitOf('0', radix) == 0 && DigitOf(' ', radix) < 0;
    }
  }

  lemma CountFiller(length: int, zeros: int, zeroPad: bool, radix: nat)
    requires radix in {8, 10, 16}
    ensures DigitCount(Filler(length, zeros, zeroPad), radix)
         == if zeroPad then Max(length, 0) else Max(Min(zeros, length), 0)
  {
    hide DigitCount, Times;
    var z := Max(Min(zeros, length), 0);
    CountTimes(length, radix);
    CountTimes(z, radix);
    CountTimes(length - z, radix);
    CountConcat(Times('0', z), Times(' ', length - z), radix);
  }

  /** The places the digits of a number take: those of its numeral, one for zero. */
  function Size(num: nat, radix: nat): nat
    requires 2 <= radix <= 16
  {
    if num == 0 then 1 else |Numeral(num, radix, false)|
  }

  /** The number routine prints as many digits as the precision asks for exactly when the numeral
      has them, or the field has room for them, or it is left-justified and wider than the numeral. */
  lemma UintDigits(length: int, digits: int, num: nat, radix: nat, zeroPad: bool, left: bool, upper: bool)
    requires radix in {8, 10, 16} && digits > 0
    ensures var m := Size(num, radix);
            DigitCount(UintText(length, digits, num, radix, zeroPad, left, upper), radix) >= digits <==>
              digits <= m || length >= digits || (left && length > m)
  {
    if num == 0 {
      ZeroDigits(length, digits, radix, zeroPad, left, upper);
    } else {
      PositiveDigits(length, digits, num, radix, zeroPad, left, upper);
    }
  }

  lemma ZeroDigits(length: int, digits: int, radix: nat, zeroPad: bool, left: bool, upper: bool)
    requires radix in {8, 10, 16} && digits > 0
    ensures DigitCount(UintText(length, digits, 0, radix, zeroPad, left, upper), radix) >= digits <==>
              digits <= 1 || length >= digits || (left && length > 1)
  {
    hide DigitCount, Times, Filler;
    CountTimes(1, radix);
    if length <= 1 {
    } else if left {
      CountTimes(digits + 1, radix);
      CountConcat(Times('0', digits + 1), Times(if zeroPad then '0' else ' ', length - digits - 1), radix);
    } else {
      CountFiller(length - 1, digits - 1, zeroPad, radix);
      CountConcat(Filler(length - 1, digits - 1, zeroPad), Times('0', 1), radix);
    }
  }

  lemma PositiveDigits(length: int, digits: int, num: nat, radix: nat, zeroPad: bool, left: bool, upper: bool)
    requires radix in {8, 10, 16} && digits > 0 && num > 0
    ensures var m := Size(num, radix);
            DigitCount(UintText(length, digits, num, radix, zeroPad, left, upper), radix) >= digits <==>
              digits <= m || length >= digits || (left && length > m)
  {
    hide DigitCount, Times, Filler, Numeral, Size;
    var d := Numeral(num, radix, upper);
    NumeralCount(num, radix, upper);
    if length <= |d| {
    } else if left {
      LeftCount(length - |d|, digits - |d|, d, radix, zeroPad);
    } else {
      CountFiller(length - |d|, digits - |d|, zeroPad, radix);
      CountConcat(Filler(length - |d|, digits - |d|, zeroPad), d, radix);
    }
  }

  lemma NumeralCount(num: nat, radix: nat, upper: bool)
    requires radix in {8, 10, 16} && num > 0
    ensures |Numeral(num, radix, upper)| == Size(num, radix) == DigitCount(Numeral(num, radix, upper), radix)
  {
    hide Numeral;
    UpperNumeral(num, radix);
    NumeralValue(num, radix, upper);
    CountAll(Numeral(num, radix, upper), radix);
  }

  lemma LeftCount(length: int, zeros: int, d: string, radix: nat, zeroPad: bool)
    requires radix in {8, 10, 16}
    ensures var z := Max(zeros, 0);
            DigitCount(Times('0', z) + d + Times(if zeroPad then '0' else ' ', length - z), radix)
            >= z + DigitCount(d, radix)
  {
    hide DigitCount, Times;
    var z := Max(zeros, 0);
    CountTimes(z, radix);
    CountConcat(Times('0', z), d, radix);
    CountConcat(Times('0', z) + d, Times(if zeroPad then '0' else ' ', length - z), radix);
  }

  /** An unsigned conversion prints at least as many digits as its precision asks for. */
  lemma UnsignedPrecision(d: Directive, spec: char, args: seq<Arg>)
    requires spec in "uoxXp" && d.precision > 0 && Conversion(d, spec, args).Some?
    ensures var t := Conversion(d, spec, args).value.0;
            |Front(d, spec)| <= |t| && DigitCount(t[|Front(d, spec)|..], Radix(spec)) >= d.precision
  {
    UnsignedIs(d, spec, args);
    hide Conversion, UintText, DigitCount, Unsigned, Front;
    var t, front := Conversion(d, spec, args).value.0, Front(d, spec);
    var body := UintText(Room(d, front), d.precision, Unsigned(d, spec, args), Radix(spec), '0' in d.flags,
                         '-' in d.flags, spec == 'X');
    assert (front + body)[|front|..] == body;
    UintDigits(Room(d, front), d.precision, Unsigned(d, spec, args), Radix(spec), '0' in d.flags, '-' in d.flags,
               spec == 'X');
  }

  /** A signed one does so exactly when the number is long enough itself, no sign is printed, the
      field is wider than the precision, or it is left-justified with more than one zero to add:
      the sign is otherwise taken from the digits. */
  lemma SignedPrecision(d: Directive, spec: char, args: seq<Arg>)
    requires spec in "di" && d.precision > 0 && Conversion(d, spec, args).Some?
    ensures var t, n := Conversion(d, spec, args).value.0, Signed(d, args);
            var m, p := Size(Magnitude(n), 10), d.precision;
            DigitCount(t, 10) >= p <==>
              || p <= m || d.width > p || (n >= 0 && '+' !in d.flags && ' ' !in d.flags)
              || ('-' in d.flags && p > m + 1)
  {
    SignedIs(d, spec, args);
    hide Conversion, IntText, DigitCount, Size, Signed;
    IntDigits(Signed(d, args), d.flags, Max(d.width, d.precision), d.precision);
  }

  lemma SignedIs(d: Directive, spec: char, args: seq<Arg>)
    requires spec in "di" && Conversion(d, spec, args).Some?
    ensures args != [] && args[0].Word?
    ensures Conversion(d, spec, args).value.0 ==
            IntText(Signed(d, args), d.flags, Max(d.width, d.precision), d.precision, 10, false)
  {
    hide IntText, UintText;
    var t := IntText(Signed(d, args), d.flags, Max(d.width, d.precision), d.precision, 10, false);
    assert "" + t == t;
  }

  lemma IntDigits(n: int, flags: set<char>, length: int, p: int)
    requires p > 0 && length >= p
    ensures var m := Size(Magnitude(n), 10);
            DigitCount(IntText(n, flags, length, p, 10, false), 10) >= p <==>
              || p <= m || length > p || (n >= 0 && '+' !in flags && ' ' !in flags)
              || ('-' in flags && p > m + 1)
  {
    var sign := Sign(n, '+' in flags, ' ' in flags);
    SignCount(n, '+' in flags, ' ' in flags);
    hide UintText, DigitCount, Size;
    CountConcat(sign, UintText(length - |sign|, p, Magnitude(n), 10, '0' in flags, '-' in flags, false), 10);
    UintDigits(length - |sign|, p, Magnitude(n), 10, '0' in flags, '-' in flags, false);
  }

  lemma SignCount(n: int, forceSign: bool, blank: bool)
    ensures DigitCount(Sign(n, forceSign, blank), 10) == 0
  {
  }

  /** `%.3d` of -5 prints two digits. */
  lemma SignTakesDigit()
    ensures Render("%.3d", 0, [Word(0xFFFF_FFFB)]) == Some("-05")
  {
    hide Conversion, Render;
    var p, f, args := Parts("", Absent, Number(3), "", 'd'), "%.3d", [Word(0xFFFF_FFFB)];
    ThreeText(p);
    DirectiveIs(f, 0, p, args);
    MinusFive(args);
    assert FlagSet("") == {};
    PlainIs(f, 4, 4, []);
    AtTheEnd(f);
  }

  lemma AtTheEnd(f: string)
    ensures Join("-05", Render(f, |f|, [])) == Some("-05")
  {
    assert "-05" + "" == "-05";
  }

  lemma ThreeText(p: Parts)
    requires p == Parts("", Absent, Number(3), "", 'd')
    ensures DirectiveText(p) == "%.3d" && StandsAt("%.3d", 0, p)
  {
    assert Over(3, 10) == 0 && Last(3, 10) == 3 && Numeral(0, 10, false) == "";
    assert Numeral(3, 10, false) == "" + ['3'] == "3";
    assert PrecisionText(p.precision) == ".3";
    assert "%" + "" + "" + ".3" + "" + ['d'] == "%.3d";
  }

  lemma MinusFive(args: seq<Arg>)
    requires args == [Word(0xFFFF_FFFB)]
    ensures Conversion(Directive({}, 0, 3, Length.NORMAL), 'd', args) == Some(("-05", []))
  {
    assert SignedArg(Length.NORMAL, 0xFFFF_FFFB) == -5 && args[1..] == [];
    assert Over(5, 10) == 0 && Last(5, 10) == 5 && Numeral(0, 10, false) == "";
    assert Numeral(5, 10, false) == "" + ['5'] == "5";
    assert Filler(1, 2, false) == "0" && UintText(2, 3, 5, 10, false, false, false) == "05";
    assert "-" + "05" == "-05" && "" + "-05" == "-05";
  }
}
