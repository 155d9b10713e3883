/** What a format string and its arguments stand for: a reference reading of the directives
    understood by the C library's printf family, independent of any output sink. */
module PrintfSpec {
  import opened Options
  import opened Digits

  /** One variadic argument slot: 64 raw bits, or a pointer to a string. */
  datatype Arg = Word(bits: nat) | Text(str: string)

  datatype Length = CHAR | SHORT | NORMAL | LONG | LONG_LONG | INTMAX | SIZET | PTRDIFFT | LDOUB

  /** What the modifiers of a directive have said so far. */
  datatype Directive = Directive(flags: set<char>, width: int, precision: int, len: Length)

  const BLANK := Directive({}, 0, -1, Length.NORMAL)

  predicate AtEnd(f: string, i: nat)
  {
    i >= |f| || f[i] == '\0'
  }

  function Max(a: int, b: int): int
  {
    if a > b then a else b
  }

  function Min(a: int, b: int): int
  {
    if a < b then a else b
  }

  // ---- Numbers -------------------------------------------------------------------------

  /** `length` characters in front of a number: zeros first, as many as the precision wants, then spaces. */
  function Filler(length: int, zeros: int, zeroPad: bool): (s: string)
    ensures |s| == Max(length, 0)
  {
    if zeroPad then Times('0', length)
    else var z := Max(Min(zeros, length), 0); Times('0', z) + Times(' ', length - z)
  }

  /** An unsigned number in a field of at least `length`, with at least `digits` digits. */
  function UintText(length: int, digits: int, num: nat, radix: nat, zeroPad: bool, left: bool, upper: bool): string
    requires 2 <= radix <= 16
  {
    var pad, one, d := if zeroPad then '0' else ' ', if digits != 0 then 1 else 0, Numeral(num, radix, upper);
    if num == 0 then
      if length <= 1 then Times('0', one)
      else if left then var z := Max(digits, 0) + one; Times('0', z) + Times(pad, length - z)
      else Filler(length - one, digits - one, zeroPad) + Times('0', one)
    else if length <= |d| then d
    else if left then var z := Max(digits - |d|, 0); Times('0', z) + d + Times(pad, length - |d| - z)
    else Filler(length - |d|, digits - |d|, zeroPad) + d
  }

  function Sign(num: int, forceSign: bool, blank: bool): string
  {
    if num < 0 then "-" else if forceSign then "+" else if blank then " " else ""
  }

  function Magnitude(num: int): nat
  {
    if num < 0 then -num else num
  }

  function IntText(num: int, flags: set<char>, length: int, digits: int, radix: nat, upper: bool): string
    requires 2 <= radix <= 16
  {
    var sign := Sign(num, '+' in flags, ' ' in flags);
    sign + UintText(length - |sign|, digits, Magnitude(num), radix, '0' in flags, '-' in flags, upper)
  }

  const HALF32: nat := 0x8000_0000
  const HALF64: nat := 0x8000_0000_0000_0000

  predicate Wide(len: Length)
  {
    len in {LONG, LONG_LONG, INTMAX, SIZET, PTRDIFFT}
  }

  function UnsignedArg(len: Length, bits: nat): (n: nat)
    ensures n < 2 * HALF64
  {
    bits % (2 * if Wide(len) then HALF64 else HALF32)
  }

  function SignedArg(len: Length, bits: nat): (n: int)
    ensures -(HALF64 as int) <= n < HALF64
  {
    var half := if Wide(len) then HALF64 else HALF32;
    var n := bits % (2 * half);
    if n < half then n else n - 2 * half
  }

  // ---- Conversions ---------------------------------------------------------------------

  /** The part of a string up to its terminator. */
  function CString(s: string, i: nat): (k: nat)
    requires i <= |s|
    ensures i <= k <= |s| && (k < |s| ==> s[k] == '\0')
    ensures forall j :: i <= j < k ==> s[j] != '\0'
    decreases |s| - i
  {
    if AtEnd(s, i) then i else CString(s, i + 1)
  }

  function Shown(s: string, precision: int): nat
  {
    if precision > 0 then Min(CString(s, 0), precision) else CString(s, 0)
  }

  function StrText(s: string, width: int, precision: int): string
  {
    s[..Shown(s, precision)] + Times(' ', width - Shown(s, precision))
  }

  function TakeWord(args: seq<Arg>): Option<nat>
  {
    if args != [] && args[0].Word? then Some(args[0].bits) else None
  }

  function Prefix(extra: bool, radix: nat, upper: bool): string
  {
    if extra && radix == 16 then (if upper then "0X" else "0x") else if extra && radix == 8 then "0" else ""
  }

  /** A numeric conversion: an unsigned one may carry the prefix of its alternative form. */
  function NumberConversion(d: Directive, len: Length, radix: nat, signed: bool, upper: bool,
      args: seq<Arg>): Option<(string, seq<Arg>)>
    requires 2 <= radix <= 16
  {
    var prefix := Prefix('#' in d.flags, radix, upper);
    var width := if prefix == "" then d.width else Max(d.width - |prefix|, 0);
    var length := Max(width, d.precision);
    match TakeWord(args)
    case None => None
    case Some(bits) =>
      var number :=
        if signed then IntText(SignedArg(len, bits), d.flags, length, d.precision, radix, upper)
        else UintText(length, d.precision, UnsignedArg(len, bits), radix, '0' in d.flags, '-' in d.flags, upper);
      Some((prefix + number, args[1..]))
  }

  /** The output of one complete directive and the arguments it leaves.  Nothing is promised
      for floating point, which stops the program, nor for `n`, nor for a missing argument. */
  function Conversion(d: Directive, spec: char, args: seq<Arg>): Option<(string, seq<Arg>)>
  {
    if spec == 'd' || spec == 'i' then NumberConversion(d, d.len, 10, true, false, args)
    else if spec == 'u' then NumberConversion(d, d.len, 10, false, false, args)
    else if spec == 'o' then NumberConversion(d, d.len, 8, false, false, args)
    else if spec == 'x' then NumberConversion(d, d.len, 16, false, false, args)
    else if spec == 'X' then NumberConversion(d, d.len, 16, false, true, args)
    else if spec == 'p' then NumberConversion(d, if d.len.NORMAL? then LONG else d.len, 16, false, false, args)
    else if spec == 'c' then
      match TakeWord(args)
      case None => None
      case Some(bits) => Some(([(bits % 256) as char], args[1..]))
    else if spec == 's' then
      if args != [] && args[0].Text? then Some((StrText(args[0].str, d.width, d.precision), args[1..])) else None
    else if spec == '%' then Some(("%", args))
    else if spec in "fFeEgGaAn" then None
    else Some(("", args))
  }

  // ---- Directives ----------------------------------------------------------------------

  const FLAGS := "-+ #0"

  /** End of the run of flag characters from `i`. */
  function FlagsEnd(f: string, i: nat): (j: nat)
    requires i <= |f|
    ensures i <= j <= |f|
    decreases |f| - i
  {
    if i < |f| && f[i] in FLAGS then FlagsEnd(f, i + 1) else i
  }

  predicate IsDigit(c: char)
  {
    '0' <= c <= '9'
  }

  /** End of the run of decimal digits from `i`. */
  function DigitsEnd(f: string, i: nat): (j: nat)
    requires i <= |f|
    ensures i <= j <= |f|
    decreases |f| - i
  {
    if i < |f| && IsDigit(f[i]) then DigitsEnd(f, i + 1) else i
  }

  /** The decimal number `n` followed by the digits of `f[i..j]`. */
  function Decimal(n: int, f: string, i: nat, j: nat): int
    requires i <= j <= |f|
    decreases j - i
  {
    if i == j then n else Decimal(n * 10 + (f[i] as int - '0' as int), f, i + 1, j)
  }

  function Join(s: string, rest: Option<string>): Option<string>
  {
    match rest
    case None => None
    case Some(t) => Some(s + t)
  }

  function TakeInt(args: seq<Arg>): Option<int>
  {
    match TakeWord(args)
    case None => None
    case Some(bits) => Some(SignedArg(Length.NORMAL, bits))
  }

  function SetOf(f: string, i: nat, j: nat): set<char>
    requires i <= j <= |f|
  {
    set c | c in f[i..j]
  }

  /** The whole output for the format from `i` on, or nothing where none is promised. */
  function Render(f: string, i: nat, args: seq<Arg>): Option<string>
    requires i <= |f|
    decreases |f| - i, 4
  {
    if AtEnd(f, i) then Some("")
    else if f[i] != '%' then Join([f[i]], Render(f, i + 1, args))
    else AfterPercent(f, i + 1, BLANK, args)
  }

  function AfterPercent(f: string, i: nat, d: Directive, args: seq<Arg>): Option<string>
    requires i <= |f|
    decreases |f| - i, 3
  {
    var j := FlagsEnd(f, i);
    AtWidth(f, j, d.(flags := d.flags + SetOf(f, i, j)), args)
  }

  function AtWidth(f: string, i: nat, d: Directive, args: seq<Arg>): Option<string>
    requires i <= |f|
    decreases |f| - i, 2
  {
    var j := DigitsEnd(f, i);
    if j < |f| && f[j] == '*' then
      match TakeInt(args)
      case None => None
      case Some(n) => Modifiers(f, j + 1, d.(width := n), args[1..])
    else Modifiers(f, j, d.(width := Decimal(d.width, f, i, j)), args)
  }

  function AtPrecision(f: string, i: nat, d: Directive, args: seq<Arg>): Option<string>
    requires i <= |f|
    decreases |f| - i, 2
  {
    var j := DigitsEnd(f, i);
    if j < |f| && f[j] == '*' then
      match TakeInt(args)
      case None => None
      case Some(n) => Modifiers(f, j + 1, d.(precision := n), args[1..])
    else Modifiers(f, j, d.(precision := Decimal(d.precision, f, i, j)), args)
  }

  function WithLength(len: Length, c: char): Length
  {
    if c == 'h' then (if len.SHORT? then CHAR else SHORT)
    else if c == 'l' then (if len.LONG? then LONG_LONG else LONG)
    else if c == 'j' then INTMAX
    else if c == 'z' then SIZET
    else if c == 't' then PTRDIFFT
    else if c == 'L' then LDOUB
    else len
  }

  /** Length letters and at most one precision, then the conversion; a directive cut short prints nothing. */
  function Modifiers(f: string, i: nat, d: Directive, args: seq<Arg>): Option<string>
    requires i <= |f|
    decreases |f| - i, 1
  {
    if AtEnd(f, i) then Some("")
    else if f[i] == '.' then
      if d.precision == -1 then AtPrecision(f, i + 1, d.(precision := 0), args) else None
    else if f[i] in "hljztL" then Modifiers(f, i + 1, d.(len := WithLength(d.len, f[i])), args)
    else Convert(f, i, d, args)
  }

  function Convert(f: string, i: nat, d: Directive, args: seq<Arg>): Option<string>
    requires i < |f|
    decreases |f| - i, 0
  {
    match Conversion(d, f[i], args)
    case None => None
    case Some((t, rest)) => Join(t, Render(f, i + 1, rest))
  }
}
