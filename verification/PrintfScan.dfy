/** The parts that `vfprintf` and `vsnprintf` write out alike: the scanning modes and the
    unpacking of a number into its digit buffer. */
module PrintfScan {
  import opened Options
  import opened Seqs
  import opened Digits
  import opened PrintfSpec

  datatype Mode = PLAIN | AT_FLAGS | WIDTH | PREC | LEN | SPEC

  /** The scanner after one turn: whether it moves on to the next character. */
  datatype Turn = Turn(mode: Mode, d: Directive, next: bool, args: seq<Arg>)

  /** One turn of the loop in the modes that print nothing. */
  function Advance(mode: Mode, d: Directive, c: char, args: seq<Arg>): Option<Turn>
    requires mode in {AT_FLAGS, WIDTH, PREC, LEN}
  {
    match mode
    case AT_FLAGS =>
      if c == '-' || c == '+' || c == ' ' || c == '#' || c == '0' then
        Some(Turn(AT_FLAGS, d.(flags := d.flags + {c}), true, args))
      else Some(Turn(WIDTH, d, false, args))
    case WIDTH =>
      if c == '*' then
        if args != [] && args[0].Word? then
          Some(Turn(LEN, d.(width := SignedArg(Length.NORMAL, args[0].bits)), true, args[1..]))
        else None
      else if '0' <= c <= '9' then Some(Turn(WIDTH, d.(width := d.width * 10 + (c as int - '0' as int)), true, args))
      else Some(Turn(LEN, d, false, args))
    case PREC =>
      if c == '*' then
        if args != [] && args[0].Word? then
          Some(Turn(LEN, d.(precision := SignedArg(Length.NORMAL, args[0].bits)), true, args[1..]))
        else None
      else if '0' <= c <= '9' then
        Some(Turn(PREC, d.(precision := d.precision * 10 + (c as int - '0' as int)), true, args))
      else Some(Turn(LEN, d, false, args))
    case LEN =>
      if c == '.' then (if d.precision == -1 then Some(Turn(PREC, d.(precision := 0), true, args)) else None)
      else if c == 'h' then Some(Turn(LEN, d.(len := if d.len == SHORT then CHAR else SHORT), true, args))
      else if c == 'l' then Some(Turn(LEN, d.(len := if d.len == LONG then LONG_LONG else LONG), true, args))
      else if c == 'j' then Some(Turn(LEN, d.(len := INTMAX), true, args))
      else if c == 'z' then Some(Turn(LEN, d.(len := SIZET), true, args))
      else if c == 't' then Some(Turn(LEN, d.(len := PTRDIFFT), true, args))
      else if c == 'L' then Some(Turn(LEN, d.(len := LDOUB), true, args))
      else Some(Turn(SPEC, d, false, args))
  }

  /** Turns that do not move on go to a later mode. */
  function Rank(mode: Mode): nat
  {
    match mode
    case PLAIN => 0
    case SPEC => 0
    case LEN => 1
    case PREC => 2
    case WIDTH => 3
    case AT_FLAGS => 4
  }

  /** What is still to be printed when the scanner stands at `i` in the given mode. */
  function Remaining(mode: Mode, f: string, i: nat, d: Directive, args: seq<Arg>): Option<string>
    requires i <= |f|
  {
    match mode
    case PLAIN => Render(f, i, args)
    case AT_FLAGS => AfterPercent(f, i, d, args)
    case WIDTH => AtWidth(f, i, d, args)
    case PREC => AtPrecision(f, i, d, args)
    case LEN => Modifiers(f, i, d, args)
    case SPEC => if AtEnd(f, i) then Some("") else Convert(f, i, d, args)
  }

  /** A turn that prints nothing leaves what remains to be printed as it was. */
  lemma AdvanceKeeps(mode: Mode, f: string, i: nat, d: Directive, args: seq<Arg>)
    requires i < |f| && f[i] != '\0' && mode in {AT_FLAGS, WIDTH, PREC, LEN}
    ensures match Advance(mode, d, f[i], args)
            case None => Remaining(mode, f, i, d, args) == None
            case Some(t) =>
              && Remaining(mode, f, i, d, args) == Remaining(t.mode, f, if t.next then i + 1 else i, t.d, t.args)
              && (t.next || Rank(t.mode) < Rank(mode)) && t.mode != PLAIN && (t.mode == SPEC ==> !t.next)
  {
    match mode
    case AT_FLAGS => FlagStep(f, i, d, args);
    case WIDTH => WidthStep(f, i, d, args);
    case PREC => PrecisionStep(f, i, d, args);
    case LEN =>
  }

  lemma FlagStep(f: string, i: nat, d: Directive, args: seq<Arg>)
    requires i < |f|
    ensures AfterPercent(f, i, d, args) ==
            if f[i] in FLAGS then AfterPercent(f, i + 1, d.(flags := d.flags + {f[i]}), args)
            else AtWidth(f, i, d, args)
  {
    var j := FlagsEnd(f, i);
    if f[i] in FLAGS {
      assert f[i..j] == [f[i]] + f[i + 1..j];
      assert SetOf(f, i, j) == {f[i]} + SetOf(f, i + 1, j);
      assert d.flags + SetOf(f, i, j) == d.flags + {f[i]} + SetOf(f, i + 1, j);
    } else {
      assert d.flags + SetOf(f, i, j) == d.flags;
    }
  }

  lemma WidthStep(f: string, i: nat, d: Directive, args: seq<Arg>)
    requires i < |f|
    ensures IsDigit(f[i]) ==>
              AtWidth(f, i, d, args) == AtWidth(f, i + 1, d.(width := d.width * 10 + (f[i] as int - '0' as int)), args)
    ensures !IsDigit(f[i]) && f[i] != '*' ==> AtWidth(f, i, d, args) == Modifiers(f, i, d, args)
  {
  }

  lemma PrecisionStep(f: string, i: nat, d: Directive, args: seq<Arg>)
    requires i < |f|
    ensures IsDigit(f[i]) ==>
              AtPrecision(f, i, d, args)
              == AtPrecision(f, i + 1, d.(precision := d.precision * 10 + (f[i] as int - '0' as int)), args)
    ensures !IsDigit(f[i]) && f[i] != '*' ==> AtPrecision(f, i, d, args) == Modifiers(f, i, d, args)
  {
  }

  // ---- The digit buffer ----------------------------------------------------------------

  function Backwards(s: string): string
  {
    if s == "" then "" else [s[|s| - 1]] + Backwards(s[..|s| - 1])
  }

  lemma BackwardsNext(s: string, i: nat)
    requires i < |s|
    ensures Backwards(s[..i + 1]) == [s[i]] + Backwards(s[..i])
  {
    assert s[..i + 1][..i] == s[..i];
  }

  lemma {:induction false} PowAdd(b: nat, m: nat, n: nat)
    ensures Pow(b, m + n) == Pow(b, m) * Pow(b, n)
  {
    if m > 0 {
      PowAdd(b, m - 1, n);
      assert Pow(b, m) * Pow(b, n) == b * (Pow(b, m - 1) * Pow(b, n));
    }
  }

  lemma Pow64()
    ensures Pow(2, 64) == 2 * HALF64
  {
    assert Pow(2, 4) == 16;
    PowAdd(2, 4, 4);
    PowAdd(2, 8, 8);
    PowAdd(2, 16, 16);
    PowAdd(2, 32, 32);
  }

  /** Unpack a positive 64-bit number, least significant digit first: 64 places are enough. */
  method Unpack(num: nat, radix: nat, upper: bool) returns (buffer: array<char>, pos: nat)
    requires 2 <= radix <= 16 && num < 2 * HALF64
    ensures fresh(buffer) && buffer.Length == 64 && pos <= 64
    ensures Backwards(buffer[..pos]) == Numeral(num, radix, upper) && pos == |Numeral(num, radix, upper)|
  {
    hide Numeral, DigitChar, Pow, Backwards, Over, Last;
    buffer := new char[64](_ => '\0');
    var n: nat := num;
    pos := 0;
    Pow64();
    BackwardsEmpty();
    while n > 0
      invariant pos <= 64 && n < Pow(2, 64 - pos)
      invariant Numeral(num, radix, upper) == Numeral(n, radix, upper) + Backwards(buffer[..pos])
      invariant |Numeral(num, radix, upper)| == |Numeral(n, radix, upper)| + pos
    {
      OverLast(n, radix);
      Halves(n, Over(n, radix), 64 - pos);
      NumeralStep(n, radix, upper);
      Assoc(Numeral(Over(n, radix), radix, upper), [DigitChar(Last(n, radix), upper)], Backwards(buffer[..pos]));
      ghost var sofar := buffer[..pos];
      buffer[pos] := DigitChar(Last(n, radix), upper);
      assert buffer[..pos] == sofar;
      BackwardsNext(buffer[..], pos);
      assert buffer[..][..pos + 1] == buffer[..pos + 1] && buffer[..][..pos] == sofar;
      n := Over(n, radix);
      pos := pos + 1;
    }
    NumeralZero(radix, upper);
  }

  lemma NumeralZero(radix: nat, upper: bool)
    requires 2 <= radix <= 16
    ensures Numeral(0, radix, upper) == ""
  {
  }

  lemma BackwardsEmpty()
    ensures Backwards("") == ""
  {
  }

  lemma NumeralStep(n: nat, radix: nat, upper: bool)
    requires 2 <= radix <= 16 && n > 0
    ensures Last(n, radix) < 16
    ensures Numeral(n, radix, upper) == Numeral(Over(n, radix), radix, upper) + [DigitChar(Last(n, radix), upper)]
  {
    OverLast(n, radix);
  }

  lemma Halves(n: nat, half: nat, e: nat)
    requires 0 < n < Pow(2, e) && half + half <= n
    ensures e > 0 && half < Pow(2, e - 1)
  {
  }
}
