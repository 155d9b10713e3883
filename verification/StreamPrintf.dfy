/** The stream printers of the C library (Userland/Libraries/LibC/src/stdio.cpp): every
    character goes to the file. */
module StreamPrintf {
  import opened Options
  import opened Machine
  import opened Seqs
  import opened Digits
  import opened PrintfSpec
  import opened PrintfScan
  import opened PrintfText

  class Stream {
    var text: string

    constructor ()
      ensures text == ""
    {
      text := "";
    }

    /** `fputc`. */
    method Put(c: char)
      modifies this
      ensures text == old(text) + [c]
    {
      text := text + [c];
    }

    /** Put `n` copies of a character. */
    method PutMany(c: char, n: int) returns (k: nat)
      modifies this
      ensures text == old(text) + Times(c, n) && k == |Times(c, n)|
    {
      k := 0;
      while k < n
        invariant k <= Max(n, 0)
        invariant text == old(text) + Times(c, k)
      {
        TimesNext(c, k);
        Put(c);
        k := k + 1;
      }
    }

    /** Put what stands in front of a right-justified number. */
    method PutFiller(length: int, digits: int, zeroPad: bool) returns (k: nat)
      modifies this
      ensures text == old(text) + Filler(length, digits, zeroPad) && k == |Filler(length, digits, zeroPad)|
    {
      hide Filler;
      FillerNone(digits, zeroPad, length);
      var left := digits;
      k := 0;
      while k < length
        invariant k <= Max(length, 0)
        invariant !zeroPad ==> left == Max(digits - k, Min(digits, 0))
        invariant text == old(text) + Filler(k, digits, zeroPad)
      {
        FillerNext(k, digits, zeroPad);
        if zeroPad || left > 0 {
          Put('0');
          left := left - 1;
        } else {
          Put(' ');
        }
        k := k + 1;
      }
    }

    /** Put the digit buffer from its most significant end. */
    method PutDigits(buffer: array<char>, count: nat) returns (k: nat)
      requires count <= buffer.Length
      modifies this
      ensures text == old(text) + Backwards(old(buffer[..count])) && k == count
    {
      hide Backwards;
      ghost var digits := buffer[..count];
      var pos := count;
      k := 0;
      assert digits[..count] == digits;
      while pos > 0
        invariant pos <= count && k == count - pos && buffer[..count] == digits
        invariant text + Backwards(digits[..pos]) == old(text) + Backwards(digits)
      {
        pos := pos - 1;
        BackwardsNext(digits, pos);
        Assoc(text, [digits[pos]], Backwards(digits[..pos]));
        assert buffer[pos] == digits[pos];
        Put(buffer[pos]);
        k := k + 1;
      }
      BackwardsEmpty();
      assert digits[..0] == "";
    }

    method PutZero(length0: int, digits0: int, zeroPad: bool, left: bool) returns (printed: nat)
      modifies this
      ensures text == old(text) + UintText(length0, digits0, 0, 10, zeroPad, left, false)
      ensures printed == |UintText(length0, digits0, 0, 10, zeroPad, left, false)|
    {
      hide Filler, Numeral;
      var length, digits, pad := length0, digits0, if zeroPad then '0' else ' ';
      ghost var start := text;
      printed := 0;
      if length > 1 {
        if left {
          printed := PutMany('0', digits);
          length := length - printed;
          if digits != 0 {
            TimesNext('0', printed);
            Put('0');
            length, printed := length - 1, printed + 1;
          }
          Assoc(start, Times('0', printed), Times(pad, length));
          var k := PutMany(pad, length);
          printed := printed + k;
        } else {
          var printZero := digits != 0;
          if printZero {
            digits, length := digits - 1, length - 1;
          }
          printed := PutFiller(length, digits, zeroPad);
          if printZero {
            Put('0');
            printed := printed + 1;
          }
          Assoc(start, Filler(length, digits, zeroPad), Times('0', if printZero then 1 else 0));
        }
      } else if digits != 0 {
        Put('0');
        printed := printed + 1;
      }
    }

    method PutUint(length0: int, digits0: int, num: nat, radix: nat, zeroPad: bool, left: bool, upper: bool)
        returns (printed: nat)
      requires 2 <= radix <= 16 && num < 2 * HALF64
      modifies this
      ensures text == old(text) + UintText(length0, digits0, num, radix, zeroPad, left, upper)
      ensures printed == |UintText(length0, digits0, num, radix, zeroPad, left, upper)|
    {
      hide Filler, Numeral, Backwards;
      var length, digits, pad := length0, digits0, if zeroPad then '0' else ' ';
      if num == 0 {
        ZeroAnyRadix(length, digits, radix, zeroPad, left, upper);
        printed := PutZero(length, digits, zeroPad, left);
        return;
      }
      ghost var start, d := text, Numeral(num, radix, upper);
      var buffer, pos := Unpack(num, radix, upper);
      if length > pos {
        length, digits := length - pos, digits - pos;
        if left {
          printed := PutMany('0', digits);
          length := length - printed;
          Regroup4(start, Times('0', digits), d, Times(pad, length));
          TimesMax('0', digits);
          var k := PutDigits(buffer, pos);
          printed := printed + k;
          k := PutMany(pad, length);
          printed := printed + k;
        } else {
          printed := PutFiller(length, digits, zeroPad);
          Assoc(start, Filler(length, digits, zeroPad), d);
          var k := PutDigits(buffer, pos);
          printed := printed + k;
        }
      } else {
        printed := PutDigits(buffer, pos);
      }
    }

    method PutInt(num: int, flags: set<char>, length0: int, digits: int, radix: nat, upper: bool) returns (printed: nat)
      requires 2 <= radix <= 16 && -(HALF64 as int) <= num < HALF64
      modifies this
      ensures text == old(text) + IntText(num, flags, length0, digits, radix, upper)
      ensures printed == |IntText(num, flags, length0, digits, radix, upper)|
    {
      hide UintText;
      var length, n := length0, num;
      ghost var start := text;
      printed := 0;
      if num < 0 {
        Put('-');
        // In 64 bits: the most negative number is its own negation, read as unsigned.
        printed, length, n := 1, length - 1, Wrap(-num);
      } else if '+' in flags {
        Put('+');
        printed, length := 1, length - 1;
      } else if ' ' in flags {
        Put(' ');
        printed, length := 1, length - 1;
      }
      Assoc(start, Sign(num, '+' in flags, ' ' in flags),
          UintText(length, digits, n, radix, '0' in flags, '-' in flags, upper));
      var k := PutUint(length, digits, n, radix, '0' in flags, '-' in flags, upper);
      printed := printed + k;
    }

    method PutString(str: string, width0: int, precision: int) returns (printed: nat)
      modifies this
      ensures text == old(text) + StrText(str, width0, precision) && printed == |StrText(str, width0, precision)|
    {
      var width := width0;
      ghost var start := text;
      var j := 0;
      while !AtEnd(str, j) && !(precision > 0 && j >= precision)
        invariant j <= |str| && CString(str, 0) == CString(str, j) && (precision > 0 ==> j <= precision)
        invariant text == start + str[..j] && width == width0 - j
        decreases |str| - j
      {
        Put(str[j]);
        assert str[..j + 1] == str[..j] + [str[j]];
        j := j + 1;
        width := width - 1;
      }
      assert j == Shown(str, precision);
      var k := PutMany(' ', width);
      Assoc(start, str[..j], Times(' ', width));
      printed := j + k;
    }

    /** The prefix of the alternative form, and the width it leaves. */
    method PutPrefix(extra: bool, radix: nat, upper: bool, width0: int) returns (printed: nat, width: int)
      modifies this
      ensures var prefix := Prefix(extra, radix, upper);
              text == old(text) + prefix && printed == |prefix|
              && width == if prefix == "" then width0 else Max(width0 - |prefix|, 0)
    {
      printed, width := 0, width0;
      if extra {
        if radix == 16 {
          Put('0');
          Put(if upper then 'X' else 'x');
          printed, width := 2, width - 2;
          if width < 0 {
            width := 0;
          }
        } else if radix == 8 {
          Put('0');
          printed, width := 1, width - 1;
          if width < 0 {
            width := 0;
          }
        }
      }
    }

    /** Prefix and digits of a numeric conversion. */
    method PutNumber(d: Directive, len: Length, radix: nat, sign: bool, upper: bool, args: seq<Arg>)
        returns (r: Option<(nat, seq<Arg>)>)
      requires 2 <= radix <= 16 && (sign ==> radix == 10)
      modifies this
      ensures match NumberConversion(d, len, radix, sign, upper, args) {
                case None => r == None
                case Some((t, rest)) => r == Some((|t|, rest)) && text == old(text) + t
              }
    {
      hide UintText, IntText, SignedArg, UnsignedArg;
      ghost var start := text;
      var printed, width := PutPrefix('#' in d.flags, radix, upper, d.width);
      if args == [] || !args[0].Word? {
        return None;
      }
      var length, k := Max(width, d.precision), 0;
      if sign {
        k := PutInt(SignedArg(len, args[0].bits), d.flags, length, d.precision, radix, upper);
      } else {
        Assoc(start, Prefix('#' in d.flags, radix, upper),
            UintText(length, d.precision, UnsignedArg(len, args[0].bits), radix,
                     '0' in d.flags, '-' in d.flags, upper));
        k := PutUint(length, d.precision, UnsignedArg(len, args[0].bits), radix, '0' in d.flags, '-' in d.flags, upper);
      }
      return Some((printed + k, args[1..]));
    }

    /** Print one complete directive; nothing is returned where the program stops or the
        arguments do not fit. */
    method PutDirective(d: Directive, c: char, args: seq<Arg>) returns (r: Option<(nat, seq<Arg>)>)
      modifies this
      ensures match Conversion(d, c, args) {
                case None => r == None
                case Some((t, rest)) => r == Some((|t|, rest)) && text == old(text) + t
              }
    {
      hide NumberConversion, StrText;
      var radix, number, sign, upper, len := 10, false, false, false, d.len;
      var rest, printed := args, 0;
      if c == 'd' || c == 'i' {
        radix, number, sign := 10, true, true;
      } else if c == 'u' {
        radix, number := 10, true;
      } else if c == 'o' {
        radix, number := 8, true;
      } else if c == 'p' {
        if len == Length.NORMAL {
          len := LONG;
        }
        radix, number := 16, true;
      } else if c == 'x' {
        radix, number := 16, true;
      } else if c == 'X' {
        radix, number, upper := 16, true, true;
      } else if c in "fFeEgGaAn" {
        return None;
      } else if c == 'c' {
        if args == [] || !args[0].Word? {
          return None;
        }
        Put((args[0].bits % 256) as char);
        rest, printed := args[1..], 1;
      } else if c == 's' {
        if args == [] || !args[0].Text? {
          return None;
        }
        printed := PutString(args[0].str, d.width, d.precision);
        rest := args[1..];
      } else if c == '%' {
        Put('%');
        printed := 1;
      }
      // Only the numeric conversions change the radix, so only they can get a prefix.
      if number {
        r := PutNumber(d, len, radix, sign, upper, args);
      } else {
        r := Some((printed, rest));
      }
    }

    /** The whole format. */
    method VFPrintf(f: string, args0: seq<Arg>) returns (r: Option<nat>)
      modifies this
      ensures match Render(f, 0, args0) {
                case None => r == None
                case Some(t) => r == Some(|t|) && text == old(text) + t
              }
    {
      hide Conversion, Advance, AfterPercent, AtWidth, AtPrecision, Modifiers;
      var mode, d, args, printed, i := PLAIN, BLANK, args0, 0, 0;
      ghost var start, out := text, "";
      assert Join("", Render(f, 0, args)) == Render(f, 0, args) by { JoinEmpty(Render(f, 0, args)); }
      while i < |f| && f[i] != '\0'
        invariant i <= |f| && printed == |out| && text == start + out
        invariant mode == PLAIN ==> d == BLANK
        invariant Join(out, Remaining(mode, f, i, d, args)) == Render(f, 0, args0)
        decreases |f| - i, Rank(mode)
      {
        var c := f[i];
        if mode == PLAIN {
          JoinJoin(out, [c], Render(f, i + 1, args));
          if c == '%' {
            mode := AT_FLAGS;
          } else {
            Assoc(start, out, [c]);
            Put(c);
            out := out + [c];
            printed := printed + 1;
          }
          i := i + 1;
        } else if mode == SPEC {
          ghost var conv := Conversion(d, c, args);
          var e := PutDirective(d, c, args);
          if e == None {
            return None;
          }
          JoinJoin(out, conv.value.0, Render(f, i + 1, conv.value.1));
          Assoc(start, out, conv.value.0);
          out := out + conv.value.0;
          printed, args := printed + e.value.0, e.value.1;
          mode, d, i := PLAIN, BLANK, i + 1;
        } else {
          AdvanceKeeps(mode, f, i, d, args);
          var t := Advance(mode, d, c, args);
          if t == None {
            return None;
          }
          mode, d, args := t.value.mode, t.value.d, t.value.args;
          if t.value.next {
            i := i + 1;
          }
        }
      }
      NothingRemains(mode, f, i, d, args);
      assert out + "" == out;
      return Some(printed);
    }
  }
}
