/** The buffer printers of the C library (Userland/Libraries/LibC/src/stdio.cpp): characters
    beyond the room in the buffer are counted and dropped. */
module BufferPrintf {
  import opened Options
  import opened Machine
  import opened Seqs
  import opened Digits
  import opened PrintfSpec
  import opened PrintfScan
  import opened PrintfText
  import opened StreamPrintf

  /** The destination, its limit and the number of characters stored, which the source passes
      to every routine.  `text` is everything that was put, stored or not; `overrun` tells that a
      character was stored outside the destination. */
  class Buffer {
    const s: array<char>
    const max: nat
    var size: nat
    var overrun: bool
    ghost var text: string
    ghost const before: seq<char>

    constructor (s: array<char>, max: nat)
      ensures Valid() && this.s == s && this.max == max && text == "" && before == s[..]
    {
      this.s, this.max, size, overrun := s, max, 0, false;
      text, before := "", s[..];
    }

    /** The buffer holds as much of the text as fits the limit, and is untouched beyond. */
    ghost predicate Valid()
      reads this, s
    {
      && |before| == s.Length && size == Min(max, |text|) && (overrun <==> size > s.Length)
      && var k := Min(size, s.Length); s[..k] == text[..k] && s[k..] == before[k..]
    }

    method Store(c: char)
      modifies `overrun, s
      ensures overrun <==> old(overrun) || size >= s.Length
      ensures s[..] == if size < s.Length then old(s[..])[size := c] else old(s[..])
    {
      if size < s.Length {
        s[size] := c;
      } else {
        overrun := true;
      }
    }

    /** `snputc`. */
    method Put(c: char)
      requires Valid()
      modifies this, s
      ensures Valid() && text == old(text) + [c]
    {
      if size < max {
        ghost var k := Min(size, s.Length);
        Store(c);
        assert s[..k] == old(s[..k]) && (k < s.Length ==> s[k + 1..] == old(s[k + 1..]));
        size := size + 1;
        assert before[k..][if k < s.Length then 1 else 0..] == before[Min(size, s.Length)..];
      }
      text := text + [c];
    }

    /** Put `n` copies of a character. */
    method PutMany(c: char, n: int) returns (k: nat)
      requires Valid()
      modifies this, s
      ensures Valid()
      ensures text == old(text) + Times(c, n) && k == |Times(c, n)|
    {
      hide Valid;
      k := 0;
      while k < n
        invariant Valid()
        invariant k <= Max(n, 0)
        invariant text == old(text) + Times(c, k)
      {
        TimesNext(c, k);
        Put(c);
        k := k + 1;
      }
    }

    /** Put what stands in front of a right-justified number. */
    method PutFiller(length: int, digits: int, zeroPad: bool) returns (k: nat)
      requires Valid()
      modifies this, s
      ensures Valid()
      ensures text == old(text) + Filler(length, digits, zeroPad) && k == |Filler(length, digits, zeroPad)|
    {
      hide Filler, Valid;
      FillerNone(digits, zeroPad, length);
      var left := digits;
      k := 0;
      while k < length
        invariant Valid()
        invariant k <= Max(length, 0)
        invariant !zeroPad ==> left == Max(digits - k, Min(digits, 0))
        invariant text == old(text) + Filler(k, digits, zeroPad)
      {
        FillerNext(k, digits, zeroPad);
        if zeroPad || left > 0 {
          Put('0');
          left := left - 1;
        } else {
          Put(' ');
        }
        k := k + 1;
      }
    }

    /** Put the digit buffer from its most significant end. */
    method PutDigits(buffer: array<char>, count: nat) returns (k: nat)
      requires Valid() && buffer != s
      requires count <= buffer.Length
      modifies this, s
      ensures Valid()
      ensures text == old(text) + Backwards(old(buffer[..count])) && k == count
    {
      hide Backwards, Valid;
      ghost var digits := buffer[..count];
      var pos := count;
      k := 0;
      assert digits[..count] == digits;
      while pos > 0
        invariant Valid()
        invariant pos <= count && k == count - pos && buffer[..count] == digits
        invariant text + Backwards(digits[..pos]) == old(text) + Backwards(digits)
      {
        pos := pos - 1;
        BackwardsNext(digits, pos);
        Assoc(text, [digits[pos]], Backwards(digits[..pos]));
        assert buffer[pos] == digits[pos];
        Put(buffer[pos]);
        k := k + 1;
      }
      BackwardsEmpty();
      assert digits[..0] == "";
    }

    method PutZero(length0: int, digits0: int, zeroPad: bool, left: bool) returns (printed: nat)
      requires Valid()
      modifies this, s
      ensures Valid()
      ensures text == old(text) + UintText(length0, digits0, 0, 10, zeroPad, left, false)
      ensures printed == |UintText(length0, digits0, 0, 10, zeroPad, left, false)|
    {
      hide Filler, Numeral, Valid;
      var length, digits, pad := length0, digits0, if zeroPad then '0' else ' ';
      ghost var start := text;
      printed := 0;
      if length > 1 {
        if left {
          printed := PutMany('0', digits);
          length := length - printed;
          if digits != 0 {
            TimesNext('0', printed);
            Put('0');
            length, printed := length - 1, printed + 1;
          }
          Assoc(start, Times('0', printed), Times(pad, length));
          var k := PutMany(pad, length);
          printed := printed + k;
        } else {
          var printZero := digits != 0;
          if printZero {
            digits, length := digits - 1, length - 1;
          }
          printed := PutFiller(length, digits, zeroPad);
          if printZero {
            Put('0');
            printed := printed + 1;
          }
          Assoc(start, Filler(length, digits, zeroPad), Times('0', if printZero then 1 else 0));
        }
      } else if digits != 0 {
        Put('0');
        printed := printed + 1;
      }
    }

    method PutUint(length0: int, digits0: int, num: nat, radix: nat, zeroPad: bool, left: bool, upper: bool)
        returns (printed: nat)
      requires Valid()
      requires 2 <= radix <= 16 && num < 2 * HALF64
      modifies this, s
      ensures Valid()
      ensures text == old(text) + UintText(length0, digits0, num, radix, zeroPad, left, upper)
      ensures printed == |UintText(length0, digits0, num, radix, zeroPad, left, upper)|
    {
      hide Filler, Numeral, Backwards, Valid;
      var length, digits, pad := length0, digits0, if zeroPad then '0' else ' ';
      if num == 0 {
        ZeroAnyRadix(length, digits, radix, zeroPad, left, upper);
        printed := PutZero(length, digits, zeroPad, left);
        return;
      }
      ghost var start, d := text, Numeral(num, radix, upper);
      var buffer, pos := Unpack(num, radix, upper);
      if length > pos {
        length, digits := length - pos, digits - pos;
        if left {
          printed := PutMany('0', digits);
          length := length - printed;
          Regroup4(start, Times('0', digits), d, Times(pad, length));
          TimesMax('0', digits);
          var k := PutDigits(buffer, pos);
          printed := printed + k;
          k := PutMany(pad, length);
          printed := printed + k;
        } else {
          printed := PutFiller(length, digits, zeroPad);
          Assoc(start, Filler(length, digits, zeroPad), d);
          var k := PutDigits(buffer, pos);
          printed := printed + k;
        }
      } else {
        printed := PutDigits(buffer, pos);
      }
    }

    method PutInt(num: int, flags: set<char>, length0: int, digits: int, radix: nat, upper: bool) returns (printed: nat)
      requires Valid()
      requires 2 <= radix <= 16 && -(HALF64 as int) <= num < HALF64
      modifies this, s
      ensures Valid()
      ensures text == old(text) + IntText(num, flags, length0, digits, radix, upper)
      ensures printed == |IntText(num, flags, length0, digits, radix, upper)|
    {
      hide UintText, Valid;
      var length, n := length0, num;
      ghost var start := text;
      printed := 0;
      if num < 0 {
        Put('-');
        // In 64 bits: the most negative number is its own negation, read as unsigned.
        printed, length, n := 1, length - 1, Wrap(-num);
      } else if '+' in flags {
        Put('+');
        printed, length := 1, length - 1;
      } else if ' ' in flags {
        Put(' ');
        printed, length := 1, length - 1;
      }
      Assoc(start, Sign(num, '+' in flags, ' ' in flags),
          UintText(length, digits, n, radix, '0' in flags, '-' in flags, upper));
      var k := PutUint(length, digits, n, radix, '0' in flags, '-' in flags, upper);
      printed := printed + k;
    }

    method PutString(str: string, width0: int, precision: int) returns (printed: nat)
      requires Valid()
      modifies this, s
      ensures Valid()
      ensures text == old(text) + StrText(str, width0, precision) && printed == |StrText(str, width0, precision)|
    {
      hide Valid;
      var width := width0;
      ghost var start := text;
      var j := 0;
      while !AtEnd(str, j) && !(precision > 0 && j >= precision)
        invariant Valid()
        invariant j <= |str| && CString(str, 0) == CString(str, j) && (precision > 0 ==> j <= precision)
        invariant text == start + str[..j] && width == width0 - j
        decreases |str| - j
      {
        Put(str[j]);
        assert str[..j + 1] == str[..j] + [str[j]];
        j := j + 1;
        width := width - 1;
      }
      assert j == Shown(str, precision);
      var k := PutMany(' ', width);
      Assoc(start, str[..j], Times(' ', width));
      printed := j + k;
    }

    /** The prefix of the alternative form, and the width it leaves. */
    method PutPrefix(extra: bool, radix: nat, upper: bool, width0: int) returns (printed: nat, width: int)
      requires Valid()
      modifies this, s
      ensures Valid()
      ensures var prefix := Prefix(extra, radix, upper);
              text == old(text) + prefix && printed == |prefix|
              && width == if prefix == "" then width0 else Max(width0 - |prefix|, 0)
    {
      hide Valid;
      printed, width := 0, width0;
      if extra {
        if radix == 16 {
          Put('0');
          Put(if upper then 'X' else 'x');
          printed, width := 2, width - 2;
          if width < 0 {
            width := 0;
          }
        } else if radix == 8 {
          Put('0');
          printed, width := 1, width - 1;
          if width < 0 {
            width := 0;
          }
        }
      }
    }

    /** Prefix and digits of a numeric conversion. */
    method PutNumber(d: Directive, len: Length, radix: nat, sign: bool, upper: bool, args: seq<Arg>)
        returns (r: Option<(nat, seq<Arg>)>)
      requires Valid()
      requires 2 <= radix <= 16 && (sign ==> radix == 10)
      modifies this, s
      ensures Valid()
      ensures match NumberConversion(d, len, radix, sign, upper, args) {
                case None => r == None
                case Some((t, rest)) => r == Some((|t|, rest)) && text == old(text) + t
              }
    {
      hide UintText, IntText, SignedArg, UnsignedArg, Valid;
      ghost var start := text;
      var printed, width := PutPrefix('#' in d.flags, radix, upper, d.width);
      if args == [] || !args[0].Word? {
        return None;
      }
      var length, k := Max(width, d.precision), 0;
      if sign {
        k := PutInt(SignedArg(len, args[0].bits), d.flags, length, d.precision, radix, upper);
      } else {
        Assoc(start, Prefix('#' in d.flags, radix, upper),
            UintText(length, d.precision, UnsignedArg(len, args[0].bits), radix,
                     '0' in d.flags, '-' in d.flags, upper));
        k := PutUint(length, d.precision, UnsignedArg(len, args[0].bits), radix, '0' in d.flags, '-' in d.flags, upper);
      }
      return Some((printed + k, args[1..]));
    }

    /** Print one complete directive; nothing is returned where the program stops or the
        arguments do not fit. */
    method PutDirective(d: Directive, c: char, args: seq<Arg>) returns (r: Option<(nat, seq<Arg>)>)
      requires Valid()
      modifies this, s
      ensures Valid()
      ensures match Conversion(d, c, args) {
                case None => r == None
                case Some((t, rest)) => r == Some((|t|, rest)) && text == old(text) + t
              }
    {
      hide NumberConversion, StrText, Valid;
      var radix, number, sign, upper, len := 10, false, false, false, d.len;
      var rest, printed := args, 0;
      if c == 'd' || c == 'i' {
        radix, number, sign := 10, true, true;
      } else if c == 'u' {
        radix, number := 10, true;
      } else if c == 'o' {
        radix, number := 8, true;
      } else if c == 'p' {
        if len == Length.NORMAL {
          len := LONG;
        }
        radix, number := 16, true;
      } else if c == 'x' {
        radix, number := 16, true;
      } else if c == 'X' {
        radix, number, upper := 16, true, true;
      } else if c in "fFeEgGaAn" {
        return None;
      } else if c == 'c' {
        if args == [] || !args[0].Word? {
          return None;
        }
        Put((args[0].bits % 256) as char);
        rest, printed := args[1..], 1;
      } else if c == 's' {
        if args == [] || !args[0].Text? {
          return None;
        }
        printed := PutString(args[0].str, d.width, d.precision);
        rest := args[1..];
      } else if c == '%' {
        Put('%');
        printed := 1;
      }
      // Only the numeric conversions change the radix, so only they can get a prefix.
      if number {
        r := PutNumber(d, len, radix, sign, upper, args);
      } else {
        r := Some((printed, rest));
      }
    }

    /** The whole format. */
    method Format(f: string, args0: seq<Arg>) returns (r: Option<nat>)
      requires Valid()
      modifies this, s
      ensures Valid()
      ensures match Render(f, 0, args0) {
                case None => r == None
                case Some(t) => r == Some(|t|) && text == old(text) + t
              }
    {
      hide Conversion, Advance, AfterPercent, AtWidth, AtPrecision, Modifiers, Valid;
      var mode, d, args, printed, i := PLAIN, BLANK, args0, 0, 0;
      ghost var start, out := text, "";
      assert Join("", Render(f, 0, args)) == Render(f, 0, args) by { JoinEmpty(Render(f, 0, args)); }
      while i < |f| && f[i] != '\0'
        invariant Valid()
        invariant i <= |f| && printed == |out| && text == start + out
        invariant mode == PLAIN ==> d == BLANK
        invariant Join(out, Remaining(mode, f, i, d, args)) == Render(f, 0, args0)
        decreases |f| - i, Rank(mode)
      {
        var c := f[i];
        if mode == PLAIN {
          JoinJoin(out, [c], Render(f, i + 1, args));
          if c == '%' {
            mode := AT_FLAGS;
          } else {
            Assoc(start, out, [c]);
            Put(c);
            out := out + [c];
            printed := printed + 1;
          }
          i := i + 1;
        } else if mode == SPEC {
          ghost var conv := Conversion(d, c, args);
          var e := PutDirective(d, c, args);
          if e == None {
            return None;
          }
          JoinJoin(out, conv.value.0, Render(f, i + 1, conv.value.1));
          Assoc(start, out, conv.value.0);
          out := out + conv.value.0;
          printed, args := printed + e.value.0, e.value.1;
          mode, d, i := PLAIN, BLANK, i + 1;
        } else {
          AdvanceKeeps(mode, f, i, d, args);
          var t := Advance(mode, d, c, args);
          if t == None {
            return None;
          }
          mode, d, args := t.value.mode, t.value.d, t.value.args;
          if t.value.next {
            i := i + 1;
          }
        }
      }
      NothingRemains(mode, f, i, d, args);
      assert out + "" == out;
      return Some(printed);
    }

    /** Store the terminator after the characters stored. */
    method Terminate()
      requires Valid()
      modifies `overrun, s
      ensures var k := Min(max, |text|);
              && (overrun <==> s.Length <= k)
              && (!overrun ==> s[..k] == text[..k] && s[k] == '\0' && s[k + 1..] == before[k + 1..])
    {
      Store('\0');
    }
  }

  /** `vsnprintf`: a terminated prefix of the output in the buffer, as long as the size less one
      allows, the length of the whole output returned, and the rest of the buffer left alone.  A
      size of 0 wraps and allows everything, so that a buffer of the size given is overrun exactly
      when that size is 0. */
  method VSNPrintf(s: array<char>, n: nat, f: string, args: seq<Arg>) returns (r: Option<nat>, overrun: bool)
    requires n < WORD
    modifies s
    ensures match Render(f, 0, args) {
              case None => r == None
              case Some(t) =>
                var k := Min(if n == 0 then WORD - 1 else n - 1, |t|);
                && r == Some(|t|) && (overrun <==> s.Length <= k)
                && (!overrun ==> s[..k] == t[..k] && s[k] == '\0' && s[k + 1..] == old(s[k + 1..]))
                && (s.Length == n ==> (overrun <==> n == 0))
            }
  {
    hide Render, Wrap;
    Limit(n);
    var buffer := new Buffer(s, Wrap(n - 1));
    r := buffer.Format(f, args);
    assert r.Some? ==> "" + Render(f, 0, args).value == Render(f, 0, args).value;
    hide Buffer.Valid;
    if r != None {
      buffer.Terminate();
    }
    overrun := buffer.overrun;
  }

  lemma Limit(n: nat)
    requires n < WORD
    ensures Wrap(n - 1) == if n == 0 then WORD - 1 else n - 1
  {
  }

  /** A size of 0 means no limit: three characters go to a buffer of none. */
  method SizeZero() returns (r: Option<nat>, overrun: bool)
    ensures r == Some(2) && overrun
  {
    var s := new char[0];
    assert ['k'] + "" == "k" && ['o'] + "k" == "ok";
    assert Render("ok", 2, []) == Some("") && Render("ok", 1, []) == Some("k");
    assert Render("ok", 0, []) == Some("ok");
    r, overrun := VSNPrintf(s, 0, "ok", []);
  }

  /** The two families print the same: what `vsnprintf` keeps is a prefix of what `vfprintf`
      writes for the same arguments, and both return the same length. */
  method SameOutput(s: array<char>, n: nat, file: Stream, f: string, args: seq<Arg>)
    returns (a: Option<nat>, b: Option<nat>, overrun: bool)
    requires n < WORD && file.text == ""
    modifies s, file
    ensures a == b
    ensures a.Some? ==> a.value == |file.text| && (s.Length >= n > 0 ==> !overrun)
    ensures a.Some? && !overrun ==>
              var k := Min(if n == 0 then WORD - 1 else n - 1, a.value);
              k < s.Length && s[..k] == file.text[..k] && s[k] == '\0'
  {
    a, overrun := VSNPrintf(s, n, f, args);
    b := file.VFPrintf(f, args);
    if a.Some? {
      assert "" + file.text == file.text;
    }
  }
}
