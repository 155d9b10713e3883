/** The kernel symbol table: the build tool that writes it (utils/src/buildsymboltable.cpp)
    and the kernel code that reads and searches it (kernel/src/arch/x86_64/ELFSymbols.cpp). */
module SymbolTable {
  import opened Options
  import opened Bytes
  import opened Machine
  import opened Digits
  import opened NumberParsing
  import opened Seqs

  datatype Symbol = Symbol(address: nat, name: seq<Byte>)

  /** One record: address, a zero byte, the name, a zero byte. */
  function Record(s: Symbol): seq<Byte>
  {
    Little(s.address, 8) + [0] + s.name + [0]
  }

  function Encode(ss: seq<Symbol>): seq<Byte>
  {
    if ss == [] then [] else Record(ss[0]) + Encode(ss[1..])
  }

  predicate Writable(s: Symbol)
  {
    s.address < Range(8) && 0 !in s.name
  }

  // ---- Writing -------------------------------------------------------------------------

  /** Position of `b` from `i` on, or the end. */
  function Find(s: seq<Byte>, i: nat, b: Byte): (k: nat)
    requires i <= |s|
    ensures i <= k <= |s| && (k < |s| ==> s[k] == b)
    ensures forall j :: i <= j < k ==> s[j] != b
    decreases |s| - i
  {
    if i == |s| || s[i] == b then i else Find(s, i + 1, b)
  }

  const NEWLINE: Byte := 10

  function Chars(s: seq<Byte>): string
  {
    seq(|s|, i requires 0 <= i < |s| => s[i] as char)
  }

  /** End of the white space from `i` on. */
  function Blanks(s: string, i: nat): (j: nat)
    requires i <= |s|
    ensures i <= j <= |s|
    decreases |s| - i
  {
    if i < |s| && (s[i] == ' ' || '\t' <= s[i] <= '\r') then Blanks(s, i + 1) else i
  }

  function AfterSign(s: string, i: nat): (j: nat)
    requires i <= |s|
    ensures i <= j <= |s|
  {
    if i < |s| && (s[i] == '+' || s[i] == '-') then i + 1 else i
  }

  /** A prefix counts only when a digit follows it. */
  function AfterPrefix(s: string, j: nat): (k: nat)
    requires j <= |s|
    ensures j <= k <= |s|
  {
    if j + 2 < |s| && s[j] == '0' && (s[j + 1] == 'x' || s[j + 1] == 'X') && DigitOf(s[j + 2], 16) >= 0 then j + 2
    else j
  }

  /** `strtoul` in base 16 as the C standard has it (section 7.22.1.4 of ISO/IEC 9899:2011), which
      is what the build tool calls: white space, a sign and a prefix may come first.  Sixteen
      digits do not overflow. */
  function HostAddress(s: string): (address: nat)
    ensures address < WORD
  {
    var i := Blanks(s, 0);
    var k := AfterPrefix(s, AfterSign(s, i));
    var value := Value(s[k..RunEnd(s, k, 16)], 16);
    Wrap(if i < |s| && s[i] == '-' then -value else value)
  }

  /** Sixteen characters of address, three characters, and a name that ends at the first zero byte. */
  function LineSymbol(line: seq<Byte>): (s: Symbol)
    requires |line| >= 19
    ensures Writable(s)
  {
    assert Range(8) == WORD;
    Symbol(HostAddress(Chars(line[..16])), line[19..Find(line, 19, 0)])
  }

  /** Sixteen hexadecimal digits, as the listing has them, are read as the number they denote. */
  lemma HostReads(s: string)
    requires |s| == 16 && AllDigits(s, 16)
    ensures HostAddress(s) == Value(s, 16)
  {
    hide Value;
    Hex16(s);
    assert Blanks(s, 0) == 0 by { NoBlank(s[0]); }
    assert DigitOf(s[1], 16) >= 0;
    NoBlank(s[1]);
    assert s[0..] == s;
    RunFrom(s, 0, 16, 16);
    assert s[0..16] == s;
  }

  /** White space up to `i`, a sign up to `j`, a prefix up to `k` and hexadecimal digits up to `e`,
      any of the first three perhaps empty, are read as the C standard says, and what follows the
      digits is left alone. */
  lemma HostAddressIs(s: string, i: nat, j: nat, k: nat, e: nat)
    requires i <= j <= k < e <= |s| && (forall m :: 0 <= m < i ==> IsBlank(s[m]))
    requires j == i || (j == i + 1 && s[i] in {'+', '-'})
    requires k == j || (k == j + 2 && s[j] == '0' && s[j + 1] in {'x', 'X'})
    requires AllDigits(s[k..e], 16) && (e < |s| ==> DigitOf(s[e], 16) < 0)
    requires k == j && e == k + 1 && e < |s| && s[k] == '0' ==> s[e] !in {'x', 'X'}
    ensures HostAddress(s) == Wrap(if j > i && s[i] == '-' then -Value(s[k..e], 16) else Value(s[k..e], 16))
  {
    hide Value, Wrap, HostAddress, Blanks, RunEnd;
    forall m | k <= m < e ensures DigitOf(s[m], 16) >= 0 {
      assert s[k..e][m - k] == s[m];
    }
    NoBlank(s[k]);
    if k + 1 < e {
      NoBlank(s[k + 1]);
    }
    BlanksRun(s, 0, i);
    RunFrom(s, k, e, 16);
    HostFrom(s, i, k, e);
  }

  lemma HostFrom(s: string, i: nat, k: nat, e: nat)
    requires i == Blanks(s, 0) < |s| && k == AfterPrefix(s, AfterSign(s, i)) && e == RunEnd(s, k, 16)
    ensures HostAddress(s) == Wrap(if s[i] == '-' then -Value(s[k..e], 16) else Value(s[k..e], 16))
  {
    hide Value, Wrap, Blanks, RunEnd, AfterSign, AfterPrefix;
  }

  predicate IsBlank(c: char)
  {
    c == ' ' || '\t' <= c <= '\r'
  }

  lemma {:induction false} BlanksRun(s: string, i: nat, j: nat)
    requires i <= j < |s| && !IsBlank(s[j]) && forall k :: i <= k < j ==> IsBlank(s[k])
    ensures Blanks(s, i) == j
    decreases j - i
  {
    if i < j {
      BlanksRun(s, i + 1, j);
    }
  }

  lemma Hex16(s: string)
    requires |s| == 16 && AllDigits(s, 16)
    ensures 0 <= Value(s, 16) < WORD
  {
    ValueBound(s, 16);
    hide Value, AllDigits;
    assert Pow(16, 4) == 0x1_0000 && Pow(16, 8) == 0x1_0000_0000 && Pow(16, 12) == 0x1_0000_0000_0000;
    assert Pow(16, 16) == WORD;
  }

  lemma NoBlank(c: char)
    requires DigitOf(c, 16) >= 0
    ensures c != ' ' && !('\t' <= c <= '\r') && c != '+' && c != '-' && c != 'x' && c != 'X'
  {
  }

  /** Every line is long enough to hold an address and a name. */
  ghost predicate Listing(text: seq<Byte>, i: nat)
    requires i <= |text|
    decreases |text| - i
  {
    i == |text| || (var e := Find(text, i, NEWLINE); e - i >= 19 && (e == |text| || Listing(text, e + 1)))
  }

  /** The symbols a listing names, line by line. */
  ghost function Symbols(text: seq<Byte>, i: nat): (ss: seq<Symbol>)
    requires i <= |text| && Listing(text, i)
    ensures forall j :: 0 <= j < |ss| ==> Writable(ss[j])
    decreases |text| - i
  {
    if i == |text| then []
    else
      var e := Find(text, i, NEWLINE);
      [LineSymbol(text[i..e])] + if e == |text| then [] else Symbols(text, e + 1)
  }

  /** The record-writing loop of the build tool. */
  method WriteTable(text: seq<Byte>) returns (out: seq<Byte>)
    requires Listing(text, 0)
    ensures out == Encode(Symbols(text, 0))
  {
    hide Encode, Record, Little, LineSymbol, Find, Listing, Symbols;
    EncodeNone();
    out := [];
    var lineStart := 0;
    ghost var done: seq<Symbol> := [];
    NoMore(Symbols(text, 0));
    while lineStart < |text|
      invariant lineStart <= |text| && Listing(text, lineStart)
      invariant Symbols(text, 0) == done + Symbols(text, lineStart)
      invariant out == Encode(done)
      decreases |text| - lineStart
    {
      var lineEnd := Find(text, lineStart, NEWLINE);
      ListingStep(text, lineStart);
      var s := LineSymbol(text[lineStart..lineEnd]);
      EncodeSnoc(done, s);
      RecordParts(out, s);
      out := out + Little(s.address, 8);
      out := out + [0];
      out := out + s.name;
      out := out + [0];
      Assoc(done, [s], if lineEnd == |text| then [] else Symbols(text, lineEnd + 1));
      done := done + [s];
      NoMore(done);
      if lineEnd == |text| {
        break;
      }
      lineStart := lineEnd + 1;
    }
    if lineStart == |text| {
      ListingEnd(text);
    }
    NoMore(done);
  }

  lemma ListingStep(text: seq<Byte>, i: nat)
    requires i < |text| && Listing(text, i)
    ensures var e := Find(text, i, NEWLINE);
            && e - i >= 19 && (e < |text| ==> Listing(text, e + 1))
            && Symbols(text, i) == [LineSymbol(text[i..e])] + if e == |text| then [] else Symbols(text, e + 1)
  {
    hide LineSymbol, Find;
  }

  lemma ListingEnd(text: seq<Byte>)
    ensures Listing(text, |text|) && Symbols(text, |text|) == []
  {
  }

  lemma EncodeNone()
    ensures Encode([]) == []
  {
  }

  lemma {:induction false} EncodeSnoc(ss: seq<Symbol>, s: Symbol)
    ensures Encode(ss + [s]) == Encode(ss) + Record(s)
  {
    hide Record;
    TailSnoc(ss, s);
    if ss == [] {
      NoMore(Record(s));
    } else {
      EncodeSnoc(ss[1..], s);
      Assoc(Record(ss[0]), Encode(ss[1..]), Record(s));
    }
  }

  lemma RecordParts(out: seq<Byte>, s: Symbol)
    ensures out + Little(s.address, 8) + [0] + s.name + [0] == out + Record(s)
  {
    hide Little;
    Assoc(out, Little(s.address, 8), [0]);
    Assoc(out, Little(s.address, 8) + [0], s.name);
    Assoc(out, Little(s.address, 8) + [0] + s.name, [0]);
  }

  // ---- Reading -------------------------------------------------------------------------

  /** A record that is not cut short and has its separator stands at `i`. */
  predicate HasRecord(data: seq<Byte>, i: nat)
  {
    i + 9 < |data| && data[i + 8] == 0
  }

  function NameEnd(data: seq<Byte>, i: nat): (e: nat)
    requires HasRecord(data, i)
    ensures i + 9 <= e <= |data|
  {
    Find(data, i + 9, 0)
  }

  function RecordAt(data: seq<Byte>, i: nat): Symbol
    requires HasRecord(data, i)
  {
    Symbol(FromLittle(data[i..i + 8]), data[i + 9..NameEnd(data, i)])
  }

  /** The symbols in a table from `i` on, up to where there is no record. */
  function Parsed(data: seq<Byte>, i: nat): seq<Symbol>
    requires i <= |data|
    decreases |data| - i
  {
    if !HasRecord(data, i) then []
    else [RecordAt(data, i)] + if NameEnd(data, i) == |data| then [] else Parsed(data, NameEnd(data, i) + 1)
  }

  lemma ParsedStep(data: seq<Byte>, i: nat)
    requires i <= |data|
    ensures !HasRecord(data, i) ==> Parsed(data, i) == []
    ensures HasRecord(data, i) ==>
              Parsed(data, i)
              == [RecordAt(data, i)] + if NameEnd(data, i) == |data| then [] else Parsed(data, NameEnd(data, i) + 1)
  {
    hide HasRecord, NameEnd, RecordAt;
  }

  class ELFSymbols {
    var symbols: seq<Symbol>

    constructor (data: seq<Byte>)
      ensures symbols == Parsed(data, 0)
    {
      symbols := [];
      new;
      hide FromLittle, Find, Parsed;
      NoMore(Parsed(data, 0));
      if |data| < 10 {
        ParsedStep(data, 0);
        return;
      }
      var index := 0;
      while index < |data|
        invariant index <= |data|
        invariant symbols + Parsed(data, index) == Parsed(data, 0)
      {
        var start := index;
        NoMore(symbols);
        ParsedStep(data, index);
        index := index + 8;
        if index + 1 >= |data| || data[index] != 0 {
          return;
        }
        index := index + 1;
        var e := Find(data, index, 0);
        var s := Symbol(FromLittle(data[start..start + 8]), data[index..e]);
        Assoc(symbols, [s], if e == |data| then [] else Parsed(data, e + 1));
        symbols := symbols + [s];
        NoMore(symbols);
        if e == |data| {
          return;
        }
        index := e + 1;
      }
      ParsedStep(data, index);
      NoMore(symbols);
    }

    /** The symbol at or below an address. */
    method Lookup(address: nat) returns (name: Option<seq<Byte>>)
      ensures name.Some? ==>
                exists j ::
                  0 <= j < |symbols| && name.value == symbols[j].name && symbols[j].address <= address
      ensures Sorted(symbols) ==> (name.Some? <==>
                symbols != [] && symbols[0].address <= address <= symbols[|symbols| - 1].address)
      ensures Sorted(symbols) && name.Some? ==>
                exists j :: IsFloor(symbols, j, address) && name.value == symbols[j].name
    {
      var i := 0;
      assert Misses(symbols, i, address);
      hide Sorted, Misses, IsFloor;
      while i < |symbols|
        invariant i <= |symbols| && Misses(symbols, i, address)
      {
        var s := symbols[i];
        if s.address == address {
          FloorHere(symbols, i, address);
          return Some(s.name);
        }
        if i + 1 < |symbols| {
          var next := symbols[i + 1];
          if s.address <= address && next.address > address {
            FloorHere(symbols, i, address);
            return Some(s.name);
          }
        }
        MissesNext(symbols, i, address);
        i := i + 1;
      }
      NoGap(symbols, address);
      return None;
    }
  }

  /** The search passed over the first `n` symbols. */
  ghost predicate Misses(ss: seq<Symbol>, n: nat, address: nat)
  {
    && (forall j :: 0 <= j < n && j < |ss| ==> ss[j].address != address)
    && (forall j, k {:trigger ss[j], ss[k]} :: 0 <= j < n && k == j + 1 && k < |ss| ==>
         !(ss[j].address <= address < ss[k].address))
  }

  lemma MissesNext(ss: seq<Symbol>, n: nat, address: nat)
    requires n < |ss| && Misses(ss, n, address) && ss[n].address != address
    requires n + 1 < |ss| ==> !(ss[n].address <= address < ss[n + 1].address)
    ensures Misses(ss, n + 1, address)
  {
  }

  /** A hit is the floor, and lies between the first and the last symbol. */
  lemma FloorHere(ss: seq<Symbol>, i: nat, address: nat)
    requires i < |ss| && (ss[i].address == address || (i + 1 < |ss| && ss[i].address <= address < ss[i + 1].address))
    ensures Sorted(ss) ==> IsFloor(ss, i, address) && ss[0].address <= address <= ss[|ss| - 1].address
  {
    if Sorted(ss) {
      forall k | 0 <= k < |ss| && ss[k].address <= address ensures ss[k].address <= ss[i].address {
        assert k > i && i + 1 < |ss| ==> k == i + 1 || ss[i + 1].address <= ss[k].address;
      }
      assert i > 0 ==> ss[0].address <= ss[i].address;
      assert i + 1 < |ss| - 1 ==> ss[i + 1].address <= ss[|ss| - 1].address;
      assert i < |ss| - 1 ==> ss[i].address <= ss[|ss| - 1].address;
    }
  }

  ghost predicate Sorted(ss: seq<Symbol>)
  {
    forall i, j :: 0 <= i < j < |ss| ==> ss[i].address <= ss[j].address
  }

  /** Symbol `j` has the greatest address not above the given one. */
  ghost predicate IsFloor(ss: seq<Symbol>, j: int, address: nat)
  {
    && 0 <= j < |ss| && ss[j].address <= address
    && forall k :: 0 <= k < |ss| && ss[k].address <= address ==> ss[k].address <= ss[j].address
  }

  lemma NoGap(ss: seq<Symbol>, address: nat)
    requires Misses(ss, |ss|, address)
    ensures Sorted(ss) ==> !(ss != [] && ss[0].address <= address <= ss[|ss| - 1].address)
  {
    if ss != [] && ss[0].address <= address {
      AllBelow(ss, address, |ss| - 1);
    }
  }

  lemma {:induction false} AllBelow(ss: seq<Symbol>, address: nat, n: nat)
    requires n < |ss| && ss[0].address <= address && Misses(ss, |ss|, address)
    ensures ss[n].address < address
  {
    if n > 0 {
      AllBelow(ss, address, n - 1);
      assert !(ss[n - 1].address <= address < ss[n].address);
    }
  }

  // ---- Round trip ----------------------------------------------------------------------

  /** A table written for any list of addresses and names reads back as that list. */
  lemma {:induction false} ReadsBack(before: seq<Byte>, ss: seq<Symbol>)
    requires forall j :: 0 <= j < |ss| ==> Writable(ss[j])
    ensures Parsed(before + Encode(ss), |before|) == ss
    decreases |ss|
  {
    hide Parsed, Record, Find, Little, FromLittle;
    if ss == [] {
      ParsedStep(before + Encode(ss), |before|);
    } else {
      var s, rest := ss[0], Encode(ss[1..]);
      Assoc(before, Record(s), rest);
      RecordRead(before, s, rest);
      ReadsBack(before + Record(s), ss[1..]);
      assert ss == [s] + ss[1..];
    }
  }

  /** One record in a table is read as its symbol, and reading goes on behind it. */
  lemma RecordRead(before: seq<Byte>, s: Symbol, rest: seq<Byte>)
    requires Writable(s)
    ensures Parsed(before + Record(s) + rest, |before|) == [s] + Parsed(before + Record(s) + rest, |before + Record(s)|)
  {
    hide Parsed, Find, Little, FromLittle;
    var data, i, word := before + Record(s) + rest, |before|, Little(s.address, 8);
    var e := i + 9 + |s.name|;
    Window(before, word, [0] + s.name + [0] + rest);
    assert data == before + word + ([0] + s.name + [0] + rest);
    Window(before + word + [0], s.name, [0] + rest);
    assert data == before + word + [0] + s.name + ([0] + rest);
    assert data[i + 8] == 0 && data[e] == 0;
    FromLittleLittle(s.address, 8);
    FoundAt(data, i + 9, e, 0);
    ParsedStep(data, i);
    if e == |data| - 1 {
      ParsedStep(data, e + 1);
    }
  }

  lemma FoundAt(s: seq<Byte>, i: nat, e: nat, b: Byte)
    requires i <= e <= |s| && (e < |s| ==> s[e] == b) && b !in s[i..e]
    ensures Find(s, i, b) == e
  {
    assert forall j :: i <= j < e ==> s[j] in s[i..e];
  }

  /** A table with something behind it is read up to there, and no further when that is cut
      short or lacks the separator of a record. */
  lemma {:induction false} ReadsUpTo(before: seq<Byte>, ss: seq<Symbol>, rest: seq<Byte>)
    requires forall j :: 0 <= j < |ss| ==> Writable(ss[j])
    requires |rest| < 10 || rest[8] != 0
    ensures Parsed(before + Encode(ss) + rest, |before|) == ss
    decreases |ss|
  {
    hide Parsed, Record, Find, Little, FromLittle;
    if ss == [] {
      assert before + Encode(ss) + rest == before + rest;
      ParsedStep(before + rest, |before|);
    } else {
      var s, more := ss[0], Encode(ss[1..]);
      Assoc(before, Record(s), more);
      Assoc(before + Record(s), more, rest);
      RecordRead(before, s, more + rest);
      ReadsUpTo(before + Record(s), ss[1..], rest);
      assert ss == [s] + ss[1..];
    }
  }

  /** The bytes of a record: address with its least significant byte first, zero, name, zero. */
  lemma RecordBytes(s: Symbol)
    requires Writable(s)
    ensures var r, n := Record(s), |s.name|;
            && |r| == n + 10 && FromLittle(r[..8]) == s.address && r[8] == 0 && r[9..9 + n] == s.name && r[9 + n] == 0
  {
    hide Little, FromLittle;
    Parts(Little(s.address, 8), [0] + s.name + [0]);
    assert Record(s) == Little(s.address, 8) + ([0] + s.name + [0]);
    FromLittleLittle(s.address, 8);
  }

  // ---- Listings ------------------------------------------------------------------------

  /** A line of the listing: an address in hexadecimal, a blank, a type letter, a blank, a name. */
  datatype Line = Line(address: seq<Byte>, kind: seq<Byte>, name: seq<Byte>)

  ghost predicate Proper(l: Line)
  {
    && |l.address| == 16 && AllDigits(Chars(l.address), 16) && |l.kind| == 3 && 0 !in l.name
    && NEWLINE !in l.address && NEWLINE !in l.kind && NEWLINE !in l.name
  }

  function LineText(l: Line): seq<Byte>
  {
    l.address + l.kind + l.name
  }

  /** The lines, each but perhaps the last ended by a newline. */
  function ListingText(ls: seq<Line>, ended: bool): seq<Byte>
    decreases |ls|, 1
  {
    if ls == [] then [] else LineText(ls[0]) + After(ls, ended)
  }

  /** What comes after the first line. */
  function After(ls: seq<Line>, ended: bool): seq<Byte>
    requires ls != []
    decreases |ls|, 0
  {
    if |ls| == 1 && !ended then [] else [NEWLINE] + ListingText(ls[1..], ended)
  }

  /** The symbol a line is for. */
  ghost function NamedBy(l: Line): Symbol
    requires Proper(l)
  {
    ValueBound(Chars(l.address), 16);
    Symbol(Value(Chars(l.address), 16), l.name)
  }

  ghost function Named(ls: seq<Line>): seq<Symbol>
    requires forall i :: 0 <= i < |ls| ==> Proper(ls[i])
  {
    if ls == [] then [] else [NamedBy(ls[0])] + Named(ls[1..])
  }

  /** The address and the name stand where the listing has them. */
  lemma LineSymbolIs(l: Line)
    requires Proper(l)
    ensures |LineText(l)| >= 19 && NEWLINE !in LineText(l) && LineSymbol(LineText(l)) == NamedBy(l)
  {
    hide HostAddress, Value, AllDigits;
    var line := LineText(l);
    assert line[..16] == l.address && line[19..] == l.name;
    HostReads(Chars(l.address));
    FoundAt(line, 19, |line|, 0);
  }

  /** A listing names the symbols of its lines. */
  lemma {:induction false} ListingIs(before: seq<Byte>, ls: seq<Line>, ended: bool)
    requires forall i :: 0 <= i < |ls| ==> Proper(ls[i])
    ensures var text := before + ListingText(ls, ended);
            Listing(text, |before|) && Symbols(text, |before|) == Named(ls)
    decreases |ls|
  {
    hide LineSymbol, Proper, LineText, Find, Listing, Symbols, Named, ListingText, NamedBy;
    if ls == [] {
      NoLines(before, ended);
    } else {
      var line, text := LineText(ls[0]), before + ListingText(ls, ended);
      LineSymbolIs(ls[0]);
      TextParts(before, ls, ended);
      FirstLine(before, line, After(ls, ended));
      NamedOne(ls);
      SymbolsStep(text, |before|);
      if |ls| > 1 || ended {
        ListingIs(before + line + [NEWLINE], ls[1..], ended);
      } else {
        NamedLast(ls);
      }
    }
  }

  lemma NoLines(before: seq<Byte>, ended: bool)
    ensures var text := before + ListingText([], ended);
            Listing(text, |before|) && Symbols(text, |before|) == Named([])
  {
    NoMore(before);
    ListingEnd(before);
    NamedNone();
  }

  lemma TextParts(before: seq<Byte>, ls: seq<Line>, ended: bool)
    requires ls != []
    ensures before + ListingText(ls, ended) == before + (LineText(ls[0]) + After(ls, ended))
    ensures |ls| > 1 || ended ==>
              && After(ls, ended) != [] && After(ls, ended)[0] == NEWLINE
              && before + ListingText(ls, ended) == before + LineText(ls[0]) + [NEWLINE] + ListingText(ls[1..], ended)
    ensures !(|ls| > 1 || ended) ==> After(ls, ended) == []
  {
    hide LineText;
    var line := LineText(ls[0]);
    Assoc(before, line, After(ls, ended));
    if |ls| > 1 || ended {
      Assoc(before + line, [NEWLINE], ListingText(ls[1..], ended));
    }
  }

  lemma NamedLast(ls: seq<Line>)
    requires |ls| == 1 && Proper(ls[0])
    ensures Named(ls[1..]) == []
  {
    assert ls[1..] == [];
  }

  lemma NamedNone()
    ensures Named([]) == []
  {
  }

  lemma NamedOne(ls: seq<Line>)
    requires ls != [] && forall i :: 0 <= i < |ls| ==> Proper(ls[i])
    ensures Named(ls) == [NamedBy(ls[0])] + Named(ls[1..])
  {
  }

  lemma FirstLine(before: seq<Byte>, line: seq<Byte>, rest: seq<Byte>)
    requires NEWLINE !in line && (rest == [] || rest[0] == NEWLINE)
    ensures var text, e := before + (line + rest), |before| + |line|;
            Find(text, |before|, NEWLINE) == e && text[|before|..e] == line && |text| == e + |rest|
  {
    var text, e := before + (line + rest), |before| + |line|;
    assert text[|before|..e] == line;
    FoundAt(text, |before|, e, NEWLINE);
  }

  lemma SymbolsStep(text: seq<Byte>, i: nat)
    requires i <= |text|
    ensures var e := Find(text, i, NEWLINE);
            i < |text| && e - i >= 19 && (e < |text| ==> Listing(text, e + 1)) ==>
              && Listing(text, i)
              && Symbols(text, i) == [LineSymbol(text[i..e])] + if e == |text| then [] else Symbols(text, e + 1)
  {
    hide LineSymbol, Find;
  }

  /** What the build tool writes for a listing, the kernel reads as the listing's symbols. */
  method WriteThenRead(text: seq<Byte>) returns (table: ELFSymbols)
    requires Listing(text, 0)
    ensures table.symbols == Symbols(text, 0)
  {
    var out := WriteTable(text);
    ReadsBack([], Symbols(text, 0));
    assert [] + out == out;
    table := new ELFSymbols(out);
  }

  /** A listing put together from its lines comes out of the kernel's reader as those addresses
      and names. */
  method ListingReadsBack(ls: seq<Line>, ended: bool) returns (table: ELFSymbols)
    requires forall i :: 0 <= i < |ls| ==> Proper(ls[i])
    ensures table.symbols == Named(ls)
  {
    var text := ListingText(ls, ended);
    ListingIs([], ls, ended);
    assert [] + text == text;
    table := WriteThenRead(text);
  }
}
