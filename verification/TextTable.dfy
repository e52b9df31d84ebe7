/**
  The human-readable Unicode table (psfxtable.c), on values: numbers, lines, the table that is written
  and the table that is read.
 */
module TextTable {
  import opened Bytes
  import opened PsfTable
  import opened PsfFont

  // ASCII text as bytes.
  function Text(s: string): (b: seq<Byte>)
    requires forall i | 0 <= i < |s| :: s[i] as int < 0x80
    ensures |b| == |s|
  {
    seq(|s|, i requires 0 <= i < |s| && s[i] as int < 0x80 => s[i] as int)
  }

  predicate Is(b: Byte, c: char) {
    b == c as int
  }

  predicate StartsWith(s: seq<Byte>, c: char) {
    s != [] && Is(s[0], c)
  }

  // ---------------------------------------------------------------- numbers

  // The value of a digit or letter; 36 for other characters.
  function DigitValue(c: Byte): nat {
    if '0' as int <= c <= '9' as int then c - '0' as int
    else if 'a' as int <= c <= 'z' as int then c - 'a' as int + 10
    else if 'A' as int <= c <= 'Z' as int then c - 'A' as int + 10
    else 36
  }

  predicate IsXdigit(c: Byte) {
    DigitValue(c) < 16
  }

  // isspace in the C locale
  predicate IsSpace(c: Byte) {
    c == 32 || 9 <= c <= 13
  }

  predicate IsBlank(c: Byte) {
    c == 32 || c == 9
  }

  function SkipSpace(s: seq<Byte>): (r: seq<Byte>)
    ensures |r| <= |s|
  {
    if s != [] && IsSpace(s[0]) then SkipSpace(s[1..]) else s
  }

  function SkipBlanks(s: seq<Byte>): (r: seq<Byte>)
    ensures |r| <= |s|
  {
    if s != [] && IsBlank(s[0]) then SkipBlanks(s[1..]) else s
  }

  // Number of digits s begins with.
  function DigitCount(s: seq<Byte>, base: nat): (n: nat)
    ensures n <= |s|
  {
    if s == [] || DigitValue(s[0]) >= base then 0 else 1 + DigitCount(s[1..], base)
  }

  function Value(s: seq<Byte>, base: nat): nat {
    if s == [] then 0 else Value(s[..|s| - 1], base) * base + DigitValue(s[|s| - 1])
  }

  // The base strtol takes for base 0 and 16, and the digits behind the prefix.
  function Prefix(s: seq<Byte>, base: nat): (nat, seq<Byte>)
    requires base == 0 || base == 16
  {
    if |s| >= 3 && Is(s[0], '0') && (Is(s[1], 'x') || Is(s[1], 'X')) && IsXdigit(s[2]) then (16, s[2..])
    else if base == 16 then (16, s)
    else if StartsWith(s, '0') then (8, s)
    else (10, s)
  }

  // strtol: the value, not limited, and what is left; None if there is no digit.
  function StrToL(s: seq<Byte>, base: nat): Option<(int, seq<Byte>)>
    requires base == 0 || base == 16
  {
    var t := SkipSpace(s);
    var negative := StartsWith(t, '-');
    var (b, digits) := Prefix(if negative || StartsWith(t, '+') then t[1..] else t, base);
    var n := DigitCount(digits, b);
    if n == 0 then None
    else Some((if negative then -(Value(digits[..n], b) as int) else Value(digits[..n], b), digits[n..]))
  }

  datatype TextError =
    | LineTooLong | NoNumber | OutOfRange | Negative | TooBig
    | PastEnd | BadRangeEnd | NoUnicode | NoUnicodeRange | RangesDiffer

  const LONG_MAX := 0x7FFF_FFFF_FFFF_FFFF

  // str_to_unicode
  function StrToUnicode(s: seq<Byte>): Result<(nat, seq<Byte>), TextError> {
    match StrToL(s, 0)
    case None => Err(NoNumber)
    case Some((v, rest)) =>
      if v > LONG_MAX || v < -LONG_MAX - 1 then Err(OutOfRange)
      else if v < 0 then Err(Negative)
      else if v > INT_MAX then Err(TooBig)
      else Ok((v, rest))
  }

  // ---------------------------------------------------------------- code points and definitions

  // Blanks, then U+ and exactly four hexadecimal digits.
  predicate IsCodeText(q: seq<Byte>) {
    && |q| >= 6 && Is(q[0], 'U') && Is(q[1], '+')
    && IsXdigit(q[2]) && IsXdigit(q[3]) && IsXdigit(q[4]) && IsXdigit(q[5])
    && !(|q| > 6 && IsXdigit(q[6]))
  }

  // getunicode: the code point and what is left.
  function GetUnicode(s: seq<Byte>): (r: Option<(nat, seq<Byte>)>)
    ensures r.Some? ==> |r.value.1| < |s|
  {
    var q := SkipBlanks(s);
    if IsCodeText(q) then Some((Value(q[2..6], 16), q[6..])) else None
  }

  // psfxtable.c:190-196: the rest of a sequence, and what is left.
  function SequenceRest(s: seq<Byte>): (r: (seq<int>, seq<Byte>))
    ensures |r.1| <= |s|
    decreases |s|
  {
    if !StartsWith(s, ',') || GetUnicode(s[1..]) == None then ([], s)
    else
      var (u, rest) := GetUnicode(s[1..]).value;
      var (codes, left) := SequenceRest(rest);
      ([u] + codes, left)
  }

  // psfxtable.c:184-197: sequences as long as there are some.
  function Defs(s: seq<Byte>): Entry
    decreases |s|
  {
    match GetUnicode(s)
    case None => []
    case Some((u, rest)) =>
      var (codes, left) := SequenceRest(rest);
      [[u] + codes] + Defs(left)
  }

  // ---------------------------------------------------------------- lines

  // The text of a line before its newline; None if there is no newline, or a null byte before it.
  function Body(line: seq<Byte>): (b: Option<seq<Byte>>)
    ensures b.Some? ==> |b.value| < |line|
  {
    if line == [] || line[0] == 0 then None
    else if line[0] == 10 then Some([])
    else match Body(line[1..]) case None => None case Some(b) => Some([line[0]] + b)
  }

  // Glyph i gets more sequences.
  function Appended(t: seq<Entry>, i: nat, e: Entry): (t': seq<Entry>)
    requires i < |t|
    ensures |t'| == |t|
  {
    t[i := t[i] + e]
  }

  // Glyphs a .. b get one code point each.
  function AddRange(t: seq<Entry>, a: int, b: int, offset: int): (t': seq<Entry>)
    ensures |t'| == |t|
  {
    seq(|t|, i requires 0 <= i < |t| => if a <= i <= b then t[i] + [[i + offset]] else t[i])
  }

  // The font position, or range of positions, that a line begins with.
  function Positions(p: seq<Byte>, fontlen: nat): Result<(nat, nat, seq<Byte>), TextError> {
    match StrToUnicode(p)
    case Err(x) => Err(x)
    case Ok((fp0, p1)) =>
      match (if StartsWith(p1, '-') then StrToUnicode(p1[1..]) else Ok((0, p1)))
      case Err(x) => Err(x)
      case Ok((fp1, p2)) =>
        if fp0 >= fontlen then Err(PastEnd)
        else if fp1 != 0 && (fp1 < fp0 || fp1 >= fontlen) then Err(BadRangeEnd)
        else Ok((fp0, fp1, p2))
  }

  // psfxtable.c:138-182: `idem`, or a range of code points of the same length.
  function RangeOffset(p: seq<Byte>, fp0: nat, fp1: nat): Result<int, TextError> {
    var q := SkipBlanks(p);
    if |q| >= 4 && q[..4] == Text("idem") then Ok(0)
    else
      match GetUnicode(q)
      case None => Err(NoUnicode)
      case Some((un0, r)) =>
        if !StartsWith(SkipBlanks(r), '-') then Err(NoUnicodeRange)
        else
          match GetUnicode(SkipBlanks(r)[1..])
          case None => Err(NoUnicode)
          case Some((un1, _)) => if un1 - un0 != fp1 - fp0 then Err(RangesDiffer) else Ok(un0 - fp0)
  }

  // parse_itab_line
  function ParseLine(line: seq<Byte>, t: seq<Entry>): (r: Result<seq<Entry>, TextError>)
    ensures r.Ok? ==> |r.value| == |t|
  {
    match Body(line)
    case None => Err(LineTooLong)
    case Some(body) =>
      var p := SkipBlanks(body);
      if p == [] || StartsWith(p, '#') then Ok(t)
      else
        match Positions(p, |t|)
        case Err(x) => Err(x)
        case Ok((fp0, fp1, p2)) =>
          if fp1 == 0 then Ok(Appended(t, fp0, Defs(p2)))
          else
            match RangeOffset(p2, fp0, fp1)
            case Err(x) => Err(x)
            case Ok(offset) => Ok(AddRange(t, fp0, fp1, offset))
  }

  // ---------------------------------------------------------------- files

  const LINE_MAX := 65535  // what fgets takes with a buffer of 65536

  // Bytes up to and including the first newline.
  function LineLength(s: seq<Byte>): (n: nat)
    ensures n <= |s|
    ensures s != [] ==> n > 0
  {
    if s == [] then 0 else if s[0] == 10 then 1 else 1 + LineLength(s[1..])
  }

  // What fgets reads.
  function Chunk(s: seq<Byte>): (n: nat)
    ensures n <= |s| && (s != [] ==> n > 0)
  {
    if LineLength(s) > LINE_MAX then LINE_MAX else LineLength(s)
  }

  // kfont_read_unicodetable, from the current table on
  function ParseText(s: seq<Byte>, t: seq<Entry>): (r: Result<seq<Entry>, TextError>)
    ensures r.Ok? ==> |r.value| == |t|
    decreases |s|
  {
    if s == [] then Ok(t)
    else
      var r := ParseLine(s[..Chunk(s)], t);
      if r.Err? then r else ParseText(s[Chunk(s)..], r.value)
  }

  // Reading on behind a line.
  function ParseOn(r: Result<seq<Entry>, TextError>, rest: seq<Byte>): Result<seq<Entry>, TextError> {
    if r.Err? then r else ParseText(rest, r.value)
  }

  // ---------------------------------------------------------------- writing

  function HexDigit(n: nat): Byte
    requires n < 16
  {
    if n < 10 then '0' as int + n else 'a' as int + n - 10
  }

  function HexDigits(n: nat): (d: seq<Byte>)
    ensures d != []
  {
    if n < 16 then [HexDigit(n)] else HexDigits(n / 16) + [HexDigit(n % 16)]
  }

  function Zeros(n: int): seq<Byte> {
    if n <= 0 then [] else Zeros(n - 1) + ['0' as int]
  }

  // printf's %0<width>x
  function Hex(n: nat, width: nat): seq<Byte> {
    Zeros(width - |HexDigits(n)|) + HexDigits(n)
  }

  function PositionText(i: nat): seq<Byte> {
    Text("0x") + Hex(i, 3) + [9]
  }

  function CodeText(u: int): seq<Byte> {
    Text("U+") + Hex(ToUint32(u), 4)
  }

  // The code points of a sequence but the first.
  function TailText(codes: seq<int>): seq<Byte> {
    if codes == [] then [] else Text(", ") + CodeText(codes[0]) + TailText(codes[1..])
  }

  function SequenceText(s: seq<int>): seq<Byte>
    requires s != []
  {
    CodeText(s[0]) + TailText(s[1..])
  }

  predicate NoEmpty(e: Entry) {
    forall i | 0 <= i < |e| :: e[i] != []
  }

  // The definitions of an entry, the first one after sep.
  function DefsText(e: Entry, sep: seq<Byte>): seq<Byte>
    requires NoEmpty(e)
  {
    if e == [] then [] else sep + SequenceText(e[0]) + DefsText(e[1..], [32])
  }

  function LineOf(i: nat, e: Entry): seq<Byte>
    requires NoEmpty(e)
  {
    PositionText(i) + DefsText(e, []) + [10]
  }

  predicate AllNoEmpty(t: seq<Entry>) {
    forall i | 0 <= i < |t| :: NoEmpty(t[i])
  }

  // The lines of the glyphs from i on.
  function LinesFrom(t: seq<Entry>, i: nat): seq<Byte>
    requires AllNoEmpty(t) && i <= |t|
    decreases |t| - i
  {
    if i == |t| then [] else LineOf(i, t[i]) + LinesFrom(t, i + 1)
  }

  function Title(): seq<Byte> {
    Text("# Character table extracted from font")
  }

  function Heading(): seq<Byte> {
    Text("#") + [10] + Title() + [10] + Text("#") + [10]
  }

  // kfont_write_unicodetable
  function EncodeText(t: seq<Entry>): seq<Byte>
    requires AllNoEmpty(t)
  {
    Heading() + LinesFrom(t, 0)
  }

  // ---------------------------------------------------------------- numbers read back

  predicate AllXdigits(d: seq<Byte>) {
    forall i | 0 <= i < |d| :: IsXdigit(d[i])
  }

  // No digit follows.
  predicate Stops(rest: seq<Byte>) {
    rest == [] || !IsXdigit(rest[0])
  }

  lemma HexDigitBack(n: nat)
    requires n < 16
    ensures DigitValue(HexDigit(n)) == n && IsXdigit(HexDigit(n))
  {
  }

  lemma ValuePush(d: seq<Byte>, c: Byte)
    ensures Value(d + [c], 16) == Value(d, 16) * 16 + DigitValue(c)
  {
    assert (d + [c])[..|d|] == d;
  }

  lemma {:induction false} HexDigitsBack(n: nat)
    ensures Value(HexDigits(n), 16) == n && AllXdigits(HexDigits(n))
  {
    hide DigitValue, HexDigit, Value;
    HexDigitBack(n % 16);
    if n < 16 {
      ValuePush([], HexDigit(n));
      assert [] + [HexDigit(n)] == [HexDigit(n)] && Value([], 16) == 0 by {
        NoDigits();
      }
    } else {
      HexDigitsBack(n / 16);
      ValuePush(HexDigits(n / 16), HexDigit(n % 16));
    }
  }

  lemma NoDigits()
    ensures Value([], 16) == 0
  {
  }

  lemma TwoDigits(n: nat)
    requires n < 0x100
    ensures |HexDigits(n)| <= 2
  {
    if n >= 16 {
      assert |HexDigits(n / 16)| == 1;
    }
  }

  lemma ThreeDigits(n: nat)
    requires n < 0x1000
    ensures |HexDigits(n)| <= 3
  {
    if n >= 16 {
      TwoDigits(n / 16);
    }
  }

  lemma FourDigits(n: nat)
    requires n < 0x10000
    ensures |HexDigits(n)| <= 4
  {
    if n >= 16 {
      ThreeDigits(n / 16);
    }
  }

  lemma {:induction false} ZerosBack(k: int)
    ensures AllXdigits(Zeros(k)) && Value(Zeros(k), 16) == 0 && |Zeros(k)| == if k > 0 then k else 0
  {
    if k > 0 {
      ZerosBack(k - 1);
      ValuePush(Zeros(k - 1), '0' as int);
    }
  }

  lemma {:induction false} LeadingZeros(k: int, d: seq<Byte>)
    ensures Value(Zeros(k) + d, 16) == Value(d, 16)
  {
    hide DigitValue, Value, Zeros;
    if d == [] {
      ZerosBack(k);
      NoDigits();
      assert Zeros(k) + d == Zeros(k);
    } else {
      var init, last := d[..|d| - 1], d[|d| - 1];
      LeadingZeros(k, init);
      ValuePush(init, last);
      ValuePush(Zeros(k) + init, last);
      assert d == init + [last] && Zeros(k) + d == (Zeros(k) + init) + [last];
    }
  }

  // printf and strtol agree on hexadecimal numbers.
  lemma HexBack(n: nat, width: nat)
    ensures Value(Hex(n, width), 16) == n && AllXdigits(Hex(n, width)) && |Hex(n, width)| >= width
    ensures Hex(n, width) != []
    ensures n < 0x10000 && width == 4 ==> |Hex(n, width)| == 4
  {
    hide DigitValue, Value, Zeros, HexDigits;
    HexDigitsBack(n);
    if n < 0x10000 {
      FourDigits(n);
    }
    ZerosBack(width - |HexDigits(n)|);
    LeadingZeros(width - |HexDigits(n)|, HexDigits(n));
  }

  lemma {:induction false} CountAll(d: seq<Byte>, rest: seq<Byte>)
    requires AllXdigits(d) && Stops(rest)
    ensures DigitCount(d + rest, 16) == |d|
  {
    hide DigitValue;
    if d == [] {
      assert d + rest == rest;
    } else {
      assert (d + rest)[1..] == d[1..] + rest;
      CountAll(d[1..], rest);
    }
  }

  // The position at the start of a line, read with base 0.
  lemma PositionBack(i: nat, rest: seq<Byte>)
    ensures StrToL(PositionText(i) + rest, 0) == Some((i, [9] + rest))
  {
    hide DigitCount, Value, Hex, SkipSpace;
    var h := Hex(i, 3);
    HexBack(i, 3);
    var s := PositionText(i) + rest;
    assert s == Text("0x") + (h + ([9] + rest));
    assert s[0] == '0' as int && s[1] == 'x' as int && s[2] == h[0] && s[2..] == h + ([9] + rest);
    NoSpace(s);
    CountAll(h, [9] + rest);
    assert s[2..][..|h|] == h && s[2..][|h|..] == [9] + rest;
  }

  lemma NoSpace(s: seq<Byte>)
    requires s != [] && !IsSpace(s[0])
    ensures SkipSpace(s) == s
  {
  }

  // ---------------------------------------------------------------- code points read back

  predicate Ucs2(s: seq<int>) {
    forall i | 0 <= i < |s| :: 0 <= s[i] <= 0xFFFF
  }

  predicate AllUcs2(e: Entry) {
    forall i | 0 <= i < |e| :: Ucs2(e[i])
  }

  lemma CodeBack(u: int, rest: seq<Byte>)
    requires 0 <= u <= 0xFFFF && Stops(rest)
    ensures GetUnicode(CodeText(u) + rest) == Some((u, rest))
    ensures CodeText(u)[0] == 'U' as int
  {
    hide Value, Hex;
    var h := Hex(u, 4);
    HexBack(u, 4);
    var s := CodeText(u) + rest;
    assert s == Text("U+") + h + rest;
    assert s[0] == 'U' as int && s[1] == '+' as int && s[2..6] == h && s[6..] == rest;
    assert s[2] == h[0] && s[3] == h[1] && s[4] == h[2] && s[5] == h[3];
    NoBlank(s);
  }

  lemma NoBlank(s: seq<Byte>)
    requires s != [] && !IsBlank(s[0])
    ensures SkipBlanks(s) == s
  {
  }

  lemma BlankFirst(b: Byte, s: seq<Byte>)
    requires IsBlank(b)
    ensures SkipBlanks([b] + s) == SkipBlanks(s) && GetUnicode([b] + s) == GetUnicode(s)
  {
    assert ([b] + s)[1..] == s;
  }

  // What may follow a sequence.
  predicate EndsSequence(rest: seq<Byte>) {
    rest == [] || rest[0] == 32
  }

  lemma TailStops(codes: seq<int>, rest: seq<Byte>)
    requires EndsSequence(rest)
    ensures Stops(TailText(codes) + rest)
  {
    if codes != [] {
      assert TailText(codes)[0] == ',' as int;
      assert (TailText(codes) + rest)[0] == ',' as int;
    } else {
      assert TailText(codes) + rest == rest;
    }
  }

  lemma TailUnfold(codes: seq<int>)
    requires codes != []
    ensures TailText(codes) == [',' as int] + [32] + CodeText(codes[0]) + TailText(codes[1..])
  {
    hide CodeText;
    assert Text(", ") == [',' as int] + [32];
  }

  lemma TailSplit(codes: seq<int>, rest: seq<Byte>)
    requires codes != []
    ensures TailText(codes) + rest ==
              [',' as int] + ([32] + (CodeText(codes[0]) + (TailText(codes[1..]) + rest)))
  {
    hide CodeText, TailText;
    TailUnfold(codes);
    var code, tail := CodeText(codes[0]), TailText(codes[1..]);
    Assoc([',' as int] + [32], code, tail, rest);
    Assoc3(code, tail, rest);
    Assoc3([',' as int], [32], code + (tail + rest));
  }

  lemma {:induction false} TailBack(codes: seq<int>, rest: seq<Byte>)
    requires Ucs2(codes) && EndsSequence(rest)
    ensures SequenceRest(TailText(codes) + rest) == (codes, rest)
  {
    hide GetUnicode, CodeText, TailText, SkipBlanks;
    if codes == [] {
      NoTail(rest);
    } else {
      var after := TailText(codes[1..]) + rest;
      var s := TailText(codes) + rest;
      TailSplit(codes, rest);
      assert s[0] == ',' as int && s[1..] == [32] + (CodeText(codes[0]) + after);
      TailStops(codes[1..], rest);
      BlankFirst(32, CodeText(codes[0]) + after);
      CodeBack(codes[0], after);
      TailBack(codes[1..], rest);
      assert codes == [codes[0]] + codes[1..];
    }
  }

  lemma NoTail(rest: seq<Byte>)
    requires EndsSequence(rest)
    ensures TailText([]) + rest == rest && SequenceRest(rest) == ([], rest)
  {
  }

  lemma {:induction false} DefsBack(e: Entry, blank: Byte)
    requires NoEmpty(e) && AllUcs2(e) && IsBlank(blank)
    ensures Defs(DefsText(e, [blank])) == e
  {
    hide GetUnicode, CodeText, TailText, SequenceRest, IsBlank;
    if e == [] {
      NoUnicodeAtEnd();
    } else {
      var rest := DefsText(e[1..], [32]);
      var codes := e[0];
      assert EndsSequence(rest);
      var s := DefsText(e, [blank]);
      assert s == [blank] + (CodeText(codes[0]) + (TailText(codes[1..]) + rest));
      BlankFirst(blank, CodeText(codes[0]) + (TailText(codes[1..]) + rest));
      TailStops(codes[1..], rest);
      CodeBack(codes[0], TailText(codes[1..]) + rest);
      TailBack(codes[1..], rest);
      assert IsBlank(32) by {
        SpaceIsBlank();
      }
      DefsBack(e[1..], 32);
      assert [codes[0]] + codes[1..] == codes && [codes] + e[1..] == e;
    }
  }

  lemma NoUnicodeAtEnd()
    ensures GetUnicode([]) == None
  {
  }

  lemma SpaceIsBlank()
    ensures IsBlank(32) && IsBlank(9)
  {
  }

  // Behind the tab of a line the first definition has no separator of its own.
  lemma TabFirst(e: Entry)
    requires NoEmpty(e)
    ensures [9] + DefsText(e, []) == if e == [] then [9] else DefsText(e, [9])
  {
  }

  // ---------------------------------------------------------------- what definitions can say

  lemma {:induction false} FourDigitValue(d: seq<Byte>, n: nat)
    requires n <= |d| && AllXdigits(d[..n]) && n <= 4
    ensures Value(d[..n], 16) <
              if n == 0 then 1 else if n == 1 then 0x10 else if n == 2 then 0x100 else if n == 3 then 0x1000
              else 0x1_0000
  {
    hide DigitValue;
    if n > 0 {
      assert d[..n][..n - 1] == d[..n - 1] && d[..n] == d[..n - 1] + [d[n - 1]];
      assert d[..n][n - 1] == d[n - 1];
      FourDigitValue(d, n - 1);
      ValuePush(d[..n - 1], d[n - 1]);
    } else {
      NoDigits();
    }
  }

  lemma GetUnicodeUcs2(s: seq<Byte>)
    ensures GetUnicode(s).Some? ==> 0 <= GetUnicode(s).value.0 <= 0xFFFF
  {
    hide DigitValue, Value;
    var q := SkipBlanks(s);
    if IsCodeText(q) {
      var d := q[2..6];
      assert d == [q[2], q[3], q[4], q[5]] && d[..4] == d;
      FourDigitValue(d, 4);
    }
  }

  lemma {:induction false} RestUcs2(s: seq<Byte>)
    ensures Ucs2(SequenceRest(s).0)
    decreases |s|
  {
    hide GetUnicode;
    if StartsWith(s, ',') && GetUnicode(s[1..]).Some? {
      GetUnicodeUcs2(s[1..]);
      RestUcs2(GetUnicode(s[1..]).value.1);
    }
  }

  // Definitions hold sequences of 16-bit code points, none of them empty.
  lemma {:induction false} DefsUcs2(s: seq<Byte>)
    ensures AllUcs2(Defs(s)) && NoEmpty(Defs(s))
    decreases |s|
  {
    hide GetUnicode, SequenceRest;
    if GetUnicode(s).Some? {
      var (u, rest) := GetUnicode(s).value;
      var (codes, left) := SequenceRest(rest);
      GetUnicodeUcs2(s);
      RestUcs2(rest);
      DefsUcs2(left);
    }
  }

  // What the definitions of an entry read back as.
  function ReadBackDefs(e: Entry): Entry
    requires NoEmpty(e)
  {
    Defs([9] + DefsText(e, []))
  }

  // They read back as the entry exactly when its code points have 16 bits.
  lemma DefsBackIff(e: Entry)
    requires NoEmpty(e)
    ensures ReadBackDefs(e) == e <==> AllUcs2(e)
  {
    hide DefsText, Defs, GetUnicode, IsBlank;
    DefsUcs2([9] + DefsText(e, []));
    TabFirst(e);
    SpaceIsBlank();
    if AllUcs2(e) {
      if e == [] {
        TabAlone();
      } else {
        DefsBack(e, 9);
      }
    }
  }

  lemma TabAlone()
    ensures Defs([9]) == []
  {
    BlankFirst(9, []);
    NoUnicodeAtEnd();
    assert [9] + [] == [9];
  }

  // ---------------------------------------------------------------- lines read back

  // Neither a newline nor a null byte.
  predicate Plain(s: seq<Byte>) {
    forall i | 0 <= i < |s| :: s[i] != 0 && s[i] != 10
  }

  lemma PlainConcat(a: seq<Byte>, b: seq<Byte>)
    requires Plain(a) && Plain(b)
    ensures Plain(a + b)
  {
  }

  lemma XdigitsPlain(d: seq<Byte>)
    requires AllXdigits(d)
    ensures Plain(d)
  {
  }

  lemma CodePlain(u: int)
    ensures Plain(CodeText(u))
  {
    hide Hex;
    HexBack(ToUint32(u), 4);
    XdigitsPlain(Hex(ToUint32(u), 4));
    PlainConcat(Text("U+"), Hex(ToUint32(u), 4));
  }

  lemma PositionPlain(i: nat)
    ensures Plain(PositionText(i)) && PositionText(i) != [] && PositionText(i)[0] == '0' as int
  {
    hide Hex;
    HexBack(i, 3);
    XdigitsPlain(Hex(i, 3));
    PlainConcat(Text("0x"), Hex(i, 3));
    PlainConcat(Text("0x") + Hex(i, 3), [9]);
  }

  lemma {:induction false} TailPlain(codes: seq<int>)
    ensures Plain(TailText(codes))
  {
    hide CodeText, Plain;
    if codes == [] {
      EmptyPlain();
    } else {
      CodePlain(codes[0]);
      TailPlain(codes[1..]);
      TailUnfold(codes);
      SeparatorsPlain();
      PlainConcat([',' as int] + [32], CodeText(codes[0]));
      PlainConcat([',' as int] + [32] + CodeText(codes[0]), TailText(codes[1..]));
    }
  }

  lemma EmptyPlain()
    ensures Plain([])
  {
  }

  lemma SeparatorsPlain()
    ensures Plain([',' as int] + [32]) && Plain([32])
  {
  }

  lemma {:induction false} DefsPlain(e: Entry, sep: seq<Byte>)
    requires NoEmpty(e) && Plain(sep)
    ensures Plain(DefsText(e, sep))
  {
    hide CodeText, TailText, Plain;
    if e == [] {
      EmptyPlain();
    } else {
      CodePlain(e[0][0]);
      TailPlain(e[0][1..]);
      PlainConcat(CodeText(e[0][0]), TailText(e[0][1..]));
      PlainConcat(sep, SequenceText(e[0]));
      SeparatorsPlain();
      DefsPlain(e[1..], [32]);
      PlainConcat(sep + SequenceText(e[0]), DefsText(e[1..], [32]));
    }
  }

  lemma {:induction false} BodyBack(s: seq<Byte>)
    requires Plain(s)
    ensures Body(s + [10]) == Some(s)
  {
    if s != [] {
      assert (s + [10])[1..] == s[1..] + [10];
      BodyBack(s[1..]);
      assert [s[0]] + s[1..] == s;
    }
  }

  lemma {:induction false} LineLengthBack(s: seq<Byte>, rest: seq<Byte>)
    requires Plain(s)
    ensures LineLength(s + [10] + rest) == |s| + 1
  {
    if s != [] {
      assert (s + [10] + rest)[1..] == s[1..] + [10] + rest;
      LineLengthBack(s[1..], rest);
    }
  }

  lemma {:induction false} NoBody(s: seq<Byte>)
    requires Plain(s)
    ensures Body(s) == None
  {
    if s != [] {
      NoBody(s[1..]);
    }
  }

  // A line is read as a whole if it fits, and refused otherwise.
  lemma ReadLine(s: seq<Byte>, rest: seq<Byte>, t: seq<Entry>)
    requires Plain(s)
    ensures ParseText(s + [10] + rest, t) ==
              if |s| >= LINE_MAX then Err(LineTooLong) else ParseOn(ParseLine(s + [10], t), rest)
  {
    hide ParseLine;
    var all := s + [10] + rest;
    LineLengthBack(s, rest);
    if |s| >= LINE_MAX {
      assert all[..LINE_MAX] == s[..LINE_MAX];
      NoBody(s[..LINE_MAX]);
      Unended(s[..LINE_MAX], t);
    } else {
      assert all[..|s| + 1] == s + [10] && all[|s| + 1..] == rest;
    }
  }

  lemma Unended(line: seq<Byte>, t: seq<Entry>)
    requires Body(line) == None
    ensures ParseLine(line, t) == Err(LineTooLong)
  {
  }

  lemma LineBack(i: nat, e: Entry, t: seq<Entry>)
    requires NoEmpty(e) && i < |t|
    ensures i <= INT_MAX ==> ParseLine(LineOf(i, e), t) == Ok(Appended(t, i, ReadBackDefs(e)))
    ensures i > INT_MAX ==> ParseLine(LineOf(i, e), t).Err?
  {
    hide PositionText, DefsText, Defs, Plain, Body, Positions;
    var position, defs := PositionText(i), DefsText(e, []);
    var body := position + defs;
    PositionPlain(i);
    EmptyPlain();
    DefsPlain(e, []);
    PlainConcat(position, defs);
    BodyBack(body);
    assert body[0] == '0' as int;
    NoBlank(body);
    PositionsBack(i, defs, |t|);
  }

  lemma PositionsBack(i: nat, defs: seq<Byte>, fontlen: nat)
    requires i < fontlen
    ensures i <= INT_MAX ==> Positions(PositionText(i) + defs, fontlen) == Ok((i, 0, [9] + defs))
    ensures i > INT_MAX ==> Positions(PositionText(i) + defs, fontlen).Err?
  {
    hide PositionText, StrToL, StrToUnicode;
    PositionBack(i, defs);
    NumberBack(PositionText(i) + defs, i, [9] + defs);
  }

  lemma NumberBack(s: seq<Byte>, v: nat, rest: seq<Byte>)
    requires StrToL(s, 0) == Some((v, rest))
    ensures StrToUnicode(s) ==
              if v > LONG_MAX then Err(OutOfRange) else if v > INT_MAX then Err(TooBig) else Ok((v, rest))
  {
  }

  // ---------------------------------------------------------------- whole tables

  lemma CommentSkipped(s: seq<Byte>, t: seq<Entry>)
    requires Plain(s) && StartsWith(s, '#')
    ensures ParseLine(s + [10], t) == Ok(t)
  {
    hide Plain, Body;
    BodyBack(s);
    NoBlank(s);
  }

  lemma CommentLines()
    ensures Plain(Text("#")) && StartsWith(Text("#"), '#')
    ensures Plain(Title()) && StartsWith(Title(), '#')
    ensures |Text("#")| == 1 && |Title()| < LINE_MAX
  {
  }

  lemma SixParts(a: seq<Byte>, b: seq<Byte>, c: seq<Byte>, n: seq<Byte>, rest: seq<Byte>)
    ensures a + n + b + n + c + n + rest == a + n + (b + n + (c + n + rest))
  {
  }

  lemma HeadingSkipped(rest: seq<Byte>, t: seq<Entry>)
    ensures ParseText(Heading() + rest, t) == ParseText(rest, t)
  {
    hide ParseLine, ParseText, Plain, Title, Text;
    var hash, title := Text("#"), Title();
    var after2 := hash + [10] + rest;
    var after1 := title + [10] + after2;
    SixParts(hash, title, hash, [10], rest);
    CommentLines();
    CommentSkipped(hash, t);
    CommentSkipped(title, t);
    ReadLine(hash, after1, t);
    ReadLine(title, after2, t);
    ReadLine(hash, rest, t);
  }

  // The line of a glyph fits fgets' buffer, and its position fits an int.
  predicate LineFits(i: nat, e: Entry)
    requires NoEmpty(e)
  {
    i <= INT_MAX && |LineOf(i, e)| <= LINE_MAX
  }

  predicate LinesFit(t: seq<Entry>, i: nat)
    requires AllNoEmpty(t)
  {
    forall j | i <= j < |t| :: LineFits(j, t[j])
  }

  // The entries from i on, as they are read back.
  function ReadBackFrom(t: seq<Entry>, i: nat, acc: seq<Entry>): (r: seq<Entry>)
    requires AllNoEmpty(t) && |acc| == |t|
    ensures |r| == |t|
  {
    seq(|t|, j requires 0 <= j < |t| => if i <= j then acc[j] + ReadBackDefs(t[j]) else acc[j])
  }

  lemma ReadGlyphLine(t: seq<Entry>, i: nat, acc: seq<Entry>)
    requires AllNoEmpty(t) && |acc| == |t| && i < |t|
    ensures var r := ParseText(LinesFrom(t, i), acc);
            if LineFits(i, t[i])
            then r == ParseText(LinesFrom(t, i + 1), Appended(acc, i, ReadBackDefs(t[i])))
            else r.Err?
  {
    hide ParseLine, ParseText, PositionText, DefsText, Plain, Defs;
    var s := PositionText(i) + DefsText(t[i], []);
    PositionPlain(i);
    EmptyPlain();
    DefsPlain(t[i], []);
    PlainConcat(PositionText(i), DefsText(t[i], []));
    assert LineOf(i, t[i]) == s + [10] && LinesFrom(t, i) == s + [10] + LinesFrom(t, i + 1);
    ReadLine(s, LinesFrom(t, i + 1), acc);
    LineBack(i, t[i], acc);
  }

  lemma {:induction false} ReadLinesBack(t: seq<Entry>, i: nat, acc: seq<Entry>)
    requires AllNoEmpty(t) && |acc| == |t| && i <= |t|
    ensures if LinesFit(t, i) then ParseText(LinesFrom(t, i), acc) == Ok(ReadBackFrom(t, i, acc))
            else ParseText(LinesFrom(t, i), acc).Err?
    decreases |t| - i
  {
    hide ParseLine, ParseText, LineFits, ReadBackDefs, LineOf;
    if i == |t| {
      assert ReadBackFrom(t, i, acc) == acc;
      NothingLeft(acc);
    } else {
      var acc' := Appended(acc, i, ReadBackDefs(t[i]));
      ReadGlyphLine(t, i, acc);
      ReadLinesBack(t, i + 1, acc');
      assert LinesFit(t, i) <==> LineFits(i, t[i]) && LinesFit(t, i + 1);
      assert ReadBackFrom(t, i + 1, acc') == ReadBackFrom(t, i, acc);
    }
  }

  lemma NothingLeft(acc: seq<Entry>)
    ensures ParseText([], acc) == Ok(acc)
  {
  }

  // Reading the table that was written gives it back exactly when all code points have 16 bits and
  // every line fits.  Nothing is assumed of the order of single code points and sequences.
  lemma TextRoundTripIff(t: seq<Entry>)
    requires AllNoEmpty(t)
    ensures ParseText(EncodeText(t), EmptyTable(|t|)) == Ok(t) <==>
              LinesFit(t, 0) && forall i | 0 <= i < |t| :: AllUcs2(t[i])
  {
    hide ParseText, LinesFrom, LineFits, Heading, ReadBackDefs, AllUcs2;
    HeadingSkipped(LinesFrom(t, 0), EmptyTable(|t|));
    ReadLinesBack(t, 0, EmptyTable(|t|));
    var r := ReadBackFrom(t, 0, EmptyTable(|t|));
    forall i | 0 <= i < |t|
      ensures r[i] == t[i] <==> AllUcs2(t[i])
    {
      DefsBackIff(t[i]);
      assert [] + ReadBackDefs(t[i]) == ReadBackDefs(t[i]);
    }
    if r == t {
      assert forall i | 0 <= i < |t| :: r[i] == t[i];
    }
  }
}
