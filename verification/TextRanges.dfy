/**
  psfxtable.c:111-181: lines of the human-readable table that give a range of glyphs their code points at once, and
  the forms a number can have.
 */
module TextRanges {
  import opened Bytes
  import opened PsfTable
  import opened TextTable

  // ---------------------------------------------------------------- numbers

  // Digits of n in a base up to 16, the most significant first.
  function Digits(n: nat, base: nat): (d: seq<Byte>)
    requires 2 <= base <= 16
    ensures d != []
  {
    if n < base then [HexDigit(n)] else Digits(n / base, base) + [HexDigit(n % base)]
  }

  predicate AllBelow(d: seq<Byte>, base: nat) {
    forall i | 0 <= i < |d| :: DigitValue(d[i]) < base
  }

  lemma {:induction false} DigitsBack(n: nat, base: nat)
    requires 2 <= base <= 16
    ensures Value(Digits(n, base), base) == n && AllBelow(Digits(n, base), base)
    ensures n > 0 ==> Digits(n, base)[0] != '0' as int
  {
    hide DigitValue, HexDigit, Value;
    if n < base {
      NoDigitIsZero(n);
      OneDigit(n, base);
    } else {
      Quotient(n, base);
      var q, r := n / base, n % base;
      HexDigitBack(r);
      DigitsBack(q, base);
      PushDigit(Digits(q, base), HexDigit(r), base);
    }
  }

  lemma OneDigit(n: nat, base: nat)
    requires n < base <= 16
    ensures Value([HexDigit(n)], base) == n && DigitValue(HexDigit(n)) < base
  {
    HexDigitBack(n);
    assert [HexDigit(n)][..0] == [];
  }

  lemma PushDigit(d: seq<Byte>, c: Byte, base: nat)
    ensures Value(d + [c], base) == Value(d, base) * base + DigitValue(c)
  {
    assert (d + [c])[..|d|] == d;
  }

  lemma Quotient(n: nat, base: nat)
    requires 2 <= base <= n
    ensures 0 < n / base < n && n == n / base * base + n % base && n % base < base
  {
  }

  lemma NoDigitIsZero(n: nat)
    requires n < 16
    ensures n > 0 ==> HexDigit(n) != '0' as int
  {
  }

  // No digit of the base follows.
  predicate Ends(rest: seq<Byte>, base: nat) {
    rest == [] || DigitValue(rest[0]) >= base
  }

  lemma {:induction false} CountBelow(d: seq<Byte>, rest: seq<Byte>, base: nat)
    requires AllBelow(d, base) && Ends(rest, base)
    ensures DigitCount(d + rest, base) == |d|
  {
    hide DigitValue;
    if d == [] {
      assert d + rest == rest;
    } else {
      assert (d + rest)[1..] == d[1..] + rest;
      CountBelow(d[1..], rest, base);
    }
  }

  // A number as a position may be written: decimal, octal with a leading 0, or hexadecimal with 0x.
  function NumberText(n: nat, base: nat): (s: seq<Byte>)
    requires base == 8 || base == 10 || base == 16
    ensures s != []
  {
    if base == 8 then ['0' as int] + Digits(n, 8)
    else if base == 10 then Digits(n, 10)
    else ['0' as int, 'x' as int] + Digits(n, 16)
  }

  // Every form is read as the number it stands for; what does not fit an int is refused.
  lemma NumberTextBack(n: nat, base: nat, rest: seq<Byte>)
    requires base == 8 || base == 16 || (base == 10 && n > 0)
    requires Ends(rest, base)
    ensures StrToL(NumberText(n, base) + rest, 0) == Some((n, rest))
    ensures n <= INT_MAX ==> StrToUnicode(NumberText(n, base) + rest) == Ok((n, rest))
    ensures n > INT_MAX ==> StrToUnicode(NumberText(n, base) + rest).Err?
  {
    hide DigitValue, HexDigit, Digits, DigitCount, Value;
    var d := Digits(n, base);
    var s := NumberText(n, base) + rest;
    DigitsBack(n, base);
    CountBelow(d, rest, base);
    DigitIsPlain(d[0], base);
    if base == 8 {
      assert s[0] == '0' as int && s[1] == d[0];
      CountBelow(['0' as int] + d, rest, 8);
      ZeroFirst(d, 8);
      assert ['0' as int] + d + rest == s && s[..|d| + 1] == ['0' as int] + d && s[|d| + 1..] == rest;
    } else if base == 10 {
      assert s[0] == d[0] && s[..|d|] == d && s[|d|..] == rest;
    } else {
      assert s[0] == '0' as int && s[1] == 'x' as int && s[2] == d[0] && s[2..] == d + rest;
      assert s[2..][..|d|] == d && s[2..][|d|..] == rest;
    }
    NoSpace(s);
  }

  // Spaces and a plus sign in front of a number do not matter; a minus sign before one above 0 is refused.
  lemma SignedNumber(n: nat, spaces: seq<Byte>, rest: seq<Byte>)
    requires Ends(rest, 16) && n <= INT_MAX && forall i | 0 <= i < |spaces| :: spaces[i] == 32 || 9 <= spaces[i] <= 13
    ensures StrToUnicode(spaces + NumberText(n, 16) + rest) == Ok((n, rest))
    ensures StrToUnicode(spaces + ['+' as int] + NumberText(n, 16) + rest) == Ok((n, rest))
    ensures n > 0 ==> StrToUnicode(spaces + ['-' as int] + NumberText(n, 16) + rest) == Err(Negative)
  {
    hide NumberText, StrToL, StrToUnicode;
    var s := NumberText(n, 16) + rest;
    var plus, minus := ['+' as int] + s, ['-' as int] + s;
    NumberTextBack(n, 16, rest);
    NumberPlain(n);
    assert s[0] == '0' as int;
    Signs(spaces, s);
    assert spaces + NumberText(n, 16) + rest == spaces + s;
    assert spaces + ['+' as int] + NumberText(n, 16) + rest == spaces + plus;
    assert spaces + ['-' as int] + NumberText(n, 16) + rest == spaces + minus;
    SameNumber(spaces + s, s);
    SameNumber(spaces + plus, s);
    if n > 0 {
      NegativeRefused(spaces + minus, 0 - n, rest);
    }
  }

  lemma Signs(spaces: seq<Byte>, s: seq<Byte>)
    requires s != [] && s[0] == '0' as int
    requires forall i | 0 <= i < |spaces| :: spaces[i] == 32 || 9 <= spaces[i] <= 13
    ensures StrToL(spaces + s, 0) == StrToL(s, 0) && StrToL(spaces + (['+' as int] + s), 0) == StrToL(s, 0)
    ensures StrToL(spaces + (['-' as int] + s), 0) ==
              match StrToL(s, 0) case None => None case Some(r) => Some((-r.0, r.1))
  {
    hide Prefix, DigitCount, Value;
    var plus, minus := ['+' as int] + s, ['-' as int] + s;
    SpacesSkipped(spaces, s);
    SpacesSkipped(spaces, plus);
    SpacesSkipped(spaces, minus);
    assert plus[1..] == s && minus[1..] == s;
    NoSpace(s);
    NoSpace(plus);
    NoSpace(minus);
  }

  lemma SameNumber(s: seq<Byte>, s': seq<Byte>)
    requires StrToL(s, 0) == StrToL(s', 0)
    ensures StrToUnicode(s) == StrToUnicode(s')
  {
  }

  lemma NegativeRefused(s: seq<Byte>, v: int, rest: seq<Byte>)
    requires StrToL(s, 0) == Some((v, rest)) && -INT_MAX <= v < 0
    ensures StrToUnicode(s) == Err(Negative)
  {
  }

  lemma {:induction false} SpacesSkipped(spaces: seq<Byte>, s: seq<Byte>)
    requires forall i | 0 <= i < |spaces| :: spaces[i] == 32 || 9 <= spaces[i] <= 13
    ensures SkipSpace(spaces + s) == SkipSpace(s)
  {
    if spaces == [] {
      assert spaces + s == s;
    } else {
      assert (spaces + s)[1..] == spaces[1..] + s;
      SpacesSkipped(spaces[1..], s);
    }
  }

  lemma DigitIsPlain(c: Byte, base: nat)
    requires DigitValue(c) < base <= 16
    ensures !IsSpace(c) && c != '-' as int && c != '+' as int && IsXdigit(c) && c != 'x' as int && c != 'X' as int
    ensures !IsSpace('0' as int) && DigitValue('0' as int) == 0
  {
  }

  lemma {:induction false} ZeroFirst(d: seq<Byte>, base: nat)
    ensures Value(['0' as int] + d, base) == Value(d, base)
    ensures DigitValue('0' as int) == 0
  {
    var s := ['0' as int] + d;
    if d == [] {
      assert s[..0] == [];
    } else {
      ZeroFirst(d[..|d| - 1], base);
      assert s[..|s| - 1] == ['0' as int] + d[..|d| - 1];
    }
  }

  // ---------------------------------------------------------------- range lines

  // <first>-<last><tab><what>
  function RangeLine(first: nat, last: nat, what: seq<Byte>): seq<Byte> {
    NumberText(first, 16) + ['-' as int] + NumberText(last, 16) + [9] + what + [10]
  }

  function CodeRange(u: int, u': int): seq<Byte> {
    CodeText(u) + ['-' as int] + CodeText(u')
  }

  lemma NumberPlain(n: nat)
    ensures Plain(NumberText(n, 16)) && NumberText(n, 16)[0] == '0' as int
  {
    hide DigitValue, Digits;
    var d := Digits(n, 16);
    DigitsBack(n, 16);
    assert AllXdigits(d);
    XdigitsPlain(d);
  }

  lemma RangePositions(first: nat, last: nat, what: seq<Byte>, fontlen: nat)
    requires first <= INT_MAX && last <= INT_MAX
    ensures var r := Positions(NumberText(first, 16) + ['-' as int] + NumberText(last, 16) + [9] + what, fontlen);
            && (first >= fontlen ==> r == Err(PastEnd))
            && (first < fontlen && last != 0 && (last < first || last >= fontlen) ==> r == Err(BadRangeEnd))
            && (first < fontlen && (last == 0 || first <= last < fontlen) ==> r == Ok((first, last, [9] + what)))
  {
    hide NumberText, StrToUnicode;
    var a, b, dash, tail := NumberText(first, 16), NumberText(last, 16), ['-' as int], [9] + what;
    assert a + dash + b + [9] + what == a + (dash + (b + tail));
    assert (dash + (b + tail))[1..] == b + tail;
    NumberTextBack(first, 16, dash + (b + tail));
    NumberTextBack(last, 16, tail);
  }

  lemma LineParsed(first: nat, last: nat, what: seq<Byte>, t: seq<Entry>)
    requires first <= INT_MAX && last <= INT_MAX && Plain(what)
    ensures var r := ParseLine(RangeLine(first, last, what), t);
            && (first >= |t| ==> r == Err(PastEnd))
            && (first < |t| && last != 0 && (last < first || last >= |t|) ==> r == Err(BadRangeEnd))
            && (0 < last && first <= last < |t| ==>
                  r == match RangeOffset([9] + what, first, last)
                       case Err(x) => Err(x)
                       case Ok(offset) => Ok(AddRange(t, first, last, offset)))
  {
    hide NumberText, Positions, Plain, Body, RangeOffset, AddRange;
    var a, b := NumberText(first, 16), NumberText(last, 16);
    var body := a + ['-' as int] + b + [9] + what;
    NumberPlain(first);
    NumberPlain(last);
    Separators();
    PlainConcat(a, ['-' as int]);
    PlainConcat(a + ['-' as int], b);
    PlainConcat(a + ['-' as int] + b, [9]);
    PlainConcat(a + ['-' as int] + b + [9], what);
    BodyBack(body);
    assert RangeLine(first, last, what) == body + [10];
    assert body[0] == a[0];
    NoBlank(body);
    RangePositions(first, last, what, |t|);
  }

  lemma Separators()
    ensures Plain(['-' as int]) && Plain([9]) && Plain(Text("idem"))
  {
  }

  lemma OffsetBack(u: int, u': int, first: nat, last: nat)
    requires 0 <= u <= 0xFFFF && 0 <= u' <= 0xFFFF
    ensures RangeOffset([9] + CodeRange(u, u'), first, last) ==
              if u' - u == last - first then Ok(u - first) else Err(RangesDiffer)
    ensures RangeOffset([9] + CodeText(u), first, last) == Err(NoUnicodeRange)
    ensures RangeOffset([9] + Text("idem"), first, last) == Ok(0)
  {
    hide CodeText, GetUnicode;
    var dash := ['-' as int];
    CodeBack(u, dash + CodeText(u'));
    CodeBack(u', []);
    CodeBack(u, []);
    assert CodeText(u') + [] == CodeText(u') && CodeText(u) + [] == CodeText(u);
    assert CodeRange(u, u') == CodeText(u) + (dash + CodeText(u'));
    assert (dash + CodeText(u'))[1..] == CodeText(u');
    NoBlank(dash + CodeText(u'));
    TabSkipped(CodeRange(u, u'));
    TabSkipped(CodeText(u));
    TabSkipped(Text("idem"));
    assert CodeText(u)[0] == CodeRange(u, u')[0] == 'U' as int != Text("idem")[0];
    assert SkipBlanks([]) == [];
  }

  lemma TabSkipped(s: seq<Byte>)
    requires s != [] && !IsBlank(s[0])
    ensures SkipBlanks([9] + s) == s
  {
    assert ([9] + s)[1..] == s;
    NoBlank(s);
  }

  // What a range of glyphs and a range of code points mean: glyph by glyph one code point more, counted up
  // from the first; and every way in which such a line is refused.
  lemma RangeLineBack(first: nat, last: nat, u: int, u': int, t: seq<Entry>)
    requires first <= INT_MAX && last <= INT_MAX && 0 <= u <= 0xFFFF && 0 <= u' <= 0xFFFF
    ensures var r := ParseLine(RangeLine(first, last, CodeRange(u, u')), t);
            && (0 < last && first <= last < |t| && u' - u == last - first ==>
                  && r.Ok? && |r.value| == |t|
                  && forall i | 0 <= i < |t| ::
                       r.value[i] == if first <= i <= last then t[i] + [[u + (i - first)]] else t[i])
            && (0 < last && first <= last < |t| && u' - u != last - first ==> r == Err(RangesDiffer))
            && (first >= |t| ==> r == Err(PastEnd))
            && (first < |t| && last != 0 && (last < first || last >= |t|) ==> r == Err(BadRangeEnd))
  {
    hide CodeText, RangeOffset, Plain, ParseLine;
    CodePlain(u);
    CodePlain(u');
    Separators();
    PlainConcat(CodeText(u), ['-' as int]);
    PlainConcat(CodeText(u) + ['-' as int], CodeText(u'));
    LineParsed(first, last, CodeRange(u, u'), t);
    OffsetBack(u, u', first, last);
  }

  // `idem` gives every glyph of the range its own number; one code point is not enough for a range.
  lemma IdemLineBack(first: nat, last: nat, u: int, t: seq<Entry>)
    requires 0 < last && first <= last < |t| && last <= INT_MAX && 0 <= u <= 0xFFFF
    ensures var r := ParseLine(RangeLine(first, last, Text("idem")), t);
            && r.Ok? && |r.value| == |t|
            && forall i | 0 <= i < |t| :: r.value[i] == if first <= i <= last then t[i] + [[i]] else t[i]
    ensures ParseLine(RangeLine(first, last, CodeText(u)), t) == Err(NoUnicodeRange)
  {
    hide CodeText, RangeOffset, Plain, ParseLine, Text;
    CodePlain(u);
    Separators();
    LineParsed(first, last, Text("idem"), t);
    LineParsed(first, last, CodeText(u), t);
    OffsetBack(u, u, first, last);
  }

  // ---------------------------------------------------------------- other lines

  predicate Blanks(s: seq<Byte>) {
    forall i | 0 <= i < |s| :: s[i] == 32 || s[i] == 9
  }

  lemma {:induction false} BlanksSkipped(s: seq<Byte>, rest: seq<Byte>)
    requires Blanks(s)
    ensures SkipBlanks(s + rest) == SkipBlanks(rest)
  {
    if s == [] {
      assert s + rest == rest;
    } else {
      assert (s + rest)[1..] == s[1..] + rest;
      BlanksSkipped(s[1..], rest);
    }
  }

  // Blank lines, and blanks followed by # and anything, say nothing; and blanks in front of a line do not
  // matter.
  lemma IgnoredLines(blanks: seq<Byte>, text: seq<Byte>, t: seq<Entry>)
    requires Blanks(blanks) && Plain(text)
    ensures ParseLine(blanks + [10], t) == Ok(t)
    ensures text != [] && text[0] == '#' as int ==> ParseLine(blanks + text + [10], t) == Ok(t)
    ensures ParseLine(blanks + text + [10], t) == ParseLine(text + [10], t)
  {
    hide Body;
    BodyBack(blanks);
    BodyBack(text);
    BodyBack(blanks + text);
    BlanksSkipped(blanks, []);
    BlanksSkipped(blanks, text);
    assert blanks + [] == blanks && SkipBlanks([]) == [];
    if text != [] && text[0] == '#' as int {
      NoBlank(text);
    }
  }

  // Capital and small hexadecimal digits are the same.
  lemma {:induction false} CapitalDigits(d: seq<Byte>, e: seq<Byte>)
    requires |d| == |e| && forall i | 0 <= i < |d| :: e[i] == d[i] || (97 <= d[i] <= 102 && e[i] == d[i] - 32)
    ensures Value(e, 16) == Value(d, 16)
  {
    if d != [] {
      CapitalDigits(d[..|d| - 1], e[..|e| - 1]);
      if e[|e| - 1] != d[|d| - 1] {
        Capital(d[|d| - 1]);
      }
    }
  }

  lemma Capital(c: Byte)
    requires 97 <= c <= 102
    ensures DigitValue(c) == DigitValue(c - 32)
  {
  }
}
