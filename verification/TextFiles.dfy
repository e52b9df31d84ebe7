/**
  psfxtable.c:73-287: the readers and writers of the human-readable Unicode table, over the linked lists
  of unicode.c.
 */
module TextFiles {
  import opened Bytes
  import opened UnicodeLists
  import opened PsfTable
  import opened PsfFont
  import opened PsfReader
  import opened TextTable

  // ---------------------------------------------------------------- changing one of several entries

  lemma SelfInRepr(heads: seq<UnicodeList>)
    requires AllValid(heads)
    ensures forall j | 0 <= j < |heads| :: heads[j] in heads[j].Repr
  {
    forall j | 0 <= j < |heads|
      ensures heads[j] in heads[j].Repr
    {
      assert heads[j].Valid();
    }
  }

  ghost function Reprs(heads: seq<UnicodeList>): (r: seq<set<object>>)
    reads heads
    ensures |r| == |heads| && forall j | 0 <= j < |heads| :: r[j] == heads[j].Repr
  {
    seq(|heads|, j requires 0 <= j < |heads| reads heads => heads[j].Repr)
  }

  lemma FootprintParts(heads: seq<UnicodeList>)
    ensures forall j | 0 <= j < |heads| :: Reprs(heads)[j] <= Footprint(heads)
  {
  }

  // The memory of the entries when only that of entry i changed.
  lemma FootprintBound(heads: seq<UnicodeList>, i: nat, reprs: seq<set<object>>, foot: set<object>)
    requires i < |heads| == |reprs| && Reprs(heads) == reprs[i := heads[i].Repr]
    requires forall j | 0 <= j < |reprs| :: reprs[j] <= foot
    ensures Footprint(heads) <= foot + heads[i].Repr
  {
    forall o | o in Footprint(heads)
      ensures o in foot + heads[i].Repr
    {
      var j :| 0 <= j < |heads| && o in heads[j].Repr;
      if j != i {
        assert Reprs(heads)[j] == reprs[j];
      }
    }
  }

  // Every entry is as it was, but for entry i.
  lemma HeadsWith(heads: seq<UnicodeList>, i: nat, reprs: seq<set<object>>, t: seq<seq<seq<Unicode>>>)
    requires i < |heads| == |reprs| == |t| && AllValid(heads)
    requires forall j | 0 <= j < |heads| && j != i :: heads[j].Repr == reprs[j] && heads[j].Contents == t[j]
    requires forall j, k | 0 <= j < k < |heads| :: reprs[j] !! reprs[k]
    requires forall j | 0 <= j < |heads| && j != i :: heads[i].Repr !! reprs[j]
    ensures ValidHeads(heads) && Tables(heads) == t[i := heads[i].Contents]
    ensures Reprs(heads) == reprs[i := heads[i].Repr]
  {
    hide UnicodeList.Valid;
  }

  // addpair on entry i.  The memory of all entries lies within `foot` before and within `foot'` after.
  method AddPairAt(heads: seq<UnicodeList>, i: nat, uc: Unicode, ghost foot: set<object>)
    returns (ghost foot': set<object>)
    requires ValidHeads(heads) && i < |heads| && Footprint(heads) <= foot
    modifies heads[i].Repr
    ensures ValidHeads(heads) && Footprint(heads) <= foot' && foot <= foot' && fresh(foot' - foot)
    ensures Tables(heads) == Appended(old(Tables(heads)), i, [[uc]])
  {
    hide UnicodeList.Valid, Footprint, Tables, Reprs;
    ghost var reprs, t := Reprs(heads), Tables(heads);
    SelfInRepr(heads);
    FootprintParts(heads);
    assert heads[i].Valid();
    heads[i].AddPair(uc);
    forall j | 0 <= j < |heads|
      ensures heads[j].Valid()
      ensures j != i ==> heads[j].Repr == reprs[j] && heads[j].Contents == t[j]
    {
      assert j != i ==> old(heads[j].Valid()) && reprs[j] !! reprs[i];
    }
    HeadsWith(heads, i, reprs, t);
    FootprintBound(heads, i, reprs, foot);
    foot' := foot + heads[i].Repr;
  }

  // ---------------------------------------------------------------- one entry

  // The text from p on; the terminating null byte is not part of it.
  method SkipBlanksAt(buf: seq<Byte>, p: nat) returns (p': nat)
    requires p <= |buf|
    ensures p <= p' <= |buf| && buf[p'..] == SkipBlanks(buf[p..])
  {
    p' := p;
    while p' < |buf| && (buf[p'] == 32 || buf[p'] == 9)
      invariant p <= p' <= |buf| && SkipBlanks(buf[p'..]) == SkipBlanks(buf[p..])
    {
      assert buf[p'..][1..] == buf[p' + 1..];
      p' := p' + 1;
    }
  }

  // getunicode
  method GetUnicodeAt(buf: seq<Byte>, p: nat) returns (res: Option<Unicode>, p': nat)
    requires p <= |buf|
    ensures p <= p' <= |buf|
    ensures match GetUnicode(buf[p..])
            case None => res == None && p' == p
            case Some((u, rest)) => res == Some(u) && p < p' && buf[p'..] == rest
  {
    hide SkipBlanks, Value, DigitValue;
    var q := SkipBlanksAt(buf, p);
    var r := buf[q..];
    if |r| < 6 || r[0] != 'U' as int || r[1] != '+' as int
       || !IsXdigit(r[2]) || !IsXdigit(r[3]) || !IsXdigit(r[4]) || !IsXdigit(r[5])
       || (|r| > 6 && IsXdigit(r[6])) {
      return None, p;
    }
    FourDigitsRead(r);
    GetUnicodeUcs2(buf[p..]);
    var number := StrToL(buf[q + 2..], 16);
    assert buf[q + 2..] == r[2..] && buf[q + 6..] == r[6..];
    return Some(number.value.0), q + 6;
  }

  // strtol reads just the four digits.
  lemma FourDigitsRead(r: seq<Byte>)
    requires IsCodeText(r)
    ensures StrToL(r[2..], 16) == Some((Value(r[2..6], 16), r[6..]))
  {
    hide Value, SkipSpace, DigitCount;
    var s, d := r[2..], r[2..6];
    assert s == d + r[6..] && s[0] == r[2] && s[1] == r[3];
    assert AllXdigits(d) && Stops(r[6..]);
    CountAll(d, r[6..]);
    XdigitIsNoSpace(s);
    NoSpace(s);
    assert s[..4] == d && s[4..] == r[6..];
  }

  lemma XdigitIsNoSpace(s: seq<Byte>)
    requires |s| >= 2 && IsXdigit(s[0]) && IsXdigit(s[1])
    ensures !IsSpace(s[0]) && s[0] != '-' as int && s[0] != '+' as int && s[1] != 'x' as int && s[1] != 'X' as int
  {
  }

  // psfxtable.c:190-196: the rest of a sequence
  method ParseRest(up: UnicodeList, buf: seq<Byte>, p: nat) returns (p': nat)
    requires up.Valid() && up.Contents != [] && p <= |buf|
    modifies up.Repr
    ensures up.Valid() && fresh(up.Repr - old(up.Repr)) && p <= p' <= |buf|
    ensures var (codes, left) := SequenceRest(buf[p..]);
            up.Contents == ExtendLast(old(up.Contents), codes) && buf[p'..] == left
  {
    hide UnicodeList.Valid, GetUnicode;
    p' := p;
    ghost var done: seq<Unicode> := [];
    ghost var was := up.Contents;
    ExtendNothing(was);
    PrependedNothing(SequenceRest(buf[p..]));
    while p' < |buf| && buf[p'] == ',' as int
      invariant up.Valid() && fresh(up.Repr - old(up.Repr)) && p <= p' <= |buf|
      invariant up.Contents == ExtendLast(was, done)
      invariant SequenceRest(buf[p..]) == Prepended(done, SequenceRest(buf[p'..]))
    {
      assert buf[p'..][1..] == buf[p' + 1..];
      var un1, next := GetUnicodeAt(buf, p' + 1);
      if un1 == None {
        assert done + [] == done;
        return;
      }
      up.AddSeq(un1.value);
      ExtendMore(was, done, un1.value);
      PrependedPush(done, un1.value, SequenceRest(buf[next..]));
      done := done + [un1.value];
      p' := next;
    }
    assert done + [] == done;
  }

  lemma ExtendNothing(e: Entry)
    requires e != []
    ensures ExtendLast(e, []) == e
  {
    assert e[|e| - 1] + [] == e[|e| - 1];
  }

  lemma ExtendMore(e: Entry, s: seq<int>, u: int)
    requires e != []
    ensures ExtendLast(ExtendLast(e, s), [u]) == ExtendLast(e, s + [u])
  {
    Assoc3(e[|e| - 1], s, [u]);
  }

  function Prepended(done: seq<int>, r: (seq<int>, seq<Byte>)): (seq<int>, seq<Byte>) {
    (done + r.0, r.1)
  }

  lemma PrependedPush(done: seq<int>, u: int, r: (seq<int>, seq<Byte>))
    ensures Prepended(done, Prepended([u], r)) == Prepended(done + [u], r)
  {
    Assoc3(done, [u], r.0);
  }

  lemma PrependedNothing(r: (seq<int>, seq<Byte>))
    ensures Prepended([], r) == r
  {
    assert [] + r.0 == r.0;
  }

  lemma DefsUnfold(s: seq<Byte>)
    ensures match GetUnicode(s)
            case None => Defs(s) == []
            case Some((u, rest)) =>
              var (codes, left) := SequenceRest(rest); Defs(s) == [[u] + codes] + Defs(left)
  {
  }

  // psfxtable.c:184-197: addseq is reached only behind an addpair.
  method ParseDefs(up: UnicodeList, buf: seq<Byte>, p: nat)
    requires up.Valid() && p <= |buf|
    modifies up.Repr
    ensures up.Valid() && fresh(up.Repr - old(up.Repr))
    ensures up.Contents == old(up.Contents) + Defs(buf[p..])
  {
    hide UnicodeList.Valid, GetUnicode, Defs, SequenceRest;
    ghost var was, done := up.Contents, [];
    var q := p;
    while true
      invariant up.Valid() && fresh(up.Repr - old(up.Repr)) && p <= q <= |buf|
      invariant up.Contents == was + done && Defs(buf[p..]) == done + Defs(buf[q..])
      decreases |buf| - q
    {
      DefsUnfold(buf[q..]);
      var un0, next := GetUnicodeAt(buf, q);
      if un0 == None {
        assert done + [] == done;
        return;
      }
      ghost var codes := SequenceRest(buf[next..]).0;
      up.AddPair(un0.value);
      q := ParseRest(up, buf, next);
      OneMore(was, done, un0.value, codes);
      Assoc3(done, [[un0.value] + codes], Defs(buf[q..]));
      done := done + [[un0.value] + codes];
    }
  }

  lemma OneMore(was: Entry, done: Entry, u: int, codes: seq<int>)
    ensures ExtendLast(was + done + [[u]], codes) == was + (done + [[u] + codes])
  {
    Assoc3(was, done, [[u]]);
    assert (was + done + [[u]])[|was + done|] == [u];
  }

  method AddDefsAt(heads: seq<UnicodeList>, i: nat, buf: seq<Byte>, p: nat, ghost foot: set<object>)
    returns (ghost foot': set<object>)
    requires ValidHeads(heads) && i < |heads| && p <= |buf| && Footprint(heads) <= foot
    modifies heads[i].Repr
    ensures ValidHeads(heads) && Footprint(heads) <= foot' && foot <= foot' && fresh(foot' - foot)
    ensures Tables(heads) == Appended(old(Tables(heads)), i, Defs(buf[p..]))
  {
    hide UnicodeList.Valid, Footprint, Tables, Reprs, Defs;
    ghost var reprs, t := Reprs(heads), Tables(heads);
    SelfInRepr(heads);
    FootprintParts(heads);
    assert heads[i].Valid();
    ParseDefs(heads[i], buf, p);
    forall j | 0 <= j < |heads|
      ensures heads[j].Valid()
      ensures j != i ==> heads[j].Repr == reprs[j] && heads[j].Contents == t[j]
    {
      assert j != i ==> old(heads[j].Valid()) && reprs[j] !! reprs[i];
    }
    HeadsWith(heads, i, reprs, t);
    FootprintBound(heads, i, reprs, foot);
    foot' := foot + heads[i].Repr;
  }

  // psfxtable.c:141-147 and 175-181: a code point for each glyph of a range
  method AddRangeAt(heads: seq<UnicodeList>, fp0: nat, fp1: nat, offset: int, ghost foot: set<object>)
    returns (ghost foot': set<object>)
    requires ValidHeads(heads) && fp0 <= fp1 < |heads| && Footprint(heads) <= foot
    requires -0x8000_0000 <= fp0 + offset && fp1 + offset < 0x8000_0000
    modifies foot
    ensures ValidHeads(heads) && Footprint(heads) <= foot' && foot <= foot' && fresh(foot' - foot)
    ensures Tables(heads) == AddRange(old(Tables(heads)), fp0, fp1, offset)
  {
    hide ValidHeads, Footprint, Tables;
    ghost var t := Tables(heads);
    foot' := foot;
    RangeStart(t, fp0, offset);
    for i := fp0 to fp1 + 1
      invariant ValidHeads(heads) && Footprint(heads) <= foot' && foot <= foot' && fresh(foot' - foot)
      invariant Tables(heads) == AddRange(t, fp0, i - 1, offset)
    {
      FootprintParts(heads);
      assert Reprs(heads)[i] <= Footprint(heads);
      RangeStep(t, fp0, i, offset);
      foot' := AddPairAt(heads, i, i + offset, foot');
    }
  }

  lemma RangeStart(t: seq<Entry>, a: nat, offset: int)
    ensures AddRange(t, a, a - 1, offset) == t
  {
  }

  lemma RangeStep(t: seq<Entry>, a: nat, i: nat, offset: int)
    requires a <= i < |t|
    ensures Appended(AddRange(t, a, i - 1, offset), i, [[i + offset]]) == AddRange(t, a, i, offset)
  {
  }

  // ---------------------------------------------------------------- one line

  // psfxtable.c:97-102: the text before the newline
  method FindBody(line: seq<Byte>) returns (b: Option<seq<Byte>>)
    ensures b == Body(line)
  {
    var k := 0;
    assert line[0..] == line;
    if Body(line).Some? {
      assert line[..0] + Body(line).value == Body(line).value;
    }
    while k < |line| && line[k] != 0 && line[k] != 10
      invariant k <= |line|
      invariant Body(line) == match Body(line[k..]) case None => None case Some(r) => Some(line[..k] + r)
    {
      assert line[k..][1..] == line[k + 1..] && line[..k + 1] == line[..k] + [line[k]];
      if Body(line[k + 1..]).Some? {
        Assoc3(line[..k], [line[k]], Body(line[k + 1..]).value);
      }
      k := k + 1;
    }
    if k < |line| && line[k] == 10 {
      assert line[..k] + [] == line[..k];
      return Some(line[..k]);
    }
    return None;
  }

  // psfxtable.c:138-174
  method FindOffset(p: seq<Byte>, fp0: nat, fp1: nat) returns (r: Result<int, TextError>)
    requires fp0 <= fp1 <= INT_MAX
    ensures r == RangeOffset(p, fp0, fp1)
    ensures r.Ok? ==> 0 <= fp0 + r.value && fp1 + r.value <= INT_MAX
  {
    hide GetUnicode, SkipBlanks, Text;
    var at := SkipBlanksAt(p, 0);
    assert p[0..] == p;
    var q := p[at..];
    if |q| >= 4 && q[..4] == Text("idem") {
      return Ok(0);
    }
    assert q[0..] == q;
    GetUnicodeUcs2(q);
    var un0, next := GetUnicodeAt(q, 0);
    if un0 == None {
      return Err(NoUnicode);
    }
    var dash := SkipBlanksAt(q, next);
    if dash == |q| || q[dash] != '-' as int {
      return Err(NoUnicodeRange);
    }
    assert q[dash..][1..] == q[dash + 1..];
    GetUnicodeUcs2(q[dash + 1..]);
    var un1, _ := GetUnicodeAt(q, dash + 1);
    if un1 == None {
      return Err(NoUnicode);
    }
    if un1.value - un0.value != fp1 - fp0 {
      return Err(RangesDiffer);
    }
    return Ok(un0.value - fp0);
  }

  // psfxtable.c:111-133
  method FindPositions(p: seq<Byte>, fontlen: nat) returns (r: Result<(nat, nat, seq<Byte>), TextError>)
    ensures r == Positions(p, fontlen)
    ensures r.Ok? ==> r.value.0 < fontlen
                      && (r.value.1 != 0 ==> r.value.0 <= r.value.1 < fontlen && r.value.1 <= INT_MAX)
  {
    hide StrToL;
    var first := StrToUnicode(p);
    if first.Err? {
      return Err(first.error);
    }
    var fp0, rest := first.value.0, first.value.1;
    var fp1 := 0;
    if StartsWith(rest, '-') {
      var second := StrToUnicode(rest[1..]);
      if second.Err? {
        return Err(second.error);
      }
      fp1, rest := second.value.0, second.value.1;
    }
    if fp0 >= fontlen {
      return Err(PastEnd);
    }
    if fp1 != 0 && (fp1 < fp0 || fp1 >= fontlen) {
      return Err(BadRangeEnd);
    }
    return Ok((fp0, fp1, rest));
  }

  // parse_itab_line
  method ParseItabLine(line: seq<Byte>, heads: seq<UnicodeList>, ghost foot: set<object>)
    returns (err: Option<TextError>, ghost foot': set<object>)
    requires ValidHeads(heads) && Footprint(heads) <= foot
    modifies foot
    ensures ValidHeads(heads) && Footprint(heads) <= foot' && foot <= foot' && fresh(foot' - foot)
    ensures match ParseLine(line, old(Tables(heads)))
            case Err(x) => err == Some(x)
            case Ok(t) => err == None && Tables(heads) == t
  {
    hide ValidHeads, Footprint, Tables, Body, Positions, RangeOffset, Defs, AddRange;
    foot' := foot;
    err := None;
    var body := FindBody(line);
    if body == None {
      return Some(LineTooLong), foot;
    }
    var at := SkipBlanksAt(body.value, 0);
    assert body.value[0..] == body.value;
    var p := body.value[at..];
    if p == [] || p[0] == '#' as int {
      return;
    }
    var positions := FindPositions(p, |heads|);
    if positions.Err? {
      return Some(positions.error), foot;
    }
    var (fp0, fp1, rest) := positions.value;
    FootprintParts(heads);
    assert Reprs(heads)[fp0] <= Footprint(heads);
    if fp1 != 0 {
      var offset := FindOffset(rest, fp0, fp1);
      if offset.Err? {
        return Some(offset.error), foot;
      }
      foot' := AddRangeAt(heads, fp0, fp1, offset.value, foot);
    } else {
      assert rest[0..] == rest;
      foot' := AddDefsAt(heads, fp0, rest, 0, foot);
    }
  }

  // ---------------------------------------------------------------- the file

  // kfont_read_unicodetable.  The entries are cleared first, and lines read until there are no more.
  method ReadUnicodeTable(file: seq<Byte>, fontlen: nat) returns (err: Option<TextError>, heads: seq<UnicodeList>)
    ensures ValidHeads(heads) && |heads| == fontlen
    ensures match ParseText(file, EmptyTable(fontlen))
            case Err(x) => err == Some(x)
            case Ok(t) => err == None && Tables(heads) == t
  {
    hide ValidHeads, Footprint, Tables, ParseLine, UnicodeList.Valid, Chunk, LineLength;
    heads := ClearEntries(fontlen);
    ghost var foot := Footprint(heads);
    var at := 0;
    assert file[0..] == file;
    while at < |file|
      invariant at <= |file| && ValidHeads(heads) && |heads| == fontlen && Footprint(heads) <= foot && fresh(foot)
      invariant ParseText(file, EmptyTable(fontlen)) == ParseText(file[at..], Tables(heads))
    {
      var n := FgetsLength(file, at);
      assert file[at..][..n] == file[at..at + n] && file[at..][n..] == file[at + n..];
      err, foot := ParseItabLine(file[at..at + n], heads, foot);
      if err.Some? {
        return;
      }
      at := at + n;
    }
    err := None;
  }

  // fgets with a buffer of 65536 bytes
  method FgetsLength(file: seq<Byte>, at: nat) returns (n: nat)
    requires at < |file|
    ensures n == Chunk(file[at..]) && 0 < n <= |file| - at
  {
    n := 0;
    while n < |file| - at && n < LINE_MAX && (n == 0 || file[at + n - 1] != 10)
      invariant n <= |file| - at && n <= LINE_MAX
      invariant n > 0 && file[at + n - 1] == 10 ==> LineLength(file[at..]) == n
      invariant !(n > 0 && file[at + n - 1] == 10) ==> LineLength(file[at..]) == n + LineLength(file[at + n..])
    {
      assert file[at + n..][1..] == file[at + n + 1..];
      n := n + 1;
    }
  }

  // ---------------------------------------------------------------- writing

  // The code points that are still to be written, the first after sep.
  function RestText(codes: seq<int>, sep: seq<Byte>): seq<Byte> {
    if codes == [] then [] else sep + (CodeText(codes[0]) + TailText(codes[1..]))
  }

  lemma RestStep(fp: seq<Byte>, codes: seq<int>, sep: seq<Byte>)
    requires codes != []
    ensures fp + RestText(codes, sep) == fp + sep + CodeText(codes[0]) + RestText(codes[1..], Text(", "))
  {
    hide CodeText, TailText, Text;
    var tail := codes[1..];
    Assoc(fp, sep, CodeText(codes[0]), TailText(tail));
    Assoc3(sep, CodeText(codes[0]), TailText(tail));
    RestIsTail(tail);
  }

  lemma RestIsTail(codes: seq<int>)
    ensures RestText(codes, Text(", ")) == TailText(codes)
  {
    hide CodeText;
    if codes != [] {
      Assoc3(Text(", "), CodeText(codes[0]), TailText(codes[1..]));
    }
  }

  // psfxtable.c:266-275: the code points of one node, the first after sep0
  method WriteSequence(fp: seq<Byte>, sep0: seq<Byte>, us0: UnicodeSeq?, ghost cells: seq<UnicodeSeq>,
                       ghost codes: seq<Unicode>, ghost row: nat) returns (fp': seq<Byte>)
    requires Chain(cells, codes, row) && us0 == cells[0]
    ensures fp' == fp + (sep0 + SequenceText(codes))
  {
    hide CodeText, TailText, RestText, Text;
    var us: UnicodeSeq?, sep := us0, sep0;
    fp' := fp;
    ghost var j := 0;
    assert codes[0..] == codes;
    while us != null
      invariant 0 <= j <= |codes| && Chain(cells, codes, row)
      invariant us == if j < |codes| then cells[j] else null
      invariant fp' + RestText(codes[j..], sep) == fp + RestText(codes, sep0)
      decreases |codes| - j
    {
      RestStep(fp', codes[j..], sep);
      assert codes[j..][1..] == codes[j + 1..];
      fp' := fp' + sep + CodeText(us.uc);
      us := us.next;
      sep := Text(", ");
      j := j + 1;
    }
    RestEnds(fp', codes, sep, sep0);
    assert codes[j..] == [];
  }

  lemma RestEnds(fp: seq<Byte>, codes: seq<int>, sep: seq<Byte>, sep0: seq<Byte>)
    requires codes != []
    ensures fp + RestText([], sep) == fp && RestText(codes, sep0) == sep0 + SequenceText(codes)
  {
  }

  lemma DefsRest(fp: seq<Byte>, e: Entry, sep: seq<Byte>)
    requires NoEmpty(e) && e != []
    ensures NoEmpty(e[1..])
    ensures fp + DefsText(e, sep) == fp + (sep + SequenceText(e[0])) + DefsText(e[1..], [32])
  {
    Assoc3(fp, sep + SequenceText(e[0]), DefsText(e[1..], [32]));
  }

  // psfxtable.c:263-278: the definitions of one entry
  method WriteDefs(fp: seq<Byte>, ul0: UnicodeList?, ghost up: UnicodeList, ghost nodes: seq<UnicodeList>,
                   ghost cells: seq<seq<UnicodeSeq>>, ghost e: seq<seq<Unicode>>) returns (fp': seq<Byte>)
    requires Linked(up, nodes) && Rows(nodes, cells, e) && ul0 == up.next && NoEmpty(e)
    ensures fp' == fp + DefsText(e, [])
  {
    hide DefsText, SequenceText;
    var ul: UnicodeList?, sep: seq<Byte> := ul0, [];
    fp' := fp;
    ghost var i := 0;
    assert e[0..] == e;
    while ul != null
      invariant Linked(up, nodes) && Rows(nodes, cells, e)
      invariant 0 <= i <= |e| && ul == if i < |e| then nodes[i] else null
      invariant NoEmpty(e[i..]) && fp' + DefsText(e[i..], sep) == fp + DefsText(e, [])
      decreases |e| - i
    {
      NodeAt(up, nodes, cells, e, i);
      DefsRest(fp', e[i..], sep);
      assert e[i..][1..] == e[i + 1..];
      fp' := WriteSequence(fp', sep, ul.sequence, cells[i], e[i], i);
      ul := ul.next;
      sep := [32];
      i := i + 1;
    }
    assert e[i..] == [];
    NoDefs(fp', sep);
  }

  lemma NoDefs(fp: seq<Byte>, sep: seq<Byte>)
    ensures fp + DefsText([], sep) == fp
  {
  }

  lemma HeldNoEmpty(heads: seq<UnicodeList>)
    requires AllValid(heads)
    ensures AllNoEmpty(Tables(heads))
  {
    forall i | 0 <= i < |heads|
      ensures NoEmpty(Tables(heads)[i])
    {
      NoEmptySequence(heads[i]);
    }
  }

  lemma LineAndRest(fp: seq<Byte>, t: seq<Entry>, i: nat)
    requires AllNoEmpty(t) && i < |t|
    ensures fp + LinesFrom(t, i) == fp + PositionText(i) + DefsText(t[i], []) + [10] + LinesFrom(t, i + 1)
  {
    hide PositionText, DefsText;
    Assoc(fp, PositionText(i), DefsText(t[i], []), [10]);
    Assoc3(fp, LineOf(i, t[i]), LinesFrom(t, i + 1));
  }

  // kfont_write_unicodetable, appending to what fp holds
  method WriteUnicodeTable(fp: seq<Byte>, heads: seq<UnicodeList>) returns (fp': seq<Byte>)
    requires AllValid(heads)
    ensures AllNoEmpty(Tables(heads)) && fp' == fp + EncodeText(Tables(heads))
  {
    hide PositionText, DefsText, LinesFrom, Heading, UnicodeList.Valid, AllNoEmpty, Tables;
    HeldNoEmpty(heads);
    ghost var t := Tables(heads);
    Assoc3(fp, Heading(), LinesFrom(t, 0));
    fp' := fp + Heading();
    for i := 0 to |heads|
      invariant AllValid(heads) && fp' + LinesFrom(t, i) == fp + EncodeText(t)
    {
      LineAndRest(fp', t, i);
      fp' := fp' + PositionText(i);
      fp' := WriteEntryDefs(fp', heads[i]);
      fp' := fp' + [10];
    }
    NoLines(fp', t);
  }

  lemma NoLines(fp: seq<Byte>, t: seq<Entry>)
    requires AllNoEmpty(t)
    ensures fp + LinesFrom(t, |t|) == fp
  {
  }

  method WriteEntryDefs(fp: seq<Byte>, up: UnicodeList) returns (fp': seq<Byte>)
    requires up.Valid()
    ensures NoEmpty(up.Contents) && fp' == fp + DefsText(up.Contents, [])
  {
    NoEmptySequence(up);
    fp' := WriteDefs(fp, up.next, up, up.nodes, up.cells, up.Contents);
  }
}
