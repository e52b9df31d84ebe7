/**
  PSF files beyond those the writer emits, octet by octet: headers of any size, the PSF1 modes, entries with
  marks anywhere, and what the two UTF-8 errors mean.
 */
module PsfForms {
  import opened Bytes
  import opened PsfTable
  import opened PsfFont
  import Utf8

  // ---------------------------------------------------------------- the header that is written

  // The four octets at k are n, the lowest first.
  predicate WordAt(s: seq<Byte>, k: nat, n: int) {
    k + 4 <= |s|
    && s[k] as int + 0x100 * s[k + 1] as int + 0x1_0000 * s[k + 2] as int + 0x100_0000 * s[k + 3] as int == n
  }

  lemma WordIs(s: seq<Byte>, k: nat)
    requires k + 4 <= |s|
    ensures WordAt(s, k, Get32(s, k))
  {
  }

  // PSF1 is written for 256 or 512 glyphs of width 8 and at most 32 rows, unless PSF2 is asked for; its mode
  // has bit 0 for 512 glyphs, bit 1 for a table and bit 2 instead for one with sequences of two or more.
  lemma HeaderWritten(f: Font, psftype: int, withTable: bool)
    requires Fits(f)
    ensures var s := EncodeFont(f, psftype, withTable);
            if psftype != 2 && (f.length == 256 || f.length == 512) && f.width == 8 && f.height <= 32 then
              var kind := if !withTable then 0
                          else if exists i, j | 0 <= i < |f.table| && 0 <= j < |f.table[i]| :: |f.table[i][j]| > 1
                          then 4 else 2;
              |s| >= 4 && s[..4] == [0x36, 0x04, kind + if f.length == 512 then 1 else 0, f.height]
            else
              && |s| >= 32 && s[..4] == [0x72, 0xb5, 0x4a, 0x86]
              && WordAt(s, 4, 0) && WordAt(s, 8, 32) && WordAt(s, 12, if withTable then 1 else 0)
              && WordAt(s, 16, f.length) && WordAt(s, 20, f.height * ((f.width + 7) / 8))
              && WordAt(s, 24, f.height) && WordAt(s, 28, f.width)
  {
    if IsPsf2(f.width, f.height, f.length, psftype) {
      Psf2Written(f, psftype, withTable);
    } else {
      Psf1Written(f, psftype, withTable);
    }
  }

  lemma Psf1Written(f: Font, psftype: int, withTable: bool)
    requires Fits(f) && !IsPsf2(f.width, f.height, f.length, psftype)
    ensures var s := EncodeFont(f, psftype, withTable);
            var kind := if !withTable then 0
                        else if exists i, j | 0 <= i < |f.table| && 0 <= j < |f.table[i]| :: |f.table[i][j]| > 1 then 4
                        else 2;
            |s| >= 4 && s[..4] == [0x36, 0x04, kind + if f.length == 512 then 1 else 0, f.height]
  {
    hide EncodeTable;
    ExactCharsize(f);
    var hasSeq := withTable && HasSequences(f.table);
    var h := Psf1Header(f.length, f.height, withTable, hasSeq);
    assert EncodeFont(f, psftype, withTable)[..4] == h;
  }

  lemma Psf2Written(f: Font, psftype: int, withTable: bool)
    requires Fits(f) && IsPsf2(f.width, f.height, f.length, psftype)
    ensures var s := EncodeFont(f, psftype, withTable);
            && |s| >= 32 && s[..4] == [0x72, 0xb5, 0x4a, 0x86]
            && WordAt(s, 4, 0) && WordAt(s, 8, 32) && WordAt(s, 12, if withTable then 1 else 0)
            && WordAt(s, 16, f.length) && WordAt(s, 20, f.height * ((f.width + 7) / 8))
            && WordAt(s, 24, f.height) && WordAt(s, 28, f.width)
  {
    hide EncodeTable, Psf2Header, Psf1Header, HasSequences, WordAt, Charsize, ByteWidth;
    CharsizeIs(f);
    var s, charsize := EncodeFont(f, psftype, withTable), Charsize(f.width, f.height);
    var h := Psf2Header(f.width, f.height, f.length, charsize, withTable);
    Psf2Words(f.width, f.height, f.length, charsize, withTable);
    assert s[..32] == h;
    HeaderWords(s, h);
  }

  lemma CharsizeIs(f: Font)
    requires Fits(f)
    ensures Charsize(f.width, f.height) == f.height * ((f.width + 7) / 8)
  {
    ExactCharsize(f);
  }

  lemma Psf2Words(width: Uint32, height: Uint32, length: Uint32, charsize: Uint32, hasTable: bool)
    ensures var h := Psf2Header(width, height, length, charsize, hasTable);
            && h[..4] == [0x72, 0xb5, 0x4a, 0x86]
            && WordAt(h, 4, 0) && WordAt(h, 8, 32) && WordAt(h, 12, if hasTable then 1 else 0)
            && WordAt(h, 16, length) && WordAt(h, 20, charsize) && WordAt(h, 24, height) && WordAt(h, 28, width)
  {
    var ws: seq<Uint32> := [0, 32, if hasTable then 1 else 0, length, charsize, height, width];
    var h := Psf2Header(width, height, length, charsize, hasTable);
    assert h == PSF2_MAGIC + Words(ws) + [];
    WordBack(ws, 0);
    WordBack(ws, 1);
    WordBack(ws, 2);
    WordBack(ws, 3);
    WordBack(ws, 4);
    WordBack(ws, 5);
    WordBack(ws, 6);
  }

  lemma WordBack(ws: seq<Uint32>, k: nat)
    requires k < |ws|
    ensures WordAt(PSF2_MAGIC + Words(ws) + [], 4 + 4 * k, ws[k])
  {
    WordsBack(PSF2_MAGIC, ws, k, []);
    WordIs(PSF2_MAGIC + Words(ws) + [], 4 + 4 * k);
  }

  lemma HeaderWords(s: seq<Byte>, h: seq<Byte>)
    requires |h| == 32 <= |s| && s[..32] == h
    ensures s[..4] == h[..4]
    ensures forall k, n | 0 <= k <= 28 && WordAt(h, k, n) :: WordAt(s, k, n)
  {
    assert forall i | 0 <= i < 32 :: s[..32][i] == h[i];
  }

  // ---------------------------------------------------------------- headers that are read

  // What the reader makes of what stands behind the bitmap.
  function WithRest(f: Font, hasTable: bool, rest: seq<Byte>, utf8: bool): Result<Font, ReadError> {
    if !hasTable then (if rest == [] then Ok(f.(table := EmptyTable(f.length))) else Err(TrailingData))
    else
      match ParseTable(rest, f.length, utf8)
      case Err(x) => Err(x)
      case Ok((t, left)) => if left == [] then Ok(f.(table := t)) else Err(TrailingGarbage)
  }

  // A PSF2 file whose header is followed by anything at all before the bitmap.
  function Padded(f: Font, flags: Uint32, pad: seq<Byte>, rest: seq<Byte>): seq<Byte>
    requires Fits(f) && 32 + |pad| < 0x1_0000_0000
  {
    PSF2_MAGIC + Words([0, 32 + |pad|, flags, f.length, f.height * ByteWidth(f.width), f.height, f.width])
    + (pad + (f.bitmap + rest))
  }

  // headersize says where the bitmap starts, and the lowest flag whether a table follows it.
  lemma PaddedBack(f: Font, flags: Uint32, pad: seq<Byte>, rest: seq<Byte>)
    requires Fits(f) && 32 + |pad| < 0x1_0000_0000
    ensures ParseFont(Padded(f, flags, pad, rest)) == WithRest(f, flags % 2 == 1, rest, true)
  {
    hide ParseFont, ParseHeader, WithRest;
    ExactCharsize(f);
    var charsize: Uint32 := f.height * ByteWidth(f.width);
    var ws: seq<Uint32> := [0, 32 + |pad|, flags, f.length, charsize, f.height, f.width];
    AnyHeaderBack(32 + |pad|, flags, f.length, charsize, f.height, f.width, pad + (f.bitmap + rest));
    var head := PSF2_MAGIC + Words(ws);
    assert head + (pad + (f.bitmap + rest)) == head + pad + f.bitmap + rest;
    BehindHeader(f, Header(f.length, charsize, f.width, f.height, flags % 2 == 1, 32 + |pad|, true), head + pad, rest);
  }

  lemma AnyHeaderBack(size: Uint32, flags: Uint32, length: Uint32, charsize: Uint32, height: Uint32, width: Uint32,
                      tail: seq<Byte>)
    ensures ParseHeader(PSF2_MAGIC + Words([0, size, flags, length, charsize, height, width]) + tail)
         == Ok(Header(length, charsize, width, height, flags % 2 == 1, size, true))
  {
    hide Words, Get32;
    var ws: seq<Uint32> := [0, size, flags, length, charsize, height, width];
    var s := PSF2_MAGIC + Words(ws) + tail;
    WordsBack(PSF2_MAGIC, ws, 0, tail);
    WordsBack(PSF2_MAGIC, ws, 1, tail);
    WordsBack(PSF2_MAGIC, ws, 2, tail);
    WordsBack(PSF2_MAGIC, ws, 3, tail);
    WordsBack(PSF2_MAGIC, ws, 4, tail);
    WordsBack(PSF2_MAGIC, ws, 5, tail);
    WordsBack(PSF2_MAGIC, ws, 6, tail);
    assert s[..4] == PSF2_MAGIC;
  }

  // A file behind whose header, all octets up to the bitmap, come the bitmap and the rest.
  lemma BehindHeader(f: Font, h: Header, head: seq<Byte>, rest: seq<Byte>)
    requires Fits(f) && h.offset == |head| && h.length == f.length && h.width == f.width
    requires h.charsize == f.height * ByteWidth(f.width) && (h.height == 0 || h.height == f.height)
    requires ParseHeader(head + f.bitmap + rest) == Ok(h)
    ensures ParseFont(head + f.bitmap + rest) == WithRest(f, h.hasTable, rest, h.utf8)
  {
    ExactCharsize(f);
    var s := head + f.bitmap + rest;
    assert BitmapEnd(h) == |head| + |f.bitmap|;
    assert s[h.offset..BitmapEnd(h)] == f.bitmap && s[BitmapEnd(h)..] == rest;
    MultipleDivides(f.height, ByteWidth(f.width));
    if !h.hasTable && rest != [] {
      assert |s| != BitmapEnd(h);
    }
  }

  // A PSF1 file: modes 0 to 5, an odd one for 512 glyphs, all but 0 and 1 with a table.
  lemma Psf1Back(f: Font, mode: Byte, rest: seq<Byte>)
    requires Fits(f) && f.width == 8 && f.height < 0x100
    ensures var s := [0x36, 0x04, mode, f.height] + f.bitmap + rest;
            && (mode > 5 ==> ParseFont(s) == Err(UnsupportedMode))
            && (mode <= 5 && f.length == (if mode % 2 == 1 then 512 else 256) ==>
                  ParseFont(s) == WithRest(f, mode >= 2, rest, false))
  {
    var head: seq<Byte> := [0x36, 0x04, mode, f.height];
    var s := head + f.bitmap + rest;
    assert s[0] == 0x36 && s[1] == 4 && s[2] == mode && s[3] == f.height;
    if mode <= 5 && f.length == (if mode % 2 == 1 then 512 else 256) {
      assert ByteWidth(8) == 1;
      BehindHeader(f, Header(f.length, f.height, 8, 0, mode >= 2, 4, false), head, rest);
    }
  }

  // The sizes are accepted exactly if there is something to read, all of it lies in the file, charsize is a
  // whole number of rows, the height given, if any, is that number, and without a table nothing follows.
  lemma LayoutIff(h: Header, size: nat)
    ensures CheckLayout(h, size).Ok? <==>
              && h.length > 0 && h.charsize > 0 && h.width > 0 && h.offset + h.length * h.charsize <= size
              && (h.hasTable || h.offset + h.length * h.charsize == size)
              && exists rows: nat :: Rows(h, rows)
  {
    var bw := ByteWidth(h.width);
    if h.width > 0 {
      assert bw > 0;
      if CheckLayout(h, size).Ok? {
        LayoutBounds(h, size);
        if h.height != 0 {
          SameFactor(h.height, CheckLayout(h, size).value, bw);
        }
        assert Rows(h, CheckLayout(h, size).value);
      }
      if exists rows: nat :: Rows(h, rows) {
        var rows: nat :| Rows(h, rows);
        MultipleDivides(rows, bw);
      }
    }
  }

  predicate Rows(h: Header, rows: nat) {
    rows * ((h.width + 7) / 8) == h.charsize && (h.height == 0 || h.height == rows)
  }

  lemma SameFactor(a: nat, b: nat, d: nat)
    requires d > 0 && a * d == b * d
    ensures a == b
  {
    MultipleDivides(a, d);
    MultipleDivides(b, d);
  }

  // ---------------------------------------------------------------- entries with marks anywhere

  // Code points, then after each of a number of start marks more of them.
  function Chunks(ss: seq<seq<int>>): seq<Token> {
    if ss == [] then [] else [Start] + CodeTokens(ss[0]) + Chunks(ss[1..])
  }

  function NonEmpty(ss: seq<seq<int>>): seq<seq<int>> {
    if ss == [] then [] else (if ss[0] == [] then [] else [ss[0]]) + NonEmpty(ss[1..])
  }

  // Before the first start mark every code point stands for itself; between two marks, or behind the last
  // one, they are one sequence, if there are any.
  lemma MarkedEntry(singles: seq<int>, ss: seq<seq<int>>)
    ensures Build(FRESH, CodeTokens(singles) + Chunks(ss)).e ==
              seq(|singles|, i requires 0 <= i < |singles| => [singles[i]]) + NonEmpty(ss)
  {
    var e := seq(|singles|, i requires 0 <= i < |singles| => [singles[i]]);
    BuildConcat(FRESH, CodeTokens(singles), Chunks(ss));
    BuildSingles([], singles);
    assert [] + e == e;
    BuildChunks(Draft(e, Singles), ss);
  }

  lemma {:induction false} BuildSingles(e: Entry, s: seq<int>)
    ensures Build(Draft(e, Singles), CodeTokens(s)) ==
              Draft(e + seq(|s|, i requires 0 <= i < |s| => [s[i]]), Singles)
    decreases |s|
  {
    var all := seq(|s|, i requires 0 <= i < |s| => [s[i]]);
    if s == [] {
      assert e + all == e;
    } else {
      assert CodeTokens(s)[1..] == CodeTokens(s[1..]);
      BuildSingles(e + [[s[0]]], s[1..]);
      var more := seq(|s[1..]|, i requires 0 <= i < |s[1..]| => [s[1..][i]]);
      assert all == [[s[0]]] + more;
      assert e + [[s[0]]] + more == e + all;
    }
  }

  lemma {:induction false} BuildChunks(d: Draft, ss: seq<seq<int>>)
    ensures Build(d, Chunks(ss)).e == d.e + NonEmpty(ss)
    decreases |ss|
  {
    hide Build, CodeTokens;
    if ss == [] {
      NothingBuilt(d);
    } else {
      var s, rest := ss[0], Chunks(ss[1..]);
      BuildConcat(d, [Start] + CodeTokens(s), rest);
      BuildChunk(d, s);
      BuildChunks(Build(d, [Start] + CodeTokens(s)), ss[1..]);
      Joined(d.e, s, NonEmpty(ss[1..]));
    }
  }

  lemma NothingBuilt(d: Draft)
    ensures Build(d, []) == d && d.e + [] == d.e
  {
  }

  lemma Joined(e: Entry, s: seq<int>, more: Entry)
    ensures e + [s] + more == e + ([s] + more) && [] + more == more
  {
  }

  lemma BuildChunk(d: Draft, s: seq<int>)
    ensures Build(d, [Start] + CodeTokens(s)).e == if s == [] then d.e else d.e + [s]
  {
    var t := CodeTokens(s);
    assert ([Start] + t)[1..] == t;
    if s != [] {
      assert t[1..] == CodeTokens(s[1..]);
      BuildInside(d.e + [[s[0]]], s[1..]);
      assert [s[0]] + s[1..] == s;
      assert Build(Draft(d.e, Opened), t) == Build(Draft(d.e + [[s[0]]], Inside), t[1..]);
      assert (d.e + [[s[0]]])[|d.e| := s] == d.e + [s];
    }
  }

  // ---------------------------------------------------------------- any font that was read

  lemma {:induction false} BuiltEntry(d: Draft, ts: seq<Token>, utf8: bool)
    requires IsEntry(d.e) && AllReadable(ts, utf8)
    ensures IsEntry(Build(d, ts).e)
    decreases |ts|
  {
    if ts != [] {
      assert ts[0] in ts;
      var e := Step(d, ts[0]).e;
      forall s | s in e
        ensures s != [] && AreCodes(s)
      {
        if s !in d.e && d.m == Inside && ts[0].Code? {
          assert d.e[|d.e| - 1] in d.e && s == d.e[|d.e| - 1] + [ts[0].c];
        }
      }
      BuiltEntry(Step(d, ts[0]), ts[1..], utf8);
    }
  }

  lemma {:induction false} ParsedTable(s: seq<Byte>, n: nat, utf8: bool)
    ensures var r := ParseTable(s, n, utf8); r.Ok? ==> IsTable(r.value.0)
  {
    hide Scan, Build;
    if n > 0 {
      var r := Scan(s, utf8);
      if r.Ok? {
        ScannedReadable(s, utf8);
        BuiltEntry(FRESH, r.value.0, utf8);
        ParsedTable(r.value.1, n - 1, utf8);
      }
    }
  }

  // A font read from any file can be written if rounding its width up stays within 32 bits, and PSF2 is wide
  // enough for its table.
  lemma AcceptedFits(s: seq<Byte>)
    requires ParseFont(s).Ok?
    ensures var f := ParseFont(s).value;
            && (Fits(f) <==> f.width < 0xFFFF_FFF9)
            && TableReadable(f.table, true)
  {
    var h := ParseHeader(s).value;
    var f := ParseFont(s).value;
    AcceptedBounds(s);
    assert ByteWidth(f.width) * f.height == h.charsize;
    if h.hasTable {
      ParsedTable(s[BitmapEnd(h)..], h.length, h.utf8);
      ParsedReadable(s[BitmapEnd(h)..], h.length, h.utf8);
    }
  }

  // Written again, with its table, it is read back unchanged exactly when no glyph lists a single code point
  // behind a sequence and, for PSF1, no code point collides with the marks.
  lemma WrittenAgainIff(s: seq<Byte>, psftype: int)
    requires ParseFont(s).Ok? && ParseFont(s).value.width < 0xFFFF_FFF9
    ensures var f := ParseFont(s).value;
            Fits(f)
            && (ParseFont(EncodeFont(f, psftype, true)) == Ok(f) <==>
                 && (forall e | e in f.table :: SinglesFirst(e))
                 && (IsPsf2(f.width, f.height, f.length, psftype) || TableReadable(f.table, false)))
  {
    hide Fits, ParseFont, EncodeFont, SinglesFirst, EntryReadable;
    AcceptedFits(s);
    FontRoundTripIff(ParseFont(s).value, psftype);
  }

  // ---------------------------------------------------------------- UTF-8 that is refused

  // Octets that a form needs, by its first one.
  function Needed(b: Byte): nat {
    if b < 0xC0 then 1 else if b < 0xE0 then 2 else if b < 0xF0 then 3 else if b < 0xF8 then 4
    else if b < 0xFC then 5 else 6
  }

  // Too few octets; or a continuation octet in front, or something else behind.
  lemma DecodeErrors(s: seq<Byte>)
    requires |s| > 0 && s[0] < 0xFE
    ensures Utf8.Decode(s) == Err(Utf8.Short) <==> |s| < Needed(s[0])
    ensures Utf8.Decode(s) == Err(Utf8.Bad) <==>
              0x80 <= s[0] < 0xC0
              || (|s| >= Needed(s[0]) && exists i | 1 <= i < Needed(s[0]) :: !(0x80 <= s[i] < 0xC0))
  {
    hide Utf8.Gather;
    var need := Utf8.LeadingOnes(s[0]);
    if need >= 2 && |s| >= need {
      GatherFails(s[0] - Utf8.Mark(need), s[1..need]);
      assert forall i | 0 <= i < need - 1 :: s[1..need][i] == s[i + 1];
      assert forall i | 1 <= i < need :: s[i] == s[1..need][i - 1];
    }
  }

  lemma {:induction false} GatherFails(acc: nat, t: seq<Byte>)
    ensures Utf8.Gather(acc, t) == None <==> exists i | 0 <= i < |t| :: !(0x80 <= t[i] < 0xC0)
    decreases |t|
  {
    if t != [] {
      GatherFails(acc * 64 + t[0] % 64, t[1..]);
      assert forall i | 1 <= i < |t| :: t[i] == t[1..][i - 1];
    }
  }
}
