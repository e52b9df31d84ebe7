/**
  psffontop.c:42-144 and 196-367: reading a PSF file into the linked lists of unicode.c.
 */
module PsfReader {
  import opened Bytes
  import opened UnicodeLists
  import opened PsfTable
  import opened PsfFont
  import Utf8

  // ---------------------------------------------------------------- one entry

  // psffontop.c:99-125: the next code point or mark; None is the separator.
  method ReadItem(buf: seq<Byte>, pos: nat, utf8: bool) returns (r: Result<Option<Token>, ReadError>, pos': nat)
    requires pos <= |buf|
    ensures match NextToken(buf[pos..], utf8)
            case Err(x) => r == Err(x)
            case Ok((t, n)) => r == Ok(t) && pos' == pos + n
  {
    pos' := pos;
    if pos == |buf| {
      return Err(ShortTable), pos;
    }
    if utf8 {
      var uc := buf[pos];
      if uc == 0xFF {
        return Ok(None), pos + 1;
      }
      if uc == 0xFE {
        return Ok(Some(Start)), pos + 1;
      }
      var u;
      u, pos' := Utf8.FromUtf8(buf, pos);
      match u
      case Err(Short) => r := Err(ShortUtf8);
      case Err(Bad) => r := Err(BadUtf8);
      case Ok(unichar) => r := Ok(Some(Code(unichar)));
    } else {
      if |buf| - pos < 2 {
        return Err(ShortUcs2), pos;
      }
      var unichar: int := buf[pos] as int + 0x100 * buf[pos + 1] as int;
      if unichar == 0xFFFF {
        return Ok(None), pos + 2;
      }
      if unichar == 0xFFFE {
        return Ok(Some(Start)), pos + 2;
      }
      return Ok(Some(Code(unichar))), pos + 2;
    }
  }

  // A parse of what follows, with the items before it put in front.
  ghost function Prepend<T>(items: seq<T>, r: Result<(seq<T>, seq<Byte>), ReadError>)
    : Result<(seq<T>, seq<Byte>), ReadError>
  {
    match r
    case Err(x) => Err(x)
    case Ok((more, rest)) => Ok((items + more, rest))
  }

  lemma PrependNothing<T>(r: Result<(seq<T>, seq<Byte>), ReadError>)
    ensures Prepend([], r) == r
  {
    if r.Ok? {
      assert [] + r.value.0 == r.value.0;
    }
  }

  // Scanning from pos is scanning from p with `done` in front.
  ghost predicate Scanned(buf: seq<Byte>, pos: nat, p: nat, done: seq<Token>, utf8: bool)
    requires pos <= |buf|
  {
    && p <= |buf|
    && Scan(buf[pos..], utf8) == Prepend(done, Scan(buf[p..], utf8))
  }

  lemma ScannedStart(buf: seq<Byte>, pos: nat, utf8: bool)
    requires pos <= |buf|
    ensures Scanned(buf, pos, pos, [], utf8)
  {
    PrependNothing(Scan(buf[pos..], utf8));
  }

  lemma ScannedNext(buf: seq<Byte>, pos: nat, p: nat, done: seq<Token>, utf8: bool)
    requires pos <= |buf| && Scanned(buf, pos, p, done, utf8)
    ensures match NextToken(buf[p..], utf8)
            case Err(x) => Scan(buf[pos..], utf8) == Err(x)
            case Ok((None, n)) => p + n <= |buf| && Scan(buf[pos..], utf8) == Ok((done, buf[p + n..]))
            case Ok((Some(t), n)) => n > 0 && (t.Code? ==> IsCode(t.c)) && Scanned(buf, pos, p + n, done + [t], utf8)
  {
    hide NextToken;
    match NextToken(buf[p..], utf8)
    case Err(_) =>
    case Ok((None, n)) =>
      assert buf[p..][n..] == buf[p + n..];
      assert done + [] == done;
    case Ok((Some(t), n)) =>
      assert buf[p..][n..] == buf[p + n..];
      var r := Scan(buf[p + n..], utf8);
      if r.Ok? {
        Assoc3(done, [t], r.value.0);
      }
  }

  // ReadItem in the course of an entry that starts at pos.
  method ScanItem(buf: seq<Byte>, ghost pos: nat, p: nat, ghost done: seq<Token>, utf8: bool)
    returns (r: Result<Option<Token>, ReadError>, p': nat)
    requires pos <= |buf| && Scanned(buf, pos, p, done, utf8)
    ensures r.Err? ==> Scan(buf[pos..], utf8) == Err(r.error)
    ensures r.Ok? && r.value.None? ==> p' <= |buf| && Scan(buf[pos..], utf8) == Ok((done, buf[p'..]))
    ensures r.Ok? && r.value.Some? ==>
              var t := r.value.value;
              p < p' && Scanned(buf, pos, p', done + [t], utf8) && (t.Code? ==> IsCode(t.c))
  {
    r, p' := ReadItem(buf, p, utf8);
    ScannedNext(buf, pos, p, done, utf8);
  }

  // The list and the counter hold what the items so far build.
  ghost predicate Holds(contents: seq<seq<Unicode>>, inseq: nat, done: seq<Token>) {
    Build(FRESH, done) == Draft(contents, if inseq == 0 then Singles else if inseq == 1 then Opened else Inside)
  }

  lemma HoldsStep(contents: seq<seq<Unicode>>, inseq: nat, done: seq<Token>, t: Token)
    requires Holds(contents, inseq, done) && (t.Code? ==> IsCode(t.c))
    ensures inseq >= 2 ==> contents != []
    ensures t.Start? ==> Holds(contents, 1, done + [t])
    ensures t.Code? && inseq < 2 ==> Holds(contents + [[t.c]], if inseq == 0 then 0 else 2, done + [t])
    ensures t.Code? && inseq >= 2 ==> Holds(ExtendLast(contents, [t.c]), inseq + 1, done + [t])
  {
    BuildConcat(FRESH, done, [t]);
    assert Build(Build(FRESH, done), [t]) == Step(Build(FRESH, done), t);
  }

  // psffontop.c:107-109 and 127-140.  addseq is reached only behind an addpair.
  method AddItem(up: UnicodeList, t: Token, inseq: nat, ghost done: seq<Token>) returns (inseq': nat)
    requires up.Valid() && Holds(up.Contents, inseq, done)
    requires t.Code? ==> IsCode(t.c)
    modifies up.Repr
    ensures up.Valid() && fresh(up.Repr - old(up.Repr))
    ensures Holds(up.Contents, inseq', done + [t])
  {
    HoldsStep(up.Contents, inseq, done, t);
    if t == Start {
      return 1;
    }
    if inseq < 2 {
      up.AddPair(t.c);
    } else {
      up.AddSeq(t.c);
    }
    return if inseq > 0 then inseq + 1 else 0;
  }

  // get_uni_entry
  method GetUniEntry(buf: seq<Byte>, pos: nat, up: UnicodeList, utf8: bool)
    returns (err: Option<ReadError>, pos': nat)
    requires pos <= |buf|
    modifies up
    ensures up.Valid() && fresh(up.Repr - {up})
    ensures match ParseEntry(buf[pos..], utf8)
            case Err(x) => err == Some(x)
            case Ok((e, rest)) => err == None && up.Contents == e && pos' <= |buf| && buf[pos'..] == rest
  {
    hide Scan;
    pos' := pos;
    var inseq := 0;
    up.Clear();
    ghost var done := [];
    ScannedStart(buf, pos, utf8);
    while true
      invariant up.Valid() && fresh(up.Repr - {up})
      invariant pos' <= |buf| && Scanned(buf, pos, pos', done, utf8)
      invariant Holds(up.Contents, inseq, done)
      decreases |buf| - pos'
    {
      var item, next := ScanItem(buf, pos, pos', done, utf8);
      if item.Err? {
        return Some(item.error), pos';
      }
      if item.value == None {
        return None, next;
      }
      inseq := AddItem(up, item.value.value, inseq, done);
      done := done + [item.value.value];
      pos' := next;
    }
  }

  // ---------------------------------------------------------------- the table

  // Reading n entries from pos is reading the rest of them from p, with t in front.
  ghost predicate TableRead(buf: seq<Byte>, pos: nat, n: nat, p: nat, t: seq<Entry>, utf8: bool)
    requires pos <= |buf|
  {
    && p <= |buf| && |t| <= n
    && ParseTable(buf[pos..], n, utf8) == Prepend(t, ParseTable(buf[p..], n - |t|, utf8))
  }

  lemma TableReadStart(buf: seq<Byte>, pos: nat, n: nat, utf8: bool)
    requires pos <= |buf|
    ensures TableRead(buf, pos, n, pos, [], utf8)
  {
    PrependNothing(ParseTable(buf[pos..], n, utf8));
  }

  lemma TableReadStep(buf: seq<Byte>, pos: nat, n: nat, p: nat, t: seq<Entry>, e: Entry, p': nat, utf8: bool)
    requires pos <= |buf| && |t| < n && TableRead(buf, pos, n, p, t, utf8)
    ensures var r := ParseEntry(buf[p..], utf8);
            && (r.Err? ==> ParseTable(buf[pos..], n, utf8) == Err(r.error))
            && (p' <= |buf| && r == Ok((e, buf[p'..])) ==> TableRead(buf, pos, n, p', t + [e], utf8))
  {
    hide ParseEntry;
    var r := ParseEntry(buf[p..], utf8);
    if r.Ok? {
      var r' := ParseTable(r.value.1, n - |t| - 1, utf8);
      if r'.Ok? {
        Assoc3(t, [r.value.0], r'.value.0);
      }
    }
  }

  lemma TableReadEnd(buf: seq<Byte>, pos: nat, n: nat, p: nat, t: seq<Entry>, utf8: bool)
    requires pos <= |buf| && |t| == n && TableRead(buf, pos, n, p, t, utf8)
    ensures ParseTable(buf[pos..], n, utf8) == Ok((t, buf[p..]))
  {
    assert t + [] == t;
  }

  // get_uni_entry on a new entry.
  method NewEntry(buf: seq<Byte>, ghost pos: nat, ghost n: nat, p: nat, ghost t: seq<Entry>, utf8: bool)
    returns (err: Option<ReadError>, p': nat, up: UnicodeList)
    requires pos <= |buf| && |t| < n && TableRead(buf, pos, n, p, t, utf8)
    ensures up.Valid() && fresh(up.Repr)
    ensures err.Some? ==> ParseTable(buf[pos..], n, utf8) == Err(err.value)
    ensures err.None? ==> TableRead(buf, pos, n, p', t + [up.Contents], utf8)
  {
    up := new UnicodeList();
    err, p' := GetUniEntry(buf, p, up, utf8);
    TableReadStep(buf, pos, n, p, t, up.Contents, p', utf8);
  }

  // One round of the loop at psffontop.c:351-356.
  method NextEntry(buf: seq<Byte>, ghost pos: nat, ghost n: nat, p: nat, news: seq<UnicodeList>, utf8: bool)
    returns (err: Option<ReadError>, p': nat, news': seq<UnicodeList>)
    requires pos <= |buf| && |news| < n && TableRead(buf, pos, n, p, Tables(news), utf8)
    requires ValidHeads(news)
    ensures |news'| == |news| + 1 && ValidHeads(news') && fresh(Footprint(news') - Footprint(news))
    ensures err.Some? ==> ParseTable(buf[pos..], n, utf8) == Err(err.value)
    ensures err.None? ==> TableRead(buf, pos, n, p', Tables(news'), utf8)
  {
    var up;
    err, p', up := NewEntry(buf, pos, n, p, Tables(news), utf8);
    HeadsPush(news, up);
    news' := news + [up];
  }

  // psffontop.c:345-356
  method ReadTable(buf: seq<Byte>, pos: nat, fontlen: nat, utf8: bool)
    returns (err: Option<ReadError>, pos': nat, news: seq<UnicodeList>)
    requires pos <= |buf|
    ensures ValidHeads(news) && fresh(Footprint(news))
    ensures match ParseTable(buf[pos..], fontlen, utf8)
            case Err(x) => err == Some(x)
            case Ok((t, rest)) => err == None && Tables(news) == t && pos' <= |buf| && buf[pos'..] == rest
  {
    pos' := pos;
    news := [];
    TableReadStart(buf, pos, fontlen, utf8);
    for i := 0 to fontlen
      invariant |news| == i && ValidHeads(news) && fresh(Footprint(news))
      invariant TableRead(buf, pos, fontlen, pos', Tables(news), utf8)
    {
      err, pos', news := NextEntry(buf, pos, fontlen, pos', news, utf8);
      if err.Some? {
        return;
      }
    }
    err := None;
    TableReadEnd(buf, pos, fontlen, pos', Tables(news), utf8);
  }

  // ---------------------------------------------------------------- the file

  method AssembleUint32(s: seq<Byte>, i: nat) returns (n: Uint32)
    requires i + 4 <= |s|
    ensures n == Get32(s, i)
  {
    n := s[i] as int + 0x100 * s[i + 1] as int + 0x1_0000 * s[i + 2] as int + 0x100_0000 * s[i + 3] as int;
  }

  // psffontop.c:233-268
  method ReadHeader(s: seq<Byte>) returns (r: Result<Header, ReadError>)
    ensures r == ParseHeader(s)
  {
    if |s| >= 4 && s[0] == 0x36 && s[1] == 0x04 {
      var mode := s[2];
      if mode > 5 {
        return Err(UnsupportedMode);
      }
      var fontlen := if mode % 2 == 1 then 512 else 256;
      var hasTable := mode / 2 % 4 != 0;
      return Ok(Header(fontlen, s[3], 8, 0, hasTable, 4, false));
    } else if |s| >= 32 && s[0] == 0x72 && s[1] == 0xb5 && s[2] == 0x4a && s[3] == 0x86 {
      var version := AssembleUint32(s, 4);
      if version > 0 {
        return Err(UnsupportedVersion);
      }
      var fontlen := AssembleUint32(s, 16);
      var charsize := AssembleUint32(s, 20);
      var flags := AssembleUint32(s, 12);
      var offset := AssembleUint32(s, 8);
      var width := AssembleUint32(s, 28);
      var height := AssembleUint32(s, 24);
      return Ok(Header(fontlen, charsize, width, height, flags % 2 == 1, offset, true));
    } else {
      return Err(NotPsf);
    }
  }

  lemma QuotientBound(n: nat, room: nat, d: nat)
    requires d > 0
    ensures n > room / d <==> n * d > room
  {
    assert room == room / d * d + room % d;
    if n > room / d {
      Monotone(room / d + 1, n, d, d);
    } else {
      Monotone(n, room / d, d, d);
    }
  }

  // psffontop.c:270-307 in 32-bit arithmetic: the size of the bitmap and the glyph height.  None of
  // the operations wraps around on a file it lets pass.
  method CheckSizes(h: Header, inputlth: Uint32) returns (r: Result<(Uint32, Uint32), ReadError>)
    ensures match CheckLayout(h, inputlth)
            case Err(x) => r == Err(x)
            case Ok(height) => r == Ok((BitmapEnd(h) - h.offset, height))
  {
    if h.length == 0 {
      return Err(ZeroLength);
    }
    if h.charsize == 0 {
      return Err(ZeroCharsize);
    }
    if h.offset <= inputlth {
      QuotientBound(h.length, inputlth - h.offset, h.charsize);
    }
    if h.offset > inputlth || h.length > ToUint32(inputlth - h.offset) / h.charsize {
      return Err(BitmapTooLong);
    }
    var fontbuflth := ToUint32(h.length * h.charsize);
    assert fontbuflth == BitmapEnd(h) - h.offset;
    var bytewidth := h.width / 8 + if h.width % 8 != 0 then 1 else 0;
    assert bytewidth == ByteWidth(h.width);
    if bytewidth == 0 || h.charsize % bytewidth != 0 {
      return Err(BadCharsize);
    }
    LayoutHeight(h.charsize, bytewidth, h.height);
    var expected := h.charsize / bytewidth;
    if h.height != 0 && h.height != expected {
      return Err(BadHeight);
    }
    var i := ToUint32(h.offset + fontbuflth);
    if !h.hasTable && i != inputlth {
      return Err(TrailingData);
    }
    return Ok((fontbuflth, expected));
  }

  lemma LayoutHeight(charsize: nat, bw: nat, height: nat)
    requires bw > 0 && charsize % bw == 0
    ensures height == charsize / bw <==> height * bw == charsize
    ensures 0 <= charsize / bw <= charsize
  {
    assert charsize == charsize / bw * bw;
    QuotientFits(charsize, bw);
    if height * bw == charsize {
      DivideUnique(charsize, bw, height);
    }
  }

  // A cleared entry behind others.
  method PushCleared(heads: seq<UnicodeList>) returns (heads': seq<UnicodeList>)
    requires ValidHeads(heads)
    ensures ValidHeads(heads') && fresh(Footprint(heads') - Footprint(heads))
    ensures |heads'| == |heads| + 1 && Tables(heads') == Tables(heads) + [[]]
  {
    var up := new UnicodeList();
    HeadsPush(heads, up);
    heads' := heads + [up];
  }

  // clear_uni_entry for every glyph (psffontop.c:361-364)
  method ClearEntries(fontlen: nat) returns (news: seq<UnicodeList>)
    ensures ValidHeads(news) && fresh(Footprint(news)) && Tables(news) == EmptyTable(fontlen)
  {
    news := [];
    hide UnicodeList.Valid;
    for i := 0 to fontlen
      invariant ValidHeads(news) && fresh(Footprint(news)) && Tables(news) == EmptyTable(i)
    {
      news := PushCleared(news);
    }
  }

  // psffontop.c:345-364
  method ReadEntries(inputbuf: seq<Byte>, h: Header) returns (err: Option<ReadError>, news: seq<UnicodeList>)
    requires BitmapEnd(h) <= |inputbuf|
    ensures ValidHeads(news) && fresh(Footprint(news))
    ensures match ParseEntries(inputbuf, h)
            case Err(x) => err == Some(x)
            case Ok(t) => err == None && Tables(news) == t
  {
    if h.hasTable {
      var inptr;
      err, inptr, news := ReadTable(inputbuf, BitmapEnd(h), h.length, h.utf8);
      if err == None && inptr != |inputbuf| {
        err := Some(TrailingGarbage);
      }
    } else {
      err := None;
      news := ClearEntries(h.length);
    }
  }

  // Where the bitmap lies and the sizes of the font.
  datatype Info = Info(offset: nat, fontsize: nat, width: Uint32, height: Uint32, length: Uint32)

  ghost predicate Describes(i: Info, s: seq<Byte>, f: Font) {
    && i.offset + i.fontsize <= |s| && f.bitmap == s[i.offset..i.offset + i.fontsize]
    && i.width == f.width && i.height == f.height && i.length == f.length
  }

  // psffontop.c:230-307: header and sizes
  method ReadSizes(inputbuf: seq<Byte>) returns (r: Result<(Header, Info), ReadError>)
    requires |inputbuf| <= UINT_MAX
    ensures match ParseSizes(inputbuf)
            case Err(x) => r == Err(x)
            case Ok((h, height)) => r == Ok((h, InfoOf(h, height)))
  {
    var header := ReadHeader(inputbuf);
    if header.Err? {
      return Err(header.error);
    }
    var h := header.value;
    var sizes := CheckSizes(h, |inputbuf|);
    if sizes.Err? {
      return Err(sizes.error);
    }
    var (fontbuflth, fontheight) := sizes.value;
    return Ok((h, Info(h.offset, fontbuflth, h.width, fontheight, h.length)));
  }

  function InfoOf(h: Header, height: Uint32): Info {
    Info(h.offset, BitmapEnd(h) - h.offset, h.width, height, h.length)
  }

  // The bitmap lies in the file and has the size that length, height and width make.
  predicate Sized(i: Info, s: seq<Byte>) {
    i.offset + i.fontsize <= |s| && i.fontsize == i.length * (i.height * ((i.width + 7) / 8))
  }

  lemma InfoSizes(s: seq<Byte>)
    ensures match ParseSizes(s)
            case Err(_) => true
            case Ok((h, height)) => Sized(InfoOf(h, height), s)
  {
    hide CheckLayout;
    if ParseSizes(s).Ok? {
      LayoutBounds(ParseSizes(s).value.0, |s|);
    }
  }

  // kfont_read_psffont on a file of any bytes.  The caller has fontpos0 entries in `heads`; those of
  // the file go behind them.  With wantTable unset (a null uclistheadsp) the table is not looked at.
  method ReadPsfFont(inputbuf: seq<Byte>, fontpos0: Uint32, heads: seq<UnicodeList>, wantTable: bool)
    returns (r: Result<Info, ReadError>, heads': seq<UnicodeList>)
    requires |inputbuf| <= UINT_MAX && |heads| == fontpos0 && ValidHeads(heads)
    ensures ValidHeads(heads') && fresh(Footprint(heads') - Footprint(heads))
    ensures !wantTable ==>
      heads' == heads &&
      match ParseSizes(inputbuf)
      case Err(x) => r == Err(x)
      case Ok((h, height)) => r == Ok(InfoOf(h, height))
    ensures r.Ok? ==>
              Sized(r.value, inputbuf)
              && (wantTable ==> r.value.length + fontpos0 <= 0xFFFF_FFFF && |heads'| == fontpos0 + r.value.length)
    ensures wantTable && ParseSizes(inputbuf).Ok? && ParseSizes(inputbuf).value.0.length + fontpos0 > 0xFFFF_FFFF ==>
      r == Err(PositionOverflow)
    ensures wantTable ==>
      match ParseAt(inputbuf, fontpos0)
      case Err(x) => r == Err(x)
      case Ok(f) => r.Ok? && Describes(r.value, inputbuf, f) && Tables(heads') == Tables(heads) + f.table
  {
    hide UnicodeList.Valid, ParseHeader, CheckLayout, ParseTable, ByteWidth, Sized;
    InfoSizes(inputbuf);
    heads' := heads;
    var sizes := ReadSizes(inputbuf);
    if sizes.Err? {
      return Err(sizes.error), heads;
    }
    var (h, info) := sizes.value;
    if !wantTable {
      return Ok(info), heads;
    }
    if h.length > UINT_MAX - fontpos0 {
      return Err(PositionOverflow), heads;
    }
    var err, news := ReadEntries(inputbuf, h);
    HeadsConcat(heads, news);
    heads' := heads + news;
    r := if err.Some? then Err(err.value) else Ok(info);
  }

  // Reading a font whose entries go to position fontpos0: positions must fit 32 bits.
  function ParseAt(s: seq<Byte>, fontpos0: Uint32): Result<Font, ReadError> {
    var sizes := ParseSizes(s);
    if sizes.Ok? && sizes.value.0.length > UINT_MAX - fontpos0 then Err(PositionOverflow) else ParseFont(s)
  }
}
