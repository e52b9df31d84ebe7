/**
  Whole PSF files, on values: header, bitmaps and Unicode table (kfont.h:43-99, psffontop.c).
 */
module PsfFont {
  import opened Bytes
  import opened PsfTable

  // A font in memory: glyph sizes, bitmaps, and the entry of every glyph.
  datatype Font = Font(width: Uint32, height: Uint32, length: Uint32, bitmap: seq<Byte>, table: seq<Entry>)

  // The bytes of a glyph as the C code computes them, in 32 bits.
  function Charsize(width: Uint32, height: Uint32): Uint32 {
    ToUint32(ToUint32(width + 7) / 8 * height)
  }

  // ---------------------------------------------------------------- little-endian words

  // store_int_le
  function Le32(n: Uint32): (b: seq<Byte>)
    ensures |b| == 4
  {
    [n % 0x100, n / 0x100 % 0x100, n / 0x1_0000 % 0x100, n / 0x100_0000 % 0x100]
  }

  // assemble_uint32
  function Get32(s: seq<Byte>, i: nat): Uint32
    requires i + 4 <= |s|
  {
    s[i] as int + 0x100 * s[i + 1] as int + 0x1_0000 * s[i + 2] as int + 0x100_0000 * s[i + 3] as int
  }

  lemma WordDigits(n: Uint32)
    ensures n % 0x100 + 0x100 * (n / 0x100 % 0x100) + 0x1_0000 * (n / 0x1_0000 % 0x100)
            + 0x100_0000 * (n / 0x100_0000 % 0x100) == n
  {
    var a := n / 0x100;
    var b := a / 0x100;
    var c := b / 0x100;
    assert b == n / 0x1_0000 && c == n / 0x100_0000 && c < 0x100;
  }

  lemma WordRoundTrip(pre: seq<Byte>, n: Uint32, post: seq<Byte>)
    ensures Get32(pre + Le32(n) + post, |pre|) == n
  {
    var s, b := pre + Le32(n) + post, Le32(n);
    WordDigits(n);
    assert s[|pre|] == b[0] && s[|pre| + 1] == b[1] && s[|pre| + 2] == b[2] && s[|pre| + 3] == b[3];
  }

  function Words(ws: seq<Uint32>): (b: seq<Byte>)
    ensures |b| == 4 * |ws|
  {
    if ws == [] then [] else Le32(ws[0]) + Words(ws[1..])
  }

  lemma {:induction false} WordsBack(pre: seq<Byte>, ws: seq<Uint32>, k: nat, post: seq<Byte>)
    requires k < |ws|
    ensures Get32(pre + Words(ws) + post, |pre| + 4 * k) == ws[k]
    decreases k
  {
    var b, bs := Le32(ws[0]), Words(ws[1..]);
    Assoc(pre, b, bs, post);
    if k == 0 {
      WordRoundTrip(pre, ws[0], bs + post);
      assert pre + (b + bs) + post == pre + b + (bs + post);
    } else {
      WordsBack(pre + b, ws[1..], k - 1, post);
      assert pre + (b + bs) + post == pre + b + bs + post;
    }
  }

  // ---------------------------------------------------------------- writing

  predicate NeedsPsf2(width: Uint32, height: Uint32, length: Uint32) {
    (length != 256 && length != 512) || width != 8 || height > 32
  }

  // The header that is written: PSF2 when asked for or when PSF1 cannot express the font.
  function IsPsf2(width: Uint32, height: Uint32, length: Uint32, psftype: int): bool {
    psftype == 2 || NeedsPsf2(width, height, length)
  }

  function Psf1Header(length: Uint32, charsize: Uint32, hasTable: bool, hasSeq: bool): (h: seq<Byte>)
    ensures |h| == 4
  {
    [0x36, 0x04, (if length == 512 then 1 else 0) + (if hasSeq then 4 else if hasTable then 2 else 0),
     if charsize <= 0xFF then charsize else 0xFF]
  }

  const PSF2_MAGIC: seq<Byte> := [0x72, 0xb5, 0x4a, 0x86]

  function Psf2Header(width: Uint32, height: Uint32, length: Uint32, charsize: Uint32, hasTable: bool): (h: seq<Byte>)
    ensures |h| == 32
  {
    PSF2_MAGIC + Words([0, 32, if hasTable then 1 else 0, length, charsize, height, width])
  }

  // has_sequences
  predicate HasSequences(t: seq<Entry>) {
    exists i, j | 0 <= i < |t| && 0 <= j < |t[i]| :: |t[i][j]| > 1
  }

  // The file kfont_write_psffont produces: with a table, or without one for None.
  function EncodeFont(f: Font, psftype: int, withTable: bool): seq<Byte>
    requires IsTable(f.table)
  {
    var charsize := Charsize(f.width, f.height);
    var psf2 := IsPsf2(f.width, f.height, f.length, psftype);
    var hasSeq := withTable && HasSequences(f.table);
    (if psf2 then Psf2Header(f.width, f.height, f.length, charsize, withTable)
     else Psf1Header(f.length, charsize, withTable, hasSeq))
    + f.bitmap
    + if withTable then EncodeTable(f.table, psf2) else []
  }

  // ---------------------------------------------------------------- reading

  // What the header says.  A height of 0 means: as given by charsize.
  datatype Header = Header(length: Uint32, charsize: Uint32, width: Uint32, height: Uint32, hasTable: bool,
                           offset: Uint32, utf8: bool)

  function ParseHeader(s: seq<Byte>): Result<Header, ReadError> {
    if |s| >= 4 && s[0] == 0x36 && s[1] == 0x04 then
      if s[2] > 5 then Err(UnsupportedMode)
      else Ok(Header(if s[2] % 2 == 1 then 512 else 256, s[3], 8, 0, s[2] / 2 % 4 != 0, 4, false))
    else if |s| >= 32 && s[0] == 0x72 && s[1] == 0xb5 && s[2] == 0x4a && s[3] == 0x86 then
      if Get32(s, 4) > 0 then Err(UnsupportedVersion)
      else Ok(Header(Get32(s, 16), Get32(s, 20), Get32(s, 28), Get32(s, 24), Get32(s, 12) % 2 == 1, Get32(s, 8), true))
    else Err(NotPsf)
  }

  // Where the bitmap ends and the table starts.
  function BitmapEnd(h: Header): (end: nat)
    ensures end >= h.offset
  {
    h.offset + h.length * h.charsize
  }

  // The checks of psffontop.c:270-307 in exact arithmetic, for a file of `size` bytes: the glyph height.
  function CheckLayout(h: Header, size: nat): Result<Uint32, ReadError> {
    if h.length == 0 then Err(ZeroLength)
    else if h.charsize == 0 then Err(ZeroCharsize)
    else if BitmapEnd(h) > size then Err(BitmapTooLong)
    else if h.width == 0 || h.charsize % ByteWidth(h.width) != 0 then Err(BadCharsize)
    else if h.height != 0 && h.height * ByteWidth(h.width) != h.charsize then Err(BadHeight)
    else if !h.hasTable && BitmapEnd(h) != size then Err(TrailingData)
    else QuotientFits(h.charsize, ByteWidth(h.width)); Ok(h.charsize / ByteWidth(h.width))
  }

  lemma QuotientFits(x: nat, y: nat)
    requires y > 0
    ensures 0 <= x / y <= x
  {
    GrowsBy(x / y, y);
    assert x == x / y * y + x % y;
  }

  lemma GrowsBy(q: nat, y: nat)
    requires y > 0
    ensures q <= q * y
  {
  }

  // Header and glyph height of a file whose sizes pass all checks.
  function ParseSizes(s: seq<Byte>): (r: Result<(Header, Uint32), ReadError>)
    ensures r.Ok? ==> BitmapEnd(r.value.0) <= |s|
  {
    match ParseHeader(s)
    case Err(x) => Err(x)
    case Ok(h) =>
      match CheckLayout(h, |s|)
      case Err(x) => Err(x)
      case Ok(height) => Ok((h, height))
  }

  // The entries behind the bitmap, which must end with the file.  Without a table all are empty.
  function ParseEntries(s: seq<Byte>, h: Header): (r: Result<seq<Entry>, ReadError>)
    requires BitmapEnd(h) <= |s|
    ensures r.Ok? ==> |r.value| == h.length
  {
    if !h.hasTable then Ok(EmptyTable(h.length))
    else
      match ParseTable(s[BitmapEnd(h)..], h.length, h.utf8)
      case Err(x) => Err(x)
      case Ok((t, rest)) => if rest == [] then Ok(t) else Err(TrailingGarbage)
  }

  // The font a file holds.
  function ParseFont(s: seq<Byte>): (r: Result<Font, ReadError>)
  {
    match ParseSizes(s)
    case Err(x) => Err(x)
    case Ok((h, height)) =>
      match ParseEntries(s, h)
      case Err(x) => Err(x)
      case Ok(t) => Ok(Font(h.width, height, h.length, s[h.offset..BitmapEnd(h)], t))
  }

  function EmptyTable(n: nat): (t: seq<Entry>)
    ensures |t| == n && forall i | 0 <= i < n :: t[i] == []
  {
    if n == 0 then [] else EmptyTable(n - 1) + [[]]
  }

  // Whatever is accepted, on any input: the bitmap lies inside the file, charsize is
  // height * ceil(width / 8), and there is one entry a glyph.
  lemma AcceptedBounds(s: seq<Byte>)
    ensures var r := ParseFont(s);
            r.Ok? ==>
              var f := r.value;
              && f.length > 0 && f.width > 0 && f.height > 0
              && |f.bitmap| == f.length * (f.height * ByteWidth(f.width)) <= |s|
              && |f.table| == f.length
    ensures ParseFont(s).Ok? ==>
              var h := ParseHeader(s).value;
              && h.offset + h.length * h.charsize <= |s| && h.length == ParseFont(s).value.length
              && h.charsize == ParseFont(s).value.height * ByteWidth(h.width)
  {
    var r := ParseFont(s);
    if r.Ok? {
      LayoutBounds(ParseHeader(s).value, |s|);
    }
  }

  lemma LayoutBounds(h: Header, size: nat)
    ensures var r := CheckLayout(h, size);
            r.Ok? ==>
              && h.length > 0 && h.width > 0 && r.value > 0
              && h.charsize == r.value * ByteWidth(h.width)
              && BitmapEnd(h) <= size
  {
    var bw := ByteWidth(h.width);
    if CheckLayout(h, size).Ok? {
      assert h.charsize == h.charsize / bw * bw + h.charsize % bw;
    }
  }

  // ---------------------------------------------------------------- round trip

  // Fonts with something to write whose sizes fit the 32-bit words of the format.
  predicate Fits(f: Font) {
    && f.width > 0 && f.height > 0 && f.length > 0
    && f.width + 7 < 0x1_0000_0000
    && ByteWidth(f.width) * f.height < 0x1_0000_0000
    && |f.bitmap| == f.length * (f.height * ByteWidth(f.width))
    && |f.table| == f.length && IsTable(f.table)
  }

  lemma Psf1HeaderBack(length: Uint32, height: Uint32, hasTable: bool, hasSeq: bool, rest: seq<Byte>)
    requires !NeedsPsf2(8, height, length) && height > 0 && (hasSeq ==> hasTable)
    ensures ParseHeader(Psf1Header(length, height, hasTable, hasSeq) + rest)
         == Ok(Header(length, height, 8, 0, hasTable, 4, false))
  {
  }

  lemma Psf2HeaderBack(width: Uint32, height: Uint32, length: Uint32, charsize: Uint32, hasTable: bool, rest: seq<Byte>)
    ensures ParseHeader(Psf2Header(width, height, length, charsize, hasTable) + rest)
         == Ok(Header(length, charsize, width, height, hasTable, 32, true))
  {
    var ws: seq<Uint32> := [0, 32, if hasTable then 1 else 0, length, charsize, height, width];
    var s := PSF2_MAGIC + Words(ws) + rest;
    WordsBack(PSF2_MAGIC, ws, 0, rest);
    WordsBack(PSF2_MAGIC, ws, 1, rest);
    WordsBack(PSF2_MAGIC, ws, 2, rest);
    WordsBack(PSF2_MAGIC, ws, 3, rest);
    WordsBack(PSF2_MAGIC, ws, 4, rest);
    WordsBack(PSF2_MAGIC, ws, 5, rest);
    WordsBack(PSF2_MAGIC, ws, 6, rest);
    assert s[..4] == PSF2_MAGIC;
  }

  lemma ExactCharsize(f: Font)
    requires Fits(f)
    ensures Charsize(f.width, f.height) == ByteWidth(f.width) * f.height > 0
    ensures var c := ByteWidth(f.width) * f.height;
            c % ByteWidth(f.width) == 0 && c / ByteWidth(f.width) == f.height && f.length * c == |f.bitmap|
  {
    MultipleDivides(f.height, ByteWidth(f.width));
    assert ToUint32(f.width + 7) / 8 == ByteWidth(f.width);
  }

  lemma {:induction false} MultipleDivides(q: nat, d: nat)
    requires d > 0
    ensures d * q == q * d && (d * q) % d == 0 && (d * q) / d == q
    ensures q > 0 ==> d * q > 0
  {
    DivideUnique(d * q, d, q);
  }

  lemma DivideUnique(x: nat, d: nat, q: nat)
    requires d > 0 && x == d * q
    ensures x / d == q && x % d == 0
  {
    var r := x % d;
    assert x == d * (x / d) + r;
    if x / d < q {
      assert d * (q - x / d) == r;
      GrowsBy(d, q - x / d);
    }
  }

  lemma HeaderBack(f: Font, psftype: int, withTable: bool)
    requires Fits(f)
    ensures var utf8 := IsPsf2(f.width, f.height, f.length, psftype);
            var h := ParseHeader(EncodeFont(f, psftype, withTable));
            var charsize := ByteWidth(f.width) * f.height;
            h == Ok(if utf8 then Header(f.length, charsize, f.width, f.height, withTable, 32, true)
                    else Header(f.length, charsize, 8, 0, withTable, 4, false))
  {
    ExactCharsize(f);
    var charsize := ByteWidth(f.width) * f.height;
    var utf8 := IsPsf2(f.width, f.height, f.length, psftype);
    var rest := if withTable then EncodeTable(f.table, utf8) else [];
    if utf8 {
      Psf2HeaderBack(f.width, f.height, f.length, charsize, withTable, f.bitmap + rest);
      Assoc3(Psf2Header(f.width, f.height, f.length, charsize, withTable), f.bitmap, rest);
    } else {
      var hasSeq := withTable && HasSequences(f.table);
      Psf1HeaderBack(f.length, f.height, withTable, hasSeq, f.bitmap + rest);
      Assoc3(Psf1Header(f.length, charsize, withTable, hasSeq), f.bitmap, rest);
    }
  }

  // Writing and reading a font that fits returns everything but what the table format cannot hold.
  lemma FontReadBack(f: Font, psftype: int, withTable: bool)
    requires Fits(f)
    ensures var utf8 := IsPsf2(f.width, f.height, f.length, psftype);
            var table := if withTable then ParseTable(EncodeTable(f.table, utf8), f.length, utf8)
                         else Ok((EmptyTable(f.length), []));
            ParseFont(EncodeFont(f, psftype, withTable))
            == match table
               case Err(x) => Err(x)
               case Ok((t, rest)) => if rest == [] then Ok(f.(table := t)) else Err(TrailingGarbage)
  {
    HeaderBack(f, psftype, withTable);
    ExactCharsize(f);
    var s := EncodeFont(f, psftype, withTable);
    var h := ParseHeader(s).value;
    var end := BitmapEnd(h);
    assert s[h.offset..end] == f.bitmap;
    assert CheckLayout(h, |s|) == Ok(f.height);
    if withTable {
      assert s[end..] == EncodeTable(f.table, h.utf8);
    }
  }

  // The whole-file round trip, with its exact condition.
  lemma FontRoundTripIff(f: Font, psftype: int)
    requires Fits(f)
    ensures ParseFont(EncodeFont(f, psftype, true)) == Ok(f)
       <==> Storable(f.table, IsPsf2(f.width, f.height, f.length, psftype))
    ensures ParseFont(EncodeFont(f, psftype, false)) == Ok(f.(table := EmptyTable(f.length)))
  {
    FontReadBack(f, psftype, true);
    FontReadBack(f, psftype, false);
    TableRoundTripIff(f.table, IsPsf2(f.width, f.height, f.length, psftype));
  }
}
