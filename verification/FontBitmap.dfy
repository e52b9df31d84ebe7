/**
  Glyph bitmaps on their way to the kernel and back (setfont.c): try_loadfont doubles every pixel or pads
  glyphs to the pitch of the kernel, save_font cuts them out again.

  A glyph is rows of bytes, the leftmost pixel in the highest bit; a font is glyphs one after another.
 */
module FontBitmap {
  import opened Bytes

  const MAXFONTSIZE: nat := 512 * 64 * 128

  // ---------------------------------------------------------------- pixels

  predicate Bit(b: Byte, k: nat)
    requires k < 8
  {
    match k
    case 0 => b % 2 == 1
    case 1 => b / 2 % 2 == 1
    case 2 => b / 4 % 2 == 1
    case 3 => b / 8 % 2 == 1
    case 4 => b / 16 % 2 == 1
    case 5 => b / 32 % 2 == 1
    case 6 => b / 64 % 2 == 1
    case 7 => b / 128 == 1
  }

  // Index of the byte holding column x of row y of glyph g.
  function PixelByte(g: nat, y: nat, x: nat, glyphBytes: nat, rowBytes: nat): nat {
    g * glyphBytes + y * rowBytes + x / 8
  }

  predicate Pixel(buf: seq<Byte>, g: nat, y: nat, x: nat, glyphBytes: nat, rowBytes: nat)
    requires PixelByte(g, y, x, glyphBytes, rowBytes) < |buf|
  {
    Bit(buf[PixelByte(g, y, x, glyphBytes, rowBytes)], 7 - x % 8)
  }

  // ---------------------------------------------------------------- doubling one byte

  // Every one of the low j bits of b twice.
  function Spread(b: Byte, j: nat): (s: Byte)
    requires j <= 4
    ensures s < (if j == 0 then 1 else if j == 1 then 4 else if j == 2 then 16 else if j == 3 then 64 else 256)
  {
    (if j > 0 && Bit(b, 0) then 3 else 0) + (if j > 1 && Bit(b, 1) then 12 else 0)
    + (if j > 2 && Bit(b, 2) then 48 else 0) + (if j > 3 && Bit(b, 3) then 192 else 0)
  }

  // setfont.c:96-103.  Or-ing 3 << 2j into b2 adds it: the bits from 2j on are still clear.
  method DoubleNibble(b: Byte) returns (b2: Byte)
    ensures b2 == Spread(b, 4)
  {
    b2 := 0;
    for j := 0 to 4
      invariant b2 == Spread(b, j)
    {
      if Bit(b, j) {
        b2 := b2 + (if j == 0 then 3 else if j == 1 then 12 else if j == 2 then 48 else 192);
      }
    }
  }

  lemma SpreadBit(b: Byte, k: nat)
    requires k < 8
    ensures Bit(Spread(b, 4), k) == Bit(b, k / 2)
  {
    if k < 4 {
      SpreadLow(b, k);
    } else {
      SpreadHigh(b, k);
    }
  }

  lemma SpreadLow(b: Byte, k: nat)
    requires k < 4
    ensures Bit(Spread(b, 4), k) == Bit(b, k / 2)
  {
    match k
    case 0 =>
    case 1 =>
    case 2 =>
    case 3 =>
  }

  lemma SpreadHigh(b: Byte, k: nat)
    requires 4 <= k < 8
    ensures Bit(Spread(b, 4), k) == Bit(b, k / 2)
  {
    match k
    case 4 =>
    case 5 =>
    case 6 =>
    case 7 =>
  }

  // ---------------------------------------------------------------- rows and glyphs

  // Start of item r when items of `size` bytes follow each other from `base` on.
  function Start(base: nat, size: nat, r: nat): nat {
    base + r * size
  }

  lemma StartBefore(base: nat, size: nat, r: nat, r': nat)
    requires r < r'
    ensures Start(base, size, r) + size == Start(base, size, r + 1) <= Start(base, size, r')
  {
    assert r' * size == (r + 1) * size + (r' - r - 1) * size;
  }

  // Byte x of a row whose pixels are those of the source row at `at`, twice each.
  function DoubledByte(src: seq<Byte>, at: nat, x: nat): Byte
    requires at + x / 2 < |src|
  {
    Spread(if x % 2 == 0 then src[at + x / 2] / 16 else src[at + x / 2], 4)
  }

  // A destination row of n bytes at `off` shows the source row at `at`.
  ghost predicate RowDone(buf: seq<Byte>, off: nat, src: seq<Byte>, at: nat, n: nat) {
    && off + n <= |buf| && at + (n + 1) / 2 <= |src|
    && forall x | 0 <= x < n :: buf[off + x] == DoubledByte(src, at, x)
  }

  ghost predicate Blank(buf: seq<Byte>, lo: nat, hi: nat) {
    hi <= |buf| && forall p | lo <= p < hi :: buf[p] == 0
  }

  // Only bytes of [lo, hi) differ.
  ghost predicate SameOutside(buf: seq<Byte>, buf': seq<Byte>, lo: nat, hi: nat) {
    |buf| == |buf'| && forall p | 0 <= p < |buf| && (p < lo || hi <= p) :: buf[p] == buf'[p]
  }

  lemma RowStays(buf: seq<Byte>, buf': seq<Byte>, lo: nat, hi: nat, off: nat, src: seq<Byte>, at: nat, n: nat)
    requires RowDone(buf, off, src, at, n) && SameOutside(buf, buf', lo, hi) && (off + n <= lo || hi <= off)
    ensures RowDone(buf', off, src, at, n)
  {
    forall x | 0 <= x < n
      ensures buf'[off + x] == DoubledByte(src, at, x)
    {
      assert buf[off + x] == buf'[off + x];
    }
  }

  // setfont.c:95-106, for one source row
  method DoubleRow(src: seq<Byte>, at: nat, buf: array<Byte>, off: nat, kbytewidth: nat)
    requires at + (kbytewidth + 1) / 2 <= |src| && off + 2 * kbytewidth <= buf.Length
    modifies buf
    ensures RowDone(buf[..], off, src, at, kbytewidth)
    ensures RowDone(buf[..], off + kbytewidth, src, at, kbytewidth)
    ensures SameOutside(old(buf[..]), buf[..], off, off + 2 * kbytewidth)
  {
    ghost var all := buf[..];
    for x := 0 to kbytewidth
      invariant RowDone(buf[..], off, src, at, x) && RowDone(buf[..], off + kbytewidth, src, at, x)
      invariant SameOutside(all, buf[..], off, off + 2 * kbytewidth)
    {
      ghost var before := buf[..];
      var b := src[at + x / 2];
      if x % 2 == 0 {
        b := b / 16;
      }
      var b2 := DoubleNibble(b);
      buf[off + x] := b2;
      buf[off + kbytewidth + x] := b2;
      RowGrows(before, buf[..], off, off + kbytewidth, src, at, x);
    }
  }

  lemma RowGrows(buf: seq<Byte>, buf': seq<Byte>, off: nat, off2: nat, src: seq<Byte>, at: nat, x: nat)
    requires RowDone(buf, off, src, at, x) && RowDone(buf, off2, src, at, x)
    requires off + x < off2 && off2 + x < |buf| && at + x / 2 < |src|
    requires buf' == buf[off + x := DoubledByte(src, at, x)][off2 + x := DoubledByte(src, at, x)]
    ensures RowDone(buf', off, src, at, x + 1) && RowDone(buf', off2, src, at, x + 1)
  {
  }

  // The first 2*n rows of a destination glyph show the first n rows of the source glyph.
  ghost predicate RowsDone(buf: seq<Byte>, base: nat, kbytewidth: nat,
                           src: seq<Byte>, at: nat, bytewidth: nat, n: nat)
  {
    forall r | 0 <= r < 2 * n ::
      RowDone(buf, Start(base, kbytewidth, r), src, Start(at, bytewidth, r / 2), kbytewidth)
  }

  lemma RowsStay(buf: seq<Byte>, buf': seq<Byte>, lo: nat, hi: nat, base: nat, kbytewidth: nat, src: seq<Byte>,
                 at: nat, bytewidth: nat, n: nat)
    requires RowsDone(buf, base, kbytewidth, src, at, bytewidth, n) && SameOutside(buf, buf', lo, hi)
    requires Start(base, kbytewidth, 2 * n) <= lo || hi <= base
    ensures RowsDone(buf', base, kbytewidth, src, at, bytewidth, n)
  {
    forall r | 0 <= r < 2 * n
      ensures RowDone(buf', Start(base, kbytewidth, r), src, Start(at, bytewidth, r / 2), kbytewidth)
    {
      StartBefore(base, kbytewidth, r, 2 * n);
      RowStays(buf, buf', lo, hi, Start(base, kbytewidth, r), src, Start(at, bytewidth, r / 2), kbytewidth);
    }
  }

  lemma RowsStep(buf: seq<Byte>, base: nat, kbytewidth: nat, src: seq<Byte>, at: nat, bytewidth: nat, y: nat)
    requires RowsDone(buf, base, kbytewidth, src, at, bytewidth, y)
    requires RowDone(buf, Start(base, kbytewidth, 2 * y), src, Start(at, bytewidth, y), kbytewidth)
    requires RowDone(buf, Start(base, kbytewidth, 2 * y + 1), src, Start(at, bytewidth, y), kbytewidth)
    ensures RowsDone(buf, base, kbytewidth, src, at, bytewidth, y + 1)
  {
    forall r | 0 <= r < 2 * (y + 1)
      ensures RowDone(buf, Start(base, kbytewidth, r), src, Start(at, bytewidth, r / 2), kbytewidth)
    {
      assert r < 2 * y || (r == 2 * y && r / 2 == y) || (r == 2 * y + 1 && r / 2 == y);
    }
  }

  // setfont.c:94-107, for one glyph
  method DoubleGlyph(src: seq<Byte>, at: nat, height: nat, bytewidth: nat, buf: array<Byte>, base: nat, kbytewidth: nat)
    requires (kbytewidth + 1) / 2 <= bytewidth
    requires Start(at, bytewidth, height) <= |src| && Start(base, kbytewidth, 2 * height) <= buf.Length
    modifies buf
    ensures RowsDone(buf[..], base, kbytewidth, src, at, bytewidth, height)
    ensures SameOutside(old(buf[..]), buf[..], base, Start(base, kbytewidth, 2 * height))
  {
    ghost var all := buf[..];
    for y := 0 to height
      invariant RowsDone(buf[..], base, kbytewidth, src, at, bytewidth, y)
      invariant SameOutside(all, buf[..], base, Start(base, kbytewidth, 2 * height))
    {
      ghost var before := buf[..];
      GlyphBounds(at, bytewidth, base, kbytewidth, y, height);
      var off := Start(base, kbytewidth, 2 * y);
      DoubleRow(src, Start(at, bytewidth, y), buf, off, kbytewidth);
      RowsStay(before, buf[..], off, off + 2 * kbytewidth, base, kbytewidth, src, at, bytewidth, y);
      RowsStep(buf[..], base, kbytewidth, src, at, bytewidth, y);
    }
  }

  lemma GlyphBounds(at: nat, bytewidth: nat, base: nat, kbytewidth: nat, y: nat, height: nat)
    requires y < height
    ensures Start(at, bytewidth, y) + bytewidth <= Start(at, bytewidth, height)
    ensures base <= Start(base, kbytewidth, 2 * y)
    ensures Start(base, kbytewidth, 2 * y + 1) == Start(base, kbytewidth, 2 * y) + kbytewidth
    ensures Start(base, kbytewidth, 2 * y) + 2 * kbytewidth <= Start(base, kbytewidth, 2 * height)
  {
    StartBefore(at, bytewidth, y, height);
    StartBefore(base, kbytewidth, 2 * y, 2 * height);
    StartBefore(base, kbytewidth, 2 * y + 1, 2 * height);
  }

  // ---------------------------------------------------------------- fonts

  // The first n glyphs are doubled, the rows below each and all later glyphs blank.
  ghost predicate GlyphsDone(buf: seq<Byte>, kcharsize: nat, kbytewidth: nat, src: seq<Byte>, height: nat,
                             bytewidth: nat, n: nat) {
    && (forall g | 0 <= g < n :: GlyphDone(buf, kcharsize, kbytewidth, src, height, bytewidth, g))
    && Blank(buf, Start(0, kcharsize, n), |buf|)
  }

  ghost predicate GlyphDone(buf: seq<Byte>, kcharsize: nat, kbytewidth: nat, src: seq<Byte>, height: nat,
                            bytewidth: nat, g: nat) {
    var base := Start(0, kcharsize, g);
    && RowsDone(buf, base, kbytewidth, src, Start(0, height * bytewidth, g), bytewidth, height)
    && Blank(buf, Start(base, kbytewidth, 2 * height), base + kcharsize)
  }

  lemma GlyphStays(buf: seq<Byte>, buf': seq<Byte>, lo: nat, hi: nat, kcharsize: nat, kbytewidth: nat, src: seq<Byte>,
                   height: nat, bytewidth: nat, g: nat)
    requires GlyphDone(buf, kcharsize, kbytewidth, src, height, bytewidth, g) && SameOutside(buf, buf', lo, hi)
    requires Start(0, kcharsize, g) + kcharsize <= lo && Start(0, kbytewidth, 2 * height) <= kcharsize
    ensures GlyphDone(buf', kcharsize, kbytewidth, src, height, bytewidth, g)
  {
    var base := Start(0, kcharsize, g);
    RowsStay(buf, buf', lo, hi, base, kbytewidth, src, Start(0, height * bytewidth, g), bytewidth, height);
    forall p | Start(base, kbytewidth, 2 * height) <= p < base + kcharsize
      ensures buf'[p] == 0
    {
      assert buf[p] == buf'[p];
    }
  }

  lemma GlyphsStep(buf: seq<Byte>, buf': seq<Byte>, kcharsize: nat, kbytewidth: nat, src: seq<Byte>, height: nat,
                   bytewidth: nat, g: nat)
    requires GlyphsDone(buf, kcharsize, kbytewidth, src, height, bytewidth, g)
    requires var base := Start(0, kcharsize, g);
             && RowsDone(buf', base, kbytewidth, src, Start(0, height * bytewidth, g), bytewidth, height)
             && SameOutside(buf, buf', base, Start(base, kbytewidth, 2 * height))
    requires Start(0, kbytewidth, 2 * height) <= kcharsize && Start(0, kcharsize, g + 1) <= |buf|
    ensures GlyphsDone(buf', kcharsize, kbytewidth, src, height, bytewidth, g + 1)
  {
    var base := Start(0, kcharsize, g);
    var end := Start(base, kbytewidth, 2 * height);
    StartBefore(0, kcharsize, g, g + 1);
    forall k | 0 <= k < g
      ensures GlyphDone(buf', kcharsize, kbytewidth, src, height, bytewidth, k)
    {
      StartBefore(0, kcharsize, k, g);
      GlyphStays(buf, buf', base, end, kcharsize, kbytewidth, src, height, bytewidth, k);
    }
    forall p | end <= p < |buf'|
      ensures buf'[p] == 0
    {
      assert buf[p] == buf'[p];
    }
  }

  // setfont.c:92-108
  method DoubleFont(src: seq<Byte>, height: nat, bytewidth: nat, fontsize: nat, buf: array<Byte>, kcharsize: nat,
                    kbytewidth: nat)
    requires (kbytewidth + 1) / 2 <= bytewidth && Start(0, kbytewidth, 2 * height) <= kcharsize
    requires Start(0, height * bytewidth, fontsize) <= |src| && Start(0, kcharsize, fontsize) <= buf.Length
    requires Blank(buf[..], 0, buf.Length)
    modifies buf
    ensures GlyphsDone(buf[..], kcharsize, kbytewidth, src, height, bytewidth, fontsize)
  {
    for i := 0 to fontsize
      invariant GlyphsDone(buf[..], kcharsize, kbytewidth, src, height, bytewidth, i)
    {
      ghost var before := buf[..];
      StartBefore(0, kcharsize, i, fontsize);
      StartBefore(0, height * bytewidth, i, fontsize);
      DoubleGlyph(src, Start(0, height * bytewidth, i), height, bytewidth, buf, Start(0, kcharsize, i), kbytewidth);
      GlyphsStep(before, buf[..], kcharsize, kbytewidth, src, height, bytewidth, i);
    }
  }

  // Doubling is exact: each pixel of the font becomes a square of four of the same colour.
  lemma DoubledPixel(buf: seq<Byte>, src: seq<Byte>, width: nat, height: nat, fontsize: nat, kcharsize: nat,
                     g: nat, y: nat, x: nat, a: nat, b: nat)
    requires var bw, kbw := ByteWidth(width), ByteWidth(2 * width);
             && GlyphsDone(buf, kcharsize, kbw, src, height, bw, fontsize)
             && Start(0, height * bw, fontsize) <= |src| && Start(0, kcharsize, fontsize) <= |buf|
    requires g < fontsize && y < height && x < width && a < 2 && b < 2
    ensures var bw, kbw := ByteWidth(width), ByteWidth(2 * width);
            && PixelByte(g, 2 * y + a, 2 * x + b, kcharsize, kbw) < |buf|
            && PixelByte(g, y, x, height * bw, bw) < |src|
            && Pixel(buf, g, 2 * y + a, 2 * x + b, kcharsize, kbw) == Pixel(src, g, y, x, height * bw, bw)
            && Bit(buf[g * kcharsize + (2 * y + a) * kbw + x / 4], 7 - (2 * x + b) % 8) ==
                 Bit(src[g * (height * bw) + y * bw + x / 8], 7 - x % 8)
  {
    var bw, kbw := ByteWidth(width), ByteWidth(2 * width);
    var base, at := Start(0, kcharsize, g), Start(0, height * bw, g);
    assert GlyphDone(buf, kcharsize, kbw, src, height, bw, g);
    var off, row := Start(base, kbw, 2 * y + a), Start(at, bw, (2 * y + a) / 2);
    assert RowDone(buf, off, src, row, kbw);
    ColumnBytes(width, x, b);
    var X := x / 4;
    assert (2 * x + b) / 8 == X && (2 * y + a) / 2 == y;
    assert buf[off + X] == DoubledByte(src, row, X);
    assert src[row + X / 2] == src[PixelByte(g, y, x, height * bw, bw)];
    NibblePixel(src[row + X / 2], x, b);
  }

  // Pixel (2y + a, 2x + b) of glyph g of the buffer is pixel (y, x) of the source.
  predicate SamePixel(buf: seq<Byte>, src: seq<Byte>, width: nat, height: nat, kcharsize: nat,
                      g: nat, y: nat, x: nat, a: nat, b: nat) {
    var bw, kbw := ByteWidth(width), ByteWidth(2 * width);
    && PixelByte(g, 2 * y + a, 2 * x + b, kcharsize, kbw) < |buf|
    && PixelByte(g, y, x, height * bw, bw) < |src|
    && Pixel(buf, g, 2 * y + a, 2 * x + b, kcharsize, kbw) == Pixel(src, g, y, x, height * bw, bw)
  }

  ghost predicate Doubled(buf: seq<Byte>, src: seq<Byte>, width: nat, height: nat, fontsize: nat, kcharsize: nat) {
    forall g: nat, y: nat, x: nat, a: nat, b: nat | g < fontsize && y < height && x < width && a < 2 && b < 2 ::
      SamePixel(buf, src, width, height, kcharsize, g, y, x, a, b)
  }

  lemma AllDoubled(buf: seq<Byte>, src: seq<Byte>, width: nat, height: nat, fontsize: nat, kcharsize: nat)
    requires var bw, kbw := ByteWidth(width), ByteWidth(2 * width);
             && GlyphsDone(buf, kcharsize, kbw, src, height, bw, fontsize)
             && Start(0, height * bw, fontsize) <= |src| && Start(0, kcharsize, fontsize) <= |buf|
    ensures Doubled(buf, src, width, height, fontsize, kcharsize)
  {
    hide GlyphsDone, Pixel, PixelByte;
    forall g: nat, y: nat, x: nat, a: nat, b: nat | g < fontsize && y < height && x < width && a < 2 && b < 2
      ensures SamePixel(buf, src, width, height, kcharsize, g, y, x, a, b)
    {
      DoubledPixel(buf, src, width, height, fontsize, kcharsize, g, y, x, a, b);
    }
  }

  lemma ColumnBytes(width: nat, x: nat, b: nat)
    requires x < width && b < 2
    ensures (2 * x + b) / 8 == x / 4 < ByteWidth(2 * width) && x / 4 / 2 == x / 8 < ByteWidth(width)
  {
  }

  // Column 2x+b of the doubled byte is column x of the source byte.
  lemma NibblePixel(c: Byte, x: nat, b: nat)
    requires b < 2
    ensures Bit(Spread(if x / 4 % 2 == 0 then c / 16 else c, 4), 7 - (2 * x + b) % 8) == Bit(c, 7 - x % 8)
  {
    var m := x % 4;
    assert (2 * x + b) % 8 == 2 * m + b;
    SpreadBit(if x / 4 % 2 == 0 then c / 16 else c, 7 - (2 * m + b));
    assert (7 - (2 * m + b)) / 2 == 3 - m;
    if x / 4 % 2 == 0 {
      assert x % 8 == m;
      HighNibble(c, 3 - m);
    } else {
      assert x % 8 == 4 + m;
    }
  }

  lemma HighNibble(c: Byte, k: nat)
    requires k < 4
    ensures Bit(c / 16, k) == Bit(c, 4 + k)
  {
    match k
    case 0 =>
    case 1 =>
    case 2 =>
    case 3 =>
  }

  // The bits are the binary digits of the byte, bit 0 the lowest.
  lemma BitsOf(c: Byte)
    ensures c == (if Bit(c, 0) then 1 else 0) + (if Bit(c, 1) then 2 else 0) + (if Bit(c, 2) then 4 else 0)
                 + (if Bit(c, 3) then 8 else 0) + (if Bit(c, 4) then 16 else 0) + (if Bit(c, 5) then 32 else 0)
                 + (if Bit(c, 6) then 64 else 0) + (if Bit(c, 7) then 128 else 0)
  {
    hide Bit;
    var q, r := c / 16, c % 16;
    NibbleBits(q);
    NibbleBits(r);
    forall k: nat | k < 4
      ensures Bit(q, k) == Bit(c, 4 + k) && Bit(r, k) == Bit(c, k)
    {
      HighNibble(c, k);
      LowNibble(c, k);
    }
  }

  lemma NibbleBits(q: Byte)
    requires q < 16
    ensures q == (if Bit(q, 0) then 1 else 0) + (if Bit(q, 1) then 2 else 0) + (if Bit(q, 2) then 4 else 0)
                 + (if Bit(q, 3) then 8 else 0)
  {
  }

  lemma LowNibble(c: Byte, k: nat)
    requires k < 4
    ensures Bit(c % 16, k) == Bit(c, k)
  {
    var q, r := c / 16, c % 16;
    assert c == 16 * q + r;
    match k
    case 0 =>
    case 1 => assert c / 2 == 2 * (4 * q) + r / 2;
    case 2 => assert c / 4 == 2 * (2 * q) + r / 4;
    case 3 => assert c / 8 == 2 * q + r / 8;
  }

  // ---------------------------------------------------------------- padding

  // The first n glyphs are copied to the pitch of the kernel; everything else is blank.
  ghost predicate Padded(buf: seq<Byte>, kcharsize: nat, src: seq<Byte>, charsize: nat, n: nat) {
    && (forall g | 0 <= g < n :: GlyphCopied(buf, Start(0, kcharsize, g), src, Start(0, charsize, g), charsize)
                              && Blank(buf, Start(0, kcharsize, g) + charsize, Start(0, kcharsize, g + 1)))
    && Blank(buf, Start(0, kcharsize, n), |buf|)
  }

  ghost predicate GlyphCopied(buf: seq<Byte>, off: nat, src: seq<Byte>, at: nat, charsize: nat) {
    off + charsize <= |buf| && at + charsize <= |src| && buf[off..off + charsize] == src[at..at + charsize]
  }

  // memcpy
  method CopyGlyph(buf: array<Byte>, off: nat, src: seq<Byte>, at: nat, charsize: nat)
    requires off + charsize <= buf.Length && at + charsize <= |src|
    modifies buf
    ensures GlyphCopied(buf[..], off, src, at, charsize)
    ensures SameOutside(old(buf[..]), buf[..], off, off + charsize)
  {
    for k := 0 to charsize
      invariant buf[off..off + k] == src[at..at + k]
      invariant SameOutside(old(buf[..]), buf[..], off, off + charsize)
    {
      ghost var done := buf[off..off + k];
      buf[off + k] := src[at + k];
      assert buf[off..off + k + 1] == done + [src[at + k]];
      assert src[at..at + k + 1] == src[at..at + k] + [src[at + k]];
    }
    assert buf[..][off..off + charsize] == buf[off..off + charsize];
  }

  lemma PaddedStep(buf: seq<Byte>, buf': seq<Byte>, kcharsize: nat, src: seq<Byte>, charsize: nat, n: nat)
    requires Padded(buf, kcharsize, src, charsize, n) && charsize <= kcharsize
    requires Start(0, kcharsize, n + 1) <= |buf|
    requires var off := Start(0, kcharsize, n);
             && GlyphCopied(buf', off, src, Start(0, charsize, n), charsize)
             && SameOutside(buf, buf', off, off + charsize)
    ensures Padded(buf', kcharsize, src, charsize, n + 1)
  {
    var off := Start(0, kcharsize, n);
    StartBefore(0, kcharsize, n, n + 1);
    forall g | 0 <= g < n
      ensures GlyphCopied(buf', Start(0, kcharsize, g), src, Start(0, charsize, g), charsize)
      ensures Blank(buf', Start(0, kcharsize, g) + charsize, Start(0, kcharsize, g + 1))
    {
      StartBefore(0, kcharsize, g, n);
      CopyStays(buf, buf', Start(0, kcharsize, g), kcharsize, src, Start(0, charsize, g), charsize,
                off, off + charsize);
    }
    BlankStays(buf, buf', off, off + charsize, off + charsize, Start(0, kcharsize, n + 1));
    BlankStays(buf, buf', off, off + charsize, Start(0, kcharsize, n + 1), |buf|);
  }

  // What lies in front of the part that changes stays.
  lemma CopyStays(buf: seq<Byte>, buf': seq<Byte>, lo: nat, kcharsize: nat, src: seq<Byte>, at: nat, charsize: nat,
                  from: nat, to: nat)
    requires SameOutside(buf, buf', from, to) && charsize <= kcharsize && lo + kcharsize <= from <= to <= |buf|
    requires GlyphCopied(buf, lo, src, at, charsize) && Blank(buf, lo + charsize, lo + kcharsize)
    ensures GlyphCopied(buf', lo, src, at, charsize) && Blank(buf', lo + charsize, lo + kcharsize)
  {
    assert forall p | lo <= p < lo + kcharsize :: buf[p] == buf'[p];
    assert buf'[lo..lo + charsize] == buf[lo..lo + charsize];
  }

  // A blank part behind the part that changes stays blank.
  lemma BlankStays(buf: seq<Byte>, buf': seq<Byte>, off: nat, end: nat, from: nat, to: nat)
    requires SameOutside(buf, buf', off, end) && off <= end <= from <= to <= |buf| && Blank(buf, off, |buf|)
    ensures Blank(buf', from, to)
  {
  }

  // setfont.c:126-127
  method PadFont(src: seq<Byte>, charsize: nat, fontsize: nat, buf: array<Byte>, kcharsize: nat)
    requires charsize <= kcharsize
    requires Start(0, charsize, fontsize) <= |src| && Start(0, kcharsize, fontsize) <= buf.Length
    requires Blank(buf[..], 0, buf.Length)
    modifies buf
    ensures Padded(buf[..], kcharsize, src, charsize, fontsize)
  {
    for i := 0 to fontsize
      invariant Padded(buf[..], kcharsize, src, charsize, i)
    {
      ghost var before := buf[..];
      StartBefore(0, kcharsize, i, fontsize);
      StartBefore(0, charsize, i, fontsize);
      CopyGlyph(buf, Start(0, kcharsize, i), src, Start(0, charsize, i), charsize);
      PaddedStep(before, buf[..], kcharsize, src, charsize, i);
    }
  }

  // setfont.c:650-655: what save_font writes of the kernel's buffer
  method SaveGlyphs(buf: seq<Byte>, charsize: nat, kcharsize: nat, ct: nat) returns (fpo: seq<Byte>)
    requires charsize <= kcharsize && Start(0, kcharsize, ct) <= |buf|
    ensures fpo == Cut(buf, charsize, kcharsize, ct)
  {
    fpo := [];
    for i := 0 to ct
      invariant Start(0, kcharsize, i) <= |buf| && fpo == Cut(buf, charsize, kcharsize, i)
    {
      StartBefore(0, kcharsize, i, ct);
      var off := Start(0, kcharsize, i);
      fpo := fpo + buf[off..off + charsize];
    }
  }

  // The first charsize bytes of each of n glyphs.
  function Cut(buf: seq<Byte>, charsize: nat, kcharsize: nat, n: nat): seq<Byte>
    requires charsize <= kcharsize && Start(0, kcharsize, n) <= |buf|
  {
    if n == 0 then []
    else
      StartBefore(0, kcharsize, n - 1, n);
      var off := Start(0, kcharsize, n - 1);
      Cut(buf, charsize, kcharsize, n - 1) + buf[off..off + charsize]
  }

  // Loading a font without doubling and saving it again is the identity.
  lemma {:induction false} SaveUndoesPad(buf: seq<Byte>, kcharsize: nat, src: seq<Byte>, charsize: nat, n: nat, m: nat)
    requires Padded(buf, kcharsize, src, charsize, n) && charsize <= kcharsize && m <= n
    requires Start(0, kcharsize, n) <= |buf| && Start(0, charsize, n) <= |src|
    ensures Start(0, kcharsize, m) <= |buf| && Start(0, charsize, m) <= |src|
    ensures Cut(buf, charsize, kcharsize, m) == src[..Start(0, charsize, m)]
  {
    StartWithin(kcharsize, m, n);
    StartWithin(charsize, m, n);
    if m > 0 {
      SaveUndoesPad(buf, kcharsize, src, charsize, n, m - 1);
      StartBefore(0, kcharsize, m - 1, m);
      StartBefore(0, charsize, m - 1, m);
      var at := Start(0, charsize, m - 1);
      assert GlyphCopied(buf, Start(0, kcharsize, m - 1), src, at, charsize);
      TakeMore(src, at, charsize);
    }
  }

  lemma StartWithin(size: nat, m: nat, n: nat)
    requires m <= n
    ensures Start(0, size, m) <= Start(0, size, n)
  {
    if m < n {
      StartBefore(0, size, m, n);
    }
  }

  lemma TakeMore(s: seq<Byte>, at: nat, n: nat)
    requires at + n <= |s|
    ensures s[..at + n] == s[..at] + s[at..at + n]
  {
  }

  // ---------------------------------------------------------------- try_loadfont

  datatype LoadError = BadHeight | BadWidth

  // What goes to the kernel: the buffer, the glyph size shown, the unit height and the pitch.
  datatype KernelFont = KernelFont(buf: seq<Byte>, count: nat, width: nat, height: nat, vpitch: nat)

  function Max(a: nat, b: nat): nat {
    if a < b then b else a
  }

  // No 32-bit size wraps around for a font that was read from a file of at most MAXFONTSIZE bytes.
  lemma BufferFits(width: nat, height: nat, fontsize: nat, vpitch: nat, kbytewidth: nat)
    requires 1 <= height <= 128 && 1 <= width <= 64
    requires fontsize * (height * ByteWidth(width)) <= MAXFONTSIZE
    requires vpitch <= Max(32, 2 * height) && kbytewidth <= 2 * ByteWidth(width)
    ensures vpitch * kbytewidth * Max(fontsize, 128) <= UINT_MAX
    ensures vpitch * kbytewidth <= UINT_MAX
  {
    hide ByteWidth;
    var bw := ByteWidth(width);
    WidthOf64(width);
    Monotone(vpitch, 64 * height, kbytewidth, 2 * bw);
    Twice(64, height, bw);
    GlyphsFit(vpitch * kbytewidth, height, bw, fontsize);
  }

  lemma WidthOf64(width: nat)
    requires 1 <= width <= 64
    ensures 1 <= ByteWidth(width) <= 8
  {
  }

  lemma Twice(n: nat, height: nat, bw: nat)
    ensures n * height * (2 * bw) == 2 * n * (height * bw)
  {
  }

  lemma GlyphsFit(glyph: nat, height: nat, bw: nat, fontsize: nat)
    requires height <= 128 && bw <= 8 && glyph <= 128 * (height * bw) && fontsize * (height * bw) <= MAXFONTSIZE
    ensures glyph * Max(fontsize, 128) <= UINT_MAX && glyph <= UINT_MAX
  {
    Monotone(height, 128, bw, 8);
    var c := height * bw;
    if fontsize >= 128 {
      Monotone(glyph, 128 * c, fontsize, fontsize);
      Regroup(c, fontsize);
    } else {
      Monotone(glyph, 128 * 128 * 8, 128, 128);
    }
  }

  lemma Regroup(c: nat, n: nat)
    ensures 128 * c * n == 128 * (n * c)
  {
  }

  // try_loadfont up to the call of kfont_put_font.  A font that cannot be doubled is loaded as it is.
  method TryLoadFont(inbuf: seq<Byte>, width: nat, height: nat, vpitch: nat, hwunit: nat, fontsize: nat,
                     doubleSize: bool) returns (r: Result<KernelFont, LoadError>)
    requires height <= vpitch <= Max(32, height)
    requires fontsize * (height * ByteWidth(width)) <= |inbuf| && fontsize * (height * ByteWidth(width)) <= MAXFONTSIZE
    ensures height < 1 || height > 128 ==> r == Err(BadHeight)
    ensures 1 <= height <= 128 && (width < 1 || width > 64) ==> r == Err(BadWidth)
    ensures 1 <= height <= 128 && 1 <= width <= 64 ==> r.Ok?
    ensures r.Ok? && doubleSize && height <= 64 && width <= 32 ==>
      var k := r.value;
      && k.width == 2 * width && k.height == 2 * (if hwunit == 0 then height else hwunit)
      && k.vpitch == Max(vpitch, 2 * height) && k.count == fontsize
      && |k.buf| == k.vpitch * ByteWidth(2 * width) * Max(fontsize, 128)
      && GlyphsDone(k.buf, k.vpitch * ByteWidth(2 * width), ByteWidth(2 * width), inbuf, height, ByteWidth(width),
                    fontsize)
    ensures r.Ok? && !(doubleSize && height <= 64 && width <= 32) ==>
      var k := r.value;
      && k.width == width && k.height == (if hwunit == 0 then height else hwunit)
      && k.vpitch == vpitch && k.count == fontsize && |k.buf| == vpitch * ByteWidth(width) * Max(fontsize, 128)
      && Padded(k.buf, vpitch * ByteWidth(width), inbuf, height * ByteWidth(width), fontsize)
  {
    if height < 1 || height > 128 {
      return Err(BadHeight);
    }
    if width < 1 || width > 64 {
      return Err(BadWidth);
    }
    var unit := if hwunit == 0 then height else hwunit;
    var bytewidth := ByteWidth(width);
    var charsize := height * bytewidth;
    if doubleSize && !(height > 64 || width > 32) {
      var kbytewidth := ByteWidth(2 * width);
      var pitch := if 2 * height > vpitch then 2 * height else vpitch;
      var buf, kcharsize := NewBuffer(width, height, fontsize, pitch, kbytewidth);
      Monotone(2 * height, pitch, kbytewidth, kbytewidth);
      DoubleFont(inbuf, height, bytewidth, fontsize, buf, kcharsize, kbytewidth);
      return Ok(KernelFont(buf[..], fontsize, 2 * width, 2 * unit, pitch));
    } else {
      var buf, kcharsize := NewBuffer(width, height, fontsize, vpitch, bytewidth);
      Monotone(height, vpitch, bytewidth, bytewidth);
      PadFont(inbuf, charsize, fontsize, buf, kcharsize);
      return Ok(KernelFont(buf[..], fontsize, width, unit, vpitch));
    }
  }

  // calloc of kcharsize * max(fontsize, 128) bytes, computed in 32 bits
  method NewBuffer(width: nat, height: nat, fontsize: nat, vpitch: nat, kbytewidth: nat)
    returns (buf: array<Byte>, kcharsize: nat)
    requires 1 <= height <= 128 && 1 <= width <= 64
    requires fontsize * (height * ByteWidth(width)) <= MAXFONTSIZE
    requires vpitch <= Max(32, 2 * height) && kbytewidth <= 2 * ByteWidth(width)
    ensures fresh(buf) && kcharsize == vpitch * kbytewidth && buf.Length == kcharsize * Max(fontsize, 128)
    ensures Blank(buf[..], 0, buf.Length) && Start(0, kcharsize, fontsize) <= buf.Length
  {
    hide ToUint32, ByteWidth;
    BufferFits(width, height, fontsize, vpitch, kbytewidth);
    kcharsize := ToUint32(vpitch * kbytewidth);
    NoWrap(vpitch * kbytewidth);
    var n := if fontsize < 128 then 128 else fontsize;
    var buflen := ToUint32(kcharsize * n);
    NoWrap(kcharsize * n);
    buf := new Byte[buflen](_ => 0);
    Monotone(kcharsize, kcharsize, fontsize, n);
  }

  lemma NoWrap(x: nat)
    requires x <= UINT_MAX
    ensures ToUint32(x) == x
  {
  }

  // The glyphs can be cut back out of the buffer.
  predicate CutsBack(k: KernelFont, inbuf: seq<Byte>, width: nat, height: nat, fontsize: nat) {
    var charsize, kcharsize := height * ByteWidth(width), k.vpitch * ByteWidth(width);
    && charsize <= kcharsize && Start(0, kcharsize, fontsize) <= |k.buf| && fontsize * charsize <= |inbuf|
    && Cut(k.buf, charsize, kcharsize, fontsize) == inbuf[..fontsize * charsize]
  }

  // do_loadfont chooses the pitch: rows of 32, as old kernels want them, where that is enough.  A font is doubled
  // if it stays within 64 x 128 pixels.
  method DoLoadFont(inbuf: seq<Byte>, width: nat, height: nat, hwunit: nat, fontsize: nat, doubleSize: bool)
    returns (r: Result<KernelFont, LoadError>)
    requires fontsize * (height * ByteWidth(width)) <= |inbuf| && fontsize * (height * ByteWidth(width)) <= MAXFONTSIZE
    ensures r.Ok? <==> 1 <= height <= 128 && 1 <= width <= 64
    ensures r.Ok? && doubleSize && height <= 64 && width <= 32 ==>
              var k := r.value;
              && k.count == fontsize && k.width == 2 * width && k.height == 2 * (if hwunit == 0 then height else hwunit)
              && k.vpitch == (if height <= 16 then 32 else 2 * height)
              && Doubled(k.buf, inbuf, width, height, fontsize, k.vpitch * ByteWidth(2 * width))
    ensures r.Ok? && !(doubleSize && height <= 64 && width <= 32) ==>
              var k := r.value;
              && k.count == fontsize && k.width == width && k.height == (if hwunit == 0 then height else hwunit)
              && k.vpitch == (if height <= 32 && width <= 32 then 32 else height)
              && CutsBack(k, inbuf, width, height, fontsize)
  {
    hide Doubled, GlyphsDone, Padded, CutsBack;
    if height <= 32 && width <= 32 {
      r := TryLoadFont(inbuf, width, height, 32, hwunit, fontsize, doubleSize);
    } else {
      r := TryLoadFont(inbuf, width, height, height, hwunit, fontsize, doubleSize);
    }
    if r.Ok? {
      if doubleSize && height <= 64 && width <= 32 {
        BufferDoubled(r.value, inbuf, width, height, fontsize);
      } else {
        BufferCuts(r.value, inbuf, width, height, fontsize);
      }
    }
  }

  lemma BufferDoubled(k: KernelFont, inbuf: seq<Byte>, width: nat, height: nat, fontsize: nat)
    requires fontsize * (height * ByteWidth(width)) <= |inbuf|
    requires |k.buf| == k.vpitch * ByteWidth(2 * width) * Max(fontsize, 128)
    requires GlyphsDone(k.buf, k.vpitch * ByteWidth(2 * width), ByteWidth(2 * width), inbuf, height, ByteWidth(width),
                        fontsize)
    ensures Doubled(k.buf, inbuf, width, height, fontsize, k.vpitch * ByteWidth(2 * width))
  {
    hide GlyphsDone, Doubled, ByteWidth;
    var kcharsize := k.vpitch * ByteWidth(2 * width);
    Monotone(kcharsize, kcharsize, fontsize, Max(fontsize, 128));
    AllDoubled(k.buf, inbuf, width, height, fontsize, kcharsize);
  }

  lemma BufferCuts(k: KernelFont, inbuf: seq<Byte>, width: nat, height: nat, fontsize: nat)
    requires fontsize * (height * ByteWidth(width)) <= |inbuf| && height <= k.vpitch
    requires |k.buf| == k.vpitch * ByteWidth(width) * Max(fontsize, 128)
    requires Padded(k.buf, k.vpitch * ByteWidth(width), inbuf, height * ByteWidth(width), fontsize)
    ensures CutsBack(k, inbuf, width, height, fontsize)
  {
    hide Padded, Cut, ByteWidth;
    var bytewidth := ByteWidth(width);
    Monotone(height, k.vpitch, bytewidth, bytewidth);
    Monotone(k.vpitch * bytewidth, k.vpitch * bytewidth, fontsize, Max(fontsize, 128));
    SaveUndoesPad(k.buf, k.vpitch * bytewidth, inbuf, height * bytewidth, fontsize, fontsize);
  }
}
