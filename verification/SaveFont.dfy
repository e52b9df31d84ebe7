/**
  setfont.c:603-693: the file setfont leaves when it saves the console's font, header, glyphs and map of
  the kernel together, and what reading it gives back.
 */
module SaveFont {
  import opened Bytes
  import opened PsfTable
  import opened PsfFont
  import opened FontBitmap
  import opened Unimap
  import PsfWriter

  // ---------------------------------------------------------------- the height of an old font

  // Row h of glyph i, 32 rows a glyph, lies in the buffer and has no pixel.
  ghost predicate RowBlank(buf: seq<Byte>, i: nat, h: nat, bytewidth: nat) {
    var at := (32 * i + h) * bytewidth;
    Blank(buf, at, at + bytewidth)
  }

  // No glyph has a pixel in row h.
  ghost predicate AllBlank(buf: seq<Byte>, count: nat, h: nat, bytewidth: nat) {
    forall i | 0 <= i < count :: RowBlank(buf, i, h, bytewidth)
  }

  lemma RowInside(count: nat, i: nat, h: nat, bytewidth: nat)
    requires i < count && h < 32
    ensures (32 * i + h) * bytewidth + bytewidth <= 32 * count * bytewidth
  {
    Monotone(32 * i + h + 1, 32 * count, bytewidth, bytewidth);
    assert (32 * i + h) * bytewidth + bytewidth == (32 * i + h + 1) * bytewidth;
  }

  // kdfontop.c:74-76, for one row of a glyph
  method FindPixel(buf: seq<Byte>, i: nat, h: nat, bytewidth: nat) returns (found: bool)
    requires (32 * i + h) * bytewidth + bytewidth <= |buf|
    ensures found <==> !RowBlank(buf, i, h, bytewidth)
  {
    var at := (32 * i + h) * bytewidth;
    for x := 0 to bytewidth
      invariant Blank(buf, at, at + x)
    {
      if buf[at + x] != 0 {
        return true;
      }
    }
    return false;
  }

  // font_charheight: the rows up to the last one in which some glyph has a pixel
  method CharHeight(buf: seq<Byte>, count: nat, width: nat) returns (h: nat)
    requires 32 * count * ByteWidth(width) <= |buf|
    ensures h <= 32 && forall r | h <= r < 32 :: AllBlank(buf, count, r, ByteWidth(width))
    ensures h > 0 ==> !AllBlank(buf, count, h - 1, ByteWidth(width))
  {
    hide RowBlank, ByteWidth;
    var bytewidth := ByteWidth(width);
    h := 32;
    while h > 0
      invariant h <= 32 && forall r | h <= r < 32 :: AllBlank(buf, count, r, bytewidth)
    {
      var row := h - 1;
      for i := 0 to count
        invariant forall j | 0 <= j < i :: RowBlank(buf, j, row, bytewidth)
      {
        RowInside(count, i, row, bytewidth);
        var found := FindPixel(buf, i, row, bytewidth);
        if found {
          return;
        }
      }
      h := row;
    }
  }

  // ---------------------------------------------------------------- the file

  const MAX_WIDTH := 64
  const MAX_HEIGHT := 128
  const MAX_COUNT := 4096

  // What the kernel answers to a request for at most MAX_COUNT glyphs of 64x128 pixels.
  predicate Answer(buf: seq<Byte>, width: Uint32, vpitch: nat, count: Uint32) {
    |buf| == MAXFONTSIZE && width <= MAX_WIDTH && vpitch <= MAX_HEIGHT && count <= MAX_COUNT
  }

  lemma AnswerFits(buf: seq<Byte>, width: Uint32, vpitch: nat, count: Uint32)
    requires Answer(buf, width, vpitch, count)
    ensures FontBitmap.Start(0, vpitch * ByteWidth(width), count) <= |buf|
    ensures vpitch == 32 ==> 32 * count * ByteWidth(width) <= |buf|
  {
    var bw := ByteWidth(width);
    Monotone(vpitch, MAX_HEIGHT, bw, 8);
    Monotone(count, MAX_COUNT, vpitch * bw, MAX_HEIGHT * 8);
    assert 32 * count * bw == count * (32 * bw);
  }

  // The font the kernel shows: of every glyph the rows up to the height, and its map as the table.
  function Shown(buf: seq<Byte>, width: Uint32, height: Uint32, vpitch: nat, count: Uint32, list: seq<UniPair>): Font
    requires Answer(buf, width, vpitch, count) && height <= vpitch
  {
    AnswerFits(buf, width, vpitch, count);
    Monotone(height, vpitch, ByteWidth(width), ByteWidth(width));
    Font(width, height, count, Cut(buf, height * ByteWidth(width), vpitch * ByteWidth(width), count),
         MapTable(list, count))
  }

  // Header, glyphs, if there is a pixel at all, and map.
  function SavedFile(f: Font, list: seq<UniPair>, withMap: bool): seq<Byte> {
    PsfWriter.HeaderBytes(f.width, f.height, f.length, 1, withMap, false)
    + (if f.height == 0 then [] else f.bitmap)
    + (if withMap then SavedMap(list, f.length, IsPsf2(f.width, f.height, f.length, 1)) else [])
  }

  // kfont_save_font, given the buffer and the pairs that the kernel returned.  fwrite of items of size 0
  // reports that nothing was written.
  method SaveConsoleFont(buf: seq<Byte>, width: Uint32, height0: Uint32, vpitch: nat, count: Uint32, list: seq<UniPair>,
                         withMap: bool) returns (ok: bool, fpo: seq<Byte>, height: Uint32)
    requires Answer(buf, width, vpitch, count) && height0 <= vpitch && (height0 == 0 ==> vpitch == 32)
    ensures height <= vpitch && (height0 > 0 ==> height == height0)
    ensures ok <==> height == 0 || width > 0 || count == 0
    ensures ok ==> fpo == SavedFile(Shown(buf, width, height, vpitch, count, list), list, withMap)
  {
    hide Cut, SavedMap, PsfWriter.HeaderBytes, IsPsf2;
    var bytewidth := ByteWidth(width);
    height := height0;
    AnswerFits(buf, width, vpitch, count);
    if height == 0 {
      height := CharHeight(buf, count, width);
    }
    Monotone(height, vpitch, bytewidth, bytewidth);
    var charsize, kcharsize := height * bytewidth, vpitch * bytewidth;
    var psftype;
    psftype, fpo := PsfWriter.WritePsfFontHeader([], width, height, count, 1, withMap, false);
    ghost var header := fpo;
    if height != 0 {
      if charsize == 0 && count > 0 {
        assert bytewidth == 0;
        return false, fpo, height;
      }
      var glyphs := SaveGlyphs(buf, charsize, kcharsize, count);
      fpo := fpo + glyphs;
    } else {
      assert fpo == header + [];
    }
    ok := true;
    if withMap {
      fpo := AppendUnicodeMap(fpo, list, count, psftype == 2);
    } else {
      assert fpo + [] == fpo;
    }
  }

  // ---------------------------------------------------------------- the file read back

  lemma MapHasNoSequences(list: seq<UniPair>, fontsize: nat)
    ensures !HasSequences(MapTable(list, fontsize))
  {
    forall i | 0 <= i < fontsize
      ensures forall s | s in MapTable(list, fontsize)[i] :: |s| == 1
    {
      EntryAtSingles(list, i, |list|, true);
    }
  }

  // What is saved is the file of the font with the kernel's map as its table.
  lemma SavedIsEncoded(f: Font, list: seq<UniPair>, withMap: bool)
    requires f.height > 0 && f.table == MapTable(list, f.length)
    ensures IsTable(f.table) && SavedFile(f, list, withMap) == EncodeFont(f, 1, withMap)
  {
    MapTableIsTable(list, f.length);
    MapHasNoSequences(list, f.length);
    PsfWriter.FontPieces(f, 1, withMap);
  }

  // The saved file is read back as the font that was shown, with the kernel's map as its table, exactly when
  // it has a PSF2 header or no pair in reach is one of the two marks of PSF1.
  lemma SavedFontIff(f: Font, list: seq<UniPair>)
    requires Fits(f) && f.table == MapTable(list, f.length) && f.length <= 0x1_0000
    ensures ParseFont(SavedFile(f, list, true)) == Ok(f) <==>
              IsPsf2(f.width, f.height, f.length, 1)
              || forall a | a in list && a.fontpos < f.length :: a.unicode < 0xFFFE
    ensures ParseFont(SavedFile(f, list, false)) == Ok(f.(table := EmptyTable(f.length)))
  {
    var utf8 := IsPsf2(f.width, f.height, f.length, 1);
    SavedIsEncoded(f, list, true);
    SavedIsEncoded(f, list, false);
    FontRoundTripIff(f, 1);
    MapReadable(list, f.length, utf8);
  }

  // A font that was loaded without doubling, saved from the kernel's buffer and read again: the same sizes
  // and bitmap, and the kernel's map as the table.
  lemma LoadedSavedIff(f: Font, buf: seq<Byte>, vpitch: nat, list: seq<UniPair>)
    requires Fits(f) && Answer(buf, f.width, vpitch, f.length) && f.height <= vpitch
    requires Padded(buf, vpitch * ByteWidth(f.width), f.bitmap, f.height * ByteWidth(f.width), f.length)
    ensures var g := Shown(buf, f.width, f.height, vpitch, f.length, list);
            && g == f.(table := MapTable(list, f.length))
            && (ParseFont(SavedFile(g, list, true)) == Ok(g) <==>
                  IsPsf2(f.width, f.height, f.length, 1)
                  || forall a | a in list && a.fontpos < f.length :: a.unicode < 0xFFFE)
  {
    hide Padded, ParseFont, SavedFile, Cut;
    var bw := ByteWidth(f.width);
    AnswerFits(buf, f.width, vpitch, f.length);
    Monotone(f.height, vpitch, bw, bw);
    SaveUndoesPad(buf, vpitch * bw, f.bitmap, f.height * bw, f.length, f.length);
    assert f.bitmap[..FontBitmap.Start(0, f.height * bw, f.length)] == f.bitmap;
    MapTableIsTable(list, f.length);
    SavedFontIff(f.(table := MapTable(list, f.length)), list);
  }
}
