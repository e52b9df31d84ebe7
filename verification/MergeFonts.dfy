/**
  Merging several PSF fonts into one (setfont.c:295-375): bitmaps and entries are put one behind the
  other.
 */
module MergeFonts {
  import opened Bytes
  import opened UnicodeLists
  import opened PsfTable
  import opened PsfFont
  import opened PsfReader
  import FontBitmap

  // ---------------------------------------------------------------- fonts put one behind the other

  // Bytes of a glyph.
  function GlyphBytes(f: Font): nat {
    f.height * ByteWidth(f.width)
  }

  // A font as kfont_read_psffont accepts it.
  predicate Complete(f: Font) {
    && f.length > 0 && f.width > 0 && f.height > 0
    && |f.bitmap| == f.length * GlyphBytes(f) && |f.table| == f.length
  }

  predicate AllComplete(fonts: seq<Font>) {
    forall i | 0 <= i < |fonts| :: Complete(fonts[i])
  }

  predicate SameSize(fonts: seq<Font>) {
    forall i | 0 <= i < |fonts| :: fonts[i].width == fonts[0].width && fonts[i].height == fonts[0].height
  }

  // The first n fonts together: glyph count, bitmaps, entries.
  function Count(fonts: seq<Font>, n: nat): nat
    requires n <= |fonts|
  {
    if n == 0 then 0 else Count(fonts, n - 1) + fonts[n - 1].length
  }

  function Bitmaps(fonts: seq<Font>, n: nat): seq<Byte>
    requires n <= |fonts|
  {
    if n == 0 then [] else Bitmaps(fonts, n - 1) + fonts[n - 1].bitmap
  }

  function Entries(fonts: seq<Font>, n: nat): seq<Entry>
    requires n <= |fonts|
  {
    if n == 0 then [] else Entries(fonts, n - 1) + fonts[n - 1].table
  }

  lemma {:induction false} EntriesLength(fonts: seq<Font>, n: nat)
    requires AllComplete(fonts) && n <= |fonts|
    ensures |Entries(fonts, n)| == Count(fonts, n)
  {
    if n > 0 {
      EntriesLength(fonts, n - 1);
    }
  }

  // Nothing is lost, moved or mixed up: slot p of font i is slot Count(i) + p of the merged font.
  lemma {:induction false} SlotKept(fonts: seq<Font>, n: nat, i: nat, p: nat)
    requires AllComplete(fonts) && i < n <= |fonts| && p < fonts[i].length
    ensures Count(fonts, i) + p < |Entries(fonts, n)| == Count(fonts, n)
    ensures Entries(fonts, n)[Count(fonts, i) + p] == fonts[i].table[p]
  {
    EntriesLength(fonts, n - 1);
    if i < n - 1 {
      SlotKept(fonts, n - 1, i, p);
    }
  }

  lemma {:induction false} BitmapsLength(fonts: seq<Font>, n: nat, c: nat)
    requires AllComplete(fonts) && SameSize(fonts) && n <= |fonts|
    requires fonts != [] ==> c == GlyphBytes(fonts[0])
    ensures |Bitmaps(fonts, n)| == Count(fonts, n) * c
  {
    if n > 0 {
      BitmapsLength(fonts, n - 1, c);
      assert GlyphBytes(fonts[n - 1]) == c;
      Distribute(Count(fonts, n - 1), fonts[n - 1].length, c);
    }
  }

  lemma Distribute(a: nat, b: nat, c: nat)
    ensures (a + b) * c == a * c + b * c
  {
  }

  // Where glyph number g starts.
  function GlyphStart(g: nat, c: nat): nat {
    g * c
  }

  lemma GlyphInside(f: Font, p: nat, c: nat)
    requires Complete(f) && c == GlyphBytes(f) && p < f.length
    ensures GlyphStart(p, c) + c <= |f.bitmap|
  {
    Monotone(p + 1, f.length, c, c);
    Distribute(p, 1, c);
  }

  // Glyph p of font i is glyph Count(i) + p of the merged font, for glyphs of c bytes.
  lemma {:induction false} GlyphKept(fonts: seq<Font>, n: nat, i: nat, p: nat, c: nat)
    requires AllComplete(fonts) && SameSize(fonts) && i < n <= |fonts| && p < fonts[i].length
    requires c == GlyphBytes(fonts[0])
    ensures GlyphStart(p, c) + c <= |fonts[i].bitmap|
    ensures GlyphStart(Count(fonts, i) + p, c) + c <= |Bitmaps(fonts, n)|
    ensures var at, from := GlyphStart(Count(fonts, i) + p, c), GlyphStart(p, c);
            Bitmaps(fonts, n)[at..at + c] == fonts[i].bitmap[from..from + c]
  {
    var at, from := GlyphStart(Count(fonts, i) + p, c), GlyphStart(p, c);
    BitmapsLength(fonts, n - 1, c);
    assert GlyphBytes(fonts[i]) == c;
    GlyphInside(fonts[i], p, c);
    Distribute(Count(fonts, i), p, c);
    if i == n - 1 {
      SliceOfSecond(Bitmaps(fonts, i), fonts[i].bitmap, from, c);
    } else {
      GlyphKept(fonts, n - 1, i, p, c);
      SliceOfFirst(Bitmaps(fonts, n - 1), fonts[n - 1].bitmap, at, c);
    }
  }

  lemma SliceOfFirst(a: seq<Byte>, b: seq<Byte>, at: nat, c: nat)
    requires at + c <= |a|
    ensures (a + b)[at..at + c] == a[at..at + c]
  {
  }

  lemma SliceOfSecond(a: seq<Byte>, b: seq<Byte>, at: nat, c: nat)
    requires at + c <= |b|
    ensures (a + b)[|a| + at..|a| + at + c] == b[at..at + c]
  {
  }

  // ---------------------------------------------------------------- kfont_load_fonts

  const MAXIFILES := 256

  // As many files as setfont takes, each as large as the reader takes.
  type Files = fs: seq<seq<Byte>> | |fs| <= MAXIFILES && forall i | 0 <= i < |fs| :: |fs[i]| <= FontBitmap.MAXFONTSIZE

  lemma ParsedComplete(s: seq<Byte>)
    ensures ParseFont(s).Ok? ==> Complete(ParseFont(s).value) && ParseFont(s).value.length <= |s|
    ensures ParseFont(s).Ok? ==> ParseSizes(s).Ok? && ParseSizes(s).value.0.length == ParseFont(s).value.length
  {
    AcceptedBounds(s);
    if ParseFont(s).Ok? {
      var f := ParseFont(s).value;
      if GlyphBytes(f) == 0 {
        Monotone(1, f.height, 1, ByteWidth(f.width));
      }
      GrowsBy(f.length, GlyphBytes(f));
    }
  }

  lemma FilesOf(s: seq<Byte>)
    ensures ParseSizes(s).Ok? ==> ParseSizes(s).value.0.length <= |s|
  {
    if ParseSizes(s).Ok? {
      var h := ParseSizes(s).value.0;
      GrowsBy(h.length, h.charsize);
    }
  }

  datatype MergeError = NotAllPsf | HeightsDiffer | WidthsDiffer

  // The fonts of the first n files, or what is wrong with the first file that does not go with the others.
  function FontsOf(files: seq<seq<Byte>>, n: nat): Result<seq<Font>, MergeError>
    requires n <= |files|
  {
    if n == 0 then Ok([]) else
      match FontsOf(files, n - 1)
      case Err(x) => Err(x)
      case Ok(fonts) => NextFont(fonts, ParseFont(files[n - 1]))
  }

  function NextFont(fonts: seq<Font>, parsed: Result<Font, ReadError>): Result<seq<Font>, MergeError> {
    match parsed
    case Err(_) => Err(NotAllPsf)
    case Ok(f) =>
      if fonts != [] && fonts[0].height != f.height then Err(HeightsDiffer)
      else if fonts != [] && fonts[0].width != f.width then Err(WidthsDiffer)
      else Ok(fonts + [f])
  }

  predicate Agree(files: seq<seq<Byte>>, n: nat)
    requires n <= |files|
  {
    && (forall i | 0 <= i < n :: ParseFont(files[i]).Ok?)
    && (forall i | 0 <= i < n :: ParseFont(files[i]).value.width == ParseFont(files[0]).value.width
                              && ParseFont(files[i]).value.height == ParseFont(files[0]).value.height)
  }

  // Merging is possible exactly when every file is a font and all have one size; it keeps every font.
  lemma {:induction false} FontsOfIff(files: seq<seq<Byte>>, n: nat)
    requires n <= |files|
    ensures FontsOf(files, n).Ok? <==> Agree(files, n)
    ensures FontsOf(files, n).Ok? ==>
              var fonts := FontsOf(files, n).value;
              && |fonts| == n && AllComplete(fonts) && SameSize(fonts)
              && forall i | 0 <= i < n :: ParseFont(files[i]) == Ok(fonts[i])
  {
    hide ParseFont, Complete;
    if n > 0 {
      FontsOfIff(files, n - 1);
      ParsedComplete(files[n - 1]);
    }
  }

  lemma {:induction false} ErrorStays(files: seq<seq<Byte>>, n: nat, m: nat)
    requires n <= m <= |files| && FontsOf(files, n).Err?
    ensures FontsOf(files, m) == FontsOf(files, n)
  {
    if n < m {
      ErrorStays(files, n, m - 1);
    }
  }

  datatype Merged = Merged(bitmap: seq<Byte>, count: Uint32, width: nat, height: nat, heads: seq<UnicodeList>)

  // What the loop has put together holds the fonts read so far.
  ghost predicate Together(m: Merged, fonts: seq<Font>)
    reads m.heads, Footprint(m.heads)
  {
    ValidHeads(m.heads) && Holds(m, Tables(m.heads), fonts)
  }

  ghost predicate Holds(m: Merged, table: seq<Entry>, fonts: seq<Font>) {
    && AllComplete(fonts) && SameSize(fonts)
    && m.bitmap == Bitmaps(fonts, |fonts|) && m.count == Count(fonts, |fonts|) == |table|
    && table == Entries(fonts, |fonts|)
    && m.width == (if fonts == [] then 0 else fonts[0].width)
    && m.height == (if fonts == [] then 0 else fonts[0].height)
  }

  lemma {:induction false} PrefixSame(fonts: seq<Font>, f: Font, n: nat)
    requires n <= |fonts|
    ensures Count(fonts + [f], n) == Count(fonts, n) && Bitmaps(fonts + [f], n) == Bitmaps(fonts, n)
    ensures Entries(fonts + [f], n) == Entries(fonts, n)
  {
    if n > 0 {
      PrefixSame(fonts, f, n - 1);
    }
  }

  // One more font of the same size.
  lemma HoldsStep(m: Merged, table: seq<Entry>, fonts: seq<Font>, f: Font, m': Merged)
    requires Holds(m, table, fonts) && Complete(f)
    requires fonts != [] ==> fonts[0].width == f.width && fonts[0].height == f.height
    requires m'.bitmap == m.bitmap + f.bitmap && m'.count == m.count + f.length
    requires m'.width == f.width && m'.height == f.height
    ensures Holds(m', table + f.table, fonts + [f])
  {
    var more := fonts + [f];
    PrefixSame(fonts, f, |fonts|);
    EntriesLength(fonts, |fonts|);
    assert more[|fonts|] == f && forall i | 0 <= i < |fonts| :: more[i] == fonts[i];
    assert |more| - 1 == |fonts|;
    assert AllComplete(more) && SameSize(more);
    assert Bitmaps(more, |more|) == Bitmaps(more, |fonts|) + f.bitmap;
    assert Entries(more, |more|) == Entries(more, |fonts|) + f.table;
    assert Count(more, |more|) == Count(more, |fonts|) + f.length;
  }

  // Sizes read so far: a zero stands for `none yet`, and is never the size of a font.
  lemma SizesTell(m: Merged, table: seq<Entry>, fonts: seq<Font>)
    requires Holds(m, table, fonts)
    ensures m.height == 0 <==> fonts == []
    ensures m.width == 0 <==> fonts == []
  {
    assert fonts != [] ==> Complete(fonts[0]);
  }

  // The 32-bit glyph count does not wrap around: a font has no more glyphs than bytes.
  lemma {:induction false} CountBound(files: Files, n: nat)
    requires n <= |files| && FontsOf(files, n).Ok?
    ensures |FontsOf(files, n).value| == n
    ensures Count(FontsOf(files, n).value, n) <= n * FontBitmap.MAXFONTSIZE
  {
    hide ParseFont, Entries, Bitmaps, Complete;
    if n > 0 {
      CountBound(files, n - 1);
      ParsedComplete(files[n - 1]);
      PrefixSame(FontsOf(files, n - 1).value, ParseFont(files[n - 1]).value, n - 1);
    }
  }

  lemma NoOverflow(files: Files, n: nat)
    requires n < |files| && FontsOf(files, n).Ok?
    ensures Count(FontsOf(files, n).value, |FontsOf(files, n).value|) + |files[n]| <= UINT_MAX
  {
    hide ParseFont, Count, FontsOf;
    CountBound(files, n);
  }

  // setfont.c:343-371: compare the sizes, append bitmap and entries.
  method AppendInfo(m: Merged, file: seq<Byte>, info: Info, ghost fonts: seq<Font>, ghost f: Font,
                    heads: seq<UnicodeList>)
    returns (r: Result<Merged, MergeError>)
    requires Holds(m, Tables(m.heads), fonts) && Complete(f) && Describes(info, file, f)
    requires m.count + info.length <= UINT_MAX
    ensures match NextFont(fonts, Ok(f))
            case Err(x) => r == Err(x)
            case Ok(all) => r.Ok? && r.value.heads == heads && Holds(r.value, Tables(m.heads) + f.table, all)
  {
    hide Bitmaps, Entries, Count, Complete, AllComplete, SameSize;
    SizesTell(m, Tables(m.heads), fonts);
    if m.height != 0 && m.height != info.height {
      return Err(HeightsDiffer);
    }
    if m.width != 0 && m.width != info.width {
      return Err(WidthsDiffer);
    }
    var m' := Merged(m.bitmap + file[info.offset..info.offset + info.fontsize], ToUint32(m.count + info.length),
                     info.width, info.height, heads);
    HoldsStep(m, Tables(m.heads), fonts, f, m');
    return Ok(m');
  }

  // One round of the loop: read the file and put its font behind the others.
  method AppendFont(m: Merged, file: seq<Byte>, ghost fonts: seq<Font>) returns (r: Result<Merged, MergeError>)
    requires Together(m, fonts) && |file| <= FontBitmap.MAXFONTSIZE && m.count + |file| <= UINT_MAX
    ensures match NextFont(fonts, ParseFont(file))
            case Err(x) => r == Err(x)
            case Ok(all) => r.Ok? && Together(r.value, all)
  {
    hide ParseFont, ParseSizes, ValidHeads, Bitmaps, Entries, Count, Complete, AllComplete, SameSize;
    ParsedComplete(file);
    FilesOf(file);
    assert |m.heads| == m.count;
    var font, heads := ReadPsfFont(file, m.count, m.heads, true);
    if font.Err? {
      return Err(NotAllPsf);
    }
    r := AppendInfo(m, file, font.value, fonts, ParseFont(file).value, heads);
  }

  lemma FontsOfStep(files: seq<seq<Byte>>, i: nat)
    requires i < |files| && FontsOf(files, i).Ok?
    ensures FontsOf(files, i + 1) == NextFont(FontsOf(files, i).value, ParseFont(files[i]))
  {
  }

  lemma NothingRead(files: seq<seq<Byte>>)
    ensures FontsOf(files, 0) == Ok([]) && Together(Merged([], 0, 0, 0, []), [])
  {
  }

  // setfont.c:302-371, with the tables wanted.
  method LoadFonts(files: Files) returns (r: Result<Merged, MergeError>)
    ensures match FontsOf(files, |files|)
            case Err(x) => r == Err(x)
            case Ok(fonts) => r.Ok? && Together(r.value, fonts)
  {
    hide *;
    var m := Merged([], 0, 0, 0, []);
    NothingRead(files);
    for i := 0 to |files|
      invariant FontsOf(files, i).Ok? && Together(m, FontsOf(files, i).value)
    {
      NoOverflow(files, i);
      CountHeld(m, FontsOf(files, i).value);
      FontsOfStep(files, i);
      var next := AppendFont(m, files[i], FontsOf(files, i).value);
      if next.Err? {
        ErrorStays(files, i + 1, |files|);
        return next;
      }
      m := next.value;
    }
    r := Ok(m);
  }

  lemma CountHeld(m: Merged, fonts: seq<Font>)
    requires Together(m, fonts)
    ensures m.count == Count(fonts, |fonts|)
  {
  }
}
