/**
  psffontop.c:369-564: writing a PSF file from the linked lists of unicode.c, against the value level
  of PsfTable and PsfFont.
 */
module PsfWriter {
  import opened Bytes
  import opened UnicodeLists
  import opened PsfTable
  import opened PsfFont
  import Utf8

  // ---------------------------------------------------------------- writing

  // The output stream is the sequence of bytes written to it so far; every routine takes it and
  // returns it longer.

  method AppendUnicode(fp: seq<Byte>, u: Unicode, utf8: bool) returns (ok: bool, fp': seq<Byte>)
    ensures ok == IsCode(u)
    ensures fp' == fp + if ok then EncodeCode(u, utf8) else []
  {
    if u < 0 {
      return false, fp;
    }
    var out := new Byte[6];
    var n := 6;
    if !utf8 {
      n := n - 1;
      out[n] := u / 0x100 % 0x100;
      n := n - 1;
      out[n] := u % 0x100;
      assert out[n..] == [u % 0x100, u / 0x100 % 0x100];
    } else if u < 0x80 {
      n := n - 1;
      out[n] := u;
      Utf8.SingleOctet(u);
      assert out[n..] == [u];
    } else {
      n := Utf8.FillMultibyte(u, out);
    }
    return true, fp + out[n..];
  }

  method AppendSeparator(fp: seq<Byte>, start: bool, utf8: bool) returns (fp': seq<Byte>)
    ensures fp' == fp + if start then StartMark(utf8) else Separator(utf8)
  {
    if utf8 {
      fp' := fp + [if start then 0xFE else 0xFF];
    } else {
      var u: Ushort := if start then 0xFFFE else 0xFFFF;
      fp' := fp + [u % 0x100, u / 0x100];
    }
  }

  lemma {:induction false} TokensBytesSnoc(ts: seq<Token>, t: Token, utf8: bool)
    requires AllWritable(ts) && Writable(t)
    ensures TokensBytes(ts + [t], utf8) == TokensBytes(ts, utf8) + TokenBytes(t, utf8)
  {
    if ts == [] {
      assert TokensBytes([t], utf8) == TokenBytes(t, utf8) + TokensBytes([], utf8);
    } else {
      assert (ts + [t])[1..] == ts[1..] + [t];
      TokensBytesSnoc(ts[1..], t, utf8);
    }
  }

  lemma {:induction false} EntryTokensSnoc(e: Entry, s: seq<int>)
    ensures EntryTokens(e + [s]) == EntryTokens(e) + SequenceTokens(s)
  {
    if e == [] {
      assert EntryTokens([s]) == SequenceTokens(s) + EntryTokens([]);
    } else {
      assert (e + [s])[1..] == e[1..] + [s];
      EntryTokensSnoc(e[1..], s);
    }
  }

  lemma {:induction false} TokensBytesConcat(a: seq<Token>, b: seq<Token>, utf8: bool)
    requires AllWritable(a) && AllWritable(b)
    ensures TokensBytes(a + b, utf8) == TokensBytes(a, utf8) + TokensBytes(b, utf8)
    decreases |b|
  {
    if b == [] {
      assert a + b == a;
      assert TokensBytes(a, utf8) + [] == TokensBytes(a, utf8);
    } else {
      assert b[0] in b && a + b == (a + [b[0]]) + b[1..];
      TokensBytesSnoc(a, b[0], utf8);
      TokensBytesConcat(a + [b[0]], b[1..], utf8);
      Assoc3(TokensBytes(a, utf8), TokenBytes(b[0], utf8), TokensBytes(b[1..], utf8));
    }
  }

  // The first j code points of a sequence are out, after base.
  ghost predicate CodesOut(data: seq<Byte>, base: seq<Byte>, codes: seq<Unicode>, j: nat, utf8: bool) {
    j <= |codes| && AreCodes(codes[..j]) && data == base + TokensBytes(CodeTokens(codes[..j]), utf8)
  }

  lemma CodesOutStep(data: seq<Byte>, base: seq<Byte>, codes: seq<Unicode>, j: nat, utf8: bool)
    requires j < |codes| && CodesOut(data, base, codes, j, utf8) && IsCode(codes[j])
    ensures CodesOut(data + EncodeCode(codes[j], utf8), base, codes, j + 1, utf8)
  {
    assert codes[..j + 1] == codes[..j] + [codes[j]];
    assert CodeTokens(codes[..j + 1]) == CodeTokens(codes[..j]) + [Code(codes[j])];
    TokensBytesSnoc(CodeTokens(codes[..j]), Code(codes[j]), utf8);
    Assoc3(base, TokensBytes(CodeTokens(codes[..j]), utf8), EncodeCode(codes[j], utf8));
  }

  // psffontop.c:550-555, for the chain of cells starting at us0
  method WriteCodes(fp: seq<Byte>, us0: UnicodeSeq, utf8: bool, ghost cells: seq<UnicodeSeq>,
                    ghost codes: seq<Unicode>, ghost row: nat) returns (ok: bool, fp': seq<Byte>)
    requires Chain(cells, codes, row) && us0 == cells[0]
    ensures ok == AreCodes(codes)
    ensures ok ==> fp' == fp + TokensBytes(CodeTokens(codes), utf8)
  {
    fp' := fp;
    var us: UnicodeSeq? := us0;
    ghost var j := 0;
    while us != null
      invariant 0 <= j <= |codes| && Chain(cells, codes, row)
      invariant us == if j < |codes| then cells[j] else null
      invariant CodesOut(fp', fp, codes, j, utf8)
      decreases |codes| - j
    {
      ghost var before := fp';
      ok, fp' := AppendUnicode(fp', us.uc, utf8);
      if !ok {
        assert codes[j] in codes;
        return;
      }
      CodesOutStep(before, fp, codes, j, utf8);
      us := us.next;
      j := j + 1;
    }
    assert codes[..j] == codes;
    ok := true;
  }

  // psffontop.c:544-555, for the chain of cells starting at us
  method WriteSequence(fp: seq<Byte>, us: UnicodeSeq?, utf8: bool, ghost cells: seq<UnicodeSeq>,
                       ghost codes: seq<Unicode>, ghost row: nat) returns (ok: bool, fp': seq<Byte>)
    requires Chain(cells, codes, row) && us == cells[0]
    ensures ok == AreCodes(codes)
    ensures ok ==> fp' == fp + TokensBytes(SequenceTokens(codes), utf8)
  {
    fp' := fp;
    if us != null && us.next != null {
      fp' := AppendSeparator(fp', true, utf8);
    }
    ok, fp' := WriteCodes(fp', us, utf8, cells, codes, row);
    if ok {
      SequenceBytes(codes, utf8);
      Assoc3(fp, if |codes| > 1 then StartMark(utf8) else [], TokensBytes(CodeTokens(codes), utf8));
    }
  }

  lemma SequenceBytes(codes: seq<int>, utf8: bool)
    requires AreCodes(codes)
    ensures TokensBytes(SequenceTokens(codes), utf8)
         == (if |codes| > 1 then StartMark(utf8) else []) + TokensBytes(CodeTokens(codes), utf8)
  {
    if |codes| > 1 {
      assert SequenceTokens(codes)[1..] == CodeTokens(codes);
    } else {
      assert SequenceTokens(codes) == CodeTokens(codes);
    }
  }

  // The first i sequences of an entry are out.
  ghost predicate SequencesOut(data: seq<Byte>, base: seq<Byte>, e: Entry, i: nat, utf8: bool) {
    && i <= |e| && AllWritable(EntryTokens(e[..i]))
    && (forall s | s in e[..i] :: AreCodes(s)) && data == base + TokensBytes(EntryTokens(e[..i]), utf8)
  }

  lemma SequencesOutStep(data: seq<Byte>, base: seq<Byte>, e: Entry, i: nat, utf8: bool)
    requires i < |e| && SequencesOut(data, base, e, i, utf8) && AreCodes(e[i])
    ensures SequencesOut(data + TokensBytes(SequenceTokens(e[i]), utf8), base, e, i + 1, utf8)
  {
    assert e[..i + 1] == e[..i] + [e[i]];
    EntryTokensSnoc(e[..i], e[i]);
    TokensBytesConcat(EntryTokens(e[..i]), SequenceTokens(e[i]), utf8);
    Assoc3(base, TokensBytes(EntryTokens(e[..i]), utf8), TokensBytes(SequenceTokens(e[i]), utf8));
  }

  // psffontop.c:542-560, for one entry
  method WriteEntry(fp: seq<Byte>, up: UnicodeList, utf8: bool) returns (ok: bool, fp': seq<Byte>)
    requires up.Valid()
    ensures ok == IsEntry(up.Contents)
    ensures ok ==> fp' == fp + EncodeEntry(up.Contents, utf8)
  {
    NoEmptySequence(up);
    ok, fp' := WriteNodes(fp, up.next, utf8, up, up.nodes, up.cells, up.Contents);
    if ok {
      Assoc3(fp, TokensBytes(EntryTokens(up.Contents), utf8), Separator(utf8));
      fp' := AppendSeparator(fp', false, utf8);
    }
  }

  method WriteNodes(fp: seq<Byte>, ul0: UnicodeList?, utf8: bool, ghost up: UnicodeList, ghost nodes: seq<UnicodeList>,
                    ghost cells: seq<seq<UnicodeSeq>>, ghost e: seq<seq<Unicode>>) returns (ok: bool, fp': seq<Byte>)
    requires Linked(up, nodes) && Rows(nodes, cells, e) && ul0 == up.next
    ensures ok == forall s | s in e :: AreCodes(s)
    ensures ok ==> AllWritable(EntryTokens(e)) && fp' == fp + TokensBytes(EntryTokens(e), utf8)
  {
    fp' := fp;
    var ul := ul0;
    ghost var i := 0;
    while ul != null
      invariant Linked(up, nodes) && Rows(nodes, cells, e)
      invariant 0 <= i <= |e| && ul == if i < |e| then nodes[i] else null
      invariant SequencesOut(fp', fp, e, i, utf8)
      decreases |e| - i
    {
      NodeAt(up, nodes, cells, e, i);
      ghost var before := fp';
      ok, fp' := WriteSequence(fp', ul.sequence, utf8, cells[i], e[i], i);
      if !ok {
        assert e[i] in e;
        return;
      }
      SequencesOutStep(before, fp, e, i, utf8);
      ul := ul.next;
      i := i + 1;
    }
    assert e[..i] == e;
    ok := true;
  }

  // ---------------------------------------------------------------- tables

  lemma {:induction false} EncodeTableSnoc(t: seq<Entry>, e: Entry, utf8: bool)
    requires IsTable(t) && IsEntry(e)
    ensures EncodeTable(t + [e], utf8) == EncodeTable(t, utf8) + EncodeEntry(e, utf8)
  {
    if t == [] {
      assert EncodeTable([e], utf8) == EncodeEntry(e, utf8) + EncodeTable([], utf8);
    } else {
      assert (t + [e])[1..] == t[1..] + [e];
      EncodeTableSnoc(t[1..], e, utf8);
    }
  }

  // The entries of the first i glyphs are out.
  ghost predicate TableOut(data: seq<Byte>, base: seq<Byte>, t: seq<Entry>, i: nat, utf8: bool) {
    i <= |t| && IsTable(t[..i]) && data == base + EncodeTable(t[..i], utf8)
  }

  lemma TableOutStep(before: seq<Byte>, data: seq<Byte>, base: seq<Byte>, t: seq<Entry>, i: nat, utf8: bool)
    requires i < |t| && TableOut(before, base, t, i, utf8) && IsEntry(t[i])
    requires data == before + EncodeEntry(t[i], utf8)
    ensures TableOut(data, base, t, i + 1, utf8)
  {
    assert t[..i + 1] == t[..i] + [t[i]];
    EncodeTableSnoc(t[..i], t[i], utf8);
  }

  // psffontop.c:541-561
  method WriteTable(fp: seq<Byte>, heads: seq<UnicodeList>, utf8: bool) returns (ok: bool, fp': seq<Byte>)
    requires AllValid(heads)
    ensures ok == IsTable(Tables(heads))
    ensures ok ==> fp' == fp + EncodeTable(Tables(heads), utf8)
  {
    hide UnicodeList.Valid;
    ghost var t := Tables(heads);
    fp' := fp;
    assert t[..0] == [];
    for i := 0 to |heads|
      invariant AllValid(heads) && Tables(heads) == t
      invariant TableOut(fp', fp, t, i, utf8)
    {
      ghost var before := fp';
      ok, fp' := WriteEntry(fp', heads[i], utf8);
      if !ok {
        assert t[i] in t;
        return;
      }
      TableOutStep(before, fp', fp, t, i, utf8);
    }
    assert t[..|heads|] == t;
    ok := true;
  }

  // psffontop.c:377-383, for one entry
  method EntryHasSequences(up: UnicodeList) returns (found: bool)
    requires up.Valid()
    ensures found <==> exists j | 0 <= j < |up.Contents| :: |up.Contents[j]| > 1
  {
    var ul := up.next;
    ghost var j := 0;
    while ul != null
      invariant 0 <= j <= |up.nodes| && up.Valid()
      invariant ul == if j < |up.nodes| then up.nodes[j] else null
      invariant forall k | 0 <= k < j :: |up.Contents[k]| == 1
      decreases |up.nodes| - j
    {
      NodeAt(up, up.nodes, up.cells, up.Contents, j);
      var us := ul.sequence;
      if us != null && us.next != null {
        assert |up.Contents[j]| > 1;
        return true;
      }
      ul := ul.next;
      j := j + 1;
    }
    return false;
  }

  // has_sequences
  method FindSequences(heads: seq<UnicodeList>) returns (found: bool)
    requires AllValid(heads)
    ensures found == HasSequences(Tables(heads))
  {
    hide UnicodeList.Valid;
    ghost var t := Tables(heads);
    for i := 0 to |heads|
      invariant forall k, j | 0 <= k < i && 0 <= j < |t[k]| :: |t[k][j]| <= 1
    {
      found := EntryHasSequences(heads[i]);
      if found {
        ghost var j :| 0 <= j < |t[i]| && |t[i][j]| > 1;
        return;
      }
      assert forall j | 0 <= j < |t[i]| :: |t[i][j]| <= 1;
    }
    return false;
  }

  // ---------------------------------------------------------------- fonts

  method StoreIntLe(num: Uint32) returns (b: seq<Byte>)
    ensures b == Le32(num)
  {
    b := [num % 0x100, num / 0x100 % 0x100, num / 0x1_0000 % 0x100, num / 0x100_0000 % 0x100];
  }

  // What kfont_write_psffont writes in front of the bitmaps; charsize as computed in 32 bits.
  function HeaderBytes(width: Uint32, height: Uint32, fontlen: Uint32, psftype: int,
                       hasTab: bool, hasSeq: bool): seq<Byte>
  {
    var charsize := Charsize(width, height);
    if IsPsf2(width, height, fontlen, psftype) then Psf2Header(width, height, fontlen, charsize, hasTab)
    else Psf1Header(fontlen, charsize, hasTab, hasSeq)
  }

  method WritePsfFontHeader(ofil: seq<Byte>, width: Uint32, height: Uint32, fontlen: Uint32, psftype: int,
                            hasTab: bool, hasSeq: bool) returns (psftype': int, ofil': seq<Byte>)
    ensures (psftype' == 2) == IsPsf2(width, height, fontlen, psftype)
    ensures ofil' == ofil + HeaderBytes(width, height, fontlen, psftype, hasTab, hasSeq)
  {
    var bytewidth := ToUint32(width + 7) / 8;
    var charsize := ToUint32(bytewidth * height);
    psftype' := psftype;
    if (fontlen != 256 && fontlen != 512) || width != 8 || height > 32 {
      psftype' := 2;
    }
    if psftype' == 2 {
      var version := StoreIntLe(0);
      var headersize := StoreIntLe(32);
      var flags := StoreIntLe(if hasTab then 1 else 0);
      var length := StoreIntLe(fontlen);
      var size := StoreIntLe(charsize);
      var w := StoreIntLe(width);
      var h := StoreIntLe(height);
      ofil' := ofil + ([0x72, 0xb5, 0x4a, 0x86]
                       + (version + (headersize + (flags + (length + (size + (h + w)))))));
      HeaderLayout(width, height, fontlen, charsize, if hasTab then 1 else 0);
    } else {
      var mode := 0;
      if fontlen == 512 {
        mode := mode + 1;
      }
      if hasSeq {
        mode := mode + 4;
      } else if hasTab {
        mode := mode + 2;
      }
      ofil' := ofil + [0x36, 0x04, mode, if charsize <= 0xFF then charsize else 0xFF];
    }
  }

  // struct psf2_header: height comes before width.
  lemma HeaderLayout(width: Uint32, height: Uint32, length: Uint32, charsize: Uint32, flags: Uint32)
    ensures Words([0, 32, flags, length, charsize, height, width])
         == Le32(0) + (Le32(32) + (Le32(flags) + (Le32(length) + (Le32(charsize) + (Le32(height) + Le32(width))))))
  {
    WordsCons(0, [32, flags, length, charsize, height, width]);
    WordsCons(32, [flags, length, charsize, height, width]);
    WordsCons(flags, [length, charsize, height, width]);
    WordsCons(length, [charsize, height, width]);
    WordsCons(charsize, [height, width]);
    WordsCons(height, [width]);
    WordsCons(width, []);
    assert Le32(width) + Words([]) == Le32(width);
  }

  lemma WordsCons(w: Uint32, ws: seq<Uint32>)
    ensures Words([w] + ws) == Le32(w) + Words(ws)
  {
    assert ([w] + ws)[1..] == ws;
  }

  datatype WriteError = CannotWriteBitmap | IllegalUnicode

  // Bytes of all bitmaps.
  function BitmapSize(width: Uint32, height: Uint32, fontlen: Uint32): nat {
    Charsize(width, height) * fontlen
  }

  // Where nothing wraps around these are length times height times the bytes of a row.
  lemma BitmapSizeIs(width: Uint32, height: Uint32, fontlen: Uint32)
    requires width + 7 < 0x1_0000_0000 && (width + 7) / 8 * height < 0x1_0000_0000
    ensures BitmapSize(width, height, fontlen) == fontlen * (height * ((width + 7) / 8))
  {
    var charsize := (width + 7) / 8 * height;
    assert Charsize(width, height) == charsize == height * ((width + 7) / 8);
  }

  // The table to be written: that of the list heads, or none.
  ghost function TableOf(heads: Option<seq<UnicodeList>>): seq<Entry>
    reads if heads.Some? then heads.value else []
  {
    if heads.Some? then Tables(heads.value) else []
  }

  // What stands behind the header.
  function Body(bitmap: seq<Byte>, table: seq<Entry>, withTable: bool, utf8: bool): seq<Byte>
    requires IsTable(table)
  {
    bitmap + if withTable then EncodeTable(table, utf8) else []
  }

  lemma FontPieces(f: Font, psftype: int, withTable: bool)
    requires IsTable(f.table)
    ensures EncodeFont(f, psftype, withTable)
         == HeaderBytes(f.width, f.height, f.length, psftype, withTable, withTable && HasSequences(f.table))
            + Body(f.bitmap, f.table, withTable, IsPsf2(f.width, f.height, f.length, psftype))
  {
  }

  // psffontop.c:531-563.  fwrite of items of size 0 reports 0 items written, so a font without pixels
  // fails unless it has no glyphs either.
  method WriteBody(ofil: seq<Byte>, fontbuf: seq<Byte>, width: Uint32, height: Uint32, fontlen: Uint32,
                   heads: Option<seq<UnicodeList>>, utf8: bool) returns (r: Result<bool, WriteError>, ofil': seq<Byte>)
    requires |fontbuf| >= BitmapSize(width, height, fontlen)
    requires heads.Some? ==> AllValid(heads.value)
    ensures r == if Charsize(width, height) == 0 && fontlen != 0 then Err(CannotWriteBitmap)
                 else if !IsTable(TableOf(heads)) then Err(IllegalUnicode)
                 else Ok(utf8)
    ensures r.Ok? ==>
      ofil' == ofil + Body(fontbuf[..BitmapSize(width, height, fontlen)], TableOf(heads), heads.Some?, utf8)
  {
    if Charsize(width, height) == 0 && fontlen != 0 {
      return Err(CannotWriteBitmap), ofil;
    }
    var bitmap := fontbuf[..BitmapSize(width, height, fontlen)];
    ofil' := ofil + bitmap;
    if heads.Some? {
      var ok;
      ok, ofil' := WriteTable(ofil', heads.value, utf8);
      if !ok {
        return Err(IllegalUnicode), ofil';
      }
      Assoc3(ofil, bitmap, EncodeTable(Tables(heads.value), utf8));
    }
    r := Ok(utf8);
  }

  // kfont_write_psffont; `heads` is None for a null table.
  method WritePsfFont(ofil: seq<Byte>, fontbuf: seq<Byte>, width: Uint32, height: Uint32, fontlen: Uint32, psftype: int,
                      heads: Option<seq<UnicodeList>>) returns (r: Result<bool, WriteError>, ofil': seq<Byte>)
    requires |fontbuf| >= BitmapSize(width, height, fontlen)
    requires heads.Some? ==> |heads.value| == fontlen
    requires heads.Some? ==> AllValid(heads.value)
    ensures r == if Charsize(width, height) == 0 && fontlen != 0 then Err(CannotWriteBitmap)
                 else if !IsTable(TableOf(heads)) then Err(IllegalUnicode)
                 else Ok(IsPsf2(width, height, fontlen, psftype))
    ensures r.Ok? ==>
      var font := Font(width, height, fontlen, fontbuf[..BitmapSize(width, height, fontlen)], TableOf(heads));
      ofil' == ofil + EncodeFont(font, psftype, heads.Some?)
  {
    var hasSeq := false;
    if heads.Some? {
      hasSeq := FindSequences(heads.value);
    }
    var psftype';
    psftype', ofil' := WritePsfFontHeader(ofil, width, height, fontlen, psftype, heads.Some?, hasSeq);
    var utf8 := psftype' == 2;
    r, ofil' := WriteBody(ofil', fontbuf, width, height, fontlen, heads, utf8);
    if r.Ok? {
      ghost var bitmap := fontbuf[..BitmapSize(width, height, fontlen)];
      FontPieces(Font(width, height, fontlen, bitmap, TableOf(heads)), psftype, heads.Some?);
      Assoc3(ofil, HeaderBytes(width, height, fontlen, psftype, heads.Some?, hasSeq),
             Body(bitmap, TableOf(heads), heads.Some?, utf8));
    }
  }
}
