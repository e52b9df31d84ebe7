# Verification of kbd

Dafny models of the parts of kbd that turn one representation of fonts and keymaps into another, with
proofs that the two sides agree.

- **Console fonts (libkfont).** The PSF1/PSF2 codec: headers, bitmaps and the Unicode table with its
  sequences, written from and read into the doubly linked lists of `unicode.c`; both UTF-8 encoders and
  the decoder; the human-readable table; the way from the kernel's Unicode map into a file and back;
  pixel doubling, padding and merging of fonts. The lists are heap objects with their `next` and `prev`
  links; files are byte sequences. Every method is tied to a parser or printer on values, and the round
  trips are proved there, each with the exact condition under which it holds.
- **XKB to console (xkbsupport.c).** The walk over keys, group states and modifiers, the pass that
  mirrors modifier keys, the console's press/release machine as the tests state it, and XKB's group
  machine beside it. libxkbcommon is a record of arbitrary functions. The compose selector is modelled
  from the collected candidates to the rules the kernel gets.
- **Keymap store and loader (libkeymap).** The growable array with its count, the table of tables on
  top of it, `alt_is_meta`, constant expansion, and the ioctl protocol against a kernel whose every
  request may fail.

## Where things are

| files | content |
|---|---|
| `Bytes`, `Utf8` | machine integers; the three UTF-8 routines against RFC 2279, section 2 |
| `UnicodeLists` | the linked lists of unicode.c |
| `PsfTable`, `PsfFont`, `PsfForms` | the PSF format on values, round trips, files that the writer does not emit |
| `PsfReader`, `PsfWriter` | the codec over the linked lists |
| `TextTable`, `TextRanges`, `TextFiles` | the human-readable table on values, its range lines, and over the lists |
| `Unimap`, `FontBitmap`, `SaveFont`, `MergeFonts` | kernel maps, bitmaps, the whole saved file, several fonts |
| `LkArray`, `Keymap`, `KeymapRuns`, `Constants`, `LoadKeys`, `LoadKeymap`, `DumpKeymaps` | the keymap store and runs of calls on it, constant keys, kernel protocol, the keymaps line |
| `XkbWalk`, `XkbRuns`, `XkbRelease`, `XkbModifiers`, `XkbCodes` | conversion, groups of console and XKB side by side, mirrored modifiers, XKB with modifiers of its own, the codes in plain numbers |
| `Compose` | compose rules |

## What turned out conditional

Some laws hold on part of their inputs only. The code is modelled as it is, and the condition is proved
to be exact.

- A PSF table loses an item when a single code point follows a sequence in an entry, as
  src/include/kbd/kfont.h:20-42 admits (`PsfTable.ReadBackIff`); PSF1 cannot hold 0xFFFE and 0xFFFF.
- The text table is read back only if code points have 16 bits: longer ones are printed with more than
  four digits, which the reader takes for trailing junk and ignores (`TextTable.TextRoundTripIff`).
- With three layouts Next_Group visits 0, 1, 0, 2 (`XkbWalk.NextReachesIff`); words without it are always
  followed (`GroupSimulation.HarmlessRun`).
- A key whose release is looked up in a table that lacks its modifier leaves it stuck
  (`ReleaseBindings.StickIff`; `CanStick` is an input); mirroring cures that only for keys with no other
  code and no explicit hole in any table (`ReleaseBindings.FillSteadyIff`).
- Binding key 0 to K_NOSUCHMAP makes the loader drop the kernel's table (`LoadKeys.OverlaidIff`).
- `lk_array_append` keeps its count only if slot `count` is free and the item is not zero
  (`LkArrays.LkArray.Append`).
- A full accent table of MAX_DIACR rules reaches the kernel without its last rule (`Compose.AllSentIff`).
- Under alt_is_meta a constant key that is ASCII but no letter can get a Meta code in an Alt table where
  it gets its plain code otherwise (`ConstantKeys.MetaSameIff`; `MetaCanDiffer` is an input).
- Under alt_is_meta an ASCII binding can lose its partner in the Alt table: by a deletion, if another table
  needs the deleted code, and by a new table, if one that it is the Alt table of has ASCII codes
  (`KeymapRuns.ApplyKeepsIff`, `KeymapRuns.RunKeepsIff`; `AltCanBreak` has two inputs).
- lk_kernel_keys turns constant letters of table 0 into KT_LETTER, so that a kernel with such letters as
  KT_LATIN is not reproduced (`LoadKeys.KernelRoundTripIff`).
- The pass that mirrors modifiers can give the group switch key its CtrlR code in a table where XKB has
  no symbol for it (`ReleaseBindings.FillFollowsIff`; `SwitchCanBeMirrored` is an input).
- It can also make a key a modifier where XKB has none for it: a press that meets such a code leaves XKB
  (`ModifierSimulation.FilledInStepIff`; `MirroredPressDiffers` is an input).

## Model

| member | source | states |
|---|---|---|
| `Utf8.FillMultibyte` | src/libkfont/psffontop.c:404-414 | the loop encoder fills the six-byte buffer from the back without passing its start and leaves the shortest RFC 2279 form there |
| `Utf8.WcToMb` | src/wctomb.c:54-101 | the branch-tree encoder stores the same bytes as the loop encoder, for every code point below 2^31, and touches nothing behind them |
| `Utf8.FromUtf8` | src/libkfont/utf8.c:21-58 | the decoder with its 32-bit shifts returns what Decode says for any bytes, errors included, and moves the cursor on success only |
| `Utf8.DecodeExactly` | src/libkfont/utf8.c:21-58 | decoding yields (c, n) if and only if the first n octets are the n-octet form of c, shortest or not |
| `Utf8.RoundTrip` | src/libkfont/psffontop.c:389-429 | what the encoder writes starts with neither 0xFE, 0xFF nor a continuation octet, and decodes to the code point and exactly its octets, whatever follows |
| `Utf8.ShortestIffRestored` | src/libkfont/utf8.c:21-58 | encoding a decoded code point restores the input exactly when the input was the shortest form |
| `PsfForms.DecodeErrors` | src/libkfont/utf8.c:21-58 | too few octets for the first one, or a continuation octet in front or something else behind, and no other input, is refused |
| `Utf8.WcToMbForms` | src/wctomb.c:60-100 | each branch of the tree spells out the form of its range |
| `UnicodeLists.LastCell` | src/libkfont/unicode.c:54-57 | the walk along next ends at the last cell of the sequence |
| `UnicodeLists.AppendNode` | src/libkfont/unicode.c:18-37 | a new node goes behind the last one, and head.prev is the last node again |
| `UnicodeLists.AppendCell` | src/libkfont/unicode.c:49-62 | a new cell goes behind the last one of the sequence, and the first cell's prev is the last one again |
| `UnicodeLists.UnicodeList.AddPair` | src/libkfont/unicode.c:13-41 | the entry gets one more sequence of one code point; chains stay linked both ways, acyclic and disjoint |
| `UnicodeLists.UnicodeList.AddSeq` | src/libkfont/unicode.c:44-64 | the last sequence of the entry gets one more code point, everything else stays |
| `UnicodeLists.UnicodeList.Clear` | src/libkfont/unicode.c:67-72 | the entry is empty and linked to itself |
| `UnicodeLists.NoSharing` | src/libkfont/unicode.c:13-64 | in a valid entry no node and no cell is reached twice |
| `UnicodeLists.NoEmptySequence` | src/libkfont/unicode.c:13-64 | no sequence of a valid entry is empty, so addseq always has a cell to extend |
| `UnicodeLists.HeadsConcat` | src/libkfont/psffontop.c:326-364 | new entries behind old ones: all stay valid and disjoint, and the tables are concatenated |
| `PsfTable.ScanRoundTrip` | src/libkfont/psffontop.c:99-125 | scanning the bytes of a list of items returns the items, and stops behind the separator |
| `PsfTable.EntryReadBack` | src/libkfont/psffontop.c:86-144 | what get_uni_entry makes of the bytes written for any readable entry, whatever follows them |
| `PsfTable.ReadBackIff` | src/libkfont/psffontop.c:127-141 | an entry is read back unchanged exactly when no single code point follows a sequence; otherwise an item is absorbed into the sequence before it |
| `PsfTable.ParsedReadable` | src/libkfont/psffontop.c:86-144 | whatever the reader accepts, from any bytes, holds only code points the format can hold |
| `PsfTable.TableRoundTripIff` | src/libkfont/psffontop.c:541-561 | the table of a font is read back unchanged exactly when its code points are readable and each glyph lists singles first |
| `PsfFont.WordRoundTrip` | src/libkfont/psffontop.c:23-40 | a little-endian word anywhere in a file is read back |
| `PsfFont.AcceptedBounds` | src/libkfont/psffontop.c:270-366 | for any accepted bytes: header offset plus length times charsize lies within the input and the bitmap is those bytes, charsize is height * ceil(width/8), and there is one entry a glyph, all in exact arithmetic |
| `PsfFont.HeaderBack` | src/libkfont/psffontop.c:451-504 | the PSF1 or PSF2 header that is written is parsed as the same sizes, flags and offset |
| `PsfFont.FontReadBack` | src/libkfont/psffontop.c:197-367 | reading a written font returns the sizes and bitmap and whatever the table reads back as |
| `PsfFont.FontRoundTripIff` | src/libkfont/psffontop.c:507-564 | the whole-file round trip, PSF1 and PSF2, holds exactly when the table is storable; without a table always |
| `PsfForms.HeaderWritten` | src/libkfont/psffontop.c:451-504 | octet by octet: which fonts get a PSF1 header, its mode bits for 512 glyphs, a table, and one with sequences, and the eight words of a PSF2 header |
| `PsfForms.PaddedBack` | src/libkfont/psffontop.c:250-268 | a PSF2 file with anything between header and bitmap is read alike: headersize says where the bitmap starts, the lowest flag whether a table follows |
| `PsfForms.Psf1Back` | src/libkfont/psffontop.c:233-249 | a PSF1 file of any mode: more than 5 is refused, odd is 512 glyphs, 2 and more has a table |
| `PsfForms.LayoutIff` | src/libkfont/psffontop.c:270-307 | the sizes are accepted exactly if the bitmap lies in the file, charsize is a whole number of rows, the height given is that number, and without a table nothing follows |
| `PsfForms.AcceptedFits` | src/libkfont/psffontop.c:270-366 | a font read from any file can be written exactly if its width rounded up stays within 32 bits, and PSF2 is wide enough for its table |
| `PsfForms.WrittenAgainIff` | src/libkfont/psffontop.c:507-564 | any font read from a file, written again with its table, is read back unchanged exactly when no glyph lists a single code point behind a sequence and, for PSF1, no code point collides with the marks |
| `PsfForms.MarkedEntry` | src/libkfont/psffontop.c:99-141 | start marks anywhere: code points before the first stand alone, those between two marks are one sequence, and none if there are none |
| `PsfWriter.AppendUnicode` | src/libkfont/psffontop.c:389-429 | appends the encoding of the code point, or refuses a negative one |
| `PsfWriter.AppendSeparator` | src/libkfont/psffontop.c:432-448 | appends the start mark or the separator of the format |
| `PsfWriter.WriteSequence` | src/libkfont/psffontop.c:544-555 | the chain of one node comes out as its sequence, with a start mark only for two or more code points |
| `PsfWriter.WriteEntry` | src/libkfont/psffontop.c:542-560 | the linked nodes of one entry come out as the encoding of its abstract value |
| `PsfWriter.WriteTable` | src/libkfont/psffontop.c:541-561 | all entries come out in order; it fails exactly when a code point is negative |
| `PsfWriter.FindSequences` | src/libkfont/psffontop.c:370-386 | finds out whether any entry has a sequence of two or more |
| `PsfWriter.WritePsfFontHeader` | src/libkfont/psffontop.c:451-504 | chooses PSF1 or PSF2 and writes that header |
| `PsfWriter.WritePsfFont` | src/libkfont/psffontop.c:507-564 | writes exactly the file of the font the lists stand for, with the error cases of the source |
| `PsfReader.ReadItem` | src/libkfont/psffontop.c:99-125 | the next code point or mark of either format, with every way to fail |
| `PsfReader.AddItem` | src/libkfont/psffontop.c:127-141 | the inseq counter decides between addpair and addseq as the grammar demands; addseq is never reached on an empty entry |
| `PsfReader.GetUniEntry` | src/libkfont/psffontop.c:86-144 | the lists built from any bytes hold what the grammar parses, or the error is the grammar's; the read position is behind the separator |
| `PsfReader.ReadTable` | src/libkfont/psffontop.c:345-356 | all entries are read one behind the other |
| `PsfReader.ReadHeader` | src/libkfont/psffontop.c:233-268 | the header fields of both formats and their error cases |
| `PsfReader.CheckSizes` | src/libkfont/psffontop.c:270-307 | the 32-bit checks accept exactly the layouts that are sound in exact arithmetic; nothing wraps around |
| `PsfReader.ReadPsfFont` | src/libkfont/psffontop.c:197-367 | on any input the reader terminates, reads inside the buffer, and returns what ParseFont says or its error; the sizes handed back lie in the file and multiply up; entries go behind those the caller had, or it is refused if they would pass position 2^32 - 1 |
| `Unimap.AppendUnicodeMap` | src/libkfont/loadunimap.c:339-384 | saves the kernel's pairs as one entry a glyph, in list order |
| `Unimap.DoLoadTable` | src/libkfont/setfont.c:198-273 | turns any table into a list sorted by position in which a pair occurs exactly as often as its entry has that code point, cut to 16 bits, by itself; longer sequences leave no trace; refused exactly for more than 65535 such sequences; the buffer sized by the first pass is filled exactly by the second |
| `Unimap.TableLoaded` | src/libkfont/setfont.c:208-248 | that statement for the pairs of any table |
| `Unimap.LoadedSorted` | src/libkfont/setfont.c:208-248 | the pairs loaded from a saved map are sorted by font position |
| `Unimap.LoadedAt` | src/libkfont/setfont.c:208-248 | for every position inside the font they are the old pairs of that position in their old order |
| `Unimap.LoadedCount` | src/libkfont/setfont.c:208-248 | the loaded list has exactly as many pairs as the kernel map has inside the font |
| `Unimap.LoadedIsStableSort` | src/libkfont/loadunimap.c:365-380 | saving a kernel map and loading it again yields its stable sort by position, cut at the glyph count; with at most USHRT_MAX pairs in the map the loaded list has no more, so do_loadtable takes it |
| `Unimap.SaveLoadIff` | src/libkfont/loadunimap.c:339-384 | the saved table is read back exactly when no pair in reach collides with the PSF1 marks |
| `SaveFont.CharHeight` | src/libkfont/kdfontop.c:66-79 | the height is that of the last row in which some glyph has a pixel; every row from there on is blank in every glyph |
| `SaveFont.SaveConsoleFont` | src/libkfont/setfont.c:603-690 | the file of kfont_save_font is header, the rows shown of every glyph, and the kernel map, inside the buffer and without wrap-around; it fails exactly for glyphs of no width |
| `SaveFont.SavedFontIff` | src/libkfont/setfont.c:603-690 | the whole saved file is read back as the font shown, with the kernel map as its table, exactly when it has a PSF2 header or no pair in reach collides with the PSF1 marks |
| `SaveFont.LoadedSavedIff` | src/libkfont/setfont.c:603-690 | a font loaded without doubling, saved and read again has its sizes and bitmap back, and the kernel map as its table under that same condition |
| `TextTable.HexBack` | src/libkfont/psfxtable.c:258-268 | zero-padded hexadecimal output has the printed value and at least the given width |
| `TextTable.PositionBack` | src/libkfont/psfxtable.c:258-258 | strtol with base 0 reads the printed position and stops at the tab |
| `TextTable.CodeBack` | src/libkfont/psfxtable.c:74-87 | getunicode reads a printed 16-bit code point and stops behind it |
| `TextTable.DefsUcs2` | src/libkfont/psfxtable.c:184-197 | definitions from any text are non-empty sequences of 16-bit code points |
| `TextTable.DefsBackIff` | src/libkfont/psfxtable.c:184-197 | the definitions printed for an entry are read back as the entry exactly when all its code points have 16 bits |
| `TextTable.ReadLine` | src/libkfont/psfxtable.c:232-237 | a line is read as a whole if it fits the buffer of fgets and refused otherwise |
| `TextTable.LineBack` | src/libkfont/psfxtable.c:90-208 | the line printed for a glyph adds its definitions to just that glyph; a position beyond INT_MAX is refused |
| `TextTable.TextRoundTripIff` | src/libkfont/psfxtable.c:211-287 | reading the table that was printed gives it back exactly when every line fits, every position fits an int and all code points have 16 bits; any mix of singles and sequences is allowed |
| `TextRanges.NumberTextBack` | src/libkfont/psfxtable.c:22-54 | positions in decimal, octal and hexadecimal are read as the numbers they stand for, and refused beyond INT_MAX |
| `TextRanges.SignedNumber` | src/libkfont/psfxtable.c:22-54 | spaces and a plus sign in front of a number do not matter, and a minus sign before one above 0 is refused |
| `TextRanges.RangeLineBack` | src/libkfont/psfxtable.c:111-181 | a range of glyphs and one of code points: each glyph gets the code point counted up from the first, all others stay; ranges of different length, reversed or past the end are refused |
| `TextRanges.IdemLineBack` | src/libkfont/psfxtable.c:143-151 | idem gives each glyph of the range its own number; one code point is not enough for a range |
| `TextRanges.IgnoredLines` | src/libkfont/psfxtable.c:104-109 | blank lines and comments say nothing, and blanks in front do not matter |
| `TextFiles.GetUnicodeAt` | src/libkfont/psfxtable.c:74-87 | the cursor version of getunicode |
| `TextFiles.ParseRest` | src/libkfont/psfxtable.c:190-196 | the inner loop extends the last sequence by what follows the commas and steps back over the last one |
| `TextFiles.ParseDefs` | src/libkfont/psfxtable.c:184-197 | the outer loop adds the sequences of the text to the entry; addseq is reached only behind an addpair |
| `TextFiles.AddRangeAt` | src/libkfont/psfxtable.c:175-181 | each glyph of a range gets one code point, other glyphs stay |
| `TextFiles.FindOffset` | src/libkfont/psfxtable.c:138-174 | idem, or a range of code points of the same length, with each error |
| `TextFiles.FindPositions` | src/libkfont/psfxtable.c:111-133 | the position or range of positions, with each error |
| `TextFiles.ParseItabLine` | src/libkfont/psfxtable.c:90-208 | one line changes the linked lists as ParseLine says, or fails with its error |
| `TextFiles.ReadUnicodeTable` | src/libkfont/psfxtable.c:211-240 | any file is read into valid, disjoint lists that hold what ParseText says, or fails with its error |
| `TextFiles.WriteUnicodeTable` | src/libkfont/psfxtable.c:243-287 | prints exactly the text of the table the lists stand for |
| `FontBitmap.DoubleNibble` | src/libkfont/setfont.c:100-103 | each bit of the nibble comes out twice |
| `FontBitmap.DoubleFont` | src/libkfont/setfont.c:92-108 | the nested loops fill the buffer in place, inside its bounds, with the doubled glyphs and leave the rest blank |
| `FontBitmap.DoubledPixel` | src/libkfont/setfont.c:92-108 | destination pixel (2y+a, 2x+b) of every glyph is source pixel (y, x) |
| `FontBitmap.PadFont` | src/libkfont/setfont.c:126-127 | every glyph is copied to the pitch of the kernel, the rest is blank |
| `FontBitmap.SaveGlyphs` | src/libkfont/setfont.c:650-655 | save_font writes the first charsize bytes of every glyph |
| `FontBitmap.SaveUndoesPad` | src/libkfont/setfont.c:604-665 | padding a font to the pitch and saving it again is the identity |
| `FontBitmap.BufferFits` | src/libkfont/setfont.c:83-84 | no 32-bit size wraps around for a font of at most MAXFONTSIZE bytes |
| `FontBitmap.TryLoadFont` | src/libkfont/setfont.c:46-128 | the size checks, doubling or padding, and the sizes handed to the kernel |
| `FontBitmap.DoLoadFont` | src/libkfont/setfont.c:46-195 | the sizes and the pitch handed over; a doubled font has every pixel of every glyph as a square of four, any other can be cut back out of the buffer |
| `MergeFonts.SlotKept` | src/libkfont/setfont.c:302-371 | slot p of font i is slot (glyphs before it) + p of the merged table |
| `MergeFonts.GlyphKept` | src/libkfont/setfont.c:359-371 | glyph p of font i is glyph (glyphs before it) + p of the merged bitmap |
| `MergeFonts.FontsOfIff` | src/libkfont/setfont.c:302-357 | merging succeeds exactly when every file is a PSF font and all have one size, and then keeps every font |
| `MergeFonts.NoOverflow` | src/libkfont/setfont.c:359-359 | the 32-bit glyph count cannot wrap around for as many files as setfont takes |
| `MergeFonts.AppendFont` | src/libkfont/setfont.c:302-371 | one round: bitmap and entries go behind the others, or the error is that of the file |
| `MergeFonts.LoadFonts` | src/libkfont/setfont.c:302-371 | the loop puts all fonts together: bitmap, count and table are those of the fonts in order, or it fails for the first file that does not fit |
| `LkArrays.LkArray.Resize` | src/libkeymap/array.c:116-143 | growth keeps the contents and fills with zeros; sizes that do not fit the address space are refused |
| `LkArrays.LkArray.Set` | src/libkeymap/array.c:146-170 | stores the item; the count stays the number of items that are not zero |
| `LkArrays.LkArray.Unset` | src/libkeymap/array.c:173-185 | removes the item and keeps the count right |
| `LkArrays.LkArray.Append` | src/libkeymap/array.c:188-205 | stores at index count; the count stays right exactly when that slot was free and the item is not zero |
| `LkArrays.LkArray.Empty` | src/libkeymap/array.c:66-79 | all items are gone and the count is zero |
| `LkArrays.LkArray.Exists` | src/libkeymap/array.c:82-97 | whether the item is in use, for any index |
| `LkArrays.AppendRunIff` | src/libkeymap/array.c:188-205 | over any run of appends, each stored at the count, item i is the i-th one appended, and the count is the number of items in use exactly when none of them is zero |
| `Keymaps.Context.GetKey` | src/libkeymap/kmap.c:75-92 | the last code of the key, K_HOLE, or -1 without the table |
| `Keymaps.Context.KeyExists` | src/libkeymap/kmap.c:32-48 | whether the key has a code in the table |
| `Keymaps.Context.AddMap` | src/libkeymap/kmap.c:50-73 | adds an empty table if there is none |
| `Keymaps.Context.AddKey` | src/libkeymap/kmap.c:116-167 | refines the map update Add, including the Meta code under alt_is_meta, and fails exactly for an unknown symbol or a table outside the keymaps line |
| `Keymaps.Context.DelKey` | src/libkeymap/kmap.c:94-114 | removes the key from the table |
| `Keymaps.AddEffect` | src/libkeymap/kmap.c:116-167 | what one lk_add_key changes as seen by lk_get_key, for every table and key, in plain numbers: under alt_is_meta an ASCII character also goes 8 tables further as its Meta code |
| `KeymapRuns.Perform` | src/libkeymap/kmap.c:50-167 | the calls lk_add_map, lk_add_key and lk_del_key on the context refine Apply, refused calls included |
| `KeymapRuns.RunRefinesMap` | src/libkeymap/kmap.c:75-167 | over any run of the three calls, with alt_is_meta, a keymaps line and refused calls, which tables there are and what lk_get_key returns follow from the history of just that table and key |
| `KeymapRuns.DeleteKeepsIff` | src/libkeymap/kmap.c:94-114 | a deletion leaves every ASCII binding with a binding in its Alt table exactly when no other table needs the deleted one |
| `KeymapRuns.NewMapKeepsIff` | src/libkeymap/kmap.c:50-73 | lk_add_map of a new table does so exactly when no table that it is the Alt table of has an ASCII code |
| `KeymapRuns.NewKeyKeepsIff` | src/libkeymap/kmap.c:116-167 | lk_add_key to a new table does so exactly when no table that it is the Alt table of has an ASCII code for another key |
| `KeymapRuns.ApplyKeepsIff` | src/libkeymap/kmap.c:50-167 | the exact condition for any one call, an addition to a table there is being always fine |
| `KeymapRuns.RunKeepsIff` | src/libkeymap/kmap.c:50-167 | over any run mixing the calls the Alt tables are complete throughout exactly when every call meets its condition |
| `KeymapRuns.AltStaysComplete` | src/libkeymap/kmap.c:50-167 | they stay complete over any run, whatever the state it meets, that only adds to tables there at the start or works on tables that are not Alt tables |
| `ConstantKeys.DoConstantKey` | src/libkeymap/kmap.c:170-219 | the sequential loop, Meta codes included, has the simultaneous effect Expand |
| `ConstantKeys.ConstantToIs` | src/libkeymap/kmap.c:193-216 | the state of the tables after any number of rounds, in closed form |
| `ConstantKeys.KeyExpanded` | src/libkeymap/kmap.c:170-219 | every table above 0 ends up with a code for the key, codes that were there stay, other keys are not touched |
| `ConstantKeys.MetaSameIff` | src/libkeymap/kmap.c:170-219 | with and without alt_is_meta one constant key gives the same tables exactly when it is a letter or not ASCII, or no Alt table is overtaken |
| `ConstantKeys.AddConstants` | src/libkeymap/kmap.c:221-249 | expands all constant keys from the lowest table there is under a keymaps line, else from table 0, and fails exactly when some key is constant and that table is missing |
| `ConstantKeys.ColumnExpanded` | src/libkeymap/kmap.c:230-247 | each constant key is expanded independently of the others |
| `ConstantKeys.AllExpanded` | src/libkeymap/kmap.c:221-249 | after lk_add_constants every constant key is bound in every table above 0 and nothing bound there has changed |
| `ConstantKeys.ConstantCode` | src/libkeymap/kmap.c:170-219 | what a constant key becomes in a table that had nothing for it, in plain numbers: letters change case under Shift, are control characters with Ctrl and Meta with Alt; other keys stay, but for those alt_is_meta takes from the table without Alt |
| `ConstantKeys.Idempotent` | src/libkeymap/kmap.c:221-249 | doing it twice is doing it once |
| `ConstantKeys.MetaSameAllIff` | src/libkeymap/kmap.c:221-249 | when alt_is_meta makes no difference for all constant keys together |
| `LoadKeys.SetKeymapTable` | src/libkeymap/loadkeys.c:16-69 | for every failure schedule: only this table is touched, the count is the number of requests that worked, and it gives up exactly on EPERM or EIO; with no failure the count is the number of codes that fit |
| `LoadKeys.ClearKeymapTable` | src/libkeymap/loadkeys.c:71-110 | drops the table, or where the kernel answers EINVAL fills it with holes; for every failure schedule, exactly when it succeeds |
| `LoadKeys.SetKeymap` | src/libkeymap/loadkeys.c:112-151 | for every failure schedule: once the switch to K_UNICODE worked the last request restores the mode; with no failure the kernel holds LoadAll and the count is the number of codes of 16 bits in the first 256 tables |
| `DumpKeymaps.DumpRanges` | src/libkeymap/dump.c:325-360 | the keymaps line lists exactly the tables there are, as ascending ranges that cannot be joined |
| `DumpKeymaps.RangesUnique` | src/libkeymap/dump.c:332-356 | no other list of such ranges denotes the same tables |
| `LoadKeys.LoadToIs` | src/libkeymap/loadkeys.c:23-66 | the effect of loading one table, in closed form |
| `LoadKeys.OverlaidIff` | src/libkeymap/loadkeys.c:23-66 | a table overlays the old one, or a newly allocated one, with every code that fits exactly when key 0 is not bound to K_NOSUCHMAP |
| `LoadKeys.LoadedOverlays` | src/libkeymap/loadkeys.c:125-141 | after loading, every table of the context overlays the kernel's, and under the keymaps line no other table remains |
| `LoadKeys.ReadKernel` | src/libkeymap/kernel.c:24-50 | with no failed request all visible tables are added in order; under a keymaps line it stops at the first one that the line leaves out |
| `LoadKeys.FirstRefusedIs` | src/libkeymap/kernel.c:24-50 | the table at which reading fails is the lowest one of the kernel that does not start with K_NOSUCHMAP and that the keymaps line leaves out |
| `LoadKeys.KernelKeys` | src/libkeymap/kernel.c:19-56 | with no failed request: what is read, constant keys expanded, or the failure at the first table the keymaps line leaves out or for want of a source table |
| `LoadKeys.RereadAt` | src/libkeymap/kernel.c:19-56 | after lk_kernel_keys a context that was empty has all codes of the visible tables, constant letters of table 0 turned into KT_LETTER |
| `LoadKeys.ReadTablesIs` | src/libkeymap/kernel.c:24-50 | reading into an empty context copies the visible tables, alt_is_meta or not |
| `LoadKeys.KernelRoundTripIff` | src/libkeymap/kernel.c:19-56 | keys read from a kernel, constant keys expanded, and loaded into a kernel without tables reproduce it exactly when no table starts with K_NOSUCHMAP and the constant letters of table 0 are KT_LETTER |
| `KeymapLoading.LoadKeymap` | src/libkeymap/loadkeys.c:293-322 | constants, keymaps and compose rules in this order: nothing is asked of the kernel if the source table is missing; with no failed request the kernel holds the expanded context and gets the rules, and success depends on the two other requests and on the size of the rules alone |
| `KeymapLoading.ExpandAllFits` | src/libkeymap/kmap.c:221-249 | codes the kernel can store stay such through the expansion |
| `KeymapLoading.ConstantsLoaded` | src/libkeymap/loadkeys.c:293-305 | with no failed request every constant key has a code in every kernel table above 0 of the context, its own where it had one; other keys overlay the old tables, other tables stay or go |
| `XkbWalk.SelectReaches` | src/xkbsupport.c:644-658 | one action reaches any layout from any group, none is issued if nothing is to change, CtrlL only with more than two layouts |
| `XkbWalk.NextReachesIff` | src/xkbsupport.c:760-761 | Next leads to the next layout except with three layouts in groups 1 and 3 |
| `XkbWalk.GroupFeatures` | src/xkbsupport.c:623-642 | finds whether any level of the key switches or selects groups |
| `XkbWalk.FindBinding` | src/xkbsupport.c:743-787 | the code of a key for a group, a held switch and modifiers; what it is in numbers, KeyCodes says |
| `XkbWalk.Walk` | src/xkbsupport.c:660-799 | fills the context with all bindings, alt_is_meta put aside meanwhile; fails only for the layout count or the keymaps line |
| `XkbWalk.WalkAt` | src/xkbsupport.c:720-793 | after the walk every key has in every table of the group and switch states the code for that group, switch state and modifiers, and nothing else changed; a table is new exactly if some key is bound in it |
| `GroupSimulation.BindingFollows` | src/xkbsupport.c:743-787 | what each binding does to the group bits, whatever caps lock and left-over modifiers make of the code |
| `GroupSimulation.WalkFollows` | src/xkbsupport.c:660-799 | the keymaps made by the walk act on the group bits as XKB acts on its groups |
| `GroupSimulation.StepSwitchOk` | tests/libkeymap/libkeymap-test54.c:235-254 | one press or release keeps the group bits within the states that the walk goes through, CtrlR held only by the switch key |
| `GroupSimulation.StepMatchesIff` | tests/libkeymap/libkeymap-test54.c:235-254 | for XKB modifiers equal to the console's, one event keeps console and XKB together exactly when it is neither a Next that misses nor a symbol that moves XKB's group otherwise |
| `GroupSimulation.InStepIff` | src/xkbsupport.c:720-734 | when they are together the table keys are looked up in is one of those enumerated, and is that of (locked + held) mod n |
| `GroupSimulation.TogetherIff` | src/xkbsupport.c:644-771 | for any sequence of XKB modifiers that is the console's: over whole runs the locked group decoded from the lock bits, the switch and the table used are XKB's exactly if no event misses |
| `GroupSimulation.HarmlessRun` | src/xkbsupport.c:752-769 | no event misses in words without Next, or with one, two or four layouts, if their keys carry no other group symbols; a condition on the keys alone |
| `GroupSimulation.TableMadeIff` | src/xkbsupport.c:720-793 | for an empty context the walk makes a table exactly if it is enumerated and some key is bound in it |
| `GroupSimulation.AllTablesThere` | src/xkbsupport.c:720-734 | if all enumerated tables were made, every lookup of any alternating run finds its table |
| `GroupSimulation.SwitchReleases` | src/xkbsupport.c:737-747 | after any alternating run CtrlR is set only while the switch key is down, and the table used is an enumerated one |
| `GroupSimulation.ConsoleFollowsXkb` | src/xkbsupport.c:660-799 | for the keymaps of xkeymap_walk and a console at rest in any group, XKB going by the console's modifiers: in step throughout exactly if no event misses, always for words without Next, and CtrlR is released with its key |
| `ReleaseBindings.FillReleaseBindings` | src/xkbsupport.c:801-859 | the pass over all keys and tables computes FillTo and never fails |
| `ReleaseBindings.FillAt` | src/xkbsupport.c:837-855 | only keys whose tables agree on a modifier get codes, only where they had none, and always their own |
| `ReleaseBindings.FillUniformIff` | src/xkbsupport.c:811-856 | afterwards a key is the same modifier in all tables exactly when no table had another code or an explicit hole for it |
| `ReleaseBindings.StepCounted` | tests/libkeymap/libkeymap-test54.c:235-254 | one event keeps a modifier counted once for each key down that carries it, if a key that carries it is that modifier in all tables |
| `ReleaseBindings.NothingStuck` | tests/libkeymap/libkeymap-test54.c:235-254 | modifier by modifier: over any alternating run in which the keys that carry it are looked up in tables that are there, it is down as often as such keys are, and with no key down it is not; other keys may mean anything |
| `ReleaseBindings.FillSteadyIff` | src/xkbsupport.c:801-859 | after the pass a key is steadily this modifier, or never it, exactly when no table had another code or an explicit hole for a key that carries it |
| `ReleaseBindings.NothingStuckAfterFill` | src/xkbsupport.c:801-859 | so after the pass that modifier does not get stuck |
| `ReleaseBindings.StickIff` | src/xkbsupport.c:840-848 | from any state with no modifier down, pressing and releasing a key leaves a modifier stuck exactly when the table in use gives it to the key and the table that the press leads to does not |
| `ReleaseBindings.FillFollowsIff` | src/xkbsupport.c:801-859 | the pass keeps the keymaps in step with the groups exactly when it leaves the switch key alone |
| `ReleaseBindings.FilledConsoleFollowsXkb` | src/xkbsupport.c:801-859 | the simulation over whole runs, words without Next included, for the keymaps after both passes |
| `ReleaseBindings.NoKeyNoModifier` | tests/libkeymap/libkeymap-test54.c:265-353 | for the keymaps after both passes and any alternating run: with no key down the five group bits are clear, and so is each of Shift, AltGr, Ctrl and Alt whose keys have no other code in any table and are looked up in tables that are there, even if the switch key is CtrlR in some tables and Compose in others; all lookups are so if all enumerated tables were made |
| `ModifierSimulation.CookedModifier` | src/xkbsupport.c:773-786 | caps lock and left-over modifiers leave a modifier code as it is and make none |
| `ModifierSimulation.BindingHolds` | src/xkbsupport.c:743-787 | a binding holds just the modifier that XKB sets for the symbol in that group and with those modifiers |
| `ModifierSimulation.WalkHolds` | src/xkbsupport.c:660-799 | so does every press in the keymaps of the walk, but of the switch key while it is held |
| `ModifierSimulation.StepFitsIff` | tests/libkeymap/libkeymap-test54.c:235-254 | one event keeps the console's counts of the four modifiers equal to the numbers of keys XKB has them from exactly when it fits: a press holds the same on both sides, a release takes from the console what it takes from XKB |
| `ModifierSimulation.SteadyFitsIff` | tests/libkeymap/libkeymap-test54.c:235-254 | with keys that are one modifier or none wherever they are bound every release fits, so all events fit exactly when the presses do |
| `ModifierSimulation.InStepThroughoutIff` | tests/libkeymap/libkeymap-test54.c:316-318 | XKB with modifiers and groups of its own, any keymaps that follow the groups: over whole runs the console's table and counts are those of XKB's group and modifiers throughout exactly if no event misses and all events fit |
| `ModifierSimulation.WalkedInStepIff` | src/xkbsupport.c:660-799 | this for the keymaps of xkeymap_walk and a console at rest in any group; with plain keys every press fits, and if they are one modifier or none in all tables only a miss leaves XKB, which words without Next never do |
| `ModifierSimulation.FilledPressFitsIff` | src/xkbsupport.c:837-855 | after the pass that mirrors modifiers a press fits exactly when it does not meet a code that only the pass put there |
| `ModifierSimulation.FillLeaves` | src/xkbsupport.c:837-855 | the pass gives nothing to a key that is one modifier or none in all tables |
| `ModifierSimulation.FilledInStepIff` | src/xkbsupport.c:801-859 | for the keymaps after both passes: the same exact condition; with plain keys that have no other codes, mirrored ones included, console and XKB stay in step exactly if no event misses and no press meets a mirrored code |
| `KeyCodes.CookedIsTyped` | src/xkbsupport.c:587-614 | reserved shifts, caps lock and left-over modifiers in plain numbers: Ctrl gives what XKB makes of the character, Alt its Meta code, both the Meta code of the former; else a character with two cases is a letter; actions stay |
| `KeyCodes.WalkTypes` | src/xkbsupport.c:743-787 | every table of the walk has for a key just the code that symbol, modifiers and what XKB has used up of them call for, or none where there is no symbol or no code |
| `KeyCodes.GroupKeysLead` | src/xkbsupport.c:749-769 | Prev, First, Last and, but for three layouts, Next lead from the layout of a table to the one before, the first, the second, the next |
| `KeyCodes.TablesAre` | src/xkbsupport.c:691-706 | tables with CtrlL are made only for more than two layouts with a key to select them, those with CtrlR only with a group switch |
| `KeyCodes.KeysMeanTheSame` | tests/libkeymap/libkeymap-test54.c:334-351 | while in step, the console has for every key the code of the symbol XKB has for it in its own group and modifiers, in plain numbers |
| `Compose.QSort` | src/xkbsupport.c:1124-1124 | the contract of qsort: sorted, and a permutation |
| `Compose.RankIs` | src/xkbsupport.c:1044-1092 | the two orders in plain numbers: higher scores first, then smaller symbols; by sequence, the sequence first |
| `Compose.DedupIs` | src/xkbsupport.c:1126-1131 | keeping the first of each run leaves the best candidate of every sequence |
| `Compose.Compact` | src/xkbsupport.c:1126-1131 | the in-place compaction computes just that |
| `Compose.Select` | src/xkbsupport.c:1116-1136 | selection leaves for every sequence its best candidate, in rank order |
| `Compose.AppendCandidates` | src/xkbsupport.c:1283-1347 | the table gets the first rule of every converted pair until it is full; the total counts all pairs |
| `Compose.KeepIs` | src/xkbsupport.c:1299-1333 | the first candidates in rank order are the best ones of their pairs |
| `Compose.BestUnique` | src/xkbsupport.c:1053-1136 | there is only one list of best rules for a set of candidates |
| `Compose.OrderIrrelevant` | src/xkbsupport.c:1116-1347 | the order the candidates come in makes no difference |
| `Compose.TotalRules` | src/xkbsupport.c:1322-1322 | total_rules is the number of distinct converted pairs |
| `Compose.LookupBest` | src/xkbsupport.c:1102-1114 | the kernel's first match for a pair in the table gives the result of the best candidate for it |
| `Compose.LookupNothing` | src/xkbsupport.c:1102-1114 | and nothing for a pair that is not in the table |
| `Compose.ComposeCandidates` | src/xkbsupport.c:1349-1369 | from the collected candidates to the accent table: scores never increase, every candidate has one of its pair that scores no less, ties going to smaller symbols, and none whose pair is left out scores above the rules kept; the table holds their converted codes behind what it held |
| `Compose.DefDiacs` | src/libkeymap/loadkeys.c:227-291 | what is handed to the kernel, or the refusal of values over 255 |
| `Compose.AllSentIff` | src/libkeymap/loadkeys.c:232-237 | every rule reaches the kernel exactly when there are fewer than MAX_DIACR; of more the first 255 do |

## Left out

- File search, decompression, reading in chunks and the MAXFONTSIZE check of read_fontfile: the font
  reader gets the bytes of the file.
- Output streams are the byte sequences written so far; a failing fwrite or fprintf is not modelled.
- Allocation failure (malloc, calloc, realloc), and realloc moving the entries of a font.
- Big-endian hosts: appendseparator writes PSF1 marks in host order.
- from_utf8 with cnt == 0 and on 0xFE/0xFF, which its only caller excludes.
- kfont_read_psffont and kfont_load_fonts without a table (`no_u`) when several fonts are merged; the
  reader on its own covers that case.
- kfont_write_psffont for a caller that appends the kernel's map itself (uclistheads == -1): the map is
  modelled by appendunicodemap alone.
- The ioctls around the font itself (KDFONTOP, restoring the text screen) and the erase mode of position 32.
- SaveFont.SaveConsoleFont: the kernel's answer has at most 4096 glyphs of 64x128 pixels, as requested, in rows of at least the height.
- KeymapLoading.LoadKeymap: deffuncs and the request of defdiacs are outcomes given from outside; messages are left out.
- Unimap.DoLoadTable: the pair buffer is a sequence of fixed length that is stored into, not an array; aliasing is not captured.
- MergeFonts.LoadFonts: at most MAXIFILES files of at most MAXFONTSIZE bytes, as setfont and read_fontfile allow.
- TextFiles.AddRangeAt: a range that ends at glyph INT_MAX, where the C loop variable would overflow, is not captured.
- TextTable.StrToL: the numbers are unbounded and compared with the limits of a 64-bit long, as ERANGE would report them; locales are left out.
- LkArrays.LkArray: the bytes of one item are kept as one value; the byte loop of lk_array_exists is the comparison with the zero value.
- Keymaps.Context.AddKey: the key code INT_MAX, for which code + 1 overflows, is excluded by the type.
- ConstantKeys.AddConstants: table number 2^32 - 1, where the 32-bit loop counter would wrap around, is not captured.
- lk_get_keys_total, lk_kernel_funcs, deffuncs and lk_kernel_diacrs: they would only add easy members.
- linux/keyboard.h is not part of this model; K_HOLE, K_ALLOCATED and K_NOSUCHMAP have the values it gives them.
- The kernel's own checks of KDSKBENT (permissions, value ranges, key 0 being ignored): a refused request is one that the failure schedule says fails.
- LoadKeys.SetKeymap: after a failed request the exact contents of the kernel tables are not stated, only which tables can have changed and what is issued last.
- libxkbcommon, symbol names, modifier masks and code conversion are arbitrary functions; the fallback from a name to a code is one of them.
- GroupSimulation.ConsoleFollowsXkb: assumes one group switch key, as two of them can release each other, events of keys that the walk looks at, that only Mode_switch has the CtrlR code and no symbol the other group bits above ShiftR, and XKB modifiers that are the console's at every event; ModifierSimulation drops that last assumption.
- ModifierSimulation.WalkedInStepIff: what plain keys are excludes ISO_Level2_Latch (Shift to the console, a latch to XKB) and Super_L (Alt to the console); for runs with such keys only the exact condition, event by event, is stated. The console starts without locks of Shift, AltGr, Ctrl and Alt.
- ModifierSimulation.FilledInStepIff: as for the walk, and if the pass leaves the switch key alone.
- Group symbols other than Next, Prev, First, Last and Mode_switch (ISO_Group_Latch, ISO_Group_Lock) move XKB's locked group by an arbitrary function; where that changes the group the event misses. How long a latch lasts is not modelled.
- XKB's Lock and its modifiers beyond Shift, LevelThree, Control and Alt.
- Console.Act: modifier values of 9 and more, which would index past the counters of the C array, have no effect.
- ReleaseBindings.NothingStuck: for runs in which the keys of the modifier are looked up in tables that are there, which AllTablesThere derives for converted keymaps.
- ReleaseBindings.NoKeyNoModifier: nothing is said of a modifier with a key that is something else in another table, which a change of group between press and release can leave stuck.
- KeyCodes.CookedIsTyped: of a Latin character above ASCII that has an upper or lower case and is wanted as Unicode only the conversion table knows the code; it is stated for tables without Ctrl and Alt.
- The scores of compose candidates are data; a score depends on the symbols alone.
- Compose.QSort: one sorting algorithm stands for qsort; only its contract is used.
- Compose.AppendCandidates: the tree of seen pairs is a set; an accent table with holes is not captured.
- DumpKeymaps.DumpRanges: the digits and commas of the line are not modelled; nor are the other dump shapes and the keysym name tables.
- Screen dumps, VGA registers, LEDs, repeat rates, vlock and openvt.
