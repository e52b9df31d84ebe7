/**
  The Unicode table of a PSF file, on values: what the writer emits for the entry of a glyph, how the
  reader takes it apart, and that the two undo each other.

  An entry is a list of sequences of code points.  In the file (kfont.h:20-42) sequences of one code
  point are written bare, longer ones after a start mark, and a separator ends the entry.
 */
module PsfTable {
  import opened Bytes
  import Utf8

  type Entry = seq<seq<int>>

  datatype ReadError =
    | NotPsf | UnsupportedMode | UnsupportedVersion | ZeroLength | ZeroCharsize | BitmapTooLong
    | BadCharsize | BadHeight | TrailingData | PositionOverflow
    | ShortTable | ShortUcs2 | ShortUtf8 | BadUtf8 | TrailingGarbage

  // ---------------------------------------------------------------- writing

  predicate IsCode(c: int) {
    0 <= c < 0x8000_0000
  }

  // The separator marks of psffontop.c:432-448, in little-endian order for PSF1.
  function Separator(utf8: bool): seq<Byte> {
    if utf8 then [0xFF] else [0xFF, 0xFF]
  }

  function StartMark(utf8: bool): seq<Byte> {
    if utf8 then [0xFE] else [0xFE, 0xFF]
  }

  // appendunicode: UTF-8, or the low 16 bits.
  function EncodeCode(c: int, utf8: bool): (b: seq<Byte>)
    requires IsCode(c)
    ensures b != []
  {
    if utf8 then Utf8.Encode(c) else [c % 0x100, c / 0x100 % 0x100]
  }

  predicate AreCodes(s: seq<int>) {
    forall c | c in s :: IsCode(c)
  }

  predicate IsEntry(e: Entry) {
    forall s | s in e :: s != [] && AreCodes(s)
  }

  // The items of an entry before its separator.
  datatype Token = Start | Code(c: int)

  function CodeTokens(s: seq<int>): (t: seq<Token>)
    ensures |t| == |s| && forall i | 0 <= i < |s| :: t[i] == Code(s[i])
  {
    seq(|s|, i requires 0 <= i < |s| => Code(s[i]))
  }

  function SequenceTokens(s: seq<int>): seq<Token> {
    (if |s| > 1 then [Start] else []) + CodeTokens(s)
  }

  function EntryTokens(e: Entry): seq<Token> {
    if e == [] then [] else SequenceTokens(e[0]) + EntryTokens(e[1..])
  }

  predicate Writable(t: Token) {
    t.Code? ==> IsCode(t.c)
  }

  function TokenBytes(t: Token, utf8: bool): seq<Byte>
    requires Writable(t)
  {
    if t.Start? then StartMark(utf8) else EncodeCode(t.c, utf8)
  }

  predicate AllWritable(ts: seq<Token>) {
    forall t | t in ts :: Writable(t)
  }

  function TokensBytes(ts: seq<Token>, utf8: bool): seq<Byte>
    requires AllWritable(ts)
  {
    if ts == [] then [] else TokenBytes(ts[0], utf8) + TokensBytes(ts[1..], utf8)
  }

  lemma {:induction false} EntryTokensWritable(e: Entry)
    requires IsEntry(e)
    ensures AllWritable(EntryTokens(e))
  {
    if e != [] {
      assert e[0] in e;
      EntryTokensWritable(e[1..]);
    }
  }

  function EncodeEntry(e: Entry, utf8: bool): seq<Byte>
    requires IsEntry(e)
  {
    EntryTokensWritable(e);
    TokensBytes(EntryTokens(e), utf8) + Separator(utf8)
  }

  predicate IsTable(t: seq<Entry>) {
    forall e | e in t :: IsEntry(e)
  }

  function EncodeTable(t: seq<Entry>, utf8: bool): seq<Byte>
    requires IsTable(t)
  {
    if t == [] then [] else EncodeEntry(t[0], utf8) + EncodeTable(t[1..], utf8)
  }

  // ---------------------------------------------------------------- reading

  // Code points a table can hold.
  predicate Readable(c: int, utf8: bool) {
    0 <= c < (if utf8 then 0x8000_0000 else 0xFFFE)
  }

  predicate ReadableToken(t: Token, utf8: bool) {
    t.Code? ==> Readable(t.c, utf8)
  }

  // The next item of a table, None for the separator, and the number of bytes it takes
  // (psffontop.c:99-125).
  function NextToken(s: seq<Byte>, utf8: bool): (r: Result<(Option<Token>, nat), ReadError>)
    ensures r.Ok? ==> 1 <= r.value.1 <= |s|
    ensures r.Ok? && r.value.0.Some? ==> ReadableToken(r.value.0.value, utf8)
  {
    if s == [] then Err(ShortTable)
    else if utf8 then
      if s[0] == 0xFF then Ok((None, 1))
      else if s[0] == 0xFE then Ok((Some(Start), 1))
      else
        match Utf8.Decode(s)
        case Err(Short) => Err(ShortUtf8)
        case Err(Bad) => Err(BadUtf8)
        case Ok((c, n)) => DecodedIsCode(s, c, n); Ok((Some(Code(c)), n))
    else if |s| < 2 then Err(ShortUcs2)
    else
      var u: int := s[0] as int + 0x100 * s[1] as int;
      Ok((if u == 0xFFFF then None else if u == 0xFFFE then Some(Start) else Some(Code(u)), 2))
  }

  lemma DecodedIsCode(s: seq<Byte>, c: nat, n: nat)
    requires |s| > 0 && s[0] < 0xFE && Utf8.Decode(s) == Ok((c, n))
    ensures IsCode(c)
  {
    Utf8.ShortestIffRestored(s, c, n);
  }

  // The items up to the separator and the bytes after it.
  function Scan(s: seq<Byte>, utf8: bool): (r: Result<(seq<Token>, seq<Byte>), ReadError>)
    ensures r.Ok? ==> |r.value.1| < |s| && r.value.1 == s[|s| - |r.value.1|..]
    decreases |s|
  {
    match NextToken(s, utf8)
    case Err(x) => Err(x)
    case Ok((None, n)) => Ok(([], s[n..]))
    case Ok((Some(t), n)) =>
      match Scan(s[n..], utf8)
      case Err(x) => Err(x)
      case Ok((ts, rest)) => Ok(([t] + ts, rest))
  }

  // The reader's `inseq`: 0, 1 right after a start mark, larger inside a sequence.
  datatype Mode = Singles | Opened | Inside

  // An entry under construction; inside a sequence there is one to extend.
  datatype Draft' = Draft(e: Entry, m: Mode)
  type Draft = d: Draft' | d.m == Inside ==> d.e != [] witness Draft([], Singles)

  function ExtendLast(e: Entry, s: seq<int>): Entry
    requires e != []
  {
    e[|e| - 1 := e[|e| - 1] + s]
  }

  // One round of get_uni_entry: addpair before and right after a start mark, then addseq.
  function Step(d: Draft, t: Token): Draft {
    match t
    case Start => Draft(d.e, Opened)
    case Code(c) =>
      if d.m == Inside then Draft(ExtendLast(d.e, [c]), Inside)
      else Draft(d.e + [[c]], if d.m == Singles then Singles else Inside)
  }

  function Build(d: Draft, ts: seq<Token>): Draft
    decreases |ts|
  {
    if ts == [] then d else Build(Step(d, ts[0]), ts[1..])
  }

  const FRESH: Draft := Draft([], Singles)

  // get_uni_entry on the bytes s: the entry and what follows it.
  function ParseEntry(s: seq<Byte>, utf8: bool): (r: Result<(Entry, seq<Byte>), ReadError>)
    ensures r.Ok? ==> |r.value.1| < |s|
  {
    match Scan(s, utf8)
    case Err(x) => Err(x)
    case Ok((ts, rest)) => Ok((Build(FRESH, ts).e, rest))
  }

  // The entries of n glyphs.
  function ParseTable(s: seq<Byte>, n: nat, utf8: bool): (r: Result<(seq<Entry>, seq<Byte>), ReadError>)
    ensures r.Ok? ==> |r.value.0| == n && |r.value.1| <= |s|
  {
    if n == 0 then Ok(([], s))
    else
      match ParseEntry(s, utf8)
      case Err(x) => Err(x)
      case Ok((e, rest)) =>
        match ParseTable(rest, n - 1, utf8)
        case Err(x) => Err(x)
        case Ok((t, rest')) => Ok(([e] + t, rest'))
  }

  // ---------------------------------------------------------------- bytes: the scanner undoes the writer

  lemma TokenRoundTrip(t: Token, rest: seq<Byte>, utf8: bool)
    requires ReadableToken(t, utf8)
    ensures NextToken(TokenBytes(t, utf8) + rest, utf8) == Ok((Some(t), |TokenBytes(t, utf8)|))
    ensures NextToken(Separator(utf8) + rest, utf8) == Ok((None, |Separator(utf8)|))
  {
    if t.Code? && utf8 {
      Utf8.RoundTrip(t.c, rest);
    }
  }

  predicate AllReadable(ts: seq<Token>, utf8: bool): (b: bool)
    ensures b ==> AllWritable(ts)
  {
    forall t | t in ts :: ReadableToken(t, utf8)
  }

  lemma ScanStep(t: Token, rest: seq<Byte>, utf8: bool)
    requires ReadableToken(t, utf8)
    ensures Scan(Separator(utf8) + rest, utf8) == Ok(([], rest))
    ensures Scan(rest, utf8).Ok? ==>
      Scan(TokenBytes(t, utf8) + rest, utf8) == Ok(([t] + Scan(rest, utf8).value.0, Scan(rest, utf8).value.1))
  {
    TokenRoundTrip(t, rest, utf8);
    assert (Separator(utf8) + rest)[|Separator(utf8)|..] == rest;
    assert (TokenBytes(t, utf8) + rest)[|TokenBytes(t, utf8)|..] == rest;
  }

  lemma {:induction false} ScanRoundTrip(ts: seq<Token>, rest: seq<Byte>, utf8: bool)
    requires AllReadable(ts, utf8)
    ensures Scan(TokensBytes(ts, utf8) + Separator(utf8) + rest, utf8) == Ok((ts, rest))
  {
    if ts == [] {
      ScanStep(Start, rest, utf8);
      assert TokensBytes(ts, utf8) + Separator(utf8) + rest == Separator(utf8) + rest;
    } else {
      assert ts[0] in ts && ts == [ts[0]] + ts[1..];
      var b, bs, sep := TokenBytes(ts[0], utf8), TokensBytes(ts[1..], utf8), Separator(utf8);
      ScanRoundTrip(ts[1..], rest, utf8);
      ScanStep(ts[0], bs + sep + rest, utf8);
      Assoc(b, bs, sep, rest);
    }
  }

  // ---------------------------------------------------------------- items: what is built from them

  lemma {:induction false} BuildConcat(d: Draft, a: seq<Token>, b: seq<Token>)
    ensures Build(d, a + b) == Build(Build(d, a), b)
    decreases |a|
  {
    if a == [] {
      assert a + b == b;
    } else {
      assert (a + b)[1..] == a[1..] + b;
      BuildConcat(Step(d, a[0]), a[1..], b);
    }
  }

  lemma {:induction false} BuildInside(e: Entry, s: seq<int>)
    requires e != []
    ensures Build(Draft(e, Inside), CodeTokens(s)) == Draft(ExtendLast(e, s), Inside)
    decreases |s|
  {
    if s == [] {
      assert e[|e| - 1] + s == e[|e| - 1];
    } else {
      BuildInside(ExtendLast(e, [s[0]]), s[1..]);
      assert CodeTokens(s)[1..] == CodeTokens(s[1..]);
      assert e[|e| - 1] + [s[0]] + s[1..] == e[|e| - 1] + s;
    }
  }

  // The format has no way back from sequences to single code points: a single written after a
  // sequence becomes part of it.
  function AbsorbOne(d: Draft, s: seq<int>): Draft {
    if |s| == 1 && d.m == Inside then Draft(ExtendLast(d.e, s), Inside)
    else Draft(d.e + [s], if |s| > 1 then Inside else d.m)
  }

  function Absorb(d: Draft, e: Entry): Draft
    decreases |e|
  {
    if e == [] then d else Absorb(AbsorbOne(d, e[0]), e[1..])
  }

  // What becomes of an entry that is written and read.
  function ReadBack(e: Entry): Entry {
    Absorb(FRESH, e).e
  }

  lemma BuildSequence(d: Draft, s: seq<int>)
    requires s != [] && d.m != Opened
    ensures Build(d, SequenceTokens(s)) == AbsorbOne(d, s)
  {
    var t := CodeTokens(s);
    assert t[1..] == CodeTokens(s[1..]);
    if |s| > 1 {
      assert SequenceTokens(s)[1..] == t;
      BuildInside(d.e + [[s[0]]], s[1..]);
      assert [s[0]] + s[1..] == s;
      assert Build(d, SequenceTokens(s)) == Build(Draft(d.e, Opened), t);
    } else {
      assert s == [s[0]] && SequenceTokens(s) == [Code(s[0])];
      assert Build(d, [Code(s[0])]) == Step(d, Code(s[0]));
    }
  }

  lemma {:induction false} BuildEntry(d: Draft, e: Entry)
    requires d.m != Opened && forall s | s in e :: s != []
    ensures Build(d, EntryTokens(e)) == Absorb(d, e)
    decreases |e|
  {
    if e != [] {
      assert e[0] in e;
      BuildConcat(d, SequenceTokens(e[0]), EntryTokens(e[1..]));
      BuildSequence(d, e[0]);
      assert forall s | s in e[1..] :: s in e;
      BuildEntry(AbsorbOne(d, e[0]), e[1..]);
    }
  }

  // ---------------------------------------------------------------- round trips

  predicate SequenceReadable(s: seq<int>, utf8: bool) {
    forall c | c in s :: Readable(c, utf8)
  }

  predicate EntryReadable(e: Entry, utf8: bool) {
    forall s | s in e :: SequenceReadable(s, utf8)
  }

  lemma {:induction false} EntryTokensReadable(e: Entry, utf8: bool)
    requires EntryReadable(e, utf8)
    ensures AllReadable(EntryTokens(e), utf8)
  {
    if e != [] {
      EntryTokensReadable(e[1..], utf8);
      assert SequenceReadable(e[0], utf8);
      forall t | t in CodeTokens(e[0])
        ensures ReadableToken(t, utf8)
      {
        assert t.c in e[0];
      }
    }
  }

  // What the reader makes of the bytes of an entry, whatever follows them.
  lemma EntryReadBack(e: Entry, rest: seq<Byte>, utf8: bool)
    requires IsEntry(e) && EntryReadable(e, utf8)
    ensures ParseEntry(EncodeEntry(e, utf8) + rest, utf8) == Ok((ReadBack(e), rest))
  {
    EntryTokensReadable(e, utf8);
    ScanRoundTrip(EntryTokens(e), rest, utf8);
    BuildEntry(FRESH, e);
  }

  predicate TableReadable(t: seq<Entry>, utf8: bool) {
    forall e | e in t :: EntryReadable(e, utf8)
  }

  function ReadBackAll(t: seq<Entry>): (t': seq<Entry>)
    ensures |t'| == |t| && forall i | 0 <= i < |t| :: t'[i] == ReadBack(t[i])
  {
    seq(|t|, i requires 0 <= i < |t| => ReadBack(t[i]))
  }

  lemma ReadBackAllCons(t: seq<Entry>)
    requires t != []
    ensures ReadBackAll(t) == [ReadBack(t[0])] + ReadBackAll(t[1..])
  {
  }

  lemma {:induction false} TableReadBack(t: seq<Entry>, rest: seq<Byte>, utf8: bool)
    requires IsTable(t) && TableReadable(t, utf8)
    ensures ParseTable(EncodeTable(t, utf8) + rest, |t|, utf8) == Ok((ReadBackAll(t), rest))
  {
    if t == [] {
      assert EncodeTable(t, utf8) + rest == rest;
    } else {
      var b, bs := EncodeEntry(t[0], utf8), EncodeTable(t[1..], utf8);
      assert t[0] in t;
      Assoc3(b, bs, rest);
      EntryReadBack(t[0], bs + rest, utf8);
      TableReadBack(t[1..], rest, utf8);
      ReadBackAllCons(t);
    }
  }

  // Single code points first, then sequences of two or more (kfont.h:23).
  predicate SinglesFirst(e: Entry) {
    forall i, j | 0 <= i < j < |e| :: |e[i]| > 1 ==> |e[j]| > 1
  }

  predicate LongOnly(e: Entry) {
    forall s | s in e :: |s| > 1
  }

  lemma SinglesFirstStep(e: Entry)
    requires e != [] && (forall s | s in e :: s != [])
    ensures SinglesFirst(e) <==> if |e[0]| > 1 then LongOnly(e[1..]) else SinglesFirst(e[1..])
  {
    if |e[0]| > 1 && LongOnly(e[1..]) {
      assert forall j | 0 < j < |e| :: e[j] == e[1..][j - 1];
    }
    if |e[0]| > 1 && SinglesFirst(e) {
      assert forall j | 0 <= j < |e[1..]| :: e[1..][j] == e[j + 1];
    }
    if |e[0]| <= 1 && SinglesFirst(e[1..]) {
      forall i, j | 0 <= i < j < |e| && |e[i]| > 1
        ensures |e[j]| > 1
      {
        assert e[j] == e[1..][j - 1] && e[i] == e[1..][i - 1];
      }
    }
    if |e[0]| <= 1 && SinglesFirst(e) {
      forall i, j | 0 <= i < j < |e[1..]| && |e[1..][i]| > 1
        ensures |e[1..][j]| > 1
      {
        assert e[1..][j] == e[j + 1] && e[1..][i] == e[i + 1];
      }
    }
  }

  // Nothing is absorbed exactly when no single follows a sequence; otherwise an item disappears.
  lemma {:induction false} AbsorbedLength(d: Draft, e: Entry)
    requires d.m != Opened && forall s | s in e :: s != []
    ensures var fits := if d.m == Inside then LongOnly(e) else SinglesFirst(e);
            if fits then Absorb(d, e).e == d.e + e else |Absorb(d, e).e| < |d.e| + |e|
    decreases |e|
  {
    if e == [] {
      assert d.e + e == d.e;
    } else {
      assert e[0] in e;
      SinglesFirstStep(e);
      AbsorbedShorter(AbsorbOne(d, e[0]), e[1..]);
      assert forall s | s in e[1..] :: s in e;
      AbsorbedLength(AbsorbOne(d, e[0]), e[1..]);
      assert LongOnly(e) <==> |e[0]| > 1 && LongOnly(e[1..]);
      assert d.e + [e[0]] + e[1..] == d.e + e;
    }
  }

  lemma {:induction false} AbsorbedShorter(d: Draft, e: Entry)
    ensures |Absorb(d, e).e| <= |d.e| + |e|
    decreases |e|
  {
    if e != [] {
      AbsorbedShorter(AbsorbOne(d, e[0]), e[1..]);
    }
  }

  lemma ReadBackIff(e: Entry)
    requires IsEntry(e)
    ensures ReadBack(e) == e <==> SinglesFirst(e)
  {
    AbsorbedLength(FRESH, e);
    assert [] + e == e;
  }

  // Whatever the reader returns consists of code points a table can hold.
  lemma {:induction false} ScannedReadable(s: seq<Byte>, utf8: bool)
    ensures var r := Scan(s, utf8); r.Ok? ==> AllReadable(r.value.0, utf8)
    decreases |s|
  {
    var r := NextToken(s, utf8);
    if r.Ok? && r.value.0.Some? {
      ScannedReadable(s[r.value.1..], utf8);
    }
  }

  lemma StepReadable(d: Draft, t: Token, utf8: bool)
    requires EntryReadable(d.e, utf8) && ReadableToken(t, utf8)
    ensures EntryReadable(Step(d, t).e, utf8)
  {
    forall s | s in Step(d, t).e
      ensures SequenceReadable(s, utf8)
    {
      if s !in d.e && d.m == Inside && t.Code? {
        assert d.e[|d.e| - 1] in d.e && s == d.e[|d.e| - 1] + [t.c];
      }
    }
  }

  lemma {:induction false} BuiltReadable(d: Draft, ts: seq<Token>, utf8: bool)
    requires EntryReadable(d.e, utf8) && AllReadable(ts, utf8)
    ensures EntryReadable(Build(d, ts).e, utf8)
    decreases |ts|
  {
    if ts != [] {
      assert ts[0] in ts;
      assert EntryReadable(Step(d, ts[0]).e, utf8) by {
        StepReadable(d, ts[0], utf8);
      }
      BuiltReadable(Step(d, ts[0]), ts[1..], utf8);
    }
  }

  lemma {:induction false} ParsedReadable(s: seq<Byte>, n: nat, utf8: bool)
    ensures var r := ParseTable(s, n, utf8); r.Ok? ==> TableReadable(r.value.0, utf8)
  {
    hide Scan, Build, EntryReadable;
    if n > 0 {
      var r := Scan(s, utf8);
      if r.Ok? {
        ScannedReadable(s, utf8);
        BuiltReadable(FRESH, r.value.0, utf8);
        ParsedReadable(r.value.1, n - 1, utf8);
      }
    }
  }

  // Tables the format can hold.
  predicate Storable(t: seq<Entry>, utf8: bool) {
    TableReadable(t, utf8) && forall e | e in t :: SinglesFirst(e)
  }

  // The table read back is the table written exactly when the format can hold it.
  lemma TableRoundTripIff(t: seq<Entry>, utf8: bool)
    requires IsTable(t)
    ensures ParseTable(EncodeTable(t, utf8), |t|, utf8) == Ok((t, [])) <==> Storable(t, utf8)
  {
    if TableReadable(t, utf8) {
      TableReadBack(t, [], utf8);
      assert EncodeTable(t, utf8) + [] == EncodeTable(t, utf8);
      forall i | 0 <= i < |t|
        ensures ReadBackAll(t)[i] == t[i] <==> SinglesFirst(t[i])
      {
        ReadBackIff(t[i]);
      }
      if forall e | e in t :: SinglesFirst(e) {
        assert ReadBackAll(t) == t;
      }
      if ReadBackAll(t) == t {
        assert forall i | 0 <= i < |t| :: ReadBackAll(t)[i] == t[i];
      }
    } else {
      ParsedReadable(EncodeTable(t, utf8), |t|, utf8);
    }
  }
}
