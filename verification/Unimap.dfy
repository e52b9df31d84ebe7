/**
  Between the kernel's Unicode map and the table of a PSF file: appendunicodemap (loadunimap.c:338-384)
  saves the map, do_loadtable (setfont.c:197-273) turns a table into a map again.
 */
module Unimap {
  import opened Bytes
  import opened UnicodeLists
  import opened PsfTable
  import PsfWriter

  // struct unipair
  datatype UniPair = UniPair(unicode: Ushort, fontpos: Ushort)

  const USHRT_MAX: int := 0xFFFF

  // ---------------------------------------------------------------- saving

  // The code points mapped to position p by the first k pairs, in order, each a sequence of its own.
  function EntryAt(list: seq<UniPair>, p: nat, k: nat): Entry
    requires k <= |list|
  {
    if k == 0 then []
    else EntryAt(list, p, k - 1) + if list[k - 1].fontpos == p then [[list[k - 1].unicode]] else []
  }

  function MapTable(list: seq<UniPair>, fontsize: nat): (t: seq<Entry>)
    ensures |t| == fontsize && forall i | 0 <= i < fontsize :: t[i] == EntryAt(list, i, |list|)
  {
    seq(fontsize, i requires 0 <= i < fontsize => EntryAt(list, i, |list|))
  }

  lemma {:induction false} EntryAtIsEntry(list: seq<UniPair>, p: nat, k: nat)
    requires k <= |list|
    ensures IsEntry(EntryAt(list, p, k))
  {
    if k > 0 {
      EntryAtIsEntry(list, p, k - 1);
    }
  }

  lemma MapTableIsTable(list: seq<UniPair>, fontsize: nat)
    ensures IsTable(MapTable(list, fontsize))
  {
    forall i | 0 <= i < fontsize
      ensures IsEntry(MapTable(list, fontsize)[i])
    {
      EntryAtIsEntry(list, i, |list|);
    }
  }

  // The bytes of the saved map.
  function SavedMap(list: seq<UniPair>, fontsize: nat, utf8: bool): seq<Byte> {
    MapTableIsTable(list, fontsize);
    EncodeTable(MapTable(list, fontsize), utf8)
  }

  // The pairs of position p among the first k are out.
  ghost predicate PairsOut(data: seq<Byte>, base: seq<Byte>, list: seq<UniPair>, p: nat, k: nat, utf8: bool)
    requires k <= |list|
  {
    var ts := EntryTokens(EntryAt(list, p, k));
    AllWritable(ts) && data == base + TokensBytes(ts, utf8)
  }

  lemma PairsOutStep(data: seq<Byte>, base: seq<Byte>, list: seq<UniPair>, p: nat, k: nat, utf8: bool)
    requires k < |list| && PairsOut(data, base, list, p, k, utf8)
    ensures PairsOut(data + if list[k].fontpos == p then EncodeCode(list[k].unicode, utf8) else [],
                     base, list, p, k + 1, utf8)
  {
    var e, c := EntryAt(list, p, k), list[k].unicode;
    if list[k].fontpos == p {
      PsfWriter.EntryTokensSnoc(e, [c]);
      assert SequenceTokens([c]) == [Code(c)];
      PsfWriter.TokensBytesSnoc(EntryTokens(e), Code(c), utf8);
      Assoc3(base, TokensBytes(EntryTokens(e), utf8), EncodeCode(c, utf8));
    } else {
      assert data + [] == data && e + [] == e;
    }
  }

  lemma PairsOutStart(base: seq<Byte>, list: seq<UniPair>, p: nat, utf8: bool)
    ensures PairsOut(base, base, list, p, 0, utf8)
  {
    assert base + [] == base;
  }

  lemma PairsOutEnd(data: seq<Byte>, base: seq<Byte>, list: seq<UniPair>, p: nat, utf8: bool)
    requires PairsOut(data, base, list, p, |list|, utf8)
    ensures IsEntry(EntryAt(list, p, |list|))
    ensures data + Separator(utf8) == base + EncodeEntry(EntryAt(list, p, |list|), utf8)
  {
    EntryAtIsEntry(list, p, |list|);
    Assoc3(base, TokensBytes(EntryTokens(EntryAt(list, p, |list|)), utf8), Separator(utf8));
  }

  // loadunimap.c:365-376, for one font position
  method AppendPosition(fp: seq<Byte>, unilist: seq<UniPair>, i: nat, utf8: bool) returns (fp': seq<Byte>)
    ensures IsEntry(EntryAt(unilist, i, |unilist|))
    ensures fp' == fp + EncodeEntry(EntryAt(unilist, i, |unilist|), utf8)
  {
    hide EntryAt, PairsOut, IsEntry, EncodeEntry, EncodeCode, Separator;
    fp' := fp;
    PairsOutStart(fp, unilist, i, utf8);
    for j := 0 to |unilist|
      invariant PairsOut(fp', fp, unilist, i, j, utf8)
    {
      PairsOutStep(fp', fp, unilist, i, j, utf8);
      assert fp' + [] == fp';
      if unilist[j].fontpos == i {
        var ok;
        ok, fp' := PsfWriter.AppendUnicode(fp', unilist[j].unicode, utf8);
      }
    }
    PairsOutEnd(fp', fp, unilist, i, utf8);
    fp' := PsfWriter.AppendSeparator(fp', false, utf8);
  }

  // appendunicodemap, given the pairs the kernel returned
  method AppendUnicodeMap(fp: seq<Byte>, unilist: seq<UniPair>, fontsize: nat, utf8: bool) returns (fp': seq<Byte>)
    ensures fp' == fp + SavedMap(unilist, fontsize, utf8)
  {
    ghost var t := MapTable(unilist, fontsize);
    fp' := fp;
    assert t[..0] == [];
    for i := 0 to fontsize
      invariant PsfWriter.TableOut(fp', fp, t, i, utf8)
    {
      ghost var before := fp';
      fp' := AppendPosition(fp', unilist, i, utf8);
      PsfWriter.TableOutStep(before, fp', fp, t, i, utf8);
    }
    assert t[..fontsize] == t;
  }

  // ---------------------------------------------------------------- loading

  // The casts to unsigned short of setfont.c:232-233.
  function PairOf(uc: int, i: nat): UniPair {
    UniPair(uc % 0x1_0000, i % 0x1_0000)
  }

  // The pairs of the first k sequences of the entry of glyph i: sequences of one code point only.
  function EntryPairs(e: Entry, i: nat, k: nat): (m: seq<UniPair>)
    requires k <= |e|
  {
    if k == 0 then []
    else EntryPairs(e, i, k - 1) + if |e[k - 1]| == 1 then [PairOf(e[k - 1][0], i)] else []
  }

  // The pairs of the first n entries.
  function TablePairs(t: seq<Entry>, n: nat): seq<UniPair>
    requires n <= |t|
  {
    if n == 0 then [] else TablePairs(t, n - 1) + EntryPairs(t[n - 1], n - 1, |t[n - 1]|)
  }

  lemma {:induction false} EntryPairsGrow(e: Entry, i: nat, k: nat, n: nat)
    requires k <= n <= |e|
    ensures |EntryPairs(e, i, k)| <= |EntryPairs(e, i, n)|
  {
    if k < n {
      EntryPairsGrow(e, i, k, n - 1);
    }
  }

  lemma {:induction false} TablePairsGrow(t: seq<Entry>, k: nat, n: nat)
    requires k <= n <= |t|
    ensures |TablePairs(t, k)| <= |TablePairs(t, n)|
  {
    if k < n {
      TablePairsGrow(t, k, n - 1);
    }
  }

  // setfont.c:210-216: how many pairs one entry yields
  method CountPairs(ul0: UnicodeList?, ghost up: UnicodeList, ghost nodes: seq<UnicodeList>,
                    ghost cells: seq<seq<UnicodeSeq>>, ghost e: seq<seq<Unicode>>, ghost i: nat) returns (ct: nat)
    requires Linked(up, nodes) && Rows(nodes, cells, e) && ul0 == up.next
    ensures ct == |EntryPairs(e, i, |e|)|
  {
    var ul := ul0;
    ct := 0;
    ghost var k := 0;
    while ul != null
      invariant 0 <= k <= |e| && ul == if k < |e| then nodes[k] else null
      invariant ct == |EntryPairs(e, i, k)|
      decreases |e| - k
    {
      NodeAt(up, nodes, cells, e, k);
      var us := ul.sequence;
      if us != null && us.next == null {
        ct := ct + 1;
      }
      ul := ul.next;
      k := k + 1;
    }
  }

  // setfont.c:229-248: the pairs of one entry are stored from index ct0 on
  method FillPairs(pairs: seq<UniPair>, ct0: nat, ul0: UnicodeList?, i: nat, ghost up: UnicodeList,
                   ghost nodes: seq<UnicodeList>, ghost cells: seq<seq<UnicodeSeq>>, ghost e: seq<seq<Unicode>>)
    returns (ct: nat, pairs': seq<UniPair>)
    requires Linked(up, nodes) && Rows(nodes, cells, e) && ul0 == up.next
    requires ct0 + |EntryPairs(e, i, |e|)| <= |pairs|
    ensures |pairs'| == |pairs| && ct == ct0 + |EntryPairs(e, i, |e|)|
    ensures pairs'[..ct] == pairs[..ct0] + EntryPairs(e, i, |e|)
  {
    var ul := ul0;
    ct, pairs' := ct0, pairs;
    ghost var k, done := 0, [];
    while ul != null
      invariant 0 <= k <= |e| && ul == if k < |e| then nodes[k] else null
      invariant done == EntryPairs(e, i, k)
      invariant ct == ct0 + |done| <= |pairs'| == |pairs| && pairs'[..ct] == pairs[..ct0] + done
      decreases |e| - k
    {
      NodeAt(up, nodes, cells, e, k);
      EntryPairsGrow(e, i, k + 1, |e|);
      var us := ul.sequence;
      if us != null && us.next == null {
        pairs' := Store(pairs', ct, PairOf(us.uc, i));
        Assoc3(pairs[..ct0], done, [PairOf(us.uc, i)]);
        done := done + [PairOf(us.uc, i)];
        ct := ct + 1;
      }
      ul := ul.next;
      k := k + 1;
    }
  }

  // up[ct] = pair: the buffer has room for it.
  function Store(pairs: seq<UniPair>, ct: nat, pair: UniPair): (pairs': seq<UniPair>)
    requires ct < |pairs|
    ensures |pairs'| == |pairs| && pairs'[..ct + 1] == pairs[..ct] + [pair]
  {
    pairs[ct := pair]
  }

  method CountEntry(up: UnicodeList, ghost i: nat) returns (ct: nat)
    requires up.Valid()
    ensures ct == |EntryPairs(up.Contents, i, |up.Contents|)|
  {
    ct := CountPairs(up.next, up, up.nodes, up.cells, up.Contents, i);
  }

  method FillEntry(pairs: seq<UniPair>, ct0: nat, up: UnicodeList, i: nat) returns (ct: nat, pairs': seq<UniPair>)
    requires up.Valid()
    requires ct0 + |EntryPairs(up.Contents, i, |up.Contents|)| <= |pairs|
    ensures |pairs'| == |pairs| && ct == ct0 + |EntryPairs(up.Contents, i, |up.Contents|)|
    ensures pairs'[..ct] == pairs[..ct0] + EntryPairs(up.Contents, i, |up.Contents|)
  {
    ct, pairs' := FillPairs(pairs, ct0, up.next, i, up, up.nodes, up.cells, up.Contents);
  }

  // setfont.c:208-217
  method CountAll(heads: seq<UnicodeList>, ghost t: seq<Entry>) returns (maxct: nat)
    requires AllValid(heads) && t == Tables(heads)
    ensures maxct == |TablePairs(t, |t|)|
  {
    hide UnicodeList.Valid;
    maxct := 0;
    for i := 0 to |heads|
      invariant maxct == |TablePairs(t, i)|
    {
      var n := CountEntry(heads[i], i);
      maxct := maxct + n;
    }
  }

  predicate SortedByPosition(m: seq<UniPair>) {
    forall a, b | 0 <= a < b < |m| :: m[a].fontpos <= m[b].fontpos
  }

  // The sequences among the first k of an entry that are one code point, u when cut to 16 bits.
  ghost function Singles(e: Entry, k: nat, u: int): set<nat> {
    set j | 0 <= j < k && j < |e| && IsSingle(e[j], u)
  }

  predicate IsSingle(s: seq<int>, u: int) {
    |s| == 1 && s[0] % 0x1_0000 == u
  }

  // The list of pairs of a table: sorted by position, and every pair as often as its entry has the code point
  // by itself.  Sequences of more code points leave no trace.
  ghost predicate PairsOf(t: seq<Entry>, m: seq<UniPair>) {
    && SortedByPosition(m)
    && forall u: Ushort, p: Ushort ::
         multiset(m)[UniPair(u, p)] == if p < |t| then |Singles(t[p], |t[p]|, u)| else 0
  }

  // The sequences among the first k of an entry that are one code point.
  ghost function Alone(e: Entry, k: nat): set<nat>
    requires k <= |e|
  {
    set j | 0 <= j < k && |e[j]| == 1
  }

  // How many sequences of one code point there are in the first n entries.
  ghost function SingleCount(t: seq<Entry>, n: nat): nat
    requires n <= |t|
  {
    if n == 0 then 0 else SingleCount(t, n - 1) + |Alone(t[n - 1], |t[n - 1]|)|
  }

  lemma SinglesStep(e: Entry, k: nat, u: int)
    requires k < |e|
    ensures |Singles(e, k + 1, u)| == |Singles(e, k, u)| + if IsSingle(e[k], u) then 1 else 0
  {
    hide IsSingle;
    if IsSingle(e[k], u) {
      assert Singles(e, k + 1, u) == Singles(e, k, u) + {k};
    } else {
      assert Singles(e, k + 1, u) == Singles(e, k, u);
    }
  }

  lemma AloneStep(e: Entry, k: nat)
    requires k < |e|
    ensures |Alone(e, k + 1)| == |Alone(e, k)| + if |e[k]| == 1 then 1 else 0
  {
    if |e[k]| == 1 {
      assert Alone(e, k + 1) == Alone(e, k) + {k};
    } else {
      assert Alone(e, k + 1) == Alone(e, k);
    }
  }

  lemma {:induction false} EntryOccurs(e: Entry, i: nat, k: nat, u: Ushort, p: Ushort)
    requires k <= |e| && i < 0x1_0000
    ensures multiset(EntryPairs(e, i, k))[UniPair(u, p)] == if p == i then |Singles(e, k, u)| else 0
  {
    hide Singles, IsSingle, EntryPairs;
    if k == 0 {
      NoSingles(e, i, u);
    } else {
      EntryOccurs(e, i, k - 1, u, p);
      SinglesStep(e, k - 1, u);
      OccursStep(e, i, k - 1, u, p);
    }
  }

  lemma OccursStep(e: Entry, i: nat, k: nat, u: Ushort, p: Ushort)
    requires k < |e| && i < 0x1_0000
    ensures multiset(EntryPairs(e, i, k + 1))[UniPair(u, p)] ==
              multiset(EntryPairs(e, i, k))[UniPair(u, p)] + if p == i && IsSingle(e[k], u) then 1 else 0
  {
    hide IsSingle, PairOf;
    PairIs(e[k], i, u, p);
    OccursConcat(EntryPairs(e, i, k), if |e[k]| == 1 then [PairOf(e[k][0], i)] else [], UniPair(u, p));
  }

  lemma OccursConcat(a: seq<UniPair>, b: seq<UniPair>, x: UniPair)
    ensures multiset(a + b)[x] == multiset(a)[x] + multiset(b)[x]
  {
    assert multiset(a + b) == multiset(a) + multiset(b);
  }

  lemma PairIs(s: seq<int>, i: nat, u: Ushort, p: Ushort)
    requires i < 0x1_0000
    ensures multiset(if |s| == 1 then [PairOf(s[0], i)] else [])[UniPair(u, p)] ==
              if p == i && IsSingle(s, u) then 1 else 0
  {
  }

  lemma NoSingles(e: Entry, i: nat, u: int)
    ensures Singles(e, 0, u) == {} && EntryPairs(e, i, 0) == []
  {
  }

  lemma {:induction false} EntrySingles(e: Entry, i: nat, k: nat)
    requires k <= |e|
    ensures |EntryPairs(e, i, k)| == |Alone(e, k)|
    ensures i < 0x1_0000 ==> forall a | a in EntryPairs(e, i, k) :: a.fontpos == i
  {
    hide Alone;
    if k == 0 {
      NoneAlone(e);
    } else {
      EntrySingles(e, i, k - 1);
      AloneStep(e, k - 1);
    }
  }

  lemma NoneAlone(e: Entry)
    ensures Alone(e, 0) == {}
  {
  }

  lemma {:induction false} TableCounts(t: seq<Entry>, n: nat)
    requires n <= |t|
    ensures |TablePairs(t, n)| == SingleCount(t, n)
  {
    hide EntryPairs, Alone;
    if n > 0 {
      TableCounts(t, n - 1);
      EntrySingles(t[n - 1], n - 1, |t[n - 1]|);
    }
  }

  lemma {:induction false} TableOccurs(t: seq<Entry>, n: nat, u: Ushort, p: Ushort)
    requires n <= |t| <= 0x1_0000
    ensures multiset(TablePairs(t, n))[UniPair(u, p)] == if p < n then |Singles(t[p], |t[p]|, u)| else 0
  {
    hide EntryPairs, Singles;
    if n > 0 {
      TableOccurs(t, n - 1, u, p);
      EntryOccurs(t[n - 1], n - 1, |t[n - 1]|, u, p);
    }
  }

  lemma {:induction false} TableSorted(t: seq<Entry>, n: nat)
    requires n <= |t| <= 0x1_0000
    ensures SortedByPosition(TablePairs(t, n)) && forall a | a in TablePairs(t, n) :: a.fontpos < n
  {
    hide EntryPairs;
    if n > 0 {
      TableSorted(t, n - 1);
      EntrySingles(t[n - 1], n - 1, |t[n - 1]|);
      SortedConcat(TablePairs(t, n - 1), EntryPairs(t[n - 1], n - 1, |t[n - 1]|), n - 1);
    }
  }

  lemma SortedConcat(m: seq<UniPair>, last: seq<UniPair>, p: nat)
    requires SortedByPosition(m) && (forall a | a in m :: a.fontpos < p) && forall a | a in last :: a.fontpos == p
    ensures SortedByPosition(m + last) && forall a | a in m + last :: a.fontpos <= p
  {
  }

  lemma TableLoaded(t: seq<Entry>)
    ensures |TablePairs(t, |t|)| == SingleCount(t, |t|)
    ensures |t| <= 0x1_0000 ==> PairsOf(t, TablePairs(t, |t|))
  {
    hide TablePairs, Singles, SingleCount;
    TableCounts(t, |t|);
    if |t| <= 0x1_0000 {
      TableSorted(t, |t|);
      forall u: Ushort, p: Ushort
        ensures multiset(TablePairs(t, |t|))[UniPair(u, p)] == if p < |t| then |Singles(t[p], |t[p]|, u)| else 0
      {
        TableOccurs(t, |t|, u, p);
      }
    }
  }

  // do_loadtable: the map handed to the kernel, None for more pairs than it can count.  The buffer is
  // sized by a first pass, and the second one fills it exactly.
  method DoLoadTable(heads: seq<UnicodeList>) returns (r: Option<seq<UniPair>>)
    requires AllValid(heads)
    ensures var m := TablePairs(Tables(heads), |heads|); r == if |m| <= USHRT_MAX then Some(m) else None
    ensures r == None <==> SingleCount(Tables(heads), |heads|) > 0xFFFF
    ensures r.Some? && |heads| <= 0x1_0000 ==> PairsOf(Tables(heads), r.value)
  {
    hide UnicodeList.Valid, PairsOf, SingleCount;
    TableLoaded(Tables(heads));
    ghost var t := Tables(heads);
    var maxct := CountAll(heads, t);
    var pairs := seq(maxct, _ => UniPair(0, 0));
    var ct := 0;
    for i := 0 to |heads|
      invariant ct == |TablePairs(t, i)| <= |pairs| == maxct && pairs[..ct] == TablePairs(t, i)
    {
      TablePairsGrow(t, i + 1, |heads|);
      ct, pairs := FillEntry(pairs, ct, heads[i], i);
    }
    if ct > USHRT_MAX || ct != maxct {
      return None;
    }
    return Some(pairs[..ct]);
  }

  // ---------------------------------------------------------------- saving and loading

  // The pairs of position p, in order.
  function At(m: seq<UniPair>, p: int): seq<UniPair> {
    if m == [] then [] else (if m[0].fontpos == p then [m[0]] else []) + At(m[1..], p)
  }

  lemma {:induction false} AtConcat(a: seq<UniPair>, b: seq<UniPair>, p: int)
    ensures At(a + b, p) == At(a, p) + At(b, p)
  {
    if a == [] {
      assert a + b == b;
    } else {
      assert (a + b)[1..] == a[1..] + b && (a + b)[0] == a[0];
      AtConcat(a[1..], b, p);
      Assoc3(if a[0].fontpos == p then [a[0]] else [], At(a[1..], p), At(b, p));
    }
  }

  // The pairs do_loadtable makes of a saved entry are those of its position, unchanged.
  lemma {:induction false} EntryPairsBack(list: seq<UniPair>, i: nat, k: nat)
    requires k <= |list| && i < 0x1_0000
    ensures var e := EntryAt(list, i, k); EntryPairs(e, i, |e|) == At(list[..k], i)
  {
    if k > 0 {
      EntryPairsBack(list, i, k - 1);
      var e := EntryAt(list, i, k - 1);
      assert list[..k] == list[..k - 1] + [list[k - 1]];
      AtConcat(list[..k - 1], [list[k - 1]], i);
      EntryPairsPrefix(e, EntryAt(list, i, k), i, |e|);
    }
  }

  lemma {:induction false} EntryPairsPrefix(e: Entry, f: Entry, i: nat, k: nat)
    requires k <= |e| && e <= f
    ensures EntryPairs(e, i, k) == EntryPairs(f, i, k)
  {
    if k > 0 {
      EntryPairsPrefix(e, f, i, k - 1);
    }
  }

  lemma {:induction false} AtElements(m: seq<UniPair>, p: int)
    ensures forall a | a in At(m, p) :: a.fontpos == p
  {
    if m != [] {
      AtElements(m[1..], p);
    }
  }

  lemma {:induction false} AtUniform(m: seq<UniPair>, p: int, q: int)
    requires forall a | a in m :: a.fontpos == p
    ensures At(m, q) == if q == p then m else []
  {
    if m != [] {
      assert m[0] in m && m == [m[0]] + m[1..];
      AtUniform(m[1..], p, q);
    }
  }

  lemma AtAppended(m: seq<UniPair>, last: seq<UniPair>, i: int, p: int)
    requires forall a | a in last :: a.fontpos == i
    ensures At(m + last, p) == if p == i then At(m, p) + last else At(m, p)
  {
    AtConcat(m, last, p);
    AtUniform(last, i, p);
  }

  lemma LastEntry(list: seq<UniPair>, fontsize: nat, n: nat)
    requires 0 < n <= fontsize <= 0x1_0000
    ensures var t := MapTable(list, fontsize); TablePairs(t, n) == TablePairs(t, n - 1) + At(list, n - 1)
  {
    hide EntryAt, EntryPairs, At;
    EntryPairsBack(list, n - 1, |list|);
    assert list[..|list|] == list;
  }

  lemma NothingLoaded(list: seq<UniPair>, fontsize: nat)
    ensures TablePairs(MapTable(list, fontsize), 0) == [] && SortedByPosition([])
    ensures forall p: int :: At([], p) == []
  {
  }

  // What loading a saved map yields: sorted by position ...
  lemma {:induction false} LoadedSorted(list: seq<UniPair>, fontsize: nat, n: nat)
    requires n <= fontsize <= 0x1_0000
    ensures var m := TablePairs(MapTable(list, fontsize), n);
            SortedByPosition(m) && forall a | a in m :: a.fontpos < n
  {
    hide *;
    if n == 0 {
      NothingLoaded(list, fontsize);
    } else {
      LoadedSorted(list, fontsize, n - 1);
      LastEntry(list, fontsize, n);
      AtElements(list, n - 1);
      SortedConcat(TablePairs(MapTable(list, fontsize), n - 1), At(list, n - 1), n - 1);
    }
  }

  // ... and for every position of the font the pairs of that position in their old order.
  lemma {:induction false} LoadedAt(list: seq<UniPair>, fontsize: nat, n: nat, p: int)
    requires n <= fontsize <= 0x1_0000
    ensures At(TablePairs(MapTable(list, fontsize), n), p) == if 0 <= p < n then At(list, p) else []
  {
    hide *;
    if n == 0 {
      NothingLoaded(list, fontsize);
    } else {
      LoadedAt(list, fontsize, n - 1, p);
      LastEntry(list, fontsize, n);
      AtElements(list, n - 1);
      AtAppended(TablePairs(MapTable(list, fontsize), n - 1), At(list, n - 1), n - 1, p);
    }
  }

  lemma {:induction false} EntryAtSingles(list: seq<UniPair>, p: nat, k: nat, utf8: bool)
    requires k <= |list|
    ensures var e := EntryAt(list, p, k);
            && (forall s | s in e :: |s| == 1)
            && (EntryReadable(e, utf8) <==>
                  forall j | 0 <= j < k && list[j].fontpos == p :: Readable(list[j].unicode, utf8))
  {
    if k > 0 {
      EntryAtSingles(list, p, k - 1, utf8);
      var e, s := EntryAt(list, p, k - 1), [list[k - 1].unicode];
      assert SequenceReadable(s, utf8) <==> Readable(s[0], utf8);
      assert forall x | x in e + [s] :: x in e || x == s;
      assert s in e + [s] && forall x | x in e :: x in e + [s];
    }
  }

  lemma MapReadable(list: seq<UniPair>, fontsize: nat, utf8: bool)
    requires fontsize <= 0x1_0000
    ensures var t := MapTable(list, fontsize);
            && TableReadable(t, utf8) <==> forall a | a in list && a.fontpos < fontsize :: Readable(a.unicode, utf8)
    ensures forall i | 0 <= i < fontsize :: SinglesFirst(MapTable(list, fontsize)[i])
  {
    hide EntryReadable, EntryAt, SinglesFirst;
    var t := MapTable(list, fontsize);
    forall i | 0 <= i < fontsize
      ensures SinglesFirst(t[i])
      ensures EntryReadable(t[i], utf8)
         <==> forall j | 0 <= j < |list| && list[j].fontpos == i :: Readable(list[j].unicode, utf8)
    {
      EntryAtSingles(list, i, |list|, utf8);
      OnlySingles(t[i]);
    }
    if TableReadable(t, utf8) {
      forall a | a in list && a.fontpos < fontsize
        ensures Readable(a.unicode, utf8)
      {
        assert EntryReadable(t[a.fontpos], utf8);
      }
    }
  }

  lemma OnlySingles(e: Entry)
    requires forall s | s in e :: |s| == 1
    ensures SinglesFirst(e)
  {
  }

  // Saving the kernel's map behind a font of fontsize glyphs and reading the file gives the table back
  // exactly when no pair in reach collides with the two marks of PSF1 ...
  lemma SaveLoadIff(list: seq<UniPair>, fontsize: nat, utf8: bool)
    requires fontsize <= 0x1_0000
    ensures var t := MapTable(list, fontsize);
            ParseTable(SavedMap(list, fontsize, utf8), fontsize, utf8) == Ok((t, [])) <==>
              (utf8 || forall a | a in list && a.fontpos < fontsize :: a.unicode < 0xFFFE)
  {
    hide ParseTable, TableReadable, SinglesFirst;
    MapTableIsTable(list, fontsize);
    MapReadable(list, fontsize, utf8);
    TableRoundTripIff(MapTable(list, fontsize), utf8);
  }

  // Pairs of positions below n.
  function CountBelow(list: seq<UniPair>, n: nat): (c: nat)
    ensures c <= |list|
  {
    if list == [] then 0 else (if list[0].fontpos < n then 1 else 0) + CountBelow(list[1..], n)
  }

  lemma {:induction false} CountBelowNext(list: seq<UniPair>, n: nat)
    ensures CountBelow(list, n + 1) == CountBelow(list, n) + |At(list, n)|
    ensures CountBelow(list, 0) == 0
  {
    if list != [] {
      CountBelowNext(list[1..], n);
    }
  }

  lemma {:induction false} LoadedCount(list: seq<UniPair>, fontsize: nat, n: nat)
    requires n <= fontsize <= 0x1_0000
    ensures |TablePairs(MapTable(list, fontsize), n)| == CountBelow(list, n)
  {
    hide *;
    if n == 0 {
      NothingLoaded(list, fontsize);
      CountBelowNext(list, 0);
    } else {
      LoadedCount(list, fontsize, n - 1);
      LastEntry(list, fontsize, n);
      CountBelowNext(list, n - 1);
    }
  }

  // ... and do_loadtable then yields the stable sort of the pairs by position, cut at the font size.
  // It has as many pairs as the list has in reach, so do_loadtable takes it whenever the list is one
  // the kernel can count.
  lemma LoadedIsStableSort(list: seq<UniPair>, fontsize: nat)
    requires fontsize <= 0x1_0000
    ensures var m := TablePairs(MapTable(list, fontsize), fontsize);
            && SortedByPosition(m)
            && (forall p: int :: At(m, p) == if 0 <= p < fontsize then At(list, p) else [])
            && |m| == CountBelow(list, fontsize) && (|list| <= USHRT_MAX ==> |m| <= USHRT_MAX)
  {
    hide *;
    LoadedSorted(list, fontsize, fontsize);
    LoadedCount(list, fontsize, fontsize);
    forall p: int
      ensures At(TablePairs(MapTable(list, fontsize), fontsize), p) == if 0 <= p < fontsize then At(list, p) else []
    {
      LoadedAt(list, fontsize, fontsize, p);
    }
  }
}
