/**
  kmap.c:169-249: the `keys as usual` expansion of constant keys into every allocated table.
 */
module ConstantKeys {
  import opened Bytes
  import opened Keymaps

  // ---------------------------------------------------------------- one key

  predicate IsLetterKey(key: int) {
    var val := Kval(key);
    && (Ktyp(key) == KT_LATIN || Ktyp(key) == KT_LETTER)
    && ('a' as int <= val <= 'z' as int || 'A' as int <= val <= 'Z' as int)
  }

  // val ^ 32
  function OtherCase(val: Byte): Byte {
    if val / 32 % 2 == 1 then val - 32 else val + 32
  }

  // val & ~96
  function Control(val: Byte): Byte {
    val - 32 * (val / 32 % 4)
  }

  // The code for table j when none is given: defs[j % 16] for letters.
  function Def(key: int, j: nat): int {
    var val := Kval(key);
    if !IsLetterKey(key) then key
    else if j % 16 < 4 then K(KT_LETTER, if j % 2 == 0 then val else OtherCase(val))
    else if j % 16 < 8 then K(KT_LATIN, Control(val))
    else if j % 16 < 12 then K(KT_META, if j % 2 == 0 then val else OtherCase(val))
    else K(KT_META, Control(val))
  }

  // Table j takes the default: it has no code for the key, or it is table 0 and the key is a letter.
  predicate Wanted(v: Tables, key: int, i: Uint32, j: Uint32) {
    j in v && if j == 0 then IsLetterKey(key) else !Bound(v, j, i)
  }

  // do_constant_key, the tables below n done
  function ConstantTo(v: Tables, alt: bool, i: Uint32, key: Code, n: nat): Tables
    requires n <= 0x1_0000_0000
  {
    if n == 0 then v else
      Round(ConstantTo(v, alt, i, key, n - 1), alt, i, key, n - 1)
  }

  function DefCode(key: Code, j: nat): Code {
    Def(key, j)
  }

  predicate HasAlt(t: Uint32)
    ensures HasAlt(t) ==> t >= 8
  {
    t / 8 % 2 == 1
  }

  // The Meta code of the table without Alt arrives first.
  predicate FromMeta(v: Tables, alt: bool, i: Uint32, key: Code, t: Uint32) {
    && alt && HasAlt(t) && Wanted(v, key, i, t - 8) && t in v && !Bound(v, t, i)
    && IsAscii(Def(key, t - 8))
  }

  // What table t ends up with.
  function Final(v: Tables, alt: bool, i: Uint32, key: Code, t: Uint32): map<Uint32, Code>
    requires t in v
  {
    if FromMeta(v, alt, i, key, t) then v[t][i := K(KT_META, Kval(Def(key, t - 8)))]
    else if Wanted(v, key, i, t) then v[t][i := DefCode(key, t)]
    else v[t]
  }

  // Table t when the tables below n are done.
  function Partial(v: Tables, alt: bool, i: Uint32, key: Code, n: nat, t: Uint32): map<Uint32, Code>
    requires t in v
  {
    if t < n || (FromMeta(v, alt, i, key, t) && t - 8 < n) then Final(v, alt, i, key, t) else v[t]
  }

  function StateAt(v: Tables, alt: bool, i: Uint32, key: Code, n: nat): Tables {
    map t | t in v :: Partial(v, alt, i, key, n, t)
  }

  // One round, when the code is missing or the key is a letter in table 0.
  function Round(w: Tables, alt: bool, i: Uint32, key: Code, j: Uint32): Tables {
    if Wanted(w, key, i, j) then Add(w, alt, j, i, DefCode(key, j)) else w
  }

  lemma LetterIsNoHole(key: Code, j: nat)
    requires IsLetterKey(key)
    ensures Def(key, j) != K_HOLE
  {
  }

  lemma RoundKeys(w: Tables, alt: bool, i: Uint32, key: Code, j: Uint32)
    ensures Round(w, alt, i, key, j).Keys == w.Keys
  {
  }

  lemma RoundAt(v: Tables, alt: bool, i: Uint32, key: Code, j: Uint32, t: Uint32)
    requires t in v
    ensures t in Round(StateAt(v, alt, i, key, j), alt, i, key, j)
    ensures Round(StateAt(v, alt, i, key, j), alt, i, key, j)[t] == Partial(v, alt, i, key, j + 1, t)
  {
    hide Def, IsAscii, IsLetterKey;
    if IsLetterKey(key) {
      LetterIsNoHole(key, j);
    }
    if t == j {
      RoundSelf(v, alt, i, key, j);
    } else {
      RoundOther(v, alt, i, key, j, t);
    }
  }

  lemma RoundSelf(v: Tables, alt: bool, i: Uint32, key: Code, j: Uint32)
    requires j in v && (IsLetterKey(key) ==> Def(key, j) != K_HOLE)
    ensures j in Round(StateAt(v, alt, i, key, j), alt, i, key, j)
    ensures Round(StateAt(v, alt, i, key, j), alt, i, key, j)[j] == Final(v, alt, i, key, j)
  {
    hide Def, IsAscii, IsLetterKey;
  }

  lemma RoundOther(v: Tables, alt: bool, i: Uint32, key: Code, j: Uint32, t: Uint32)
    requires t in v && t != j && (IsLetterKey(key) ==> Def(key, j) != K_HOLE)
    ensures t in Round(StateAt(v, alt, i, key, j), alt, i, key, j)
    ensures Round(StateAt(v, alt, i, key, j), alt, i, key, j)[t] == Partial(v, alt, i, key, j + 1, t)
  {
    hide Def, IsAscii, IsLetterKey, AltTable, HasAlt;
    AltOf(j, t);
  }

  lemma AltOf(j: Uint32, t: Uint32)
    requires t != j
    ensures AltTable(j) == t <==> HasAlt(t) && t - 8 == j
    ensures HasAlt(t) ==> t >= 8 && !HasAlt(t - 8)
  {
  }

  lemma StateAtStart(v: Tables, alt: bool, i: Uint32, key: Code)
    ensures StateAt(v, alt, i, key, 0) == v
  {
  }

  lemma {:induction false} ConstantToIs(v: Tables, alt: bool, i: Uint32, key: Code, n: nat)
    requires n <= 0x1_0000_0000
    ensures ConstantTo(v, alt, i, key, n) == StateAt(v, alt, i, key, n)
  {
    hide Partial, Round;
    if n == 0 {
      StateAtStart(v, alt, i, key);
    } else {
      ConstantToIs(v, alt, i, key, n - 1);
      var r := Round(StateAt(v, alt, i, key, n - 1), alt, i, key, n - 1);
      RoundKeys(StateAt(v, alt, i, key, n - 1), alt, i, key, n - 1);
      assert r.Keys == v.Keys;
      forall t | t in v
        ensures Round(StateAt(v, alt, i, key, n - 1), alt, i, key, n - 1)[t] == Partial(v, alt, i, key, n, t)
      {
        RoundAt(v, alt, i, key, n - 1, t);
      }
      assert r == StateAt(v, alt, i, key, n);
    }
  }

  // ---------------------------------------------------------------- properties of one key

  // do_constant_key on all tables.
  function Expand(v: Tables, alt: bool, i: Uint32, key: Code): Tables {
    map t | t in v :: Final(v, alt, i, key, t)
  }

  lemma Finished(v: Tables, alt: bool, i: Uint32, key: Code, n: nat)
    requires n <= 0x1_0000_0000 && forall t | t in v :: t < n
    ensures ConstantTo(v, alt, i, key, n) == Expand(v, alt, i, key)
  {
    hide Final, FromMeta, ConstantTo;
    ConstantToIs(v, alt, i, key, n);
  }

  // Every table but the first ends up with a code for the key; a code that was there stays, except for
  // a letter in table 0; other keys are not touched.
  lemma KeyExpanded(v: Tables, alt: bool, i: Uint32, key: Code, t: Uint32)
    requires t in v
    ensures var w := Expand(v, alt, i, key);
            && w.Keys == v.Keys && w[t] - {i} == v[t] - {i}
            && (t > 0 ==> Bound(w, t, i) && (Bound(v, t, i) ==> w[t][i] == v[t][i]))
            && (t == 0 ==> w[t] == if IsLetterKey(key) then v[t][i := K(KT_LETTER, Kval(key))] else v[t])
  {
    hide IsAscii, Def, IsLetterKey;
    FirstDef(key);
  }

  lemma FirstDef(key: Code)
    ensures IsLetterKey(key) ==> Def(key, 0) == K(KT_LETTER, Kval(key))
  {
  }

  // The tables that alt_is_meta fills from their partner without Alt before their own turn.
  predicate Overtaken(v: Tables, i: Uint32, t: Uint32) {
    HasAlt(t) && t > 8 && t - 8 in v && t in v && !Bound(v, t - 8, i) && !Bound(v, t, i)
  }

  lemma LetterMeta(key: Code, t: Uint32)
    requires IsLetterKey(key) && HasAlt(t)
    ensures IsAscii(Def(key, t - 8)) ==> K(KT_META, Kval(Def(key, t - 8))) == Def(key, t)
  {
    hide IsLetterKey, IsAscii, Kval, K, OtherCase, Control, HasAlt;
    LowerHalf(t);
    var val := Kval(key);
    KvalOf(KT_LETTER, val);
    KvalOf(KT_LETTER, OtherCase(val));
    KvalOf(KT_LATIN, Control(val));
  }

  lemma LowerHalf(t: Uint32)
    requires HasAlt(t)
    ensures t % 16 >= 8 && (t - 8) % 16 == t % 16 - 8 && (t - 8) % 2 == t % 2
  {
    var q := t / 16;
    assert t == 16 * q + t % 16;
    assert t / 8 == 2 * q + t % 16 / 8;
  }

  lemma KvalOf(typ: nat, val: Byte)
    ensures Kval(K(typ, val)) == val
  {
  }

  lemma KeyIsNoMeta(key: Code)
    requires IsAscii(key)
    ensures K(KT_META, Kval(key)) != key
  {
  }

  // With and without alt_is_meta the tables end up the same exactly when the key is a letter or not
  // ASCII, or no table is overtaken.
  lemma MetaSameIff(v: Tables, i: Uint32, key: Code)
    ensures Expand(v, true, i, key) == Expand(v, false, i, key) <==>
              IsLetterKey(key) || !IsAscii(key) || forall t | t in v :: !Overtaken(v, i, t)
  {
    hide Final;
    forall t | t in v
      ensures Expand(v, true, i, key)[t] == Expand(v, false, i, key)[t] <==>
                IsLetterKey(key) || !IsAscii(key) || !Overtaken(v, i, t)
    {
      MetaSameAt(v, i, key, t);
    }
  }

  // A witness: a constant 1 (key 2), with nothing bound to it in the tables 1 and 9.
  lemma MetaCanDiffer()
    ensures var v: Tables := map[0 := map[2 := 49], 1 := map[], 9 := map[]];
            !IsLetterKey(49) && IsAscii(49) && Overtaken(v, 2, 9) && Expand(v, true, 2, 49) != Expand(v, false, 2, 49)
  {
    hide Expand;
    var v: Tables := map[0 := map[2 := 49], 1 := map[], 9 := map[]];
    assert 9 in v && Overtaken(v, 2, 9);
    MetaSameIff(v, 2, 49);
  }

  lemma MetaSameAt(v: Tables, i: Uint32, key: Code, t: Uint32)
    requires t in v
    ensures Final(v, true, i, key, t) == Final(v, false, i, key, t) <==>
              IsLetterKey(key) || !IsAscii(key) || !Overtaken(v, i, t)
  {
    hide IsLetterKey, IsAscii, Def;
    if IsLetterKey(key) {
      if HasAlt(t) {
        LetterMeta(key, t);
      }
    } else {
      NoLetter(key, t);
      if IsAscii(key) {
        KeyIsNoMeta(key);
        var meta := K(KT_META, Kval(key));
        assert v[t][i := meta][i] != v[t][i := key][i];
      }
    }
  }

  lemma NoLetter(key: Code, t: Uint32)
    requires !IsLetterKey(key)
    ensures Def(key, t) == key && (HasAlt(t) ==> Def(key, t - 8) == key)
  {
  }

  // ---------------------------------------------------------------- the methods

  // kmap.c:180-191
  method LetterDefs(key: Code) returns (defs: seq<int>)
    requires IsLetterKey(key)
    ensures |defs| == 16 && forall j | 0 <= j < 16 :: defs[j] == Def(key, j)
  {
    hide IsLetterKey, Kval, K, OtherCase, Control;
    var val := Kval(key);
    var a := new int[16](_ => 0);
    a[0] := K(KT_LETTER, val);
    a[1] := K(KT_LETTER, OtherCase(val));
    a[2] := a[0];
    a[3] := a[1];
    for j := 4 to 8
      invariant forall k | 0 <= k < j :: a[k] == Def(key, k)
    {
      a[j] := K(KT_LATIN, Control(val));
    }
    for j := 8 to 16
      invariant forall k | 0 <= k < j :: a[k] == Def(key, k)
    {
      UpperHalf(key, j);
      a[j] := K(KT_META, Kval(a[j - 8]));
    }
    defs := a[..];
  }

  lemma UpperHalf(key: Code, j: nat)
    requires IsLetterKey(key) && 8 <= j < 16
    ensures Def(key, j) == K(KT_META, Kval(Def(key, j - 8)))
  {
    hide IsLetterKey, Kval, K, OtherCase, Control;
    assert j % 16 == j && (j - 8) % 16 == j - 8;
    var val := Kval(key);
    assert j % 2 == (j - 8) % 2;
    KvalOf(KT_LETTER, val);
    KvalOf(KT_LETTER, OtherCase(val));
    KvalOf(KT_LATIN, Control(val));
  }

  // One table of either loop of do_constant_key.
  method FillTable(c: Context, i: Uint32, ghost key: Code, j: Uint32, code: Code) returns (ok: bool)
    requires c.Valid() && code == Def(key, j) && code != CODE_FOR_UNKNOWN_KSYM
    requires j == 0 ==> IsLetterKey(key)
    modifies c.Repr
    ensures c.Valid() && fresh(c.Repr - old(c.Repr))
    ensures c.altIsMeta == old(c.altIsMeta) && c.keymapsLine == old(c.keymapsLine)
    ensures ok && c.View == Round(old(c.View), c.altIsMeta, i, key, j)
  {
    hide Context.Valid, Def, IsLetterKey, Add;
    ok := true;
    var there := c.MapExists(j);
    if !there {
      return;
    }
    var set_ := c.KeyExists(j, i);
    if j > 0 && set_ {
      return;
    }
    ok := c.AddKey(j, i, code);
  }

  // do_constant_key
  method DoConstantKey(c: Context, i: Uint32, key: Code) returns (ok: bool)
    requires c.Valid() && key != CODE_FOR_UNKNOWN_KSYM
    modifies c.Repr
    ensures c.Valid() && fresh(c.Repr - old(c.Repr))
    ensures c.altIsMeta == old(c.altIsMeta) && c.keymapsLine == old(c.keymapsLine)
    ensures ok && c.View == Expand(old(c.View), c.altIsMeta, i, key)
  {
    hide Context.Valid, Def, IsLetterKey, Round, Expand, Bound;
    ghost var v, alt := c.View, c.altIsMeta;
    var total := c.Total();
    ok := true;
    if IsLetterKey(key) {
      var defs := LetterDefs(key);
      for j := 0 to total
        invariant c.Valid() && fresh(c.Repr - old(c.Repr))
        invariant c.altIsMeta == alt && c.keymapsLine == old(c.keymapsLine)
        invariant ok && c.View == ConstantTo(v, alt, i, key, j)
      {
        DefPeriod(key, j);
        ok := FillTable(c, i, key, j, defs[j % 16]);
      }
    } else {
      FirstTableStays(v, alt, i, key);
      var j := 1;
      while j < total
        invariant 1 <= j <= total || j == 1
        invariant c.Valid() && fresh(c.Repr - old(c.Repr))
        invariant c.altIsMeta == alt && c.keymapsLine == old(c.keymapsLine)
        invariant ok && c.View == ConstantTo(v, alt, i, key, j)
      {
        DefPeriod(key, j);
        ok := FillTable(c, i, key, j, key);
        j := j + 1;
      }
      if total == 0 {
        Finished(v, alt, i, key, 1);
      }
    }
    if total > 0 || IsLetterKey(key) {
      Finished(v, alt, i, key, total);
    }
  }

  lemma DefPeriod(key: Code, j: nat)
    ensures Def(key, j) == Def(key, j % 16) && (!IsLetterKey(key) ==> Def(key, j) == key)
    ensures key != CODE_FOR_UNKNOWN_KSYM ==> Def(key, j) != CODE_FOR_UNKNOWN_KSYM
    ensures Def(key, j) == DefCode(key, j)
  {
    assert j % 16 % 16 == j % 16 && j % 16 % 2 == j % 2;
  }

  lemma FirstTableStays(v: Tables, alt: bool, i: Uint32, key: Code)
    requires !IsLetterKey(key)
    ensures ConstantTo(v, alt, i, key, 1) == v
  {
    assert ConstantTo(v, alt, i, key, 0) == v;
  }

  // ---------------------------------------------------------------- all constant keys

  // The code of key i in the table the constants are taken from.
  function KeyCode(v: Tables, r0: Uint32, i: Uint32): Code {
    if Bound(v, r0, i) then v[r0][i] else K_HOLE
  }

  type Flags = s: seq<bool> | |s| <= 0x1_0000_0000

  // lk_add_constants, the first m keys done
  function ExpandAll(v: Tables, alt: bool, r0: Uint32, consts: Flags, m: nat): Tables
    requires m <= |consts|
  {
    if m == 0 then v else
      var w := ExpandAll(v, alt, r0, consts, m - 1);
      if consts[m - 1] then Expand(w, alt, m - 1, KeyCode(w, r0, m - 1)) else w
  }

  // The table constants are taken from: the first one there is under an explicit `keymaps` line.
  predicate IsSource(v: Tables, keymapsLine: bool, r0: nat) {
    if keymapsLine then (forall t | t in v :: t >= r0) && (v != map[] ==> r0 in v) else r0 == 0
  }

  // lk_add_constants
  method AddConstants(c: Context, consts: Flags) returns (ok: bool, ghost r0: nat)
    requires c.Valid()
    modifies c.Repr
    ensures c.Valid() && fresh(c.Repr - old(c.Repr))
    ensures c.altIsMeta == old(c.altIsMeta) && c.keymapsLine == old(c.keymapsLine)
    ensures IsSource(old(c.View), c.keymapsLine, r0)
    ensures !c.keymapsLine ==> r0 == 0
    ensures c.keymapsLine && old(c.View) != map[] ==> r0 in old(c.View) && forall t | t in old(c.View) :: r0 <= t
    ensures ok <==> r0 in old(c.View) || forall i | 0 <= i < |consts| :: !consts[i]
    ensures c.View ==
              if r0 in old(c.View) then ExpandAll(old(c.View), c.altIsMeta, r0, consts, |consts|) else old(c.View)
  {
    hide Context.Valid, Expand;
    ghost var v, alt := c.View, c.altIsMeta;
    var r := FirstTable(c);
    r0 := r;
    for i := 0 to |consts|
      invariant c.Valid() && fresh(c.Repr - old(c.Repr))
      invariant c.altIsMeta == alt && c.keymapsLine == old(c.keymapsLine)
      invariant c.View == if r in v then ExpandAll(v, alt, r, consts, i) else v
      invariant c.View.Keys == v.Keys
      invariant r !in v ==> forall k | 0 <= k < i :: !consts[k]
    {
      if consts[i] {
        var there := r < 0x1_0000_0000;
        if there {
          there := c.MapExists(r);
        }
        if !there {
          return false, r;
        }
        var key := c.GetKey(r, i);
        ok := DoConstantKey(c, i, key);
        ExpandKeys(ExpandAll(v, alt, r, consts, i), alt, i, key);
      }
    }
    ok := true;
  }

  lemma ExpandKeys(v: Tables, alt: bool, i: Uint32, key: Code)
    ensures Expand(v, alt, i, key).Keys == v.Keys
  {
  }

  // kmap.c:223-228
  method FirstTable(c: Context) returns (r0: nat)
    requires c.Valid()
    ensures IsSource(c.View, c.keymapsLine, r0)
  {
    hide Context.Valid;
    r0 := 0;
    if c.keymapsLine {
      var total := c.Total();
      while r0 < total
        invariant 0 <= r0 <= total && forall t | t in c.View :: t >= r0
      {
        var there := c.MapExists(r0);
        if there {
          return;
        }
        r0 := r0 + 1;
      }
      assert forall t | t in c.View :: false;
    }
  }

  ghost predicate SameColumn(v: Tables, w: Tables, k: Uint32) {
    v.Keys == w.Keys && forall t | t in v :: CodeAt(v, t, k) == CodeAt(w, t, k)
  }

  lemma ColumnOnly(v: Tables, w: Tables, alt: bool, k: Uint32, key: Code)
    requires SameColumn(v, w, k)
    ensures SameColumn(Expand(v, alt, k, key), Expand(w, alt, k, key), k)
  {
    hide Def, IsLetterKey, IsAscii;
    assert forall t | t in v :: Bound(v, t, k) <==> CodeAt(v, t, k).Some?;
    assert forall t | t in w :: Bound(w, t, k) <==> CodeAt(w, t, k).Some?;
  }

  lemma OtherColumn(v: Tables, alt: bool, i: Uint32, key: Code, k: Uint32)
    requires k != i
    ensures SameColumn(Expand(v, alt, i, key), v, k)
  {
    hide Def, IsLetterKey, IsAscii;
  }

  // Each constant key is expanded independently of the others.
  lemma {:induction false} ColumnExpanded(v: Tables, alt: bool, r0: Uint32, consts: Flags, m: nat, k: Uint32)
    requires m <= |consts|
    ensures SameColumn(ExpandAll(v, alt, r0, consts, m),
                       if k < m && consts[k] then Expand(v, alt, k, KeyCode(v, r0, k)) else v, k)
  {
    hide Expand;
    if m > 0 {
      ColumnExpanded(v, alt, r0, consts, m - 1, k);
      var w := ExpandAll(v, alt, r0, consts, m - 1);
      if consts[m - 1] && k == m - 1 {
        assert CodeAt(w, r0, k) == CodeAt(v, r0, k);
        ColumnOnly(w, v, alt, k, KeyCode(v, r0, k));
      } else if consts[m - 1] {
        OtherColumn(w, alt, m - 1, KeyCode(w, r0, m - 1), k);
      }
    }
  }

  predicate IsConstant(consts: Flags, k: Uint32) {
    k < |consts| && consts[k]
  }

  // Constant keys end up with a code in every table above 0; no code above table 0 changes; table 0
  // changes only by marking letters; keys that are not constant stay as they are.
  lemma AllExpanded(v: Tables, alt: bool, r0: Uint32, consts: Flags, t: Uint32, k: Uint32)
    requires t in v
    ensures var w := ExpandAll(v, alt, r0, consts, |consts|);
            && w.Keys == v.Keys
            && (IsConstant(consts, k) && t > 0 ==> Bound(w, t, k))
            && (Bound(v, t, k) && t > 0 ==> CodeAt(w, t, k) == CodeAt(v, t, k))
            && (!IsConstant(consts, k) ==> CodeAt(w, t, k) == CodeAt(v, t, k))
            && (t == 0 && IsConstant(consts, k) && IsLetterKey(KeyCode(v, r0, k)) ==>
                  CodeAt(w, t, k) == Some(K(KT_LETTER, Kval(KeyCode(v, r0, k)))))
            && (t == 0 && !IsLetterKey(KeyCode(v, r0, k)) ==> CodeAt(w, t, k) == CodeAt(v, t, k))
  {
    hide Expand, ExpandAll, IsLetterKey, Kval, K;
    ColumnExpanded(v, alt, r0, consts, |consts|, k);
    KeyExpanded(v, alt, k, KeyCode(v, r0, k), t);
  }

  // What a constant key becomes in a table above 0 that had nothing for it, in plain numbers: 0x000 is
  // KT_LATIN, 0x800 KT_META and 0xB00 KT_LETTER.  A letter changes case under Shift (1) without Ctrl (4), is
  // a control character with Ctrl, and Meta with Alt (8).  Any other key stays what it is, unless alt_is_meta
  // has it from the table without Alt.
  lemma ConstantCode(v: Tables, alt: bool, r0: Uint32, consts: Flags, t: Uint32, k: Uint32)
    requires t in v && t > 0 && k !in v[t] && k < |consts| && consts[k]
    ensures var key := if r0 in v && k in v[r0] then v[r0][k] else 0x200;
            var m, val := t % 16, key % 0x100;
            var other := if val >= 97 then val - 32 else val + 32;
            var w := ExpandAll(v, alt, r0, consts, |consts|);
            t in w && k in w[t] &&
            if (0 <= key < 0x100 || 0xB00 <= key < 0xC00) && (97 <= val <= 122 || 65 <= val <= 90) then
              w[t][k] == if m == 0 || m == 2 then 0xB00 + val
                         else if m == 1 || m == 3 then 0xB00 + other
                         else if m < 8 then val % 32
                         else if m == 8 || m == 10 then 0x800 + val
                         else if m == 9 || m == 11 then 0x800 + other
                         else 0x800 + val % 32
            else
              w[t][k] == if alt && t / 8 % 2 == 1 && t > 8 && t - 8 in v && k !in v[t - 8]
                            && (0 <= key < 0x80 || 0xB00 <= key < 0xB80)
                         then 0x800 + val else key
  {
    hide Final, ExpandAll;
    var key := KeyCode(v, r0, k);
    ColumnExpanded(v, alt, r0, consts, |consts|, k);
    FinalCode(v, alt, k, key, t);
    DefCodes(key, t);
    var w, e := ExpandAll(v, alt, r0, consts, |consts|), Expand(v, alt, k, key);
    assert CodeAt(w, t, k) == CodeAt(e, t, k);
  }

  lemma FinalCode(v: Tables, alt: bool, i: Uint32, key: Code, t: Uint32)
    requires t in v && t > 0 && i !in v[t]
    ensures i in Final(v, alt, i, key, t)
    ensures Final(v, alt, i, key, t)[i] ==
              if !IsLetterKey(key) && alt && t / 8 % 2 == 1 && t > 8 && t - 8 in v && i !in v[t - 8]
                 && (0 <= key < 0x80 || 0xB00 <= key < 0xB80)
              then 0x800 + key % 0x100 else Def(key, t)
  {
    hide IsLetterKey, Def;
    if !IsLetterKey(key) {
      NoLetter(key, t);
    } else if HasAlt(t) {
      LetterMeta(key, t);
    }
  }

  lemma DefCodes(key: Code, t: nat)
    ensures var m, val := t % 16, key % 0x100;
            var other := if val >= 97 then val - 32 else val + 32;
            Def(key, t) ==
            if (0 <= key < 0x100 || 0xB00 <= key < 0xC00) && (97 <= val <= 122 || 65 <= val <= 90) then
              if m == 0 || m == 2 then 0xB00 + val
              else if m == 1 || m == 3 then 0xB00 + other
              else if m < 8 then val % 32
              else if m == 8 || m == 10 then 0x800 + val
              else if m == 9 || m == 11 then 0x800 + other
              else 0x800 + val % 32
            else key
    ensures var val := key % 0x100;
            IsLetterKey(key) <==>
              (0 <= key < 0x100 || 0xB00 <= key < 0xC00) && (97 <= val <= 122 || 65 <= val <= 90)
  {
    LetterIs(key);
    if IsLetterKey(key) {
      hide IsLetterKey, OtherCase, Control;
      CaseBits(Kval(key));
    }
  }

  lemma LetterIs(key: Code)
    ensures var val := key % 0x100;
            IsLetterKey(key) <==>
              (0 <= key < 0x100 || 0xB00 <= key < 0xC00) && (97 <= val <= 122 || 65 <= val <= 90)
  {
  }

  lemma CaseBits(val: Byte)
    requires 97 <= val <= 122 || 65 <= val <= 90
    ensures OtherCase(val) == if val >= 97 then val - 32 else val + 32
    ensures Control(val) == val % 32
  {
  }

  lemma SameColumnsSame(v: Tables, w: Tables)
    requires forall k: Uint32 :: SameColumn(v, w, k)
    ensures v == w
  {
    assert SameColumn(v, w, 0);
    forall t | t in v
      ensures v[t] == w[t]
    {
      forall k: Uint32
        ensures k in v[t] <==> k in w[t]
        ensures k in v[t] ==> v[t][k] == w[t][k]
      {
        assert SameColumn(v, w, k);
        assert CodeAt(v, t, k) == CodeAt(w, t, k);
      }
    }
  }

  // The key code read back after an expansion leads to the same expansion.
  lemma ExpandTwice(v: Tables, alt: bool, r0: Uint32, k: Uint32)
    requires r0 in v && (r0 == 0 || 0 !in v)
    ensures var w := Expand(v, alt, k, KeyCode(v, r0, k)); Expand(w, alt, k, KeyCode(w, r0, k)) == w
  {
    hide Def, IsLetterKey, Final;
    var key := KeyCode(v, r0, k);
    var w := Expand(v, alt, k, key);
    var key' := KeyCode(w, r0, k);
    KeyExpanded(v, alt, k, key, r0);
    LetterAgain(key);
    forall t | t in w
      ensures Final(w, alt, k, key', t) == w[t]
    {
      KeyExpanded(v, alt, k, key, t);
      KeyExpanded(w, alt, k, key', t);
      FinalIs(w, alt, k, key', t);
    }
  }

  lemma LetterAgain(key: Code)
    ensures IsLetterKey(key) ==> var l := K(KT_LETTER, Kval(key)); IsLetterKey(l) && K(KT_LETTER, Kval(l)) == l
  {
  }

  lemma FinalIs(w: Tables, alt: bool, i: Uint32, key: Code, t: Uint32)
    requires t in w
    ensures t > 0 && Bound(w, t, i) ==> Final(w, alt, i, key, t) == w[t]
    ensures t == 0 ==> Final(w, alt, i, key, t) == Expand(w, alt, i, key)[t]
  {
  }

  // Adding the constants twice is adding them once.
  lemma Idempotent(v: Tables, alt: bool, keymapsLine: bool, r0: Uint32, consts: Flags)
    requires r0 in v && IsSource(v, keymapsLine, r0)
    ensures var w := ExpandAll(v, alt, r0, consts, |consts|); ExpandAll(w, alt, r0, consts, |consts|) == w
  {
    hide Expand, ExpandAll;
    var w := ExpandAll(v, alt, r0, consts, |consts|);
    forall k: Uint32
      ensures SameColumn(ExpandAll(w, alt, r0, consts, |consts|), w, k)
    {
      ColumnExpanded(v, alt, r0, consts, |consts|, k);
      ColumnExpanded(w, alt, r0, consts, |consts|, k);
      if IsConstant(consts, k) {
        var e := Expand(v, alt, k, KeyCode(v, r0, k));
        assert CodeAt(w, r0, k) == CodeAt(e, r0, k);
        ColumnOnly(w, e, alt, k, KeyCode(w, r0, k));
        ExpandTwice(v, alt, r0, k);
      }
    }
    SameColumnsSame(ExpandAll(w, alt, r0, consts, |consts|), w);
  }

  // alt_is_meta makes no difference exactly when it makes none for any constant key: see MetaSameIff.
  lemma MetaSameAllIff(v: Tables, r0: Uint32, consts: Flags)
    ensures ExpandAll(v, true, r0, consts, |consts|) == ExpandAll(v, false, r0, consts, |consts|) <==>
              forall k: Uint32 | IsConstant(consts, k) ::
                var key := KeyCode(v, r0, k);
                IsLetterKey(key) || !IsAscii(key) || forall t | t in v :: !Overtaken(v, k, t)
  {
    hide Expand, ExpandAll, IsLetterKey, IsAscii, Overtaken;
    var w, w' := ExpandAll(v, true, r0, consts, |consts|), ExpandAll(v, false, r0, consts, |consts|);
    forall k: Uint32
      ensures SameColumn(w, w', k) <==>
                (IsConstant(consts, k) ==>
                   var key := KeyCode(v, r0, k);
                   IsLetterKey(key) || !IsAscii(key) || forall t | t in v :: !Overtaken(v, k, t))
    {
      ColumnExpanded(v, true, r0, consts, |consts|, k);
      ColumnExpanded(v, false, r0, consts, |consts|, k);
      if IsConstant(consts, k) {
        SameExpansion(v, k, KeyCode(v, r0, k));
        MetaSameIff(v, k, KeyCode(v, r0, k));
      }
    }
    if forall k: Uint32 :: SameColumn(w, w', k) {
      SameColumnsSame(w, w');
    }
  }

  lemma SameExpansion(v: Tables, k: Uint32, key: Code)
    ensures SameColumn(Expand(v, true, k, key), Expand(v, false, k, key), k) <==>
              Expand(v, true, k, key) == Expand(v, false, k, key)
  {
    hide Final, Expand;
    var w, w' := Expand(v, true, k, key), Expand(v, false, k, key);
    if SameColumn(w, w', k) {
      forall i: Uint32
        ensures SameColumn(w, w', i)
      {
        if i != k {
          OtherColumn(v, true, k, key, i);
          OtherColumn(v, false, k, key, i);
        }
      }
      SameColumnsSame(w, w');
    }
  }
}
