/**
  loadkeys.c:293-322: lk_load_keymap, from the constant keys of a context to the kernel's tables and compose
  rules.
 */
module KeymapLoading {
  import opened Bytes
  import opened Keymaps
  import opened ConstantKeys
  import opened LoadKeys
  import opened LkArrays
  import CK = ConsoleKernel
  import Compose

  // The values of the rules that are handed to the kernel fit a byte.
  predicate RulesFit(rs: seq<Compose.Rule>) {
    forall i | 0 <= i < |rs| && i < 255 :: rs[i].diacr <= 0xFF && rs[i].base <= 0xFF && rs[i].result <= 0xFF
  }

  // defdiacs takes them as they are, or nothing if one does not fit.
  lemma SentIs(rs: seq<Compose.Rule>)
    ensures Compose.Sent(rs) == if |rs| < 256 then rs else rs[..255]
    ensures RulesFit(rs) <==> forall d | d in Compose.Sent(rs) :: d.diacr <= 0xFF && d.base <= 0xFF && d.result <= 0xFF
  {
    var s := Compose.Sent(rs);
    if forall d | d in s :: d.diacr <= 0xFF && d.base <= 0xFF && d.result <= 0xFF {
      forall i | 0 <= i < |rs| && i < 255
        ensures rs[i].diacr <= 0xFF && rs[i].base <= 0xFF && rs[i].result <= 0xFF
      {
        assert s[i] in s;
      }
    }
  }

  // lk_load_keymap.  deffuncs and the one request of defdiacs are not modelled: `funcs` and `accepts` say
  // whether they succeed.  `diacs` is what was handed to the kernel, if anything.
  method LoadKeymap(c: Context, k: CK.Kernel, consts: Flags, unicodeMode: bool, kbdMode: int, funcs: bool,
                    table: LkArray<Option<Compose.Rule>>, ghost rs: seq<Compose.Rule>, preferUnicode: bool,
                    clearCompose: bool, accepts: bool)
    returns (ok: bool, diacs: Option<seq<Compose.Rule>>, ghost r0: nat)
    requires c.Valid() && k !in c.Repr && table !in c.Repr && table.items !in c.Repr
    requires table.Valid() && table.zero == None && Compose.Holds(table.Contents(), rs)
    modifies c.Repr, k
    ensures c.Valid() && fresh(c.Repr - old(c.Repr)) && IsSource(old(c.View), c.keymapsLine, r0)
    ensures var v, alt := old(c.View), old(c.altIsMeta);
            c.View == if r0 in v then ExpandAll(v, alt, r0, consts, |consts|) else v
    ensures r0 !in old(c.View) && (exists i | 0 <= i < |consts| :: consts[i]) ==>
              !ok && diacs == None && k.trace == old(k.trace) && k.maps == old(k.maps) && k.mode == old(k.mode)
    ensures Quiet(k.fails, |old(k.trace)|, |k.trace|)
            && (r0 in old(c.View) || forall i | 0 <= i < |consts| :: !consts[i]) ==>
              && k.maps == LoadAll(old(k.maps), c.View, old(c.keymapsLine), MAX_NR_KEYMAPS)
              && (diacs.Some? <==> funcs && (rs != [] || clearCompose) && (preferUnicode || RulesFit(rs)))
              && (diacs.Some? ==> diacs.value == if |rs| < 256 then rs else rs[..255])
              && (ok <==> funcs && (rs != [] || clearCompose ==> diacs.Some? && accepts))
  {
    hide Context.Valid, LkArray.Valid, LkArray.Contents, ExpandAll, LoadAll, RulesFit;
    SentIs(rs);
    diacs := None;
    ok, r0 := AddConstants(c, consts);
    if !ok {
      return;
    }
    var keyct := SetKeymap(c, k, unicodeMode, kbdMode);
    if keyct < 0 || !funcs {
      return false, diacs, r0;
    }
    Compose.TableCount(table, rs);
    if table.count > 0 || clearCompose {
      var r := Compose.DefDiacs(table, rs, preferUnicode);
      if r.Err? {
        return false, diacs, r0;
      }
      return accepts, Some(r.value), r0;
    }
    ok := true;
  }

  // ---------------------------------------------------------------- constant keys in the kernel

  // All codes are ones the kernel can store.
  ghost predicate AllFit(v: Tables) {
    forall t, i | Bound(v, t, i) :: 0 <= v[t][i] <= 0xFFFF
  }

  lemma DefFits(key: Code, j: nat)
    requires 0 <= key <= 0xFFFF
    ensures 0 <= Def(key, j) <= 0xFFFF
  {
  }

  lemma ExpandFits(v: Tables, alt: bool, i: Uint32, key: Code)
    requires AllFit(v) && 0 <= key <= 0xFFFF
    ensures AllFit(Expand(v, alt, i, key))
  {
    hide Def, FromMeta, IsLetterKey;
    var w := Expand(v, alt, i, key);
    forall t, k | Bound(w, t, k)
      ensures 0 <= w[t][k] <= 0xFFFF
    {
      DefFits(key, t);
      assert k != i ==> Bound(v, t, k);
      assert Bound(v, t, k) ==> 0 <= v[t][k] <= 0xFFFF;
    }
  }

  lemma {:induction false} ExpandAllFits(v: Tables, alt: bool, r0: Uint32, consts: Flags, m: nat)
    requires m <= |consts| && AllFit(v)
    ensures AllFit(ExpandAll(v, alt, r0, consts, m))
  {
    hide Expand;
    if m > 0 {
      ExpandAllFits(v, alt, r0, consts, m - 1);
      var w := ExpandAll(v, alt, r0, consts, m - 1);
      if consts[m - 1] {
        ExpandFits(w, alt, m - 1, KeyCode(w, r0, m - 1));
      }
    }
  }

  // After lk_load_keymap with no failed request every constant key has a code in every kernel table above 0
  // that the context has, its own where it had one; every other key overlays what the kernel had, and
  // tables the context does not have stay, or go under an explicit keymaps line.
  lemma ConstantsLoaded(m: CK.KernelTables, v: Tables, alt: bool, line: bool, r0: Uint32, consts: Flags,
                        t: Byte, i: Byte)
    requires AllFit(v) && var w := ExpandAll(v, alt, r0, consts, |consts|); t in w ==> !Drops(w[t])
    ensures var w := ExpandAll(v, alt, r0, consts, |consts|);
            var n := LoadAll(m, w, line, MAX_NR_KEYMAPS);
            && (t in v && t > 0 && IsConstant(consts, i) ==>
                  t in n && CodeAt(w, t, i) == Some(n[t][i]) && (Bound(v, t, i) ==> n[t][i] == v[t][i]))
            && (t in v && !IsConstant(consts, i) && Bound(v, t, i) ==> t in n && n[t][i] == v[t][i])
            && (t in v && !IsConstant(consts, i) && !Bound(v, t, i) && t in n ==>
                  n[t][i] == if t in m then m[t][i] else if i == 0 then 0x27e else 0x200)
            && (t !in v ==> TableAt(n, t) == if line then None else TableAt(m, t))
  {
    hide ExpandAll, LoadAll, Drops;
    var w := ExpandAll(v, alt, r0, consts, |consts|);
    ExpandAllKeys(v, alt, r0, consts, |consts|);
    LoadedOverlays(m, w, line, t);
    if t in v {
      AllExpanded(v, alt, r0, consts, t, i);
      ExpandAllFits(v, alt, r0, consts, |consts|);
      assert Bound(w, t, i) ==> 0 <= w[t][i] <= 0xFFFF;
    }
  }

  lemma {:induction false} ExpandAllKeys(v: Tables, alt: bool, r0: Uint32, consts: Flags, m: nat)
    requires m <= |consts|
    ensures ExpandAll(v, alt, r0, consts, m).Keys == v.Keys
  {
    hide Final;
    if m > 0 {
      ExpandAllKeys(v, alt, r0, consts, m - 1);
    }
  }
}
