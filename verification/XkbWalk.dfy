/**
  xkbsupport.c:40-61 and 572-799: turning an XKB keymap into console keymaps.  XKB's locked group
  becomes the ShiftL, ShiftR and CtrlL lock bits, a held group switch becomes the CtrlR bit, and so a
  group becomes a set of tables.
 */
module XkbWalk {
  import opened Bytes
  import opened Keymaps

  const KG_CTRL := 2
  const KG_ALT := 3
  const KT_SHIFT := 7
  const KT_LOCK := 10

  const K_SHIFT := K(KT_SHIFT, 0)
  const K_CTRLR := K(KT_SHIFT, 7)
  const K_SHIFTLOCK := K(KT_LOCK, 0)
  const K_SHIFTLLOCK := K(KT_LOCK, 4)
  const K_SHIFTRLOCK := K(KT_LOCK, 5)
  const K_CTRLLLOCK := K(KT_LOCK, 6)

  const NR_LAYOUTS := 4
  const EVDEV_OFFSET := 8

  // ---------------------------------------------------------------- groups

  // The layout of a console group when there are n layouts.
  function Layout(n: nat, group: nat): (layout: nat)
    requires 1 <= n <= NR_LAYOUTS && group < 4
    ensures layout < n
  {
    var layouts := [[0, 0, 0, 0], [0, 1, 1, 0], [0, 1, 2, 0], [0, 1, 3, 2]];
    layouts[n - 1][group]
  }

  // group ^ mask
  function Flip(group: nat, mask: nat): (g: nat)
    requires group < 4 && mask < 4
    ensures g < 4
  {
    (if group / 2 != mask / 2 then 2 else 0) + if group % 2 != mask % 2 then 1 else 0
  }

  // The ShiftL, ShiftR and CtrlL bits as a number; CtrlL inverts the other two.
  function Group(base: nat): (group: nat)
    requires base < 8
    ensures group < 4
  {
    Flip(base % 4, if base >= 4 then 3 else 0)
  }

  // xkeymap_select_group
  function SelectGroup(n: nat, group: nat, target: nat): Ushort
    requires 1 <= n <= NR_LAYOUTS && group < 4
  {
    if Layout(n, Flip(group, 0)) == target then K_HOLE
    else if Layout(n, Flip(group, 1)) == target then K_SHIFTLLOCK
    else if Layout(n, Flip(group, 2)) == target then K_SHIFTRLOCK
    else if Layout(n, Flip(group, 3)) == target then K_CTRLLLOCK
    else K_HOLE
  }

  // xkbsupport.c:760-761
  function NextGroup(group: nat): Ushort {
    if group == 0 || group == 3 then K_SHIFTLLOCK else K_SHIFTRLOCK
  }

  // What pressing a lock key does to the three group bits.
  function Press(base: nat, code: int): (b: nat)
    requires base < 8
    ensures b < 8
  {
    if code == K_SHIFTLLOCK then (if base % 2 == 0 then base + 1 else base - 1)
    else if code == K_SHIFTRLOCK then (if base / 2 % 2 == 0 then base + 2 else base - 2)
    else if code == K_CTRLLLOCK then (if base < 4 then base + 4 else base - 4)
    else base
  }

  // One action selects any layout from any group, none is issued when nothing is to change, and CtrlL
  // is needed only with more than two layouts.
  lemma SelectReaches(n: nat, base: nat, target: nat)
    requires 1 <= n <= NR_LAYOUTS && base < 8 && target < n
    ensures var code := SelectGroup(n, Group(base), target);
            && Layout(n, Group(Press(base, code))) == target
            && (code == K_HOLE <==> Layout(n, Group(base)) == target)
            && (code == K_CTRLLLOCK ==> n > 2)
  {
    PressFlips(base);
    FourGroups(n, Group(base), target);
  }

  lemma PressFlips(base: nat)
    requires base < 8
    ensures Group(Press(base, K_SHIFTLLOCK)) == Flip(Group(base), 1)
    ensures Group(Press(base, K_SHIFTRLOCK)) == Flip(Group(base), 2)
    ensures Group(Press(base, K_CTRLLLOCK)) == Flip(Group(base), 3)
    ensures Group(Press(base, K_HOLE)) == Flip(Group(base), 0) == Group(base)
  {
    hide Group, Flip, Press;
    ShiftLFlips(base);
    ShiftRFlips(base);
    CtrlLFlips(base);
  }

  lemma ShiftLFlips(base: nat)
    requires base < 8
    ensures Group(Press(base, K_SHIFTLLOCK)) == Flip(Group(base), 1)
    ensures Press(base, K_HOLE) == base && Flip(Group(base), 0) == Group(base)
  {
  }

  lemma ShiftRFlips(base: nat)
    requires base < 8
    ensures Group(Press(base, K_SHIFTRLOCK)) == Flip(Group(base), 2)
  {
  }

  lemma CtrlLFlips(base: nat)
    requires base < 8
    ensures Group(Press(base, K_CTRLLLOCK)) == Flip(Group(base), 3)
  {
  }

  lemma FourGroups(n: nat, group: nat, target: nat)
    requires 1 <= n <= NR_LAYOUTS && group < 4 && target < n
    ensures exists mask | 0 <= mask < 4 :: Layout(n, Flip(group, mask)) == target
    ensures n <= 2 ==> exists mask | 0 <= mask < 3 :: Layout(n, Flip(group, mask)) == target
  {
    assert Layout(n, Flip(group, 0)) == target || Layout(n, Flip(group, 1)) == target
        || Layout(n, Flip(group, 2)) == target || Layout(n, Flip(group, 3)) == target;
    if n <= 2 {
      assert Layout(n, Flip(group, 0)) == target || Layout(n, Flip(group, 1)) == target
          || Layout(n, Flip(group, 2)) == target;
    }
  }

  // Next goes to the next layout, except with three layouts in the groups 1 and 3.
  lemma NextReachesIff(n: nat, base: nat)
    requires 1 <= n <= NR_LAYOUTS && base < 8
    ensures var group := Group(base);
            Layout(n, Group(Press(base, NextGroup(group)))) == (Layout(n, group) + 1) % n <==>
              n != 3 || group == 0 || group == 2
  {
    hide Group, Press;
    PressFlips(base);
  }

  // ---------------------------------------------------------------- the XKB keymap

  // OtherGroup stands for symbols that move XKB's group in ways of their own, such as ISO_Group_Latch.
  datatype Sym = NextSym | PrevSym | FirstSym | LastSym | SwitchSym | OtherGroup(id: nat) | Other(id: nat)

  // libxkbcommon and the symbol tables, as functions.
  datatype Xkb = Xkb(
    numLayouts: nat,
    min: nat, max: nat,                                    // XKB keycodes
    layoutsOf: nat -> nat,                                 // layouts of a key
    levelsOf: (nat, nat) -> nat,                           // levels of a key in a layout
    symAt: (nat, nat, nat) -> Option<Sym>,                 // first symbol by key, layout, level
    keyLayout: (nat, nat) -> Option<nat>,                  // by key and selected layout
    keyLevel: (nat, nat, nat) -> Option<nat>,              // by key, selected layout, modifiers
    code: Sym -> Option<Ushort>,                           // xkeymap_get_code
    hasCase: Sym -> bool,
    convert: Code -> Ushort,                               // convert_code(.., TO_AUTO)
    preferUnicode: bool,
    consumesCtrl: (nat, nat, nat) -> bool,                 // by key, selected layout, modifiers
    consumesAlt: (nat, nat, nat) -> bool,
    plainChar: (nat, nat, nat) -> bool,                    // one symbol, with a Unicode value
    utf32: (nat, nat, nat) -> nat,
    moved: (nat, nat) -> nat,                              // locked group after symbol OtherGroup(id)
    holds: Sym -> Option<nat>)                             // modifier XKB sets while the symbol's key is down

  // What libxkbcommon promises: levels and layouts it reports exist.
  ghost predicate Sound(x: Xkb) {
    && (forall k, l | x.keyLayout(k, l).Some? :: x.keyLayout(k, l).value < x.layoutsOf(k))
    && (forall k, l, m | x.keyLayout(k, l).Some? && x.keyLevel(k, l, m).Some? ::
          x.keyLevel(k, l, m).value < x.levelsOf(k, x.keyLayout(k, l).value))
  }

  // The symbol of a key for a selected layout and modifiers.
  function Resolve(x: Xkb, key: nat, selected: nat, mods: nat): Option<Sym> {
    if x.keyLayout(key, selected) == None || x.keyLevel(key, selected, mods) == None then None
    else x.symAt(key, x.keyLayout(key, selected).value, x.keyLevel(key, selected, mods).value)
  }

  // Some level of the key holds one of these symbols.
  ghost predicate Carries(x: Xkb, key: nat, syms: set<Sym>) {
    exists layout: nat, level: nat | layout < x.layoutsOf(key) && level < x.levelsOf(key, layout) ::
      x.symAt(key, layout, level).Some? && x.symAt(key, layout, level).value in syms
  }

  const SELECT_SYMS: set<Sym> := {FirstSym, LastSym, PrevSym}

  // xkeymap_group_features: does the key switch, or select, groups?
  method GroupFeatures(x: Xkb, key: nat) returns (switches: bool, selects: bool)
    ensures switches <==> Carries(x, key, {SwitchSym})
    ensures selects <==> Carries(x, key, SELECT_SYMS)
  {
    hide Found, Carries;
    switches, selects := false, false;
    FoundBounds(x, key, 0, {SwitchSym});
    FoundBounds(x, key, 0, SELECT_SYMS);
    for layout := 0 to x.layoutsOf(key)
      invariant switches <==> Found(x, key, layout, 0, {SwitchSym})
      invariant selects <==> Found(x, key, layout, 0, SELECT_SYMS)
    {
      for level := 0 to x.levelsOf(key, layout)
        invariant switches <==> Found(x, key, layout, level, {SwitchSym})
        invariant selects <==> Found(x, key, layout, level, SELECT_SYMS)
      {
        FoundLevel(x, key, layout, level, {SwitchSym});
        FoundLevel(x, key, layout, level, SELECT_SYMS);
        var sym := x.symAt(key, layout, level);
        if sym == Some(SwitchSym) {
          switches := true;
        } else if sym == Some(FirstSym) || sym == Some(LastSym) || sym == Some(PrevSym) {
          selects := true;
        }
      }
      FoundBounds(x, key, layout, {SwitchSym});
      FoundBounds(x, key, layout, SELECT_SYMS);
    }
  }

  // Some level before (layout, level) holds one of the symbols.
  ghost predicate Found(x: Xkb, key: nat, layout: nat, level: nat, syms: set<Sym>) {
    exists la: nat, le: nat | (la < layout || (la == layout && le < level)) && le < x.levelsOf(key, la) ::
      x.symAt(key, la, le).Some? && x.symAt(key, la, le).value in syms
  }

  lemma FoundLevel(x: Xkb, key: nat, layout: nat, level: nat, syms: set<Sym>)
    requires level < x.levelsOf(key, layout)
    ensures Found(x, key, layout, level + 1, syms) <==>
              Found(x, key, layout, level, syms)
              || (x.symAt(key, layout, level).Some? && x.symAt(key, layout, level).value in syms)
  {
  }

  lemma FoundBounds(x: Xkb, key: nat, layout: nat, syms: set<Sym>)
    ensures Found(x, key, layout + 1, 0, syms) <==> Found(x, key, layout, x.levelsOf(key, layout), syms)
    ensures !Found(x, key, 0, 0, syms)
    ensures Found(x, key, x.layoutsOf(key), 0, syms) <==> Carries(x, key, syms)
  {
  }

  // ---------------------------------------------------------------- the code of one binding

  // code ^ 0xf000
  function U(code: Ushort): Ushort {
    (15 - code / 0x1000) * 0x1000 + code % 0x1000
  }

  // ShiftL and ShiftR belong to the groups; a symbol that has them gets Shift instead.
  function Reserve(code: Ushort): Ushort {
    if code == K(KT_SHIFT, 4) || code == K(KT_SHIFT, 5) then K_SHIFT
    else if code == K_SHIFTLLOCK || code == K_SHIFTRLOCK then K_SHIFTLOCK
    else code
  }

  // xkeymap_is_capslockable and lk_add_capslock
  function Capslock(x: Xkb, sym: Sym, code: Ushort): Ushort {
    if !x.hasCase(sym) || !(code < 0x100 || (code >= 0x1000 && U(code) < 0x100)) then code
    else if Ktyp(code) == KT_LATIN && (!x.preferUnicode || code < 0x80) then K(KT_LETTER, Kval(code))
    else if U(code) < 0x100 then K(KT_LETTER, U(code))
    else x.convert(code)
  }

  predicate HasMod(mods: nat, bit: nat) {
    (bit == KG_CTRL && mods / 4 % 2 == 1) || (bit == KG_ALT && mods / 8 % 2 == 1)
  }

  // xkeymap_apply_modifiers
  function ApplyModifiers(x: Xkb, key: nat, selected: nat, mods: nat, code: Ushort): Ushort {
    var c :=
      if HasMod(mods, KG_CTRL) && !x.consumesCtrl(key, selected, mods) && x.plainChar(key, selected, mods)
         && (code >= 0x1000 || Ktyp(code) == KT_LATIN || Ktyp(code) == KT_LETTER) && x.utf32(key, selected, mods) < 0x80
      then K(KT_LATIN, x.utf32(key, selected, mods)) else code;
    if HasMod(mods, KG_ALT) && !x.consumesAlt(key, selected, mods) then
      if c >= 0x1000 && U(c) < 0x80 then K(KT_META, U(c))
      else if (Ktyp(c) == KT_LATIN || Ktyp(c) == KT_LETTER) && Kval(c) < 0x80 then K(KT_META, Kval(c))
      else c
    else c
  }

  // The layout XKB sees in the tables of a group, the switch held or not.
  function Selected(x: Xkb, held: bool, base: nat): nat
    requires 1 <= x.numLayouts <= NR_LAYOUTS && base < 8
  {
    (Layout(x.numLayouts, Group(base)) + if held then 1 else 0) % x.numLayouts
  }

  // Where a group key leads from a layout.
  function Target(n: nat, layout: nat, sym: Sym): nat
    requires n >= 1
  {
    match sym
    case NextSym => (layout + 1) % n
    case PrevSym => (layout + n - 1) % n
    case FirstSym => 0
    case LastSym => 1 % n  // the second group, however many there are
    case _ => layout
  }

  // xkbsupport.c:743-787: the code of a key in the table of a group and modifiers.
  ghost function Binding(x: Xkb, held: bool, base: nat, mods: nat, key: nat): Option<Ushort>
    requires 1 <= x.numLayouts <= NR_LAYOUTS && base < 8
  {
    if held && Carries(x, key, {SwitchSym}) then Some(K_CTRLR)
    else
      var n, selected := x.numLayouts, Selected(x, held, base);
      var resolved := Resolve(x, key, selected, mods);
      if resolved == None then None
      else
        var sym := resolved.value;
        if sym == NextSym then Some(NextGroup(Group(base)))
        else if sym in SELECT_SYMS then Some(SelectGroup(n, Group(base), Target(n, Layout(n, Group(base)), sym)))
        else if x.code(sym) == None then None
        else Some(ApplyModifiers(x, key, selected, mods, Capslock(x, sym, Reserve(x.code(sym).value))))
  }

  // ---------------------------------------------------------------- xkeymap_walk

  // Keycodes that are looked at.
  function Lowest(x: Xkb): nat {
    if x.min < EVDEV_OFFSET then EVDEV_OFFSET else x.min
  }

  function Highest(x: Xkb): nat {
    if x.max >= NR_KEYS + EVDEV_OFFSET then NR_KEYS + EVDEV_OFFSET - 1 else x.max
  }

  ghost predicate AnyCarries(x: Xkb, limit: nat, syms: set<Sym>) {
    exists key | Lowest(x) <= key < limit && key <= Highest(x) :: Carries(x, key, syms)
  }

  ghost predicate HasSwitch(x: Xkb) {
    AnyCarries(x, Highest(x) + 1, {SwitchSym})
  }

  // Combinations of the lock bits for which tables are made.
  ghost function States(x: Xkb): nat {
    if x.numLayouts > 2 && AnyCarries(x, Highest(x) + 1, SELECT_SYMS) then 8 else 4
  }

  ghost function Slots(x: Xkb): nat {
    States(x) * if HasSwitch(x) then 2 else 1
  }

  function TableNo(held: bool, base: nat, mods: nat): (t: Uint32)
    requires base < 8 && mods < 16
    ensures t < 256 && t % 16 == mods && t / 16 % 8 == base && (t / 128 == 1 <==> held)
  {
    (if held then 128 else 0) + 16 * base + mods
  }

  // One binding goes into its table.
  ghost function PutBinding(v: Tables, x: Xkb, held: bool, base: nat, mods: nat, key: nat): Tables
    requires 1 <= x.numLayouts <= NR_LAYOUTS && base < 8 && mods < 16
    requires EVDEV_OFFSET <= key < NR_KEYS + EVDEV_OFFSET
  {
    var b := Binding(x, held, base, mods, key);
    if b == None then v else Put(v, TableNo(held, base, mods), key - EVDEV_OFFSET, b.value)
  }

  // The first m modifier combinations of one slot.
  ghost function SlotTo(v: Tables, x: Xkb, held: bool, base: nat, key: nat, m: nat): Tables
    requires 1 <= x.numLayouts <= NR_LAYOUTS && base < 8 && m <= 16
    requires EVDEV_OFFSET <= key < NR_KEYS + EVDEV_OFFSET
  {
    if m == 0 then v else PutBinding(SlotTo(v, x, held, base, key, m - 1), x, held, base, m - 1, key)
  }

  // xkbsupport.c:743-787: what the key is bound to, if anything
  method FindBinding(x: Xkb, held: bool, base: nat, mods: nat, key: nat, switches: bool) returns (code: Option<Ushort>)
    requires 1 <= x.numLayouts <= NR_LAYOUTS && base < 8 && (switches <==> Carries(x, key, {SwitchSym}))
    ensures code == Binding(x, held, base, mods, key)
  {
    hide Carries, Resolve, SelectGroup, ApplyModifiers, Capslock, Reserve;
    if held && switches {
      return Some(K_CTRLR);
    }
    var n := x.numLayouts;
    var group := Group(base);
    var selected := (Layout(n, group) + if held then 1 else 0) % n;
    var resolved := Resolve(x, key, selected, mods);
    if resolved == None {
      return None;
    }
    var sym := resolved.value;
    if sym == NextSym {
      return Some(if group == 0 || group == 3 then K_SHIFTLLOCK else K_SHIFTRLOCK);
    } else if sym == PrevSym {
      var target := (Layout(n, group) + n - 1) % n;
      return Some(SelectGroup(n, group, target));
    } else if sym == FirstSym || sym == LastSym {
      var target := if sym == LastSym then 1 % n else 0;
      return Some(SelectGroup(n, group, target));
    } else {
      var plain := x.code(sym);
      if plain == None {
        return None;
      }
      return Some(ApplyModifiers(x, key, selected, mods, Capslock(x, sym, Reserve(plain.value))));
    }
  }

  // xkbsupport.c:730-791: all modifier combinations
  method WalkSlot(c: Context, x: Xkb, held: bool, base: nat, key: nat, switches: bool) returns (ok: bool)
    requires c.Valid() && !c.altIsMeta && 1 <= x.numLayouts <= NR_LAYOUTS && base < 8
    requires EVDEV_OFFSET <= key < NR_KEYS + EVDEV_OFFSET && (switches <==> Carries(x, key, {SwitchSym}))
    modifies c.Repr
    ensures c.Valid() && fresh(c.Repr - old(c.Repr)) && !c.altIsMeta && c.keymapsLine == old(c.keymapsLine)
    ensures ok ==> c.View == SlotTo(old(c.View), x, held, base, key, 16)
    ensures !c.keymapsLine ==> ok
  {
    hide Context.Valid, Carries, Binding, TableNo;
    ghost var v := c.View;
    for mods := 0 to 16
      invariant c.Valid() && fresh(c.Repr - old(c.Repr)) && !c.altIsMeta && c.keymapsLine == old(c.keymapsLine)
      invariant c.View == SlotTo(v, x, held, base, key, mods)
    {
      var table := TableNo(held, base, mods);
      var code := FindBinding(x, held, base, mods, key, switches);
      if code.Some? {
        ok := c.AddKey(table, key - EVDEV_OFFSET, code.value);
        if !ok {
          return;
        }
      }
    }
    ok := true;
  }

  // The tables of the first n slots.
  ghost function KeyTo(v: Tables, x: Xkb, states: nat, key: nat, n: nat): Tables
    requires 1 <= x.numLayouts <= NR_LAYOUTS && 0 < states <= 8
    requires EVDEV_OFFSET <= key < NR_KEYS + EVDEV_OFFSET
  {
    if n == 0 then v else SlotTo(KeyTo(v, x, states, key, n - 1), x, n - 1 >= states, (n - 1) % states, key, 16)
  }

  // The tables of the keys below `limit`.
  ghost function WalkTo(v: Tables, x: Xkb, limit: nat): Tables
    requires 1 <= x.numLayouts <= NR_LAYOUTS && limit <= Highest(x) + 1
  {
    if limit <= Lowest(x) then v else KeyTo(WalkTo(v, x, limit - 1), x, States(x), limit - 1, Slots(x))
  }

  // xkbsupport.c:720-793: one key
  method WalkKey(c: Context, x: Xkb, states: nat, hasSwitch: bool, key: nat, switches: bool) returns (ok: bool)
    requires c.Valid() && !c.altIsMeta && 1 <= x.numLayouts <= NR_LAYOUTS
    requires states == States(x) && (hasSwitch <==> HasSwitch(x))
    requires EVDEV_OFFSET <= key < NR_KEYS + EVDEV_OFFSET && (switches <==> Carries(x, key, {SwitchSym}))
    modifies c.Repr
    ensures c.Valid() && fresh(c.Repr - old(c.Repr)) && !c.altIsMeta && c.keymapsLine == old(c.keymapsLine)
    ensures ok ==> c.View == KeyTo(old(c.View), x, states, key, Slots(x))
    ensures !c.keymapsLine ==> ok
  {
    hide Context.Valid, Carries, SlotTo, AnyCarries;
    ghost var v := c.View;
    for slot := 0 to states * if hasSwitch then 2 else 1
      invariant c.Valid() && fresh(c.Repr - old(c.Repr)) && !c.altIsMeta && c.keymapsLine == old(c.keymapsLine)
      invariant c.View == KeyTo(v, x, states, key, slot)
    {
      ok := WalkSlot(c, x, slot >= states, slot % states, key, switches);
      if !ok {
        return;
      }
    }
    ok := true;
  }

  // xkbsupport.c:695-705: which keys switch groups, and the features of all keys
  method AllFeatures(x: Xkb) returns (groupSwitch: seq<bool>, hasSwitch: bool, selects: bool)
    ensures |groupSwitch| == NR_KEYS
    ensures forall key | Lowest(x) <= key <= Highest(x) ::
              groupSwitch[key - EVDEV_OFFSET] <==> Carries(x, key, {SwitchSym})
    ensures hasSwitch <==> HasSwitch(x)
    ensures selects <==> AnyCarries(x, Highest(x) + 1, SELECT_SYMS)
  {
    hide Carries;
    groupSwitch, hasSwitch, selects := seq(NR_KEYS, _ => false), false, false;
    var key := Lowest(x);
    while key <= Highest(x)
      invariant Lowest(x) <= key && |groupSwitch| == NR_KEYS && (key <= Highest(x) + 1 || key == Lowest(x))
      invariant forall k | Lowest(x) <= k < key && k <= Highest(x) ::
                  groupSwitch[k - EVDEV_OFFSET] <==> Carries(x, k, {SwitchSym})
      invariant hasSwitch <==> AnyCarries(x, key, {SwitchSym})
      invariant selects <==> AnyCarries(x, key, SELECT_SYMS)
    {
      AnyStep(x, key, {SwitchSym});
      AnyStep(x, key, SELECT_SYMS);
      var sw, se := GroupFeatures(x, key);
      groupSwitch := groupSwitch[key - EVDEV_OFFSET := sw];
      hasSwitch, selects := hasSwitch || sw, selects || se;
      key := key + 1;
    }
  }

  lemma AnyStep(x: Xkb, key: nat, syms: set<Sym>)
    requires Lowest(x) <= key <= Highest(x)
    ensures AnyCarries(x, key + 1, syms) <==> AnyCarries(x, key, syms) || Carries(x, key, syms)
  {
  }

  // xkeymap_walk
  method Walk(c: Context, x: Xkb) returns (ok: bool)
    requires c.Valid()
    modifies c.Repr
    ensures c.Valid() && fresh(c.Repr - old(c.Repr))
    ensures c.altIsMeta == old(c.altIsMeta) && c.keymapsLine == old(c.keymapsLine)
    ensures ok ==> 1 <= x.numLayouts <= NR_LAYOUTS && c.View == WalkTo(old(c.View), x, Highest(x) + 1)
    ensures !ok ==> c.keymapsLine || !(1 <= x.numLayouts <= NR_LAYOUTS)
  {
    hide Context.Valid, Carries, WalkTo, AnyCarries;
    c.InRepr();
    if x.numLayouts == 0 || x.numLayouts > NR_LAYOUTS {
      return false;
    }
    var groupSwitch, hasSwitch, selects := AllFeatures(x);
    var states := if x.numLayouts > 2 && selects then 2 * NR_LAYOUTS else NR_LAYOUTS;
    var altIsMeta := c.altIsMeta;
    c.SetAltIsMeta(false);
    ok := WalkKeys(c, x, states, hasSwitch, groupSwitch);
    c.SetAltIsMeta(altIsMeta);
  }

  method WalkKeys(c: Context, x: Xkb, states: nat, hasSwitch: bool, groupSwitch: seq<bool>) returns (ok: bool)
    requires c.Valid() && !c.altIsMeta && 1 <= x.numLayouts <= NR_LAYOUTS
    requires states == States(x) && (hasSwitch <==> HasSwitch(x)) && |groupSwitch| == NR_KEYS
    requires forall key | Lowest(x) <= key <= Highest(x) ::
               groupSwitch[key - EVDEV_OFFSET] <==> Carries(x, key, {SwitchSym})
    modifies c.Repr
    ensures c.Valid() && fresh(c.Repr - old(c.Repr)) && !c.altIsMeta && c.keymapsLine == old(c.keymapsLine)
    ensures ok ==> c.View == WalkTo(old(c.View), x, Highest(x) + 1)
    ensures !c.keymapsLine ==> ok
  {
    hide Context.Valid, Carries, KeyTo, AnyCarries;
    ghost var v := c.View;
    var key := Lowest(x);
    while key <= Highest(x)
      invariant Lowest(x) <= key && (key <= Highest(x) + 1 || key == Lowest(x))
      invariant c.Valid() && fresh(c.Repr - old(c.Repr)) && !c.altIsMeta && c.keymapsLine == old(c.keymapsLine)
      invariant c.View == WalkTo(v, x, if key <= Highest(x) + 1 then key else Highest(x) + 1)
    {
      ok := WalkKey(c, x, states, hasSwitch, key, groupSwitch[key - EVDEV_OFFSET]);
      if !ok {
        return;
      }
      key := key + 1;
    }
    ok := true;
  }

  // ---------------------------------------------------------------- what the walk leaves behind

  // The tables made for a keymap: those with these states of the group bits and of the switch.
  ghost predicate Enumerated(x: Xkb, t: Uint32) {
    InSlots(States(x), Slots(x), t)
  }

  predicate InSlots(states: nat, n: nat, t: Uint32) {
    t < 256 && t / 16 % 8 < states && t / 128 * states + t / 16 % 8 < n
  }

  // The code the walk gives a key in a table.
  ghost function BindingAt(x: Xkb, t: Uint32, k: Uint32): Option<Ushort>
    requires 1 <= x.numLayouts <= NR_LAYOUTS
  {
    Binding(x, t / 128 == 1, t / 16 % 8, t % 16, k + EVDEV_OFFSET)
  }

  lemma {:induction false} SlotAt(v: Tables, x: Xkb, held: bool, base: nat, key: nat, m: nat, t: Uint32, k: Uint32)
    requires 1 <= x.numLayouts <= NR_LAYOUTS && base < 8 && m <= 16
    requires EVDEV_OFFSET <= key < NR_KEYS + EVDEV_OFFSET
    ensures var here := k == key - EVDEV_OFFSET && t % 16 < m && t == TableNo(held, base, t % 16)
                        && Binding(x, held, base, t % 16, key).Some?;
            && CodeAt(SlotTo(v, x, held, base, key, m), t, k) ==
                 (if here then Some(Binding(x, held, base, t % 16, key).value) else CodeAt(v, t, k))
    ensures t in SlotTo(v, x, held, base, key, m) <==>
              t in v || (t % 16 < m && t == TableNo(held, base, t % 16) && Binding(x, held, base, t % 16, key).Some?)
  {
    hide Binding, Put, CodeAt;
    if m > 0 {
      SlotAt(v, x, held, base, key, m - 1, t, k);
      var b := Binding(x, held, base, m - 1, key);
      if b.Some? {
        PutAt(SlotTo(v, x, held, base, key, m - 1), TableNo(held, base, m - 1), key - EVDEV_OFFSET, b.value, t, k);
      }
    }
  }

  lemma SlotOfTable(states: nat, n: nat, t: Uint32)
    requires states == 4 || states == 8
    requires n < 2 * states
    ensures InSlots(states, n + 1, t) <==> InSlots(states, n, t) || t == TableNo(n >= states, n % states, t % 16)
    ensures t == TableNo(n >= states, n % states, t % 16) ==>
              (t / 128 == 1 <==> n >= states) && t / 16 % 8 == n % states && !InSlots(states, n, t)
  {
    hide TableNo;
    TableIs(t, n >= states, n % states);
    if t < 256 && t / 16 % 8 < states {
      SlotIs(states, n, t / 128, t / 16 % 8);
    }
  }

  lemma TableIs(t: Uint32, held: bool, base: nat)
    requires base < 8
    ensures t == TableNo(held, base, t % 16) <==> t < 256 && (t / 128 == 1 <==> held) && t / 16 % 8 == base
  {
  }

  lemma SlotIs(states: nat, n: nat, held: nat, base: nat)
    requires (states == 4 || states == 8) && n < 2 * states && held < 2 && base < states
    ensures held * states + base == n <==> (held == 1 <==> n >= states) && base == n % states
  {
  }

  lemma {:induction false} KeyAt(v: Tables, x: Xkb, states: nat, key: nat, n: nat, t: Uint32, k: Uint32)
    requires 1 <= x.numLayouts <= NR_LAYOUTS && (states == 4 || states == 8) && n <= 2 * states
    requires EVDEV_OFFSET <= key < NR_KEYS + EVDEV_OFFSET
    ensures CodeAt(KeyTo(v, x, states, key, n), t, k) ==
              if k == key - EVDEV_OFFSET && InSlots(states, n, t) && BindingAt(x, t, k).Some?
              then Some(BindingAt(x, t, k).value) else CodeAt(v, t, k)
    ensures t in KeyTo(v, x, states, key, n) <==>
              t in v || (InSlots(states, n, t) && BindingAt(x, t, key - EVDEV_OFFSET).Some?)
  {
    hide Binding, SlotTo, CodeAt, InSlots, TableNo;
    if n == 0 {
      NoSlot(states, t);
    } else {
      KeyAt(v, x, states, key, n - 1, t, k);
      SlotOfTable(states, n - 1, t);
      SlotAt(KeyTo(v, x, states, key, n - 1), x, n - 1 >= states, (n - 1) % states, key, 16, t, k);
    }
  }

  lemma NoSlot(states: nat, t: Uint32)
    ensures !InSlots(states, 0, t)
  {
  }

  // Some key below `limit` is bound in table t.
  ghost predicate SomeBound(x: Xkb, limit: nat, t: Uint32)
    requires 1 <= x.numLayouts <= NR_LAYOUTS
  {
    exists k: Uint32 | Lowest(x) <= k + EVDEV_OFFSET < limit :: BindingAt(x, t, k).Some?
  }

  lemma OneMoreKey(x: Xkb, key: nat, t: Uint32)
    requires 1 <= x.numLayouts <= NR_LAYOUTS && Lowest(x) <= key <= Highest(x)
    ensures SomeBound(x, key + 1, t) <==> SomeBound(x, key, t) || BindingAt(x, t, key - EVDEV_OFFSET).Some?
  {
    hide BindingAt;
    if BindingAt(x, t, key - EVDEV_OFFSET).Some? {
      var k: Uint32 := key - EVDEV_OFFSET;
      assert Lowest(x) <= k + EVDEV_OFFSET < key + 1 && BindingAt(x, t, k).Some?;
    }
  }

  // After the walk a key has in every table of the keymap the code that belongs there, and a table is there
  // if some key is bound in it; everything else is as before.
  lemma {:induction false} WalkAt(v: Tables, x: Xkb, limit: nat, t: Uint32, k: Uint32)
    requires 1 <= x.numLayouts <= NR_LAYOUTS && limit <= Highest(x) + 1
    ensures CodeAt(WalkTo(v, x, limit), t, k) ==
              if Lowest(x) <= k + EVDEV_OFFSET < limit && Enumerated(x, t) && BindingAt(x, t, k).Some?
              then Some(BindingAt(x, t, k).value) else CodeAt(v, t, k)
    ensures t in WalkTo(v, x, limit) <==> t in v || (Enumerated(x, t) && SomeBound(x, limit, t))
    decreases limit
  {
    hide BindingAt, KeyTo, CodeAt, InSlots, AnyCarries;
    if limit > Lowest(x) {
      WalkAt(v, x, limit - 1, t, k);
      OneMoreKey(x, limit - 1, t);
      KeyAt(WalkTo(v, x, limit - 1), x, States(x), limit - 1, Slots(x), t, k);
    }
  }
}
