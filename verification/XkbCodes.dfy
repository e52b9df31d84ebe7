/**
  xkbsupport.c:587-614 and 767-787: the codes that the walk stores, in plain numbers.  0x000 is KT_LATIN,
  0x800 KT_META, 0xB00 KT_LETTER, and 0xF000 + c the Unicode character c below 0x1000.
 */
module KeyCodes {
  import opened Bytes
  import opened Keymaps
  import opened XkbWalk
  import opened Console
  import opened GroupSimulation
  import opened ModifierSimulation

  // Ctrl is held and XKB has not used it up; the key has one character, and it is ASCII.
  predicate CtrlLeft(x: Xkb, key: nat, selected: nat, mods: nat) {
    mods / 4 % 2 == 1 && !x.consumesCtrl(key, selected, mods) && x.plainChar(key, selected, mods)
    && x.utf32(key, selected, mods) < 0x80
  }

  predicate AltLeft(x: Xkb, key: nat, selected: nat, mods: nat) {
    mods / 8 % 2 == 1 && !x.consumesAlt(key, selected, mods)
  }

  // The character below 0x100 that a code stands for.
  function Character(code: Ushort): Option<Byte> {
    if code < 0x100 then Some(code)
    else if 0xB00 <= code < 0xC00 then Some(code - 0xB00)
    else if 0xF000 <= code < 0xF100 then Some(code - 0xF000)
    else None
  }

  // Only the conversion table knows the code of a Latin character above ASCII that has an upper or lower case
  // and is wanted as Unicode.
  predicate Recoded(x: Xkb, sym: Sym, plain: Ushort) {
    x.hasCase(sym) && x.preferUnicode && 0x80 <= plain < 0x100
  }

  // `code` is what a key with the symbol sym, of code `plain`, is to be.
  predicate Typed(x: Xkb, key: nat, selected: nat, mods: nat, sym: Sym, plain: Ushort, code: int) {
    var c := Character(plain);
    // With Ctrl a character becomes what XKB makes of it; with Alt it becomes Meta.
    && ((c.Some? || plain >= 0x1000) && !Recoded(x, sym, plain) && CtrlLeft(x, key, selected, mods) ==>
          code == x.utf32(key, selected, mods) + if AltLeft(x, key, selected, mods) then 0x800 else 0)
    && (c.Some? && c.value < 0x80 && !CtrlLeft(x, key, selected, mods) && AltLeft(x, key, selected, mods) ==>
          code == 0x800 + c.value)
    // Otherwise a character with two cases obeys caps lock, and all others are as they are.
    && (c.Some? && !Recoded(x, sym, plain) && !CtrlLeft(x, key, selected, mods)
        && (c.value >= 0x80 || !AltLeft(x, key, selected, mods)) ==>
          code == if x.hasCase(sym) then 0xB00 + c.value else plain)
    && (Recoded(x, sym, plain) && !CtrlLeft(x, key, selected, mods) && !AltLeft(x, key, selected, mods) ==>
          code == x.convert(plain))
    && (c.None? && plain >= 0x1000 && !CtrlLeft(x, key, selected, mods) ==> code == plain)
    // ShiftL, ShiftR and their locks become Shift and its lock; other actions stay.
    && (plain == 0x704 || plain == 0x705 ==> code == 0x700)
    && (plain == 0xA04 || plain == 0xA05 ==> code == 0xA00)
    && (c.None? && plain < 0x1000 && plain !in {0x704, 0x705, 0xA04, 0xA05} ==> code == plain)
  }

  lemma UnicodeBits(code: Ushort)
    ensures U(code) < 0x100 <==> 0xF000 <= code < 0xF100
    ensures 0xF000 <= code < 0xF100 ==> U(code) == code - 0xF000
  {
  }

  lemma Types(code: Ushort)
    ensures (Ktyp(code) == 0 <==> code < 0x100) && (Ktyp(code) == 11 <==> 0xB00 <= code < 0xC00)
    ensures code < 0x100 ==> Kval(code) == code
    ensures 0xB00 <= code < 0xC00 ==> Kval(code) == code - 0xB00
  {
  }

  lemma ReservedIs(code: Ushort)
    ensures Reserve(code) == if code == 0x704 || code == 0x705 then 0x700
                             else if code == 0xA04 || code == 0xA05 then 0xA00 else code
  {
  }

  lemma CapslockIs(x: Xkb, sym: Sym, code: Ushort)
    ensures Capslock(x, sym, code) ==
              if !x.hasCase(sym) || !(code < 0x100 || 0xF000 <= code < 0xF100) then code
              else if code >= 0xF000 then 0xB00 + (code - 0xF000)
              else if !x.preferUnicode || code < 0x80 then 0xB00 + code
              else x.convert(code)
  {
    hide U, Ktyp, Kval;
    UnicodeBits(code);
    Types(code);
  }

  lemma ModifiedIs(x: Xkb, key: nat, selected: nat, mods: nat, code: Ushort)
    ensures var c := Character(code);
            ApplyModifiers(x, key, selected, mods, code) ==
              if CtrlLeft(x, key, selected, mods) && (code >= 0x1000 || code < 0x100 || 0xB00 <= code < 0xC00)
              then x.utf32(key, selected, mods) + if AltLeft(x, key, selected, mods) then 0x800 else 0
              else if AltLeft(x, key, selected, mods) && c.Some? && c.value < 0x80 then 0x800 + c.value
              else code
  {
    hide U, Ktyp, Kval;
    UnicodeBits(code);
    Types(code);
    if CtrlLeft(x, key, selected, mods) {
      UnicodeBits(x.utf32(key, selected, mods));
      Types(x.utf32(key, selected, mods));
    }
  }

  lemma CookedIsTyped(x: Xkb, key: nat, selected: nat, mods: nat, sym: Sym, plain: Ushort)
    ensures Typed(x, key, selected, mods, sym, plain,
                  ApplyModifiers(x, key, selected, mods, Capslock(x, sym, Reserve(plain))))
  {
    hide ApplyModifiers, Capslock, Reserve, CtrlLeft, AltLeft;
    ReservedIs(plain);
    CapslockIs(x, sym, Reserve(plain));
    ModifiedIs(x, key, selected, mods, Capslock(x, sym, Reserve(plain)));
    if CtrlLeft(x, key, selected, mods) {
      Ascii(x, key, selected, mods);
    }
  }

  lemma Ascii(x: Xkb, key: nat, selected: nat, mods: nat)
    requires CtrlLeft(x, key, selected, mods)
    ensures x.utf32(key, selected, mods) < 0x80
  {
  }

  // In every table the walk gives a key with an ordinary symbol the code for that symbol, and a key without
  // a symbol, or with one that has no code, none.
  lemma WalkTypes(x: Xkb, s: Uint32, held: bool, base: nat, mods: nat, k: Uint32)
    requires Suitable(x, s) && InRange(x, k) && base < 8 && mods < 16 && Enumerated(x, TableNo(held, base, mods))
    requires !(held && k == s)
    ensures var key, selected := k + EVDEV_OFFSET, Selected(x, held, base);
            var sym := Resolve(x, key, selected, mods);
            var code := CodeAt(WalkTo(map[], x, Highest(x) + 1), TableNo(held, base, mods), k);
            && (sym == None || (!GroupSym(sym.value) && x.code(sym.value) == None) ==> code == None)
            && (sym.Some? && !GroupSym(sym.value) && x.code(sym.value).Some? ==>
                  code.Some? && Typed(x, key, selected, mods, sym.value, x.code(sym.value).value, code.value))
  {
    hide WalkTo, Resolve, ApplyModifiers, Capslock, Reserve, Selected, Enumerated, Carries, Sound, PlainCodes, Typed,
         SelectGroup, NextGroup, Target, Layout, Group, TableNo;
    var t := TableNo(held, base, mods);
    var sym := Resolve(x, k + EVDEV_OFFSET, Selected(x, held, base), mods);
    WalkAt(map[], x, Highest(x) + 1, t, k);
    BindingFollows(x, s, t, k);
    if sym.Some? && x.code(sym.value).Some? {
      CookedIsTyped(x, k + EVDEV_OFFSET, Selected(x, held, base), mods, sym.value, x.code(sym.value).value);
    }
  }

  // A group key leads from the layout of the table to the one before it, the first, the second or, with three
  // layouts not in all groups, the next.
  lemma GroupKeysLead(x: Xkb, s: Uint32, held: bool, base: nat, mods: nat, k: Uint32)
    requires Suitable(x, s) && InRange(x, k) && base < 8 && mods < 16 && Enumerated(x, TableNo(held, base, mods))
    requires !(held && k == s)
    ensures var sym := Resolve(x, k + EVDEV_OFFSET, Selected(x, held, base), mods);
            var code := CodeAt(WalkTo(map[], x, Highest(x) + 1), TableNo(held, base, mods), k);
            var n, at := x.numLayouts, Layout(x.numLayouts, Group(base));
            sym.Some? && sym.value in {PrevSym, FirstSym, LastSym, NextSym} ==>
              code.Some? &&
              var to := Layout(n, Group(Press(base, code.value)));
              && (sym.value == PrevSym ==> to == if at == 0 then n - 1 else at - 1)
              && (sym.value == FirstSym ==> to == 0)
              && (sym.value == LastSym ==> to == if n == 1 then 0 else 1)
              && (sym.value == NextSym && (n != 3 || Group(base) == 0 || Group(base) == 2) ==>
                    to == if at == n - 1 then 0 else at + 1)
  {
    hide WalkTo, Resolve, ApplyModifiers, Capslock, Reserve, Selected, Enumerated, Carries, Sound, PlainCodes,
         SelectGroup, NextGroup, Target, Layout, Group, TableNo, Press;
    var t, n, at := TableNo(held, base, mods), x.numLayouts, Layout(x.numLayouts, Group(base));
    WalkAt(map[], x, Highest(x) + 1, t, k);
    BindingFollows(x, s, t, k);
    NextReachesIff(n, base);
    forall sym | sym in {PrevSym, FirstSym, LastSym}
      ensures var target := Target(n, at, sym);
              && (sym == PrevSym ==> target == if at == 0 then n - 1 else at - 1)
              && (sym == FirstSym ==> target == 0) && (sym == LastSym ==> target == if n == 1 then 0 else 1)
              && Layout(n, Group(Press(base, SelectGroup(n, Group(base), target)))) == target
    {
      TargetIs(n, at, sym);
      SelectReaches(n, base, Target(n, at, sym));
    }
    NextIs(n, at);
  }

  lemma TargetIs(n: nat, at: nat, sym: Sym)
    requires at < n
    ensures var target := Target(n, at, sym);
            && (sym == PrevSym ==> target == if at == 0 then n - 1 else at - 1)
            && (sym == FirstSym ==> target == 0) && (sym == LastSym ==> target == if n == 1 then 0 else 1)
            && target < n
  {
    PrevIs(n, at);
    if n > 1 {
      SmallModulo(1, n);
    }
    NextIs(n, at);
  }

  lemma PrevIs(n: nat, at: nat)
    requires at < n
    ensures (at + n - 1) % n == if at == 0 then n - 1 else at - 1
  {
    if at == 0 {
      SmallModulo(n - 1, n);
    } else {
      SmallModulo(at - 1, n);
      assert at + n - 1 == at - 1 + n;
    }
  }

  lemma SmallModulo(a: nat, n: nat)
    requires a < n
    ensures a % n == a && (a + n) % n == a
  {
  }

  lemma NextIs(n: nat, at: nat)
    requires at < n
    ensures (at + 1) % n == if at == n - 1 then 0 else at + 1
  {
  }

  // The keys that are looked at: those of the XKB keymap whose codes the console has.
  lemma RangeIs(x: Xkb, k: Uint32)
    ensures InRange(x, k) <==> x.min <= k + 8 <= x.max && k < 256
  {
  }

  // Some key of the keymap holds one of these symbols.
  ghost predicate SomeKey(x: Xkb, syms: set<Sym>) {
    exists key: nat | x.min <= key <= x.max && 8 <= key < 264 :: Carries(x, key, syms)
  }

  // The tables that are made: ones with CtrlL only where there are more than two layouts and a key to select
  // them, ones with CtrlR only where some key switches groups.
  lemma TablesAre(x: Xkb, t: Uint32)
    ensures Enumerated(x, t) <==>
              t < 256 && (t / 64 % 2 == 1 ==> x.numLayouts > 2 && SomeKey(x, {FirstSym, LastSym, PrevSym}))
              && (t >= 128 ==> SomeKey(x, {SwitchSym}))
  {
    hide Carries;
    KeysAre(x, SELECT_SYMS);
    KeysAre(x, {SwitchSym});
    if t < 256 {
      SlotBits(t);
    }
  }

  lemma KeysAre(x: Xkb, syms: set<Sym>)
    ensures AnyCarries(x, Highest(x) + 1, syms) <==> SomeKey(x, syms)
  {
    hide Carries;
    forall key: nat | Carries(x, key, syms)
      ensures Lowest(x) <= key < Highest(x) + 1 && key <= Highest(x) <==> x.min <= key <= x.max && 8 <= key < 264
    {
      Limits(x, key);
    }
  }

  lemma Limits(x: Xkb, key: nat)
    ensures Lowest(x) <= key <= Highest(x) <==> x.min <= key <= x.max && 8 <= key < 264
  {
  }

  lemma SlotBits(t: Uint32)
    requires t < 256
    ensures t / 16 % 8 < 4 <==> t / 64 % 2 == 0
    ensures t / 128 == 1 <==> t >= 128
  {
  }

  // While console and XKB are in step, the console gives every key but the switch that is held the code of the
  // symbol that XKB has for it in its own group and modifiers.
  lemma KeysMeanTheSame(x: Xkb, s: Uint32, st: State, g: Groups, h: Holders, down: set<Uint32>, k: Uint32)
    requires Suitable(x, s) && InRange(x, k) && SwitchOk(x, s, st, down)
    requires InStep(x, s, st, g) && Table(st) % 16 == ModNumber(h) && g.holder != Some(k)
    ensures var key, selected, mods := k + EVDEV_OFFSET, Effective(x, g), ModNumber(h);
            var sym := Resolve(x, key, selected, mods);
            var code := CodeAt(WalkTo(map[], x, Highest(x) + 1), Table(st), k);
            && (sym == None || (!GroupSym(sym.value) && x.code(sym.value) == None) ==> code == None)
            && (sym.Some? && GroupSym(sym.value) ==> code.Some?)
            && (sym.Some? && !GroupSym(sym.value) && x.code(sym.value).Some? ==>
                  code.Some? && Typed(x, key, selected, mods, sym.value, x.code(sym.value).value, code.value))
  {
    hide WalkTo, Table, Resolve, ApplyModifiers, Capslock, Reserve, Selected, Layout, Group, Enumerated, Carries,
         Sound, PlainCodes, Base, Effective, ModNumber, SelectGroup, NextGroup, Target, Typed;
    var t := Table(st);
    TableUsed(x, s, st, down);
    assert t == TableNo(t / 128 == 1, t / 16 % 8, t % 16) by {
      hide *;
      TableIs(t, t / 128 == 1, t / 16 % 8);
      BelowLimit(x, t);
    }
    WalkTypes(x, s, t / 128 == 1, t / 16 % 8, t % 16, k);
    WalkAt(map[], x, Highest(x) + 1, t, k);
    BindingFollows(x, s, t, k);
  }

  lemma BelowLimit(x: Xkb, t: Uint32)
    ensures Enumerated(x, t) ==> t < 256
  {
  }
}
