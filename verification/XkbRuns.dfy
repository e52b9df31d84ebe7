/**
  The console's modifier machine, as the tests of libkeymap state it
  (tests/libkeymap/libkeymap-test54.c:228-254), run against the keymaps that xkbsupport.c makes.
 */
module Console {
  import opened Bytes
  import opened Keymaps
  import opened XkbWalk

  const NR_SHIFT := 9

  // One truth value for each of the bits KG_SHIFT .. KG_CAPSSHIFT.
  type Bits = s: seq<bool> | |s| == NR_SHIFT witness seq(NR_SHIFT, _ => false)

  type Counts = s: seq<nat> | |s| == NR_SHIFT witness seq(NR_SHIFT, _ => 0)

  function N(b: bool): nat {
    if b then 1 else 0
  }

  // The table with this set of bits.
  function Number(b: Bits): Uint32 {
    N(b[0]) + 2 * N(b[1]) + 4 * N(b[2]) + 8 * N(b[3]) + 16 * N(b[4]) + 32 * N(b[5]) + 64 * N(b[6]) + 128 * N(b[7])
    + 256 * N(b[8])
  }

  function Xor(a: Bits, b: Bits): Bits {
    seq(NR_SHIFT, i requires 0 <= i < NR_SHIFT => a[i] != b[i])
  }

  datatype State = State(down: Counts, shift: Bits, lock: Bits)

  // No modifier is down.
  predicate Rests(st: State) {
    forall i | 0 <= i < NR_SHIFT :: st.down[i] == 0 && !st.shift[i]
  }

  // The table keys are looked up in.
  function Table(st: State): Uint32 {
    Number(Xor(st.shift, st.lock))
  }

  // console_key.  Values past the last modifier have no bit.
  function Act(st: State, code: int, pressed: bool): State {
    var value := Kval(code);
    if value >= NR_SHIFT then st
    else if Ktyp(code) == KT_SHIFT then
      var count := if pressed then st.down[value] + 1 else if st.down[value] > 0 then st.down[value] - 1 else 0;
      st.(down := st.down[value := count], shift := st.shift[value := count > 0])
    else if Ktyp(code) == KT_LOCK && pressed then
      st.(lock := st.lock[value := !st.lock[value]])
    else st
  }

  datatype Event = Event(key: Uint32, pressed: bool)

  function Step(v: Tables, st: State, e: Event): State {
    Act(st, Lookup(v, Table(st), e.key), e.pressed)
  }

  // Keys that are down after an event.
  function Held(down: set<Uint32>, e: Event): set<Uint32> {
    if e.pressed then down + {e.key} else down - {e.key}
  }

  // Presses and releases of each key alternate.
  predicate Alternating(down: set<Uint32>, run: seq<Event>)
    decreases |run|
  {
    run == [] || ((run[0].pressed <==> run[0].key !in down) && Alternating(Held(down, run[0]), run[1..]))
  }

  function Run(v: Tables, st: State, run: seq<Event>): State
    decreases |run|
  {
    if run == [] then st else Run(v, Step(v, st, run[0]), run[1..])
  }

  function HeldAfter(down: set<Uint32>, run: seq<Event>): set<Uint32>
    decreases |run|
  {
    if run == [] then down else HeldAfter(Held(down, run[0]), run[1..])
  }
}

/**
  The console keymaps of an XKB keymap follow its groups.
 */
module GroupSimulation {
  import opened Bytes
  import opened Keymaps
  import opened XkbWalk
  import opened Console

  // ---------------------------------------------------------------- XKB's own group machine

  // The locked group and the key that holds the next one.
  datatype Groups = Groups(locked: nat, holder: Option<Uint32>)

  function Effective(x: Xkb, g: Groups): nat
    requires x.numLayouts >= 1
  {
    (g.locked + N(g.holder.Some?)) % x.numLayouts
  }

  // A press acts by the symbol of the effective group and of XKB's modifiers `mods`; the release of the key
  // that holds the switch ends it.
  function XkbStep(x: Xkb, g: Groups, e: Event, mods: nat): Groups
    requires x.numLayouts >= 1
  {
    if !e.pressed then (if g.holder == Some(e.key) then g.(holder := None) else g)
    else
      var sym := Resolve(x, e.key + EVDEV_OFFSET, Effective(x, g), mods);
      if sym == None then g
      else if sym.value == SwitchSym then g.(holder := Some(e.key))
      else if sym.value.OtherGroup? then g.(locked := x.moved(sym.value.id, g.locked) % x.numLayouts)
      else g.(locked := Target(x.numLayouts, g.locked, sym.value))
  }

  // ---------------------------------------------------------------- keymaps that follow the groups

  // Neither shifts nor locks one of the group bits.
  predicate Calm(code: int) {
    (Ktyp(code) == KT_SHIFT || Ktyp(code) == KT_LOCK) ==> Kval(code) < 4
  }

  // Only Mode_switch has the CtrlR code, and no other symbol one of the CtrlL, CtrlR or CapsShift bits.
  ghost predicate PlainCodes(x: Xkb) {
    && x.code(SwitchSym) == Some(K_CTRLR)
    && (forall sym | sym != SwitchSym && x.code(sym).Some? :: Calm(Reserve(x.code(sym).value)))
    && (forall c :: Calm(x.convert(c)))
  }

  predicate InRange(x: Xkb, k: Uint32) {
    Lowest(x) <= k + EVDEV_OFFSET <= Highest(x)
  }

  // One key, s, switches groups.
  ghost predicate OneSwitch(x: Xkb, s: Uint32) {
    forall k: Uint32 | InRange(x, k) && Carries(x, k + EVDEV_OFFSET, {SwitchSym}) :: k == s
  }

  ghost predicate Suitable(x: Xkb, s: Uint32) {
    1 <= x.numLayouts <= NR_LAYOUTS && Sound(x) && PlainCodes(x) && OneSwitch(x, s)
  }

  // In table t the code of key k does to the group bits what XKB does to the groups.
  ghost predicate FollowsAt(x: Xkb, s: Uint32, v: Tables, t: Uint32, k: Uint32)
    requires 1 <= x.numLayouts <= NR_LAYOUTS
  {
    var held, group := t / 128 == 1, Group(t / 16 % 8);
    var code, sym := Lookup(v, t, k), Resolve(x, k + EVDEV_OFFSET, Selected(x, held, t / 16 % 8), t % 16);
    if held && k == s then code == K_CTRLR
    else if sym == None then Calm(code)
    else if sym.value == SwitchSym then code == K_CTRLR
    else if sym.value == NextSym then code == NextGroup(group)
    else if sym.value in SELECT_SYMS
    then code == SelectGroup(x.numLayouts, group, Target(x.numLayouts, Layout(x.numLayouts, group), sym.value))
    else Calm(code)
  }

  ghost predicate Follows(x: Xkb, s: Uint32, v: Tables)
    requires 1 <= x.numLayouts <= NR_LAYOUTS
  {
    forall t, k | Enumerated(x, t) && InRange(x, k) :: FollowsAt(x, s, v, t, k)
  }

  // Neither the caps lock code nor the modifiers left over turn a code into an action or an action into
  // something else.
  lemma CookedCalm(x: Xkb, key: nat, selected: nat, mods: nat, sym: Sym, code: Ushort)
    requires PlainCodes(x) && Calm(code)
    ensures Calm(ApplyModifiers(x, key, selected, mods, Capslock(x, sym, code)))
  {
    hide HasMod;
    var c := Capslock(x, sym, code);
    assert Calm(c) by {
      hide ApplyModifiers;
    }
    ModifiedCalm(x, key, selected, mods, c);
  }

  lemma ModifiedCalm(x: Xkb, key: nat, selected: nat, mods: nat, c: Ushort)
    requires Calm(c)
    ensures Calm(ApplyModifiers(x, key, selected, mods, c))
  {
    hide HasMod;
  }

  lemma SwitchCode(x: Xkb, key: nat, selected: nat, mods: nat)
    requires PlainCodes(x)
    ensures ApplyModifiers(x, key, selected, mods, Capslock(x, SwitchSym, Reserve(K_CTRLR))) == K_CTRLR
  {
    hide HasMod;
  }

  // The tables with the CtrlR bit exist only if some key switches groups.
  lemma HeldTables(x: Xkb, s: Uint32, t: Uint32)
    requires OneSwitch(x, s) && Enumerated(x, t) && t / 128 == 1
    ensures Carries(x, s + EVDEV_OFFSET, {SwitchSym})
  {
    hide Carries;
    assert HasSwitch(x);
    var key :| Lowest(x) <= key <= Highest(x) && Carries(x, key, {SwitchSym});
    assert InRange(x, key - EVDEV_OFFSET);
  }

  lemma ResolvedCarried(x: Xkb, key: nat, selected: nat, mods: nat, syms: set<Sym>)
    requires Sound(x) && Resolve(x, key, selected, mods).Some? && Resolve(x, key, selected, mods).value in syms
    ensures Carries(x, key, syms)
  {
    var layout := x.keyLayout(key, selected).value;
    var level := x.keyLevel(key, selected, mods).value;
    assert x.symAt(key, layout, level).Some? && x.symAt(key, layout, level).value in syms;
  }

  lemma BindingFollows(x: Xkb, s: Uint32, t: Uint32, k: Uint32)
    requires Suitable(x, s) && Enumerated(x, t) && InRange(x, k)
    ensures var held, group, b := t / 128 == 1, Group(t / 16 % 8), BindingAt(x, t, k);
            var sym := Resolve(x, k + EVDEV_OFFSET, Selected(x, held, t / 16 % 8), t % 16);
            if held && k == s then b == Some(K_CTRLR)
            else if sym == None then b == None
            else if sym.value == SwitchSym then b == Some(K_CTRLR)
            else if sym.value == NextSym then b == Some(NextGroup(group))
            else if sym.value in SELECT_SYMS
            then
              b == Some(SelectGroup(x.numLayouts, group, Target(x.numLayouts, Layout(x.numLayouts, group), sym.value)))
            else b.Some? ==> Calm(b.value)
  {
    hide Carries, Sound, Enumerated, InRange, Resolve, Selected, SelectGroup, NextGroup, Layout, Group, ApplyModifiers,
         Capslock, Reserve, Calm, Target;
    var held, base, key, mods := t / 128 == 1, t / 16 % 8, k + EVDEV_OFFSET, t % 16;
    if held {
      HeldTables(x, s, t);
    }
    var sym := Resolve(x, key, Selected(x, held, base), mods);
    if sym.Some? && sym.value !in SELECT_SYMS && x.code(sym.value).Some? {
      SwitchCode(x, key, Selected(x, held, base), mods);
      if sym.value != SwitchSym {
        CookedCalm(x, key, Selected(x, held, base), mods, sym.value, Reserve(x.code(sym.value).value));
      }
    }
  }

  ghost predicate AllCalm(v: Tables) {
    forall t, k :: Calm(Lookup(v, t, k))
  }

  lemma LookupOf(v: Tables, t: Uint32, k: Uint32)
    ensures CodeAt(v, t, k).Some? ==> Lookup(v, t, k) == CodeAt(v, t, k).value
    ensures CodeAt(v, t, k).None? ==> Lookup(v, t, k) == -1 || Lookup(v, t, k) == K_HOLE
  {
  }

  // The keymaps made by xkeymap_walk follow the groups.
  lemma WalkFollows(x: Xkb, s: Uint32, v: Tables)
    requires Suitable(x, s) && AllCalm(v)
    ensures Follows(x, s, WalkTo(v, x, Highest(x) + 1))
  {
    hide WalkTo, BindingAt, Enumerated, Calm, CodeAt, Lookup, Resolve, SelectGroup, Sound, PlainCodes, OneSwitch;
    var w := WalkTo(v, x, Highest(x) + 1);
    forall t, k | Enumerated(x, t) && InRange(x, k)
      ensures FollowsAt(x, s, w, t, k)
    {
      WalkAt(v, x, Highest(x) + 1, t, k);
      BindingFollows(x, s, t, k);
      LookupOf(w, t, k);
      LookupOf(v, t, k);
      assert Calm(Lookup(v, t, k));
      CalmHoles();
    }
  }

  lemma CalmHoles()
    ensures Calm(-1) && Calm(K_HOLE)
  {
  }

  // ---------------------------------------------------------------- one step

  // The ShiftL, ShiftR and CtrlL bits as a number.
  function Base(b: Bits): (base: nat)
    ensures base < 8
  {
    N(b[4]) + 2 * N(b[5]) + 4 * N(b[6])
  }

  // The group bits of shift and lock, when one key s switches groups and `down` are the keys down: a
  // lock changes ShiftL, ShiftR and, if there are tables for it, CtrlL; only s holds CtrlR.
  ghost predicate SwitchOk(x: Xkb, s: Uint32, st: State, down: set<Uint32>) {
    && !st.lock[7] && !st.lock[8] && !st.shift[4] && !st.shift[5] && !st.shift[6] && !st.shift[8]
    && (st.lock[6] ==> States(x) == 8)
    && st.down[7] <= 1 && (st.shift[7] <==> st.down[7] == 1)
    && (st.shift[7] ==> s in down && HasSwitch(x))
  }

  // The table that keys are looked up in is one that was made, for the locked group and the switch.
  lemma TableUsed(x: Xkb, s: Uint32, st: State, down: set<Uint32>)
    requires SwitchOk(x, s, st, down)
    ensures var t := Table(st);
            Enumerated(x, t) && (t / 128 == 1 <==> st.shift[7]) && t / 16 % 8 == Base(st.lock)
  {
    hide Table, Base, HasSwitch;
    BitsOfTable(st);
    assert States(x) == 4 || States(x) == 8;
    assert Base(st.lock) < 4 || st.lock[6] by {
      SmallBase(st.lock);
    }
  }

  lemma SmallBase(b: Bits)
    ensures b[6] <==> Base(b) >= 4
  {
  }

  lemma BitsOfTable(st: State)
    requires !st.lock[7] && !st.lock[8] && !st.shift[4] && !st.shift[5] && !st.shift[6] && !st.shift[8]
    ensures var t := Table(st); t < 256 && (t / 128 == 1 <==> st.shift[7]) && t / 16 % 8 == Base(st.lock)
  {
    var xs := Xor(st.shift, st.lock);
    assert xs[4] == st.lock[4] && xs[5] == st.lock[5] && xs[6] == st.lock[6] && xs[7] == st.shift[7] && !xs[8];
    NumberDigits(xs);
  }

  lemma NumberDigits(b: Bits)
    requires !b[8]
    ensures var t := Number(b); t < 256 && (t / 128 == 1 <==> b[7]) && t / 16 % 8 == Base(b)
  {
    Digits(N(b[0]) + 2 * N(b[1]) + 4 * N(b[2]) + 8 * N(b[3]), Base(b), N(b[7]));
  }

  lemma Digits(low: nat, base: nat, top: nat)
    requires low < 16 && base < 8 && top < 2
    ensures var t := low + 16 * base + 128 * top; t < 256 && t / 128 == top && t / 16 % 8 == base
  {
  }

  // What is left of the group bits.
  ghost predicate SameGroupBits(st: State, st': State) {
    && Base(st'.lock) == Base(st.lock) && (forall i | 6 <= i < NR_SHIFT :: st'.lock[i] == st.lock[i])
    && (forall i | 4 <= i < NR_SHIFT :: st'.shift[i] == st.shift[i] && st'.down[i] == st.down[i])
  }

  lemma ActCalm(st: State, code: int, pressed: bool)
    requires Calm(code) || (!pressed && Ktyp(code) == KT_LOCK)
    ensures SameGroupBits(st, Act(st, code, pressed))
  {
  }

  lemma ActLock(st: State, code: int)
    requires code == K_SHIFTLLOCK || code == K_SHIFTRLOCK || code == K_CTRLLLOCK
    ensures var st' := Act(st, code, true);
            && Base(st'.lock) == Press(Base(st.lock), code) && st'.lock[7] == st.lock[7] && st'.lock[8] == st.lock[8]
            && (code != K_CTRLLLOCK ==> st'.lock[6] == st.lock[6])
            && st'.shift == st.shift && st'.down == st.down
  {
  }

  lemma ActSwitch(st: State, pressed: bool)
    ensures var st' := Act(st, K_CTRLR, pressed);
            && st'.lock == st.lock && (forall i | i != 7 && 0 <= i < NR_SHIFT :: st'.shift[i] == st.shift[i])
            && st'.down[7] == (if pressed then st.down[7] + 1 else if st.down[7] > 0 then st.down[7] - 1 else 0)
            && (st'.shift[7] <==> st'.down[7] > 0)
  {
  }

  // The symbol that is pressed, by what XKB and the console agree on.
  function Pressed(x: Xkb, st: State, e: Event): Option<Sym>
    requires 1 <= x.numLayouts <= NR_LAYOUTS
  {
    Resolve(x, e.key + EVDEV_OFFSET, Selected(x, st.shift[7], Base(st.lock)), Table(st) % 16)
  }

  // What an event does to the group bits.
  datatype Effect = Nothing | Locks(code: int) | Switches

  function EffectOf(x: Xkb, s: Uint32, st: State, e: Event): Effect
    requires 1 <= x.numLayouts <= NR_LAYOUTS
  {
    var n, group, sym := x.numLayouts, Group(Base(st.lock)), Pressed(x, st, e);
    if st.shift[7] && e.key == s then Switches
    else if sym == None then Nothing
    else if sym.value == SwitchSym then Switches
    else if !e.pressed then Nothing
    else if sym.value == NextSym then Locks(NextGroup(group))
    else if sym.value in SELECT_SYMS then
      var code := SelectGroup(n, group, Target(n, Layout(n, group), sym.value));
      if code == K_HOLE then Nothing else Locks(code)
    else Nothing
  }

  lemma SelectCodes(n: nat, group: nat, target: nat)
    requires 1 <= n <= NR_LAYOUTS && group < 4
    ensures var code := SelectGroup(n, group, target);
            code == K_HOLE || code == K_SHIFTLLOCK || code == K_SHIFTRLOCK || code == K_CTRLLLOCK
    ensures target < n && SelectGroup(n, group, target) == K_CTRLLLOCK ==> n > 2
  {
    if target < n {
      FourGroups(n, group, target);
    }
  }

  lemma StepEffect(x: Xkb, s: Uint32, v: Tables, st: State, down: set<Uint32>, e: Event)
    requires Suitable(x, s) && Follows(x, s, v) && SwitchOk(x, s, st, down) && InRange(x, e.key)
    ensures var st' := Step(v, st, e);
            match EffectOf(x, s, st, e)
            case Nothing => SameGroupBits(st, st')
            case Switches => st' == Act(st, K_CTRLR, e.pressed) && e.key == s
            case Locks(code) => e.pressed && st' == Act(st, code, true)
                                && (code == K_SHIFTLLOCK || code == K_SHIFTRLOCK || code == K_CTRLLLOCK)
  {
    hide Follows, SwitchOk, Resolve, SelectGroup, Layout, Group, Calm, Lookup, Act, Table, Base, InRange, Target, Sound,
         Carries, PlainCodes, Enumerated, SameGroupBits, Ktyp, K;
    var t := Table(st);
    TableUsed(x, s, st, down);
    FollowsThere(x, s, v, t, e.key);
    var code, sym := Lookup(v, t, e.key), Pressed(x, st, e);
    if Calm(code) || (!e.pressed && Ktyp(code) == KT_LOCK) {
      ActCalm(st, code, e.pressed);
    }
    if sym.Some? && sym.value == SwitchSym {
      ResolvedCarried(x, e.key + EVDEV_OFFSET, Selected(x, st.shift[7], Base(st.lock)), t % 16, {SwitchSym});
    }
    SelectCodes(x.numLayouts, Group(Base(st.lock)), Target(x.numLayouts, Layout(x.numLayouts, Group(Base(st.lock))),
                if sym.Some? then sym.value else NextSym));
    LockCodes();
    CalmHoles();
  }

  lemma FollowsThere(x: Xkb, s: Uint32, v: Tables, t: Uint32, k: Uint32)
    requires 1 <= x.numLayouts <= NR_LAYOUTS && Follows(x, s, v) && Enumerated(x, t) && InRange(x, k)
    ensures FollowsAt(x, s, v, t, k)
  {
  }

  lemma LockCodes()
    ensures Ktyp(K_SHIFTLLOCK) == Ktyp(K_SHIFTRLOCK) == Ktyp(K_CTRLLLOCK) == KT_LOCK
    ensures K_HOLE != K_SHIFTLLOCK && K_HOLE != K_SHIFTRLOCK && K_HOLE != K_CTRLLLOCK
  {
  }

  // No matter what is pressed and released, the group bits stay in order.
  lemma StepSwitchOk(x: Xkb, s: Uint32, v: Tables, st: State, down: set<Uint32>, e: Event)
    requires Suitable(x, s) && Follows(x, s, v) && SwitchOk(x, s, st, down) && InRange(x, e.key)
    requires e.pressed <==> e.key !in down
    ensures SwitchOk(x, s, Step(v, st, e), Held(down, e))
  {
    hide Follows, Resolve, SelectGroup, Layout, Group, Lookup, Act, Table, Base, InRange, Target, Sound, Carries,
         PlainCodes, Enumerated, States, HasSwitch, EffectOf;
    StepEffect(x, s, v, st, down, e);
    HolderSwitches(x, s, st, e);
    match EffectOf(x, s, st, e)
    case Nothing =>
    case Switches =>
      ActSwitch(st, e.pressed);
      SwitchMeansSwitch(x, s, st, down, e);
    case Locks(code) =>
      ActLock(st, code);
      if code == K_CTRLLLOCK {
        LocksCtrlL(x, s, st, e);
      }
      SmallBase(st.lock);
      SmallBase(Act(st, code, true).lock);
  }

  lemma HolderSwitches(x: Xkb, s: Uint32, st: State, e: Event)
    requires 1 <= x.numLayouts <= NR_LAYOUTS
    ensures st.shift[7] && e.key == s ==> EffectOf(x, s, st, e) == Switches
  {
  }

  lemma SwitchMeansSwitch(x: Xkb, s: Uint32, st: State, down: set<Uint32>, e: Event)
    requires Suitable(x, s) && SwitchOk(x, s, st, down) && InRange(x, e.key) && EffectOf(x, s, st, e) == Switches
    ensures HasSwitch(x)
  {
    hide Carries, Selected, Table, Base, SelectGroup, Layout, Group, Target, Resolve;
    if !st.shift[7] {
      var key := e.key + EVDEV_OFFSET;
      ResolvedCarried(x, key, Selected(x, false, Base(st.lock)), Table(st) % 16, {SwitchSym});
      assert Lowest(x) <= key < Highest(x) + 1 && Carries(x, key, {SwitchSym});
    }
  }

  // CtrlL is locked only where tables for it are made.
  lemma LocksCtrlL(x: Xkb, s: Uint32, st: State, e: Event)
    requires Suitable(x, s) && InRange(x, e.key) && EffectOf(x, s, st, e) == Locks(K_CTRLLLOCK)
    ensures States(x) == 8
  {
    hide Carries, Selected, Table, Base, SelectGroup, Layout, Group, Resolve;
    var key, sym := e.key + EVDEV_OFFSET, Pressed(x, st, e);
    if sym.value in SELECT_SYMS {
      ResolvedCarried(x, key, Selected(x, st.shift[7], Base(st.lock)), Table(st) % 16, SELECT_SYMS);
      SelectCodes(x.numLayouts, Group(Base(st.lock)),
                  Target(x.numLayouts, Layout(x.numLayouts, Group(Base(st.lock))), sym.value));
      assert Lowest(x) <= key < Highest(x) + 1 && Carries(x, key, SELECT_SYMS);
    }
  }

  // ---------------------------------------------------------------- console and XKB side by side

  // The console's lock bits stand for XKB's locked group, its CtrlR bit for the held switch.
  ghost predicate Matches(x: Xkb, s: Uint32, st: State, g: Groups)
    requires 1 <= x.numLayouts <= NR_LAYOUTS
  {
    && Layout(x.numLayouts, Group(Base(st.lock))) == g.locked
    && (g.holder.Some? <==> st.shift[7]) && (g.holder.Some? ==> g.holder.value == s)
  }

  // Next is pressed with three layouts where it does not lead to the next one.
  predicate BadNext(x: Xkb, st: State, e: Event)
    requires 1 <= x.numLayouts <= NR_LAYOUTS
  {
    && x.numLayouts == 3 && e.pressed && Pressed(x, st, e) == Some(NextSym)
    && (Group(Base(st.lock)) == 1 || Group(Base(st.lock)) == 3)
  }

  // A symbol of another kind that moves XKB's locked group, where the console has no action for it.
  predicate OtherMove(x: Xkb, st: State, e: Event)
    requires 1 <= x.numLayouts <= NR_LAYOUTS
  {
    var sym, layout := Pressed(x, st, e), Layout(x.numLayouts, Group(Base(st.lock)));
    e.pressed && sym.Some? && sym.value.OtherGroup? && x.moved(sym.value.id, layout) % x.numLayouts != layout
  }

  predicate Misses(x: Xkb, st: State, e: Event)
    requires 1 <= x.numLayouts <= NR_LAYOUTS
  {
    BadNext(x, st, e) || OtherMove(x, st, e)
  }

  lemma SameEffective(x: Xkb, s: Uint32, st: State, g: Groups)
    requires 1 <= x.numLayouts <= NR_LAYOUTS && Matches(x, s, st, g)
    ensures Effective(x, g) == Selected(x, st.shift[7], Base(st.lock))
  {
    hide Layout, Group, Base;
  }

  lemma LockMatches(x: Xkb, st: State, e: Event, code: int)
    requires 1 <= x.numLayouts <= NR_LAYOUTS && e.pressed
    requires code == K_SHIFTLLOCK || code == K_SHIFTRLOCK || code == K_CTRLLLOCK
    requires Pressed(x, st, e).Some?
    requires var sym, n, group := Pressed(x, st, e).value, x.numLayouts, Group(Base(st.lock));
             || (sym == NextSym && code == NextGroup(group))
             || (sym in SELECT_SYMS && code == SelectGroup(n, group, Target(n, Layout(n, group), sym)))
    ensures var n := x.numLayouts;
            (Layout(n, Group(Base(Act(st, code, true).lock))) ==
             Target(n, Layout(n, Group(Base(st.lock))), Pressed(x, st, e).value)) <==> !BadNext(x, st, e)
    ensures !OtherMove(x, st, e)
  {
    hide Layout, Group, Base, Act, Resolve, SelectGroup, NextGroup, Press;
    var sym, n := Pressed(x, st, e).value, x.numLayouts;
    ActLock(st, code);
    if sym == NextSym {
      NextReachesIff(n, Base(st.lock));
    } else {
      TargetInRange(n, Layout(n, Group(Base(st.lock))), sym);
      SelectReaches(n, Base(st.lock), Target(n, Layout(n, Group(Base(st.lock))), sym));
    }
  }

  lemma TargetInRange(n: nat, layout: nat, sym: Sym)
    requires layout < n
    ensures Target(n, layout, sym) < n
  {
  }

  lemma NothingSelected(x: Xkb, s: Uint32, st: State, e: Event)
    requires 1 <= x.numLayouts <= NR_LAYOUTS && EffectOf(x, s, st, e) == Nothing && e.pressed
    ensures var sym := Pressed(x, st, e);
            sym.Some? ==> sym.value != SwitchSym && sym.value != NextSym
                          && Target(x.numLayouts, Layout(x.numLayouts, Group(Base(st.lock))), sym.value)
                             == Layout(x.numLayouts, Group(Base(st.lock)))
  {
    hide Layout, Group, Base, Resolve, SelectGroup, NextGroup;
    var sym, n := Pressed(x, st, e), x.numLayouts;
    if sym.Some? && sym.value in SELECT_SYMS {
      TargetInRange(n, Layout(n, Group(Base(st.lock))), sym.value);
      SelectReaches(n, Base(st.lock), Target(n, Layout(n, Group(Base(st.lock))), sym.value));
    }
  }

  // One event keeps console and XKB together exactly when it does not miss, if the modifiers that XKB
  // goes by are those of the console.
  lemma StepMatchesIff(x: Xkb, s: Uint32, v: Tables, st: State, g: Groups, down: set<Uint32>, e: Event, mods: nat)
    requires Suitable(x, s) && Follows(x, s, v) && SwitchOk(x, s, st, down) && Matches(x, s, st, g)
    requires InRange(x, e.key) && (e.pressed <==> e.key !in down) && mods == Table(st) % 16
    ensures Matches(x, s, Step(v, st, e), XkbStep(x, g, e, mods)) <==> !Misses(x, st, e)
  {
    hide Follows, Resolve, SelectGroup, Layout, Group, Lookup, Act, Table, Base, InRange, Target, Sound, Carries,
         PlainCodes, Enumerated, States, HasSwitch, Effective, Selected, NextGroup, Step;
    StepEffect(x, s, v, st, down, e);
    HolderSwitches(x, s, st, e);
    SameEffective(x, s, st, g);
    match EffectOf(x, s, st, e)
    case Nothing =>
      if e.pressed {
        NothingSelected(x, s, st, e);
      }
    case Switches =>
      ActSwitch(st, e.pressed);
    case Locks(code) =>
      ActLock(st, code);
      LockMatches(x, st, e, code);
  }

  // ---------------------------------------------------------------- whole runs

  predicate AllInRange(x: Xkb, run: seq<Event>) {
    forall e | e in run :: InRange(x, e.key)
  }

  // Console and XKB are in step: the locked groups and the switch agree, and the table that keys are
  // looked up in is the one made for XKB's effective group.
  ghost predicate InStep(x: Xkb, s: Uint32, st: State, g: Groups)
    requires 1 <= x.numLayouts <= NR_LAYOUTS
  {
    var t := Table(st);
    Matches(x, s, st, g) && Enumerated(x, t) && Selected(x, t / 128 == 1, t / 16 % 8) == Effective(x, g)
  }

  lemma InStepIff(x: Xkb, s: Uint32, st: State, g: Groups, down: set<Uint32>)
    requires 1 <= x.numLayouts <= NR_LAYOUTS && SwitchOk(x, s, st, down)
    ensures InStep(x, s, st, g) <==> Matches(x, s, st, g)
  {
    hide Layout, Group, Base, Enumerated, Table;
    if Matches(x, s, st, g) {
      TableUsed(x, s, st, down);
      SameEffective(x, s, st, g);
    }
  }

  // They are in step before the first and after every event of the run, XKB's modifiers being mods[i]
  // at event i.
  ghost predicate Together(x: Xkb, s: Uint32, v: Tables, st: State, g: Groups, run: seq<Event>, mods: seq<nat>)
    requires 1 <= x.numLayouts <= NR_LAYOUTS && |mods| == |run|
    decreases |run|
  {
    && InStep(x, s, st, g)
    && (run == [] || Together(x, s, v, Step(v, st, run[0]), XkbStep(x, g, run[0], mods[0]), run[1..], mods[1..]))
  }

  // XKB's modifiers are those of the console, event by event.
  predicate SameMods(v: Tables, st: State, run: seq<Event>, mods: seq<nat>)
    requires |mods| == |run|
    decreases |run|
  {
    run == [] || (mods[0] == Table(st) % 16 && SameMods(v, Step(v, st, run[0]), run[1..], mods[1..]))
  }

  // Event by event: they are the modifier bits of the table used after the events before it.
  lemma {:induction false} SameModsIff(v: Tables, st: State, run: seq<Event>, mods: seq<nat>)
    requires |mods| == |run|
    ensures SameMods(v, st, run, mods) <==> forall i | 0 <= i < |run| :: mods[i] == Table(Run(v, st, run[..i])) % 16
    decreases |run|
  {
    hide Table, Step;
    if run != [] {
      SameModsIff(v, Step(v, st, run[0]), run[1..], mods[1..]);
      assert run[..0] == [];
      forall i | 0 < i < |run|
        ensures Run(v, st, run[..i]) == Run(v, Step(v, st, run[0]), run[1..][..i - 1]) && mods[i] == mods[1..][i - 1]
      {
        assert run[..i][1..] == run[1..][..i - 1];
      }
      assert forall i | 0 <= i < |run[1..]| :: mods[1..][i] == mods[i + 1] && run[1..][..i] == run[1..][..i + 1 - 1];
    }
  }

  // No event of the run misses.
  predicate GoodRun(x: Xkb, v: Tables, st: State, run: seq<Event>)
    requires 1 <= x.numLayouts <= NR_LAYOUTS
    decreases |run|
  {
    run == [] || (!Misses(x, st, run[0]) && GoodRun(x, v, Step(v, st, run[0]), run[1..]))
  }

  // Some level of the key holds a symbol that moves the group in a way of its own.
  ghost predicate CarriesOther(x: Xkb, key: nat) {
    exists id :: Carries(x, key, {OtherGroup(id)})
  }

  // With three layouts the key never means Next; and it never moves the group in a way of its own.
  ghost predicate Harmless(x: Xkb, k: Uint32) {
    && (x.numLayouts == 3 ==> !Carries(x, k + EVDEV_OFFSET, {NextSym}))
    && !CarriesOther(x, k + EVDEV_OFFSET)
  }

  lemma HarmlessHits(x: Xkb, st: State, e: Event)
    requires 1 <= x.numLayouts <= NR_LAYOUTS && Sound(x) && Harmless(x, e.key)
    ensures !Misses(x, st, e)
  {
    hide Carries, Selected, Table, Base, Layout, Group, Resolve, Sound;
    var key, selected, mods := e.key + EVDEV_OFFSET, Selected(x, st.shift[7], Base(st.lock)), Table(st) % 16;
    var sym := Resolve(x, key, selected, mods);
    if sym.Some? {
      ResolvedCarried(x, key, selected, mods, {sym.value});
    }
  }

  // Words of such keys only, whatever the console does with them.
  lemma {:induction false} HarmlessRun(x: Xkb, v: Tables, st: State, run: seq<Event>)
    requires 1 <= x.numLayouts <= NR_LAYOUTS && Sound(x) && forall e | e in run :: Harmless(x, e.key)
    ensures GoodRun(x, v, st, run)
    decreases |run|
  {
    hide Step, Misses, Harmless, Sound;
    if run != [] {
      assert run[0] in run && forall e | e in run[1..] :: e in run;
      HarmlessHits(x, st, run[0]);
      HarmlessRun(x, v, Step(v, st, run[0]), run[1..]);
    }
  }

  // Along any run the console tracks XKB's groups exactly if no event misses.
  lemma {:induction false} TogetherIff(x: Xkb, s: Uint32, v: Tables, st: State, g: Groups, down: set<Uint32>,
                                       run: seq<Event>, mods: seq<nat>)
    requires Suitable(x, s) && Follows(x, s, v) && SwitchOk(x, s, st, down) && Matches(x, s, st, g)
    requires Alternating(down, run) && AllInRange(x, run)
    requires |mods| == |run| && SameMods(v, st, run, mods)
    ensures Together(x, s, v, st, g, run, mods) <==> GoodRun(x, v, st, run)
    decreases |run|
  {
    hide Follows, SwitchOk, Matches, InRange, Sound, PlainCodes, OneSwitch, Misses, Step, XkbStep, Table, InStep;
    InStepIff(x, s, st, g, down);
    if run != [] {
      var e, st', g' := run[0], Step(v, st, run[0]), XkbStep(x, g, run[0], mods[0]);
      assert e in run && forall a | a in run[1..] :: a in run;
      StepSwitchOk(x, s, v, st, down, e);
      StepMatchesIff(x, s, v, st, g, down, e, mods[0]);
      InStepIff(x, s, st', g', Held(down, e));
      if !Misses(x, st, e) {
        TogetherIff(x, s, v, st', g', Held(down, e), run[1..], mods[1..]);
      } else {
        assert !Together(x, s, v, st', g', run[1..], mods[1..]);
      }
    }
  }

  // The momentary switch always releases: after any run CtrlR is set only if the switch key is down,
  // whatever was pressed, released and locked in between; and the keys are looked up in a table of the
  // group and switch states that the walk goes through.
  lemma {:induction false} SwitchReleases(x: Xkb, s: Uint32, v: Tables, st: State, down: set<Uint32>, run: seq<Event>)
    requires Suitable(x, s) && Follows(x, s, v) && SwitchOk(x, s, st, down)
    requires Alternating(down, run) && AllInRange(x, run)
    ensures SwitchOk(x, s, Run(v, st, run), HeldAfter(down, run))
    ensures Run(v, st, run).shift[7] ==> s in HeldAfter(down, run)
    ensures Enumerated(x, Table(Run(v, st, run)))
    decreases |run|
  {
    hide Follows, InRange, Sound, PlainCodes, OneSwitch, Step, Table, Enumerated, States, HasSwitch, Suitable;
    if run != [] {
      var e := run[0];
      assert e in run && forall a | a in run[1..] :: a in run;
      StepSwitchOk(x, s, v, st, down, e);
      SwitchReleases(x, s, v, Step(v, st, e), Held(down, e), run[1..]);
    } else {
      TableUsed(x, s, st, down);
    }
  }

  // Every lookup of the run finds its table.
  predicate TablesThere(v: Tables, st: State, run: seq<Event>)
    decreases |run|
  {
    run == [] || (Table(st) in v && TablesThere(v, Step(v, st, run[0]), run[1..]))
  }

  // Every table the walk goes through was made.
  ghost predicate AllMade(x: Xkb, v: Tables) {
    forall t | Enumerated(x, t) :: t in v
  }

  // Then that is so over any run.
  lemma {:induction false} AllTablesThere(x: Xkb, s: Uint32, v: Tables, st: State, down: set<Uint32>, run: seq<Event>)
    requires Suitable(x, s) && Follows(x, s, v) && SwitchOk(x, s, st, down)
    requires Alternating(down, run) && AllInRange(x, run) && AllMade(x, v)
    ensures TablesThere(v, st, run)
    decreases |run|
  {
    hide Follows, InRange, Sound, PlainCodes, OneSwitch, Step, Table, Enumerated, SwitchOk, Suitable;
    if run != [] {
      var e := run[0];
      assert e in run && forall a | a in run[1..] :: a in run;
      TableUsed(x, s, st, down);
      StepSwitchOk(x, s, v, st, down, e);
      AllTablesThere(x, s, v, Step(v, st, e), Held(down, e), run[1..]);
    }
  }

  // A table is made exactly if some key is bound in it.
  lemma TableMadeIff(x: Xkb, t: Uint32)
    requires 1 <= x.numLayouts <= NR_LAYOUTS
    ensures t in WalkTo(map[], x, Highest(x) + 1) <==> Enumerated(x, t) && SomeBound(x, Highest(x) + 1, t)
  {
    WalkAt(map[], x, Highest(x) + 1, t, 0);
  }

  // No modifier is down, and of the group bits only those of a locked group are locked.
  ghost predicate AtRest(x: Xkb, st: State) {
    Rests(st) && !st.lock[7] && !st.lock[8] && (st.lock[6] ==> States(x) == 8)
  }

  // XKB with the same group locked.
  function SameGroup(x: Xkb, st: State): Groups
    requires 1 <= x.numLayouts <= NR_LAYOUTS
  {
    Groups(Layout(x.numLayouts, Group(Base(st.lock))), None)
  }

  lemma StartsMatching(x: Xkb, s: Uint32, st: State)
    requires 1 <= x.numLayouts <= NR_LAYOUTS && AtRest(x, st)
    ensures SwitchOk(x, s, st, {}) && Matches(x, s, st, SameGroup(x, st))
  {
    hide States;
  }

  // The main result for the keymaps xkeymap_walk makes and a console at rest in any group, XKB going by
  // the console's modifiers.
  lemma ConsoleFollowsXkb(x: Xkb, s: Uint32, v: Tables, st: State, run: seq<Event>, mods: seq<nat>)
    requires Suitable(x, s) && AllCalm(v) && AtRest(x, st) && Alternating({}, run) && AllInRange(x, run)
    requires |mods| == |run| && SameMods(WalkTo(v, x, Highest(x) + 1), st, run, mods)
    ensures var w := WalkTo(v, x, Highest(x) + 1);
            && (Together(x, s, w, st, SameGroup(x, st), run, mods) <==> GoodRun(x, w, st, run))
            && ((forall e | e in run :: Harmless(x, e.key)) ==> Together(x, s, w, st, SameGroup(x, st), run, mods))
            && (Run(w, st, run).shift[7] ==> s in HeldAfter({}, run))
            && Enumerated(x, Table(Run(w, st, run)))
  {
    hide Follows, InRange, Sound, PlainCodes, OneSwitch, WalkTo, Enumerated, Matches, SwitchOk, Harmless;
    WalkFollows(x, s, v);
    StartsMatching(x, s, st);
    var w := WalkTo(v, x, Highest(x) + 1);
    TogetherIff(x, s, w, st, SameGroup(x, st), {}, run, mods);
    SwitchReleases(x, s, w, st, {}, run);
    if forall e | e in run :: Harmless(x, e.key) {
      HarmlessRun(x, w, st, run);
    }
  }
}
