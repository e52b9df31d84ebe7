/**
  XKB with modifiers of its own beside the console: no table number is shared, and still the table that
  the console looks keys up in is always the one for XKB's effective group and XKB's modifiers.
 */
module ModifierSimulation {
  import opened Bytes
  import opened Keymaps
  import opened XkbWalk
  import opened Console
  import opened GroupSimulation
  import opened ReleaseBindings

  // ---------------------------------------------------------------- XKB's own modifiers

  // Keys down that hold a modifier, and which: 0 for Shift, 1 for AltGr, 2 for Ctrl, 3 for Alt.
  type Holders = map<Uint32, nat>

  function ModNumber(h: Holders): nat {
    N(0 in h.Values) + 2 * N(1 in h.Values) + 4 * N(2 in h.Values) + 8 * N(3 in h.Values)
  }

  // A press holds the modifier of the symbol it has in XKB's group and modifiers; a release lets go of it.
  function HoldStep(x: Xkb, g: Groups, h: Holders, e: Event): Holders
    requires x.numLayouts >= 1
  {
    if !e.pressed then h - {e.key}
    else
      var sym := Resolve(x, e.key + EVDEV_OFFSET, Effective(x, g), ModNumber(h));
      if sym == None || x.holds(sym.value) == None then h else h[e.key := x.holds(sym.value).value]
  }

  ghost function HeldFor(h: Holders, value: nat): set<Uint32> {
    set k | k in h && h[k] == value
  }

  // The console does not lock the modifier, and counts it once for each key that XKB has it from.
  ghost predicate SameCount(st: State, h: Holders, value: nat)
    requires value < 4
  {
    !st.lock[value] && st.down[value] == |HeldFor(h, value)| && (st.shift[value] <==> st.down[value] > 0)
  }

  ghost predicate SameCounts(st: State, h: Holders) {
    forall value: nat | value < 4 :: SameCount(st, h, value)
  }

  // Before the first and after every event the groups are in step, and the console's modifiers are XKB's:
  // the counts, and so the bits.
  ghost predicate InStepThroughout(x: Xkb, s: Uint32, v: Tables, st: State, g: Groups, h: Holders, run: seq<Event>)
    requires 1 <= x.numLayouts <= NR_LAYOUTS
    decreases |run|
  {
    && InStep(x, s, st, g) && SameCounts(st, h) && Table(st) % 16 == ModNumber(h)
    && (run == [] || InStepThroughout(x, s, v, Step(v, st, run[0]), XkbStep(x, g, run[0], ModNumber(h)),
                                      HoldStep(x, g, h, run[0]), run[1..]))
  }

  // ---------------------------------------------------------------- keymaps that follow the modifiers

  predicate LowLock(code: int) {
    Ktyp(code) == KT_LOCK && Kval(code) < 4
  }

  // The modifier XKB sets by a key in the group and modifiers of table t.
  function ModAt(x: Xkb, t: Uint32, k: Uint32): Option<nat>
    requires 1 <= x.numLayouts <= NR_LAYOUTS
  {
    var sym := Resolve(x, k + EVDEV_OFFSET, Selected(x, t / 128 == 1, t / 16 % 8), t % 16);
    if sym == None then None else x.holds(sym.value)
  }

  // A press of the key in this table holds on the console what it holds in XKB.
  ghost predicate PressFits(x: Xkb, v: Tables, t: Uint32, k: Uint32)
    requires 1 <= x.numLayouts <= NR_LAYOUTS
  {
    && !LowLock(Lookup(v, t, k))
    && (forall value: nat | value < 4 :: Shifts(Lookup(v, t, k), value) <==> ModAt(x, t, k) == Some(value))
  }

  // A release of the key takes from the console what it takes from XKB.
  ghost predicate ReleaseFits(v: Tables, st: State, h: Holders, k: Uint32) {
    forall value: nat | value < 4 ::
      Shifts(Lookup(v, Table(st), k), value) && st.down[value] > 0 <==> k in h && h[k] == value
  }

  ghost predicate Fits(x: Xkb, v: Tables, st: State, h: Holders, e: Event)
    requires 1 <= x.numLayouts <= NR_LAYOUTS
  {
    if e.pressed then PressFits(x, v, Table(st), e.key) else ReleaseFits(v, st, h, e.key)
  }

  // HoldStep, by the group and modifiers of table t.
  function HoldAt(x: Xkb, h: Holders, t: Uint32, e: Event): Holders
    requires 1 <= x.numLayouts <= NR_LAYOUTS
  {
    if !e.pressed then h - {e.key}
    else if ModAt(x, t, e.key) == None then h
    else h[e.key := ModAt(x, t, e.key).value]
  }

  ghost predicate AllFit(x: Xkb, v: Tables, st: State, h: Holders, run: seq<Event>)
    requires 1 <= x.numLayouts <= NR_LAYOUTS
    decreases |run|
  {
    run == []
    || (Fits(x, v, st, h, run[0]) && AllFit(x, v, Step(v, st, run[0]), HoldAt(x, h, Table(st), run[0]), run[1..]))
  }

  ghost predicate PressesFit(x: Xkb, v: Tables, st: State, run: seq<Event>)
    requires 1 <= x.numLayouts <= NR_LAYOUTS
    decreases |run|
  {
    run == []
    || ((run[0].pressed ==> PressFits(x, v, Table(st), run[0].key)) && PressesFit(x, v, Step(v, st, run[0]), run[1..]))
  }

  // A key that is one of the four modifiers in some table is it in all tables.
  ghost predicate AllSteady(v: Tables, k: Uint32) {
    forall value: nat | value < 4 :: Steady(v, k, value)
  }

  predicate GroupSym(sym: Sym) {
    sym == SwitchSym || sym == NextSym || sym in SELECT_SYMS
  }

  // The code table gives the symbol the modifier that XKB gives it.  (It does not for ISO_Level2_Latch, a
  // latch to XKB and Shift to the console.)
  ghost predicate SameModifier(x: Xkb, sym: Sym) {
    if GroupSym(sym) then x.holds(sym) == None
    else if x.code(sym) == None then x.holds(sym).Some? ==> x.holds(sym).value >= 4
    else
      var code := Reserve(x.code(sym).value);
      !LowLock(code) && forall value: nat | value < 4 :: Shifts(code, value) <==> x.holds(sym) == Some(value)
  }

  ghost predicate SameModifiers(x: Xkb, k: Uint32) {
    forall sym | Carries(x, k + EVDEV_OFFSET, {sym}) :: SameModifier(x, sym)
  }

  // Characters are converted to characters.
  ghost predicate ConvertsPlainly(x: Xkb) {
    forall c: Code | c < 0x100 :: Ktyp(x.convert(c)) != KT_SHIFT && Ktyp(x.convert(c)) != KT_LOCK
  }

  predicate NoModifierCode(code: int) {
    Ktyp(code) != KT_SHIFT && Ktyp(code) != KT_LOCK
  }

  lemma CapslockKeeps(x: Xkb, sym: Sym, code: Ushort)
    requires ConvertsPlainly(x)
    ensures Capslock(x, sym, code) == code || (NoModifierCode(code) && NoModifierCode(Capslock(x, sym, code)))
  {
  }

  lemma ModifiersKeep(x: Xkb, key: nat, selected: nat, mods: nat, code: Ushort)
    ensures var c := ApplyModifiers(x, key, selected, mods, code);
            c == code || (NoModifierCode(code) && NoModifierCode(c))
  {
    hide HasMod;
  }

  // Cooking a code leaves a modifier as it is and makes none.
  lemma CookedModifier(x: Xkb, key: nat, selected: nat, mods: nat, sym: Sym, code: Ushort, value: nat)
    requires ConvertsPlainly(x)
    ensures var c := ApplyModifiers(x, key, selected, mods, Capslock(x, sym, code));
            (Shifts(c, value) <==> Shifts(code, value)) && (LowLock(c) <==> LowLock(code))
  {
    hide Capslock, ApplyModifiers, ConvertsPlainly;
    CapslockKeeps(x, sym, code);
    ModifiersKeep(x, key, selected, mods, Capslock(x, sym, code));
  }

  lemma GroupCodesHoldNothing(n: nat, group: nat, target: nat, value: nat)
    requires 1 <= n <= NR_LAYOUTS && group < 4 && value < 4
    ensures !LowLock(NextGroup(group)) && !Shifts(NextGroup(group), value)
    ensures var code := SelectGroup(n, group, target); !LowLock(code) && !Shifts(code, value)
    ensures !LowLock(-1) && !Shifts(-1, value) && !LowLock(K_HOLE) && !Shifts(K_HOLE, value)
    ensures !LowLock(K_CTRLR) && !Shifts(K_CTRLR, value)
  {
    SelectCodes(n, group, target);
  }

  lemma BindingHolds(x: Xkb, s: Uint32, t: Uint32, k: Uint32, value: nat)
    requires Suitable(x, s) && ConvertsPlainly(x) && SameModifiers(x, k)
    requires Enumerated(x, t) && InRange(x, k) && value < 4
    ensures var b := BindingAt(x, t, k);
            && (b.Some? ==> !LowLock(b.value))
            && (!(t / 128 == 1 && k == s) ==>
                  (b.Some? && Shifts(b.value, value) <==> ModAt(x, t, k) == Some(value)))
  {
    hide Carries, Sound, PlainCodes, Enumerated, InRange, Resolve, Selected, SelectGroup, NextGroup, Layout, Group,
         ApplyModifiers, Capslock, Reserve, Target, Shifts, LowLock, ConvertsPlainly, Ktyp, K;
    var held, base, key, mods := t / 128 == 1, t / 16 % 8, k + EVDEV_OFFSET, t % 16;
    var n, group, selected := x.numLayouts, Group(base), Selected(x, held, base);
    var sym := Resolve(x, key, selected, mods);
    GroupCodesHoldNothing(n, group, 0, value);
    BindingFollows(x, s, t, k);
    if sym.Some? {
      ResolvedCarried(x, key, selected, mods, {sym.value});
      assert SameModifier(x, sym.value);
      GroupCodesHoldNothing(n, group, Target(n, Layout(n, group), sym.value), value);
      if x.code(sym.value).Some? {
        CookedModifier(x, key, selected, mods, sym.value, Reserve(x.code(sym.value).value), value);
      }
    }
  }

  // No key of the keymaps is a modifier or a lock.
  ghost predicate NoModifierKeys(v: Tables) {
    forall t, k :: NoModifierCode(Lookup(v, t, k))
  }

  lemma NoModifierKeysCalm(v: Tables)
    requires NoModifierKeys(v)
    ensures AllCalm(v)
  {
    hide Lookup;
  }

  lemma WalkHoldsValue(x: Xkb, s: Uint32, v: Tables, t: Uint32, k: Uint32, value: nat)
    requires Suitable(x, s) && ConvertsPlainly(x) && SameModifiers(x, k) && NoModifierKeys(v)
    requires Enumerated(x, t) && InRange(x, k) && value < 4
    ensures var code := Lookup(WalkTo(v, x, Highest(x) + 1), t, k);
            !LowLock(code) && (!(t / 128 == 1 && k == s) ==> (Shifts(code, value) <==> ModAt(x, t, k) == Some(value)))
  {
    hide WalkTo, CodeAt, Lookup, Enumerated, Sound, PlainCodes, OneSwitch, ModAt, BindingAt, Shifts, LowLock,
         SameModifiers, ConvertsPlainly, Ktyp;
    var w := WalkTo(v, x, Highest(x) + 1);
    WalkAt(v, x, Highest(x) + 1, t, k);
    LookupOf(w, t, k);
    LookupOf(v, t, k);
    BindingHolds(x, s, t, k, value);
    GroupCodesHoldNothing(1, 0, 0, value);
    NoModifierHolds(Lookup(v, t, k), value);
  }

  // After xkeymap_walk a key that is pressed holds on the console what it holds in XKB.
  lemma WalkHolds(x: Xkb, s: Uint32, v: Tables, t: Uint32, k: Uint32)
    requires Suitable(x, s) && ConvertsPlainly(x) && SameModifiers(x, k) && NoModifierKeys(v)
    requires Enumerated(x, t) && InRange(x, k)
    requires !(t / 128 == 1 && k == s)
    ensures PressFits(x, WalkTo(v, x, Highest(x) + 1), t, k)
  {
    hide WalkTo, Lookup, Sound, PlainCodes, OneSwitch, Enumerated, ModAt, Shifts, LowLock, SameModifiers,
         ConvertsPlainly, NoModifierKeys;
    WalkHoldsValue(x, s, v, t, k, 0);
    forall value: nat | value < 4
      ensures Shifts(Lookup(WalkTo(v, x, Highest(x) + 1), t, k), value) <==> ModAt(x, t, k) == Some(value)
    {
      WalkHoldsValue(x, s, v, t, k, value);
    }
  }

  lemma NoModifierHolds(code: int, value: nat)
    requires NoModifierCode(code)
    ensures !LowLock(code) && !Shifts(code, value)
  {
  }

  // ---------------------------------------------------------------- one step

  lemma BitHeld(st: State, h: Holders, value: nat)
    requires value < 4 && SameCount(st, h, value)
    ensures st.shift[value] <==> value in h.Values
  {
    if value in h.Values {
      var k :| k in h && h[k] == value;
      assert k in HeldFor(h, value);
    }
    if st.shift[value] {
      assert HeldFor(h, value) != {};
      var k :| k in HeldFor(h, value);
      assert h[k] == value;
    }
  }

  // XKB's modifiers are the low bits of the table number.
  lemma SameNumber(st: State, h: Holders)
    requires SameCounts(st, h)
    ensures Table(st) % 16 == ModNumber(h)
  {
    hide Table, HeldFor;
    assert SameCount(st, h, 0) && SameCount(st, h, 1) && SameCount(st, h, 2) && SameCount(st, h, 3);
    BitHeld(st, h, 0);
    BitHeld(st, h, 1);
    BitHeld(st, h, 2);
    BitHeld(st, h, 3);
    LowBits(st);
  }

  lemma LowBits(st: State)
    requires !st.lock[0] && !st.lock[1] && !st.lock[2] && !st.lock[3]
    ensures Table(st) % 16 == N(st.shift[0]) + 2 * N(st.shift[1]) + 4 * N(st.shift[2]) + 8 * N(st.shift[3])
  {
    var xs := Xor(st.shift, st.lock);
    var rest := N(xs[4]) + 2 * N(xs[5]) + 4 * N(xs[6]) + 8 * N(xs[7]) + 16 * N(xs[8]);
    assert xs[..4] == st.shift[..4];
    LowDigit(N(xs[..4][0]) + 2 * N(xs[..4][1]) + 4 * N(xs[..4][2]) + 8 * N(xs[..4][3]), rest, Table(st));
  }

  lemma LowDigit(low: nat, rest: nat, t: nat)
    requires low < 16 && t == low + 16 * rest
    ensures t % 16 == low
  {
  }

  // The symbol XKB has for a key is the one of the table in use.
  lemma SameHoldStep(x: Xkb, s: Uint32, st: State, g: Groups, h: Holders, e: Event)
    requires 1 <= x.numLayouts <= NR_LAYOUTS && InStep(x, s, st, g) && SameCounts(st, h)
    ensures HoldStep(x, g, h, e) == HoldAt(x, h, Table(st), e)
  {
    hide SameCount, Table, Resolve, Selected, Effective, Matches, Enumerated, ModNumber;
    SameNumber(st, h);
  }

  lemma OneMoreHolds(h: Holders, k: Uint32, m: nat, value: nat)
    requires k !in h
    ensures |HeldFor(h[k := m], value)| == |HeldFor(h, value)| + N(m == value)
  {
    if m == value {
      assert HeldFor(h[k := m], value) == HeldFor(h, value) + {k};
    } else {
      assert HeldFor(h[k := m], value) == HeldFor(h, value);
    }
  }

  lemma OneLessHolds(h: Holders, k: Uint32, value: nat)
    ensures |HeldFor(h - {k}, value)| == |HeldFor(h, value)| - N(k in h && h[k] == value)
  {
    if k in h && h[k] == value {
      assert HeldFor(h, value) == HeldFor(h - {k}, value) + {k};
    } else {
      assert HeldFor(h - {k}, value) == HeldFor(h, value);
    }
  }

  // A press keeps the counts of one modifier equal exactly when console and XKB agree on whether the key
  // is that modifier, and it is no lock of it.
  lemma PressCount(st: State, h: Holders, code: int, k: Uint32, m: Option<nat>, value: nat)
    requires value < 4 && SameCount(st, h, value) && k !in h
    ensures SameCount(Act(st, code, true), if m == None then h else h[k := m.value], value) <==>
              !(Ktyp(code) == KT_LOCK && Kval(code) == value) && (Shifts(code, value) <==> m == Some(value))
  {
    hide HeldFor, Ktyp, Kval;
    if m.Some? {
      OneMoreHolds(h, k, m.value, value);
    }
  }

  lemma ReleaseCount(st: State, h: Holders, code: int, k: Uint32, value: nat)
    requires value < 4 && SameCount(st, h, value)
    ensures SameCount(Act(st, code, false), h - {k}, value) <==>
              (Shifts(code, value) && st.down[value] > 0 <==> k in h && h[k] == value)
  {
    hide HeldFor, Ktyp, Kval;
    OneLessHolds(h, k, value);
  }

  // One event keeps all counts equal exactly when it fits.
  lemma StepFitsIff(x: Xkb, v: Tables, st: State, h: Holders, e: Event)
    requires 1 <= x.numLayouts <= NR_LAYOUTS && SameCounts(st, h) && (e.pressed ==> e.key !in h)
    ensures SameCounts(Step(v, st, e), HoldAt(x, h, Table(st), e)) <==> Fits(x, v, st, h, e)
  {
    hide SameCount, Table, Lookup, ModAt, Shifts, Ktyp, Act;
    var code, m := Lookup(v, Table(st), e.key), ModAt(x, Table(st), e.key);
    var st', h' := Step(v, st, e), HoldAt(x, h, Table(st), e);
    forall value: nat | value < 4
      ensures SameCount(st', h', value) <==>
                if e.pressed
                then !(Ktyp(code) == KT_LOCK && Kval(code) == value) && (Shifts(code, value) <==> m == Some(value))
                else Shifts(code, value) && st.down[value] > 0 <==> e.key in h && h[e.key] == value
    {
      assert SameCount(st, h, value);
      if e.pressed {
        PressCount(st, h, code, e.key, m, value);
      } else {
        ReleaseCount(st, h, code, e.key, value);
      }
    }
    if SameCounts(st', h') && LowLock(code) {
      assert SameCount(st', h', Kval(code));
    }
  }

  // ---------------------------------------------------------------- whole runs

  // Along any run console and XKB, each with its own modifiers, stay in step exactly if no event misses
  // and all events fit.
  lemma {:induction false} InStepThroughoutIff(x: Xkb, s: Uint32, v: Tables, st: State, g: Groups, h: Holders,
                                               down: set<Uint32>, run: seq<Event>)
    requires Suitable(x, s) && Follows(x, s, v) && SwitchOk(x, s, st, down) && Matches(x, s, st, g)
    requires SameCounts(st, h) && h.Keys <= down && Alternating(down, run) && AllInRange(x, run)
    ensures InStepThroughout(x, s, v, st, g, h, run) <==> GoodRun(x, v, st, run) && AllFit(x, v, st, h, run)
    decreases |run|
  {
    hide Follows, SwitchOk, Matches, InRange, Sound, PlainCodes, OneSwitch, Misses, Step, XkbStep, Table, InStep,
         SameCounts, HoldStep, ModNumber, Fits, ModAt;
    InStepIff(x, s, st, g, down);
    SameNumber(st, h);
    if run != [] {
      var e, mods := run[0], ModNumber(h);
      var st', g', h' := Step(v, st, e), XkbStep(x, g, e, mods), HoldStep(x, g, h, e);
      assert e in run && forall a | a in run[1..] :: a in run;
      StepSwitchOk(x, s, v, st, down, e);
      StepMatchesIff(x, s, v, st, g, down, e, mods);
      InStepIff(x, s, st', g', Held(down, e));
      SameHoldStep(x, s, st, g, h, e);
      StepFitsIff(x, v, st, h, e);
      if !Misses(x, st, e) && Fits(x, v, st, h, e) {
        InStepThroughoutIff(x, s, v, st', g', h', Held(down, e), run[1..]);
      } else {
        assert !InStepThroughout(x, s, v, st', g', h', run[1..]);
      }
    }
  }

  // The keys down that carry a modifier are those that XKB has it from.
  ghost predicate Linked(v: Tables, h: Holders, down: set<Uint32>) {
    && h.Keys <= down
    && (forall k, value: nat | k in down && value < 4 :: IsModifier(v, k, value) <==> k in h && h[k] == value)
  }

  ghost predicate FindsTables(v: Tables, st: State, run: seq<Event>) {
    forall value: nat | value < 4 :: TablesFor(v, st, run, value)
  }

  lemma SteadyThere(v: Tables, t: Uint32, k: Uint32, value: nat)
    requires Steady(v, k, value) && (IsModifier(v, k, value) ==> t in v)
    ensures IsModifier(v, k, value) <==> Shifts(Lookup(v, t, k), value)
  {
    hide IsModifier, OneModifier, Lookup, Ktyp, Kval;
    if IsModifier(v, k, value) {
      ModifierThere(v, t, k, value);
    } else {
      NoModifierThere(v, t, k, value);
    }
  }

  // What a key is wherever it is looked up.
  ghost predicate Settled(v: Tables, t: Uint32, k: Uint32) {
    forall value: nat | value < 4 :: IsModifier(v, k, value) <==> Shifts(Lookup(v, t, k), value)
  }

  lemma SettledThere(v: Tables, st: State, run: seq<Event>)
    requires run != [] && AllSteady(v, run[0].key) && FindsTables(v, st, run)
    ensures Settled(v, Table(st), run[0].key) && FindsTables(v, Step(v, st, run[0]), run[1..])
  {
    hide IsModifier, OneModifier, Lookup, Shifts, Table, Step, Steady;
    forall value: nat | value < 4
      ensures IsModifier(v, run[0].key, value) <==> Shifts(Lookup(v, Table(st), run[0].key), value)
      ensures TablesFor(v, Step(v, st, run[0]), run[1..], value)
    {
      assert TablesFor(v, st, run, value) && Steady(v, run[0].key, value);
      SteadyThere(v, Table(st), run[0].key, value);
    }
  }

  // Releases of keys that are the same modifier everywhere fit.
  lemma SettledRelease(v: Tables, st: State, h: Holders, down: set<Uint32>, k: Uint32)
    requires Settled(v, Table(st), k) && Linked(v, h, down) && SameCounts(st, h) && k in down
    ensures ReleaseFits(v, st, h, k)
  {
    hide IsModifier, Lookup, Shifts, Table;
    forall value: nat | value < 4
      ensures Shifts(Lookup(v, Table(st), k), value) && st.down[value] > 0 <==> k in h && h[k] == value
    {
      assert IsModifier(v, k, value) <==> Shifts(Lookup(v, Table(st), k), value);
      assert SameCount(st, h, value);
      if k in h && h[k] == value {
        assert k in HeldFor(h, value);
      }
    }
  }

  lemma StaysLinked(x: Xkb, v: Tables, t: Uint32, h: Holders, down: set<Uint32>, e: Event)
    requires 1 <= x.numLayouts <= NR_LAYOUTS && Settled(v, t, e.key) && Linked(v, h, down)
    requires (e.pressed <==> e.key !in down) && (e.pressed ==> PressFits(x, v, t, e.key))
    ensures Linked(v, HoldAt(x, h, t, e), Held(down, e))
  {
    hide IsModifier, Lookup, Shifts, ModAt, LowLock;
    if e.pressed {
      forall value: nat | value < 4
        ensures IsModifier(v, e.key, value) <==> ModAt(x, t, e.key) == Some(value)
      {
        assert Shifts(Lookup(v, t, e.key), value) <==> IsModifier(v, e.key, value);
      }
    }
  }

  // With keys that are one modifier or none wherever they are bound, all events fit if the presses do.
  lemma {:induction false} SteadyFitsIff(x: Xkb, v: Tables, st: State, h: Holders, down: set<Uint32>, run: seq<Event>)
    requires 1 <= x.numLayouts <= NR_LAYOUTS && SameCounts(st, h) && Linked(v, h, down) && Alternating(down, run)
    requires (forall e | e in run :: AllSteady(v, e.key)) && FindsTables(v, st, run)
    ensures AllFit(x, v, st, h, run) <==> PressesFit(x, v, st, run)
    decreases |run|
  {
    hide SameCounts, Linked, AllSteady, FindsTables, Settled, PressFits, ReleaseFits, Table, Step, HoldAt;
    if run != [] {
      var e := run[0];
      assert e in run && forall a | a in run[1..] :: a in run;
      SettledThere(v, st, run);
      if e.pressed {
        LinkedKeys(v, h, down);
      } else {
        SettledRelease(v, st, h, down, e.key);
      }
      if Fits(x, v, st, h, e) {
        StepFitsIff(x, v, st, h, e);
        StaysLinked(x, v, Table(st), h, down, e);
        SteadyFitsIff(x, v, Step(v, st, e), HoldAt(x, h, Table(st), e), Held(down, e), run[1..]);
      }
    }
  }

  lemma LinkedKeys(v: Tables, h: Holders, down: set<Uint32>)
    requires Linked(v, h, down)
    ensures h.Keys <= down
  {
  }

  // ---------------------------------------------------------------- from a console at rest

  // A console at rest in any group, no other bit locked.
  ghost predicate Clear(x: Xkb, st: State) {
    AtRest(x, st) && forall value: nat | value < 4 :: !st.lock[value]
  }

  lemma NothingHeld(x: Xkb, v: Tables, st: State)
    requires Clear(x, st)
    ensures SameCounts(st, map[]) && Linked(v, map[], {})
  {
    hide IsModifier;
    assert forall value: nat :: HeldFor(map[], value) == {};
  }

  ghost predicate AllPlain(x: Xkb, run: seq<Event>) {
    forall e | e in run :: SameModifiers(x, e.key)
  }

  // What makes presses fit: XKB and the code table agree on the modifiers of the run's keys, and nothing but
  // them makes a code a modifier.
  ghost predicate PlainRun(x: Xkb, v: Tables, run: seq<Event>) {
    ConvertsPlainly(x) && NoModifierKeys(v) && AllPlain(x, run)
  }

  ghost predicate AllKeysSteady(v: Tables, run: seq<Event>) {
    forall e | e in run :: AllSteady(v, e.key)
  }

  // From a console at rest: exactly, and for keys that are one modifier or none wherever they are bound.
  lemma RestInStepIff(x: Xkb, s: Uint32, v: Tables, st: State, run: seq<Event>)
    requires Suitable(x, s) && Follows(x, s, v) && Clear(x, st) && Alternating({}, run) && AllInRange(x, run)
    ensures InStepThroughout(x, s, v, st, SameGroup(x, st), map[], run) <==>
              GoodRun(x, v, st, run) && AllFit(x, v, st, map[], run)
    ensures AllKeysSteady(v, run) && FindsTables(v, st, run) ==>
              (AllFit(x, v, st, map[], run) <==> PressesFit(x, v, st, run))
    ensures (forall e | e in run :: Harmless(x, e.key)) ==> GoodRun(x, v, st, run)
    ensures AllMade(x, v) ==> FindsTables(v, st, run)
  {
    hide Follows, InRange, Sound, PlainCodes, OneSwitch, Enumerated, Matches, SwitchOk, Harmless, AllSteady, SameCounts,
         Linked, Alternating, GoodRun, InStepThroughout, AllFit, PressesFit, TablesFor, AllMade, TablesThere;
    StartsMatching(x, s, st);
    NothingHeld(x, v, st);
    InStepThroughoutIff(x, s, v, st, SameGroup(x, st), map[], {}, run);
    if AllKeysSteady(v, run) && FindsTables(v, st, run) {
      SteadyFitsIff(x, v, st, map[], {}, run);
    }
    if forall e | e in run :: Harmless(x, e.key) {
      HarmlessRun(x, v, st, run);
    }
    if AllMade(x, v) {
      AllTablesThere(x, s, v, st, {}, run);
      forall value: nat | value < 4
        ensures TablesFor(v, st, run, value)
      {
        ThereForAll(v, st, run, value);
      }
    }
  }

  // In the keymaps of the walk every press of a run fits.
  lemma {:induction false} WalkPressesFit(x: Xkb, s: Uint32, v: Tables, st: State, down: set<Uint32>, run: seq<Event>)
    requires Suitable(x, s) && ConvertsPlainly(x) && NoModifierKeys(v) && AllPlain(x, run)
    requires SwitchOk(x, s, st, down) && Alternating(down, run) && AllInRange(x, run)
    ensures PressesFit(x, WalkTo(v, x, Highest(x) + 1), st, run)
    decreases |run|
  {
    hide Follows, SwitchOk, InRange, Sound, PlainCodes, OneSwitch, WalkTo, Step, Table, Enumerated, ConvertsPlainly,
         NoModifierKeys, SameModifiers, PressFits;
    var w := WalkTo(v, x, Highest(x) + 1);
    if run != [] {
      var e := run[0];
      assert e in run && forall a | a in run[1..] :: a in run;
      NoModifierKeysCalm(v);
      WalkFollows(x, s, v);
      TableUsed(x, s, st, down);
      if e.pressed {
        NotSwitching(x, s, st, down, e.key);
        WalkHolds(x, s, v, Table(st), e.key);
      }
      StepSwitchOk(x, s, w, st, down, e);
      WalkPressesFit(x, s, v, Step(w, st, e), Held(down, e), run[1..]);
    }
  }

  lemma NotSwitching(x: Xkb, s: Uint32, st: State, down: set<Uint32>, k: Uint32)
    requires SwitchOk(x, s, st, down) && k !in down
    ensures !(Table(st) / 128 == 1 && k == s)
  {
    hide Table, HasSwitch, States;
    TableUsed(x, s, st, down);
  }

  // The main result for the keymaps xkeymap_walk makes: a console at rest in any group and XKB on its own
  // stay in step exactly if no event misses and all events fit.  With plain keys every press fits, so that
  // only a release can fail, and it cannot if they are one modifier or none in all tables.
  lemma WalkedInStepIff(x: Xkb, s: Uint32, v: Tables, st: State, run: seq<Event>)
    requires Suitable(x, s) && AllCalm(v) && Clear(x, st) && Alternating({}, run) && AllInRange(x, run)
    ensures var w, g := WalkTo(v, x, Highest(x) + 1), SameGroup(x, st);
            && (InStepThroughout(x, s, w, st, g, map[], run) <==>
                  GoodRun(x, w, st, run) && AllFit(x, w, st, map[], run))
            && (PlainRun(x, v, run) ==> PressesFit(x, w, st, run))
            && (PlainRun(x, v, run) && AllKeysSteady(w, run) && FindsTables(w, st, run) ==>
                  (InStepThroughout(x, s, w, st, g, map[], run) <==> GoodRun(x, w, st, run)))
            && (PlainRun(x, v, run) && AllKeysSteady(w, run) && AllMade(x, w)
                && (forall e | e in run :: Harmless(x, e.key)) ==>
                  InStepThroughout(x, s, w, st, g, map[], run))
  {
    hide Follows, InRange, Sound, PlainCodes, OneSwitch, WalkTo, Matches, SwitchOk, Harmless, ConvertsPlainly, AllPlain,
         NoModifierKeys, AllKeysSteady, FindsTables, Alternating, GoodRun, InStepThroughout, AllFit, PressesFit,
         AllMade, AllCalm;
    WalkFollows(x, s, v);
    StartsMatching(x, s, st);
    RestInStepIff(x, s, WalkTo(v, x, Highest(x) + 1), st, run);
    if PlainRun(x, v, run) {
      WalkPressesFit(x, s, v, st, {}, run);
    }
  }

  // ---------------------------------------------------------------- after the second pass

  // Only the pass has a code for the key here.
  predicate Mirrored(w: Tables, f: Tables, t: Uint32, k: Uint32) {
    Bound(f, t, k) && !Bound(w, t, k)
  }

  // A press fits after the pass exactly when it does not meet a mirrored code: XKB has no modifier there.
  lemma FilledPressFitsIff(x: Xkb, s: Uint32, v: Tables, t: Uint32, k: Uint32)
    requires Suitable(x, s) && ConvertsPlainly(x) && NoModifierKeys(v) && SameModifiers(x, k)
    requires SwitchLeft(x, s, WalkTo(v, x, Highest(x) + 1))
    requires Enumerated(x, t) && InRange(x, k) && !(t / 128 == 1 && k == s)
    ensures var w := WalkTo(v, x, Highest(x) + 1);
            var f := FillTo(w, NR_KEYS);
            PressFits(x, f, t, k) <==> !Mirrored(w, f, t, k)
  {
    hide WalkTo, FillTo, CodeAt, Lookup, Calm, Sound, PlainCodes, OneSwitch, Enumerated, ScanTo, AllCalm, InRange, Ktyp,
         Kval, K, Bound, LowLock, ModAt, SameModifiers, ConvertsPlainly, NoModifierKeys;
    var w := WalkTo(v, x, Highest(x) + 1);
    var f := FillTo(w, NR_KEYS);
    NoModifierKeysCalm(v);
    FillAt(w, NR_KEYS, t, k);
    WalkHolds(x, s, v, t, k);
    SameLookup(w, f, t, k);
    BoundIsCode(w, t, k);
    BoundIsCode(f, t, k);
    if Mirrored(w, f, t, k) {
      var c := Modifier(w, k).value;
      MirroredIsLow(x, s, v, t, k);
      LookupOf(f, t, k);
      LookupOf(w, t, k);
      GroupCodesHoldNothing(1, 0, 0, Kval(c));
      assert Shifts(Lookup(f, t, k), Kval(c)) && !Shifts(Lookup(w, t, k), Kval(c));
    }
  }

  lemma MirroredIsLow(x: Xkb, s: Uint32, v: Tables, t: Uint32, k: Uint32)
    requires Suitable(x, s) && AllCalm(v) && SwitchLeft(x, s, WalkTo(v, x, Highest(x) + 1))
    requires Enumerated(x, t) && InRange(x, k) && t in WalkTo(v, x, Highest(x) + 1)
    requires !Bound(WalkTo(v, x, Highest(x) + 1), t, k) && Modifier(WalkTo(v, x, Highest(x) + 1), k).Some?
    ensures var w := WalkTo(v, x, Highest(x) + 1);
            var c := Modifier(w, k).value;
            && Ktyp(c) == KT_SHIFT && 0 <= Kval(c) < 4 && IsModifier(w, k, Kval(c))
            && exists u: Uint32 :: u in w && CodeAt(w, u, k) == Some(c)
  {
    hide WalkTo, CodeAt, Calm, Sound, PlainCodes, OneSwitch, Enumerated, ScanTo, AllCalm, InRange, Ktyp, Kval, K, Bound;
    var w := WalkTo(v, x, Highest(x) + 1);
    var c := Modifier(w, k).value;
    ScanSeen(w, k, MAX_NR_KEYMAPS, c);
    var u: Uint32 :| u < MAX_NR_KEYMAPS && CodeAt(w, u, k) == Some(c);
    CodeOrigin(x, s, v, u, k);
    OutOfTable(w, u, k);
    if Calm(c) {
      CalmShift(c);
    }
  }

  lemma CalmShift(c: Code)
    requires Calm(c) && Ktyp(c) == KT_SHIFT
    ensures 0 <= Kval(c) < 4
  {
  }

  // The pass adds nothing for a key that is steady before it.
  lemma FillLeaves(x: Xkb, s: Uint32, v: Tables, t: Uint32, k: Uint32)
    requires Suitable(x, s) && AllCalm(v) && SwitchLeft(x, s, WalkTo(v, x, Highest(x) + 1))
    requires Enumerated(x, t) && InRange(x, k) && AllSteady(WalkTo(v, x, Highest(x) + 1), k)
    ensures var w := WalkTo(v, x, Highest(x) + 1); CodeAt(FillTo(w, NR_KEYS), t, k) == CodeAt(w, t, k)
  {
    hide WalkTo, FillTo, CodeAt, Sound, PlainCodes, OneSwitch, Enumerated, AllCalm, InRange, Ktyp, Kval, K, Steady,
         Bound, Modifier, IsModifier;
    var w := WalkTo(v, x, Highest(x) + 1);
    FillAt(w, NR_KEYS, t, k);
    BoundIsCode(w, t, k);
    if t in w && CodeAt(w, t, k) == None && Modifier(w, k).Some? {
      MirroredIsLow(x, s, v, t, k);
      var c := Modifier(w, k).value;
      var u: Uint32 :| u in w && CodeAt(w, u, k) == Some(c);
      assert Steady(w, k, Kval(c));
      SteadyCode(w, k, u, t);
      assert false;
    }
  }

  lemma SteadyCode(w: Tables, k: Uint32, u: Uint32, t: Uint32)
    requires u in w && t in w && CodeAt(w, u, k).Some? && Ktyp(CodeAt(w, u, k).value) == KT_SHIFT
    requires Steady(w, k, Kval(CodeAt(w, u, k).value))
    ensures CodeAt(w, t, k) == CodeAt(w, u, k)
  {
    hide CodeAt, Ktyp, Kval;
  }

  // No press of the run meets a mirrored code.
  predicate NoMirroredPress(w: Tables, f: Tables, st: State, run: seq<Event>)
    decreases |run|
  {
    run == []
    || ((run[0].pressed ==> !Mirrored(w, f, Table(st), run[0].key))
        && NoMirroredPress(w, f, Step(f, st, run[0]), run[1..]))
  }

  lemma {:induction false} FilledPressesFitIff(x: Xkb, s: Uint32, v: Tables, st: State, down: set<Uint32>,
                                               run: seq<Event>)
    requires Suitable(x, s) && ConvertsPlainly(x) && NoModifierKeys(v) && AllPlain(x, run)
    requires SwitchLeft(x, s, WalkTo(v, x, Highest(x) + 1))
    requires SwitchOk(x, s, st, down) && Alternating(down, run) && AllInRange(x, run)
    ensures var w := WalkTo(v, x, Highest(x) + 1);
            var f := FillTo(w, NR_KEYS);
            && (PressesFit(x, f, st, run) <==> NoMirroredPress(w, f, st, run))
            && (AllKeysSteady(w, run) ==> NoMirroredPress(w, f, st, run))
    decreases |run|
  {
    hide Follows, SwitchOk, InRange, Sound, PlainCodes, OneSwitch, WalkTo, FillTo, Step, Table, Enumerated,
         ConvertsPlainly, NoModifierKeys, SameModifiers, PressFits, AllSteady, SwitchLeft, CodeAt, Bound;
    var w := WalkTo(v, x, Highest(x) + 1);
    var f := FillTo(w, NR_KEYS);
    if run != [] {
      var e, t := run[0], Table(st);
      assert e in run && forall a | a in run[1..] :: a in run;
      NoModifierKeysCalm(v);
      FillFollowsIff(x, s, v);
      TableUsed(x, s, st, down);
      if e.pressed {
        NotSwitching(x, s, st, down, e.key);
        FilledPressFitsIff(x, s, v, t, e.key);
      }
      if AllSteady(w, e.key) {
        FillLeaves(x, s, v, t, e.key);
        BoundIsCode(w, t, e.key);
        BoundIsCode(f, t, e.key);
      }
      StepSwitchOk(x, s, f, st, down, e);
      FilledPressesFitIff(x, s, v, Step(f, st, e), Held(down, e), run[1..]);
    }
  }

  // Keys without another code, or an explicit hole, where they are a modifier are steady after the pass.
  lemma FilledSteady(x: Xkb, v: Tables, run: seq<Event>)
    requires 1 <= x.numLayouts <= NR_LAYOUTS && AllInRange(x, run) && forall t | t in v :: t < MAX_NR_KEYMAPS
    ensures var w := WalkTo(v, x, Highest(x) + 1);
            AllKeysSteady(FillTo(w, NR_KEYS), run) <==> forall value: nat | value < 4 :: Unrivalled(w, run, value)
  {
    hide WalkTo, FillTo, Steady, OnlyThat;
    var w := WalkTo(v, x, Highest(x) + 1);
    forall t: Uint32
      ensures t in w ==> t < MAX_NR_KEYMAPS
    {
      FilledTables(x, v, t);
    }
    forall e, value: nat | e in run && value < 4
      ensures Steady(FillTo(w, NR_KEYS), e.key, value) <==> OnlyThat(w, e.key, value)
    {
      FillSteadyIff(w, e.key, value);
    }
    if AllKeysSteady(FillTo(w, NR_KEYS), run) {
      forall e, value: nat | e in run && value < 4
        ensures OnlyThat(w, e.key, value)
      {
        assert AllSteady(FillTo(w, NR_KEYS), e.key);
      }
    } else {
      var e :| e in run && !AllSteady(FillTo(w, NR_KEYS), e.key);
      var value: nat :| value < 4 && !Steady(FillTo(w, NR_KEYS), e.key, value);
      assert !Unrivalled(w, run, value);
    }
  }

  // The main result for the keymaps after both passes.  Modifiers that the walk left out of some tables may
  // be pressed and released anywhere: what was pressed where it is bound is found again where only the
  // mirrored code is.  With plain keys that have no other codes XKB is left exactly by a press that meets a
  // mirrored code.
  lemma FilledInStepIff(x: Xkb, s: Uint32, v: Tables, st: State, run: seq<Event>)
    requires Suitable(x, s) && AllCalm(v) && SwitchLeft(x, s, WalkTo(v, x, Highest(x) + 1))
    requires Clear(x, st) && Alternating({}, run) && AllInRange(x, run) && forall t | t in v :: t < MAX_NR_KEYMAPS
    ensures var w, g := WalkTo(v, x, Highest(x) + 1), SameGroup(x, st);
            var f := FillTo(w, NR_KEYS);
            var unrivalled := forall value: nat | value < 4 :: Unrivalled(w, run, value);
            && (InStepThroughout(x, s, f, st, g, map[], run) <==>
                  GoodRun(x, f, st, run) && AllFit(x, f, st, map[], run))
            && (PlainRun(x, v, run) && unrivalled && FindsTables(f, st, run) ==>
                  (InStepThroughout(x, s, f, st, g, map[], run) <==>
                     GoodRun(x, f, st, run) && NoMirroredPress(w, f, st, run)))
            && (PlainRun(x, v, run) && AllKeysSteady(w, run) && AllMade(x, w)
                && (forall e | e in run :: Harmless(x, e.key)) ==>
                  InStepThroughout(x, s, f, st, g, map[], run))
  {
    hide Follows, InRange, Sound, PlainCodes, OneSwitch, WalkTo, FillTo, Matches, SwitchOk, Harmless, ConvertsPlainly,
         AllPlain, NoModifierKeys, AllKeysSteady, FindsTables, Alternating, GoodRun, InStepThroughout, AllFit,
         PressesFit, NoMirroredPress, Unrivalled, SwitchLeft, Enumerated, AllCalm;
    var w := WalkTo(v, x, Highest(x) + 1);
    var f := FillTo(w, NR_KEYS);
    FillFollowsIff(x, s, v);
    StartsMatching(x, s, st);
    RestInStepIff(x, s, f, st, run);
    if PlainRun(x, v, run) {
      FilledPressesFitIff(x, s, v, st, {}, run);
    }
    FilledSteady(x, v, run);
    SteadyUnrivalled(w, run);
    forall t: Uint32
      ensures t in f <==> t in w
    {
      FilledTables(x, v, t);
    }
  }

  lemma SteadyUnrivalled(w: Tables, run: seq<Event>)
    ensures AllKeysSteady(w, run) ==> forall value: nat | value < 4 :: Unrivalled(w, run, value)
  {
    hide CodeAt, Ktyp, Kval;
    forall e, value: nat | AllKeysSteady(w, run) && e in run && value < 4
      ensures OnlyThat(w, e.key, value)
    {
      assert AllSteady(w, e.key) && Steady(w, e.key, value);
    }
  }

  // An XKB keymap of two keys: 56 is Alt, and 42 is Shift, but nothing with Alt.
  function ShiftWithoutAlt(): Xkb {
    Xkb(1, 50, 64, _ => 1, (_, _) => 1,
        (key, _, _) => if key == 50 then Some(Other(0)) else if key == 64 then Some(Other(3)) else None,
        (_, _) => Some(0), (key, _, mods) => if key == 50 && mods >= 8 then None else Some(0),
        sym => if sym == SwitchSym then Some(K_CTRLR)
               else if sym == Other(0) then Some(K_SHIFT)
               else if sym == Other(3) then Some(K(KT_SHIFT, 3)) else None,
        _ => false, _ => 0, false, (_, _, _) => false, (_, _, _) => false, (_, _, _) => false, (_, _, _) => 0,
        (_, group) => group, sym => if sym == Other(0) then Some(0) else if sym == Other(3) then Some(3) else None)
  }

  lemma ShiftWithoutAltSuits()
    ensures var x := ShiftWithoutAlt();
            Suitable(x, 0) && ConvertsPlainly(x) && InRange(x, 42) && InRange(x, 56) && !InRange(x, 0)
  {
  }

  lemma ShiftWithoutAltSame()
    ensures SameModifiers(ShiftWithoutAlt(), 42) && SameModifiers(ShiftWithoutAlt(), 56)
  {
  }

  lemma ShiftWithoutAltTables(t: Uint32)
    ensures Enumerated(ShiftWithoutAlt(), t) <==> t < 64
  {
    var x := ShiftWithoutAlt();
    assert forall key: nat :: !Carries(x, key, {SwitchSym});
    assert !HasSwitch(x) && States(x) == 4;
  }

  lemma ShiftWithoutAltBinds(t: Uint32)
    requires t < 64
    ensures var x := ShiftWithoutAlt();
            && BindingAt(x, t, 42) == (if t % 16 >= 8 then None else Some(K_SHIFT))
            && BindingAt(x, t, 56) == Some(K(KT_SHIFT, 3))
  {
    hide ApplyModifiers, Capslock;
    var x := ShiftWithoutAlt();
    var selected := Selected(x, false, t / 16 % 8);
    forall key: nat, sym, code: Ushort | Ktyp(code) == KT_SHIFT
      ensures ApplyModifiers(x, key, selected, t % 16, Capslock(x, sym, code)) == code
    {
      CapslockKeeps(x, sym, code);
      ModifiersKeep(x, key, selected, t % 16, code);
    }
  }

  // A witness: with Alt down the mirrored code makes key 42 Shift, which XKB does not have there.
  lemma MirroredPressDiffers(st: State)
    requires Rests(st) && forall i | 0 <= i < NR_SHIFT :: !st.lock[i]
    ensures var x, run := ShiftWithoutAlt(), [Event(56, true), Event(42, true)];
            var w := WalkTo(map[], x, Highest(x) + 1);
            var f := FillTo(w, NR_KEYS);
            && Clear(x, st) && SwitchLeft(x, 0, w) && Alternating({}, run) && AllPlain(x, run)
            && Mirrored(w, f, 8, 42)
            && !InStepThroughout(x, 0, f, st, SameGroup(x, st), map[], run)
  {
    hide WalkTo, FillTo, Suitable, Enumerated, BindingAt, ScanTo, Table, SameModifiers, ConvertsPlainly, GoodRun,
         InStepThroughout, PressFits, InRange, AllFit, FindsTables, AllKeysSteady, Unrivalled, AllMade, NoMirroredPress,
         SwitchLeft, Alternating, Clear, AtRest, Act, Mirrored, NoModifierKeys;
    var x, alt, shift := ShiftWithoutAlt(), Event(56, true), Event(42, true);
    var w := WalkTo(map[], x, Highest(x) + 1);
    var f := FillTo(w, NR_KEYS);
    ShiftMirrored(x, w, f);
    ShiftWithoutAltSuits();
    ShiftWithoutAltSame();
    ShiftWithoutAltTables(8);
    NothingThere();
    NoModifierKeysCalm(map[]);
    AltPressed(st);
    assert Table(Step(f, st, alt)) == 8;
    TwoPresses(x, f, st, alt, shift);
    FilledPressFitsIff(x, 0, map[], 8, 42);
    StartsClear(x, st);
    FilledInStepIff(x, 0, map[], st, [alt, shift]);
  }

  lemma NothingThere()
    ensures NoModifierKeys(map[])
  {
  }

  lemma StartsClear(x: Xkb, st: State)
    requires Rests(st) && forall i | 0 <= i < NR_SHIFT :: !st.lock[i]
    ensures Clear(x, st)
  {
  }

  lemma ShiftMirrored(x: Xkb, w: Tables, f: Tables)
    requires x == ShiftWithoutAlt() && w == WalkTo(map[], x, Highest(x) + 1) && f == FillTo(w, NR_KEYS)
    ensures SwitchLeft(x, 0, w) && Mirrored(w, f, 8, 42) && Lookup(f, 0, 56) == K(KT_SHIFT, 3)
  {
    hide WalkTo, FillTo, Suitable, Enumerated, BindingAt, ScanTo, SameModifiers, ConvertsPlainly;
    ShiftWithoutAltSuits();
    forall u: Uint32, k | k == 42 || k == 56
      ensures CodeAt(w, u, k) == if u < 64 then BindingAt(x, u, k) else None
    {
      ShiftWithoutAltTables(u);
      WalkAt(map[], x, Highest(x) + 1, u, k);
    }
    forall u: Uint32 | u < MAX_NR_KEYMAPS
      ensures CodeAt(w, u, 42) == None || CodeAt(w, u, 42) == Some(K_SHIFT)
    {
      if u < 64 {
        ShiftWithoutAltBinds(u);
      }
    }
    ShiftWithoutAltBinds(0);
    ShiftWithoutAltBinds(8);
    assert CodeAt(w, 0, 42) == Some(K_SHIFT) && CodeAt(w, 8, 42) == None && CodeAt(w, 0, 56) == Some(K(KT_SHIFT, 3));
    OutOfTable(w, 8, 56);
    OutOfTable(w, 0, 56);
    ScanSeen(w, 42, MAX_NR_KEYMAPS, K_SHIFT);
    FillAt(w, NR_KEYS, 8, 42);
    FillAt(w, NR_KEYS, 0, 56);
  }

  lemma AltPressed(st: State)
    requires Rests(st) && forall i | 0 <= i < NR_SHIFT :: !st.lock[i]
    ensures Table(st) == 0 && Table(Act(st, K(KT_SHIFT, 3), true)) == 8
  {
  }

  lemma TwoPresses(x: Xkb, f: Tables, st: State, a: Event, b: Event)
    requires 1 <= x.numLayouts <= NR_LAYOUTS && a.pressed && b.pressed && a.key != b.key
    ensures AllFit(x, f, st, map[], [a, b]) ==> PressFits(x, f, Table(Step(f, st, a)), b.key)
    ensures Alternating({}, [a, b])
  {
    hide Step, PressFits, Table, HoldAt;
    TwoEvents(f, st, a, b);
    assert [a, b][1..] == [b];
    var st' := Step(f, st, a);
    var h: Holders := map[];
    var h' := HoldAt(x, h, Table(st), a);
    assert AllFit(x, f, st', h', [b]) ==> Fits(x, f, st', h', b);
  }
}
