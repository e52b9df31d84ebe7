/**
  xkbsupport.c:801-859: mirroring modifier keys into every table, so that the console, which resolves a
  release in the current table, finds the modifier it has to release.
 */
module ReleaseBindings {
  import opened Bytes
  import opened Keymaps
  import opened XkbWalk
  import opened Console
  import opened GroupSimulation

  // ---------------------------------------------------------------- the pass

  // The codes of a key so far: none, one, or two that differ.
  datatype Scan = NoneSeen | Seen(code: Code) | Mixed

  function ScanStep(v: Tables, scan: Scan, t: Uint32, k: Uint32): Scan {
    var c := CodeAt(v, t, k);
    if scan == Mixed || c == None || c == Some(K_HOLE) then scan
    else if scan == NoneSeen then Seen(c.value)
    else if c.value == scan.code then scan
    else Mixed
  }

  function ScanTo(v: Tables, k: Uint32, n: nat): Scan
    requires n <= MAX_NR_KEYMAPS
  {
    if n == 0 then NoneSeen else ScanStep(v, ScanTo(v, k, n - 1), n - 1, k)
  }

  // xkbsupport.c:812-835
  method ScanKey(c: Context, k: Uint32) returns (modifier: Option<Code>)
    requires c.Valid()
    ensures modifier == match ScanTo(c.View, k, MAX_NR_KEYMAPS) case Seen(code) => Some(code) case _ => None
  {
    hide Context.Valid, CodeAt;
    modifier := None;
    for table := 0 to MAX_NR_KEYMAPS
      invariant ScanTo(c.View, k, table) == if modifier.Some? then Seen(modifier.value) else NoneSeen
    {
      LookupOf(c.View, table, k);
      BoundIsCode(c.View, table, k);
      var there := c.MapExists(table);
      var bound := c.KeyExists(table, k);
      if there && bound {
        var code := c.GetKey(table, k);
        if code != K_HOLE {
          if modifier == None {
            modifier := Some(code);
          } else if code != modifier.value {
            MixedStays(c.View, k, table + 1, MAX_NR_KEYMAPS);
            return None;
          }
        }
      }
    }
  }

  lemma BoundIsCode(v: Tables, t: Uint32, k: Uint32)
    ensures Bound(v, t, k) <==> CodeAt(v, t, k).Some?
    ensures Bound(v, t, k) ==> Lookup(v, t, k) == CodeAt(v, t, k).value
  {
  }

  lemma {:induction false} MixedStays(v: Tables, k: Uint32, m: nat, n: nat)
    requires m <= n <= MAX_NR_KEYMAPS && ScanTo(v, k, m) == Mixed
    ensures ScanTo(v, k, n) == Mixed
  {
    if m < n {
      MixedStays(v, k, m, n - 1);
    }
  }

  // The code of a modifier key that all its tables agree on.
  function Modifier(v: Tables, k: Uint32): Option<Code> {
    match ScanTo(v, k, MAX_NR_KEYMAPS)
    case Seen(code) => if Ktyp(code) == KT_SHIFT then Some(code) else None
    case _ => None
  }

  // Key k gets its modifier in the tables below n that have nothing for it.
  function MirrorTo(v: Tables, k: Uint32, code: Code, n: nat): Tables
    requires n <= MAX_NR_KEYMAPS
  {
    if n == 0 then v else
      var w := MirrorTo(v, k, code, n - 1);
      if n - 1 in w && !Bound(w, n - 1, k) then Put(w, n - 1, k, code) else w
  }

  function FillKey(v: Tables, k: Uint32): Tables {
    var m := Modifier(v, k);
    if m == None then v else MirrorTo(v, k, m.value, MAX_NR_KEYMAPS)
  }

  function FillTo(v: Tables, n: nat): Tables
    requires n <= NR_KEYS
  {
    if n == 0 then v else FillKey(FillTo(v, n - 1), n - 1)
  }

  // xkbsupport.c:849-855
  method Mirror(c: Context, k: Uint32, code: Code) returns (ok: bool)
    requires c.Valid() && Ktyp(code) == KT_SHIFT
    modifies c.Repr
    ensures c.Valid() && fresh(c.Repr - old(c.Repr))
    ensures c.altIsMeta == old(c.altIsMeta) && c.keymapsLine == old(c.keymapsLine)
    ensures ok && c.View == MirrorTo(old(c.View), k, code, MAX_NR_KEYMAPS)
  {
    hide Context.Valid, Put, Bound;
    ghost var v := c.View;
    for table := 0 to MAX_NR_KEYMAPS
      invariant c.Valid() && fresh(c.Repr - old(c.Repr))
      invariant c.altIsMeta == old(c.altIsMeta) && c.keymapsLine == old(c.keymapsLine)
      invariant c.View == MirrorTo(v, k, code, table)
    {
      var there := c.MapExists(table);
      var bound := c.KeyExists(table, k);
      if there && !bound {
        ok := c.AddKey(table, k, code);
      }
    }
    ok := true;
  }

  // xkeymap_fill_modifier_release_bindings
  method FillReleaseBindings(c: Context) returns (ok: bool)
    requires c.Valid()
    modifies c.Repr
    ensures c.Valid() && fresh(c.Repr - old(c.Repr))
    ensures c.altIsMeta == old(c.altIsMeta) && c.keymapsLine == old(c.keymapsLine)
    ensures ok && c.View == FillTo(old(c.View), NR_KEYS)
  {
    hide Context.Valid, ScanTo, MirrorTo;
    ghost var v := c.View;
    for k := 0 to NR_KEYS
      invariant c.Valid() && fresh(c.Repr - old(c.Repr))
      invariant c.altIsMeta == old(c.altIsMeta) && c.keymapsLine == old(c.keymapsLine)
      invariant c.View == FillTo(v, k)
    {
      var modifier := ScanKey(c, k);
      if modifier.Some? && Ktyp(modifier.value) == KT_SHIFT {
        ok := Mirror(c, k, modifier.value);
      }
    }
    ok := true;
  }

  // ---------------------------------------------------------------- what the pass leaves behind

  lemma {:induction false} MirrorAt(v: Tables, k: Uint32, code: Code, n: nat, t: Uint32, k': Uint32)
    requires n <= MAX_NR_KEYMAPS
    ensures CodeAt(MirrorTo(v, k, code, n), t, k') ==
              if k' == k && t < n && t in v && !Bound(v, t, k) then Some(code) else CodeAt(v, t, k')
    ensures t in MirrorTo(v, k, code, n) <==> t in v
  {
    hide Put, CodeAt, Bound;
    if n > 0 {
      MirrorAt(v, k, code, n - 1, t, k');
      MirrorAt(v, k, code, n - 1, n - 1, k);
      var w := MirrorTo(v, k, code, n - 1);
      BoundIsCode(w, n - 1, k);
      BoundIsCode(v, n - 1, k);
      PutAt(w, n - 1, k, code, t, k');
    }
  }

  lemma {:induction false} ScanSame(v: Tables, w: Tables, k: Uint32, n: nat)
    requires n <= MAX_NR_KEYMAPS && forall t :: CodeAt(v, t, k) == CodeAt(w, t, k)
    ensures ScanTo(v, k, n) == ScanTo(w, k, n)
  {
    if n > 0 {
      ScanSame(v, w, k, n - 1);
    }
  }

  // Only modifier keys get more codes, only where they had none, and always their own.
  lemma {:induction false} FillAt(v: Tables, n: nat, t: Uint32, k: Uint32)
    requires n <= NR_KEYS
    ensures CodeAt(FillTo(v, n), t, k) ==
              if k < n && t < MAX_NR_KEYMAPS && t in v && CodeAt(v, t, k) == None then Modifier(v, k)
              else CodeAt(v, t, k)
    ensures t in FillTo(v, n) <==> t in v
  {
    hide ScanTo, CodeAt, Bound, MirrorTo;
    if n > 0 {
      FillAt(v, n - 1, t, k);
      var w := FillTo(v, n - 1);
      BoundIsCode(w, t, k);
      if k == n - 1 {
        forall u
          ensures CodeAt(w, u, k) == CodeAt(v, u, k)
        {
          FillAt(v, n - 1, u, k);
        }
        ScanSame(v, w, k, MAX_NR_KEYMAPS);
      }
      if Modifier(w, n - 1).Some? {
        MirrorAt(w, n - 1, Modifier(w, n - 1).value, MAX_NR_KEYMAPS, t, k);
      }
    }
  }

  // A scan ends with the one code that is not a hole.
  lemma {:induction false} ScanSeen(v: Tables, k: Uint32, n: nat, c: Code)
    requires n <= MAX_NR_KEYMAPS
    ensures ScanTo(v, k, n) == Seen(c) <==>
              c != K_HOLE && (exists t: Uint32 | t < n :: CodeAt(v, t, k) == Some(c))
              && forall t: Uint32 | t < n ::
                   CodeAt(v, t, k) == None || CodeAt(v, t, k) == Some(K_HOLE) || CodeAt(v, t, k) == Some(c)
    ensures ScanTo(v, k, n) == NoneSeen <==>
              forall t: Uint32 | t < n :: CodeAt(v, t, k) == None || CodeAt(v, t, k) == Some(K_HOLE)
  {
    hide CodeAt;
    if n > 0 {
      ScanSeen(v, k, n - 1, c);
      var last := CodeAt(v, n - 1, k);
      if last.Some? {
        ScanSeen(v, k, n - 1, last.value);
      }
    }
  }

  // ---------------------------------------------------------------- keys that are always the same modifier

  // If the key is a modifier in some table, it is the same one in all tables.
  ghost predicate OneModifier(v: Tables, k: Uint32) {
    forall t, u | t in v && u in v && CodeAt(v, t, k).Some? && Ktyp(CodeAt(v, t, k).value) == KT_SHIFT ::
      CodeAt(v, u, k) == CodeAt(v, t, k)
  }

  // ... in all tables that have something for it.
  ghost predicate NoRival(v: Tables, k: Uint32) {
    forall t, u | t in v && u in v && CodeAt(v, t, k).Some? && Ktyp(CodeAt(v, t, k).value) == KT_SHIFT ::
      CodeAt(v, u, k) == None || CodeAt(v, u, k) == CodeAt(v, t, k)
  }

  // The pass makes a key the same modifier in all tables exactly when no table had another code, or an
  // explicit hole, for it.
  lemma FillUniformIff(v: Tables, k: Uint32)
    requires k < NR_KEYS && forall t | t in v :: t < MAX_NR_KEYMAPS
    ensures OneModifier(FillTo(v, NR_KEYS), k) <==> NoRival(v, k)
  {
    hide CodeAt, ScanTo, FillTo;
    var w := FillTo(v, NR_KEYS);
    forall t
      ensures t in w <==> t in v
      ensures CodeAt(w, t, k) == if t in v && CodeAt(v, t, k) == None then Modifier(v, k) else CodeAt(v, t, k)
    {
      FillAt(v, NR_KEYS, t, k);
      OutOfTable(v, t, k);
    }
    forall t | t in v && CodeAt(v, t, k).Some? && Ktyp(CodeAt(v, t, k).value) == KT_SHIFT && NoRival(v, k)
      ensures Modifier(v, k) == CodeAt(v, t, k)
    {
      var c := CodeAt(v, t, k).value;
      HoleIsNoShift();
      ScanSeen(v, k, MAX_NR_KEYMAPS, c);
      forall u: Uint32 | u < MAX_NR_KEYMAPS
        ensures CodeAt(v, u, k) == None || CodeAt(v, u, k) == Some(c)
      {
        OutOfTable(v, u, k);
      }
    }
    if OneModifier(w, k) {
      assert forall t, u | t in v && u in v && CodeAt(v, t, k).Some? && CodeAt(v, u, k).Some? ::
          CodeAt(w, t, k) == CodeAt(v, t, k) && CodeAt(w, u, k) == CodeAt(v, u, k);
    }
    if NoRival(v, k) {
      FilledOnlyByOwn(v, w, k);
    }
  }

  lemma OutOfTable(v: Tables, t: Uint32, k: Uint32)
    ensures CodeAt(v, t, k).Some? ==> t in v
  {
  }

  lemma HoleIsNoShift()
    ensures Ktyp(K_HOLE) != KT_SHIFT
  {
  }

  lemma FilledOnlyByOwn(v: Tables, w: Tables, k: Uint32)
    requires forall t :: t in w <==> t in v
    requires forall t ::
               CodeAt(w, t, k) == if t in v && CodeAt(v, t, k) == None then Modifier(v, k) else CodeAt(v, t, k)
    requires forall t | t in v && CodeAt(v, t, k).Some? && Ktyp(CodeAt(v, t, k).value) == KT_SHIFT ::
               Modifier(v, k) == CodeAt(v, t, k)
    requires NoRival(v, k)
    ensures OneModifier(w, k)
  {
    hide CodeAt, ScanTo;
    forall t, u | t in w && u in w && CodeAt(w, t, k).Some? && Ktyp(CodeAt(w, t, k).value) == KT_SHIFT
      ensures CodeAt(w, u, k) == CodeAt(w, t, k)
    {
      var c := CodeAt(w, t, k).value;
      if CodeAt(v, t, k) == None {
        ScanSeen(v, k, MAX_NR_KEYMAPS, c);
        var a: Uint32 :| a < MAX_NR_KEYMAPS && CodeAt(v, a, k) == Some(c);
        OutOfTable(v, a, k);
      }
    }
  }

  // ---------------------------------------------------------------- no stuck modifiers

  // The key is the modifier with this value.
  ghost predicate IsModifier(v: Tables, k: Uint32, value: nat) {
    exists t | t in v ::
      CodeAt(v, t, k).Some? && Ktyp(CodeAt(v, t, k).value) == KT_SHIFT && Kval(CodeAt(v, t, k).value) == value
  }

  // The keys down that are this modifier.
  ghost function Holding(v: Tables, down: set<Uint32>, value: nat): set<Uint32> {
    set k | k in down && IsModifier(v, k, value)
  }

  // The modifier is counted once for each of its keys that are down.
  ghost predicate Counted(v: Tables, st: State, down: set<Uint32>, value: nat)
    requires value < NR_SHIFT
  {
    st.down[value] == |Holding(v, down, value)| && (st.shift[value] <==> st.down[value] > 0)
  }

  // Whatever table a key is looked up in, it is the same modifier.
  lemma ModifierThere(v: Tables, t: Uint32, k: Uint32, value: nat)
    requires OneModifier(v, k) && t in v
    ensures IsModifier(v, k, value) <==> Ktyp(Lookup(v, t, k)) == KT_SHIFT && Kval(Lookup(v, t, k)) == value
  {
    LookupOf(v, t, k);
    HoleIsNoShift();
  }

  lemma HoldingChanges(v: Tables, down: set<Uint32>, e: Event, value: nat)
    requires e.pressed <==> e.key !in down
    ensures |Holding(v, Held(down, e), value)| ==
              |Holding(v, down, value)| + if !IsModifier(v, e.key, value) then 0 else if e.pressed then 1 else -1
  {
    hide IsModifier;
    var before, after := Holding(v, down, value), Holding(v, Held(down, e), value);
    if !IsModifier(v, e.key, value) {
      assert after == before;
    } else if e.pressed {
      assert after == before + {e.key};
    } else {
      assert before == after + {e.key};
    }
  }

  // A key that is this modifier in some table is it in all tables.
  ghost predicate Steady(v: Tables, k: Uint32, value: nat) {
    IsModifier(v, k, value) ==> OneModifier(v, k)
  }

  lemma StepCounted(v: Tables, st: State, down: set<Uint32>, e: Event, value: nat)
    requires value < NR_SHIFT && Steady(v, e.key, value) && Counted(v, st, down, value)
    requires (e.pressed <==> e.key !in down) && (IsModifier(v, e.key, value) ==> Table(st) in v)
    ensures Counted(v, Step(v, st, e), Held(down, e), value)
  {
    hide OneModifier, Lookup, Table, Holding, Held, IsModifier, Ktyp, Kval;
    HoldingChanges(v, down, e, value);
    if IsModifier(v, e.key, value) {
      ModifierThere(v, Table(st), e.key, value);
    } else {
      NoModifierThere(v, Table(st), e.key, value);
    }
  }

  lemma NoModifierThere(v: Tables, t: Uint32, k: Uint32, value: nat)
    requires !IsModifier(v, k, value)
    ensures !(Ktyp(Lookup(v, t, k)) == KT_SHIFT && Kval(Lookup(v, t, k)) == value)
  {
    LookupOf(v, t, k);
    HoleIsNoShift();
  }

  // Every key that carries the modifier is looked up in a table that is there.
  ghost predicate TablesFor(v: Tables, st: State, run: seq<Event>, value: nat)
    decreases |run|
  {
    run == []
    || ((IsModifier(v, run[0].key, value) ==> Table(st) in v)
        && TablesFor(v, Step(v, st, run[0]), run[1..], value))
  }

  lemma {:induction false} ThereForAll(v: Tables, st: State, run: seq<Event>, value: nat)
    requires TablesThere(v, st, run)
    ensures TablesFor(v, st, run, value)
    decreases |run|
  {
    hide IsModifier, Step, Table;
    if run != [] {
      ThereForAll(v, Step(v, st, run[0]), run[1..], value);
    }
  }

  // Over any run in which presses and releases of each key alternate, a modifier is down as often as keys
  // that carry it are; with no key down, it is not.  Keys that never carry it may mean anything.
  lemma {:induction false} NothingStuck(v: Tables, st: State, down: set<Uint32>, run: seq<Event>, value: nat)
    requires value < NR_SHIFT && (forall e | e in run :: Steady(v, e.key, value)) && Counted(v, st, down, value)
    requires Alternating(down, run) && TablesFor(v, st, run, value)
    ensures Counted(v, Run(v, st, run), HeldAfter(down, run), value)
    ensures HeldAfter(down, run) == {} ==> !Run(v, st, run).shift[value]
    decreases |run|
  {
    hide Steady, IsModifier, Step, Table;
    if run != [] {
      assert run[0] in run && forall e | e in run[1..] :: e in run;
      StepCounted(v, st, down, run[0], value);
      NothingStuck(v, Step(v, st, run[0]), Held(down, run[0]), run[1..], value);
    } else if down == {} {
      assert Holding(v, down, value) == {};
    }
  }

  // The pass makes no key another modifier.
  lemma FillSameModifiers(v: Tables, k: Uint32, value: nat)
    ensures IsModifier(FillTo(v, NR_KEYS), k, value) <==> IsModifier(v, k, value)
  {
    hide CodeAt, ScanTo, FillTo, Ktyp, Kval;
    var w := FillTo(v, NR_KEYS);
    forall t
      ensures t in w <==> t in v
      ensures CodeAt(v, t, k).Some? ==> CodeAt(w, t, k) == CodeAt(v, t, k)
      ensures CodeAt(w, t, k) == CodeAt(v, t, k) || CodeAt(w, t, k) == Modifier(v, k)
    {
      FillAt(v, NR_KEYS, t, k);
    }
    if Modifier(v, k).Some? {
      var c := Modifier(v, k).value;
      ScanSeen(v, k, MAX_NR_KEYMAPS, c);
      var u: Uint32 :| u < MAX_NR_KEYMAPS && CodeAt(v, u, k) == Some(c);
      OutOfTable(v, u, k);
    }
  }

  // A key that carries the modifier has no other code, and no explicit hole, in any table.
  ghost predicate OnlyThat(v: Tables, k: Uint32, value: nat) {
    IsModifier(v, k, value) ==> NoRival(v, k)
  }

  lemma FillSteadyIff(v: Tables, k: Uint32, value: nat)
    requires k < NR_KEYS && forall t | t in v :: t < MAX_NR_KEYMAPS
    ensures Steady(FillTo(v, NR_KEYS), k, value) <==> OnlyThat(v, k, value)
  {
    hide FillTo, NoRival, OneModifier, IsModifier;
    FillUniformIff(v, k);
    FillSameModifiers(v, k, value);
  }

  // After the pass the modifier does not get stuck, if no table had another code, or an explicit hole, for
  // a key that carries it.
  lemma NothingStuckAfterFill(v: Tables, st: State, run: seq<Event>, value: nat)
    requires Rests(st) && value < NR_SHIFT && forall t | t in v :: t < MAX_NR_KEYMAPS
    requires forall e | e in run :: e.key < NR_KEYS && OnlyThat(v, e.key, value)
    requires Alternating({}, run) && TablesFor(FillTo(v, NR_KEYS), st, run, value)
    ensures var w := FillTo(v, NR_KEYS);
            && Counted(w, Run(w, st, run), HeldAfter({}, run), value)
            && (HeldAfter({}, run) == {} ==> !Run(w, st, run).shift[value])
  {
    hide FillTo, OnlyThat, Steady, IsModifier, Alternating, TablesFor, Run, HeldAfter;
    forall e | e in run
      ensures Steady(FillTo(v, NR_KEYS), e.key, value)
    {
      FillSteadyIff(v, e.key, value);
    }
    NothingDown(FillTo(v, NR_KEYS), st, value);
    NothingStuck(FillTo(v, NR_KEYS), st, {}, run, value);
  }

  lemma NothingDown(v: Tables, st: State, value: nat)
    requires Rests(st) && value < NR_SHIFT
    ensures Counted(v, st, {}, value)
  {
    assert Holding(v, {}, value) == {};
  }

  predicate Shifts(code: int, value: nat) {
    Ktyp(code) == KT_SHIFT && Kval(code) == value
  }

  // The tables that let a modifier stick: one gives it to the key, and the one that the press leads to
  // does not.
  lemma StickIff(v: Tables, st: State, k: Uint32, value: nat)
    requires Rests(st) && value < NR_SHIFT
    ensures var run := [Event(k, true), Event(k, false)];
            var code := Lookup(v, Table(st), k);
            var t := Table(Act(st, code, true));
            && Alternating({}, run) && HeldAfter({}, run) == {}
            && (Run(v, st, run).shift[value] <==> Shifts(code, value) && !Shifts(Lookup(v, t, k), value))
  {
    hide Table, Lookup, Ktyp, Kval;
    var press, release := Event(k, true), Event(k, false);
    var st' := Step(v, st, press);
    PressHolds(st, Lookup(v, Table(st), k), value);
    ReleaseFrees(st', Lookup(v, Table(st'), k), value);
    TwoEvents(v, st, press, release);
    assert {k} - {k} == {};
  }

  // A witness: a Shift key with nothing in the Shift table.
  lemma CanStick()
    ensures var v: Tables := map[0 := map[42 := K_SHIFT], 1 := map[]];
            var st := State(seq(NR_SHIFT, _ => 0), seq(NR_SHIFT, _ => false), seq(NR_SHIFT, _ => false));
            Rests(st) && Run(v, st, [Event(42, true), Event(42, false)]).shift[0]
  {
    var v: Tables := map[0 := map[42 := K_SHIFT], 1 := map[]];
    var st := State(seq(NR_SHIFT, _ => 0), seq(NR_SHIFT, _ => false), seq(NR_SHIFT, _ => false));
    assert Table(st) == 0 && Table(ShiftDown()) == 1;
    assert Act(st, K_SHIFT, true) == ShiftDown();
    hide Table;
    StickIff(v, st, 42, 0);
  }

  function ShiftDown(): State {
    State([1, 0, 0, 0, 0, 0, 0, 0, 0], [true, false, false, false, false, false, false, false, false],
          seq(NR_SHIFT, _ => false))
  }

  lemma TwoEvents(v: Tables, st: State, a: Event, b: Event)
    ensures Run(v, st, [a, b]) == Step(v, Step(v, st, a), b)
    ensures HeldAfter({}, [a, b]) == Held(Held({}, a), b)
    ensures Alternating({}, [a, b]) <==> (a.pressed && (b.pressed <==> b.key != a.key))
  {
    hide Step;
    assert [a, b][1..] == [b] && [b][1..] == [];
    var st' := Step(v, st, a);
    assert Run(v, st', [b]) == Run(v, Step(v, st', b), []);
    assert HeldAfter(Held({}, a), [b]) == HeldAfter(Held(Held({}, a), b), []);
    assert Alternating(Held({}, a), [b]) <==>
             (b.pressed <==> b.key !in Held({}, a)) && Alternating(Held(Held({}, a), b), []);
  }

  lemma PressHolds(st: State, code: int, value: nat)
    requires Rests(st) && value < NR_SHIFT
    ensures var st' := Act(st, code, true);
            st'.down[value] == N(Shifts(code, value)) && (st'.shift[value] <==> Shifts(code, value))
  {
    hide Ktyp, Kval;
  }

  lemma ReleaseFrees(st: State, code: int, value: nat)
    requires value < NR_SHIFT && st.down[value] <= 1 && (st.shift[value] <==> st.down[value] == 1)
    ensures Act(st, code, false).shift[value] <==> st.shift[value] && !Shifts(code, value)
  {
    hide Ktyp, Kval;
  }

  // ---------------------------------------------------------------- the pass and the groups

  // The pass gives the group switch key no CtrlR code in a table where XKB has nothing for it.
  ghost predicate SwitchLeft(x: Xkb, s: Uint32, v: Tables) {
    forall t | Enumerated(x, t) && t in v && InRange(x, s) :: Bound(v, t, s) || Modifier(v, s) != Some(K_CTRLR)
  }

  // Where a modifier code that is not calm comes from: the switch key.
  lemma CodeOrigin(x: Xkb, s: Uint32, v: Tables, u: Uint32, k: Uint32)
    requires Suitable(x, s) && AllCalm(v) && InRange(x, k)
    requires var c := CodeAt(WalkTo(v, x, Highest(x) + 1), u, k); c.Some? && Ktyp(c.value) == KT_SHIFT
    ensures var c := CodeAt(WalkTo(v, x, Highest(x) + 1), u, k).value; Calm(c) || (c == K_CTRLR && k == s)
  {
    hide WalkTo, CodeAt, Lookup, Calm, Enumerated, Sound, PlainCodes, Carries, SelectGroup, NextGroup, Layout, Group,
         Target, BindingAt, Resolve, Selected, Ktyp, K;
    WalkAt(v, x, Highest(x) + 1, u, k);
    LookupOf(v, u, k);
    assert Calm(Lookup(v, u, k));
    if Enumerated(x, u) {
      BindingFollows(x, s, u, k);
      var held, base := u / 128 == 1, u / 16 % 8;
      var sym := Resolve(x, k + EVDEV_OFFSET, Selected(x, held, base), u % 16);
      if sym.Some? && sym.value == SwitchSym {
        ResolvedCarried(x, k + EVDEV_OFFSET, Selected(x, held, base), u % 16, {SwitchSym});
      }
      NextIsLock(Group(base));
      LockCodes();
      HoleIsNoShift();
      LocksAreNoShifts();
      if sym.Some? {
        SelectCodes(x.numLayouts, Group(base), Target(x.numLayouts, Layout(x.numLayouts, Group(base)), sym.value));
      }
    }
  }

  lemma NextIsLock(group: nat)
    ensures Ktyp(NextGroup(group)) == KT_LOCK
  {
  }

  lemma LocksAreNoShifts()
    ensures KT_LOCK != KT_SHIFT && !Calm(K_CTRLR)
  {
  }

  // Where the walk left nothing, XKB has no group action.
  lemma NoCodeNoAction(x: Xkb, s: Uint32, v: Tables, t: Uint32, k: Uint32)
    requires Suitable(x, s) && Enumerated(x, t) && InRange(x, k)
    requires CodeAt(WalkTo(v, x, Highest(x) + 1), t, k) == None
    ensures !(t / 128 == 1 && k == s)
    ensures var sym := Resolve(x, k + EVDEV_OFFSET, Selected(x, t / 128 == 1, t / 16 % 8), t % 16);
            sym.Some? ==> sym.value != SwitchSym && sym.value != NextSym && sym.value !in SELECT_SYMS
  {
    hide WalkTo, CodeAt, Calm, Enumerated, Sound, PlainCodes, Carries, SelectGroup, NextGroup, Layout, Group, Target,
         BindingAt, Resolve, Selected;
    WalkAt(v, x, Highest(x) + 1, t, k);
    BindingFollows(x, s, t, k);
  }

  lemma FilledFollowsAt(x: Xkb, s: Uint32, v: Tables, t: Uint32, k: Uint32)
    requires Suitable(x, s) && AllCalm(v) && Enumerated(x, t) && InRange(x, k)
    ensures var w := WalkTo(v, x, Highest(x) + 1);
            FollowsAt(x, s, FillTo(w, NR_KEYS), t, k) <==>
              (k == s && t in w && CodeAt(w, t, k) == None ==> Modifier(w, s) != Some(K_CTRLR))
  {
    hide WalkTo, FillTo, CodeAt, Lookup, Calm, Sound, PlainCodes, OneSwitch, SelectGroup, NextGroup, Layout, Group,
         Target, Resolve, Selected, ScanTo, Follows, AllCalm;
    var w := WalkTo(v, x, Highest(x) + 1);
    var f := FillTo(w, NR_KEYS);
    FillAt(w, NR_KEYS, t, k);
    WalkFollows(x, s, v);
    FollowsThere(x, s, w, t, k);
    SameLookup(w, f, t, k);
    if t in w && CodeAt(w, t, k) == None && Modifier(w, k).Some? {
      var c := Modifier(w, k).value;
      NoCodeNoAction(x, s, v, t, k);
      LookupOf(f, t, k);
      ScanSeen(w, k, MAX_NR_KEYMAPS, c);
      var u: Uint32 :| u < MAX_NR_KEYMAPS && CodeAt(w, u, k) == Some(c);
      CodeOrigin(x, s, v, u, k);
      LocksAreNoShifts();
    }
  }

  lemma SameLookup(w: Tables, f: Tables, t: Uint32, k: Uint32)
    ensures (t in w <==> t in f) && CodeAt(w, t, k) == CodeAt(f, t, k) ==> Lookup(w, t, k) == Lookup(f, t, k)
  {
  }

  // The keymaps still follow the groups after the pass exactly when it left the switch key alone.
  lemma FillFollowsIff(x: Xkb, s: Uint32, v: Tables)
    requires Suitable(x, s) && AllCalm(v)
    ensures var w := WalkTo(v, x, Highest(x) + 1); Follows(x, s, FillTo(w, NR_KEYS)) <==> SwitchLeft(x, s, w)
  {
    hide WalkTo, FillTo, CodeAt, Enumerated, Sound, PlainCodes, OneSwitch, FollowsAt, Modifier, InRange;
    var w := WalkTo(v, x, Highest(x) + 1);
    var f := FillTo(w, NR_KEYS);
    forall t, k | Enumerated(x, t) && InRange(x, k)
      ensures FollowsAt(x, s, f, t, k) <==> (k == s && t in w && !Bound(w, t, k) ==> Modifier(w, s) != Some(K_CTRLR))
    {
      FilledFollowsAt(x, s, v, t, k);
      BoundIsCode(w, t, k);
    }
    if Follows(x, s, f) {
      forall t | Enumerated(x, t) && t in w && InRange(x, s)
        ensures Bound(w, t, s) || Modifier(w, s) != Some(K_CTRLR)
      {
        FollowsThere(x, s, f, t, s);
      }
    }
  }

  // An XKB keymap whose one key, 100, is Mode_switch without Shift and nothing with it.
  function SwitchOnly(): Xkb {
    Xkb(1, 108, 108, _ => 1, (_, _) => 1, (_, _, _) => Some(SwitchSym), (_, _) => Some(0),
        (_, _, mods) => if mods % 2 == 0 then Some(0) else None,
        sym => if sym == SwitchSym then Some(K_CTRLR) else None, _ => false, _ => 0, false,
        (_, _, _) => false, (_, _, _) => false, (_, _, _) => false, (_, _, _) => 0, (_, group) => group, _ => None)
  }

  lemma SwitchOnlySuits()
    ensures Suitable(SwitchOnly(), 100)
    ensures Enumerated(SwitchOnly(), 0) && Enumerated(SwitchOnly(), 1) && InRange(SwitchOnly(), 100)
    ensures BindingAt(SwitchOnly(), 0, 100) == Some(K_CTRLR) && BindingAt(SwitchOnly(), 1, 100) == None
  {
  }

  // A witness: the pass gives that key its CtrlR code in a table 1 that was there before.
  lemma SwitchCanBeMirrored()
    ensures var x, v: Tables := SwitchOnly(), map[1 := map[]];
            var w := WalkTo(v, x, Highest(x) + 1);
            Suitable(x, 100) && AllCalm(v) && !SwitchLeft(x, 100, w) && !Follows(x, 100, FillTo(w, NR_KEYS))
  {
    hide WalkTo, FillTo, Follows, Suitable, Enumerated, BindingAt, ScanTo;
    var x, v: Tables := SwitchOnly(), map[1 := map[]];
    var w := WalkTo(v, x, Highest(x) + 1);
    SwitchOnlySuits();
    WalkAt(v, x, Highest(x) + 1, 1, 100);
    WalkAt(v, x, Highest(x) + 1, 0, 100);
    forall u: Uint32
      ensures CodeAt(w, u, 100) == None || CodeAt(w, u, 100) == Some(K_CTRLR)
    {
      WalkAt(v, x, Highest(x) + 1, u, 100);
      if Enumerated(x, u) {
        SwitchOnlyBinds(u);
      }
    }
    HoleIsNoShift();
    ScanSeen(w, 100, MAX_NR_KEYMAPS, K_CTRLR);
    assert 1 in w && !Bound(w, 1, 100);
    FillFollowsIff(x, 100, v);
  }

  lemma SwitchOnlyBinds(t: Uint32)
    requires Enumerated(SwitchOnly(), t)
    ensures BindingAt(SwitchOnly(), t, 100) == None || BindingAt(SwitchOnly(), t, 100) == Some(K_CTRLR)
  {
    hide Suitable, Enumerated, BindingAt;
    SwitchOnlySuits();
    BindingFollows(SwitchOnly(), 100, t, 100);
  }

  // The main result for the keymaps after both passes, XKB going by the console's modifiers.
  lemma FilledConsoleFollowsXkb(x: Xkb, s: Uint32, v: Tables, st: State, run: seq<Event>, mods: seq<nat>)
    requires Suitable(x, s) && AllCalm(v) && AtRest(x, st) && Alternating({}, run) && AllInRange(x, run)
    requires SwitchLeft(x, s, WalkTo(v, x, Highest(x) + 1))
    requires |mods| == |run| && SameMods(FillTo(WalkTo(v, x, Highest(x) + 1), NR_KEYS), st, run, mods)
    ensures var f := FillTo(WalkTo(v, x, Highest(x) + 1), NR_KEYS);
            && (Together(x, s, f, st, SameGroup(x, st), run, mods) <==> GoodRun(x, f, st, run))
            && ((forall e | e in run :: Harmless(x, e.key)) ==> Together(x, s, f, st, SameGroup(x, st), run, mods))
            && (Run(f, st, run).shift[7] ==> s in HeldAfter({}, run))
            && Enumerated(x, Table(Run(f, st, run)))
  {
    hide Follows, InRange, Sound, PlainCodes, OneSwitch, WalkTo, FillTo, Enumerated, Matches, SwitchOk, SwitchLeft,
         Harmless;
    FillFollowsIff(x, s, v);
    StartsMatching(x, s, st);
    var f := FillTo(WalkTo(v, x, Highest(x) + 1), NR_KEYS);
    TogetherIff(x, s, f, st, SameGroup(x, st), {}, run, mods);
    SwitchReleases(x, s, f, st, {}, run);
    if forall e | e in run :: Harmless(x, e.key) {
      HarmlessRun(x, f, st, run);
    }
  }

  // ---------------------------------------------------------------- no modifier at all is left

  // The tables after both passes: those the walk made, all below 256.
  lemma FilledTables(x: Xkb, v: Tables, t: Uint32)
    requires 1 <= x.numLayouts <= NR_LAYOUTS && forall u | u in v :: u < MAX_NR_KEYMAPS
    ensures var w := WalkTo(v, x, Highest(x) + 1);
            && (t in FillTo(w, NR_KEYS) <==> t in w) && (t in w ==> t < MAX_NR_KEYMAPS)
  {
    hide WalkTo, FillTo, CodeAt;
    WalkAt(v, x, Highest(x) + 1, t, 0);
    FillAt(WalkTo(v, x, Highest(x) + 1), NR_KEYS, t, 0);
  }

  // No key of the run that carries the modifier has another code, or an explicit hole, in any table.
  ghost predicate Unrivalled(v: Tables, run: seq<Event>, value: nat) {
    forall e | e in run :: OnlyThat(v, e.key, value)
  }

  // With no key down the console has no group bit, and none of the four modifiers that XKB knows whose keys
  // have no other codes and find their tables, not even with a switch key that is CtrlR in some tables and
  // something else in others.
  lemma NoKeyNoModifier(x: Xkb, s: Uint32, v: Tables, st: State, run: seq<Event>)
    requires Suitable(x, s) && AllCalm(v) && AtRest(x, st) && Alternating({}, run) && AllInRange(x, run)
    requires forall t | t in v :: t < MAX_NR_KEYMAPS
    requires SwitchLeft(x, s, WalkTo(v, x, Highest(x) + 1))
    requires HeldAfter({}, run) == {}
    ensures var w := WalkTo(v, x, Highest(x) + 1);
            var f := FillTo(w, NR_KEYS);
            var st' := Run(f, st, run);
            && (forall value: nat | value < 4 && Unrivalled(w, run, value) && TablesFor(f, st, run, value) ::
                  !st'.shift[value])
            && (forall i | 4 <= i < NR_SHIFT :: !st'.shift[i])
            && ((forall value: nat | value < 4 :: Unrivalled(w, run, value) && TablesFor(f, st, run, value)) ==>
                  st'.shift == st.shift)
            && (AllMade(x, w) ==> forall value: nat | value < 4 :: TablesFor(f, st, run, value))
  {
    hide Follows, Sound, PlainCodes, OneSwitch, WalkTo, FillTo, Enumerated, SwitchLeft, OnlyThat, Alternating,
         TablesThere, TablesFor, Run, HeldAfter, IsModifier, NoRival;
    var w := WalkTo(v, x, Highest(x) + 1);
    var f := FillTo(w, NR_KEYS);
    FillFollowsIff(x, s, v);
    StartsMatching(x, s, st);
    SwitchReleases(x, s, f, st, {}, run);
    forall t: Uint32
      ensures (t in f <==> t in w) && (t in w ==> t < MAX_NR_KEYMAPS)
    {
      FilledTables(x, v, t);
    }
    forall value: nat | value < 4 && Unrivalled(w, run, value) && TablesFor(f, st, run, value)
      ensures !Run(f, st, run).shift[value]
    {
      NothingStuckAfterFill(w, st, run, value);
    }
    if AllMade(x, w) {
      AllTablesThere(x, s, f, st, {}, run);
      forall value: nat | value < 4
        ensures TablesFor(f, st, run, value)
      {
        ThereForAll(f, st, run, value);
      }
    }
  }
}
