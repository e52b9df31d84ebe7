/**
  The part of the kernel that loadkeys talks to: keyboard mode and key tables, changed one ioctl at a
  time.  Any ioctl may fail; `fails` says which ones do.
 */
module ConsoleKernel {
  import opened Bytes
  import opened Keymaps

  const K_NOSUCHMAP := 0x27f
  const K_ALLOCATED := 0x27e

  datatype Errno = EPERM | EIO | EINVAL | OtherErrno

  datatype Request =
    | SetMode(mode: int)                                    // KDSKBMODE
    | SetEntry(table: Byte, index: Byte, value: Ushort)     // KDSKBENT
    | GetEntry(table: Byte, index: Byte)                    // KDGKBENT

  type KeyTable = s: seq<Ushort> | |s| == NR_KEYS witness seq(NR_KEYS, _ => 0)

  type KernelTables = map<Byte, KeyTable>

  // A table as the kernel allocates it.
  function EmptyTable(): KeyTable {
    seq(NR_KEYS, i requires 0 <= i < NR_KEYS => NewCode(i))
  }

  function NewCode(i: nat): Ushort {
    if i == 0 then K_ALLOCATED else K_HOLE
  }

  // KDSKBENT: storing K_NOSUCHMAP at index 0 drops the table, storing anything else allocates it.
  function Store(m: KernelTables, t: Byte, i: Byte, v: Ushort): KernelTables {
    if i == 0 && v == K_NOSUCHMAP then m - {t}
    else m[t := (if t in m then m[t] else EmptyTable())[i := v]]
  }

  // KDGKBENT
  function Fetch(m: KernelTables, t: Byte, i: Byte): Ushort {
    if t in m then m[t][i] else if i == 0 then K_NOSUCHMAP else K_HOLE
  }

  // What was stored is read back, at the index, and every other index of the table reads as before, or as a
  // table that was just allocated; storing K_NOSUCHMAP at index 0 leaves no table, which reads as such.
  lemma StoreFetch(m: KernelTables, t: Byte, i: Byte, v: Ushort, t': Byte, i': Byte)
    ensures Fetch(Store(m, t, i, v), t', i') ==
              if t' != t then Fetch(m, t', i')
              else if i == 0 && v == 0x27f then (if i' == 0 then 0x27f else 0x200)
              else if i' == i then v
              else if t in m then Fetch(m, t, i')
              else if i' == 0 then 0x27e else 0x200
  {
  }

  class Kernel {
    const fails: nat -> Option<Errno>  // by number of the request
    var mode: int
    var maps: KernelTables
    var trace: seq<Request>

    constructor (fails: nat -> Option<Errno>, mode: int, maps: KernelTables)
      ensures this.fails == fails && this.mode == mode && this.maps == maps && trace == []
    {
      this.fails, this.mode, this.maps, trace := fails, mode, maps, [];
    }

    method ChangeMode(m: int) returns (e: Option<Errno>)
      modifies this
      ensures e == fails(|old(trace)|) && trace == old(trace) + [SetMode(m)]
      ensures mode == (if e.None? then m else old(mode)) && maps == old(maps)
    {
      e := fails(|trace|);
      trace := trace + [SetMode(m)];
      if e.None? {
        mode := m;
      }
    }

    method ChangeEntry(t: Byte, i: Byte, v: Ushort) returns (e: Option<Errno>)
      modifies this
      ensures e == fails(|old(trace)|) && trace == old(trace) + [SetEntry(t, i, v)]
      ensures maps == (if e.None? then Store(old(maps), t, i, v) else old(maps)) && mode == old(mode)
    {
      e := fails(|trace|);
      trace := trace + [SetEntry(t, i, v)];
      if e.None? {
        maps := Store(maps, t, i, v);
      }
    }

    method ReadEntry(t: Byte, i: Byte) returns (e: Option<Errno>, v: Ushort)
      modifies this
      ensures e == fails(|old(trace)|) && trace == old(trace) + [GetEntry(t, i)]
      ensures maps == old(maps) && mode == old(mode)
      ensures e.None? ==> v == Fetch(maps, t, i)
    {
      e, v := fails(|trace|), 0;
      trace := trace + [GetEntry(t, i)];
      if e.None? {
        v := Fetch(maps, t, i);
      }
    }
  }
}

/**
  loadkeys.c:16-151 and kernel.c:19-56: loading the keymaps of a context into the kernel and reading
  them back.
 */
module LoadKeys {
  import opened Bytes
  import opened Keymaps
  import CK = ConsoleKernel
  import opened ConstantKeys

  const K_UNICODE := 3

  type Codes = map<Uint32, Code>

  // A code the kernel can store.
  predicate Fits(codes: Codes, i: Uint32) {
    i in codes && 0 <= codes[i] <= 0xFFFF
  }

  // ---------------------------------------------------------------- one table

  // What the requests for the first n keys of table t do when none fails.
  function LoadTo(m: CK.KernelTables, t: Byte, codes: Codes, n: nat): CK.KernelTables
    requires n <= NR_KEYS
  {
    if n == 0 then m else
      var w := LoadTo(m, t, codes, n - 1);
      if Fits(codes, n - 1) then CK.Store(w, t, n - 1, codes[n - 1]) else w
  }

  function FitCount(codes: Codes, n: nat): nat {
    if n == 0 then 0 else FitCount(codes, n - 1) + if n <= 0x1_0000_0000 && Fits(codes, n - 1) then 1 else 0
  }

  // A binding of key 0 that the kernel takes for a request to drop the table.
  predicate Drops(codes: Codes) {
    Fits(codes, 0) && codes[0] == CK.K_NOSUCHMAP
  }

  // Key i of the table gets its code.
  predicate Lands(codes: Codes, i: Uint32) {
    Fits(codes, i) && !(i == 0 && Drops(codes))
  }

  function Overlay(s: CK.KeyTable, codes: Codes, n: nat): CK.KeyTable {
    seq(NR_KEYS, i requires 0 <= i < NR_KEYS => if i < n && Lands(codes, i) then codes[i] else s[i])
  }

  predicate AnyLands(codes: Codes, n: nat) {
    exists i | 0 <= i < n && i < NR_KEYS :: Lands(codes, i)
  }

  lemma LandsStep(codes: Codes, n: nat)
    requires n < NR_KEYS
    ensures AnyLands(codes, n + 1) <==> AnyLands(codes, n) || Lands(codes, n)
    ensures !AnyLands(codes, 0)
  {
  }

  lemma OverlayStep(s: CK.KeyTable, codes: Codes, n: nat)
    requires n < NR_KEYS
    ensures Overlay(s, codes, n + 1) ==
              if Lands(codes, n) then Overlay(s, codes, n)[n := codes[n]] else Overlay(s, codes, n)
    ensures Overlay(s, codes, 0) == s
  {
  }

  lemma OverlayNothing(s: CK.KeyTable, codes: Codes, n: nat)
    requires n <= NR_KEYS && !AnyLands(codes, n)
    ensures Overlay(s, codes, n) == s
  {
    forall i | 0 <= i < NR_KEYS
      ensures Overlay(s, codes, n)[i] == s[i]
    {
    }
  }

  // Table t after its first n keys were loaded.
  ghost function Loaded(m: CK.KernelTables, t: Byte, codes: Codes, n: nat): CK.KernelTables {
    if t in m && !(n > 0 && Drops(codes)) then m[t := Overlay(m[t], codes, n)]
    else if AnyLands(codes, n) then m[t := Overlay(CK.EmptyTable(), codes, n)]
    else m - {t}
  }

  lemma LoadedStep(m: CK.KernelTables, t: Byte, codes: Codes, n: nat)
    requires n < NR_KEYS
    ensures var w := Loaded(m, t, codes, n);
            Loaded(m, t, codes, n + 1) == if Fits(codes, n) then CK.Store(w, t, n, codes[n]) else w
    ensures Loaded(m, t, codes, 0) == m
  {
    hide Overlay, AnyLands;
    LandsStep(codes, n);
    OverlayStep(CK.EmptyTable(), codes, n);
    if t in m {
      OverlayStep(m[t], codes, n);
    }
    if !AnyLands(codes, n) {
      OverlayNothing(CK.EmptyTable(), codes, n);
    }
  }

  lemma {:induction false} LoadToIs(m: CK.KernelTables, t: Byte, codes: Codes, n: nat)
    requires n <= NR_KEYS
    ensures LoadTo(m, t, codes, n) == Loaded(m, t, codes, n)
  {
    if n > 0 {
      LoadToIs(m, t, codes, n - 1);
    }
    LoadedStep(m, t, codes, if n > 0 then n - 1 else 0);
  }

  // ---------------------------------------------------------------- the requests

  // The requests from number `from` on are entries of table t.
  predicate OnlyTable(trace: seq<CK.Request>, from: nat, t: Byte) {
    forall n | from <= n < |trace| :: trace[n].SetEntry? && trace[n].table == t
  }

  predicate OnlyEntries(trace: seq<CK.Request>, from: nat, to: nat)
    requires to <= |trace|
  {
    forall n | from <= n < to :: trace[n].SetEntry?
  }

  predicate Quiet(fails: nat -> Option<CK.Errno>, from: nat, to: nat) {
    forall n: nat | from <= n < to :: fails(n) == None
  }

  // Requests of numbers from .. to that succeed.
  function Successes(fails: nat -> Option<CK.Errno>, from: nat, to: nat): nat
    requires from <= to
  {
    if from == to then 0 else Successes(fails, from, to - 1) + if fails(to - 1) == None then 1 else 0
  }

  lemma {:induction false} SuccessesAre(fails: nat -> Option<CK.Errno>, from: nat, to: nat)
    requires from <= to
    ensures Successes(fails, from, to) == |set n: nat | from <= n < to && fails(n) == None|
  {
    if from < to {
      SuccessesAre(fails, from, to - 1);
      SuccessStep(fails, from, to - 1);
    }
  }

  lemma SuccessStep(fails: nat -> Option<CK.Errno>, from: nat, to: nat)
    requires from <= to
    ensures |set n: nat | from <= n < to + 1 && fails(n) == None| ==
              |set n: nat | from <= n < to && fails(n) == None| + if fails(to) == None then 1 else 0
  {
    var all := set n: nat | from <= n < to + 1 && fails(n) == None;
    var before := set n: nat | from <= n < to && fails(n) == None;
    if fails(to) == None {
      assert all == before + {to};
    } else {
      assert all == before;
    }
  }

  predicate IsFatal(e: Option<CK.Errno>) {
    e == Some(CK.EPERM) || e == Some(CK.EIO)
  }

  // What one call leaves alone.
  ghost predicate Extends(k: CK.Kernel, trace: seq<CK.Request>, maps: CK.KernelTables, t: Byte)
    reads k
  {
    trace <= k.trace && OnlyTable(k.trace, |trace|, t) && k.maps - {t} == maps - {t}
  }

  // One round of the loop of set_keymap_table: the count, or None to give up.
  method SetKey(c: Context, k: CK.Kernel, t: Byte, ghost codes: Codes, i: Byte) returns (ok: bool, added: nat)
    requires c.Valid() && k !in c.Repr && t in c.View && c.View[t] == codes
    modifies k
    ensures c.Valid() && k.mode == old(k.mode) && Extends(k, old(k.trace), old(k.maps), t)
    ensures added == Successes(k.fails, |old(k.trace)|, |k.trace|)
    ensures ok <==> forall n: nat | |old(k.trace)| <= n < |k.trace| :: !IsFatal(k.fails(n))
    ensures Quiet(k.fails, |old(k.trace)|, |k.trace|) ==>
              added == (if Fits(codes, i) then 1 else 0)
              && k.maps == if Fits(codes, i) then CK.Store(old(k.maps), t, i, codes[i]) else old(k.maps)
  {
    hide Context.Valid;
    ok, added := true, 0;
    var there := c.KeyExists(t, i);
    if !there {
      return;
    }
    var value := c.GetKey(t, i);
    if value < 0 || value > 0xFFFF {
      return;
    }
    var from := |k.trace|;
    var fail := k.ChangeEntry(t, i, value);
    assert Successes(k.fails, from, from) == 0;
    if fail == Some(CK.EPERM) || fail == Some(CK.EIO) {
      return false, 0;
    }
    added := if fail == None then 1 else 0;
  }

  lemma SuccessesAdd(fails: nat -> Option<CK.Errno>, a: nat, b: nat, c: nat)
    requires a <= b <= c
    ensures Successes(fails, a, c) == Successes(fails, a, b) + Successes(fails, b, c)
    decreases c
  {
    if b < c {
      SuccessesAdd(fails, a, b, c - 1);
    }
  }

  // set_keymap_table
  method SetKeymapTable(c: Context, k: CK.Kernel, t: Byte, ghost codes: Codes) returns (count: int)
    requires c.Valid() && k !in c.Repr && t in c.View && c.View[t] == codes
    modifies k
    ensures c.Valid() && k.mode == old(k.mode) && Extends(k, old(k.trace), old(k.maps), t)
    ensures count == -1 || count == Successes(k.fails, |old(k.trace)|, |k.trace|)
    ensures count == -1 <==> exists n: nat | |old(k.trace)| <= n < |k.trace| ::
                               k.fails(n) == Some(CK.EPERM) || k.fails(n) == Some(CK.EIO)
    ensures Quiet(k.fails, |old(k.trace)|, |k.trace|) ==>
              count == |set i: Uint32 | i < 256 && i in codes && 0 <= codes[i] <= 0xFFFF|
    ensures Quiet(k.fails, |old(k.trace)|, |k.trace|) ==>
              count == FitCount(codes, NR_KEYS) && k.maps == Loaded(old(k.maps), t, codes, NR_KEYS)
  {
    hide Context.Valid, Loaded;
    count := 0;
    ghost var from, maps := |k.trace|, k.maps;
    for i := 0 to NR_KEYS
      invariant c.Valid() && k.mode == old(k.mode) && Extends(k, old(k.trace), maps, t)
      invariant count == Successes(k.fails, from, |k.trace|)
      invariant forall n: nat | from <= n < |k.trace| :: !IsFatal(k.fails(n))
      invariant Quiet(k.fails, from, |k.trace|) ==> count == FitCount(codes, i) && k.maps == LoadTo(maps, t, codes, i)
    {
      ghost var mid := |k.trace|;
      var ok, added := SetKey(c, k, t, codes, i);
      SuccessesAdd(k.fails, from, mid, |k.trace|);
      if !ok {
        return -1;
      }
      count := count + added;
    }
    LoadToIs(maps, t, codes, NR_KEYS);
    FitCountIs(codes, NR_KEYS);
  }

  lemma {:induction false} FitCountIs(codes: Codes, n: nat)
    requires n <= NR_KEYS
    ensures FitCount(codes, n) == |set i: Uint32 | i < n && i in codes && 0 <= codes[i] <= 0xFFFF|
  {
    if n > 0 {
      FitCountIs(codes, n - 1);
      FitStep(codes, n - 1);
    }
  }

  lemma FitStep(codes: Codes, n: Uint32)
    ensures |set i: Uint32 | i < n + 1 && i in codes && 0 <= codes[i] <= 0xFFFF| ==
              |set i: Uint32 | i < n && i in codes && 0 <= codes[i] <= 0xFFFF| + if Fits(codes, n) then 1 else 0
  {
    var all := set i: Uint32 | i < n + 1 && i in codes && 0 <= codes[i] <= 0xFFFF;
    var before := set i: Uint32 | i < n && i in codes && 0 <= codes[i] <= 0xFFFF;
    if Fits(codes, n) {
      assert all == before + {n};
    } else {
      assert all == before;
    }
  }

  function Holes(): CK.KeyTable {
    seq(NR_KEYS, _ => K_HOLE)
  }

  // The first i keys of the table are holes, the others as before; all other tables are untouched.
  ghost predicate Cleared(w: CK.KernelTables, m: CK.KernelTables, t: Byte, i: nat)
    requires i <= NR_KEYS
  {
    && (i == 0 ==> w == m)
    && (i > 0 ==> t in w && w == m[t := w[t]] && (forall k | 0 <= k < i :: w[t][k] == K_HOLE))
  }

  // clear_keymap_table
  method ClearKeymapTable(k: CK.Kernel, t: Byte) returns (ok: bool)
    modifies k
    ensures k.mode == old(k.mode) && Extends(k, old(k.trace), old(k.maps), t) && |k.trace| > |old(k.trace)|
    ensures ok ==> k.maps == old(k.maps) - {t} || k.fails(|old(k.trace)|) == Some(CK.EINVAL)
    ensures ok <==> var first, last := k.fails(|old(k.trace)|), k.fails(|k.trace| - 1);
                    || first == None
                    || (first == Some(CK.EINVAL) &&
                        (last == None || (|k.trace| > |old(k.trace)| + 1 && last == Some(CK.EINVAL) && t >= 16)))
    ensures k.fails(|old(k.trace)|) == Some(CK.EINVAL) && Quiet(k.fails, |old(k.trace)| + 1, |k.trace|) ==>
              k.maps == old(k.maps)[t := Holes()]
    ensures Quiet(k.fails, |old(k.trace)|, |k.trace|) ==> ok && k.maps == old(k.maps) - {t}
  {
    ghost var from, maps := |k.trace|, k.maps;
    var fail := k.ChangeEntry(t, 0, CK.K_NOSUCHMAP);
    if fail == None {
      return true;
    }
    if fail != Some(CK.EINVAL) {
      return false;
    }
    // A kernel that cannot drop tables gets holes for all keys instead.
    for i := 0 to NR_KEYS
      invariant k.mode == old(k.mode) && Extends(k, old(k.trace), maps, t) && |k.trace| == from + 1 + i
      invariant k.fails(|k.trace| - 1) == if i == 0 then Some(CK.EINVAL) else None
      invariant Quiet(k.fails, from + 1, |k.trace|) ==> Cleared(k.maps, maps, t, i)
    {
      fail := k.ChangeEntry(t, i, K_HOLE);
      if fail != None {
        return fail == Some(CK.EINVAL) && t >= 16;
      }
    }
    if Quiet(k.fails, from + 1, |k.trace|) {
      assert k.maps[t] == Holes();
    }
    ok := true;
  }

  // ---------------------------------------------------------------- all tables

  // What the first n tables of the context do to the kernel when no request fails.
  ghost function LoadAll(m: CK.KernelTables, v: Tables, keymapsLine: bool, n: nat): CK.KernelTables
    requires n <= MAX_NR_KEYMAPS
  {
    if n == 0 then m else LoadTable(LoadAll(m, v, keymapsLine, n - 1), v, keymapsLine, n - 1)
  }

  ghost function LoadTable(m: CK.KernelTables, v: Tables, keymapsLine: bool, t: Byte): CK.KernelTables {
    if t in v then Loaded(m, t, v[t], NR_KEYS) else if keymapsLine then m - {t} else m
  }

  function CountAll(v: Tables, n: nat): nat
    requires n <= MAX_NR_KEYMAPS
  {
    if n == 0 then 0 else CountAll(v, n - 1) + if n - 1 in v then FitCount(v[n - 1], NR_KEYS) else 0
  }

  // The keys of a table with a code that the kernel can store.
  ghost function Storable(v: Tables, t: Uint32): set<Uint32> {
    set i: Uint32 | i < 256 && t in v && i in v[t] && 0 <= v[t][i] <= 0xFFFF
  }

  // How many there are in the first n tables.
  ghost function StorableCount(v: Tables, n: nat): nat
    requires n <= 256
  {
    if n == 0 then 0 else StorableCount(v, n - 1) + |Storable(v, n - 1)|
  }

  lemma {:induction false} CountAllIs(v: Tables, n: nat)
    requires n <= MAX_NR_KEYMAPS
    ensures CountAll(v, n) == StorableCount(v, n)
  {
    hide Storable, FitCount;
    if n > 0 {
      CountAllIs(v, n - 1);
      TableCountIs(v, n - 1);
    }
  }

  lemma TableCountIs(v: Tables, t: Uint32)
    ensures |Storable(v, t)| == if t in v then FitCount(v[t], NR_KEYS) else 0
  {
    if t in v {
      FitCountIs(v[t], NR_KEYS);
      assert Storable(v, t) == set i: Uint32 | i < NR_KEYS && i in v[t] && 0 <= v[t][i] <= 0xFFFF;
    } else {
      assert Storable(v, t) == {};
    }
  }

  // One round of the loop of set_keymap.
  method SetTable(c: Context, k: CK.Kernel, t: Byte, ghost v: Tables) returns (count: int)
    requires c.Valid() && k !in c.Repr && c.View == v
    modifies k
    ensures c.Valid() && k.mode == old(k.mode) && old(k.trace) <= k.trace && OnlyTable(k.trace, |old(k.trace)|, t)
    ensures count >= -1
    ensures Quiet(k.fails, |old(k.trace)|, |k.trace|) ==>
              && count == (if t in v then FitCount(v[t], NR_KEYS) else 0)
              && k.maps == LoadTable(old(k.maps), v, c.keymapsLine, t)
  {
    hide Context.Valid, Loaded;
    count := 0;
    var there := c.MapExists(t);
    if there {
      count := SetKeymapTable(c, k, t, v[t]);
    } else if c.keymapsLine {
      var ok := ClearKeymapTable(k, t);
      count := if ok then 0 else -1;
    }
  }

  // loadkeys.c:125-141
  method SetTables(c: Context, k: CK.Kernel, ghost v: Tables) returns (count: int)
    requires c.Valid() && k !in c.Repr && c.View == v
    modifies k
    ensures c.Valid() && k.mode == old(k.mode) && old(k.trace) <= k.trace
    ensures OnlyEntries(k.trace, |old(k.trace)|, |k.trace|) && count >= -1
    ensures Quiet(k.fails, |old(k.trace)|, |k.trace|) ==>
              && count == CountAll(v, MAX_NR_KEYMAPS)
              && k.maps == LoadAll(old(k.maps), v, c.keymapsLine, MAX_NR_KEYMAPS)
  {
    hide Context.Valid, LoadTable;
    count := 0;
    ghost var maps, from := k.maps, |k.trace|;
    for t := 0 to MAX_NR_KEYMAPS
      invariant c.Valid() && k.mode == old(k.mode) && old(k.trace) <= k.trace
      invariant OnlyEntries(k.trace, from, |k.trace|) && count >= 0
      invariant Quiet(k.fails, from, |k.trace|) ==>
                  count == CountAll(v, t) && k.maps == LoadAll(maps, v, c.keymapsLine, t)
    {
      var ct := SetTable(c, k, t, v);
      if ct < 0 {
        return -1;
      }
      count := count + ct;
    }
  }

  // set_keymap.  Whatever fails, once the switch to Unicode mode worked the last request restores the
  // mode the caller asked for.
  method SetKeymap(c: Context, k: CK.Kernel, unicodeMode: bool, kbdMode: int) returns (count: int)
    requires c.Valid() && k !in c.Repr
    modifies k
    ensures c.Valid() && old(k.trace) <= k.trace && count >= -1
    ensures !unicodeMode ==> k.mode == old(k.mode) && OnlyEntries(k.trace, |old(k.trace)|, |k.trace|)
    ensures unicodeMode && k.fails(|old(k.trace)|).Some? ==>
              count == -1 && k.trace == old(k.trace) + [CK.SetMode(K_UNICODE)]
              && k.mode == old(k.mode) && k.maps == old(k.maps)
    ensures unicodeMode && k.fails(|old(k.trace)|).None? ==>
              var first, last := |old(k.trace)|, |k.trace| - 1;
              && first < last && k.trace[first] == CK.SetMode(K_UNICODE) && k.trace[last] == CK.SetMode(kbdMode)
              && OnlyEntries(k.trace, first + 1, last)
              && k.mode == (if k.fails(last).None? then kbdMode else K_UNICODE)
              && (k.fails(last).Some? ==> count == -1)
    ensures Quiet(k.fails, |old(k.trace)|, |k.trace|) ==>
              && count == StorableCount(c.View, 256)
              && k.maps == LoadAll(old(k.maps), c.View, c.keymapsLine, MAX_NR_KEYMAPS)
  {
    hide Context.Valid, LoadTable, StorableCount, CountAll;
    CountAllIs(c.View, MAX_NR_KEYMAPS);
    ghost var v, line, maps, from := c.View, c.keymapsLine, k.maps, |k.trace|;
    if unicodeMode {
      var fail := k.ChangeMode(K_UNICODE);
      if fail != None {
        return -1;
      }
    }
    ghost var begin := |k.trace|;
    count := SetTables(c, k, v);
    if unicodeMode {
      var fail := k.ChangeMode(kbdMode);
      if fail != None {
        return -1;
      }
    }
  }

  // ---------------------------------------------------------------- what loading achieves

  function TableAt(m: CK.KernelTables, t: Byte): Option<CK.KeyTable> {
    if t in m then Some(m[t]) else None
  }

  lemma {:induction false} LoadAllAt(m: CK.KernelTables, v: Tables, keymapsLine: bool, n: nat, t: Byte)
    requires n <= MAX_NR_KEYMAPS
    ensures TableAt(LoadAll(m, v, keymapsLine, n), t) ==
              TableAt(if t < n then LoadTable(m, v, keymapsLine, t) else m, t)
  {
    if n > 0 {
      LoadAllAt(m, v, keymapsLine, n - 1, t);
      LoadTableAt(LoadAll(m, v, keymapsLine, n - 1), m, v, keymapsLine, n - 1, t);
    }
  }

  // Loading a table looks at no other table and changes no other table.
  lemma LoadTableAt(w: CK.KernelTables, m: CK.KernelTables, v: Tables, keymapsLine: bool, u: Byte, t: Byte)
    ensures t != u ==> TableAt(LoadTable(w, v, keymapsLine, u), t) == TableAt(w, t)
    ensures TableAt(w, u) == TableAt(m, u) ==>
              TableAt(LoadTable(w, v, keymapsLine, u), u) == TableAt(LoadTable(m, v, keymapsLine, u), u)
  {
    hide Overlay, AnyLands;
    assert u in w <==> TableAt(w, u).Some?;
    assert u in m <==> TableAt(m, u).Some?;
  }

  // Table t of the kernel is the old one overlaid with every code that fits; nothing else is in it.
  ghost predicate OverlaidAt(m: CK.KernelTables, w: CK.KernelTables, codes: Codes, t: Byte) {
    && (forall i | 0 <= i < NR_KEYS && Fits(codes, i) :: t in w && w[t][i] == codes[i])
    && (forall i | 0 <= i < NR_KEYS && !Fits(codes, i) && t in w ::
          w[t][i] == if t in m then m[t][i] else if i == 0 then 0x27e else 0x200)
    && (t in w <==> t in m || exists i | 0 <= i < NR_KEYS :: Fits(codes, i))
  }

  // That is so exactly when key 0 is not bound to the code that drops tables.
  lemma OverlaidIff(m: CK.KernelTables, codes: Codes, t: Byte)
    ensures OverlaidAt(m, Loaded(m, t, codes, NR_KEYS), codes, t) <==> !Drops(codes)
  {
    if !Drops(codes) {
      assert forall i | 0 <= i < NR_KEYS :: Lands(codes, i) <==> Fits(codes, i);
      assert AnyLands(codes, NR_KEYS) <==> exists i | 0 <= i < NR_KEYS :: Fits(codes, i);
    } else {
      assert Fits(codes, 0) && !Lands(codes, 0);
    }
  }

  // With no failure every table of the context overlays the kernel's, and under an explicit `keymaps`
  // line no other table remains.
  lemma LoadedOverlays(m: CK.KernelTables, v: Tables, keymapsLine: bool, t: Byte)
    requires t in v ==> !Drops(v[t])
    ensures var w := LoadAll(m, v, keymapsLine, MAX_NR_KEYMAPS);
            && (t in v ==> OverlaidAt(m, w, v[t], t))
            && (t !in v && keymapsLine ==> t !in w)
            && (t !in v && !keymapsLine ==> TableAt(w, t) == TableAt(m, t))
  {
    hide Loaded;
    LoadAllAt(m, v, keymapsLine, MAX_NR_KEYMAPS, t);
    var w := LoadAll(m, v, keymapsLine, MAX_NR_KEYMAPS);
    if t in v {
      OverlaidIff(m, v[t], t);
      SameAt(m, w, Loaded(m, t, v[t], NR_KEYS), v[t], t);
    }
  }

  lemma SameAt(m: CK.KernelTables, w: CK.KernelTables, w': CK.KernelTables, codes: Codes, t: Byte)
    requires TableAt(w, t) == TableAt(w', t) && OverlaidAt(m, w', codes, t)
    ensures OverlaidAt(m, w, codes, t)
  {
    assert t in w <==> TableAt(w, t).Some?;
    assert t in w' <==> TableAt(w', t).Some?;
  }

  // ---------------------------------------------------------------- reading the kernel

  // The codes of one kernel table.
  function CodesOf(s: CK.KeyTable, n: nat): Codes
    requires n <= NR_KEYS
  {
    map i: Uint32 | 0 <= i < n :: s[i]
  }

  // A table whose first entry is K_NOSUCHMAP looks as if it were not there.
  predicate Visible(m: CK.KernelTables, t: Byte) {
    t in m && m[t][0] != CK.K_NOSUCHMAP
  }

  // What lk_kernel_keys puts into an empty context, the tables below n read.
  function ReadAll(m: CK.KernelTables, n: nat): Tables
    requires n <= MAX_NR_KEYMAPS
  {
    map t: Uint32 | 0 <= t < n && Visible(m, t) :: CodesOf(m[t], NR_KEYS)
  }

  // Codes for all keys of a table, none of them dropping it, are what the kernel then holds.
  lemma CodesLoad(t: Byte, codes: Codes, s: CK.KeyTable)
    requires forall i: Uint32 | i < NR_KEYS :: i in codes && codes[i] == s[i]
    requires s[0] != CK.K_NOSUCHMAP
    ensures TableAt(Loaded(map[], t, codes, NR_KEYS), t) == Some(s)
  {
    assert !Drops(codes) && Lands(codes, 0);
    assert Overlay(CK.EmptyTable(), codes, NR_KEYS) == s;
  }

  // A constant letter of the first table comes back as KT_LETTER.
  function Relettered(s: CK.KeyTable, consts: Flags): CK.KeyTable {
    seq(NR_KEYS, k requires 0 <= k < NR_KEYS =>
      if IsConstant(consts, k) && IsLetterKey(s[k]) then K(KT_LETTER, Kval(s[k])) else s[k])
  }

  lemma RelettersIff(s: CK.KeyTable, consts: Flags)
    ensures Relettered(s, consts) == s <==>
              forall k: Uint32 | k < NR_KEYS && IsConstant(consts, k) && IsLetterKey(s[k]) :: Ktyp(s[k]) == KT_LETTER
    ensures s[0] != CK.K_NOSUCHMAP ==> Relettered(s, consts)[0] != CK.K_NOSUCHMAP
  {
    hide IsLetterKey;
    forall k: Uint32 | k < NR_KEYS
      ensures K(KT_LETTER, Kval(s[k])) == s[k] <==> Ktyp(s[k]) == KT_LETTER
    {
    }
    if Relettered(s, consts) == s {
      assert forall k: Uint32 | k < NR_KEYS :: Relettered(s, consts)[k] == s[k];
    }
  }

  // What lk_kernel_keys leaves in an empty context.
  function Reread(m: CK.KernelTables, alt: bool, consts: Flags): Tables {
    var v := ReadAll(m, MAX_NR_KEYMAPS);
    if 0 in v then ExpandAll(v, alt, 0, consts, |consts|) else v
  }

  function After(m: CK.KernelTables, consts: Flags, t: Byte): CK.KeyTable
    requires t in m
  {
    if t == 0 then Relettered(m[t], consts) else m[t]
  }

  lemma RereadAt(m: CK.KernelTables, alt: bool, consts: Flags, t: Byte)
    ensures t in Reread(m, alt, consts) <==> Visible(m, t)
    ensures Visible(m, t) ==>
              var codes := Reread(m, alt, consts)[t];
              forall i: Uint32 | i < NR_KEYS :: i in codes && codes[i] == After(m, consts, t)[i]
  {
    hide ExpandAll, IsLetterKey, Kval, K;
    var v := ReadAll(m, MAX_NR_KEYMAPS);
    var w := Reread(m, alt, consts);
    if 0 in v {
      AllExpanded(v, alt, 0, consts, 0, 0);
    }
    if t in v {
      forall i: Uint32 | i < NR_KEYS
        ensures t in w && i in w[t] && w[t][i] == After(m, consts, t)[i]
      {
        assert CodeAt(v, t, i) == Some(m[t][i]);
        if 0 in v {
          AllExpanded(v, alt, 0, consts, t, i);
          assert CodeAt(w, t, i) == Some(After(m, consts, t)[i]);
        }
      }
    }
  }

  // The keys read from a kernel, constant keys expanded as lk_kernel_keys does, and loaded into a kernel
  // without tables reproduce it exactly when no allocated table starts with K_NOSUCHMAP and the constant
  // letters of table 0 are marked as letters.
  lemma KernelRoundTripIff(m: CK.KernelTables, alt: bool, consts: Flags, line: bool)
    ensures LoadAll(map[], Reread(m, alt, consts), line, MAX_NR_KEYMAPS) == m <==>
              (forall t | t in m :: m[t][0] != CK.K_NOSUCHMAP)
              && (0 in m ==> forall k: Uint32 |
                    k < NR_KEYS && IsConstant(consts, k) && IsLetterKey(m[0][k]) :: Ktyp(m[0][k]) == KT_LETTER)
  {
    hide Loaded, Reread, Relettered, IsLetterKey, Ktyp;
    var v := Reread(m, alt, consts);
    var w := LoadAll(map[], v, line, MAX_NR_KEYMAPS);
    forall t: Byte
      ensures TableAt(w, t) == if Visible(m, t) then Some(After(m, consts, t)) else None
    {
      LoadAllAt(map[], v, line, MAX_NR_KEYMAPS, t);
      RereadAt(m, alt, consts, t);
      if Visible(m, t) {
        RelettersIff(m[t], consts);
        CodesLoad(t, v[t], After(m, consts, t));
      }
    }
    if 0 in m {
      RelettersIff(m[0], consts);
    }
    SameKernelIff(w, m, consts);
  }

  lemma SameKernelIff(w: CK.KernelTables, m: CK.KernelTables, consts: Flags)
    requires forall t: Byte :: TableAt(w, t) == if Visible(m, t) then Some(After(m, consts, t)) else None
    ensures w == m <==>
              (forall t | t in m :: m[t][0] != CK.K_NOSUCHMAP) && (0 in m ==> Relettered(m[0], consts) == m[0])
  {
    hide Relettered;
    assert forall t | t in w :: TableAt(w, t) == Some(w[t]);
    if w == m {
      assert forall t | t in m :: TableAt(w, t) == Some(m[t]);
    }
    if (forall t | t in m :: m[t][0] != CK.K_NOSUCHMAP) && (0 in m ==> Relettered(m[0], consts) == m[0]) {
      assert forall t | t in m :: TableAt(w, t) == Some(m[t]);
    }
  }

  // The first n keys of a kernel table added to a context.
  function ReadKeys(v: Tables, alt: bool, s: CK.KeyTable, t: Byte, n: nat): Tables
    requires n <= NR_KEYS
  {
    if n == 0 then v else Add(ReadKeys(v, alt, s, t, n - 1), alt, t, n - 1, s[n - 1])
  }

  // The first n kernel tables added to a context.
  function ReadTables(v: Tables, alt: bool, m: CK.KernelTables, n: nat): Tables
    requires n <= MAX_NR_KEYMAPS
  {
    if n == 0 then v else ReadOne(ReadTables(v, alt, m, n - 1), alt, m, n - 1)
  }

  function ReadOne(v: Tables, alt: bool, m: CK.KernelTables, t: Byte): Tables {
    if Visible(m, t) then ReadKeys(v, alt, m[t], t, NR_KEYS) else v
  }

  // Under an explicit `keymaps` line a table that it does not name cannot be read.
  predicate Refused(v: Tables, line: bool, m: CK.KernelTables, t: Byte) {
    line && Visible(m, t) && t !in v
  }

  // The first table below n that is refused, or n.
  function FirstRefused(v: Tables, line: bool, m: CK.KernelTables, n: nat): (a: nat)
    requires n <= MAX_NR_KEYMAPS
    ensures a <= n
  {
    if n == 0 then 0 else
      var a := FirstRefused(v, line, m, n - 1);
      if a < n - 1 || Refused(v, line, m, n - 1) then a else n
  }

  // It is the lowest table of the kernel that does not start with K_NOSUCHMAP and that the line leaves out.
  lemma {:induction false} FirstRefusedIs(v: Tables, line: bool, m: CK.KernelTables, n: nat)
    requires n <= MAX_NR_KEYMAPS
    ensures var a := FirstRefused(v, line, m, n);
            && (a < n ==> line && a in m && m[a][0] != 0x27f && a !in v)
            && (line ==> forall t | t in m && t < a && m[t][0] != 0x27f :: t in v)
            && (!line ==> a == n)
  {
    if n > 0 {
      FirstRefusedIs(v, line, m, n - 1);
    }
  }

  lemma {:induction false} RefusalStays(v: Tables, line: bool, m: CK.KernelTables, a: nat, n: nat)
    requires a < n <= MAX_NR_KEYMAPS && FirstRefused(v, line, m, a) == a && Refused(v, line, m, a)
    ensures FirstRefused(v, line, m, n) == a
  {
    if a + 1 < n {
      RefusalStays(v, line, m, a, n - 1);
    }
  }

  lemma {:induction false} ReadKeysKeys(v: Tables, alt: bool, s: CK.KeyTable, t: Byte, n: nat)
    requires n <= NR_KEYS && t in v
    ensures ReadKeys(v, alt, s, t, n).Keys == v.Keys
  {
    if n > 0 {
      ReadKeysKeys(v, alt, s, t, n - 1);
    }
  }

  // kernel.c:29-49: one table
  method ReadTable(c: Context, k: CK.Kernel, t: Byte) returns (ok: bool)
    requires c.Valid() && k !in c.Repr
    modifies c.Repr, k
    ensures c.Valid() && fresh(c.Repr - old(c.Repr))
    ensures c.altIsMeta == old(c.altIsMeta) && c.keymapsLine == old(c.keymapsLine)
    ensures k.maps == old(k.maps) && k.mode == old(k.mode) && |k.trace| > |old(k.trace)|
    ensures Quiet(k.fails, |old(k.trace)|, |k.trace|) ==>
              (ok <==> !Refused(old(c.View), c.keymapsLine, k.maps, t))
              && c.View == if ok then ReadOne(old(c.View), c.altIsMeta, k.maps, t) else old(c.View)
  {
    hide Context.Valid, Add;
    ghost var v, alt, line, m, from := c.View, c.altIsMeta, c.keymapsLine, k.maps, |k.trace|;
    for i := 0 to NR_KEYS
      invariant c.Valid() && fresh(c.Repr - old(c.Repr)) && k !in c.Repr
      invariant c.altIsMeta == alt && c.keymapsLine == line
      invariant k.maps == m && k.mode == old(k.mode) && |k.trace| >= from + i
      invariant i > 0 && Quiet(k.fails, from, |k.trace|) ==> Visible(m, t) && !Refused(v, line, m, t)
      invariant Quiet(k.fails, from, |k.trace|) ==>
                  c.View == if i == 0 then v else ReadKeys(v, alt, m[t], t, i)
    {
      var e, value := k.ReadEntry(t, i);
      if e != None {
        return false;
      }
      if i == 0 && value == CK.K_NOSUCHMAP {
        return true;
      }
      if i > 0 && t in v && Quiet(k.fails, from, |k.trace|) {
        ReadKeysKeys(v, alt, m[t], t, i);
      }
      ok := c.AddKey(t, i, value);
      if !ok {
        return;
      }
    }
    ok := true;
  }

  // kernel.c:24-50
  method ReadKernel(c: Context, k: CK.Kernel) returns (ok: bool)
    requires c.Valid() && k !in c.Repr
    modifies c.Repr, k
    ensures c.Valid() && fresh(c.Repr - old(c.Repr))
    ensures c.altIsMeta == old(c.altIsMeta) && c.keymapsLine == old(c.keymapsLine)
    ensures k.maps == old(k.maps) && k.mode == old(k.mode) && |k.trace| >= |old(k.trace)|
    ensures Quiet(k.fails, |old(k.trace)|, |k.trace|) ==>
              var n := FirstRefused(old(c.View), c.keymapsLine, k.maps, MAX_NR_KEYMAPS);
              (ok <==> n == MAX_NR_KEYMAPS) && c.View == ReadTables(old(c.View), c.altIsMeta, k.maps, n)
  {
    hide Context.Valid, ReadOne, Refused;
    ghost var v, alt, line, m, from := c.View, c.altIsMeta, c.keymapsLine, k.maps, |k.trace|;
    for t := 0 to MAX_NR_KEYMAPS
      invariant c.Valid() && fresh(c.Repr - old(c.Repr)) && k !in c.Repr
      invariant c.altIsMeta == alt && c.keymapsLine == line
      invariant k.maps == m && k.mode == old(k.mode) && |k.trace| >= from
      invariant Quiet(k.fails, from, |k.trace|) ==>
                  c.View == ReadTables(v, alt, m, t) && FirstRefused(v, line, m, t) == t
                  && (line ==> c.View.Keys == v.Keys)
    {
      ghost var before := c.View;
      ok := ReadTable(c, k, t);
      SameRefused(v, before, line, m, t);
      if !ok {
        if Quiet(k.fails, from, |k.trace|) {
          RefusalStays(v, line, m, t, MAX_NR_KEYMAPS);
        }
        return;
      }
      ReadOneKeys(before, alt, line, m, t);
    }
    ok := true;
  }

  lemma SameRefused(v: Tables, w: Tables, line: bool, m: CK.KernelTables, t: Byte)
    ensures (line ==> v.Keys == w.Keys) ==> (Refused(v, line, m, t) <==> Refused(w, line, m, t))
  {
  }

  lemma ReadOneKeys(v: Tables, alt: bool, line: bool, m: CK.KernelTables, t: Byte)
    ensures line && !Refused(v, line, m, t) ==> ReadOne(v, alt, m, t).Keys == v.Keys
  {
    if line && Visible(m, t) && t in v {
      ReadKeysKeys(v, alt, m[t], t, NR_KEYS);
    }
  }

  // lk_kernel_keys
  method KernelKeys(c: Context, k: CK.Kernel, consts: Flags) returns (ok: bool, ghost r0: nat)
    requires c.Valid() && k !in c.Repr
    modifies c.Repr, k
    ensures c.Valid() && fresh(c.Repr - old(c.Repr))
    ensures c.altIsMeta == old(c.altIsMeta) && c.keymapsLine == old(c.keymapsLine)
    ensures k.maps == old(k.maps) && k.mode == old(k.mode)
    ensures Quiet(k.fails, |old(k.trace)|, |k.trace|) ==>
              var n := FirstRefused(old(c.View), c.keymapsLine, k.maps, MAX_NR_KEYMAPS);
              var v := ReadTables(old(c.View), c.altIsMeta, k.maps, n);
              && (n < MAX_NR_KEYMAPS ==> !ok && c.View == v)
              && (n == MAX_NR_KEYMAPS ==>
                    && IsSource(v, c.keymapsLine, r0)
                    && (ok <==> r0 in v || forall i | 0 <= i < |consts| :: !consts[i])
                    && c.View == if r0 in v then ExpandAll(v, c.altIsMeta, r0, consts, |consts|) else v)
  {
    hide Context.Valid, ReadTables, FirstRefused, IsSource;
    r0 := 0;
    ok := ReadKernel(c, k);
    if !ok {
      return;
    }
    ok, r0 := AddConstants(c, consts);
  }

  lemma {:induction false} ReadKeysIs(v: Tables, alt: bool, s: CK.KeyTable, t: Byte, n: nat)
    requires 0 < n <= NR_KEYS && t !in v && AltTable(t) !in v
    ensures ReadKeys(v, alt, s, t, n) == v[t := CodesOf(s, n)]
  {
    hide AltTable, IsAscii;
    if n > 1 {
      ReadKeysIs(v, alt, s, t, n - 1);
      assert CodesOf(s, n) == CodesOf(s, n - 1)[n - 1 := s[n - 1]];
    } else {
      assert ReadKeys(v, alt, s, t, 0) == v;
      assert CodesOf(s, 1) == map[0 := s[0]];
    }
  }

  // Reading into an empty context copies the tables, whether alt_is_meta is on or not.
  lemma {:induction false} ReadTablesIs(alt: bool, m: CK.KernelTables, n: nat)
    requires n <= MAX_NR_KEYMAPS
    ensures ReadTables(map[], alt, m, n) == ReadAll(m, n)
  {
    hide CodesOf, ReadKeys;
    if n > 0 {
      ReadTablesIs(alt, m, n - 1);
      if Visible(m, n - 1) {
        ReadKeysIs(ReadAll(m, n - 1), alt, m[n - 1], n - 1, NR_KEYS);
      }
    }
  }
}
