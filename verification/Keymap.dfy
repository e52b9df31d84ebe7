/**
  kmap.c: the keymaps of a context, a sparse array of tables of key codes, together with `alt_is_meta`
  and the constant keys.
 */
module Keymaps {
  import opened Bytes
  import opened LkArrays

  const NR_KEYS := 256
  const MAX_NR_KEYMAPS := 256

  const KT_LATIN := 0
  const KT_META := 8
  const KT_LETTER := 11

  const K_HOLE: int := 0x200
  const CODE_FOR_UNKNOWN_KSYM := -1

  // Key codes, with room for the code + 1 that is stored.
  type Code = x: int | -0x8000_0000 <= x < 0x7FFF_FFFF

  // Arithmetic shift and mask, also for negative codes.
  function Ktyp(code: int): int {
    code / 0x100
  }

  function Kval(code: int): Byte {
    code % 0x100
  }

  function K(typ: int, val: int): int {
    typ * 0x100 + val
  }

  // k_table | M_ALT
  function AltTable(table: Uint32): Uint32 {
    if table / 8 % 2 == 1 then table else table + 8
  }

  // ---------------------------------------------------------------- tables as values

  type Tables = map<Uint32, map<Uint32, Code>>

  predicate Bound(v: Tables, t: Uint32, k: Uint32) {
    t in v && k in v[t]
  }

  // lk_get_key
  function Lookup(v: Tables, t: Uint32, k: Uint32): int {
    if t !in v then -1 else if k in v[t] then v[t][k] else K_HOLE
  }

  function CodeAt(v: Tables, t: Uint32, k: Uint32): Option<Code> {
    if Bound(v, t, k) then Some(v[t][k]) else None
  }

  function Put(v: Tables, t: Uint32, k: Uint32, code: Code): Tables {
    v[t := (if t in v then v[t] else map[])[k := code]]
  }

  lemma PutAt(v: Tables, t: Uint32, k: Uint32, code: Code, t': Uint32, k': Uint32)
    ensures CodeAt(Put(v, t, k, code), t', k') == if t' == t && k' == k then Some(code) else CodeAt(v, t', k')
    ensures t' in Put(v, t, k, code) <==> t' in v || t' == t
  {
  }

  // An ASCII character, which `alt_is_meta` turns into a Meta code.
  predicate IsAscii(code: int) {
    (Ktyp(code) == KT_LATIN || Ktyp(code) == KT_LETTER) && Kval(code) < 128
  }

  // The Alt table is there and has nothing for the key yet.
  predicate WantsMeta(v: Tables, t: Uint32, k: Uint32, code: int) {
    AltTable(t) != t && AltTable(t) in v && k !in v[AltTable(t)] && IsAscii(code)
  }

  // lk_add_key, once it does not fail
  function Add(v: Tables, altIsMeta: bool, t: Uint32, k: Uint32, code: Code): Tables {
    if altIsMeta && code == K_HOLE && Bound(v, t, k) then v else
      var v1 := Put(v, t, k, code);
      if altIsMeta && WantsMeta(v1, t, k, code) then Put(v1, AltTable(t), k, K(KT_META, Kval(code))) else v1
  }

  function Delete(v: Tables, t: Uint32, k: Uint32): Tables {
    if t in v then v[t := v[t] - {k}] else v
  }

  // ---------------------------------------------------------------- the context

  // Stored items hold the code plus one.
  ghost function Codes(m: map<nat, int>): map<nat, int> {
    map k | k in m :: m[k] - 1
  }

  lemma CodesStored(m: map<nat, int>, k: nat, code: int)
    ensures code != -1 ==> Codes(Stored(m, 0, k, code + 1)) == Codes(m)[k := code]
    ensures Codes(m - {k}) == Codes(m) - {k}
  {
  }

  // The array of one table.
  ghost predicate TableOk(a: LkArray<int>, codes: map<Uint32, Code>)
    reads a, a.items
  {
    a.Valid() && a.memb == 4 && a.zero == 0 && Codes(a.Contents()) == codes
  }

  method NewTable() returns (a: LkArray<int>)
    ensures TableOk(a, map[]) && fresh(a) && fresh(a.items)
  {
    a := new LkArray(4, 0, 0);
  }

  // lk_key_exists and lk_get_key within one table
  method ReadTable(a: LkArray<int>, ghost codes: map<Uint32, Code>, k: Uint32) returns (code: Option<int>)
    requires TableOk(a, codes)
    ensures code == if k in codes then Some(codes[k]) else None
    ensures code != Some(CODE_FOR_UNKNOWN_KSYM)
  {
    var key := a.Get(k);
    if key.None? || key.value == 0 {
      return None;
    }
    return Some(key.value - 1);
  }

  method WriteTable(a: LkArray<int>, ghost codes: map<Uint32, Code>, k: Uint32, code: Code)
    requires TableOk(a, codes) && code != CODE_FOR_UNKNOWN_KSYM
    modifies a, a.items
    ensures TableOk(a, codes[k := code]) && (a.items == old(a.items) || fresh(a.items))
  {
    CodesStored(a.Contents(), k, code);
    var ok := a.Set(k, code + 1);
  }

  method ClearKey(a: LkArray<int>, ghost codes: map<Uint32, Code>, k: Uint32)
    requires TableOk(a, codes)
    modifies a, a.items
    ensures TableOk(a, codes - {k}) && a.items == old(a.items)
  {
    CodesStored(a.Contents(), k, -1);
    var there := a.Exists(k);
    if there {
      var ok := a.Unset(k);
    } else {
      assert codes - {k} == codes;
    }
  }

  // Every table has an array of its own with the codes of v.
  ghost predicate Rows(rows: map<nat, LkArray<int>>, v: Tables, repr: set<object>)
    reads repr
  {
    && rows.Keys == v.Keys
    && (forall t | t in rows :: rows[t] in repr && rows[t].items in repr && TableOk(rows[t], v[t]))
    && (forall t, u {:trigger rows[t], rows[u]} | t in rows && u in rows && t != u ::
          rows[t] != rows[u] && rows[t].items != rows[u].items)
  }

  lemma RowsAdd(rows: map<nat, LkArray<int>>, v: Tables, repr: set<object>, t: Uint32, a: LkArray<int>)
    requires Rows(rows, v, repr) && a !in repr && a.items !in repr && TableOk(a, map[])
    ensures Rows(rows[t := a], v[t := map[]], repr + {a, a.items})
  {
  }

  method ClearRow(ghost rows: map<nat, LkArray<int>>, ghost v: Tables, ghost repr: set<object>, a: LkArray<int>,
                  t: Uint32, k: Uint32)
    requires Rows(rows, v, repr) && t in rows && rows[t] == a
    modifies a, a.items
    ensures Rows(rows, Delete(v, t, k), repr)
  {
    hide TableOk;
    ClearKey(a, v[t], k);
    forall u | u in rows
      ensures TableOk(rows[u], Delete(v, t, k)[u])
    {
      if u != t {
        assert TableOk(rows[u], v[u]);
      }
    }
  }

  method WriteRow(ghost rows: map<nat, LkArray<int>>, ghost v: Tables, ghost repr: set<object>, a: LkArray<int>,
                  t: Uint32, k: Uint32, code: Code) returns (ghost repr': set<object>)
    requires Rows(rows, v, repr) && t in rows && rows[t] == a && code != CODE_FOR_UNKNOWN_KSYM
    modifies a, a.items
    ensures Rows(rows, Put(v, t, k, code), repr') && repr <= repr' && fresh(repr' - repr)
  {
    hide TableOk;
    WriteTable(a, v[t], k, code);
    repr' := repr + {a.items};
    forall u | u in rows
      ensures TableOk(rows[u], Put(v, t, k, code)[u])
    {
      if u != t {
        assert TableOk(rows[u], v[u]);
      }
    }
  }

  // The table of tables.
  ghost predicate TopOk(keymap: LkArray<LkArray?<int>>, rows: map<nat, LkArray<int>>)
    reads keymap, keymap.items
  {
    && keymap.Valid() && keymap.memb == 8 && keymap.zero == null && keymap.items.Length <= 0x1_0000_0000
    && keymap.Contents().Keys == rows.Keys && forall t | t in rows :: keymap.Contents()[t] == rows[t]
  }

  // lk_array_set on the table of tables never fails: a table number has 32 bits.
  method LinkTable(keymap: LkArray<LkArray?<int>>, ghost rows: map<nat, LkArray<int>>, t: Uint32, a: LkArray<int>)
    requires TopOk(keymap, rows)
    modifies keymap, keymap.items
    ensures TopOk(keymap, rows[t := a]) && (keymap.items == old(keymap.items) || fresh(keymap.items))
  {
    hide LkArray.Contents;
    var ok := keymap.Set(t, a);
  }

  class Context {
    var altIsMeta: bool   // LK_KEYWORD_ALTISMETA
    var keymapsLine: bool  // LK_KEYWORD_KEYMAPS
    const keymap: LkArray<LkArray?<int>>
    ghost var View: Tables
    ghost var rows: map<nat, LkArray<int>>  // the array of every table
    ghost var Below: set<object>            // the arrays of the tables
    ghost var Repr: set<object>

    ghost predicate Valid()
      reads this, Repr
    {
      && this in Repr && keymap in Repr && keymap.items in Repr && Below <= Repr
      && Below !! {this, keymap, keymap.items}
      && TopOk(keymap, rows) && Rows(rows, View, Below)
    }

    constructor ()
      ensures Valid() && View == map[] && fresh(Repr) && !altIsMeta && !keymapsLine
    {
      altIsMeta, keymapsLine := false, false;
      var a: LkArray<LkArray?<int>> := new LkArray(8, null, 0);
      keymap := a;
      View, rows, Below := map[], map[], {};
      Repr := {this, a, a.items};
    }

    lemma InRepr()
      requires Valid()
      ensures this in Repr
    {
    }

    // lk_set_keywords, for LK_KEYWORD_ALTISMETA
    method SetAltIsMeta(on: bool)
      requires Valid()
      modifies this`altIsMeta
      ensures Valid() && altIsMeta == on
    {
      altIsMeta := on;
    }

    // lk_map_exists, and the table if it does
    method Table(t: Uint32) returns (a: LkArray?<int>)
      requires Valid()
      ensures a == null <==> t !in View
      ensures a != null ==> t in rows && a == rows[t] && a in Below && a.items in Below && TableOk(a, View[t])
    {
      var p := keymap.Get(t);
      a := if p.Some? then p.value else null;
    }

    method MapExists(t: Uint32) returns (there: bool)
      requires Valid()
      ensures there <==> t in View
    {
      var a := Table(t);
      there := a != null;
    }

    // No table lies at or past the number of slots.
    method Total() returns (n: nat)
      requires Valid()
      ensures n <= 0x1_0000_0000 && forall t | t in View :: t < n
    {
      n := keymap.items.Length;
      assert forall t | t in rows :: t in keymap.Contents();
    }

    // lk_key_exists
    method KeyExists(t: Uint32, k: Uint32) returns (there: bool)
      requires Valid()
      ensures there <==> Bound(View, t, k)
    {
      var a := Table(t);
      if a == null {
        return false;
      }
      var code := ReadTable(a, View[t], k);
      there := code.Some?;
    }

    // lk_get_key
    method GetKey(t: Uint32, k: Uint32) returns (code: int)
      requires Valid()
      ensures code == Lookup(View, t, k)
      ensures t in View ==> code != CODE_FOR_UNKNOWN_KSYM
    {
      var a := Table(t);
      if a == null {
        return -1;
      }
      var key := ReadTable(a, View[t], k);
      code := if key.Some? then key.value else K_HOLE;
    }

    // lk_add_map
    method AddMap(t: Uint32)
      requires Valid()
      modifies Repr
      ensures Valid() && fresh(Repr - old(Repr))
      ensures altIsMeta == old(altIsMeta) && keymapsLine == old(keymapsLine)
      ensures View == if t in old(View) then old(View) else old(View)[t := map[]]
    {
      hide Valid;
      var there := MapExists(t);
      if !there {
        NewMap(t);
      }
    }

    // kmap.c:58-72
    method NewMap(t: Uint32)
      requires Valid() && t !in View
      modifies Repr
      ensures Valid() && fresh(Repr - old(Repr))
      ensures altIsMeta == old(altIsMeta) && keymapsLine == old(keymapsLine)
      ensures View == old(View)[t := map[]]
    {
      hide Rows, TableOk, TopOk;
      ghost var repr := Repr;
      var keys := NewTable();
      RowsAdd(rows, View, Below, t, keys);
      LinkTable(keymap, rows, t, keys);
      assert keymap.items in repr || fresh(keymap.items);
      Adopt(View[t := map[]], rows[t := keys], Below + {keys, keys.items}, repr + {keys, keys.items, keymap.items});
    }

    ghost method Adopt(view: Tables, rows: map<nat, LkArray<int>>, below: set<object>, repr: set<object>)
      requires TopOk(keymap, rows) && Rows(rows, view, below)
      requires this in repr && keymap in repr && keymap.items in repr && below <= repr
      requires below !! {this, keymap, keymap.items}
      modifies this`View, this`rows, this`Below, this`Repr
      ensures Valid() && View == view && Repr == repr
    {
      hide Rows, TableOk, TopOk;
      View, this.rows, Below, Repr := view, rows, below, repr;
    }

    // lk_array_set on the table t
    method PutKey(t: Uint32, k: Uint32, code: Code)
      requires Valid() && t in View && code != CODE_FOR_UNKNOWN_KSYM
      modifies Repr
      ensures Valid() && fresh(Repr - old(Repr))
      ensures altIsMeta == old(altIsMeta) && keymapsLine == old(keymapsLine)
      ensures View == Put(old(View), t, k, code)
    {
      hide Rows, TableOk, TopOk;
      var a := Table(t);
      Below := WriteRow(rows, View, Below, a, t, k, code);
      View := Put(View, t, k, code);
      Repr := Repr + Below;
    }

    // lk_add_key
    method AddKey(t: Uint32, k: Uint32, keycode: Code) returns (ok: bool)
      requires Valid()
      modifies Repr
      ensures Valid() && fresh(Repr - old(Repr))
      ensures altIsMeta == old(altIsMeta) && keymapsLine == old(keymapsLine)
      ensures ok <==> keycode != CODE_FOR_UNKNOWN_KSYM && (t in old(View) || !keymapsLine)
      ensures View == if ok then Add(old(View), altIsMeta, t, k, keycode) else old(View)
      decreases if AltTable(t) == t then 0 else 1, 1
    {
      hide Valid, AltTable, IsAscii;
      ghost var v := View;
      if keycode == CODE_FOR_UNKNOWN_KSYM {
        return false;
      }
      var there := MapExists(t);
      if !there {
        if keymapsLine {
          return false;
        }
        AddMap(t);
      }
      ok := true;
      if altIsMeta && keycode == K_HOLE {
        var set_ := KeyExists(t, k);
        if set_ {
          return;
        }
      }
      PutKey(t, k, keycode);
      assert View == Put(v, t, k, keycode);
      if altIsMeta {
        AddMeta(t, k, keycode);
      }
    }

    // kmap.c:152-164: under `alt_is_meta` an ASCII code also goes to the Alt table, as a Meta code.
    method AddMeta(t: Uint32, k: Uint32, keycode: Code)
      requires Valid() && altIsMeta
      modifies Repr
      ensures Valid() && fresh(Repr - old(Repr))
      ensures altIsMeta == old(altIsMeta) && keymapsLine == old(keymapsLine)
      ensures View == if WantsMeta(old(View), t, k, keycode)
                      then Put(old(View), AltTable(t), k, K(KT_META, Kval(keycode))) else old(View)
      decreases if AltTable(t) == t then 0 else 1, 0
    {
      hide Valid, Ktyp, Kval;
      var alttable := AltTable(t);
      var typ, val := Ktyp(keycode), Kval(keycode);
      if alttable == t {
        return;
      }
      var there := MapExists(alttable);
      var set_ := KeyExists(alttable, k);
      if there && !set_ && (typ == KT_LATIN || typ == KT_LETTER) && val < 128 {
        var ok := AddKey(alttable, k, K(KT_META, val));
      }
    }

    // lk_del_key
    method DelKey(t: Uint32, k: Uint32) returns (ok: bool)
      requires Valid()
      modifies Repr
      ensures Valid() && fresh(Repr - old(Repr))
      ensures altIsMeta == old(altIsMeta) && keymapsLine == old(keymapsLine)
      ensures ok <==> t in old(View)
      ensures View == Delete(old(View), t, k)
    {
      hide Rows, TableOk, TopOk;
      var a := Table(t);
      if a == null {
        return false;
      }
      ClearRow(rows, View, Below, a, t, k);
      View := Delete(View, t, k);
      return true;
    }
  }

  // ---------------------------------------------------------------- what the store promises

  // What one lk_add_key does, as seen by lk_get_key, in plain numbers: an ASCII character, Latin (0x000) or
  // letter (0xB00), also goes to the Alt table, 8 further on, as a Meta code (0x800).
  lemma AddEffect(v: Tables, altIsMeta: bool, t: Uint32, k: Uint32, code: Code, t': Uint32, k': Uint32)
    ensures var v' := Add(v, altIsMeta, t, k, code);
            Lookup(v', t', k') ==
              if t' == t && k' == k then (if altIsMeta && code == 0x200 && Bound(v, t, k) then v[t][k] else code)
              else if altIsMeta && t / 8 % 2 == 0 && t' == t + 8 && k' == k && t' in v && k !in v[t']
                      && (0 <= code < 0x80 || 0xB00 <= code < 0xB80)
              then 0x800 + code % 0x100
              else if t' == t && t !in v then 0x200
              else if t' !in v then -1
              else if k' in v[t'] then v[t'][k'] else 0x200
  {
  }
}
