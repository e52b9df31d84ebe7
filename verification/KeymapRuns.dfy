/**
  Runs of lk_add_map, lk_add_key and lk_del_key (kmap.c:50-167): the keymap store refines a map, and
  when `alt_is_meta` keeps the Alt tables complete.
 */
module KeymapRuns {
  import opened Bytes
  import opened Keymaps

  datatype Op = MapOp(t: Uint32) | AddOp(t: Uint32, k: Uint32, code: Code) | DelOp(t: Uint32, k: Uint32)

  // lk_add_key refuses unknown symbols, and tables outside an explicit `keymaps` line.
  predicate Accepts(there: bool, line: bool, code: Code) {
    code != CODE_FOR_UNKNOWN_KSYM && (there || !line)
  }

  // lk_add_map
  function WithTable(v: Tables, t: Uint32): Tables {
    if t in v then v else v[t := map[]]
  }

  function Apply(v: Tables, alt: bool, line: bool, op: Op): Tables {
    match op
    case MapOp(t) => WithTable(v, t)
    case AddOp(t, k, code) => if Accepts(t in v, line, code) then Add(v, alt, t, k, code) else v
    case DelOp(t, k) => Delete(v, t, k)
  }

  // One call on a context.
  method Perform(c: Context, op: Op)
    requires c.Valid()
    modifies c.Repr
    ensures c.Valid() && fresh(c.Repr - old(c.Repr))
    ensures c.altIsMeta == old(c.altIsMeta) && c.keymapsLine == old(c.keymapsLine)
    ensures c.View == Apply(old(c.View), c.altIsMeta, c.keymapsLine, op)
  {
    hide Context.Valid, Add, Delete;
    var ok;
    match op
    case MapOp(t) => c.AddMap(t);
    case AddOp(t, k, code) => ok := c.AddKey(t, k, code);
    case DelOp(t, k) => ok := c.DelKey(t, k);
  }

  function Replay(v: Tables, alt: bool, line: bool, ops: seq<Op>): Tables {
    if ops == [] then v else Apply(Replay(v, alt, line, ops[..|ops| - 1]), alt, line, ops[|ops| - 1])
  }

  // ---------------------------------------------------------------- the store is a map

  // Whether there is a table t after the run, by its history alone.
  function There(v: Tables, line: bool, ops: seq<Op>, t: Uint32): bool {
    if ops == [] then t in v else
      var op := ops[|ops| - 1];
      || There(v, line, ops[..|ops| - 1], t)
      || (op.MapOp? && op.t == t)
      || (op.AddOp? && op.t == t && op.code != CODE_FOR_UNKNOWN_KSYM && !line)
  }

  // The last code stored for key k of table t and not deleted since, by the history of that key alone:
  // its own additions and deletions, and under alt_is_meta those of the table t is the Alt table of.
  function LastStored(v: Tables, alt: bool, line: bool, ops: seq<Op>, t: Uint32, k: Uint32): Option<Code> {
    if ops == [] then CodeAt(v, t, k) else
      var before := ops[..|ops| - 1];
      var last := LastStored(v, alt, line, before, t, k);
      match ops[|ops| - 1]
      case MapOp(_) => last
      case DelOp(t', k') => if t' == t && k' == k then None else last
      case AddOp(t', k', code) =>
        if k' != k || !Accepts(There(v, line, before, t'), line, code) then last
        else if t' == t then (if alt && code == K_HOLE && last != None then last else Some(code))
        else if alt && AltTable(t') == t && There(v, line, before, t) && last == None && IsAscii(code)
        then Some(K(KT_META, Kval(code)))
        else last
  }

  lemma ApplyAt(v: Tables, alt: bool, line: bool, op: Op, t: Uint32, k: Uint32)
    ensures t in Apply(v, alt, line, op) <==>
              t in v || (op.MapOp? && op.t == t)
              || (op.AddOp? && op.t == t && op.code != CODE_FOR_UNKNOWN_KSYM && !line)
    ensures op.MapOp? ==> CodeAt(Apply(v, alt, line, op), t, k) == CodeAt(v, t, k)
    ensures op.DelOp? ==>
              CodeAt(Apply(v, alt, line, op), t, k) == if op.t == t && op.k == k then None else CodeAt(v, t, k)
  {
    hide AltTable, IsAscii;
  }

  lemma AddAt(v: Tables, alt: bool, t: Uint32, k: Uint32, code: Code, t': Uint32, k': Uint32)
    ensures CodeAt(Add(v, alt, t, k, code), t', k') ==
              if k' != k then CodeAt(v, t', k')
              else if t' == t then
                (if alt && code == K_HOLE && CodeAt(v, t, k) != None then CodeAt(v, t, k) else Some(code))
              else if alt && AltTable(t) == t' && t' in v && CodeAt(v, t', k) == None && IsAscii(code)
              then Some(K(KT_META, Kval(code)))
              else CodeAt(v, t', k')
  {
    hide AltTable, IsAscii;
    HoleIsNotAscii();
  }

  lemma HoleIsNotAscii()
    ensures !IsAscii(K_HOLE)
  {
  }

  // Over any run, with alt_is_meta or not, with a `keymaps` line or not, and refused calls included, a
  // table is there and a key has a code as the history of just that table and key says.
  lemma {:induction false} RunRefinesMap(v: Tables, alt: bool, line: bool, ops: seq<Op>, t: Uint32, k: Uint32)
    ensures var w := Replay(v, alt, line, ops);
            && (t in w <==> There(v, line, ops, t))
            && CodeAt(w, t, k) == LastStored(v, alt, line, ops, t, k)
            && Lookup(w, t, k) ==
                 if !There(v, line, ops, t) then -1
                 else if LastStored(v, alt, line, ops, t, k) == None then K_HOLE
                 else LastStored(v, alt, line, ops, t, k).value
  {
    hide Apply, Add, AltTable, IsAscii;
    if ops != [] {
      var before, op := ops[..|ops| - 1], ops[|ops| - 1];
      var w := Replay(v, alt, line, before);
      RunRefinesMap(v, alt, line, before, t, k);
      RunRefinesMap(v, alt, line, before, op.t, k);
      ApplyAt(w, alt, line, op, t, k);
      if op.AddOp? {
        ApplyAdd(w, alt, line, op.t, op.k, op.code);
        AddAt(w, alt, op.t, op.k, op.code, t, k);
      }
    }
    CodeOrHole(Replay(v, alt, line, ops), t, k);
  }

  lemma ApplyAdd(v: Tables, alt: bool, line: bool, t: Uint32, k: Uint32, code: Code)
    ensures Apply(v, alt, line, AddOp(t, k, code)) == if Accepts(t in v, line, code) then Add(v, alt, t, k, code) else v
  {
  }

  lemma CodeOrHole(v: Tables, t: Uint32, k: Uint32)
    ensures Lookup(v, t, k) == if t !in v then -1 else if CodeAt(v, t, k) == None then K_HOLE else CodeAt(v, t, k).value
    ensures CodeAt(v, t, k).Some? ==> t in v
  {
  }

  // ---------------------------------------------------------------- alt_is_meta

  // Every ASCII binding has a binding in its Alt table, if there is one.
  ghost predicate AltComplete(v: Tables) {
    forall t, k | Bound(v, t, k) && IsAscii(v[t][k]) && AltTable(t) in v :: Bound(v, AltTable(t), k)
  }

  // No table that t is the Alt table of has an ASCII code for a key other than `but`.
  ghost predicate NoneWaits(v: Tables, t: Uint32, but: Option<Uint32>) {
    forall u, k | u in v && AltTable(u) == t && Bound(v, u, k) && but != Some(k) :: !IsAscii(v[u][k])
  }

  // Key k of table t stands for an ASCII code of a table that t is the Alt table of.
  ghost predicate Needed(v: Tables, t: Uint32, k: Uint32) {
    Bound(v, t, k) && exists u :: u in v && u != t && AltTable(u) == t && Bound(v, u, k) && IsAscii(v[u][k])
  }

  // A deletion keeps the Alt tables complete exactly when the code was not needed.
  lemma DeleteKeepsIff(v: Tables, t: Uint32, k: Uint32)
    requires AltComplete(v)
    ensures AltComplete(Delete(v, t, k)) <==> !Needed(v, t, k)
  {
    hide AltTable, IsAscii;
    var w := Delete(v, t, k);
    forall u, k' ensures Bound(w, u, k') <==> Bound(v, u, k') && !(u == t && k' == k)
      ensures Bound(w, u, k') ==> w[u][k'] == v[u][k']
    {
    }
    AltTwice();
    if Needed(v, t, k) {
      var u :| u in v && u != t && AltTable(u) == t && Bound(v, u, k) && IsAscii(v[u][k]);
      assert Bound(w, u, k) && AltTable(u) in w && !Bound(w, t, k);
    }
  }

  lemma AltTwice()
    ensures forall u :: AltTable(AltTable(u)) == AltTable(u)
  {
  }

  // A new table keeps them complete exactly when no ASCII code waits for it ...
  lemma NewMapKeepsIff(v: Tables, t: Uint32)
    requires AltComplete(v) && t !in v
    ensures AltComplete(WithTable(v, t)) <==> NoneWaits(v, t, None)
  {
    hide AltTable, IsAscii;
    var w := WithTable(v, t);
    assert forall u, k :: Bound(w, u, k) <==> Bound(v, u, k);
    if !NoneWaits(v, t, None) {
      var u, k :| u in v && AltTable(u) == t && Bound(v, u, k) && IsAscii(v[u][k]);
      assert Bound(w, u, k) && AltTable(u) in w && !Bound(w, t, k);
    }
  }

  // ... but for the key the table is made for.
  lemma NewKeyKeepsIff(v: Tables, t: Uint32, k: Uint32, code: Code)
    requires AltComplete(v) && t !in v
    ensures AltComplete(Add(v, true, t, k, code)) <==> NoneWaits(v, t, Some(k))
  {
    hide AltTable, IsAscii, Add;
    var w := Add(v, true, t, k, code);
    NewKey(v, t, k, code);
    AltTwice();
    if !NoneWaits(v, t, Some(k)) {
      var u, k' :| u in v && AltTable(u) == t && Bound(v, u, k') && k' != k && IsAscii(v[u][k']);
      assert Bound(w, u, k') && AltTable(u) in w && !Bound(w, t, k');
    }
  }

  // What the tables look like after a key was added to a new one.
  lemma NewKey(v: Tables, t: Uint32, k: Uint32, code: Code)
    requires t !in v
    ensures var w := Add(v, true, t, k, code);
            && (forall u :: u in w <==> u in v || u == t)
            && (forall k' :: Bound(w, t, k') <==> k' == k) && w[t][k] == code
            && (forall u, k' | Bound(v, u, k') :: Bound(w, u, k') && w[u][k'] == v[u][k'])
            && (forall u, k' | Bound(w, u, k') && u != t && !Bound(v, u, k') ::
                  u == AltTable(t) && k' == k && !IsAscii(w[u][k']))
            && (IsAscii(code) && AltTable(t) in w ==> Bound(w, AltTable(t), k))
  {
    MetaIsNotAscii(code);
    HoleIsNotAscii();
    hide AltTable, IsAscii;
  }

  lemma MetaIsNotAscii(code: Code)
    ensures !IsAscii(K(KT_META, Kval(code)))
  {
  }

  // Adding a key to a table that is there always keeps them complete.
  lemma AddKeeps(v: Tables, t: Uint32, k: Uint32, code: Code)
    requires AltComplete(v) && t in v
    ensures AltComplete(Add(v, true, t, k, code)) && Add(v, true, t, k, code).Keys == v.Keys
  {
    var v' := Add(v, true, t, k, code);
    forall t', k' | Bound(v', t', k') && IsAscii(v'[t'][k']) && AltTable(t') in v'
      ensures Bound(v', AltTable(t'), k')
    {
      if Bound(v, t', k') && v[t'][k'] == v'[t'][k'] {
        assert Bound(v, AltTable(t'), k');
      }
    }
  }

  // The calls that keep the Alt tables complete.
  ghost predicate Keeps(v: Tables, line: bool, op: Op) {
    match op
    case MapOp(t) => t in v || NoneWaits(v, t, None)
    case AddOp(t, k, code) => t in v || !Accepts(false, line, code) || NoneWaits(v, t, Some(k))
    case DelOp(t, k) => !Needed(v, t, k)
  }

  lemma ApplyKeepsIff(v: Tables, line: bool, op: Op)
    requires AltComplete(v)
    ensures AltComplete(Apply(v, true, line, op)) <==> Keeps(v, line, op)
  {
    hide AltComplete, NoneWaits, Needed, Add, Delete;
    match op
    case MapOp(t) =>
      if t !in v {
        NewMapKeepsIff(v, t);
      }
    case AddOp(t, k, code) =>
      if t in v {
        AddKeeps(v, t, k, code);
      } else {
        NewKeyKeepsIff(v, t, k, code);
      }
    case DelOp(t, k) =>
      DeleteKeepsIff(v, t, k);
  }

  // The Alt tables are complete before the first and after every call of the run.
  ghost predicate CompleteThroughout(v: Tables, line: bool, ops: seq<Op>) {
    forall n | 0 <= n <= |ops| :: AltComplete(Replay(v, true, line, ops[..n]))
  }

  ghost predicate AllKeep(v: Tables, line: bool, ops: seq<Op>) {
    forall n | 0 <= n < |ops| :: Keeps(Replay(v, true, line, ops[..n]), line, ops[n])
  }

  lemma OneMoreCall(v: Tables, line: bool, before: seq<Op>, op: Op)
    ensures var ops := before + [op];
            && (CompleteThroughout(v, line, ops) <==>
                  CompleteThroughout(v, line, before) && AltComplete(Replay(v, true, line, ops)))
            && (AllKeep(v, line, ops) <==>
                  AllKeep(v, line, before) && Keeps(Replay(v, true, line, before), line, op))
  {
    hide AltComplete, Keeps, Replay;
    var ops := before + [op];
    assert forall n | 0 <= n <= |before| :: before[..n] == ops[..n];
    assert ops[..|before|] == before && ops[..|ops|] == ops && ops[|before|] == op;
  }

  // Over any run the Alt tables are complete throughout exactly when every call keeps them so.
  lemma {:induction false} RunKeepsIff(v: Tables, line: bool, ops: seq<Op>)
    requires AltComplete(v)
    ensures CompleteThroughout(v, line, ops) <==> AllKeep(v, line, ops)
  {
    hide AltComplete, Keeps, Apply, CompleteThroughout, AllKeep;
    if ops == [] {
      NoCalls(v, line);
    } else {
      var before, op := ops[..|ops| - 1], ops[|ops| - 1];
      RunKeepsIff(v, line, before);
      assert ops == before + [op];
      OneMoreCall(v, line, before, op);
      if CompleteThroughout(v, line, before) {
        AtTheEnd(v, line, before);
        ApplyKeepsIff(Replay(v, true, line, before), line, op);
      }
    }
  }

  lemma NoCalls(v: Tables, line: bool)
    requires AltComplete(v)
    ensures CompleteThroughout(v, line, []) && AllKeep(v, line, [])
  {
    var none: seq<Op> := [];
    assert none[..0] == none;
  }

  lemma AtTheEnd(v: Tables, line: bool, ops: seq<Op>)
    requires CompleteThroughout(v, line, ops)
    ensures AltComplete(Replay(v, true, line, ops))
  {
    hide AltComplete;
    assert ops[..|ops|] == ops;
  }

  // Calls that cannot harm: additions to tables there are at the start, and anything done to a table
  // that is not an Alt table.
  predicate Harmless(v: Tables, op: Op) {
    AltTable(op.t) != op.t || (!op.DelOp? && op.t in v)
  }

  lemma HarmlessKeeps(v: Tables, line: bool, op: Op)
    requires Harmless(v, op)
    ensures Keeps(v, line, op)
  {
    assert forall u :: AltTable(AltTable(u)) == AltTable(u) by {
      AltTwice();
    }
  }

  // Under alt_is_meta a run of such calls leaves every ASCII binding with a binding in its Alt table.
  lemma {:induction false} AltStaysComplete(v: Tables, line: bool, ops: seq<Op>)
    requires AltComplete(v) && forall op | op in ops :: Harmless(v, op)
    ensures AltComplete(Replay(v, true, line, ops))
    ensures forall t | t in v :: t in Replay(v, true, line, ops)
    ensures (forall op | op in ops :: op.t in v) ==> Replay(v, true, line, ops).Keys == v.Keys
  {
    hide AltComplete, Keeps, Apply;
    if ops != [] {
      var before, op := ops[..|ops| - 1], ops[|ops| - 1];
      AltStaysComplete(v, line, before);
      var w := Replay(v, true, line, before);
      assert op in ops && Harmless(w, op);
      HarmlessKeeps(w, line, op);
      ApplyKeepsIff(w, line, op);
      forall t
        ensures t in Apply(w, true, line, op) ==> t in w || t == op.t
        ensures t in w ==> t in Apply(w, true, line, op)
      {
        ApplyAt(w, true, line, op, t, 0);
      }
    }
  }

  // Witnesses: a deletion and a new table that break it.
  lemma AltCanBreak()
    ensures var v: Tables := map[0 := map[30 := 97], 8 := map[30 := K(KT_META, 97)]];
            AltComplete(v) && Needed(v, 8, 30) && !AltComplete(Delete(v, 8, 30))
    ensures var v: Tables := map[0 := map[30 := 97]];
            AltComplete(v) && !NoneWaits(v, 8, Some(31)) && !AltComplete(Add(v, true, 8, 31, 98))
  {
    var v: Tables := map[0 := map[30 := 97], 8 := map[30 := K(KT_META, 97)]];
    assert Bound(v, 0, 30);
    DeleteKeepsIff(v, 8, 30);
    var w: Tables := map[0 := map[30 := 97]];
    assert Bound(w, 0, 30);
    NewKeyKeepsIff(w, 8, 31, 98);
  }
}
