/**
  xkbsupport.c:1044-1136 and 1283-1347, diacr.c:111-126, loadkeys.c:226-291: choosing the compose rules
  that the kernel's small accent table gets.
 */
module Compose {
  import opened Bytes
  import opened LkArrays

  const MAX_DIACR := 256

  // struct compose_candidate
  datatype Candidate = Candidate(diacr: nat, base: nat, result: nat, first: nat, second: nat,
                                 resultSym: nat, reachable: bool, score: int)

  // struct lk_kbdiacr
  datatype Rule = Rule(diacr: nat, base: nat, result: nat)

  // ---------------------------------------------------------------- the orders

  function CompareOrder(lhs: int, rhs: int): int {
    if lhs < rhs then -1 else if lhs > rhs then 1 else 0
  }

  // compare_compose_candidates: higher scores first
  function CompareCandidates(a: Candidate, b: Candidate): int {
    if a.score != b.score then CompareOrder(b.score, a.score)
    else if a.first != b.first then CompareOrder(a.first, b.first)
    else if a.second != b.second then CompareOrder(a.second, b.second)
    else CompareOrder(a.resultSym, b.resultSym)
  }

  // compare_compose_candidates_by_sequence
  function CompareBySequence(a: Candidate, b: Candidate): int {
    if a.first != b.first then CompareOrder(a.first, b.first)
    else if a.second != b.second then CompareOrder(a.second, b.second)
    else if a.score != b.score then CompareOrder(b.score, a.score)
    else CompareOrder(a.resultSym, b.resultSym)
  }

  predicate Le(bySequence: bool, a: Candidate, b: Candidate) {
    (if bySequence then CompareBySequence(a, b) else CompareCandidates(a, b)) <= 0
  }

  // The orders in plain numbers: the higher score first, and of equal scores the smaller first symbol, then
  // the smaller second, then the smaller result; by sequence, the symbols of the sequence come first.
  lemma RankIs(a: Candidate, b: Candidate)
    ensures Le(false, a, b) <==>
              a.score > b.score
              || (a.score == b.score
                  && (a.first < b.first
                      || (a.first == b.first
                          && (a.second < b.second || (a.second == b.second && a.resultSym <= b.resultSym)))))
    ensures Le(true, a, b) <==>
              a.first < b.first
              || (a.first == b.first
                  && (a.second < b.second
                      || (a.second == b.second
                          && (a.score > b.score || (a.score == b.score && a.resultSym <= b.resultSym)))))
  {
  }

  predicate SameSequence(a: Candidate, b: Candidate) {
    a.first == b.first && a.second == b.second
  }

  lemma LeOrder(bySequence: bool, a: Candidate, b: Candidate, c: Candidate)
    ensures Le(bySequence, a, b) || Le(bySequence, b, a)
    ensures Le(bySequence, a, b) && Le(bySequence, b, c) ==> Le(bySequence, a, c)
  {
  }

  predicate Sorted(bySequence: bool, s: seq<Candidate>) {
    forall i, j | 0 <= i < j < |s| :: Le(bySequence, s[i], s[j])
  }

  // ---------------------------------------------------------------- qsort

  // Where e belongs in a sorted list.
  function Insert(bySequence: bool, s: seq<Candidate>, e: Candidate): seq<Candidate> {
    if s == [] then [e]
    else if Le(bySequence, s[|s| - 1], e) then s + [e]
    else Insert(bySequence, s[..|s| - 1], e) + [s[|s| - 1]]
  }

  predicate AllLe(bySequence: bool, s: seq<Candidate>, e: Candidate) {
    forall c | c in s :: Le(bySequence, c, e)
  }

  lemma SortedPush(bySequence: bool, s: seq<Candidate>, e: Candidate)
    requires Sorted(bySequence, s) && AllLe(bySequence, s, e)
    ensures Sorted(bySequence, s + [e])
  {
    hide Le;
  }

  lemma SortedLast(bySequence: bool, s: seq<Candidate>)
    requires Sorted(bySequence, s) && s != []
    ensures Sorted(bySequence, s[..|s| - 1]) && AllLe(bySequence, s[..|s| - 1], s[|s| - 1])
    ensures AllLe(bySequence, s, s[|s| - 1])
  {
    LeOrder(bySequence, s[|s| - 1], s[|s| - 1], s[|s| - 1]);
    hide Le;
  }

  lemma AllLeUp(bySequence: bool, s: seq<Candidate>, l: Candidate, e: Candidate)
    requires AllLe(bySequence, s, l) && Le(bySequence, l, e)
    ensures AllLe(bySequence, s, e)
  {
    forall c | c in s
      ensures Le(bySequence, c, e)
    {
      LeOrder(bySequence, c, l, e);
    }
  }

  lemma {:induction false} InsertPermutes(bySequence: bool, s: seq<Candidate>, e: Candidate)
    ensures multiset(Insert(bySequence, s, e)) == multiset(s) + multiset{e}
    ensures forall c :: c in Insert(bySequence, s, e) <==> c in s || c == e
  {
    hide Le;
    if s != [] {
      InsertPermutes(bySequence, s[..|s| - 1], e);
      assert s == s[..|s| - 1] + [s[|s| - 1]];
    }
  }

  lemma {:induction false} InsertSorts(bySequence: bool, s: seq<Candidate>, e: Candidate)
    requires Sorted(bySequence, s)
    ensures Sorted(bySequence, Insert(bySequence, s, e))
  {
    hide Le, Sorted, AllLe;
    if s == [] {
      OneSorted(bySequence, e);
    } else {
      var init, last := s[..|s| - 1], s[|s| - 1];
      SortedLast(bySequence, s);
      LeOrder(bySequence, last, e, last);
      if Le(bySequence, last, e) {
        AllLeUp(bySequence, s, last, e);
        SortedPush(bySequence, s, e);
      } else {
        InsertSorts(bySequence, init, e);
        InsertPermutes(bySequence, init, e);
        InsertedLe(bySequence, init, e, last);
        SortedPush(bySequence, Insert(bySequence, init, e), last);
      }
    }
  }

  lemma OneSorted(bySequence: bool, e: Candidate)
    ensures Sorted(bySequence, [e])
  {
  }

  lemma InsertedLe(bySequence: bool, s: seq<Candidate>, e: Candidate, last: Candidate)
    requires AllLe(bySequence, s, last) && Le(bySequence, e, last)
    requires forall c :: c in Insert(bySequence, s, e) <==> c in s || c == e
    ensures AllLe(bySequence, Insert(bySequence, s, e), last)
  {
    hide Le, Insert;
  }

  // The first n elements in order.
  method SortedCopy(was: seq<Candidate>, n: nat, bySequence: bool) returns (s: seq<Candidate>)
    requires n <= |was|
    ensures Sorted(bySequence, s) && multiset(s) == multiset(was[..n]) && |s| == n
  {
    hide Le, Sorted, Insert;
    s := [];
    assert Sorted(bySequence, s) by {
      NoneSorted(bySequence);
    }
    for i := 0 to n
      invariant Sorted(bySequence, s) && multiset(s) == multiset(was[..i]) && |s| == i
    {
      InsertSorts(bySequence, s, was[i]);
      InsertPermutes(bySequence, s, was[i]);
      assert was[..i + 1] == was[..i] + [was[i]];
      s := Insert(bySequence, s, was[i]);
      assert |s| == |multiset(s)|;
    }
  }

  lemma NoneSorted(bySequence: bool)
    ensures Sorted(bySequence, [])
  {
  }

  // qsort of the first n elements.  Nothing is assumed about its result but this contract.
  method QSort(a: array<Candidate>, n: nat, bySequence: bool)
    requires n <= a.Length
    modifies a
    ensures Sorted(bySequence, a[..n]) && multiset(a[..n]) == multiset(old(a[..n]))
    ensures a[n..] == old(a[n..])
  {
    hide Le, Sorted;
    var was := a[..];
    var s := SortedCopy(was, n, bySequence);
    for i := 0 to n
      invariant a[..i] == s[..i] && a[n..] == was[n..]
    {
      a[i] := s[i];
    }
    assert a[..n] == s && was[..n] == old(a[..n]);
  }

  // ---------------------------------------------------------------- selection

  // One candidate for each run of equal sequences: the first.
  function Dedup(s: seq<Candidate>): (d: seq<Candidate>)
    ensures |d| <= |s|
  {
    if s == [] then [] else
      var d, last := Dedup(s[..|s| - 1]), s[|s| - 1];
      if d != [] && SameSequence(d[|d| - 1], last) then d else d + [last]
  }

  predicate Within(k: seq<Candidate>, s: seq<Candidate>) {
    forall c | c in k :: c in s
  }

  predicate SequencesDiffer(d: seq<Candidate>) {
    forall i, j | 0 <= i < j < |d| :: !SameSequence(d[i], d[j])
  }

  // d holds a candidate of the sequence of c that is no worse than c.
  ghost predicate Leads(bySequence: bool, d: seq<Candidate>, c: Candidate) {
    exists b :: b in d && SameSequence(b, c) && Le(bySequence, b, c)
  }

  ghost predicate LeadsAll(bySequence: bool, d: seq<Candidate>, s: seq<Candidate>) {
    forall c | c in s :: Leads(bySequence, d, c)
  }

  // For every sequence the best candidate, sequences ascending; the last sequence is that of s.
  ghost predicate Deduped(d: seq<Candidate>, s: seq<Candidate>) {
    && Sorted(true, d) && Within(d, s) && SequencesDiffer(d) && LeadsAll(true, d, s)
    && (s == [] <==> d == []) && (s != [] ==> SameSequence(d[|d| - 1], s[|s| - 1]))
  }

  lemma {:induction false} DedupIs(s: seq<Candidate>)
    requires Sorted(true, s)
    ensures Deduped(Dedup(s), s)
  {
    hide Le, Sorted, Deduped;
    if s == [] {
      NothingDeduped();
    } else {
      var init, last := s[..|s| - 1], s[|s| - 1];
      SortedLast(true, s);
      DedupIs(init);
      assert s == init + [last];
      DedupStep(Dedup(init), init, last);
    }
  }

  lemma NothingDeduped()
    ensures Deduped([], [])
  {
  }

  lemma Between(a: Candidate, b: Candidate, c: Candidate)
    requires Le(true, a, b) && Le(true, b, c) && SameSequence(a, c)
    ensures SameSequence(a, b)
  {
  }

  lemma DedupStep(d: seq<Candidate>, s: seq<Candidate>, last: Candidate)
    requires Deduped(d, s) && AllLe(true, s, last)
    ensures Deduped(if d != [] && SameSequence(d[|d| - 1], last) then d else d + [last], s + [last])
  {
    if d != [] && SameSequence(d[|d| - 1], last) {
      DedupSkip(d, s, last);
    } else {
      DedupPush(d, s, last);
    }
  }

  lemma DedupSkip(d: seq<Candidate>, s: seq<Candidate>, last: Candidate)
    requires Deduped(d, s) && AllLe(true, s, last)
    requires d != [] && SameSequence(d[|d| - 1], last)
    ensures Deduped(d, s + [last])
  {
    hide Le, SameSequence, Sorted, SequencesDiffer, AllLe, Leads;
    LastLeads(d, s, last);
  }

  lemma LastLeads(d: seq<Candidate>, s: seq<Candidate>, last: Candidate)
    requires Within(d, s) && AllLe(true, s, last) && d != [] && SameSequence(d[|d| - 1], last)
    ensures Leads(true, d, last)
  {
    hide Le, SameSequence;
    assert d[|d| - 1] in d;
    assert Le(true, d[|d| - 1], last);
  }

  lemma NewSequence(d: seq<Candidate>, s: seq<Candidate>, last: Candidate)
    requires Within(d, s) && Sorted(true, d) && SequencesDiffer(d) && AllLe(true, s, last)
    requires d != [] ==> !SameSequence(d[|d| - 1], last)
    ensures SequencesDiffer(d + [last])
  {
    hide Le, SameSequence;
    forall i | 0 <= i < |d|
      ensures !SameSequence(d[i], last)
    {
      assert d[i] in d && d[|d| - 1] in d;
      if i < |d| - 1 && SameSequence(d[i], last) {
        Between(d[i], d[|d| - 1], last);
      }
    }
  }

  lemma LeadsMore(d: seq<Candidate>, s: seq<Candidate>, last: Candidate)
    requires LeadsAll(true, d, s) && Le(true, last, last)
    ensures LeadsAll(true, d + [last], s + [last])
  {
    hide Le;
    var e := d + [last];
    assert last in e;
    forall c | c in s + [last]
      ensures Leads(true, e, c)
    {
      if c in s {
        assert Leads(true, d, c);
        var b :| b in d && SameSequence(b, c) && Le(true, b, c);
        assert b in e;
      }
    }
  }

  lemma DedupPush(d: seq<Candidate>, s: seq<Candidate>, last: Candidate)
    requires Deduped(d, s) && AllLe(true, s, last)
    requires d != [] ==> !SameSequence(d[|d| - 1], last)
    ensures Deduped(d + [last], s + [last])
  {
    hide Le, Sorted, SequencesDiffer, AllLe, LeadsAll;
    NewSequence(d, s, last);
    LeOrder(true, last, last, last);
    LeadsMore(d, s, last);
    KeptLe(true, d, s, last);
    SortedPush(true, d, last);
  }

  lemma KeptLe(bySequence: bool, k: seq<Candidate>, s: seq<Candidate>, last: Candidate)
    requires Within(k, s) && AllLe(bySequence, s, last)
    ensures AllLe(bySequence, k, last)
  {
    hide Le;
  }

  // What selection leaves of the candidates: for every sequence the best one, in rank order.
  ghost predicate Selected(d: seq<Candidate>, s: seq<Candidate>) {
    Sorted(false, d) && Within(d, s) && SequencesDiffer(d) && LeadsAll(false, d, s)
  }

  lemma SameElements(s: seq<Candidate>, t: seq<Candidate>)
    requires multiset(s) == multiset(t)
    ensures forall c :: c in s <==> c in t
    ensures |s| == |t|
  {
    assert |s| == |multiset(s)| && |t| == |multiset(t)|;
    forall c
      ensures c in s <==> c in t
    {
      assert c in s <==> c in multiset(s);
      assert c in t <==> c in multiset(t);
    }
  }

  // A list of different sequences, permuted.
  lemma DifferentSequences(d: seq<Candidate>, e: seq<Candidate>)
    requires multiset(d) == multiset(e) && SequencesDiffer(d)
    ensures SequencesDiffer(e)
  {
    forall i, j | 0 <= i < j < |e|
      ensures !SameSequence(e[i], e[j])
    {
      SameElements(d, e);
      assert e[i] in e && e[j] in e;
      var k :| 0 <= k < |d| && d[k] == e[i];
      var l :| 0 <= l < |d| && d[l] == e[j];
      if e[i] == e[j] {
        TwiceIn(e, i, j);
        OnceIn(d, k);
      } else {
        assert SameSequence(d[k], d[l]) <==> SameSequence(d[l], d[k]);
      }
    }
  }

  lemma TwiceIn(e: seq<Candidate>, i: nat, j: nat)
    requires i < j < |e| && e[i] == e[j]
    ensures multiset(e)[e[i]] >= 2
  {
    assert e == e[..j] + [e[j]] + e[j + 1..];
    assert e[..j][i] == e[i];
  }

  lemma OnceIn(d: seq<Candidate>, k: nat)
    requires k < |d| && SequencesDiffer(d)
    ensures multiset(d)[d[k]] == 1
  {
    assert d == d[..k] + [d[k]] + d[k + 1..];
    assert d[k] !in d[..k] && d[k] !in d[k + 1..];
  }

  lemma SelectedFrom(d: seq<Candidate>, e: seq<Candidate>, s: seq<Candidate>, was: seq<Candidate>)
    requires Deduped(d, s) && multiset(s) == multiset(was)
    requires multiset(e) == multiset(d) && Sorted(false, e)
    ensures Selected(e, was)
  {
    hide Le, Sorted, SequencesDiffer, SameSequence;
    SameElements(s, was);
    SameElements(e, d);
    DifferentSequences(d, e);
    forall c | c in was
      ensures Leads(false, e, c)
    {
      assert Leads(true, d, c);
      var b :| b in d && SameSequence(b, c) && Le(true, b, c);
      SameRank(b, c);
    }
  }

  lemma SameRank(b: Candidate, c: Candidate)
    requires SameSequence(b, c)
    ensures Le(true, b, c) <==> Le(false, b, c)
  {
  }

  lemma FewSelected(s: seq<Candidate>)
    requires |s| < 2
    ensures Selected(s, s)
  {
    forall c | c in s
      ensures SameSequence(c, c) && Le(false, c, c)
    {
      LeOrder(false, c, c, c);
    }
  }

  // The first i elements of s are compacted to the first `out` of buf; the others are still there.
  ghost predicate Compacted(buf: seq<Candidate>, s: seq<Candidate>, out: nat, i: nat) {
    out <= i <= |s| <= |buf| && buf[..out] == Dedup(s[..i]) && forall j | i <= j < |s| :: buf[j] == s[j]
  }

  lemma CompactedStep(buf: seq<Candidate>, s: seq<Candidate>, out: nat, i: nat)
    requires i < |s| && Compacted(buf, s, out, i)
    ensures if out > 0 && SameSequence(buf[out - 1], buf[i]) then Compacted(buf, s, out, i + 1)
            else Compacted(buf[out := buf[i]], s, out + 1, i + 1)
  {
    hide SameSequence;
    assert s[..i + 1][..i] == s[..i];
    assert out > 0 ==> buf[out - 1] == buf[..out][out - 1];
    assert buf[out := buf[i]][..out + 1] == buf[..out] + [s[i]];
  }

  // xkbsupport.c:1126-1131: the array compacted in place
  method Compact(a: array<Candidate>, count: nat) returns (out: nat)
    requires count <= a.Length
    modifies a
    ensures out <= count && a[..out] == Dedup(old(a[..count])) && a[count..] == old(a[count..])
  {
    hide Dedup;
    ghost var s, rest := a[..count], a[count..];
    out := 0;
    assert Compacted(a[..], s, 0, 0) by {
      NothingCompacted(a[..], s);
    }
    for i := 0 to count
      invariant Compacted(a[..], s, out, i) && a[count..] == rest
    {
      CompactedStep(a[..], s, out, i);
      if out > 0 && SameSequence(a[out - 1], a[i]) {
        continue;
      }
      a[out] := a[i];
      out := out + 1;
    }
    assert s[..count] == s && a[..out] == a[..][..out];
  }

  lemma NothingCompacted(buf: seq<Candidate>, s: seq<Candidate>)
    requires |s| <= |buf| && buf[..|s|] == s
    ensures Compacted(buf, s, 0, 0)
  {
    forall j | 0 <= j < |s|
      ensures buf[j] == s[j]
    {
      assert buf[..|s|][j] == s[j];
    }
  }

  // xkeymap_select_compose_candidates
  method Select(a: array<Candidate>, count: nat) returns (out: nat)
    requires count <= a.Length
    modifies a
    ensures out <= count && Selected(a[..out], old(a[..count])) && a[count..] == old(a[count..])
  {
    hide Selected, Deduped, Sorted, Le, Dedup;
    ghost var was := a[..count];
    if count < 2 {
      FewSelected(was);
      return count;
    }
    QSort(a, count, true);
    ghost var s := a[..count];
    DedupIs(s);
    out := Compact(a, count);
    ghost var d := a[..out];
    QSort(a, out, false);
    SelectedFrom(d, a[..out], s, was);
    assert a[count..] == a[out..][count - out..];
  }

  // ---------------------------------------------------------------- the accent table

  // The input pair as the kernel stores it; conv is the character conversion.
  function Pair(conv: nat -> nat, c: Candidate): (nat, nat) {
    (conv(c.diacr), conv(c.base))
  }

  function Convert(conv: nat -> nat, c: Candidate): Rule {
    Rule(conv(c.diacr), conv(c.base), conv(c.result))
  }

  ghost function Pairs(conv: nat -> nat, s: seq<Candidate>): set<(nat, nat)> {
    set c | c in s :: Pair(conv, c)
  }

  // The first candidate of every pair among the first n.
  ghost function KeepTo(conv: nat -> nat, s: seq<Candidate>, n: nat): (k: seq<Candidate>)
    requires n <= |s|
    ensures |k| <= n
  {
    if n == 0 then [] else
      var k := KeepTo(conv, s, n - 1);
      if Pair(conv, s[n - 1]) in Pairs(conv, s[..n - 1]) then k else k + [s[n - 1]]
  }

  function Converted(conv: nat -> nat, k: seq<Candidate>): (r: seq<Rule>)
    ensures |r| == |k|
  {
    seq(|k|, i requires 0 <= i < |k| => Convert(conv, k[i]))
  }

  function Fit(n: nat): nat {
    if n < MAX_DIACR then n else MAX_DIACR
  }

  // What gets into the table for the rules kept.
  function Truncated(rs: seq<Rule>): seq<Rule> {
    rs[..Fit(|rs|)]
  }

  // The accent table, which was only appended to, holds these rules.
  ghost predicate Holds(m: map<nat, Option<Rule>>, rs: seq<Rule>) {
    m == map i: nat | i < |rs| :: Some(rs[i])
  }

  lemma HoldsCount(m: map<nat, Option<Rule>>, rs: seq<Rule>)
    requires Holds(m, rs)
    ensures |m| == |rs| && |rs| !in m
  {
    DenseCount(m, |rs|);
  }

  // lk_append_diacr at the end of a table without holes
  method AppendRule(table: LkArray<Option<Rule>>, ghost rs: seq<Rule>, rule: Rule) returns (ok: bool)
    requires table.Valid() && table.zero == None && table.memb == 8 && Holds(table.Contents(), rs)
    modifies table, table.items
    ensures table.Valid() && (table.items == old(table.items) || fresh(table.items))
    ensures Holds(table.Contents(), if ok then rs + [rule] else rs)
    ensures !ok ==> |rs| >= SIZE_MAX / 8
  {
    hide LkArray.Contents;
    HoldsCount(table.Contents(), rs);
    ok := table.Append(Some(rule));
    HoldsPush(rs, rule);
  }

  lemma HoldsPush(rs: seq<Rule>, rule: Rule)
    ensures forall m: map<nat, Option<Rule>> | Holds(m, rs) :: Holds(Stored(m, None, |rs|, Some(rule)), rs + [rule])
  {
  }

  lemma TruncatedPush(rs: seq<Rule>, rule: Rule)
    ensures Truncated(rs + [rule]) == if |rs| < MAX_DIACR then Truncated(rs) + [rule] else Truncated(rs)
    ensures |rs| < MAX_DIACR ==> Truncated(rs) == rs
  {
  }

  lemma KeepStep(conv: nat -> nat, s: seq<Candidate>, i: nat)
    requires i < |s|
    ensures Pairs(conv, s[..i + 1]) == Pairs(conv, s[..i]) + {Pair(conv, s[i])}
    ensures Converted(conv, KeepTo(conv, s, i + 1)) ==
              Converted(conv, KeepTo(conv, s, i))
              + if Pair(conv, s[i]) in Pairs(conv, s[..i]) then [] else [Convert(conv, s[i])]
  {
    assert s[..i + 1] == s[..i] + [s[i]];
  }

  // xkeymap_append_compose_candidates
  method AppendCandidates(table: LkArray<Option<Rule>>, ghost rs: seq<Rule>, conv: nat -> nat, s: seq<Candidate>)
    returns (ok: bool, total: nat)
    requires table.Valid() && table.zero == None && table.memb == 8 && Holds(table.Contents(), rs)
    modifies table, table.items
    ensures table.Valid() && (table.items == old(table.items) || fresh(table.items))
    ensures ok ==> total == |KeepTo(conv, s, |s|)|
                   && Holds(table.Contents(), rs + Truncated(Converted(conv, KeepTo(conv, s, |s|))))
    ensures !ok ==> |rs| + MAX_DIACR >= SIZE_MAX / 8
  {
    hide LkArray.Contents, LkArray.Valid, Holds, KeepTo, Pairs, Converted, Truncated;
    var seen: set<(nat, nat)>, appended := {}, 0;
    ghost var kept: seq<Rule> := [];
    total := 0;
    NothingKept(conv, s, rs);
    for i := 0 to |s|
      invariant table.Valid() && table.zero == None && table.memb == 8
      invariant table.items == old(table.items) || fresh(table.items)
      invariant seen == Pairs(conv, s[..i]) && kept == Converted(conv, KeepTo(conv, s, i))
      invariant total == |kept| && appended == Fit(|kept|)
      invariant Holds(table.Contents(), rs + Truncated(kept))
    {
      KeepStep(conv, s, i);
      var rule := Convert(conv, s[i]);
      if (rule.diacr, rule.base) in seen {
        assert kept + [] == kept;
        continue;
      }
      seen := seen + {(rule.diacr, rule.base)};
      TruncatedPush(kept, rule);
      TruncatedLength(kept);
      total := total + 1;
      if appended < MAX_DIACR {
        assert rs + Truncated(kept) + [rule] == rs + (Truncated(kept) + [rule]);
        ok := AppendRule(table, rs + Truncated(kept), rule);
        if !ok {
          return;
        }
        appended := appended + 1;
      }
      kept := kept + [rule];
    }
    ok := true;
  }

  lemma TruncatedLength(rs: seq<Rule>)
    ensures |Truncated(rs)| == Fit(|rs|)
  {
  }

  lemma NothingKept(conv: nat -> nat, s: seq<Candidate>, rs: seq<Rule>)
    ensures Pairs(conv, s[..0]) == {} && Converted(conv, KeepTo(conv, s, 0)) == [] && rs + Truncated([]) == rs
    ensures s[..|s|] == s
  {
  }

  // ---------------------------------------------------------------- what the table holds

  // The candidates come from symbols: equal sequences have equal input codes, equal result symbols equal
  // result codes, and the score depends on these alone.
  ghost predicate Functional(cands: seq<Candidate>) {
    forall a, b | a in cands && b in cands && SameSequence(a, b) ::
      a.diacr == b.diacr && a.base == b.base && (a.resultSym == b.resultSym ==> a == b)
  }

  predicate PairsDiffer(conv: nat -> nat, k: seq<Candidate>) {
    forall i, j | 0 <= i < j < |k| :: Pair(conv, k[i]) != Pair(conv, k[j])
  }

  // k holds a candidate of the pair of c that is no worse than c.
  ghost predicate Beats(conv: nat -> nat, k: seq<Candidate>, c: Candidate) {
    exists b :: b in k && Pair(conv, b) == Pair(conv, c) && Le(false, b, c)
  }

  ghost predicate BeatsAll(conv: nat -> nat, k: seq<Candidate>, cands: seq<Candidate>) {
    forall c | c in cands :: Beats(conv, k, c)
  }

  // For every input pair the best candidate, best first.
  ghost predicate BestRules(conv: nat -> nat, k: seq<Candidate>, cands: seq<Candidate>) {
    Sorted(false, k) && Within(k, cands) && PairsDiffer(conv, k) && BeatsAll(conv, k, cands)
  }

  lemma {:induction false} KeepIs(conv: nat -> nat, s: seq<Candidate>, n: nat)
    requires n <= |s| && Sorted(false, s)
    ensures BestRules(conv, KeepTo(conv, s, n), s[..n])
  {
    hide Le, Sorted, BestRules, Pairs, Pair;
    if n == 0 {
      NothingBest(conv);
    } else {
      KeepIs(conv, s, n - 1);
      PrefixSorted(s, n);
      BestStep(conv, KeepTo(conv, s, n - 1), s[..n - 1], s[n - 1]);
      assert s[..n] == s[..n - 1] + [s[n - 1]];
    }
  }

  lemma NothingBest(conv: nat -> nat)
    ensures BestRules(conv, [], [])
  {
  }

  lemma PrefixSorted(s: seq<Candidate>, n: nat)
    requires 0 < n <= |s| && Sorted(false, s)
    ensures AllLe(false, s[..n - 1], s[n - 1])
  {
    hide Le;
    assert s[..n][..n - 1] == s[..n - 1];
    SortedLast(false, s[..n]);
  }

  lemma BestStep(conv: nat -> nat, k: seq<Candidate>, s: seq<Candidate>, last: Candidate)
    requires BestRules(conv, k, s) && AllLe(false, s, last)
    ensures BestRules(conv, if Pair(conv, last) in Pairs(conv, s) then k else k + [last], s + [last])
  {
    hide Le, Pair, Sorted, Pairs, PairsDiffer, AllLe, Beats;
    if Pair(conv, last) in Pairs(conv, s) {
      BeatenLast(conv, k, s, last);
    } else {
      LeOrder(false, last, last, last);
      KeptLe(false, k, s, last);
      SortedPush(false, k, last);
      NewPair(conv, k, s, last);
      BeatsMore(conv, k, s, last);
    }
  }

  lemma BeatenLast(conv: nat -> nat, k: seq<Candidate>, s: seq<Candidate>, last: Candidate)
    requires Within(k, s) && BeatsAll(conv, k, s) && AllLe(false, s, last) && Pair(conv, last) in Pairs(conv, s)
    ensures Beats(conv, k, last)
  {
    hide Le, Pair;
    var c :| c in s && Pair(conv, c) == Pair(conv, last);
    assert Beats(conv, k, c);
    var b :| b in k && Pair(conv, b) == Pair(conv, c) && Le(false, b, c);
    assert Le(false, b, last);
  }

  lemma NewPair(conv: nat -> nat, k: seq<Candidate>, s: seq<Candidate>, last: Candidate)
    requires Within(k, s) && PairsDiffer(conv, k) && Pair(conv, last) !in Pairs(conv, s)
    ensures PairsDiffer(conv, k + [last])
  {
    hide Pair;
    forall i | 0 <= i < |k|
      ensures Pair(conv, k[i]) != Pair(conv, last)
    {
      assert k[i] in k && k[i] in s;
    }
  }

  lemma BeatsMore(conv: nat -> nat, k: seq<Candidate>, s: seq<Candidate>, last: Candidate)
    requires BeatsAll(conv, k, s) && Le(false, last, last)
    ensures BeatsAll(conv, k + [last], s + [last])
  {
    hide Le, Pair;
    var k' := k + [last];
    assert last in k';
    forall c | c in s + [last]
      ensures Beats(conv, k', c)
    {
      if c in s {
        assert Beats(conv, k, c);
        var b :| b in k && Pair(conv, b) == Pair(conv, c) && Le(false, b, c);
        assert b in k';
      }
    }
  }

  // From the selected candidates to all of them.
  lemma BestOfAll(conv: nat -> nat, k: seq<Candidate>, s: seq<Candidate>, cands: seq<Candidate>)
    requires Selected(s, cands) && BestRules(conv, k, s) && Functional(cands)
    ensures BestRules(conv, k, cands)
  {
    hide Le, Sorted, SameSequence, PairsDiffer, Beats, Pair, Functional;
    forall c | c in cands
      ensures Beats(conv, k, c)
    {
      assert Leads(false, s, c);
      var a :| a in s && SameSequence(a, c) && Le(false, a, c);
      assert Beats(conv, k, a);
      BeatsWorse(conv, k, cands, a, c);
    }
  }

  lemma BeatsWorse(conv: nat -> nat, k: seq<Candidate>, cands: seq<Candidate>, a: Candidate, c: Candidate)
    requires Functional(cands) && a in cands && c in cands && SameSequence(a, c)
    requires Le(false, a, c) && Beats(conv, k, a)
    ensures Beats(conv, k, c)
  {
    hide Le;
    var b :| b in k && Pair(conv, b) == Pair(conv, a) && Le(false, b, a);
    LeOrder(false, b, a, c);
  }

  lemma RankTie(a: Candidate, b: Candidate, cands: seq<Candidate>)
    requires Functional(cands) && a in cands && b in cands && Le(false, a, b) && Le(false, b, a)
    ensures a == b
  {
    assert SameSequence(a, b) && a.resultSym == b.resultSym;
  }

  lemma BestIn(conv: nat -> nat, k: seq<Candidate>, l: seq<Candidate>, cands: seq<Candidate>, c: Candidate)
    requires BestRules(conv, k, cands) && BestRules(conv, l, cands) && Functional(cands) && c in k
    ensures c in l
  {
    hide Le, Sorted, Pair, Functional;
    assert Beats(conv, l, c);
    var b :| b in l && Pair(conv, b) == Pair(conv, c) && Le(false, b, c);
    assert Beats(conv, k, b);
    var d :| d in k && Pair(conv, d) == Pair(conv, b) && Le(false, d, b);
    assert d == c;
    RankTie(b, c, cands);
  }

  // Ascending lists with the same elements, all pairs different, are the same.
  lemma {:induction false} AscendingSame(conv: nat -> nat, k: seq<Candidate>, l: seq<Candidate>, cands: seq<Candidate>)
    requires Sorted(false, k) && Sorted(false, l) && Functional(cands)
    requires Within(k, cands) && Within(k, l) && Within(l, k)
    requires PairsDiffer(conv, k) && PairsDiffer(conv, l)
    ensures k == l
  {
    hide Le, Sorted, PairsDiffer, Functional, AllLe;
    if k == [] {
      Nothing(l);
    } else {
      assert k[|k| - 1] in k && k[|k| - 1] in l;
      assert l[|l| - 1] in l && l[|l| - 1] in k;
      SameLast(k, l, cands);
      LastOnce(conv, k);
      LastOnce(conv, l);
      var k', l' := k[..|k| - 1], l[..|l| - 1];
      forall c | c in k'
        ensures c in l' && c in cands
      {
        assert c in k && c in l;
      }
      forall c | c in l'
        ensures c in k'
      {
        assert c in l && c in k;
      }
      AscendingSame(conv, k', l', cands);
      assert k == k' + [k[|k| - 1]] && l == l' + [l[|l| - 1]];
    }
  }

  lemma Nothing(l: seq<Candidate>)
    ensures l == [] || exists c :: c in l
  {
    if l != [] {
      assert l[0] in l;
    }
  }

  lemma SameLast(k: seq<Candidate>, l: seq<Candidate>, cands: seq<Candidate>)
    requires k != [] && l != [] && Sorted(false, k) && Sorted(false, l) && Functional(cands)
    requires Within(k, cands) && Within(k, l) && Within(l, k)
    ensures k[|k| - 1] == l[|l| - 1]
    ensures Sorted(false, k[..|k| - 1]) && Sorted(false, l[..|l| - 1])
  {
    hide Le, Sorted, Functional;
    assert k[|k| - 1] in k && l[|l| - 1] in l;
    SortedLast(false, k);
    SortedLast(false, l);
    RankTie(k[|k| - 1], l[|l| - 1], cands);
  }

  lemma LastOnce(conv: nat -> nat, k: seq<Candidate>)
    requires k != [] && PairsDiffer(conv, k)
    ensures forall c :: c in k[..|k| - 1] <==> c in k && c != k[|k| - 1]
    ensures PairsDiffer(conv, k[..|k| - 1])
  {
    hide Pair;
    assert k == k[..|k| - 1] + [k[|k| - 1]];
  }

  // There is only one list of best rules, so the order of the candidates makes no difference.
  lemma BestUnique(conv: nat -> nat, k: seq<Candidate>, l: seq<Candidate>, cands: seq<Candidate>)
    requires BestRules(conv, k, cands) && BestRules(conv, l, cands) && Functional(cands)
    ensures k == l
  {
    hide Le, Sorted, Pair, Functional, PairsDiffer, BeatsAll;
    forall c | c in k
      ensures c in l
    {
      BestIn(conv, k, l, cands, c);
    }
    forall c | c in l
      ensures c in k
    {
      BestIn(conv, l, k, cands, c);
    }
    AscendingSame(conv, k, l, cands);
  }

  // The same candidates in another order give the same rules.
  lemma OrderIrrelevant(conv: nat -> nat, k: seq<Candidate>, cands: seq<Candidate>,
                        l: seq<Candidate>, cands': seq<Candidate>)
    requires multiset(cands) == multiset(cands') && Functional(cands)
    requires BestRules(conv, k, cands) && BestRules(conv, l, cands')
    ensures k == l
  {
    hide Le, Sorted, Pair, Functional, PairsDiffer, Beats;
    SameElements(cands, cands');
    BestUnique(conv, k, l, cands);
  }

  lemma {:induction false} DifferentPairsCount(conv: nat -> nat, k: seq<Candidate>)
    requires PairsDiffer(conv, k)
    ensures |Pairs(conv, k)| == |k|
  {
    hide Pair;
    if k == [] {
      assert Pairs(conv, k) == {};
    } else {
      var init, last := k[..|k| - 1], k[|k| - 1];
      LastOnce(conv, k);
      DifferentPairsCount(conv, init);
      assert k == init + [last];
      assert Pairs(conv, k) == Pairs(conv, init) + {Pair(conv, last)};
      assert Pair(conv, last) !in Pairs(conv, init);
    }
  }

  // The pairs of the best rules are those of all candidates, each once.
  lemma TotalRules(conv: nat -> nat, k: seq<Candidate>, cands: seq<Candidate>)
    requires BestRules(conv, k, cands)
    ensures Pairs(conv, k) == Pairs(conv, cands) && |k| == |Pairs(conv, cands)|
  {
    hide Le, Sorted, Pair, PairsDiffer;
    DifferentPairsCount(conv, k);
    forall p | p in Pairs(conv, cands)
      ensures p in Pairs(conv, k)
    {
      var c :| c in cands && Pair(conv, c) == p;
      assert Beats(conv, k, c);
    }
  }

  // The kernel's search: the first rule with the input pair.
  function FirstMatch(rs: seq<Rule>, diacr: nat, base: nat): Option<nat> {
    if rs == [] then None
    else if rs[0].diacr == diacr && rs[0].base == base then Some(rs[0].result)
    else FirstMatch(rs[1..], diacr, base)
  }

  // The search finds the result of the best candidate of each pair that got into the table.
  lemma {:induction false} LookupBest(conv: nat -> nat, k: seq<Candidate>, n: nat, i: nat)
    requires PairsDiffer(conv, k) && i < n <= |k|
    ensures FirstMatch(Converted(conv, k)[..n], conv(k[i].diacr), conv(k[i].base)) == Some(conv(k[i].result))
  {
    if i > 0 {
      assert Pair(conv, k[0]) != Pair(conv, k[i]);
      assert forall a, b | 0 <= a < b < |k[1..]| :: k[1..][a] == k[a + 1] && k[1..][b] == k[b + 1];
      LookupBest(conv, k[1..], n - 1, i - 1);
      assert Converted(conv, k)[..n][1..] == Converted(conv, k[1..])[..n - 1];
    }
  }

  // ... and nothing for any other pair.
  lemma {:induction false} LookupNothing(conv: nat -> nat, k: seq<Candidate>, n: nat, diacr: nat, base: nat)
    requires n <= |k| && forall i | 0 <= i < n :: Pair(conv, k[i]) != (diacr, base)
    ensures FirstMatch(Converted(conv, k)[..n], diacr, base) == None
  {
    if n > 0 {
      assert Pair(conv, k[0]) != (diacr, base);
      assert forall i | 0 <= i < n - 1 :: k[1..][i] == k[i + 1];
      LookupNothing(conv, k[1..], n - 1, diacr, base);
      assert Converted(conv, k)[..n][1..] == Converted(conv, k[1..])[..n - 1];
    }
  }

  // ---------------------------------------------------------------- from the candidates to the kernel

  // b has the converted input pair of c, and a higher score or an equal one and smaller symbols, or is c.
  predicate NoWorse(conv: nat -> nat, b: Candidate, c: Candidate) {
    && SameInput(conv, b, c) && b.score >= c.score
    && (b.score == c.score ==>
          b.first < c.first
          || (b.first == c.first
              && (b.second < c.second || (b.second == c.second && b.resultSym <= c.resultSym))))
  }

  // Candidates with different converted input pairs, scores descending; every candidate has one that is no
  // worse; and none whose pair is not among the first MAX_DIACR scores above those.
  ghost predicate HighestScores(conv: nat -> nat, k: seq<Candidate>, cands: seq<Candidate>) {
    && Within(k, cands) && Descending(conv, k)
    && (forall c | c in cands :: HasBest(conv, k, c) && LeftOutBelow(conv, k, c))
  }

  predicate Descending(conv: nat -> nat, k: seq<Candidate>) {
    forall i, j | 0 <= i < j < |k| :: k[i].score >= k[j].score && !SameInput(conv, k[i], k[j])
  }

  ghost predicate HasBest(conv: nat -> nat, k: seq<Candidate>, c: Candidate) {
    exists b :: b in k && NoWorse(conv, b, c)
  }

  predicate LeftOutBelow(conv: nat -> nat, k: seq<Candidate>, c: Candidate) {
    NotAmong(conv, k, c) ==> forall i | 0 <= i < |k| && i < 256 :: c.score <= k[i].score
  }

  predicate SameInput(conv: nat -> nat, b: Candidate, c: Candidate) {
    conv(b.diacr) == conv(c.diacr) && conv(b.base) == conv(c.base)
  }

  // None of the first 256 has the input pair of c.
  predicate NotAmong(conv: nat -> nat, k: seq<Candidate>, c: Candidate) {
    forall j | 0 <= j < |k| && j < 256 :: !SameInput(conv, k[j], c)
  }

  lemma BestIsHighest(conv: nat -> nat, k: seq<Candidate>, cands: seq<Candidate>)
    requires BestRules(conv, k, cands)
    ensures HighestScores(conv, k, cands)
  {
    hide Le;
    forall i, j | 0 <= i < j < |k|
      ensures k[i].score >= k[j].score && !SameInput(conv, k[i], k[j])
    {
      RankIs(k[i], k[j]);
    }
    forall c | c in cands
      ensures HasBest(conv, k, c) && LeftOutBelow(conv, k, c)
    {
      assert Beats(conv, k, c);
      var b :| b in k && Pair(conv, b) == Pair(conv, c) && Le(false, b, c);
      RankIs(b, c);
      assert NoWorse(conv, b, c);
      var m :| 0 <= m < |k| && k[m] == b;
      assert SameInput(conv, k[m], c);
    }
  }

  // The first n rules of the table are as they were, and behind them stand the converted candidates, as
  // many as 256.
  ghost predicate RulesOf(m: map<nat, Option<Rule>>, rs: seq<Rule>, conv: nat -> nat, k: seq<Candidate>) {
    && (forall i: nat :: i in m <==> i < |rs| + |k| && i < |rs| + 256)
    && (forall i | 0 <= i < |rs| :: m[i] == Some(rs[i]))
    && (forall i | 0 <= i < |k| && i < 256 ::
          m[|rs| + i] == Some(Rule(conv(k[i].diacr), conv(k[i].base), conv(k[i].result))))
  }

  lemma HeldRules(m: map<nat, Option<Rule>>, rs: seq<Rule>, conv: nat -> nat, k: seq<Candidate>)
    requires Holds(m, rs + Truncated(Converted(conv, k)))
    ensures RulesOf(m, rs, conv, k)
  {
    var all := rs + Truncated(Converted(conv, k));
    forall i | 0 <= i < |k| && i < 256
      ensures m[|rs| + i] == Some(Rule(conv(k[i].diacr), conv(k[i].base), conv(k[i].result)))
    {
      assert all[|rs| + i] == Convert(conv, k[i]);
    }
  }

  // xkeymap_compose behind the collection of candidates.  The table gets the best rule of each pair, best
  // first, as far as they fit; `total` counts the pairs.
  method ComposeCandidates(a: array<Candidate>, table: LkArray<Option<Rule>>, ghost rs: seq<Rule>, conv: nat -> nat)
    returns (ok: bool, total: nat, ghost best: seq<Candidate>)
    requires table.Valid() && table.zero == None && table.memb == 8 && Holds(table.Contents(), rs)
    modifies a, table, table.items
    ensures table.Valid()
    ensures ok ==> Functional(old(a[..])) ==> BestRules(conv, best, old(a[..]))
    ensures ok ==> Functional(old(a[..])) ==> HighestScores(conv, best, old(a[..]))
    ensures ok ==> Functional(old(a[..])) ==>
              total == |best| == |set c | c in old(a[..]) :: (conv(c.diacr), conv(c.base))|
    ensures ok ==> Holds(table.Contents(), rs + Truncated(Converted(conv, best)))
    ensures ok ==> RulesOf(table.Contents(), rs, conv, best)
    ensures !ok ==> |rs| + MAX_DIACR >= SIZE_MAX / 8
  {
    hide Selected, LkArray.Contents, LkArray.Valid, Holds, BestRules, Functional, HighestScores, RulesOf;
    ghost var cands := a[..];
    assert cands == a[..a.Length];
    var selected := Select(a, a.Length);
    ghost var s := a[..selected];
    assert Sorted(false, s) by {
      SelectedSorted(s, cands);
    }
    best := KeepTo(conv, s, |s|);
    ok, total := AppendCandidates(table, rs, conv, a[..selected]);
    KeepIs(conv, s, |s|);
    assert s[..|s|] == s;
    if Functional(cands) {
      BestOfAll(conv, best, s, cands);
      TotalRules(conv, best, cands);
      BestIsHighest(conv, best, cands);
      assert Pairs(conv, cands) == set c | c in cands :: (conv(c.diacr), conv(c.base));
    }
    if ok {
      HeldRules(table.Contents(), rs, conv, best);
    }
  }

  lemma SelectedSorted(s: seq<Candidate>, cands: seq<Candidate>)
    requires Selected(s, cands)
    ensures Sorted(false, s)
  {
  }

  // What defdiacs takes of a table.
  function Sent(rs: seq<Rule>): seq<Rule> {
    rs[..if |rs| >= MAX_DIACR then MAX_DIACR - 1 else |rs|]
  }

  // The kernel gets every rule exactly when there are fewer than MAX_DIACR: a full table loses its last.
  lemma AllSentIff(rules: seq<Rule>)
    ensures Sent(Truncated(rules)) == rules <==> |rules| < MAX_DIACR
    ensures Sent(Truncated(rules)) == if |rules| < 256 then rules else rules[..255]
  {
    assert |Sent(Truncated(rules))| <= MAX_DIACR - 1;
    if |rules| < MAX_DIACR {
      assert Truncated(rules) == rules && Sent(rules) == rules;
    }
  }

  datatype LoadError = TooLarge

  const UCHAR_MAX := 255

  // loadkeys.c:226-291: the rules handed to the kernel.
  method DefDiacs(table: LkArray<Option<Rule>>, ghost rs: seq<Rule>, preferUnicode: bool)
    returns (r: Result<seq<Rule>, LoadError>)
    requires table.Valid() && Holds(table.Contents(), rs)
    requires table.zero == None
    ensures r == if !preferUnicode && exists d | d in Sent(rs) ::
                      d.diacr > UCHAR_MAX || d.base > UCHAR_MAX || d.result > UCHAR_MAX
                 then Err(TooLarge) else Ok(Sent(rs))
  {
    hide LkArray.Contents;
    HoldsCount(table.Contents(), rs);
    TableCount(table, rs);
    var count := if table.count >= MAX_DIACR then MAX_DIACR - 1 else table.count;
    var kd: seq<Rule> := [];
    var i, j := 0, 0;
    while i < table.items.Length && j < count
      invariant i == j <= count && kd == rs[..j]
      invariant !preferUnicode ==> forall d | d in kd ::
                  d.diacr <= UCHAR_MAX && d.base <= UCHAR_MAX && d.result <= UCHAR_MAX
    {
      var ptr := table.Get(i);
      assert i in table.Contents();
      var rule := ptr.value.value;
      if !preferUnicode && (rule.diacr > UCHAR_MAX || rule.base > UCHAR_MAX || rule.result > UCHAR_MAX) {
        assert rs[j] in rs[..count];
        return Err(TooLarge);
      }
      assert rs[..j + 1] == rs[..j] + [rs[j]];
      kd := kd + [rule];
      i, j := i + 1, j + 1;
    }
    r := Ok(kd);
  }

  lemma TableCount(table: LkArray<Option<Rule>>, rs: seq<Rule>)
    requires table.Valid() && Holds(table.Contents(), rs)
    ensures table.count == |rs| <= table.items.Length
  {
    HoldsCount(table.Contents(), rs);
    if rs != [] {
      assert |rs| - 1 in table.Contents();
    }
  }
}
