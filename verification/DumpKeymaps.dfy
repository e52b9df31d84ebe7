/**
  dump.c:325-360: the `keymaps` line, which lists the tables of a context as ranges.
 */
module DumpKeymaps {
  import opened Bytes
  import opened Keymaps

  // lo-hi, printed as one number when they are equal
  datatype Range = Range(lo: nat, hi: nat)

  // Ascending, with at least one number missing between neighbours.
  predicate Maximal(rs: seq<Range>) {
    && (forall i | 0 <= i < |rs| :: rs[i].lo <= rs[i].hi)
    && (forall i, j | 0 <= i < j < |rs| :: rs[i].hi + 1 < rs[j].lo)
  }

  predicate Within(r: Range, t: nat) {
    r.lo <= t <= r.hi
  }

  predicate Listed(rs: seq<Range>, t: nat) {
    exists i | 0 <= i < |rs| :: Within(rs[i], t)
  }

  // The ranges with one more behind them.
  lemma ListedPush(rs: seq<Range>, r: Range, t: nat)
    ensures Listed(rs + [r], t) <==> Listed(rs, t) || Within(r, t)
  {
    assert forall i | 0 <= i < |rs| :: (rs + [r])[i] == rs[i];
    assert (rs + [r])[|rs|] == r;
  }

  // Numbers below i are listed, or pending as the open range n-1 .. m-1, exactly when they are in v.
  ghost predicate SoFar(v: Tables, rs: seq<Range>, n: nat, m: nat, i: nat) {
    && Maximal(rs) && (forall k | 0 <= k < |rs| :: rs[k].hi + 1 < if m == 0 then i else n - 1)
    && (m == 0 ==> n == 0) && (m > 0 ==> m == i && 0 < n <= m)
    && forall t: Uint32 | t < i :: t in v <==> Listed(rs, t) || (m > 0 && n - 1 <= t)
  }

  lemma Close(v: Tables, rs: seq<Range>, n: nat, m: nat, i: nat)
    requires SoFar(v, rs, n, m, i) && m > 0 && (i in v ==> i >= 0x1_0000_0000)
    ensures SoFar(v, rs + [Range(n - 1, m - 1)], 0, 0, i + 1)
  {
    forall t: Uint32 | t < i + 1
      ensures t in v <==> Listed(rs + [Range(n - 1, m - 1)], t)
    {
      ListedPush(rs, Range(n - 1, m - 1), t);
      if t == i {
        NotListed(rs, i);
      }
    }
  }

  lemma NotListed(rs: seq<Range>, i: nat)
    requires forall k | 0 <= k < |rs| :: rs[k].hi < i
    ensures !Listed(rs, i)
  {
  }

  // lk_dump_keymaps: the ranges it prints; it prints no line if there are none.
  method DumpRanges(c: Context) returns (rs: seq<Range>)
    requires c.Valid()
    ensures Maximal(rs) && forall t: Uint32 :: t in c.View <==> Listed(rs, t)
  {
    hide Context.Valid, Listed;
    var total := c.Total();
    var n, m := 0, 0;
    rs := [];
    NotListed(rs, 0);
    for i := 0 to total
      invariant SoFar(c.View, rs, n, m, i)
    {
      var there := c.MapExists(i);
      if !there {
        if m == 0 {
          NotListed(rs, i);
          continue;
        }
        Close(c.View, rs, n, m, i);
        rs := rs + [Range(n - 1, m - 1)];
        n, m := 0, 0;
      } else {
        if m == 0 {
          NotListed(rs, i);
        }
        if n == 0 {
          n := i + 1;
        }
        m := i + 1;
      }
    }
    if m > 0 {
      Close(c.View, rs, n, m, total);
      rs := rs + [Range(n - 1, m - 1)];
    }
    forall t: Uint32 | t >= total
      ensures !Listed(rs, t)
    {
      NotListed(rs, t);
    }
  }

  // The line is determined by the tables: no other list of maximal ranges denotes them.
  lemma {:induction false} RangesUnique(a: seq<Range>, b: seq<Range>)
    requires Maximal(a) && Maximal(b) && forall t: nat :: Listed(a, t) <==> Listed(b, t)
    ensures a == b
  {
    hide Listed, Within;
    FirstListed(a);
    FirstListed(b);
    if a == [] {
      NothingListed();
    } else {
      if b == [] {
        NothingListed();
      }
      SameFirst(a, b);
      forall t: nat
        ensures Listed(a[1..], t) <==> Listed(b[1..], t)
      {
        ListedTail(a, t);
        ListedTail(b, t);
      }
      RangesUnique(a[1..], b[1..]);
      assert a == [a[0]] + a[1..] && b == [b[0]] + b[1..];
    }
  }

  lemma FirstListed(a: seq<Range>)
    requires Maximal(a)
    ensures a != [] ==> Listed(a, a[0].lo)
  {
    assert a != [] ==> Within(a[0], a[0].lo);
  }

  lemma NothingListed()
    ensures forall t: nat :: !Listed([], t)
  {
  }

  lemma ListedTail(a: seq<Range>, t: nat)
    requires Maximal(a) && a != []
    ensures Listed(a[1..], t) <==> Listed(a, t) && t > a[0].hi
  {
    assert forall i | 0 <= i < |a| - 1 :: a[1..][i] == a[i + 1];
    if Listed(a, t) && t > a[0].hi {
      var i :| 0 <= i < |a| && Within(a[i], t);
      assert a[1..][i - 1] == a[i];
    }
    if Listed(a[1..], t) {
      var i :| 0 <= i < |a[1..]| && Within(a[1..][i], t);
      assert Within(a[i + 1], t);
    }
  }

  // Every number of a range is listed, its neighbours are not, and nothing below the first is.
  lemma Edges(a: seq<Range>)
    requires Maximal(a) && a != []
    ensures forall t | Within(a[0], t) :: Listed(a, t)
    ensures !Listed(a, a[0].hi + 1) && forall t: nat | t < a[0].lo :: !Listed(a, t)
  {
  }

  lemma SameFirst(a: seq<Range>, b: seq<Range>)
    requires Maximal(a) && Maximal(b) && a != [] && b != [] && forall t: nat :: Listed(a, t) <==> Listed(b, t)
    ensures a[0] == b[0]
  {
    hide Listed;
    Edges(a);
    Edges(b);
    assert Within(a[0], a[0].lo) && Within(b[0], b[0].lo);
    var aboveA, aboveB := Within(b[0], a[0].hi + 1), Within(a[0], b[0].hi + 1);
  }
}
