/**
  array.c: a growable array of equally sized items with a count of the items in use.  An item whose
  bytes are all zero counts as absent.  The bytes of one item are kept as one value of type T.
 */
module LkArrays {
  import opened Bytes

  const SIZE_MAX: nat := 0xFFFF_FFFF_FFFF_FFFF

  // The items of s that are not zero, by index.
  ghost function Present<T>(s: seq<T>, zero: T): map<nat, T> {
    map i: nat | i < |s| && s[i] != zero :: s[i]
  }

  lemma RemoveCounts<T>(m: map<nat, T>, i: nat)
    ensures |m - {i}| == if i in m then |m| - 1 else |m|
  {
    if i in m {
      assert (m - {i})[i := m[i]] == m;
    } else {
      assert m - {i} == m;
    }
  }

  lemma StoreCounts<T>(m: map<nat, T>, i: nat, e: T)
    ensures |m[i := e]| == if i in m then |m| else |m| + 1
  {
    if i in m {
      assert m[i := e] == (m - {i})[i := e];
      RemoveCounts(m, i);
    }
  }

  // What storing e at i does to the items present.
  ghost function Stored<T>(m: map<nat, T>, zero: T, i: nat, e: T): map<nat, T> {
    if e == zero then m - {i} else m[i := e]
  }

  lemma PresentUpdate<T>(s: seq<T>, zero: T, i: nat, e: T)
    requires i < |s|
    ensures Present(s[i := e], zero) == Stored(Present(s, zero), zero, i, e)
  {
  }

  lemma PresentGrow<T>(s: seq<T>, zero: T, t: seq<T>)
    requires |s| <= |t| && t[..|s|] == s && forall i | |s| <= i < |t| :: t[i] == zero
    ensures Present(t, zero) == Present(s, zero)
  {
    assert forall i: nat | i < |s| :: t[i] == t[..|s|][i];
  }

  class LkArray<T(==)> {
    const memb: nat
    const zero: T
    var items: array<T>  // `total` is its length
    var count: nat

    // The field sizes are those of an initialised array.
    ghost predicate Shaped()
      reads this
    {
      memb > 0 && items.Length <= SIZE_MAX / memb
    }

    ghost function Contents(): map<nat, T>
      reads this, items
    {
      Present(items[..], zero)
    }

    // `count` is the number of items in use.
    ghost predicate Valid()
      reads this, items
    {
      Shaped() && count == |Contents()|
    }

    // lk_array_init
    constructor (memb: nat, zero: T, size: nat)
      requires memb > 0 && size <= SIZE_MAX / memb
      ensures Valid() && Contents() == map[] && fresh(items)
      ensures this.memb == memb && this.zero == zero && items.Length == size
    {
      this.memb := memb;
      this.zero := zero;
      items := new T[size](_ => zero);
      count := 0;
    }

    // lk_array_empty
    method Empty()
      requires Shaped()
      modifies this`count, items
      ensures Valid() && Contents() == map[]
    {
      for i := 0 to items.Length
        invariant forall k | 0 <= k < i :: items[k] == zero
      {
        items[i] := zero;
      }
      count := 0;
      assert Contents() == map[];
    }

    // lk_array_exists
    method Exists(i: nat) returns (there: bool)
      ensures there <==> i in Contents()
    {
      there := i < items.Length && items[i] != zero;
    }

    // lk_array_get: a null pointer past the end.
    method Get(i: nat) returns (e: Option<T>)
      ensures e.None? <==> i >= items.Length
      ensures e.Some? ==> e.value == if i in Contents() then Contents()[i] else zero
      ensures i in Contents() ==> e.Some?
    {
      e := if i < items.Length then Some(items[i]) else None;
    }

    // The items fit into the address space up to index i.
    predicate Fits(i: nat) {
      i < SIZE_MAX && memb > 0 && i + 1 <= SIZE_MAX / memb
    }

    // array_resize: room for index i, zero filled.
    method Resize(i: nat) returns (ok: bool)
      requires Shaped()
      modifies this`items
      ensures Shaped() && Contents() == old(Contents())
      ensures ok <==> i < old(items.Length) || Fits(i)
      ensures ok ==> items.Length == if i < old(items.Length) then old(items.Length) else i + 1
      ensures items == old(items) || fresh(items)
      ensures !ok ==> items == old(items)
    {
      if i >= items.Length {
        if i >= SIZE_MAX || i + 1 > SIZE_MAX / memb {
          return false;
        }
        var z, was := zero, items;
        var tmp := new T[i + 1](_ => z);
        for k := 0 to was.Length
          invariant forall j | 0 <= j < k :: tmp[j] == was[j]
          invariant forall j | k <= j < tmp.Length :: tmp[j] == z
          invariant items == was && was[..] == old(items[..])
        {
          tmp[k] := was[k];
        }
        assert tmp[..][..was.Length] == was[..];
        PresentGrow(was[..], z, tmp[..]);
        items := tmp;
      }
      return true;
    }

    // lk_array_set
    method Set(i: nat, e: T) returns (ok: bool)
      requires Valid()
      modifies this, items
      ensures Valid() && (items == old(items) || fresh(items))
      ensures ok <==> i < old(items.Length) || Fits(i)
      ensures Contents() == if ok then Stored(old(Contents()), zero, i, e) else old(Contents())
      ensures items.Length == if ok && i >= old(items.Length) then i + 1 else old(items.Length)
    {
      ok := Resize(i);
      if !ok {
        return;
      }
      ghost var m := Contents();
      var before := Exists(i);
      PresentUpdate(items[..], zero, i, e);
      StoreCounts(m, i, e);
      RemoveCounts(m, i);
      items[i] := e;
      var after := Exists(i);
      if !before && after {
        count := count + 1;
      } else if before && !after {
        count := count - 1;
      }
    }

    // lk_array_unset
    method Unset(i: nat) returns (ok: bool)
      requires Valid()
      modifies this`count, items
      ensures Valid()
      ensures ok <==> i < items.Length
      ensures Contents() == old(Contents()) - {i}
    {
      if i >= items.Length {
        assert Contents() - {i} == Contents();
        return false;
      }
      ghost var m := Contents();
      PresentUpdate(items[..], zero, i, zero);
      RemoveCounts(m, i);
      var there := Exists(i);
      if there {
        items[i] := zero;
        count := count - 1;
      }
      return true;
    }

    // lk_array_append stores at index `count` whatever is there.  A count that was right stays right
    // exactly when that slot was free and the item is not zero.
    method Append(e: T) returns (ok: bool)
      requires Shaped()
      modifies this, items
      ensures Shaped() && (items == old(items) || fresh(items))
      ensures ok <==> old(count) < old(items.Length) || Fits(old(count))
      ensures ok ==> Contents() == Stored(old(Contents()), zero, old(count), e) && count == old(count) + 1
      ensures !ok ==> Contents() == old(Contents()) && count == old(count)
      ensures ok && old(Valid()) ==> (Valid() <==> e != zero && old(count) !in old(Contents()))
    {
      ok := Resize(count);
      if !ok {
        return;
      }
      ghost var m := Contents();
      PresentUpdate(items[..], zero, count, e);
      StoreCounts(m, count, e);
      RemoveCounts(m, count);
      items[count] := e;
      count := count + 1;
    }
  }

  // An array that was only appended to: its first n items are present, and no others.
  lemma {:induction false} DenseCount<T>(m: map<nat, T>, n: nat)
    requires forall i: nat :: i in m <==> i < n
    ensures |m| == n
  {
    if n == 0 {
      assert m == map[];
    } else {
      DenseCount(m - {n - 1}, n - 1);
      RemoveCounts(m, n - 1);
    }
  }

  // What is present, and the count, after appending the items of es to an empty array (see Append).
  ghost function AppendAll<T>(zero: T, es: seq<T>): (map<nat, T>, nat) {
    if es == [] then (map[], 0) else
      var (m, count) := AppendAll(zero, es[..|es| - 1]);
      (Stored(m, zero, count, es[|es| - 1]), count + 1)
  }

  lemma {:induction false} AppendAllIs<T>(zero: T, es: seq<T>)
    ensures AppendAll(zero, es) == (Present(es, zero), |es|)
  {
    if es != [] {
      var n := |es| - 1;
      AppendAllIs(zero, es[..n]);
      PresentPush(es[..n], zero, es[n]);
      assert es[..n] + [es[n]] == es;
    }
  }

  lemma PresentPush<T>(s: seq<T>, zero: T, e: T)
    ensures Present(s + [e], zero) == Stored(Present(s, zero), zero, |s|, e)
  {
  }

  lemma {:induction false} PresentCount<T>(s: seq<T>, zero: T)
    ensures |Present(s, zero)| <= |s|
    ensures |Present(s, zero)| == |s| <==> forall i | 0 <= i < |s| :: s[i] != zero
  {
    if s == [] {
      assert Present(s, zero) == map[];
    } else {
      var init, last := s[..|s| - 1], s[|s| - 1];
      PresentCount(init, zero);
      PresentPush(init, zero, last);
      assert init + [last] == s;
      StoreCounts(Present(init, zero), |init|, last);
      RemoveCounts(Present(init, zero), |init|);
    }
  }

  // Over a run of appends to an empty array item i is the i-th one appended, and the count is right
  // exactly when no item is zero.
  lemma AppendRunIff<T>(zero: T, es: seq<T>)
    ensures var (m, count) := AppendAll(zero, es);
            && count == |es|
            && (forall i: nat :: i in m <==> i < |es| && es[i] != zero)
            && (forall i | i in m :: m[i] == es[i])
            && (count == |m| <==> forall i | 0 <= i < |es| :: es[i] != zero)
  {
    AppendAllIs(zero, es);
    PresentCount(es, zero);
  }
}
