/**
  The doubly linked lists of unicode.c.  The entry of a glyph is a list of sequences of code points:
  `next` chains run from the entry to the last node, `prev` of the entry points at the last node, and
  `prev` of the first cell of a sequence points at its last cell.
 */
module UnicodeLists {
  import opened Bytes

  // struct unicode_seq
  class UnicodeSeq {
    var next: UnicodeSeq?
    var prev: UnicodeSeq
    var uc: Unicode
    ghost const row: nat  // position of the sequence in its entry
    ghost const col: nat  // position in the sequence

    constructor (uc: Unicode, ghost row: nat, ghost col: nat)
      ensures this.uc == uc && next == null && prev == this && this.row == row && this.col == col
    {
      this.uc := uc;
      next := null;
      prev := this;
      this.row := row;
      this.col := col;
    }
  }

  // The cells of sequence `row`, linked in order and holding `codes`.
  ghost predicate Chain(cells: seq<UnicodeSeq>, codes: seq<Unicode>, row: nat)
    reads cells
  {
    && |codes| == |cells| > 0
    && (forall j | 0 <= j < |cells| :: cells[j].row == row && cells[j].col == j && cells[j].uc == codes[j])
    && (forall j {:trigger cells[j].next} | 0 <= j < |cells| - 1 :: cells[j].next == cells[j + 1])
    && cells[|cells| - 1].next == null
    && (forall j {:trigger cells[j].prev} | 1 <= j < |cells| :: cells[j].prev == cells[j - 1])
    && cells[0].prev == cells[|cells| - 1]
  }

  // The nodes of the entry `up`, linked in order; `up.prev` is the last one.
  ghost predicate Linked(up: UnicodeList, nodes: seq<UnicodeList>)
    reads up`next, up`prev, nodes`next, nodes`prev
  {
    && up !in nodes
    && up.next == (if nodes == [] then null else nodes[0])
    && up.prev == (if nodes == [] then up else nodes[|nodes| - 1])
    && (forall i | 0 <= i < |nodes| :: nodes[i].index == i)
    && (forall i {:trigger nodes[i].next} | 0 <= i < |nodes| - 1 :: nodes[i].next == nodes[i + 1])
    && (forall i {:trigger nodes[i].prev} | 1 <= i < |nodes| :: nodes[i].prev == nodes[i - 1])
    && (nodes != [] ==> nodes[|nodes| - 1].next == null && nodes[0].prev == up)
  }

  // The walk of addseq along `next`.
  method LastCell(first: UnicodeSeq, ghost cells: seq<UnicodeSeq>, ghost codes: seq<Unicode>, ghost row: nat)
    returns (usl: UnicodeSeq)
    requires Chain(cells, codes, row) && first == cells[0]
    ensures usl == cells[|cells| - 1]
  {
    usl := first;
    ghost var k := 0;
    while usl.next != null
      invariant 0 <= k < |cells| && usl == cells[k] && Chain(cells, codes, row)
      decreases |cells| - k
    {
      usl := usl.next;
      k := k + 1;
    }
  }

  // unicode.c:18-33: a new node with a single cell goes to the end of the entry.
  method AppendNode(up: UnicodeList, uc: Unicode, ghost nodes: seq<UnicodeList>)
    returns (ul: UnicodeList, us: UnicodeSeq)
    requires Linked(up, nodes)
    modifies up`prev, up.prev`next
    ensures fresh(ul) && fresh(us) && us.uc == uc
    ensures Linked(up, nodes + [ul])
    ensures Chain([us], [uc], |nodes|) && ul.sequence == us
  {
    us := new UnicodeSeq(uc, |nodes|, 0);
    ul := new UnicodeList.Node(us, |nodes|);
    ul.prev := up.prev;
    ul.prev.next := ul;
    up.prev := ul;
  }

  // unicode.c:46-61: a new cell goes to the end of the sequence of node ul.
  method AppendCell(ul: UnicodeList, uc: Unicode, ghost cells: seq<UnicodeSeq>, ghost codes: seq<Unicode>,
                    ghost row: nat)
    returns (us: UnicodeSeq)
    requires Chain(cells, codes, row) && ul.sequence == cells[0]
    modifies cells`next, cells`prev
    ensures fresh(us)
    ensures Chain(cells + [us], codes + [uc], row)
  {
    var usl := LastCell(ul.sequence, cells, codes, row);
    us := new UnicodeSeq(uc, row, |cells|);
    us.prev := usl;
    usl.next := us;
    ul.sequence.prev := us;
  }

  // Node i leads to the cells of sequence i.
  ghost predicate Rows(nodes: seq<UnicodeList>, cells: seq<seq<UnicodeSeq>>, contents: seq<seq<Unicode>>)
    reads nodes`sequence, set i, j | 0 <= i < |cells| && 0 <= j < |cells[i]| :: cells[i][j]
  {
    && |contents| == |nodes| == |cells|
    && forall i | 0 <= i < |nodes| :: Chain(cells[i], contents[i], i) && nodes[i].sequence == cells[i][0]
  }

  lemma RowsPush(nodes: seq<UnicodeList>, cells: seq<seq<UnicodeSeq>>, contents: seq<seq<Unicode>>,
                 ul: UnicodeList, us: UnicodeSeq)
    requires Rows(nodes, cells, contents)
    requires Chain([us], [us.uc], |nodes|) && ul.sequence == us
    ensures Rows(nodes + [ul], cells + [[us]], contents + [[us.uc]])
  {
  }

  lemma RowsPrefix(nodes: seq<UnicodeList>, cells: seq<seq<UnicodeSeq>>, contents: seq<seq<Unicode>>)
    requires Rows(nodes, cells, contents) && nodes != []
    ensures var n := |nodes| - 1; Rows(nodes[..n], cells[..n], contents[..n])
    ensures var n := |nodes| - 1;
            forall i, j | 0 <= i < n && 0 <= j < |cells[..n][i]| :: cells[..n][i][j] !in cells[n]
  {
    var n := |nodes| - 1;
    forall i, j | 0 <= i < n && 0 <= j < |cells[..n][i]|
      ensures cells[..n][i][j] !in cells[n]
    {
      assert Chain(cells[i], contents[i], i) && Chain(cells[n], contents[n], n);
    }
  }

  // `prev` leads to the last node, and that to the cells of the last sequence.
  lemma LastRow(up: UnicodeList, nodes: seq<UnicodeList>, cells: seq<seq<UnicodeSeq>>, contents: seq<seq<Unicode>>)
    requires Linked(up, nodes) && Rows(nodes, cells, contents) && contents != []
    ensures var n := |nodes| - 1;
            && |nodes| == |cells| == |contents| && up.prev == nodes[n]
            && cells[n] != [] && nodes[n].sequence == cells[n][0] && Chain(cells[n], contents[n], n)
  {
    assert Chain(cells[|nodes| - 1], contents[|nodes| - 1], |nodes| - 1);
  }

  lemma RowsReplaceLast(nodes: seq<UnicodeList>, cells: seq<seq<UnicodeSeq>>, contents: seq<seq<Unicode>>,
                        chain: seq<UnicodeSeq>, codes: seq<Unicode>)
    requires |nodes| == |cells| == |contents| > 0
    requires var n := |nodes| - 1;
             && Rows(nodes[..n], cells[..n], contents[..n])
             && Chain(chain, codes, n) && nodes[n].sequence == chain[0]
    ensures Rows(nodes, cells[|nodes| - 1 := chain], contents[|nodes| - 1 := codes])
  {
    var n := |nodes| - 1;
    forall i | 0 <= i < n
      ensures Chain(cells[i], contents[i], i) && nodes[i].sequence == cells[i][0]
    {
      assert Chain(cells[..n][i], contents[..n][i], i) && nodes[..n][i].sequence == cells[..n][i][0];
    }
  }

  // struct unicode_list, used both for the entries (list heads) and for their nodes
  class UnicodeList {
    var next: UnicodeList?
    var prev: UnicodeList
    var sequence: UnicodeSeq?
    ghost const index: nat                 // nodes: position in the entry
    ghost var nodes: seq<UnicodeList>      // entries: the nodes in order
    ghost var cells: seq<seq<UnicodeSeq>>  // entries: the cells of every node in order
    ghost var Contents: seq<seq<Unicode>>      // entries: the code points, sequence by sequence
    ghost var Repr: set<object>

    // The nodes and the cells form acyclic, pairwise disjoint chains, and `prev` leads to the last node.
    ghost predicate Valid()
      reads this, Repr
    {
      && Owns(nodes, cells, Repr)
      && Linked(this, nodes)
      && Rows(nodes, cells, Contents)
    }

    ghost predicate Owns(nodes: seq<UnicodeList>, cells: seq<seq<UnicodeSeq>>, repr: set<object>) {
      && this in repr
      && (forall n | n in nodes :: n in repr)
      && (forall i, j | 0 <= i < |cells| && 0 <= j < |cells[i]| :: cells[i][j] in repr)
    }

    // clear_uni_entry
    constructor ()
      ensures Valid() && Repr == {this} && Contents == []
    {
      next, prev, sequence := null, this, null;
      index, nodes, cells, Contents, Repr := 0, [], [], [], {this};
    }

    // A node holding one cell, not linked yet (unicode.c:24-28).
    constructor Node(us: UnicodeSeq, ghost index: nat)
      ensures next == null && sequence == us && this.index == index
    {
      next, prev, sequence := null, this, us;
      this.index, nodes, cells, Contents, Repr := index, [], [], [], {};
    }

    // Forget whatever the entry held (unicode.c:66-72, psffontop.c:94-96).
    method Clear()
      modifies this
      ensures Valid() && Repr == {this} && Contents == []
    {
      next, prev, sequence := null, this, null;
      Record([], [], [], {this});
    }

    ghost method Record(nodes: seq<UnicodeList>, cells: seq<seq<UnicodeSeq>>, contents: seq<seq<Unicode>>,
                        repr: set<object>)
      requires Owns(nodes, cells, repr) && Linked(this, nodes) && Rows(nodes, cells, contents)
      modifies this`nodes, this`cells, this`Contents, this`Repr
      ensures Valid() && Contents == contents && Repr == repr
    {
      this.nodes, this.cells, Contents, Repr := nodes, cells, contents, repr;
    }

    // addpair
    method AddPair(uc: Unicode)
      requires Valid()
      modifies Repr
      ensures Valid() && fresh(Repr - old(Repr))
      ensures Contents == old(Contents) + [[uc]]
    {
      ghost var ns, cs, contents, repr := nodes, cells, Contents, Repr;
      var ul, us := AppendNode(this, uc, ns);
      RowsPush(ns, cs, contents, ul, us);
      Record(ns + [ul], cs + [[us]], contents + [[uc]], repr + {ul, us});
    }

    // addseq.  On an empty entry `prev` is the entry itself and its sequence pointer is null, so the
    // C code needs a node: get_uni_entry and parse_itab_line call it only after addpair.
    method AddSeq(uc: Unicode)
      requires Valid() && Contents != []
      modifies Repr
      ensures Valid() && fresh(Repr - old(Repr))
      ensures |Contents| == |old(Contents)|
      ensures Contents == old(Contents)[|old(Contents)| - 1 := old(Contents)[|old(Contents)| - 1] + [uc]]
    {
      hide Chain, Linked;
      ghost var ns, cs, contents, repr := nodes, cells, Contents, Repr;
      ghost var n := |ns| - 1;
      var ul := prev;
      LastRow(this, ns, cs, contents);
      RowsPrefix(ns, cs, contents);
      var us := AppendCell(ul, uc, cs[n], contents[n], n);
      RowsReplaceLast(ns, cs, contents, cs[n] + [us], contents[n] + [uc]);
      Record(ns, cs[n := cs[n] + [us]], contents[n := contents[n] + [uc]], repr + {us});
    }
  }

  // No node and no cell of an entry is reached twice.
  lemma NoSharing(up: UnicodeList)
    requires up.Valid()
    ensures forall i, j | 0 <= i < j < |up.nodes| :: up.nodes[i] != up.nodes[j]
    ensures forall i, j, k, l | 0 <= i < |up.cells| && 0 <= j < |up.cells[i]|
                                && 0 <= k < |up.cells| && 0 <= l < |up.cells[k]| ::
              up.cells[i][j] == up.cells[k][l] ==> i == k && j == l
  {
    forall i, j, k, l | 0 <= i < |up.cells| && 0 <= j < |up.cells[i]| && 0 <= k < |up.cells| && 0 <= l < |up.cells[k]|
      ensures up.cells[i][j] == up.cells[k][l] ==> i == k && j == l
    {
      assert Chain(up.cells[i], up.Contents[i], i) && Chain(up.cells[k], up.Contents[k], k);
    }
  }

  // The walk along an entry, as the callers of unicode.c see it.
  lemma NodeAt(up: UnicodeList, nodes: seq<UnicodeList>, cells: seq<seq<UnicodeSeq>>,
               contents: seq<seq<Unicode>>, i: nat)
    requires Linked(up, nodes) && Rows(nodes, cells, contents) && i < |nodes|
    ensures nodes[i].next == (if i + 1 < |nodes| then nodes[i + 1] else null)
    ensures Chain(cells[i], contents[i], i) && nodes[i].sequence == cells[i][0]
    ensures cells[i][0].next == null <==> |contents[i]| == 1
    ensures contents[i] != []
  {
    assert Chain(cells[i], contents[i], i);
  }

  lemma NoEmptySequence(up: UnicodeList)
    requires up.Valid()
    ensures forall s | s in up.Contents :: s != []
  {
    forall i | 0 <= i < |up.Contents|
      ensures up.Contents[i] != []
    {
      NodeAt(up, up.nodes, up.cells, up.Contents, i);
    }
  }

  ghost predicate AllValid(heads: seq<UnicodeList>)
    reads heads, Footprint(heads)
  {
    forall i | 0 <= i < |heads| :: heads[i].Valid()
  }

  // The entries of a font: each well linked, none sharing memory with another.
  ghost predicate ValidHeads(heads: seq<UnicodeList>)
    reads heads, Footprint(heads)
  {
    AllValid(heads) && forall i, j | 0 <= i < j < |heads| :: heads[i].Repr !! heads[j].Repr
  }

  ghost function Footprint(heads: seq<UnicodeList>): set<object>
    reads heads
  {
    set h, o | h in heads && o in h.Repr :: o
  }

  ghost function Tables(heads: seq<UnicodeList>): (t: seq<seq<seq<Unicode>>>)
    reads heads
    ensures |t| == |heads| && forall i | 0 <= i < |heads| :: t[i] == heads[i].Contents
  {
    seq(|heads|, i requires 0 <= i < |heads| reads heads => heads[i].Contents)
  }

  lemma HeadsPush(heads: seq<UnicodeList>, up: UnicodeList)
    requires ValidHeads(heads) && up.Valid() && up.Repr !! Footprint(heads)
    ensures ValidHeads(heads + [up]) && Footprint(heads + [up]) == Footprint(heads) + up.Repr
    ensures Tables(heads + [up]) == Tables(heads) + [up.Contents]
  {
    hide UnicodeList.Valid;
    forall i | 0 <= i < |heads|
      ensures heads[i].Repr !! up.Repr
    {
      assert heads[i].Repr <= Footprint(heads);
    }
  }

  lemma {:induction false} HeadsConcat(a: seq<UnicodeList>, b: seq<UnicodeList>)
    requires ValidHeads(a) && ValidHeads(b) && Footprint(a) !! Footprint(b)
    ensures ValidHeads(a + b) && Footprint(a + b) == Footprint(a) + Footprint(b)
    ensures Tables(a + b) == Tables(a) + Tables(b)
  {
    forall i, j | 0 <= i < |a| && 0 <= j < |b|
      ensures a[i].Repr !! b[j].Repr
    {
      assert a[i].Repr <= Footprint(a) && b[j].Repr <= Footprint(b);
    }
  }
}
