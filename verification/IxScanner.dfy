/** `IxScan`: walking the leaf list from one position to another. */
module IxScanner {
  import opened IxNode
  import opened IxTree
  import opened IxRange
  import opened IxHandle

  class IxScan {
    const ih: IxIndexHandle
    var iid: Iid
    const end: Iid
    /** Chain position and rank of the cursor and of the end. */
    ghost var c: nat
    ghost var x: nat
    ghost const d: nat
    ghost const y: nat

    ghost predicate Valid()
      reads this, ih
    {
      ih.Valid() && ih.root != NO_PAGE && AtRank(ih.View(), iid, c, x) && AtRank(ih.View(), end, d, y)
    }

    constructor (ih: IxIndexHandle, lower: Iid, upper: Iid, ghost c: nat, ghost x: nat, ghost d: nat, ghost y: nat)
      requires ih.Valid() && ih.root != NO_PAGE && AtRank(ih.View(), lower, c, x) && AtRank(ih.View(), upper, d, y)
      ensures Valid() && this.ih == ih && this.x == x && this.y == y
    {
      this.ih, this.iid, this.end := ih, lower, upper;
      this.c, this.x, this.d, this.y := c, x, d, y;
    }

    predicate IsEnd()
      reads this
    {
      iid == end
    }

    /** The entry under the cursor, which fails at the end of the leaf list. */
    method Current() returns (ok: bool, e: Entry)
      requires Valid()
      ensures ok <==> x < |All(ih.View())|
      ensures ok ==> e == All(ih.View())[x]
    {
      hide Structured, SizesOkExcept, Flat, AtRank;
      CursorEntry(ih.View(), iid, c, x);
      var n := ih.pages[iid.pageNo];
      if iid.slotNo >= n.num {
        return false, Entry(ZERO_KEY, Rid(0, 0));
      }
      ok, e := true, Entry(n.keys[iid.slotNo], n.rids[iid.slotNo]);
    }

    /** `next`: one slot on, or the first slot of the next leaf. */
    method Next()
      requires Valid() && x < |All(ih.View())|
      modifies this
      ensures Valid() && x == old(x) + 1
    {
      hide Structured, SizesOkExcept, Flat;
      CursorEntry(ih.View(), iid, c, x);
      var n := ih.pages[iid.pageNo];
      iid := Iid(iid.pageNo, iid.slotNo + 1);
      if iid.pageNo != ih.lastLeaf && iid.slotNo == n.num {
        iid := Iid(n.next, 0);
        NextLeaf(ih.View(), c);
        c := c + 1;
      }
      x := x + 1;
    }
  }

  lemma CursorEntry(t: Tree, i: Iid, c: nat, x: nat)
    requires Legal(t) && AtRank(t, i, c, x)
    ensures x <= |All(t)| && i.pageNo in t.pages && 0 <= i.slotNo && t.pages[i.pageNo].num == |LeafEntries(t, c)|
    ensures var n := t.pages[i.pageNo]; n.num <= |n.keys| == |n.rids| && (x < |All(t)| <==> i.slotNo < n.num)
    ensures var n := t.pages[i.pageNo]; x < |All(t)| ==> All(t)[x] == Entry(n.keys[i.slotNo], n.rids[i.slotNo])
    ensures i.pageNo == t.last <==> c + 1 == |t.chain|
    ensures c + 1 < |t.chain| ==> t.pages[i.pageNo].next == t.chain[c + 1]
  {
    hide KidsOk, ParentsOk, EntriesOk;
    RankAtMostAll(t, i, c, x);
    LeafAt(t, c);
    EntryOfLeaf(t, c, 0);
    if i.slotNo < |LeafEntries(t, c)| {
      SlotInAll(t, c, i.slotNo);
      EntryOfLeaf(t, c, i.slotNo);
    }
  }

  lemma NextLeaf(t: Tree, c: nat)
    requires Legal(t) && c + 1 < |t.chain|
    ensures 1 <= |LeafEntries(t, c + 1)| && |Flat(t, c + 1)| == |Flat(t, c)| + |LeafEntries(t, c)|
  {
    hide KidsOk, ParentsOk, EntriesOk;
    LeafAt(t, c + 1);
  }

  /** Entries in key order without repetition. */
  ghost predicate KeySorted(es: seq<Entry>) {
    forall i, j :: 0 <= i < j < |es| ==> es[i].key < es[j].key
  }

  ghost predicate HoldsKey(es: seq<Entry>, k: Key) {
    exists i :: 0 <= i < |es| && es[i].key == k
  }

  /** Iterating from one position to a later one returns the entries between them; when
      the end lies before the start, the walk fails at the end of the leaf list. */
  method Walk(ih: IxIndexHandle, lower: Iid, upper: Iid, ghost c: nat, ghost x: nat, ghost d: nat, ghost y: nat)
    returns (ended: bool, out: seq<Entry>)
    requires ih.Valid() && ih.root != NO_PAGE && AtRank(ih.View(), lower, c, x) && AtRank(ih.View(), upper, d, y)
    ensures x <= |All(ih.View())| && y <= |All(ih.View())| && (ended <==> x <= y)
    ensures out == if x <= y then All(ih.View())[x..y] else All(ih.View())[x..]
  {
    hide NodesOk, KidsOk, ParentsOk, RootOk, EntriesOk, ChainOk, SizesOkExcept, Flat, AtRank;
    ghost var t := ih.View();
    var scan := new IxScan(ih, lower, upper, c, x, d, y);
    CursorEntry(t, lower, c, x);
    CursorEntry(t, upper, d, y);
    out := [];
    while !scan.IsEnd()
      invariant scan.Valid() && scan.ih == ih && scan.y == y && ih.View() == t && ih.Valid() && ih.root != NO_PAGE
      invariant x <= scan.x <= |All(t)| && out == All(t)[x..scan.x] && (x <= y ==> scan.x <= y)
      decreases |All(t)| - scan.x
    {
      SameRank(t, scan.iid, scan.c, scan.x, scan.end, scan.d, scan.y);
      var ok, e := scan.Current();
      if !ok {
        return false, out;
      }
      out := out + [e];
      scan.Next();
    }
    SameRank(t, scan.iid, scan.c, scan.x, scan.end, scan.d, scan.y);
    ended := true;
  }

  /** `leaf_begin` and `leaf_end`: the first and the last position. */
  method FullScan(ih: IxIndexHandle) returns (out: seq<Entry>)
    requires ih.Valid() && ih.root != NO_PAGE
    ensures KeySorted(out)
    ensures forall k :: HoldsKey(out, k) <==> k in ih.entries
    ensures forall i :: 0 <= i < |out| ==> out[i].key in ih.entries && out[i].rid == ih.entries[out[i].key]
  {
    hide KidsOk, ParentsOk, RootOk, EntriesOk, Flat, KeySorted, HoldsKey, AtRank;
    ghost var t := ih.View();
    LeafAt(t, |t.chain| - 1);
    FirstAndLast(t);
    var ended;
    ended, out := Walk(ih, Iid(ih.firstLeaf, 0), Iid(ih.lastLeaf, ih.pages[ih.lastLeaf].num), 0, 0, |t.chain| - 1,
                       |All(t)|);
    AllIsRange(t, out);
  }

  lemma FirstAndLast(t: Tree)
    requires Legal(t)
    ensures AtRank(t, Iid(t.first, 0), 0, 0)
    ensures t.last in t.pages && AtRank(t, Iid(t.last, t.pages[t.last].num), |t.chain| - 1, |All(t)|)
  {
    hide KidsOk, ParentsOk, EntriesOk;
    LeafAt(t, 0);
    LeafAt(t, |t.chain| - 1);
  }

  lemma AllIsRange(t: Tree, out: seq<Entry>)
    requires Legal(t) && out == All(t)[0..|All(t)|]
    ensures KeySorted(out)
    ensures forall k :: HoldsKey(out, k) <==> k in t.entries
    ensures forall i :: 0 <= i < |out| ==> out[i].key in t.entries && out[i].rid == t.entries[out[i].key]
  {
    hide KidsOk, ParentsOk, NodeOk, ChainLink, Flat;
    AllIsEntries(t);
    forall i, j | 0 <= i < j < |out|
      ensures out[i].key < out[j].key
    {
      AllSorted(t, i, j);
    }
    forall k | k in t.entries
      ensures HoldsKey(out, k)
    {
      var z := EntryInAll(t, k);
      assert out[z].key == k;
    }
  }

  lemma SameRank(t: Tree, i: Iid, c: nat, x: nat, j: Iid, d: nat, y: nat)
    requires Legal(t) && AtRank(t, i, c, x) && AtRank(t, j, d, y)
    ensures i == j <==> x == y
  {
    hide KidsOk, ParentsOk, EntriesOk;
    forall e | 0 <= e < |t.chain|
      ensures 1 <= |LeafEntries(t, e)|
    {
      LeafAt(t, e);
    }
    PositionsAreCanonical(t, i, c, x, j, d, y);
  }
}
