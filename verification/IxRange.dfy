/** The leaf list read as one sequence of entries, and positions in it. */
module IxRange {
  import opened IxNode
  import opened IxTree
  import opened IxChain

  datatype Entry = Entry(key: Key, rid: Rid)

  /** The entries of the first `c` leaves of the chain. */
  ghost function Flat(t: Tree, c: nat): seq<Entry>
    requires NodesOk(t) && ChainOk(t) && c <= |t.chain|
    decreases c
  {
    if c == 0 then [] else Flat(t, c - 1) + LeafEntries(t, c - 1)
  }

  ghost function LeafEntries(t: Tree, c: nat): seq<Entry>
    requires NodesOk(t) && ChainOk(t) && c < |t.chain|
  {
    assert ChainLink(t, c);
    var n := t.pages[t.chain[c]];
    assert NodeOk(n, t.spans[t.chain[c]]);
    seq(n.num, i requires 0 <= i < n.num => Entry(n.keys[i], n.rids[i]))
  }

  ghost function All(t: Tree): seq<Entry>
    requires NodesOk(t) && ChainOk(t)
  {
    Flat(t, |t.chain|)
  }

  lemma {:induction false} FlatPrefix(t: Tree, c: nat, d: nat)
    requires NodesOk(t) && ChainOk(t) && c <= d <= |t.chain|
    ensures |Flat(t, c)| <= |Flat(t, d)| && Flat(t, d)[..|Flat(t, c)|] == Flat(t, c)
    decreases d
  {
    if c < d {
      FlatPrefix(t, c, d - 1);
    }
  }

  /** Slot `s` of the leaf at chain position `c` is entry number `|Flat(t, c)| + s`. */
  lemma SlotInAll(t: Tree, c: nat, s: nat)
    requires NodesOk(t) && ChainOk(t) && c < |t.chain| && s < |LeafEntries(t, c)|
    ensures |Flat(t, c)| + s < |All(t)| && All(t)[|Flat(t, c)| + s] == LeafEntries(t, c)[s]
  {
    FlatPrefix(t, c + 1, |t.chain|);
    assert Flat(t, c + 1)[|Flat(t, c)| + s] == LeafEntries(t, c)[s];
  }

  lemma {:induction false} LeafOfIndex(t: Tree, x: nat, d: nat) returns (c: nat, s: nat)
    requires NodesOk(t) && ChainOk(t) && d <= |t.chain| && x < |Flat(t, d)|
    ensures c < d && s < |LeafEntries(t, c)| && x == |Flat(t, c)| + s
    decreases d
  {
    if x < |Flat(t, d - 1)| {
      c, s := LeafOfIndex(t, x, d - 1);
    } else {
      c, s := d - 1, x - |Flat(t, d - 1)|;
    }
  }

  lemma EntryOfLeaf(t: Tree, c: nat, s: nat)
    requires NodesOk(t) && ChainOk(t) && c < |t.chain| && s < |LeafEntries(t, c)|
    ensures t.chain[c] in t.pages && t.pages[t.chain[c]].isLeaf && t.chain[c] in t.spans
    ensures var n := t.pages[t.chain[c]];
            s < n.num <= |n.keys| == |n.rids| && LeafEntries(t, c)[s] == Entry(n.keys[s], n.rids[s])
    ensures InSpan(t.spans[t.chain[c]], LeafEntries(t, c)[s].key)
    ensures NodeOk(t.pages[t.chain[c]], t.spans[t.chain[c]])
  {
    assert ChainLink(t, c);
    assert NodeOk(t.pages[t.chain[c]], t.spans[t.chain[c]]);
  }

  /** The list is in strictly increasing key order. */
  lemma AllSorted(t: Tree, x: nat, y: nat)
    requires NodesOk(t) && ChainOk(t) && x < y < |All(t)|
    ensures All(t)[x].key < All(t)[y].key
  {
    hide ChainOk, NodesOk;
    var c, s := LeafOfIndex(t, x, |t.chain|);
    var d, u := LeafOfIndex(t, y, |t.chain|);
    SlotInAll(t, c, s);
    SlotInAll(t, d, u);
    EntryOfLeaf(t, c, s);
    EntryOfLeaf(t, d, u);
    if c < d {
      ChainOrder(t, c, d);
    } else if d < c {
      FlatPrefix(t, d + 1, c);
    }
  }

  /** The list holds exactly the entries of the map. */
  lemma AllIsEntries(t: Tree)
    requires NodesOk(t) && ChainOk(t) && EntriesOk(t)
    ensures forall x :: 0 <= x < |All(t)| ==> All(t)[x].key in t.entries && t.entries[All(t)[x].key] == All(t)[x].rid
  {
    forall x | 0 <= x < |All(t)|
      ensures All(t)[x].key in t.entries && t.entries[All(t)[x].key] == All(t)[x].rid
    {
      var c, s := LeafOfIndex(t, x, |t.chain|);
      SlotInAll(t, c, s);
      EntryOfLeaf(t, c, s);
      var p := t.chain[c];
      assert p in t.pages && t.pages[p].isLeaf;
      assert LeafOk(t.pages[p], t.spans[p], t.entries);
    }
  }

  /** The leaves' spans cover all keys. */
  lemma {:induction false} ResponsibleFrom(t: Tree, k: Key, c: nat) returns (d: nat)
    requires NodesOk(t) && ChainOk(t) && c < |t.chain| && t.chain[c] in t.spans && AtOrBelow(t.spans[t.chain[c]].lo, k)
    ensures d < |t.chain| && t.chain[d] in t.pages && t.pages[t.chain[d]].isLeaf && InSpan(t.spans[t.chain[d]], k)
    decreases |t.chain| - c
  {
    assert ChainLink(t, c);
    if StrictlyAbove(t.spans[t.chain[c]].hi, k) {
      d := c;
    } else {
      assert NodeOk(t.pages[t.chain[c]], t.spans[t.chain[c]]);
      assert ChainLink(t, c + 1);
      d := ResponsibleFrom(t, k, c + 1);
    }
  }

  lemma EntryInAll(t: Tree, k: Key) returns (x: nat)
    requires NodesOk(t) && ChainOk(t) && EntriesOk(t) && k in t.entries
    ensures x < |All(t)| && All(t)[x] == Entry(k, t.entries[k])
  {
    assert ChainLink(t, 0);
    var c := ResponsibleFrom(t, k, 0);
    var p := t.chain[c];
    assert p in t.pages && t.pages[p].isLeaf;
    assert LeafOk(t.pages[p], t.spans[p], t.entries);
    var s :| 0 <= s < t.pages[p].num && t.pages[p].keys[s] == k;
    SlotInAll(t, c, s);
    x := |Flat(t, c)| + s;
  }

  /** `x` is where entries from `k` on start: before it all keys are below `k` (or equal,
      when `strict`), from it on none is. */
  ghost predicate Divides(all: seq<Entry>, k: Key, strict: bool, x: nat) {
    && x <= |all|
    && (forall y :: 0 <= y < x ==> if strict then all[y].key <= k else all[y].key < k)
    && (forall y :: x <= y < |all| ==> if strict then k < all[y].key else k <= all[y].key)
  }

  lemma EntryBeside(t: Tree, c: nat, k: Key, strict: bool, s: nat, d: nat, u: nat)
    requires NodesOk(t) && ChainOk(t) && c < |t.chain| && t.chain[c] in t.spans && InSpan(t.spans[t.chain[c]], k)
    requires Divides(LeafEntries(t, c), k, strict, s) && d < |t.chain| && u < |LeafEntries(t, d)|
    ensures |Flat(t, d)| + u < |Flat(t, c)| + s ==>
              if strict then LeafEntries(t, d)[u].key <= k else LeafEntries(t, d)[u].key < k
    ensures |Flat(t, c)| + s <= |Flat(t, d)| + u ==>
              if strict then k < LeafEntries(t, d)[u].key else k <= LeafEntries(t, d)[u].key
  {
    hide ChainOk, NodeOk, LeafEntries;
    EntryOfLeaf(t, d, u);
    if d < c {
      FlatPrefix(t, d + 1, c);
      ChainOrder(t, d, c);
    } else if c < d {
      FlatPrefix(t, c + 1, d);
      ChainOrder(t, c, d);
    }
  }

  /** A position that divides the responsible leaf divides the whole list. */
  lemma LeafDivides(t: Tree, c: nat, k: Key, strict: bool, s: nat)
    requires NodesOk(t) && ChainOk(t) && c < |t.chain| && t.chain[c] in t.spans && InSpan(t.spans[t.chain[c]], k)
    requires Divides(LeafEntries(t, c), k, strict, s)
    ensures Divides(All(t), k, strict, |Flat(t, c)| + s)
  {
    hide ChainOk, NodesOk, LeafEntries, InSpan;
    FlatPrefix(t, c + 1, |t.chain|);
    var r := |Flat(t, c)| + s;
    forall y | 0 <= y < |All(t)|
      ensures y < r ==> if strict then All(t)[y].key <= k else All(t)[y].key < k
      ensures r <= y ==> if strict then k < All(t)[y].key else k <= All(t)[y].key
    {
      var d, u := LeafOfIndex(t, y, |t.chain|);
      SlotInAll(t, d, u);
      EntryBeside(t, c, k, strict, s, d, u);
    }
  }

  // ----- positions

  /** A position in the leaf list: a page and a slot in it. */
  datatype Iid = Iid(pageNo: int, slotNo: int)

  /** `iid` is the canonical name of entry number `x`, or of the end of the list. */
  ghost predicate AtRank(t: Tree, iid: Iid, c: nat, x: nat)
    requires NodesOk(t) && ChainOk(t)
  {
    && c < |t.chain| && iid.pageNo == t.chain[c]
    && 0 <= iid.slotNo
    && (iid.slotNo < |LeafEntries(t, c)| || (c + 1 == |t.chain| && iid.slotNo == |LeafEntries(t, c)|))
    && x == |Flat(t, c)| + iid.slotNo
  }

  ghost predicate NoEmptyLeaf(t: Tree)
    requires NodesOk(t) && ChainOk(t)
  {
    forall c :: 0 <= c < |t.chain| ==> 1 <= |LeafEntries(t, c)|
  }

  /** Positions are equal exactly when their ranks are, so comparing positions is a
      correct test for the end of a scan. */
  lemma PositionsAreCanonical(t: Tree, i: Iid, c: nat, x: nat, j: Iid, d: nat, y: nat)
    requires NodesOk(t) && ChainOk(t) && NoEmptyLeaf(t) && AtRank(t, i, c, x) && AtRank(t, j, d, y)
    ensures i == j <==> x == y
  {
    hide LeafEntries;
    if c < d {
      ChainOrder(t, c, d);
      FlatPrefix(t, c + 1, d);
      assert Flat(t, c + 1) == Flat(t, c) + LeafEntries(t, c);
    } else if d < c {
      ChainOrder(t, d, c);
      FlatPrefix(t, d + 1, c);
      assert Flat(t, d + 1) == Flat(t, d) + LeafEntries(t, d);
    }
  }

  lemma RankAtMostAll(t: Tree, i: Iid, c: nat, x: nat)
    requires NodesOk(t) && ChainOk(t) && AtRank(t, i, c, x)
    ensures x <= |All(t)|
    ensures x < |All(t)| <==> i.slotNo < |LeafEntries(t, c)|
  {
    hide LeafEntries, ChainLink;
    FlatPrefix(t, c + 1, |t.chain|);
    assert Flat(t, c + 1) == Flat(t, c) + LeafEntries(t, c);
  }
}
