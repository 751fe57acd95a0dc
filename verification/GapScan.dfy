/** The scan of the index executor between two bounds: positions, the test on the keys of
    the gap lock, and the walk. */
module GapScan {
  import opened IxNode
  import opened IxTree
  import opened IxRange
  import opened IxHandle
  import opened IxScanner

  /** `AssertFails` stands for the assertion in `get_gap_lock_key`, and `Overrun` for a walk
      that misses its end and fails at the end of the leaf list. */
  datatype ScanOutcome = Rows(rows: seq<Entry>) | Overrun(rows: seq<Entry>) | AssertFails

  predicate AboveLow(k: Key, a: Key, openLow: bool) {
    if openLow then a < k else a <= k
  }

  predicate BelowHigh(k: Key, b: Key, openHigh: bool) {
    if openHigh then k < b else k <= b
  }

  type Entries = map<Key, Rid>

  /** Exactly the entries between the bounds, once each, in order. */
  ghost predicate IsRange(out: seq<Entry>, es: Entries, a: Key, openLow: bool, b: Key, openHigh: bool) {
    && KeySorted(out)
    && (forall k :: HoldsKey(out, k) <==> k in es && AboveLow(k, a, openLow) && BelowHigh(k, b, openHigh))
    && (forall i :: 0 <= i < |out| ==> out[i].key in es && out[i].rid == es[out[i].key])
  }

  ghost predicate NoneAbove(es: Entries, a: Key, openLow: bool) {
    forall k :: k in es ==> !AboveLow(k, a, openLow)
  }

  /** The key lies beyond both bounds: they have crossed over it. */
  ghost predicate Beyond(k: Key, a: Key, openLow: bool, b: Key, openHigh: bool) {
    !AboveLow(k, a, openLow) && !BelowHigh(k, b, openHigh)
  }

  ghost predicate OneBeyond(es: Entries, a: Key, openLow: bool, b: Key, openHigh: bool) {
    exists k :: k in es && Beyond(k, a, openLow, b, openHigh)
                && forall l :: l in es && Beyond(l, a, openLow, b, openHigh) ==> l == k
  }

  /** The walk starts behind its end. `top` is the key that `get_key` writes for the end of
      the leaf list. */
  ghost predicate Overruns(es: Entries, a: Key, openLow: bool, b: Key, openHigh: bool, top: Key) {
    && OneBeyond(es, a, openLow, b, openHigh)
    && (NoneAbove(es, a, openLow) ==> if a in es then a <= top else a < top) && (a in es ==> openLow)
  }

  /** The test takes a range at the end of the list for empty, because `top` is too small. */
  ghost predicate Cut(es: Entries, a: Key, openLow: bool, b: Key, openHigh: bool, top: Key) {
    && (forall k :: k in es ==> BelowHigh(k, b, openHigh)) && !NoneAbove(es, a, openLow)
    && (|| (exists k :: k in es && !AboveLow(k, a, openLow) && top < k)
        || (top < a && ((a in es && !openLow) || forall k :: k in es ==> AboveLow(k, a, openLow))))
  }

  // Keys at positions

  ghost function KeyAt(all: seq<Entry>, x: nat, top: Key): Key
    requires x <= |all|
  {
    if x < |all| then all[x].key else top
  }

  /** The position of rank `x` is the end of the list exactly when `x` is its length. */
  lemma EndRank(t: Tree, iid: Iid, c: nat, x: nat)
    requires Legal(t) && AtRank(t, iid, c, x)
    ensures t.last in t.pages && x <= |All(t)| && (iid == Iid(t.last, t.pages[t.last].num) <==> x == |All(t)|)
    ensures x < |All(t)| ==> iid.pageNo in t.pages && 0 <= iid.slotNo < |t.pages[iid.pageNo].keys|
                             && All(t)[x].key == t.pages[iid.pageNo].keys[iid.slotNo]
  {
    hide KidsOk, ParentsOk, EntriesOk, SizesOkExcept, Flat, AtRank;
    FirstAndLast(t);
    SameRank(t, iid, c, x, Iid(t.last, t.pages[t.last].num), |t.chain| - 1, |All(t)|);
    CursorEntry(t, iid, c, x);
  }

  /** `IxIndexHandle::get_key`. */
  method GetKey(ih: IxIndexHandle, iid: Iid, top: Key, ghost c: nat, ghost x: nat) returns (k: Key)
    requires ih.Valid() && ih.root != NO_PAGE && AtRank(ih.View(), iid, c, x)
    ensures x <= |All(ih.View())| && k == KeyAt(All(ih.View()), x, top)
  {
    hide Structured, SizesOkExcept, Flat, AtRank;
    EndRank(ih.View(), iid, c, x);
    if iid == Iid(ih.lastLeaf, ih.pages[ih.lastLeaf].num) {
      return top;
    }
    k := ih.pages[iid.pageNo].keys[iid.slotNo];
  }

  lemma BeforeRank(t: Tree, iid: Iid, c: nat, x: nat)
    requires Legal(t) && AtRank(t, iid, c, x)
    ensures iid.pageNo in t.pages && 0 <= iid.slotNo && (iid == Iid(t.first, 0) <==> x == 0)
    ensures x > 0 && iid.slotNo > 0 ==> AtRank(t, Iid(iid.pageNo, iid.slotNo - 1), c, x - 1)
    ensures x > 0 && iid.slotNo == 0 ==> var p := t.pages[iid.pageNo].prev;
              c > 0 && p in t.pages && AtRank(t, Iid(p, t.pages[p].num - 1), c - 1, x - 1)
  {
    hide KidsOk, ParentsOk, EntriesOk;
    LeafAt(t, c);
    FirstAndLast(t);
    SameRank(t, iid, c, x, Iid(t.first, 0), 0, 0);
    if iid.slotNo == 0 && c > 0 {
      assert ChainLink(t, c);
      LeafAt(t, c - 1);
    }
  }

  /** `minus_one`. */
  method MinusOne(ih: IxIndexHandle, iid: Iid, ghost c: nat, ghost x: nat) returns (ok: bool, prev: Iid, ghost d: nat)
    requires ih.Valid() && ih.root != NO_PAGE && AtRank(ih.View(), iid, c, x)
    ensures ok <==> x > 0
    ensures ok ==> AtRank(ih.View(), prev, d, x - 1)
  {
    hide Structured, SizesOkExcept, Flat, AtRank;
    BeforeRank(ih.View(), iid, c, x);
    prev, d := iid, c;
    if iid == Iid(ih.firstLeaf, 0) {
      return false, prev, d;
    }
    if iid.slotNo == 0 {
      var p := ih.pages[iid.pageNo].prev;
      prev, d := Iid(p, ih.pages[p].num - 1), c - 1;
    } else {
      prev := Iid(iid.pageNo, iid.slotNo - 1);
    }
    ok := true;
  }

  // The test

  /** The lower key of the gap: the bound itself when it is stored, else the entry before
      the range, if there is one. */
  ghost function GapLow(all: seq<Entry>, x: nat, a: Key, top: Key): Key
    requires x <= |all|
  {
    if a == KeyAt(all, x, top) || x == 0 then a else all[x - 1].key
  }

  /** `get_gap_lock_key`. */
  method GapKeys(ih: IxIndexHandle, lower: Iid, upper: Iid, a: Key, top: Key, ghost c: nat, ghost x: nat, ghost d: nat,
                 ghost y: nat)
    returns (ok: bool, lowerKey: Key, upperKey: Key)
    requires ih.Valid() && ih.root != NO_PAGE && AtRank(ih.View(), lower, c, x) && AtRank(ih.View(), upper, d, y)
    ensures x <= |All(ih.View())| && y <= |All(ih.View())| && upperKey == KeyAt(All(ih.View()), y, top)
    ensures ok <==> a <= KeyAt(All(ih.View()), x, top)
    ensures ok ==> lowerKey == GapLow(All(ih.View()), x, a, top)
  {
    hide Structured, SizesOkExcept, Flat, AtRank;
    lowerKey := a;
    var lowerBound := GetKey(ih, lower, top, c, x);
    upperKey := GetKey(ih, upper, top, d, y);
    if a < lowerBound {
      ghost var e;
      var moved, prev;
      moved, prev, e := MinusOne(ih, lower, c, x);
      if moved {
        lowerKey := GetKey(ih, prev, top, e, x - 1);
      }
    }
    ok := a <= lowerBound;
  }

  ghost function Outcome(all: seq<Entry>, x: nat, y: nat, a: Key, top: Key): ScanOutcome
    requires x <= |all| && y <= |all|
  {
    if KeyAt(all, x, top) < a then AssertFails
    else if KeyAt(all, y, top) < GapLow(all, x, a, top) then Rows([])
    else if x <= y then Rows(all[x..y])
    else Overrun(all[x..])
  }

  /** `beginTuple` and the walk between two bounds, each open or closed. */
  method RangeScan(ih: IxIndexHandle, a: Key, openLow: bool, b: Key, openHigh: bool,
                   top: Key) returns (out: ScanOutcome)
    requires ih.Valid() && ih.root != NO_PAGE
    ensures out.AssertFails? <==> top < a && NoneAbove(ih.entries, a, openLow)
    ensures out.Overrun? <==> Overruns(ih.entries, a, openLow, b, openHigh, top)
    ensures out.Rows? ==> (IsRange(out.rows, ih.entries, a, openLow, b, openHigh) <==>
                           !Cut(ih.entries, a, openLow, b, openHigh, top))
    ensures out.Rows? && !IsRange(out.rows, ih.entries, a, openLow, b, openHigh) ==> out.rows == []
  {
    hide NodesOk, KidsOk, ParentsOk, RootOk, EntriesOk, ChainOk, SizesOkExcept, Flat, AtRank, Divides, Overruns, Cut,
      IsRange, NoneAbove, Listed;
    ghost var t := ih.View();
    ghost var c, x, d, y;
    var lower, upper;
    if openHigh {
      upper, d, y := ih.LowerBoundOf(b);
    } else {
      upper, d, y := ih.UpperBoundOf(b);
    }
    if openLow {
      lower, c, x := ih.UpperBoundOf(a);
    } else {
      lower, c, x := ih.LowerBoundOf(a);
    }
    AllListed(t);
    OutcomeOk(All(t), ih.entries, a, openLow, x, b, openHigh, y, top);
    var ok, lowerKey, upperKey := GapKeys(ih, lower, upper, a, top, c, x, d, y);
    if !ok {
      return AssertFails;
    }
    if lowerKey > upperKey {
      return Rows([]);
    }
    var ended, rows := Walk(ih, lower, upper, c, x, d, y);
    out := if ended then Rows(rows) else Overrun(rows);
  }

  // What the test amounts to

  /** The sequence lists the map in key order. */
  ghost predicate Listed(all: seq<Entry>, es: Entries) {
    && KeySorted(all)
    && (forall i :: 0 <= i < |all| ==> all[i].key in es && all[i].rid == es[all[i].key])
    && (forall k :: k in es ==> HoldsKey(all, k))
  }

  lemma AllListed(t: Tree)
    requires Legal(t)
    ensures Listed(All(t), t.entries)
  {
    hide NodesOk, KidsOk, ParentsOk, RootOk, EntriesOk, ChainOk, SizesOkExcept, Flat;
    assert All(t)[0..|All(t)|] == All(t);
    AllIsRange(t, All(t));
  }

  /** Being above or below a bound is a matter of rank. */
  ghost predicate Ranked(all: seq<Entry>, a: Key, openLow: bool, x: nat, b: Key, openHigh: bool, y: nat) {
    && x <= |all| && y <= |all|
    && (forall i :: 0 <= i < |all| ==> (AboveLow(all[i].key, a, openLow) <==> x <= i))
    && (forall i :: 0 <= i < |all| ==> (BelowHigh(all[i].key, b, openHigh) <==> i < y))
  }

  lemma IsRanked(all: seq<Entry>, a: Key, openLow: bool, x: nat, b: Key, openHigh: bool, y: nat)
    requires Divides(all, a, openLow, x) && Divides(all, b, !openHigh, y)
    ensures Ranked(all, a, openLow, x, b, openHigh, y)
  {
  }

  lemma NoneAboveRank(all: seq<Entry>, es: Entries, a: Key, openLow: bool, x: nat, b: Key, openHigh: bool, y: nat)
    requires Listed(all, es) && Ranked(all, a, openLow, x, b, openHigh, y)
    ensures NoneAbove(es, a, openLow) <==> x == |all|
    ensures (forall k :: k in es ==> AboveLow(k, a, openLow)) <==> x == 0
    ensures (forall k :: k in es ==> BelowHigh(k, b, openHigh)) <==> y == |all|
  {
    if x < |all| { assert all[x].key in es; }
    if x > 0 { assert all[0].key in es; }
    if y < |all| { assert all[y].key in es; }
  }

  lemma StoredRank(all: seq<Entry>, es: Entries, a: Key, openLow: bool, x: nat, b: Key, openHigh: bool, y: nat)
    requires Listed(all, es) && Ranked(all, a, openLow, x, b, openHigh, y)
    ensures x < |all| ==> (all[x].key == a <==> a in es && !openLow)
    ensures x > 0 ==> (all[x - 1].key == a <==> a in es && openLow)
    ensures x < |all| ==> a <= all[x].key
    ensures x > 0 ==> all[x - 1].key <= a
  {
    if a in es {
      var i :| 0 <= i < |all| && all[i].key == a;
      assert openLow ==> i < x;
      assert !openLow ==> x <= i;
    }
  }

  lemma BeyondRank(all: seq<Entry>, es: Entries, a: Key, openLow: bool, x: nat, b: Key, openHigh: bool, y: nat,
                   k: Key) returns (i: nat)
    requires Listed(all, es) && Ranked(all, a, openLow, x, b, openHigh, y) && k in es
    ensures i < |all| && all[i].key == k && (Beyond(k, a, openLow, b, openHigh) <==> y <= i < x)
  {
    i :| 0 <= i < |all| && all[i].key == k;
  }

  lemma OneBeyondRank(all: seq<Entry>, es: Entries, a: Key, openLow: bool, x: nat, b: Key, openHigh: bool, y: nat)
    requires Listed(all, es) && Ranked(all, a, openLow, x, b, openHigh, y)
    ensures OneBeyond(es, a, openLow, b, openHigh) <==> x == y + 1
  {
    hide Ranked, Beyond;
    RankBounds(all, a, openLow, x, b, openHigh, y);
    if y < x {
      var k := all[y].key;
      var i := BeyondRank(all, es, a, openLow, x, b, openHigh, y, k);
      forall l | l in es && Beyond(l, a, openLow, b, openHigh)
        ensures x == y + 1 ==> l == k
      {
        var j := BeyondRank(all, es, a, openLow, x, b, openHigh, y, l);
      }
      if y + 1 < x {
        var m := BeyondRank(all, es, a, openLow, x, b, openHigh, y, all[y + 1].key);
      }
    } else {
      forall l | l in es
        ensures !Beyond(l, a, openLow, b, openHigh)
      {
        var j := BeyondRank(all, es, a, openLow, x, b, openHigh, y, l);
      }
    }
  }

  lemma OverrunOk(all: seq<Entry>, es: Entries, a: Key, openLow: bool, x: nat, b: Key, openHigh: bool, y: nat, top: Key)
    requires Listed(all, es) && Ranked(all, a, openLow, x, b, openHigh, y)
    ensures Outcome(all, x, y, a, top).Overrun? <==> Overruns(es, a, openLow, b, openHigh, top)
  {
    hide OneBeyond, NoneAbove, Ranked;
    assert x <= |all| && y <= |all| by { RankBounds(all, a, openLow, x, b, openHigh, y); }
    NoneAboveRank(all, es, a, openLow, x, b, openHigh, y);
    StoredRank(all, es, a, openLow, x, b, openHigh, y);
    OneBeyondRank(all, es, a, openLow, x, b, openHigh, y);
  }

  lemma RankBounds(all: seq<Entry>, a: Key, openLow: bool, x: nat, b: Key, openHigh: bool, y: nat)
    requires Ranked(all, a, openLow, x, b, openHigh, y)
    ensures x <= |all| && y <= |all|
  {
  }

  lemma SliceKeys(all: seq<Entry>, x: nat, y: nat, k: Key)
    requires x <= y <= |all|
    ensures HoldsKey(all[x..y], k) <==> exists z :: x <= z < y && all[z].key == k
  {
    var out := all[x..y];
    if z :| x <= z < y && all[z].key == k { assert out[z - x].key == k; }
    if HoldsKey(out, k) {
      var i :| 0 <= i < |out| && out[i].key == k;
      assert all[x + i].key == k;
    }
  }

  lemma SliceSorted(all: seq<Entry>, x: nat, y: nat)
    requires x <= y <= |all| && KeySorted(all)
    ensures KeySorted(all[x..y])
  {
  }

  lemma SliceIsRange(all: seq<Entry>, es: Entries, a: Key, openLow: bool, x: nat, b: Key, openHigh: bool, y: nat)
    requires Listed(all, es) && Ranked(all, a, openLow, x, b, openHigh, y)
    ensures IsRange(if x <= y then all[x..y] else [], es, a, openLow, b, openHigh)
  {
    hide HoldsKey, KeySorted;
    var lo := if x <= y then x else y;
    var out := all[lo..y];
    assert out == if x <= y then all[x..y] else [];
    SliceSorted(all, lo, y);
    forall k
      ensures HoldsKey(out, k) <==> k in es && AboveLow(k, a, openLow) && BelowHigh(k, b, openHigh)
    {
      SliceKeys(all, lo, y, k);
      if k in es {
        var z := FoundAt(all, es, k);
        SameKey(all, es, k, z);
      }
    }
  }

  lemma FoundAt(all: seq<Entry>, es: Entries, k: Key) returns (z: nat)
    requires Listed(all, es) && k in es
    ensures z < |all| && all[z].key == k
  {
    z :| 0 <= z < |all| && all[z].key == k;
  }

  lemma SameKey(all: seq<Entry>, es: Entries, k: Key, z: nat)
    requires Listed(all, es) && z < |all| && all[z].key == k
    ensures forall i :: 0 <= i < |all| && all[i].key == k ==> i == z
  {
  }

  /** When the test fires although the range is not empty. */
  lemma CutRank(all: seq<Entry>, es: Entries, a: Key, openLow: bool, x: nat, b: Key, openHigh: bool, y: nat, top: Key)
    requires Listed(all, es) && Ranked(all, a, openLow, x, b, openHigh, y) && a <= KeyAt(all, x, top)
    ensures Cut(es, a, openLow, b, openHigh, top) <==> x < y == |all| && top < GapLow(all, x, a, top)
  {
    NoneAboveRank(all, es, a, openLow, x, b, openHigh, y);
    StoredRank(all, es, a, openLow, x, b, openHigh, y);
    if k :| k in es && !AboveLow(k, a, openLow) && top < k {
      var i :| 0 <= i < |all| && all[i].key == k;
      assert i < x && all[i].key <= all[x - 1].key;
    } else if x > 0 {
      assert all[x - 1].key in es;
    }
  }

  lemma RowsOk(all: seq<Entry>, es: Entries, a: Key, openLow: bool, x: nat, b: Key, openHigh: bool, y: nat, top: Key)
    requires Listed(all, es) && Ranked(all, a, openLow, x, b, openHigh, y) && Outcome(all, x, y, a, top).Rows?
    ensures IsRange(Outcome(all, x, y, a, top).rows, es, a, openLow, b, openHigh) <==>
              !Cut(es, a, openLow, b, openHigh, top)
    ensures Cut(es, a, openLow, b, openHigh, top) ==> Outcome(all, x, y, a, top).rows == []
  {
    hide Cut, IsRange, Ranked;
    RankBounds(all, a, openLow, x, b, openHigh, y);
    CutRank(all, es, a, openLow, x, b, openHigh, y, top);
    SliceIsRange(all, es, a, openLow, x, b, openHigh, y);
    StoredRank(all, es, a, openLow, x, b, openHigh, y);
    if x < y { OneInRange(all, es, a, openLow, x, b, openHigh, y); }
  }

  /** The empty list is not the range when an entry lies in it. */
  lemma OneInRange(all: seq<Entry>, es: Entries, a: Key, openLow: bool, x: nat, b: Key, openHigh: bool, y: nat)
    requires Listed(all, es) && Ranked(all, a, openLow, x, b, openHigh, y) && x < y
    ensures !IsRange([], es, a, openLow, b, openHigh)
  {
    assert all[x].key in es && AboveLow(all[x].key, a, openLow) && BelowHigh(all[x].key, b, openHigh);
    assert !HoldsKey([], all[x].key);
  }

  lemma OutcomeOk(all: seq<Entry>, es: Entries, a: Key, openLow: bool, x: nat, b: Key, openHigh: bool, y: nat, top: Key)
    requires Listed(all, es) && Divides(all, a, openLow, x) && Divides(all, b, !openHigh, y)
    ensures var out := Outcome(all, x, y, a, top);
            && (out.AssertFails? <==> top < a && NoneAbove(es, a, openLow))
            && (out.Overrun? <==> Overruns(es, a, openLow, b, openHigh, top))
            && (out.Rows? ==> (IsRange(out.rows, es, a, openLow, b, openHigh) <==>
                               !Cut(es, a, openLow, b, openHigh, top)))
            && (out.Rows? && !IsRange(out.rows, es, a, openLow, b, openHigh) ==> out.rows == [])
  {
    hide Overruns, Cut, IsRange, NoneAbove, Listed, Ranked;
    IsRanked(all, a, openLow, x, b, openHigh, y);
    NoneAboveRank(all, es, a, openLow, x, b, openHigh, y);
    StoredRank(all, es, a, openLow, x, b, openHigh, y);
    OverrunOk(all, es, a, openLow, x, b, openHigh, y, top);
    if Outcome(all, x, y, a, top).Rows? { RowsOk(all, es, a, openLow, x, b, openHigh, y, top); }
  }

  /** Above 7 and below 3, with only 5 stored. */
  lemma OverrunHappens(es: Entries, top: Key)
    requires 7 < top && 5 in es && forall k :: k in es ==> k == 5
    ensures Overruns(es, 7, true, 3, true, top)
  {
    assert Beyond(5, 7, true, 3, true);
    assert OneBeyond(es, 7, true, 3, true);
  }
}
