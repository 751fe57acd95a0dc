/** How full a legal tree is, and how low. */
module IxFill {
  import opened IxNode
  import opened IxTree

  /** Every page but the root is filled to half of the order, less at most one slot. */
  lemma HalfFull(t: Tree, p: int)
    requires Legal(t) && p in t.pages && p != t.root
    ensures t.order <= 2 * t.pages[p].num + 2 && 2 <= t.pages[p].num <= t.order
  {
    hide KidsOk, ParentsOk, RootOk, EntriesOk, ChainOk;
    assert 0 <= p && SizeOk(t, p);
  }

  ghost function Power(b: nat, e: nat): nat {
    if e == 0 then 1 else b * Power(b, e - 1)
  }

  /** The entries that belong under a span. */
  ghost function Under(t: Tree, lo: Bound, hi: Bound): set<Key> {
    set k | k in t.entries && AtOrBelow(lo, k) && StrictlyAbove(hi, k)
  }

  /** Half of the order, less one slot. */
  ghost function Half(order: nat): nat {
    if order < 2 then 0 else (order + 1) / 2 - 1
  }

  lemma LeafEntries(t: Tree, p: int)
    requires NodesOk(t) && EntriesOk(t) && p in t.pages && t.pages[p].isLeaf
    ensures t.pages[p].num <= |Under(t, t.spans[p].lo, t.spans[p].hi)|
  {
    var n, s := t.pages[p], t.spans[p];
    assert NodeOk(n, s) && LeafOk(n, s, t.entries);
    KeysCount(n, n.num);
    SubsetSize(set i | 0 <= i < n.num :: n.keys[i], Under(t, s.lo, s.hi));
  }

  /** The keys of a leaf are all different. */
  lemma {:induction false} KeysCount(n: Node, m: nat)
    requires n.isLeaf && m <= n.num <= |n.keys| && Sorted(n)
    ensures |set i | 0 <= i < m :: n.keys[i]| == m
  {
    if m > 0 {
      KeysCount(n, m - 1);
      assert (set i | 0 <= i < m :: n.keys[i]) == (set i | 0 <= i < m - 1 :: n.keys[i]) + {n.keys[m - 1]};
    }
  }

  lemma SubsetSize<T>(a: set<T>, b: set<T>)
    requires a <= b
    ensures |a| <= |b|
  {
    assert b == a + (b - a);
  }

  lemma Disjoint<T>(a: set<T>, b: set<T>, c: set<T>)
    requires a !! b && a + b <= c
    ensures |a| + |b| <= |c|
  {
    assert |a + b| == |a| + |b|;
    SubsetSize(a + b, c);
  }

  /** The first `i` children of a page hold what is below the next separator. */
  lemma {:induction false} SlotsEntries(t: Tree, p: int, i: nat, m: nat)
    requires NodesOk(t) && KidsOk(t) && p in t.pages && !t.pages[p].isLeaf && 0 < i <= t.pages[p].num
    requires forall j :: 0 <= j < i ==>
               var s := SlotSpan(t.pages[p], t.spans[p], j); m <= |Under(t, s.lo, s.hi)|
    ensures i * m <= |Under(t, t.spans[p].lo, SlotSpan(t.pages[p], t.spans[p], i - 1).hi)|
    decreases i
  {
    hide KidsOk;
    var n, s := t.pages[p], t.spans[p];
    assert NodeOk(n, s);
    var last := SlotSpan(n, s, i - 1);
    if i > 1 {
      SlotsEntries(t, p, i - 1, m);
      Disjoint(Under(t, s.lo, last.lo), Under(t, last.lo, last.hi), Under(t, s.lo, last.hi));
    }
  }

  /** If every child holds `m` entries, the page holds `m` times its number of children. */
  lemma ChildrenEntries(t: Tree, p: int, m: nat)
    requires NodesOk(t) && KidsOk(t) && p in t.pages && !t.pages[p].isLeaf
    requires forall c :: c in t.pages && t.pages[c].parent == p && t.spans[c].h == t.spans[p].h - 1 ==>
               m <= |Under(t, t.spans[c].lo, t.spans[c].hi)|
    ensures t.pages[p].num * m <= |Under(t, t.spans[p].lo, t.spans[p].hi)|
  {
    var n, s := t.pages[p], t.spans[p];
    assert NodeOk(n, s);
    forall j | 0 <= j < n.num
      ensures m <= |Under(t, SlotSpan(n, s, j).lo, SlotSpan(n, s, j).hi)|
    {
      assert KidOk(t, p, j);
    }
    SlotsEntries(t, p, n.num, m);
  }

  lemma {:induction false} PowerPositive(b: nat, e: nat)
    requires 1 <= b
    ensures 1 <= Power(b, e)
  {
    if e > 0 { PowerPositive(b, e - 1); }
  }

  lemma Times(a: nat, b: nat, m: nat)
    requires a <= b
    ensures a * m <= b * m
  {
  }

  /** A page `h` levels up holds at least the power `h + 1` of the least fill. */
  lemma {:induction false} SubtreeSize(t: Tree, p: int)
    requires Legal(t) && p in t.pages && p != t.root
    ensures 0 <= t.spans[p].h && Power(Half(t.order), t.spans[p].h + 1) <= |Under(t, t.spans[p].lo, t.spans[p].hi)|
    decreases t.spans[p].h
  {
    hide KidsOk, ParentsOk, ChainOk, SizesOkExcept, EntriesOk, Under;
    HalfFull(t, p);
    var n, h := t.pages[p], t.spans[p].h;
    assert NodeOk(n, t.spans[p]);
    var m := Power(Half(t.order), h);
    if n.isLeaf {
      LeafEntries(t, p);
    } else {
      forall c | c in t.pages && t.pages[c].parent == p && t.spans[c].h == h - 1
        ensures m <= |Under(t, t.spans[c].lo, t.spans[c].hi)|
      {
        assert NodeOk(t.pages[c], t.spans[c]);
        SubtreeSize(t, c);
      }
      ChildrenEntries(t, p, m);
      Times(Half(t.order), n.num, m);
    }
  }

  /** A legal tree whose leaves are `h` levels down holds at least `2 * m ^ h` entries, where
      `m` is half of the order less one: its height is logarithmic. */
  lemma TreeSize(t: Tree)
    requires Legal(t)
    ensures var h := t.spans[t.root].h;
            && 0 <= h && 2 <= Half(t.order) && 1 <= |t.entries|
            && (0 < h ==> 2 * Power(Half(t.order), h) <= |t.entries|)
  {
    hide KidsOk, ParentsOk, ChainOk, SizesOkExcept, EntriesOk, Under;
    var n, s := t.pages[t.root], t.spans[t.root];
    assert NodeOk(n, s);
    RootHolds(t);
    if n.isLeaf {
      LeafEntries(t, t.root);
    } else {
      var m := Power(Half(t.order), s.h);
      forall c | c in t.pages && t.pages[c].parent == t.root && t.spans[c].h == s.h - 1
        ensures m <= |Under(t, t.spans[c].lo, t.spans[c].hi)|
      {
        assert NodeOk(t.pages[c], t.spans[c]);
        SubtreeSize(t, c);
      }
      ChildrenEntries(t, t.root, m);
      Times(2, n.num, m);
      PowerPositive(Half(t.order), s.h);
    }
  }

  lemma RootHolds(t: Tree)
    requires Legal(t)
    ensures |Under(t, t.spans[t.root].lo, t.spans[t.root].hi)| == |t.entries|
    ensures (if t.pages[t.root].isLeaf then 1 else 2) <= t.pages[t.root].num
  {
    hide KidsOk, ParentsOk, ChainOk, EntriesOk;
    assert Under(t, NegInf, PosInf) == t.entries.Keys;
    assert |t.entries| == |t.entries.Keys|;
    assert 0 <= t.root;
    assert SizeOk(t, t.root);
  }
}
