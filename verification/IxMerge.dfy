/** Merging two siblings, and borrowing as merging followed by a different split. */
module IxMerge {
  import opened IxNode
  import opened IxTree
  import opened IxReshape

  /** The used slots of `l` followed by those of `r`, whose slot 0 takes over the
      separator when the pages are internal. */
  function Merged(l: Node, r: Node, sep: Key): (n: Node)
    requires l.num <= |l.keys| == |l.rids| && 1 <= r.num <= |r.keys| == |r.rids|
    ensures n == l.(num := l.num + r.num, keys := n.keys, rids := n.rids)
    ensures |n.keys| == |n.rids| == n.num
    ensures forall i :: 0 <= i < l.num ==> n.keys[i] == l.keys[i] && n.rids[i] == l.rids[i]
    ensures forall i :: l.num <= i < n.num ==> n.rids[i] == r.rids[i - l.num]
    ensures forall i :: l.num <= i < n.num ==> n.keys[i] == if i == l.num && !r.isLeaf then sep else r.keys[i - l.num]
  {
    l.(num := l.num + r.num,
       keys := l.keys[..l.num] + (if r.isLeaf then r.keys[..1] else [sep]) + r.keys[1..r.num],
       rids := l.rids[..l.num] + r.rids[..r.num])
  }

  lemma MergedOk(l: Node, s: Span, r: Node, u: Span, sep: Key)
    requires NodeOk(l, s) && NodeOk(r, u) && 1 <= r.num
    requires l.isLeaf == r.isLeaf && s.h == u.h && s.hi == Fin(sep) && u.lo == Fin(sep)
    ensures NodeOk(Merged(l, r, sep), Span(s.lo, u.hi, s.h))
  {
    hide Merged;
    var n := Merged(l, r, sep);
    assert forall i :: First(l) <= i < l.num ==> n.keys[i] == l.keys[i] && n.keys[i] < sep;
    assert forall i :: l.num <= i < n.num ==> sep <= n.keys[i] && StrictlyAbove(u.hi, n.keys[i]);
  }

  lemma EraseSeparatorOk(n: Node, s: Span, i: nat)
    requires NodeOk(n, s) && !n.isLeaf && 1 <= i < n.num
    ensures NodeOk(EraseAt(n, i), s)
  {
  }

  /** Child `r` at slot `i + 1` of `q` was merged into its left neighbour `l`. */
  ghost predicate IsMerge(t: Tree, t': Tree, l: int, r: int, q: int, i: nat) {
    && l in t.pages && r in t.pages && q in t.pages && t.spans.Keys == t.pages.Keys
    && !t.pages[q].isLeaf && i + 1 < t.pages[q].num <= |t.pages[q].keys| == |t.pages[q].rids|
    && t.pages[q].rids[i].pageNo == l && t.pages[q].rids[i + 1].pageNo == r
    && t.pages[l].num <= |t.pages[l].keys| == |t.pages[l].rids|
    && 1 <= t.pages[r].num <= |t.pages[r].keys| == |t.pages[r].rids|
    && t'.order == t.order && t'.entries == t.entries && t'.first == t.first && t'.root == t.root
    && t'.pages.Keys == t.pages.Keys - {r}
    && l != r && q != r && q != l
    && SameUsed(t'.pages[l], Merged(t.pages[l], t.pages[r], t.pages[q].keys[i + 1]))
    && SameUsed(t'.pages[q], EraseAt(t.pages[q], i + 1))
    && (forall p :: p in t'.pages && p != l && p != q ==> SameUsed(t'.pages[p], t.pages[p]))
    && (forall p :: p in t'.pages ==> t'.pages[p].parent == if t.pages[p].parent == r then l else t.pages[p].parent)
    && t'.spans == t.spans[l := Span(t.spans[l].lo, t.spans[r].hi, t.spans[l].h)] - {r}
  }

  lemma MergeSpans(t: Tree, l: int, r: int, q: int, i: nat)
    requires NodesOk(t) && KidsOk(t) && q in t.pages && !t.pages[q].isLeaf && i + 1 < t.pages[q].num
    requires t.pages[q].rids[i].pageNo == l && t.pages[q].rids[i + 1].pageNo == r
    ensures l in t.pages && r in t.pages && t.pages[l].parent == q && t.pages[r].parent == q
    ensures t.spans[l] == SlotSpan(t.pages[q], t.spans[q], i)
    ensures t.spans[r] == SlotSpan(t.pages[q], t.spans[q], i + 1)
    ensures l != r && q != r && q != l
    ensures t.pages[l].isLeaf == t.pages[r].isLeaf
  {
    assert KidOk(t, q, i) && KidOk(t, q, i + 1);
    assert NodeOk(t.pages[l], t.spans[l]) && NodeOk(t.pages[r], t.spans[r]);
  }

  lemma MergeReshapes(t: Tree, t': Tree, l: int, r: int, q: int, i: nat)
    requires NodesOk(t) && KidsOk(t) && IsMerge(t, t', l, r, q, i)
    ensures Reshapes(t, t', {l, r, q})
  {
    hide Merged, EraseAt;
    MergeSpans(t, l, r, q, i);
  }

  lemma MergeNodes(t: Tree, t': Tree, l: int, r: int, q: int, i: nat)
    requires NodesOk(t) && KidsOk(t) && IsMerge(t, t', l, r, q, i)
    ensures TouchedNodesOk(t', {l, r, q})
  {
    hide Sorted, Merged, EraseAt;
    MergeSpans(t, l, r, q, i);
    var sep := t.pages[q].keys[i + 1];
    MergedOk(t.pages[l], t.spans[l], t.pages[r], t.spans[r], sep);
    SameUsedOk(t'.pages[l], Merged(t.pages[l], t.pages[r], sep), t'.spans[l]);
    EraseSeparatorOk(t.pages[q], t.spans[q], i + 1);
    SameUsedOk(t'.pages[q], EraseAt(t.pages[q], i + 1), t'.spans[q]);
  }

  lemma MergeParentKid(t: Tree, t': Tree, l: int, r: int, q: int, i: nat, k: nat)
    requires NodesOk(t) && KidsOk(t) && IsMerge(t, t', l, r, q, i)
    requires k < t'.pages[q].num
    ensures KidOk(t', q, k)
  {
    hide Merged, EraseAt;
    MergeSpans(t, l, r, q, i);
    var o := if k <= i then k else k + 1;
    assert KidOk(t, q, o);
    SlotsDiffer(t.pages[q], t.spans[q], o, i + 1);
    if o != i { SlotsDiffer(t.pages[q], t.spans[q], o, i); }
  }

  lemma MergeKid(t: Tree, t': Tree, l: int, r: int, q: int, i: nat, k: nat)
    requires NodesOk(t) && KidsOk(t) && IsMerge(t, t', l, r, q, i)
    requires !t.pages[l].isLeaf && k < t'.pages[l].num
    ensures KidOk(t', l, k)
  {
    hide Merged, EraseAt;
    MergeSpans(t, l, r, q, i);
    var ln, n := t.pages[l].num, Merged(t.pages[l], t.pages[r], t.pages[q].keys[i + 1]);
    if k < ln {
      assert KidOk(t, l, k);
    } else {
      assert KidOk(t, r, k - ln);
    }
  }

  lemma MergeTouchedKids(t: Tree, t': Tree, l: int, r: int, q: int, i: nat)
    requires NodesOk(t) && KidsOk(t) && IsMerge(t, t', l, r, q, i)
    requires TouchedNodesOk(t', {l, r, q})
    ensures TouchedKidsOk(t', {l, r, q})
  {
    MergeSpans(t, l, r, q, i);
    forall p, k | p in {l, r, q} && p in t'.pages && !t'.pages[p].isLeaf && 0 <= k < t'.pages[p].num
      ensures KidOk(t', p, k)
    {
      if p == q { MergeParentKid(t, t', l, r, q, i, k); } else { MergeKid(t, t', l, r, q, i, k); }
    }
  }

  lemma MergeSibling(t: Tree, t': Tree, l: int, r: int, q: int, i: nat, k: nat)
    requires NodesOk(t) && KidsOk(t) && IsMerge(t, t', l, r, q, i)
    requires k < t.pages[q].num && k != i + 1
    ensures var p := t.pages[q].rids[k].pageNo; p in t.pages && p != r ==> ParentOk(t', p)
  {
    hide NodesOk, KidsOk, Merged, EraseAt, Sorted;
    var p, n := t.pages[q].rids[k].pageNo, EraseAt(t.pages[q], i + 1);
    KidParent(t, q, k);
    if p in t.pages && p != r {
      var k' := if k <= i then k else k - 1;
      ErasedKid(t.pages[q], i + 1, k);
      assert t'.pages[q].rids[k'].pageNo == n.rids[k'].pageNo == p;
      assert t'.pages[p].parent == q;
    }
  }

  lemma KidParent(t: Tree, q: int, k: nat)
    requires NodesOk(t) && KidsOk(t) && q in t.pages && !t.pages[q].isLeaf && k < t.pages[q].num
    ensures t.pages[q].num <= |t.pages[q].keys| == |t.pages[q].rids|
    ensures t.pages[q].rids[k].pageNo in t.pages && t.pages[t.pages[q].rids[k].pageNo].parent == q
  {
    assert NodeOk(t.pages[q], t.spans[q]) && KidOk(t, q, k);
  }

  lemma ErasedKid(n: Node, pos: nat, k: nat)
    requires pos < n.num <= |n.keys| == |n.rids| && k < n.num && k != pos
    ensures EraseAt(n, pos).rids[if k < pos then k else k - 1] == n.rids[k] && EraseAt(n, pos).num == n.num - 1
    ensures EraseAt(n, pos).isLeaf == n.isLeaf && |EraseAt(n, pos).rids| == |n.rids|
  {
  }

  lemma MergeGrandKid(t: Tree, t': Tree, l: int, r: int, q: int, i: nat, o: int, k: nat)
    requires NodesOk(t) && KidsOk(t) && IsMerge(t, t', l, r, q, i)
    requires o in {l, r} && !t.pages[o].isLeaf && k < t.pages[o].num
    ensures var p := t.pages[o].rids[k].pageNo; p in t.pages && p != r ==> ParentOk(t', p)
  {
    MergeSpans(t, l, r, q, i);
    assert KidOk(t, o, k);
    var n := Merged(t.pages[l], t.pages[r], t.pages[q].keys[i + 1]);
    if o == l {
      assert t'.pages[l].rids[k].pageNo == t.pages[o].rids[k].pageNo;
    } else {
      assert n.rids[t.pages[l].num + k] == t.pages[r].rids[k];
      assert t'.pages[l].rids[t.pages[l].num + k].pageNo == t.pages[o].rids[k].pageNo;
    }
  }

  lemma MergeParent(t: Tree, t': Tree, l: int, r: int, q: int, i: nat, p: int)
    requires NodesOk(t) && KidsOk(t) && IsMerge(t, t', l, r, q, i)
    requires p in t'.pages && ParentOk(t, p) && t.pages[p].parent in {l, r, q}
    ensures ParentOk(t', p)
  {
    var o := t.pages[p].parent;
    var k :| 0 <= k < t.pages[o].num && t.pages[o].rids[k].pageNo == p;
    if o == q { MergeSibling(t, t', l, r, q, i, k); } else { MergeGrandKid(t, t', l, r, q, i, o, k); }
  }

  lemma MergeMoved(t: Tree, t': Tree, l: int, r: int, q: int, i: nat)
    requires NodesOk(t) && KidsOk(t) && ParentsOk(t) && IsMerge(t, t', l, r, q, i)
    ensures MovedParentsOk(t, t', {l, r, q})
  {
    hide Merged, EraseAt;
    forall p | p in t'.pages && p != t'.root && t.pages[p].parent in {l, r, q}
      ensures ParentOk(t', p)
    {
      assert ParentOk(t, p);
      MergeParent(t, t', l, r, q, i, p);
    }
  }

  lemma MergeOk(t: Tree, t': Tree, l: int, r: int, q: int, i: nat)
    requires NodesOk(t) && KidsOk(t) && ParentsOk(t) && RootOk(t) && IsMerge(t, t', l, r, q, i)
    ensures NodesOk(t') && KidsOk(t') && ParentsOk(t') && RootOk(t')
  {
    MergeSpans(t, l, r, q, i);
    MergeReshapes(t, t', l, r, q, i);
    MergeNodes(t, t', l, r, q, i);
    MergeTouchedKids(t, t', l, r, q, i);
    MergeMoved(t, t', l, r, q, i);
    ReshapeOk(t, t', {l, r, q});
  }

  lemma MergeEntriesOk(t: Tree, t': Tree, l: int, r: int, q: int, i: nat)
    requires NodesOk(t) && KidsOk(t) && NodesOk(t') && EntriesOk(t) && IsMerge(t, t', l, r, q, i)
    ensures EntriesOk(t')
  {
    MergeSpans(t, l, r, q, i);
    var n := Merged(t.pages[l], t.pages[r], t.pages[q].keys[i + 1]);
    forall p | p in t'.pages && t'.pages[p].isLeaf
      ensures LeafOk(t'.pages[p], t'.spans[p], t'.entries)
    {
      assert LeafOk(t.pages[p], t.spans[p], t.entries);
      if p == l {
        assert LeafOk(t.pages[r], t.spans[r], t.entries);
        MergedLeafOk(t.pages[l], t.spans[l], t.pages[r], t.spans[r], t.pages[q].keys[i + 1], t.entries);
        SameUsedLeaf(t'.pages[l], n, t'.spans[l], t.entries);
      } else {
        SameUsedLeaf(t'.pages[p], t.pages[p], t.spans[p], t.entries);
      }
    }
  }

  lemma MergedLeafOk(l: Node, s: Span, r: Node, u: Span, sep: Key, entries: map<Key, Rid>)
    requires NodeOk(l, s) && NodeOk(r, u) && l.isLeaf && r.isLeaf && 1 <= r.num
    requires s.hi == Fin(sep) && u.lo == Fin(sep)
    requires LeafOk(l, s, entries) && LeafOk(r, u, entries)
    ensures LeafOk(Merged(l, r, sep), Span(s.lo, u.hi, s.h), entries)
  {
    hide Merged, Sorted;
    var n := Merged(l, r, sep);
    assert forall i :: l.num <= i < n.num ==> n.keys[i] == r.keys[i - l.num] && n.rids[i] == r.rids[i - l.num];
    forall k | k in entries && InSpan(Span(s.lo, u.hi, s.h), k)
      ensures k in n.keys[..n.num]
    {
      MergedCovers(l, s, r, u, sep, entries, k);
    }
  }

  lemma MergedCovers(l: Node, s: Span, r: Node, u: Span, sep: Key, entries: map<Key, Rid>, k: Key)
    requires l.num <= |l.keys| == |l.rids| && 1 <= r.num <= |r.keys| == |r.rids| && l.isLeaf && r.isLeaf
    requires s.hi == Fin(sep) && u.lo == Fin(sep) && BoundLess(s.lo, s.hi) && BoundLess(u.lo, u.hi)
    requires LeafOk(l, s, entries) && LeafOk(r, u, entries)
    requires k in entries && InSpan(Span(s.lo, u.hi, s.h), k)
    ensures k in Merged(l, r, sep).keys[..l.num + r.num]
  {
    var n := Merged(l, r, sep);
    if k < sep {
      assert InSpan(s, k);
      var x :| 0 <= x < l.num && l.keys[x] == k;
      assert n.keys[x] == k;
    } else {
      assert InSpan(u, k);
      var x :| 0 <= x < r.num && r.keys[x] == k;
      assert n.keys[l.num + x] == k;
    }
  }
}
