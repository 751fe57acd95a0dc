/** Splitting an overfull page and linking the new right half into the parent, or into a
    new root. */
module IxSplit {
  import opened IxNode
  import opened IxTree
  import opened IxReshape

  /** `split` zeroes the slots it moves out of the left page. */
  function LeftHalf(n: Node, m: nat): (l: Node)
    requires m <= n.num <= |n.keys| == |n.rids|
    ensures l == n.(num := m, keys := l.keys, rids := l.rids)
    ensures |l.keys| == |n.keys| && |l.rids| == |n.rids|
    ensures forall i :: 0 <= i < m ==> l.keys[i] == n.keys[i] && l.rids[i] == n.rids[i]
  {
    n.(num := m,
       keys := n.keys[..m] + seq(n.num - m, _ => ZERO_KEY) + n.keys[n.num..],
       rids := n.rids[..m] + seq(n.num - m, _ => Rid(0, 0)) + n.rids[n.num..])
  }

  /** The new page starts zeroed and receives slots `m..num`. */
  function RightHalf(n: Node, m: nat): (r: Node)
    requires m <= n.num <= |n.keys| == |n.rids|
    ensures r == n.(num := n.num - m, keys := r.keys, rids := r.rids)
    ensures |r.keys| == |n.keys| && |r.rids| == |n.rids|
    ensures forall i :: 0 <= i < n.num - m ==> r.keys[i] == n.keys[m + i] && r.rids[i] == n.rids[m + i]
  {
    n.(num := n.num - m,
       keys := n.keys[m..n.num] + seq(|n.keys| - (n.num - m), _ => ZERO_KEY),
       rids := n.rids[m..n.num] + seq(|n.rids| - (n.num - m), _ => Rid(0, 0)))
  }

  lemma HalvesOk(n: Node, s: Span, m: nat)
    requires NodeOk(n, s) && 0 < m < n.num
    ensures NodeOk(LeftHalf(n, m), Span(s.lo, Fin(n.keys[m]), s.h))
    ensures NodeOk(RightHalf(n, m), Span(Fin(n.keys[m]), s.hi, s.h))
    ensures StrictlyBelow(s.lo, n.keys[m]) && StrictlyAbove(s.hi, n.keys[m])
  {
    hide LeftHalf, RightHalf;
    assert n.isLeaf ==> n.keys[0] < n.keys[m];
  }

  /** Inserting a separator strictly inside slot `i`'s span keeps the parent in order. */
  lemma SeparatorOk(n: Node, s: Span, i: nat, sep: Key, r: Rid)
    requires NodeOk(n, s) && !n.isLeaf && i < n.num < |n.keys|
    requires StrictlyBelow(SlotSpan(n, s, i).lo, sep) && StrictlyAbove(SlotSpan(n, s, i).hi, sep)
    ensures NodeOk(InsertAt(n, i + 1, sep, r), s)
    ensures InsertPoint(n, sep, i + 1)
  {
    hide InsertAt;
    var m := InsertAt(n, i + 1, sep, r);
    assert i > 0 ==> forall j :: 1 <= j < i ==> n.keys[j] < n.keys[i];
    assert i + 1 < n.num ==> forall j :: i + 1 < j < n.num ==> n.keys[i + 1] < n.keys[j];
    assert forall j :: 1 <= j <= i ==> n.keys[j] < sep;
    assert forall j :: i < j < n.num ==> sep < n.keys[j];
    assert i == 0 || StrictlyBelow(s.lo, n.keys[i]);
    assert i + 1 == n.num || StrictlyAbove(s.hi, n.keys[i + 1]);
  }

  ghost predicate StartsFrom(s: Span, k: Key) {
    s.lo.Fin? && k <= s.lo.key
  }

  /** `split(a)` moved slots `m..` and the children under them to the new page `b`. */
  ghost predicate IsHalved(t: Tree, t': Tree, a: int, b: int, m: nat) {
    && a in t.pages && b !in t.pages && 0 <= b
    && 0 < m < t.pages[a].num <= |t.pages[a].keys| == |t.pages[a].rids|
    && t.spans.Keys == t.pages.Keys && t'.spans.Keys == t'.pages.Keys
    && t.pages.Keys + {b} <= t'.pages.Keys
    && t'.order == t.order && t'.entries == t.entries && t'.first == t.first
    && var sep := t.pages[a].keys[m];
    && SameUsed(t'.pages[a], LeftHalf(t.pages[a], m))
    && SameUsed(t'.pages[b], RightHalf(t.pages[a], m))
    && t'.spans[a] == Span(t.spans[a].lo, Fin(sep), t.spans[a].h)
    && t'.spans[b] == Span(Fin(sep), t.spans[a].hi, t.spans[a].h)
    && (forall p :: p in t.pages && p != a ==>
          && t'.spans[p] == t.spans[p]
          && t'.pages[p].parent == if t.pages[p].parent == a && StartsFrom(t.spans[p], sep) then b
                                   else t.pages[p].parent)
  }

  lemma HalvedNodes(t: Tree, t': Tree, a: int, b: int, m: nat)
    requires NodesOk(t) && IsHalved(t, t', a, b, m)
    ensures NodeOk(t'.pages[a], t'.spans[a]) && NodeOk(t'.pages[b], t'.spans[b])
    ensures StrictlyBelow(t.spans[a].lo, t.pages[a].keys[m]) && StrictlyAbove(t.spans[a].hi, t.pages[a].keys[m])
  {
    var n := t.pages[a];
    HalvesOk(n, t.spans[a], m);
    SameUsedOk(t'.pages[a], LeftHalf(n, m), t'.spans[a]);
    SameUsedOk(t'.pages[b], RightHalf(n, m), t'.spans[b]);
  }

  lemma HalvedKids(t: Tree, t': Tree, a: int, b: int, m: nat)
    requires NodesOk(t) && KidsOk(t) && IsHalved(t, t', a, b, m) && !t.pages[a].isLeaf
    ensures forall k :: 0 <= k < t'.pages[a].num ==> KidOk(t', a, k)
    ensures forall k :: 0 <= k < t'.pages[b].num ==> KidOk(t', b, k)
  {
    hide LeftHalf, RightHalf;
    forall k | 0 <= k < t'.pages[a].num
      ensures KidOk(t', a, k)
    {
      assert KidOk(t, a, k);
    }
    forall k | 0 <= k < t'.pages[b].num
      ensures KidOk(t', b, k)
    {
      assert KidOk(t, a, m + k);
    }
  }

  lemma HalvedGrandKid(t: Tree, t': Tree, a: int, b: int, m: nat, k: nat)
    requires NodesOk(t) && KidsOk(t) && IsHalved(t, t', a, b, m)
    requires !t.pages[a].isLeaf && k < t.pages[a].num
    ensures var p := t.pages[a].rids[k].pageNo; p in t'.pages && ParentOk(t', p)
  {
    assert KidOk(t, a, k);
    var p := t.pages[a].rids[k].pageNo;
    if k < m {
      assert t'.pages[a].rids[k].pageNo == p;
    } else {
      assert t'.pages[b].rids[k - m].pageNo == p;
    }
  }

  lemma LeftEntries(n: Node, s: Span, m: nat, entries: map<Key, Rid>)
    requires NodeOk(n, s) && n.isLeaf && LeafOk(n, s, entries) && 0 < m < n.num
    ensures LeafOk(LeftHalf(n, m), Span(s.lo, Fin(n.keys[m]), s.h), entries)
  {
    var l := LeftHalf(n, m);
    assert StrictlyAbove(s.hi, n.keys[m]);
    forall k | k in entries && InSpan(Span(s.lo, Fin(n.keys[m]), s.h), k)
      ensures k in l.keys[..m]
    {
      assert InSpan(s, k);
      var x :| 0 <= x < n.num && n.keys[x] == k;
      assert l.keys[x] == k && x < m;
    }
  }

  lemma RightEntries(n: Node, s: Span, m: nat, entries: map<Key, Rid>)
    requires NodeOk(n, s) && n.isLeaf && LeafOk(n, s, entries) && 0 < m < n.num
    ensures LeafOk(RightHalf(n, m), Span(Fin(n.keys[m]), s.hi, s.h), entries)
  {
    var r := RightHalf(n, m);
    assert AtOrBelow(s.lo, n.keys[m]);
    forall k | k in entries && InSpan(Span(Fin(n.keys[m]), s.hi, s.h), k)
      ensures k in r.keys[..n.num - m]
    {
      assert InSpan(s, k);
      var x :| 0 <= x < n.num && n.keys[x] == k;
      assert r.keys[x - m] == k;
    }
  }

  /** Leaf entries follow the keys to the half that is now responsible for them. */
  lemma HalvedEntries(t: Tree, t': Tree, a: int, b: int, m: nat)
    requires NodesOk(t) && EntriesOk(t) && IsHalved(t, t', a, b, m)
    requires t.pages[a].isLeaf
    ensures LeafOk(t'.pages[a], t'.spans[a], t'.entries) && LeafOk(t'.pages[b], t'.spans[b], t'.entries)
  {
    hide LeftHalf, RightHalf;
    var n := t.pages[a];
    assert LeafOk(n, t.spans[a], t.entries);
    LeftEntries(n, t.spans[a], m, t.entries);
    RightEntries(n, t.spans[a], m, t.entries);
    SameUsedLeaf(t'.pages[a], LeftHalf(n, m), t'.spans[a], t.entries);
    SameUsedLeaf(t'.pages[b], RightHalf(n, m), t'.spans[b], t.entries);
  }

  // ----- linking the new page into the parent

  /** Slot `i + 1` of the parent `q` received the new page. */
  ghost predicate IsLinkSplit(t: Tree, t': Tree, a: int, b: int, q: int, m: nat, i: nat) {
    && IsHalved(t, t', a, b, m)
    && a != t.root && t'.root == t.root
    && q in t.pages && t.pages[a].parent == q && !t.pages[q].isLeaf
    && i < t.pages[q].num < |t.pages[q].keys| == |t.pages[q].rids| && t.pages[q].rids[i].pageNo == a
    && t'.pages.Keys == t.pages.Keys + {b}
    && SameUsed(t'.pages[q], InsertAt(t.pages[q], i + 1, t.pages[a].keys[m], Rid(b, 0)))
    && t'.pages[a].parent == q && t'.pages[b].parent == q
    && (forall p :: p in t.pages && p != a && p != q ==> SameUsed(t'.pages[p], t.pages[p]))
  }

  lemma LinkSplitReshapes(t: Tree, t': Tree, a: int, b: int, q: int, m: nat, i: nat)
    requires NodesOk(t) && KidsOk(t) && IsLinkSplit(t, t', a, b, q, m, i)
    ensures Reshapes(t, t', {a, b, q})
  {
    hide LeftHalf, RightHalf, InsertAt;
    assert KidOk(t, q, i);
  }

  lemma LinkSplitNodes(t: Tree, t': Tree, a: int, b: int, q: int, m: nat, i: nat)
    requires NodesOk(t) && KidsOk(t) && IsLinkSplit(t, t', a, b, q, m, i)
    ensures forall p :: p in {a, b, q} ==> NodeOk(t'.pages[p], t'.spans[p])
    ensures InsertPoint(t.pages[q], t.pages[a].keys[m], i + 1)
  {
    assert KidOk(t, q, i);
    HalvedNodes(t, t', a, b, m);
    SeparatorOk(t.pages[q], t.spans[q], i, t.pages[a].keys[m], Rid(b, 0));
    SameUsedOk(t'.pages[q], InsertAt(t.pages[q], i + 1, t.pages[a].keys[m], Rid(b, 0)), t'.spans[q]);
  }

  lemma LinkSplitParentKid(t: Tree, t': Tree, a: int, b: int, q: int, m: nat, i: nat, o: nat)
    requires NodesOk(t) && KidsOk(t) && IsLinkSplit(t, t', a, b, q, m, i)
    requires o < t.pages[q].num && o != i
    ensures KidOk(t', q, if o < i then o else o + 1)
  {
    hide LeftHalf, RightHalf, InsertAt;
    assert KidOk(t, q, i) && KidOk(t, q, o);
    SlotsDiffer(t.pages[q], t.spans[q], o, i);
  }

  lemma LinkSplitKids(t: Tree, t': Tree, a: int, b: int, q: int, m: nat, i: nat, p: int, k: nat)
    requires NodesOk(t) && KidsOk(t) && IsLinkSplit(t, t', a, b, q, m, i)
    requires p in {a, b, q} && !t'.pages[p].isLeaf && k < t'.pages[p].num
    ensures KidOk(t', p, k)
  {
    hide LeftHalf, RightHalf, InsertAt;
    assert KidOk(t, q, i);
    if p != q {
      HalvedKids(t, t', a, b, m);
    } else if k < i {
      LinkSplitParentKid(t, t', a, b, q, m, i, k);
    } else if k > i + 1 {
      LinkSplitParentKid(t, t', a, b, q, m, i, k - 1);
    }
  }

  lemma LinkSplitSibling(t: Tree, t': Tree, a: int, b: int, q: int, m: nat, i: nat, k: nat)
    requires NodesOk(t) && KidsOk(t) && IsLinkSplit(t, t', a, b, q, m, i)
    requires k < t.pages[q].num
    ensures var p := t.pages[q].rids[k].pageNo; p in t'.pages && ParentOk(t', p)
  {
    assert KidOk(t, q, i) && KidOk(t, q, k);
    assert t'.pages[q].rids[if k <= i then k else k + 1].pageNo == t.pages[q].rids[k].pageNo;
  }

  lemma LinkSplitParents(t: Tree, t': Tree, a: int, b: int, q: int, m: nat, i: nat, p: int)
    requires NodesOk(t) && KidsOk(t) && IsLinkSplit(t, t', a, b, q, m, i)
    requires p in t'.pages && (p == b || (p in t.pages && ParentOk(t, p) && t.pages[p].parent in {a, q}))
    ensures ParentOk(t', p)
  {
    if p == b {
      assert t'.pages[q].rids[i + 1].pageNo == b;
    } else {
      var o := t.pages[p].parent;
      var k :| 0 <= k < t.pages[o].num && t.pages[o].rids[k].pageNo == p;
      if o == q {
        LinkSplitSibling(t, t', a, b, q, m, i, k);
      } else {
        HalvedGrandKid(t, t', a, b, m, k);
      }
    }
  }

  lemma LinkSplitTouchedKids(t: Tree, t': Tree, a: int, b: int, q: int, m: nat, i: nat)
    requires NodesOk(t) && KidsOk(t) && IsLinkSplit(t, t', a, b, q, m, i)
    ensures TouchedNodesOk(t', {a, b, q}) && TouchedKidsOk(t', {a, b, q})
  {
    LinkSplitNodes(t, t', a, b, q, m, i);
    forall p, k | p in {a, b, q} && !t'.pages[p].isLeaf && 0 <= k < t'.pages[p].num
      ensures KidOk(t', p, k)
    {
      LinkSplitKids(t, t', a, b, q, m, i, p, k);
    }
  }

  lemma LinkSplitMoved(t: Tree, t': Tree, a: int, b: int, q: int, m: nat, i: nat)
    requires NodesOk(t) && KidsOk(t) && ParentsOk(t) && IsLinkSplit(t, t', a, b, q, m, i)
    ensures MovedParentsOk(t, t', {a, b, q})
  {
    hide LeftHalf, RightHalf, InsertAt;
    forall p | p in t'.pages && p != t'.root && (p !in t.pages || t.pages[p].parent in {a, b, q})
      ensures ParentOk(t', p)
    {
      assert p in t.pages ==> ParentOk(t, p);
      LinkSplitParents(t, t', a, b, q, m, i, p);
    }
  }

  lemma LinkSplitOk(t: Tree, t': Tree, a: int, b: int, q: int, m: nat, i: nat)
    requires NodesOk(t) && KidsOk(t) && ParentsOk(t) && RootOk(t) && IsLinkSplit(t, t', a, b, q, m, i)
    ensures NodesOk(t') && KidsOk(t') && ParentsOk(t') && RootOk(t')
  {
    LinkSplitReshapes(t, t', a, b, q, m, i);
    LinkSplitTouchedKids(t, t', a, b, q, m, i);
    LinkSplitMoved(t, t', a, b, q, m, i);
    ReshapeOk(t, t', {a, b, q});
    assert NodeOk(t.pages[a], t.spans[a]);
  }

  // ----- growing a new root

  /** The root itself was split; page `c` is the new root over both halves. */
  ghost predicate IsRootSplit(t: Tree, t': Tree, a: int, b: int, c: int, m: nat) {
    && IsHalved(t, t', a, b, m)
    && a == t.root && t'.root == c && c !in t.pages && c != b && 0 <= c
    && t'.pages.Keys == t.pages.Keys + {b, c}
    && (forall p :: p in t.pages && p != a ==> SameUsed(t'.pages[p], t.pages[p]))
    && t'.pages[a].parent == c && t'.pages[b].parent == c && t'.pages[c].parent == NO_PAGE
    && var n := t'.pages[c];
    && !n.isLeaf && n.num == 2 && Shaped(n, t.order) && 2 <= t.order
    && n.keys[1] == t.pages[a].keys[m] && n.rids[0].pageNo == a && n.rids[1].pageNo == b
    && t'.spans[c] == Span(NegInf, PosInf, t.spans[a].h + 1)
  }

  lemma RootSplitTouched(t: Tree, t': Tree, a: int, b: int, c: int, m: nat)
    requires NodesOk(t) && KidsOk(t) && RootOk(t) && IsRootSplit(t, t', a, b, c, m)
    ensures TouchedNodesOk(t', {a, b, c, NO_PAGE}) && TouchedKidsOk(t', {a, b, c, NO_PAGE})
  {
    hide LeftHalf, RightHalf, NodeOk, KidOk, SameUsed;
    HalvedNodes(t, t', a, b, m);
    NewRootOk(t, t', a, b, c, m);
    HalvesKind(t, t', a, b, m);
    if !t.pages[a].isLeaf { HalvedKids(t, t', a, b, m); }
  }

  lemma HalvesKind(t: Tree, t': Tree, a: int, b: int, m: nat)
    requires IsHalved(t, t', a, b, m)
    ensures t'.pages[a].isLeaf == t.pages[a].isLeaf == t'.pages[b].isLeaf
    ensures t'.pages[a].num <= |t'.pages[a].keys| == |t'.pages[a].rids|
    ensures t'.pages[b].num <= |t'.pages[b].keys| == |t'.pages[b].rids|
  {
  }

  /** The new root and its two children. */
  lemma NewRootOk(t: Tree, t': Tree, a: int, b: int, c: int, m: nat)
    requires NodesOk(t) && RootOk(t) && IsRootSplit(t, t', a, b, c, m)
    requires StrictlyBelow(t.spans[a].lo, t.pages[a].keys[m]) && StrictlyAbove(t.spans[a].hi, t.pages[a].keys[m])
    ensures NodeOk(t'.pages[c], t'.spans[c]) && KidOk(t', c, 0) && KidOk(t', c, 1) && a >= 0
  {
    hide LeftHalf, RightHalf, SameUsed;
  }

  lemma RootSplitMoved(t: Tree, t': Tree, a: int, b: int, c: int, m: nat)
    requires NodesOk(t) && KidsOk(t) && ParentsOk(t) && RootOk(t) && IsRootSplit(t, t', a, b, c, m)
    ensures MovedParentsOk(t, t', {a, b, c, NO_PAGE})
  {
    assert t'.pages[c].rids[0].pageNo == a && t'.pages[c].rids[1].pageNo == b;
    forall p | p in t'.pages && p != t'.root && (p !in t.pages || t.pages[p].parent in {a, b, c, NO_PAGE})
      ensures ParentOk(t', p)
    {
      if p in t.pages && p != a {
        assert ParentOk(t, p);
        var k :| 0 <= k < t.pages[a].num && t.pages[a].rids[k].pageNo == p;
        HalvedGrandKid(t, t', a, b, m, k);
      }
    }
  }

  lemma RootSplitOk(t: Tree, t': Tree, a: int, b: int, c: int, m: nat)
    requires NodesOk(t) && KidsOk(t) && ParentsOk(t) && RootOk(t) && IsRootSplit(t, t', a, b, c, m)
    ensures NodesOk(t') && KidsOk(t') && ParentsOk(t') && RootOk(t')
  {
    hide LeftHalf, RightHalf;
    assert forall p :: p in t.pages && t.pages[p].parent == NO_PAGE && p != a ==> ParentOk(t, p);
    RootSplitTouched(t, t', a, b, c, m);
    RootSplitMoved(t, t', a, b, c, m);
    ReshapeOk(t, t', {a, b, c, NO_PAGE});
  }

  // ----- map and chain

  lemma SplitEntriesOk(t: Tree, t': Tree, a: int, b: int, m: nat)
    requires NodesOk(t) && NodesOk(t') && EntriesOk(t) && IsHalved(t, t', a, b, m)
    requires forall p :: p in t.pages && p != a && t.pages[p].isLeaf ==> SameUsed(t'.pages[p], t.pages[p])
    requires forall p :: p in t'.pages && t'.pages[p].isLeaf ==> p == b || (p in t.pages && t.pages[p].isLeaf)
    ensures EntriesOk(t')
  {
    hide LeftHalf, RightHalf, LeafOk;
    if t.pages[a].isLeaf { HalvedEntries(t, t', a, b, m); }
    forall p | p in t'.pages && t'.pages[p].isLeaf
      ensures LeafOk(t'.pages[p], t'.spans[p], t'.entries)
    {
      if p != a && p != b { SameUsedLeaf(t'.pages[p], t.pages[p], t.spans[p], t.entries); }
    }
  }
}
