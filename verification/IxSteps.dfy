/** Every structural step of insertion and deletion keeps the whole tree well formed. */
module IxSteps {
  import opened IxNode
  import opened IxTree
  import opened IxReshape
  import opened IxSplit
  import opened IxMerge
  import opened IxChain

  // ----- one entry more or less in a leaf

  ghost predicate IsPut(t: Tree, t': Tree, p: int, pos: nat, k: Key, r: Rid) {
    && p in t.pages && t.pages[p].isLeaf && pos <= t.pages[p].num < |t.pages[p].keys| == |t.pages[p].rids|
    && t' == t.(pages := t.pages[p := InsertAt(t.pages[p], pos, k, r)], entries := t.entries[k := r])
  }

  lemma PutNodeOk(n: Node, s: Span, pos: nat, k: Key, r: Rid)
    requires NodeOk(n, s) && n.isLeaf && n.num < |n.keys|
    requires InSpan(s, k) && InsertPoint(n, k, pos) && (pos < n.num ==> n.keys[pos] != k)
    ensures NodeOk(InsertAt(n, pos, k, r), s)
  {
    hide InsertAt;
  }

  lemma PutLeafOk(n: Node, s: Span, pos: nat, k: Key, r: Rid, entries: map<Key, Rid>)
    requires n.isLeaf && pos <= n.num < |n.keys| == |n.rids| && LeafOk(n, s, entries) && k !in entries
    ensures LeafOk(InsertAt(n, pos, k, r), s, entries[k := r])
  {
    hide InsertAt;
    var m := InsertAt(n, pos, k, r);
    forall x | x in entries && InSpan(s, x)
      ensures x in m.keys[..m.num]
    {
      var i :| 0 <= i < n.num && n.keys[i] == x;
      assert m.keys[if i < pos then i else i + 1] == x;
    }
    assert m.keys[pos] == k;
  }

  /** A key belongs to one leaf only, so the others do not notice. */
  lemma OtherLeavesOk(t: Tree, p: int, k: Key, entries: map<Key, Rid>)
    requires NodesOk(t) && ChainOk(t) && EntriesOk(t)
    requires p in t.pages && t.pages[p].isLeaf && InSpan(t.spans[p], k)
    requires entries - {k} == t.entries - {k}
    ensures forall q :: q in t.pages && t.pages[q].isLeaf && q != p ==> LeafOk(t.pages[q], t.spans[q], entries)
  {
    forall q | q in t.pages && t.pages[q].isLeaf && q != p
      ensures LeafOk(t.pages[q], t.spans[q], entries)
    {
      assert LeafOk(t.pages[q], t.spans[q], t.entries) && NodeOk(t.pages[q], t.spans[q]);
      if InSpan(t.spans[q], k) { LeafSpansDisjoint(t, p, q, k); }
      assert forall x :: x != k && x in t.entries ==> x in t.entries - {k};
      assert forall x :: x != k && x in entries ==> x in entries - {k};
    }
  }

  lemma PutEntries(t: Tree, t': Tree, p: int, pos: nat, k: Key, r: Rid)
    requires NodesOk(t) && NodesOk(t') && ChainOk(t) && EntriesOk(t) && IsPut(t, t', p, pos, k, r)
    requires InSpan(t.spans[p], k) && k !in t.entries
    ensures EntriesOk(t')
  {
    hide InsertAt, ChainOk, NodeOk;
    assert LeafOk(t.pages[p], t.spans[p], t.entries);
    PutLeafOk(t.pages[p], t.spans[p], pos, k, r, t.entries);
    OtherLeavesOk(t, p, k, t'.entries);
  }

  /** Adding an absent key at its place in the leaf responsible for it. */
  lemma PutOk(t: Tree, t': Tree, p: int, pos: nat, k: Key, r: Rid)
    requires Structured(t) && IsPut(t, t', p, pos, k, r)
    requires InSpan(t.spans[p], k) && InsertPoint(t.pages[p], k, pos) && k !in t.entries
    ensures Structured(t')
  {
    hide KidsOk, ChainOk, Sorted, InsertAt, EntriesOk;
    LeafLacksKey(t, p, k);
    PutNodeOk(t.pages[p], t.spans[p], pos, k, r);
    ReshapeOk(t, t', {p});
    PutEntries(t, t', p, pos, k, r);
    LinksUnchanged(t, t');
  }

  lemma LeafLacksKey(t: Tree, p: int, k: Key)
    requires NodesOk(t) && EntriesOk(t) && p in t.pages && t.pages[p].isLeaf && k !in t.entries
    ensures forall i :: 0 <= i < t.pages[p].num ==> t.pages[p].keys[i] != k
  {
    assert LeafOk(t.pages[p], t.spans[p], t.entries);
  }

  ghost predicate IsErase(t: Tree, t': Tree, p: int, pos: nat) {
    && p in t.pages && t.pages[p].isLeaf && pos < t.pages[p].num <= |t.pages[p].keys| == |t.pages[p].rids|
    && t' == t.(pages := t.pages[p := EraseAt(t.pages[p], pos)], entries := t.entries - {t.pages[p].keys[pos]})
  }

  lemma EraseNodeOk(n: Node, s: Span, pos: nat)
    requires NodeOk(n, s) && n.isLeaf && pos < n.num
    ensures NodeOk(EraseAt(n, pos), s)
  {
    hide EraseAt;
  }

  lemma ErasedKeys(n: Node, pos: nat)
    requires n.isLeaf && pos < n.num <= |n.keys| == |n.rids| && Sorted(n)
    ensures var m := EraseAt(n, pos);
            && (forall i :: 0 <= i < m.num ==>
                m.keys[i] != n.keys[pos] && m.keys[i] == n.keys[if i < pos then i else i + 1])
            && (forall x :: x in n.keys[..n.num] && x != n.keys[pos] ==> x in m.keys[..m.num])
  {
    hide EraseAt;
    var m := EraseAt(n, pos);
    forall x | x in n.keys[..n.num] && x != n.keys[pos]
      ensures x in m.keys[..m.num]
    {
      var i :| 0 <= i < n.num && n.keys[i] == x;
      assert m.keys[if i < pos then i else i - 1] == x;
    }
  }

  lemma EraseLeafOk(n: Node, s: Span, pos: nat, entries: map<Key, Rid>)
    requires n.isLeaf && pos < n.num <= |n.keys| == |n.rids| && Sorted(n) && LeafOk(n, s, entries)
    ensures LeafOk(EraseAt(n, pos), s, entries - {n.keys[pos]})
  {
    hide EraseAt, Sorted, InSpan;
    ErasedKeys(n, pos);
  }

  lemma EraseEntries(t: Tree, t': Tree, p: int, pos: nat)
    requires NodesOk(t) && NodesOk(t') && ChainOk(t) && EntriesOk(t) && IsErase(t, t', p, pos)
    ensures EntriesOk(t')
  {
    hide EraseAt, ChainOk;
    assert NodeOk(t.pages[p], t.spans[p]) && LeafOk(t.pages[p], t.spans[p], t.entries);
    EraseLeafOk(t.pages[p], t.spans[p], pos, t.entries);
    OtherLeavesOk(t, p, t.pages[p].keys[pos], t'.entries);
  }

  lemma EraseOk(t: Tree, t': Tree, p: int, pos: nat)
    requires Structured(t) && IsErase(t, t', p, pos)
    ensures Structured(t')
  {
    hide KidsOk, ChainOk, Sorted, EraseAt, EntriesOk;
    EraseNodeOk(t.pages[p], t.spans[p], pos);
    ReshapeOk(t, t', {p});
    EraseEntries(t, t', p, pos);
    LinksUnchanged(t, t');
  }

  lemma LinksUnchanged(t: Tree, t': Tree)
    requires ChainOk(t)
    requires t'.chain == t.chain && t'.first == t.first && t'.last == t.last && t'.spans == t.spans
    requires t'.pages.Keys == t.pages.Keys
    requires forall p :: p in t.pages ==>
               && t'.pages[p].isLeaf == t.pages[p].isLeaf
               && t'.pages[p].next == t.pages[p].next && t'.pages[p].prev == t.pages[p].prev
    ensures ChainOk(t')
  {
    forall i | 0 <= i < |t'.chain|
      ensures ChainLink(t', i)
    {
      assert ChainLink(t, i);
    }
  }

  // ----- split

  lemma LeafLinkSplitOk(t: Tree, t': Tree, a: int, b: int, q: int, m: nat, i: nat, j: nat)
    requires Structured(t) && IsLinkSplit(t, t', a, b, q, m, i) && t.pages[a].isLeaf
    requires IsChainInsert(t, t', a, b, j)
    ensures Structured(t')
  {
    LinkSplitOk(t, t', a, b, q, m, i);
    SplitEntriesOk(t, t', a, b, m);
    ChainInsertOk(t, t', a, b, j);
  }

  /** Steps above the leaves do not touch the leaf list. */
  ghost predicate SameLeafList(t: Tree, t': Tree) {
    && t'.chain == t.chain && t'.first == t.first && t'.last == t.last
    && (forall p :: p in t.pages && t.pages[p].isLeaf ==>
          && p in t'.pages && t'.pages[p].isLeaf
          && t'.pages[p].next == t.pages[p].next && t'.pages[p].prev == t.pages[p].prev)
  }

  lemma InnerLinkSplitLeaves(t: Tree, t': Tree, a: int, b: int, q: int, m: nat, i: nat)
    requires NodesOk(t) && NodesOk(t') && EntriesOk(t) && ChainOk(t) && IsLinkSplit(t, t', a, b, q, m, i)
    requires !t.pages[a].isLeaf
    requires SameLeafList(t, t') && Reshapes(t, t', {a, b, q})
    ensures EntriesOk(t') && ChainOk(t')
  {
    LeavesUntouched(t, t', {a, b, q});
  }

  lemma InnerLinkSplitOk(t: Tree, t': Tree, a: int, b: int, q: int, m: nat, i: nat)
    requires Structured(t) && IsLinkSplit(t, t', a, b, q, m, i) && !t.pages[a].isLeaf
    requires SameLeafList(t, t')
    ensures Structured(t')
  {
    LinkSplitOk(t, t', a, b, q, m, i);
    LinkSplitReshapes(t, t', a, b, q, m, i);
    InnerLinkSplitLeaves(t, t', a, b, q, m, i);
  }

  lemma LeafRootSplitOk(t: Tree, t': Tree, a: int, b: int, c: int, m: nat, j: nat)
    requires Structured(t) && IsRootSplit(t, t', a, b, c, m) && t.pages[a].isLeaf
    requires IsChainInsert(t, t', a, b, j)
    ensures Structured(t')
  {
    RootSplitOk(t, t', a, b, c, m);
    SplitEntriesOk(t, t', a, b, m);
    ChainInsertOk(t, t', a, b, j);
  }

  lemma InnerRootSplitOk(t: Tree, t': Tree, a: int, b: int, c: int, m: nat)
    requires Structured(t) && IsRootSplit(t, t', a, b, c, m) && !t.pages[a].isLeaf
    requires SameLeafList(t, t')
    ensures Structured(t')
  {
    hide KidsOk, ParentsOk, EntriesOk, ChainOk, Sorted;
    RootSplitOk(t, t', a, b, c, m);
    LeavesUntouched(t, t', {a, b, c, NO_PAGE});
  }

  // ----- merge

  lemma LeafMergeOk(t: Tree, t': Tree, l: int, r: int, q: int, i: nat, j: nat)
    requires Structured(t) && IsMerge(t, t', l, r, q, i) && t.pages[l].isLeaf
    requires IsChainRemove(t, t', l, r, j)
    ensures Structured(t')
  {
    MergeOk(t, t', l, r, q, i);
    MergeEntriesOk(t, t', l, r, q, i);
    ChainRemoveOk(t, t', l, r, j);
  }

  lemma InnerMergeOk(t: Tree, t': Tree, l: int, r: int, q: int, i: nat)
    requires Structured(t) && IsMerge(t, t', l, r, q, i) && !t.pages[l].isLeaf
    requires SameLeafList(t, t')
    ensures Structured(t')
  {
    MergeSpans(t, l, r, q, i);
    MergeOk(t, t', l, r, q, i);
    MergeReshapes(t, t', l, r, q, i);
    LeavesUntouched(t, t', {l, r, q});
  }

  // ----- borrow

  /** Siblings `l` and `r` share their slots anew: `l` now holds the first `m`. */
  ghost predicate IsBorrow(t: Tree, t': Tree, l: int, r: int, q: int, i: nat, m: nat) {
    && l in t.pages && r in t.pages && q in t.pages && l != r && q != l && q != r && t.spans.Keys == t.pages.Keys
    && i + 1 < t.pages[q].num <= |t.pages[q].keys| == |t.pages[q].rids|
    && t.pages[q].rids[i].pageNo == l && t.pages[q].rids[i + 1].pageNo == r && !t.pages[q].isLeaf
    && t.pages[l].num <= |t.pages[l].keys| == |t.pages[l].rids|
    && 1 <= t.pages[r].num <= |t.pages[r].keys| == |t.pages[r].rids|
    && var n := Merged(t.pages[l], t.pages[r], t.pages[q].keys[i + 1]);
    && 0 < m < n.num
    && t' == t.(pages := t'.pages, spans := t'.spans)
    && t'.pages.Keys == t.pages.Keys
    && t'.spans == t.spans[l := t.spans[l].(hi := Fin(n.keys[m]))][r := t.spans[r].(lo := Fin(n.keys[m]))]
    && SameUsed(t'.pages[l], LeftHalf(n, m)) && SameUsed(t'.pages[r], RightHalf(n, m))
    && SameUsed(t'.pages[q], t.pages[q].(keys := t.pages[q].keys[i + 1 := n.keys[m]]))
    && (forall p :: p in t.pages && p != l && p != r && p != q ==> SameUsed(t'.pages[p], t.pages[p]))
    && (forall p :: p in t.pages ==>
          && t'.pages[p].next == t.pages[p].next && t'.pages[p].prev == t.pages[p].prev
          && t'.pages[p].parent == if t.pages[p].parent != l && t.pages[p].parent != r then t.pages[p].parent
                                   else if StartsFrom(t.spans[p], n.keys[m]) then r else l)
  }

  /** The tree in which `l` and `r` are one page: borrowing goes through it in thought. */
  ghost function MergedTree(t: Tree, l: int, r: int, q: int, i: nat, j: nat): Tree
    requires l in t.pages && r in t.pages && q in t.pages
    requires i + 1 < t.pages[q].num <= |t.pages[q].keys| == |t.pages[q].rids|
    requires t.pages[l].num <= |t.pages[l].keys| == |t.pages[l].rids|
    requires 1 <= t.pages[r].num <= |t.pages[r].keys| == |t.pages[r].rids|
    requires t.spans.Keys == t.pages.Keys && (t.pages[l].isLeaf ==> j + 1 < |t.chain|)
  {
    var leaf, rn := t.pages[l].isLeaf, t.pages[r];
    t.(pages := map p | p in t.pages && p != r ::
                  (if p == l then Merged(t.pages[l], rn, t.pages[q].keys[i + 1])
                   else if p == q then EraseAt(t.pages[q], i + 1) else t.pages[p])
                  .(parent := if t.pages[p].parent == r then l else t.pages[p].parent,
                    next := if leaf && p == l then rn.next else t.pages[p].next,
                    prev := if leaf && p == rn.next then l else t.pages[p].prev),
       spans := t.spans[l := Span(t.spans[l].lo, t.spans[r].hi, t.spans[l].h)] - {r},
       last := if leaf && t.last == r then l else t.last,
       chain := if leaf then t.chain[..j + 1] + t.chain[j + 2..] else t.chain)
  }

  lemma MergedTreeIsMerge(t: Tree, l: int, r: int, q: int, i: nat, j: nat)
    requires NodesOk(t) && KidsOk(t)
    requires q in t.pages && !t.pages[q].isLeaf && i + 1 < t.pages[q].num
    requires t.pages[q].rids[i].pageNo == l && t.pages[q].rids[i + 1].pageNo == r
    requires l in t.pages && r in t.pages && 1 <= t.pages[r].num
    requires t.pages[l].isLeaf ==> j + 1 < |t.chain|
    ensures IsExactMerge(t, MergedTree(t, l, r, q, i, j), l, r, q, i)
  {
    MergeSpans(t, l, r, q, i);
  }

  lemma MergedTreeChain(t: Tree, l: int, r: int, q: int, i: nat, j: nat)
    requires NodesOk(t) && q in t.pages && !t.pages[q].isLeaf && i + 1 < t.pages[q].num
    requires l in t.pages && r in t.pages && 1 <= t.pages[r].num && t.pages[l].isLeaf && t.pages[r].isLeaf && l != r
    requires j + 1 < |t.chain| && t.chain[j] == l && t.chain[j + 1] == r
    ensures IsChainRemove(t, MergedTree(t, l, r, q, i, j), l, r, j)
  {
  }

  lemma MergedTreeOk(t: Tree, l: int, r: int, q: int, i: nat, j: nat)
    requires Structured(t)
    requires q in t.pages && !t.pages[q].isLeaf && i + 1 < t.pages[q].num
    requires t.pages[q].rids[i].pageNo == l && t.pages[q].rids[i + 1].pageNo == r
    requires l in t.pages && r in t.pages && 1 <= t.pages[r].num
    requires t.pages[l].isLeaf ==> j + 1 < |t.chain| && t.chain[j] == l && t.chain[j + 1] == r
    ensures IsExactMerge(t, MergedTree(t, l, r, q, i, j), l, r, q, i)
    ensures Structured(MergedTree(t, l, r, q, i, j))
    ensures t.pages[l].isLeaf ==> IsChainRemove(t, MergedTree(t, l, r, q, i, j), l, r, j)
  {
    MergeSpans(t, l, r, q, i);
    MergedTreeIsMerge(t, l, r, q, i, j);
    var tm := MergedTree(t, l, r, q, i, j);
    if t.pages[l].isLeaf {
      MergedTreeChain(t, l, r, q, i, j);
      LeafMergeOk(t, tm, l, r, q, i, j);
    } else {
      InnerMergeOk(t, tm, l, r, q, i);
    }
  }

  /** What borrowing needs to know about the merged tree. */
  ghost predicate IsExactMerge(t: Tree, tm: Tree, l: int, r: int, q: int, i: nat) {
    && IsMerge(t, tm, l, r, q, i)
    && var n := Merged(t.pages[l], t.pages[r], t.pages[q].keys[i + 1]);
    && tm.pages[l] == n.(parent := tm.pages[l].parent, next := tm.pages[l].next, prev := tm.pages[l].prev)
    && tm.pages[q] == EraseAt(t.pages[q], i + 1).(parent := tm.pages[q].parent, next := tm.pages[q].next,
                                                  prev := tm.pages[q].prev)
  }

  lemma HalvesOfSame(x: Node, y: Node, n: Node, m: nat)
    requires m <= n.num <= |n.keys| == |n.rids|
    requires x == n.(parent := x.parent, next := x.next, prev := x.prev)
    ensures SameUsed(y, LeftHalf(n, m)) ==> SameUsed(y, LeftHalf(x, m))
    ensures SameUsed(y, RightHalf(n, m)) ==> SameUsed(y, RightHalf(x, m))
  {
  }

  lemma BorrowIsHalved(t: Tree, tm: Tree, t': Tree, l: int, r: int, q: int, i: nat, m: nat)
    requires IsBorrow(t, t', l, r, q, i, m) && IsExactMerge(t, tm, l, r, q, i) && 0 <= r
    requires t.spans[l].h == t.spans[r].h
    ensures IsHalved(tm, t', l, r, m)
  {
    hide Merged, LeftHalf, RightHalf, InsertAt, EraseAt;
    var n := Merged(t.pages[l], t.pages[r], t.pages[q].keys[i + 1]);
    HalvesOfSame(tm.pages[l], t'.pages[l], n, m);
    HalvesOfSame(tm.pages[l], t'.pages[r], n, m);
  }

  lemma SeparatorReplaced(n: Node, i: nat, k: Key, r: int, y: Node, x: Node)
    requires i + 1 < n.num <= |n.keys| == |n.rids| && n.rids[i + 1].pageNo == r && !n.isLeaf
    requires SameUsed(y, n.(keys := n.keys[i + 1 := k]))
    requires x == EraseAt(n, i + 1).(parent := x.parent, next := x.next, prev := x.prev)
    ensures SameUsed(y, InsertAt(x, i + 1, k, Rid(r, 0)))
  {
    hide InsertAt, EraseAt;
    var z := InsertAt(x, i + 1, k, Rid(r, 0));
    forall j | 0 <= j < n.num
      ensures j != i + 1 ==> z.keys[j] == n.keys[j]
      ensures z.rids[j].pageNo == n.rids[j].pageNo
    {
    }
  }

  lemma BorrowIsSplit(t: Tree, tm: Tree, t': Tree, l: int, r: int, q: int, i: nat, m: nat)
    requires IsBorrow(t, t', l, r, q, i, m) && IsExactMerge(t, tm, l, r, q, i)
    requires IsHalved(tm, t', l, r, m) && l != t.root && t.pages[l].parent == q && t.pages[r].parent == q
    ensures IsLinkSplit(tm, t', l, r, q, m, i)
  {
    hide Merged, LeftHalf, RightHalf, InsertAt, EraseAt;
    SeparatorReplaced(t.pages[q], i, tm.pages[l].keys[m], r, t'.pages[q], tm.pages[q]);
  }

  lemma BorrowLinks(t: Tree, tm: Tree, t': Tree, l: int, r: int, q: int, i: nat, m: nat, j: nat, x: nat)
    requires NodesOk(t) && ChainOk(t) && IsBorrow(t, t', l, r, q, i, m) && IsChainRemove(t, tm, l, r, j)
    requires x < |t.chain| && x != j + 1
    ensures var p := t.chain[x]; p in tm.pages && t'.pages[p].next == (if p == l then r else tm.pages[p].next)
    ensures var p := t.chain[x]; t'.pages[p].prev == (if p == tm.pages[l].next then r else tm.pages[p].prev)
  {
    hide Merged, LeftHalf, RightHalf, SameUsed, NodesOk;
    assert ChainLink(t, j) && ChainLink(t, j + 1) && ChainLink(t, x);
    ChainDistinct(t);
  }

  lemma BorrowAllLinks(t: Tree, tm: Tree, t': Tree, l: int, r: int, q: int, i: nat, m: nat, j: nat)
    requires NodesOk(t) && ChainOk(t) && IsBorrow(t, t', l, r, q, i, m) && IsChainRemove(t, tm, l, r, j)
    ensures forall p :: p in tm.pages && tm.pages[p].isLeaf ==>
              t'.pages[p].next == (if p == l then r else tm.pages[p].next) &&
              t'.pages[p].prev == (if p == tm.pages[l].next then r else tm.pages[p].prev)
    ensures t.pages[r].prev == l && t.pages[l].isLeaf && t.pages[r].isLeaf && t.spans[l].hi == t.spans[r].lo
    ensures t.last != l
  {
    hide Merged, LeftHalf, RightHalf, SameUsed;
    forall p | p in tm.pages && tm.pages[p].isLeaf
      ensures t'.pages[p].next == (if p == l then r else tm.pages[p].next)
      ensures t'.pages[p].prev == (if p == tm.pages[l].next then r else tm.pages[p].prev)
    {
      var x :| 0 <= x < |t.chain| && t.chain[x] == p;
      BorrowLinks(t, tm, t', l, r, q, i, m, j, x);
    }
    assert ChainLink(t, j) && ChainLink(t, j + 1);
    ChainOrder(t, j, |t.chain| - 1);
  }

  lemma BorrowChain(t: Tree, tm: Tree, t': Tree, l: int, r: int, q: int, i: nat, m: nat, j: nat)
    requires IsBorrow(t, t', l, r, q, i, m) && IsChainRemove(t, tm, l, r, j)
    requires forall p :: p in tm.pages && tm.pages[p].isLeaf ==>
               t'.pages[p].next == (if p == l then r else tm.pages[p].next) &&
               t'.pages[p].prev == (if p == tm.pages[l].next then r else tm.pages[p].prev)
    requires t.pages[r].prev == l && t.pages[l].isLeaf && t.pages[r].isLeaf && t.spans[l].hi == t.spans[r].lo
    requires t.last != l
    ensures IsChainInsert(tm, t', l, r, j)
  {
    hide Merged, LeftHalf, RightHalf;
    assert t'.chain == tm.chain[..j + 1] + [r] + tm.chain[j + 1..];
  }

  lemma LeafBorrowOk(t: Tree, t': Tree, l: int, r: int, q: int, i: nat, m: nat, j: nat)
    requires Structured(t) && IsBorrow(t, t', l, r, q, i, m) && t.pages[l].isLeaf && t.pages[r].isLeaf
    requires j + 1 < |t.chain| && t.chain[j] == l && t.chain[j + 1] == r
    ensures Structured(t')
  {
    var tm := MergedTree(t, l, r, q, i, j);
    MergedTreeOk(t, l, r, q, i, j);
    MergeSpans(t, l, r, q, i);
    BorrowIsHalved(t, tm, t', l, r, q, i, m);
    BorrowIsSplit(t, tm, t', l, r, q, i, m);
    BorrowAllLinks(t, tm, t', l, r, q, i, m, j);
    BorrowChain(t, tm, t', l, r, q, i, m, j);
    LeafLinkSplitOk(tm, t', l, r, q, m, i, j);
  }

  lemma InnerBorrowLeafList(t: Tree, t': Tree, l: int, r: int, q: int, i: nat, m: nat)
    requires NodesOk(t) && IsBorrow(t, t', l, r, q, i, m) && !t.pages[l].isLeaf && !t.pages[r].isLeaf
    ensures SameLeafList(MergedTree(t, l, r, q, i, 0), t')
  {
  }

  lemma InnerBorrowOk(t: Tree, t': Tree, l: int, r: int, q: int, i: nat, m: nat)
    requires Structured(t) && IsBorrow(t, t', l, r, q, i, m) && !t.pages[l].isLeaf && !t.pages[r].isLeaf
    ensures Structured(t')
  {
    hide KidsOk, ParentsOk, EntriesOk, ChainOk, Sorted, IsExactMerge, SameLeafList, SameUsed, Reshapes;
    MergedTreeOk(t, l, r, q, i, 0);
    MergeSpans(t, l, r, q, i);
    InnerBorrowLeafList(t, t', l, r, q, i, m);
    InnerBorrowVia(t, MergedTree(t, l, r, q, i, 0), t', l, r, q, i, m);
  }

  lemma InnerBorrowVia(t: Tree, tm: Tree, t': Tree, l: int, r: int, q: int, i: nat, m: nat)
    requires IsBorrow(t, t', l, r, q, i, m) && IsExactMerge(t, tm, l, r, q, i)
    requires Structured(tm) && SameLeafList(tm, t') && 0 <= r && l != t.root && !t.pages[l].isLeaf
    requires t.spans[l].h == t.spans[r].h && t.pages[l].parent == q && t.pages[r].parent == q
    ensures Structured(t')
  {
    BorrowIsHalved(t, tm, t', l, r, q, i, m);
    BorrowIsSplit(t, tm, t', l, r, q, i, m);
    InnerLinkSplitOk(tm, t', l, r, q, m, i);
  }

  /** Moving slots between siblings and adjusting the separator keeps the tree. */
  lemma BorrowOk(t: Tree, t': Tree, l: int, r: int, q: int, i: nat, m: nat)
    requires Structured(t) && IsBorrow(t, t', l, r, q, i, m)
    ensures Structured(t')
  {
    MergeSpans(t, l, r, q, i);
    if t.pages[l].isLeaf {
      var j :| 0 <= j < |t.chain| && t.chain[j] == l;
      NextInChain(t, j, r);
      LeafBorrowOk(t, t', l, r, q, i, m, j);
    } else {
      InnerBorrowOk(t, t', l, r, q, i, m);
    }
  }

  // ----- the root loses a level

  ghost predicate IsCollapse(t: Tree, t': Tree, a: int, c: int) {
    && a == t.root && a in t.pages && !t.pages[a].isLeaf && t.pages[a].num == 1 && |t.pages[a].rids| > 0
    && t.pages[a].rids[0].pageNo == c && c in t.pages
    && t' == t.(pages := (t.pages - {a})[c := t.pages[c].(parent := NO_PAGE)], root := c, spans := t.spans - {a})
  }

  lemma CollapseKids(t: Tree, t': Tree, a: int, c: int)
    requires NodesOk(t) && KidsOk(t) && ParentsOk(t) && RootOk(t) && IsCollapse(t, t', a, c)
    ensures a != c && t.pages[c].parent == a && t.spans[c].lo == NegInf && t.spans[c].hi == PosInf
    ensures forall p :: p in t.pages && p != a && p != c ==> t.pages[p].parent != a && t.pages[p].parent != NO_PAGE
  {
    assert KidOk(t, a, 0) && NodeOk(t.pages[a], t.spans[a]);
    forall p | p in t.pages && p != a && p != c
      ensures t.pages[p].parent != a && t.pages[p].parent != NO_PAGE
    {
      assert ParentOk(t, p);
    }
  }

  lemma CollapseReshapes(t: Tree, t': Tree, a: int, c: int)
    requires IsCollapse(t, t', a, c) && t.spans.Keys == t.pages.Keys
    requires a != c && t.pages[c].parent == a && t.spans[c].lo == NegInf && t.spans[c].hi == PosInf
    requires forall p :: p in t.pages && p != a && p != c ==> t.pages[p].parent != a && t.pages[p].parent != NO_PAGE
    requires t.pages[a].parent == NO_PAGE
    requires forall p :: p in t.pages ==> t.pages[p].num <= |t.pages[p].keys| == |t.pages[p].rids|
    ensures Reshapes(t, t', {a, NO_PAGE}) && MovedParentsOk(t, t', {a, NO_PAGE})
    ensures RootOk(t')
  {
  }

  lemma CollapseLeaves(t: Tree, t': Tree, a: int, c: int)
    requires NodesOk(t) && NodesOk(t') && EntriesOk(t) && ChainOk(t) && IsCollapse(t, t', a, c) && a != c
    ensures EntriesOk(t') && ChainOk(t')
  {
    forall i | 0 <= i < |t'.chain|
      ensures ChainLink(t', i)
    {
      assert ChainLink(t, i);
      assert i > 0 ==> ChainLink(t, i - 1);
    }
  }

  /** An internal root with a single child gives way to it. */
  lemma CollapseOk(t: Tree, t': Tree, a: int, c: int)
    requires Structured(t) && IsCollapse(t, t', a, c)
    ensures Structured(t')
  {
    CollapseKids(t, t', a, c);
    assert forall p :: p in t.pages ==> NodeOk(t.pages[p], t.spans[p]);
    CollapseReshapes(t, t', a, c);
    ReshapeOk(t, t', {a, NO_PAGE});
    CollapseLeaves(t, t', a, c);
  }
}
