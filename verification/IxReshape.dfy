/** What a local change to a few pages has to establish for the whole tree to stay well
    formed.  Every structural step of insertion and deletion goes through here. */
module IxReshape {
  import opened IxNode
  import opened IxTree

  /** The pages agree on everything their used slots say: keys where they count, whole
      rids in a leaf, child pages above. */
  ghost predicate SameUsed(m: Node, n: Node) {
    && m.isLeaf == n.isLeaf && m.num == n.num
    && n.num <= |m.keys| == |m.rids| && n.num <= |n.keys| == |n.rids|
    && (forall i :: First(n) <= i < n.num ==> m.keys[i] == n.keys[i])
    && (forall i :: 0 <= i < n.num ==> m.rids[i].pageNo == n.rids[i].pageNo)
    && (forall i :: 0 <= i < n.num && n.isLeaf ==> m.rids[i] == n.rids[i])
  }

  lemma SameUsedOk(m: Node, n: Node, s: Span)
    requires SameUsed(m, n) && NodeOk(n, s)
    ensures NodeOk(m, s)
  {
  }

  lemma SameUsedLeaf(m: Node, n: Node, s: Span, entries: map<Key, Rid>)
    requires SameUsed(m, n) && n.isLeaf && LeafOk(n, s, entries)
    ensures LeafOk(m, s, entries)
  {
    assert m.keys[..m.num] == n.keys[..n.num];
  }

  /** Only pages in `touched` change their arrays or come and go, and only pages hanging
      off `touched` change their parent.  A new root hangs off `NO_PAGE`. */
  ghost predicate Reshapes(t: Tree, t': Tree, touched: set<int>) {
    && t'.order == t.order
    && t'.spans.Keys == t'.pages.Keys
    && (forall p :: p in t'.pages && p !in touched ==> p in t.pages)
    && (forall p :: p in t.pages && p in t.spans && p !in touched ==>
          p in t'.pages && SameUsed(t'.pages[p], t.pages[p]) && t'.spans[p] == t.spans[p])
    && (forall p :: p in t.pages && p in t.spans && t.pages[p].parent !in touched ==>
          p in t'.pages && t'.pages[p].parent == t.pages[p].parent && t'.spans[p] == t.spans[p])
  }

  ghost predicate TouchedNodesOk(t': Tree, touched: set<int>)
    requires t'.spans.Keys == t'.pages.Keys
  {
    forall p :: p in touched && p in t'.pages ==> 0 <= p && NodeOk(t'.pages[p], t'.spans[p])
  }

  ghost predicate TouchedKidsOk(t': Tree, touched: set<int>)
    requires t'.spans.Keys == t'.pages.Keys && TouchedNodesOk(t', touched)
  {
    forall p, i :: p in touched && p in t'.pages && !t'.pages[p].isLeaf && 0 <= i < t'.pages[p].num ==> KidOk(t', p, i)
  }

  /** Pages that are new or lost a touched parent are again some page's child. */
  ghost predicate MovedParentsOk(t: Tree, t': Tree, touched: set<int>) {
    forall p :: p in t'.pages && p != t'.root && (p !in t.pages || t.pages[p].parent in touched) ==> ParentOk(t', p)
  }

  lemma ReshapeNodes(t: Tree, t': Tree, touched: set<int>)
    requires NodesOk(t) && Reshapes(t, t', touched) && TouchedNodesOk(t', touched)
    ensures NodesOk(t')
  {
    forall p | p in t'.pages
      ensures 0 <= p && NodeOk(t'.pages[p], t'.spans[p])
    {
      if p !in touched {
        SameUsedOk(t'.pages[p], t.pages[p], t.spans[p]);
      }
    }
  }

  lemma ReshapeKids(t: Tree, t': Tree, touched: set<int>)
    requires NodesOk(t) && KidsOk(t) && NodesOk(t') && Reshapes(t, t', touched)
    requires TouchedKidsOk(t', touched)
    ensures KidsOk(t')
  {
    forall p, i | p in t'.pages && !t'.pages[p].isLeaf && 0 <= i < t'.pages[p].num
      ensures KidOk(t', p, i)
    {
      if p !in touched {
        assert KidOk(t, p, i);
      }
    }
  }

  lemma ReshapeParents(t: Tree, t': Tree, touched: set<int>)
    requires NodesOk(t) && ParentsOk(t) && RootOk(t) && Reshapes(t, t', touched)
    requires MovedParentsOk(t, t', touched)
    requires t'.root == t.root || NO_PAGE in touched
    ensures ParentsOk(t')
  {
    forall p | p in t'.pages && p != t'.root
      ensures ParentOk(t', p)
    {
      if p in t.pages && t.pages[p].parent !in touched {
        assert ParentOk(t, p);
        var q := t.pages[p].parent;
        var i :| 0 <= i < t.pages[q].num && t.pages[q].rids[i].pageNo == p;
        assert t'.pages[q].rids[i].pageNo == p;
      }
    }
  }

  lemma ReshapeOk(t: Tree, t': Tree, touched: set<int>)
    requires NodesOk(t) && KidsOk(t) && ParentsOk(t) && RootOk(t)
    requires Reshapes(t, t', touched)
    requires TouchedNodesOk(t', touched) && TouchedKidsOk(t', touched) && MovedParentsOk(t, t', touched)
    requires t'.root == t.root || NO_PAGE in touched
    ensures NodesOk(t') && KidsOk(t') && ParentsOk(t')
  {
    ReshapeNodes(t, t', touched);
    ReshapeKids(t, t', touched);
    ReshapeParents(t, t', touched);
  }

  /** A change above the leaves leaves the map and the chain alone. */
  lemma LeavesUntouched(t: Tree, t': Tree, touched: set<int>)
    requires NodesOk(t) && NodesOk(t') && EntriesOk(t) && ChainOk(t)
    requires Reshapes(t, t', touched)
    requires t'.entries == t.entries && t'.chain == t.chain && t'.first == t.first && t'.last == t.last
    requires forall p :: p in t.pages && t.pages[p].isLeaf ==>
               p !in touched && t'.pages[p].next == t.pages[p].next && t'.pages[p].prev == t.pages[p].prev
    requires forall p :: p in touched && p in t'.pages ==> !t'.pages[p].isLeaf
    ensures EntriesOk(t') && ChainOk(t')
  {
    EntriesUntouched(t, t', touched);
    forall i | 0 <= i < |t'.chain|
      ensures ChainLink(t', i)
    {
      assert ChainLink(t, i);
      assert i > 0 ==> ChainLink(t, i - 1);
    }
  }

  lemma EntriesUntouched(t: Tree, t': Tree, touched: set<int>)
    requires NodesOk(t) && NodesOk(t') && EntriesOk(t) && Reshapes(t, t', touched) && t'.entries == t.entries
    requires forall p :: p in t.pages && t.pages[p].isLeaf ==> p !in touched
    requires forall p :: p in touched && p in t'.pages ==> !t'.pages[p].isLeaf
    ensures EntriesOk(t')
  {
    hide LeafOk, SameUsed, Sorted;
    forall p | p in t'.pages && t'.pages[p].isLeaf
      ensures LeafOk(t'.pages[p], t'.spans[p], t'.entries)
    {
      SameKind(t, t', touched, p);
      SameUsedLeaf(t'.pages[p], t.pages[p], t.spans[p], t.entries);
    }
  }

  lemma SameKind(t: Tree, t': Tree, touched: set<int>, p: int)
    requires t.spans.Keys == t.pages.Keys && Reshapes(t, t', touched) && p in t'.pages && p !in touched
    ensures p in t.pages && SameUsed(t'.pages[p], t.pages[p]) && t'.pages[p].isLeaf == t.pages[p].isLeaf
    ensures t'.spans[p] == t.spans[p]
  {
  }
}
