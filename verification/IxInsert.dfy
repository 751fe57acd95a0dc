/** From the effect of `split` on the pages to the tree with the new page linked in. */
module IxInsert {
  import opened IxNode
  import opened IxTree
  import opened IxReshape
  import opened IxSplit
  import opened IxChain
  import opened IxSteps
  import opened IxHeight

  /** The state `split(a)` leaves behind: nobody above knows page `b` yet. */
  ghost predicate IsSplit(t: Tree, t': Tree, a: int, b: int, m: nat) {
    && a in t.pages && b !in t.pages && 0 <= b
    && 0 < m < t.pages[a].num <= |t.pages[a].keys| == |t.pages[a].rids|
    && var n := t.pages[a];
    && t' == t.(pages := t'.pages, last := if n.isLeaf && t.last == a then b else t.last)
    && t'.pages.Keys == t.pages.Keys + {b}
    && t'.pages[a] == LeftHalf(n, m).(next := if n.isLeaf then b else n.next,
                                      prev := if n.isLeaf && n.next == a then b else n.prev)
    && t'.pages[b] == RightHalf(n, m).(prev := if n.isLeaf then a else 0, next := if n.isLeaf then n.next else 0)
    && (forall p :: p in t.pages && p != a ==>
          t'.pages[p] == t.pages[p].(parent := if !n.isLeaf && HasKid(RightHalf(n, m), p) then b else t.pages[p].parent,
                                     prev := if n.isLeaf && p == n.next then b else t.pages[p].prev))
  }

  lemma NextLeafExists(t: Tree, a: int)
    requires ChainOk(t) && a in t.pages && t.pages[a].isLeaf
    ensures t.pages[a].next in t.pages && t.pages[t.pages[a].next].isLeaf
  {
    var j :| 0 <= j < |t.chain| && t.chain[j] == a;
    assert ChainLink(t, j);
    assert ChainLink(t, if j + 1 < |t.chain| then j + 1 else 0);
  }

  lemma KidsExist(t: Tree, a: int)
    requires NodesOk(t) && KidsOk(t) && a in t.pages && !t.pages[a].isLeaf
    ensures forall i :: 0 <= i < t.pages[a].num ==>
              t.pages[a].rids[i].pageNo in t.pages && t.pages[a].rids[i].pageNo != a
  {
    forall i | 0 <= i < t.pages[a].num
      ensures t.pages[a].rids[i].pageNo in t.pages && t.pages[a].rids[i].pageNo != a
    {
      assert KidOk(t, a, i);
    }
  }

  lemma LeafSplitIsSplit(t: Tree, t': Tree, a: int, b: int, m: nat)
    requires a in t.pages && b !in t.pages && 0 <= b && 0 < m < t.pages[a].num <= |t.pages[a].keys| == |t.pages[a].rids|
    requires t.pages[a].isLeaf && t.pages[a].next in t.pages
    requires var n := t.pages[a];
             var half := t.pages[b := RightHalf(n, m).(prev := a, next := n.next)][a := LeftHalf(n, m).(next := b)];
             t' == t.(pages := half[n.next := half[n.next].(prev := b)], last := if t.last == a then b else t.last)
    ensures IsSplit(t, t', a, b, m)
  {
  }

  lemma InnerSplitIsSplit(t: Tree, t': Tree, a: int, b: int, m: nat, half: map<int, Node>)
    requires a in t.pages && b !in t.pages && 0 <= b && 0 < m < t.pages[a].num <= |t.pages[a].keys| == |t.pages[a].rids|
    requires !t.pages[a].isLeaf && !HasKid(RightHalf(t.pages[a], m), a) && !HasKid(RightHalf(t.pages[a], m), b)
    requires half == t.pages[b := RightHalf(t.pages[a], m).(prev := 0, next := 0)][a := LeftHalf(t.pages[a], m)]
    requires t' == t.(pages := t'.pages) && t'.pages.Keys == half.Keys
    requires forall p :: p in half ==> t'.pages[p] == if HasKid(half[b], p) then half[p].(parent := b) else half[p]
    ensures IsSplit(t, t', a, b, m)
  {
    assert forall p :: HasKid(half[b], p) == HasKid(RightHalf(t.pages[a], m), p);
  }

  /** Where the new page goes in the leaf list. */
  ghost function GrownChain(t: Tree, a: int, b: int, j: nat): seq<int> {
    if a in t.pages && t.pages[a].isLeaf && j < |t.chain| then t.chain[..j + 1] + [b] + t.chain[j + 1..] else t.chain
  }

  ghost function SplitSpans(t: Tree, a: int, b: int, sep: Key): map<int, Span>
    requires a in t.spans
  {
    t.spans[a := Span(t.spans[a].lo, Fin(sep), t.spans[a].h)][b := Span(Fin(sep), t.spans[a].hi, t.spans[a].h)]
  }

  lemma SplitReparents(t: Tree, t': Tree, a: int, b: int, m: nat)
    requires NodesOk(t) && KidsOk(t) && ParentsOk(t) && RootOk(t) && IsSplit(t, t', a, b, m)
    ensures forall p :: p in t.pages && p != a ==>
              t'.pages[p].parent == if t.pages[p].parent == a && StartsFrom(t.spans[p], t.pages[a].keys[m])
                                    then b else t.pages[p].parent
    ensures forall p :: p in t.pages && p != a ==> SameUsed(t'.pages[p], t.pages[p])
  {
    forall p | p in t.pages && p != a
      ensures t'.pages[p].parent == if t.pages[p].parent == a && StartsFrom(t.spans[p], t.pages[a].keys[m])
                                    then b else t.pages[p].parent
    {
      assert p != t.root ==> ParentOk(t, p);
      if !t.pages[a].isLeaf {
        if p != t.root { MovedKids(t, a, m, p); } else { RootHasNoParent(t, a, m); }
      }
    }
  }

  lemma RootHasNoParent(t: Tree, a: int, m: nat)
    requires NodesOk(t) && KidsOk(t) && RootOk(t) && a in t.pages && !t.pages[a].isLeaf && m <= t.pages[a].num
    ensures !HasKid(RightHalf(t.pages[a], m), t.root)
  {
    var r := RightHalf(t.pages[a], m);
    forall j | 0 <= j < r.num
      ensures r.rids[j].pageNo != t.root
    {
      assert KidOk(t, a, m + j);
    }
  }

  lemma SplitIsHalved(t: Tree, t': Tree, t2: Tree, a: int, b: int, m: nat)
    requires NodesOk(t) && KidsOk(t) && ParentsOk(t) && RootOk(t) && IsSplit(t, t', a, b, m)
    requires t2.order == t.order && t2.entries == t.entries && t2.first == t.first
    requires t'.pages.Keys <= t2.pages.Keys && t2.spans.Keys == t2.pages.Keys
    requires t2.spans[a] == SplitSpans(t, a, b, t.pages[a].keys[m])[a]
    requires t2.spans[b] == SplitSpans(t, a, b, t.pages[a].keys[m])[b]
    requires forall p :: p in t.pages && p != a ==>
               t2.spans[p] == t.spans[p] && t2.pages[p].parent == t'.pages[p].parent
    requires SameUsed(t2.pages[a], t'.pages[a]) && SameUsed(t2.pages[b], t'.pages[b])
    ensures IsHalved(t, t2, a, b, m)
  {
    SplitReparents(t, t', a, b, m);
  }

  lemma SplitIsChainInsert(t: Tree, t': Tree, t2: Tree, a: int, b: int, m: nat, j: nat)
    requires NodesOk(t) && ChainOk(t) && IsSplit(t, t', a, b, m) && t.pages[a].isLeaf
    requires j < |t.chain| && t.chain[j] == a
    requires t2.chain == GrownChain(t, a, b, j) && t2.first == t.first && t2.last == t'.last
    requires t'.pages.Keys <= t2.pages.Keys && t2.spans.Keys == t2.pages.Keys
    requires t2.spans[a] == SplitSpans(t, a, b, t.pages[a].keys[m])[a]
    requires t2.spans[b] == SplitSpans(t, a, b, t.pages[a].keys[m])[b]
    requires forall p :: p in t.pages && p != a ==> t2.spans[p] == t.spans[p]
    requires forall p :: p in t'.pages ==>
               && t2.pages[p].isLeaf == t'.pages[p].isLeaf
               && t2.pages[p].next == t'.pages[p].next && t2.pages[p].prev == t'.pages[p].prev
    requires forall p :: p in t2.pages && p !in t'.pages ==> !t2.pages[p].isLeaf
    ensures IsChainInsert(t, t2, a, b, j)
  {
  }

  /** `t2` is the tree once slot `i + 1` of the parent has the new page. */
  ghost function Linked(t: Tree, t': Tree, a: int, b: int, q: int, m: nat, i: nat, j: nat): Tree
    requires IsSplit(t, t', a, b, m) && q in t'.pages && a in t.spans
    requires i < t'.pages[q].num < |t'.pages[q].keys| == |t'.pages[q].rids|
  {
    t'.(pages := t'.pages[q := InsertAt(t'.pages[q], i + 1, t.pages[a].keys[m], Rid(b, 0))],
        spans := SplitSpans(t, a, b, t.pages[a].keys[m]),
        chain := GrownChain(t, a, b, j))
  }

  ghost predicate CanLink(t: Tree, t': Tree, a: int, b: int, q: int, m: nat, i: nat, j: nat) {
    && Structured(t) && IsSplit(t, t', a, b, m) && a != t.root && q == t.pages[a].parent && q in t.pages
    && !t.pages[q].isLeaf && i < t.pages[q].num < |t.pages[q].keys| == |t.pages[q].rids|
    && t.pages[q].rids[i].pageNo == a && q != a
    && (t.pages[a].isLeaf ==> j < |t.chain| && t.chain[j] == a)
  }

  lemma LinkedIsHalved(t: Tree, t': Tree, a: int, b: int, q: int, m: nat, i: nat, j: nat)
    requires CanLink(t, t', a, b, q, m, i, j)
    ensures IsHalved(t, Linked(t, t', a, b, q, m, i, j), a, b, m)
  {
    hide KidsOk, ParentsOk, EntriesOk, ChainOk, Sorted, LeftHalf, RightHalf, InsertAt;
    SplitIsHalved(t, t', Linked(t, t', a, b, q, m, i, j), a, b, m);
  }

  lemma LinkedIsLinkSplit(t: Tree, t': Tree, a: int, b: int, q: int, m: nat, i: nat, j: nat)
    requires CanLink(t, t', a, b, q, m, i, j)
    ensures IsLinkSplit(t, Linked(t, t', a, b, q, m, i, j), a, b, q, m, i)
  {
    hide KidsOk, ParentsOk, EntriesOk, ChainOk, NodeOk, LeftHalf, RightHalf;
    var t2 := Linked(t, t', a, b, q, m, i, j);
    LinkedIsHalved(t, t', a, b, q, m, i, j);
    SplitReparents(t, t', a, b, m);
    assert SameUsed(t2.pages[q], InsertAt(t.pages[q], i + 1, t.pages[a].keys[m], Rid(b, 0)));
  }

  lemma LinkedOk(t: Tree, t': Tree, a: int, b: int, q: int, m: nat, i: nat, j: nat)
    requires CanLink(t, t', a, b, q, m, i, j)
    ensures Structured(Linked(t, t', a, b, q, m, i, j))
  {
    hide KidsOk, ParentsOk, EntriesOk, ChainOk, Sorted, NodeOk, LeftHalf, RightHalf, InsertAt;
    var t2 := Linked(t, t', a, b, q, m, i, j);
    LinkedIsLinkSplit(t, t', a, b, q, m, i, j);
    if t.pages[a].isLeaf {
      SplitIsChainInsert(t, t', t2, a, b, m, j);
      LeafLinkSplitOk(t, t2, a, b, q, m, i, j);
    } else {
      InnerLinkSplitOk(t, t2, a, b, q, m, i);
    }
  }

  /** A zeroed page that has been given its first child and no separator yet. */
  function RootStub(order: nat, a: int): (n: Node)
    ensures Shaped(n, order) && !n.isLeaf && n.num == 1 && n.parent == NO_PAGE && n.rids[0] == Rid(a, 0)
    ensures 1 <= order ==> n.rids[1] == Rid(0, 0)
    ensures forall i :: 0 <= i <= order ==> n.keys[i] == ZERO_KEY
  {
    var n := Fresh(order);
    n.(parent := NO_PAGE, isLeaf := false, rids := n.rids[0 := Rid(a, 0)], num := 1)
  }

  /** The tree with a new root `c`, whose page is `n`, above the two halves. */
  ghost function Rooted(t: Tree, t': Tree, a: int, b: int, c: int, n: Node, m: nat, j: nat): Tree
    requires IsSplit(t, t', a, b, m) && a in t.spans
  {
    t'.(pages := t'.pages[a := t'.pages[a].(parent := c)][b := t'.pages[b].(parent := c)][c := n],
        root := c,
        spans := SplitSpans(t, a, b, t.pages[a].keys[m])[c := Span(NegInf, PosInf, t.spans[a].h + 1)],
        chain := GrownChain(t, a, b, j))
  }

  ghost predicate CanRoot(t: Tree, t': Tree, a: int, b: int, c: int, n: Node, m: nat, j: nat) {
    && Structured(t) && IsSplit(t, t', a, b, m) && a == t.root && c !in t'.pages && 0 <= c
    && !n.isLeaf && n.num == 2 && Shaped(n, t.order) && 2 <= t.order && n.parent == NO_PAGE
    && n.keys[1] == t.pages[a].keys[m] && n.rids[0].pageNo == a && n.rids[1].pageNo == b
    && (t.pages[a].isLeaf ==> j < |t.chain| && t.chain[j] == a)
  }

  lemma RootedIsHalved(t: Tree, t': Tree, a: int, b: int, c: int, n: Node, m: nat, j: nat)
    requires CanRoot(t, t', a, b, c, n, m, j)
    ensures IsHalved(t, Rooted(t, t', a, b, c, n, m, j), a, b, m)
  {
    hide KidsOk, ParentsOk, EntriesOk, ChainOk, Sorted, LeftHalf, RightHalf;
    SplitIsHalved(t, t', Rooted(t, t', a, b, c, n, m, j), a, b, m);
  }

  lemma RootedIsRootSplit(t: Tree, t': Tree, a: int, b: int, c: int, n: Node, m: nat, j: nat)
    requires CanRoot(t, t', a, b, c, n, m, j) && IsHalved(t, Rooted(t, t', a, b, c, n, m, j), a, b, m)
    ensures IsRootSplit(t, Rooted(t, t', a, b, c, n, m, j), a, b, c, m)
  {
    hide LeftHalf, RightHalf;
    SplitReparents(t, t', a, b, m);
  }

  lemma RootedChain(t: Tree, t': Tree, a: int, b: int, c: int, n: Node, m: nat, j: nat)
    requires CanRoot(t, t', a, b, c, n, m, j)
    ensures t.pages[a].isLeaf ==> IsChainInsert(t, Rooted(t, t', a, b, c, n, m, j), a, b, j)
    ensures !t.pages[a].isLeaf ==> SameLeafList(t, Rooted(t, t', a, b, c, n, m, j))
  {
    hide KidsOk, ParentsOk, EntriesOk, ChainOk, Sorted, NodeOk, LeftHalf, RightHalf;
    if t.pages[a].isLeaf {
      SplitIsChainInsert(t, t', Rooted(t, t', a, b, c, n, m, j), a, b, m, j);
    }
  }

  lemma RootedOk(t: Tree, t': Tree, a: int, b: int, c: int, n: Node, m: nat, j: nat)
    requires CanRoot(t, t', a, b, c, n, m, j)
    ensures Structured(Rooted(t, t', a, b, c, n, m, j))
  {
    var t2 := Rooted(t, t', a, b, c, n, m, j);
    RootedIsHalved(t, t', a, b, c, n, m, j);
    RootedIsRootSplit(t, t', a, b, c, n, m, j);
    RootedChain(t, t', a, b, c, n, m, j);
    if t.pages[a].isLeaf {
      LeafRootSplitOk(t, t2, a, b, c, m, j);
    } else {
      InnerRootSplitOk(t, t2, a, b, c, m);
    }
  }

  // ----- one level of `insert_into_parent`

  function Mid(order: nat): nat {
    (order + 1) / 2
  }

  /** Everything is legal except that `a` holds one entry too many. */
  ghost predicate Overfull(t: Tree, a: int) {
    && 6 <= t.order && Structured(t) && SizesOkExcept(t, a)
    && a in t.pages && Shaped(t.pages[a], t.order) && t.pages[a].num == t.order + 1
  }

  lemma InsertPointUnique(n: Node, k: Key, p: nat, p': nat)
    requires n.num <= |n.keys| && InsertPoint(n, k, p) && InsertPoint(n, k, p')
    ensures p == p'
  {
    var x := if p < p' then p else p';
    var k' := if x < n.num then n.keys[x] else k;
  }

  /** The separator of a split child goes right behind the child's own slot. */
  lemma SeparatorSlot(t: Tree, a: int, q: int, i: nat, m: nat)
    requires NodesOk(t) && KidsOk(t) && a in t.pages && 0 < m < t.pages[a].num
    requires q in t.pages && !t.pages[q].isLeaf && i < t.pages[q].num < |t.pages[q].keys|
    requires t.pages[q].rids[i].pageNo == a
    ensures InsertPoint(t.pages[q], t.pages[a].keys[m], i + 1)
    ensures i + 1 < t.pages[q].num ==> t.pages[a].keys[m] < t.pages[q].keys[i + 1]
    ensures q != a && t.pages[a].parent == q
  {
    assert KidOk(t, q, i);
    assert NodeOk(t.pages[a], t.spans[a]) && NodeOk(t.pages[q], t.spans[q]);
    HalvesOk(t.pages[a], t.spans[a], m);
    SeparatorOk(t.pages[q], t.spans[q], i, t.pages[a].keys[m], Rid(0, 0));
  }

  lemma LinkedSizes(t: Tree, t': Tree, a: int, b: int, q: int, i: nat, j: nat)
    requires Overfull(t, a) && CanLink(t, t', a, b, q, Mid(t.order), i, j)
    ensures var t2 := Linked(t, t', a, b, q, Mid(t.order), i, j);
            && SizesOkExcept(t2, q) && Shaped(t2.pages[q], t.order) && t2.pages[q].num == t.pages[q].num + 1
            && (t2.pages[q].num <= t.order ==> SizesOkExcept(t2, NO_PAGE))
  {
    hide KidsOk, ParentsOk, EntriesOk, ChainOk, Sorted, NodeOk, HasKid, LeftHalf, RightHalf, InsertAt;
    var t2 := Linked(t, t', a, b, q, Mid(t.order), i, j);
    assert SizeOk(t, q);
    forall p | p in t2.pages && p != q
      ensures SizeOk(t2, p)
    {
      assert p in t.pages && p != a ==> SizeOk(t, p);
      assert p == b || p in t.pages;
    }
  }

  lemma AboveUnchanged(t: Tree, t': Tree, a: int, b: int, q: int, i: nat, j: nat)
    requires Overfull(t, a) && CanLink(t, t', a, b, q, Mid(t.order), i, j)
    ensures SameAbove(t, Linked(t, t', a, b, q, Mid(t.order), i, j), q)
  {
    hide NodeOk, KidsOk, ParentsOk, EntriesOk, ChainOk, SizesOkExcept, SameUsed, LeftHalf, RightHalf, InsertAt;
    RootIsTallest(t);
    SplitReparents(t, t', a, b, Mid(t.order));
  }

  lemma LinkedMiddle(t: Tree, t': Tree, a: int, b: int, q: int, i: nat, j: nat)
    requires Overfull(t, a) && CanLink(t, t', a, b, q, Mid(t.order), i, j) && t.pages[q].num == t.order
    ensures Linked(t, t', a, b, q, Mid(t.order), i, j).pages[q].keys[Mid(t.order)]
         == Promoted(t.pages[q], t.pages[a].keys[Mid(t.order)], Mid(t.order))
  {
    hide KidsOk, ParentsOk, EntriesOk, ChainOk, SizesOkExcept;
    SeparatorSlot(t, a, q, i, Mid(t.order));
    assert NodeOk(t.pages[q], t.spans[q]);
    PromotedIsMiddle(t.pages[q], t.pages[a].keys[Mid(t.order)], Rid(b, 0), i + 1, Mid(t.order));
  }

  lemma LinkedPromotes(t: Tree, t2: Tree, a: int, q: int)
    requires 6 <= t.order && NodesOk(t) && KidsOk(t) && ParentsOk(t) && RootOk(t)
    requires NodesOk(t2) && KidsOk(t2) && ParentsOk(t2) && RootOk(t2)
    requires a in t.pages && a != t.root && q == t.pages[a].parent && q in t.pages && q in t2.pages
    requires SameAbove(t, t2, q)
    requires t.pages[q].num == t.order <= |t.pages[q].keys| && Mid(t.order) < |t2.pages[q].keys|
    requires Mid(t.order) < |t.pages[a].keys|
    requires t2.pages[q].keys[Mid(t.order)] == Promoted(t.pages[q], t.pages[a].keys[Mid(t.order)], Mid(t.order))
    ensures t2.order == t.order
    ensures PromotesZero(t, a, t.pages[a].keys[Mid(t.order)]) == PromotesZero(t2, q, t2.pages[q].keys[Mid(t.order)])
  {
    hide NodesOk, KidsOk, ParentsOk, RootOk, Promoted, PromotesZero;
    PromotesZeroUp(t, a, t.pages[a].keys[Mid(t.order)]);
    PromotesZeroFrame(t, t2, q, Promoted(t.pages[q], t.pages[a].keys[Mid(t.order)], Mid(t.order)));
  }

  lemma RootedSizes(t: Tree, t': Tree, a: int, b: int, c: int, n: Node, j: nat)
    requires Overfull(t, a) && CanRoot(t, t', a, b, c, n, Mid(t.order), j)
    ensures SizesOkExcept(Rooted(t, t', a, b, c, n, Mid(t.order), j), NO_PAGE)
  {
    var t2 := Rooted(t, t', a, b, c, n, Mid(t.order), j);
    forall p | p in t2.pages
      ensures SizeOk(t2, p)
    {
      assert p in t.pages && p != a ==> SizeOk(t, p);
      assert p == b || p == c || p in t.pages;
    }
  }

  /** One level up: the tree is well formed again, and at most the parent is overfull. */
  lemma LinkStep(t: Tree, t': Tree, a: int, b: int, q: int, i: nat, j: nat)
    requires Overfull(t, a) && CanLink(t, t', a, b, q, Mid(t.order), i, j)
    ensures var t2 := Linked(t, t', a, b, q, Mid(t.order), i, j);
            && t2.entries == t.entries && t2.root != NO_PAGE
            && (t.pages[q].num < t.order ==> Legal(t2) && !PromotesZero(t, a, t.pages[a].keys[Mid(t.order)]))
            && (t.pages[q].num == t.order ==>
                  && Overfull(t2, q) && 0 <= t2.spans[t2.root].h - t2.spans[q].h < t.spans[t.root].h - t.spans[a].h
                  && PromotesZero(t, a, t.pages[a].keys[Mid(t.order)])
                  == PromotesZero(t2, q, t2.pages[q].keys[Mid(t.order)]))
  {
    hide NodeOk, KidsOk, ParentsOk, EntriesOk, ChainOk, SizesOkExcept, Promoted;
    var t2 := Linked(t, t', a, b, q, Mid(t.order), i, j);
    LinkedOk(t, t', a, b, q, Mid(t.order), i, j);
    LinkedSizes(t, t', a, b, q, i, j);
    if t.pages[q].num == t.order {
      LinkedMiddle(t, t', a, b, q, i, j);
      AboveUnchanged(t, t', a, b, q, i, j);
      RootIsTallest(t);
      RootIsTallest(t2);
      LinkedPromotes(t, t2, a, q);
    }
  }

  lemma RootStep(t: Tree, t': Tree, a: int, b: int, c: int, n: Node, j: nat)
    requires Overfull(t, a) && CanRoot(t, t', a, b, c, n, Mid(t.order), j)
    ensures Legal(Rooted(t, t', a, b, c, n, Mid(t.order), j))
  {
    hide NodeOk, KidsOk, ParentsOk, EntriesOk, ChainOk, SizesOkExcept;
    RootedOk(t, t', a, b, c, n, Mid(t.order), j);
    RootedSizes(t, t', a, b, c, n, j);
  }

  // ----- the leaf level

  lemma PutMiddle(t: Tree, t': Tree, p: int, pos: nat, k: Key, r: Rid)
    requires NodesOk(t) && 6 <= t.order && IsPut(t, t', p, pos, k, r) && t.pages[p].num == t.order
    requires InsertPoint(t.pages[p], k, pos) && (pos < t.pages[p].num ==> t.pages[p].keys[pos] != k)
    ensures t'.pages[p].keys[Mid(t.order)] == Promoted(t.pages[p], k, Mid(t.order))
  {
    assert NodeOk(t.pages[p], t.spans[p]);
    PromotedIsMiddle(t.pages[p], k, r, pos, Mid(t.order));
  }

  lemma PutPromotes(t: Tree, t': Tree, p: int, pos: nat, k: Key, r: Rid, sep: Key)
    requires Legal(t) && IsPut(t, t', p, pos, k, r) && Structured(t')
    ensures PromotesZero(t', p, sep) == PromotesZero(t, p, sep)
  {
    hide KidsOk, ParentsOk, EntriesOk, ChainOk, SizesOkExcept, PromotesZero, NodeOk;
    PromotesZeroFrame(t, t', p, sep);
  }

  /** Inserting into the responsible leaf leaves it at most one entry too large. */
  lemma PutStep(t: Tree, t': Tree, p: int, pos: nat, k: Key, r: Rid)
    requires Legal(t) && IsPut(t, t', p, pos, k, r) && InSpan(t.spans[p], k) && k !in t.entries
    requires InsertPoint(t.pages[p], k, pos) && (pos < t.pages[p].num ==> t.pages[p].keys[pos] != k)
    ensures t.pages[p].num < t.order ==> Legal(t')
    ensures t.pages[p].num == t.order ==>
              && Overfull(t', p)
              && t'.pages[p].keys[Mid(t.order)] == Promoted(t.pages[p], k, Mid(t.order))
              && PromotesZero(t', p, t'.pages[p].keys[Mid(t.order)])
              == PromotesZero(t, p, Promoted(t.pages[p], k, Mid(t.order)))
  {
    hide NodesOk, KidsOk, ParentsOk, EntriesOk, ChainOk, RootOk, SizesOkExcept, PromotesZero, Promoted, InsertPoint,
      InSpan;
    PutOk(t, t', p, pos, k, r);
    PutSizes(t, t', p, pos, k, r);
    if t.pages[p].num == t.order {
      PutMiddle(t, t', p, pos, k, r);
      PutPromotes(t, t', p, pos, k, r, t'.pages[p].keys[Mid(t.order)]);
    }
  }

  lemma PutSizes(t: Tree, t': Tree, p: int, pos: nat, k: Key, r: Rid)
    requires 6 <= t.order && SizesOkExcept(t, NO_PAGE) && NodesOk(t) && IsPut(t, t', p, pos, k, r)
    ensures SizesOkExcept(t', p) && Shaped(t'.pages[p], t.order) && t'.pages[p].num == t.pages[p].num + 1 <= t.order + 1
    ensures t.pages[p].num < t.order ==> SizesOkExcept(t', NO_PAGE)
  {
    forall x | x in t'.pages && (x != p || t.pages[p].num < t.order)
      ensures SizeOk(t', x)
    {
      assert SizeOk(t, x);
    }
    assert SizeOk(t, p);
  }

  /** A file with a single leaf that holds a single entry. */
  ghost function SingleLeaf(order: nat, c: int, n: Node, k: Key, r: Rid): Tree {
    Tree(order, map[c := n], c, c, c, map[c := Span(NegInf, PosInf, 0)], [c], map[k := r])
  }

  lemma SingleLeafLegal(order: nat, c: int, n: Node, k: Key, r: Rid)
    requires 6 <= order && 0 <= c && Shaped(n, order) && n.isLeaf && n.num == 1 && n.keys[0] == k && n.rids[0] == r
    requires n.parent == NO_PAGE && n.next == c && n.prev == c
    ensures Legal(SingleLeaf(order, c, n, k, r))
  {
    var t := SingleLeaf(order, c, n, k, r);
    assert ChainLink(t, 0);
    assert n.keys[..1] == [k];
    assert LeafOk(n, t.spans[c], t.entries);
  }
}
