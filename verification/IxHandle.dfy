/** `IxIndexHandle`: the operations on one index file.  Pages live in a heap from page
    number to contents; pinning and latching are not modelled. */
module IxHandle {
  import opened Defs
  import opened IxNode
  import opened IxTree
  import opened IxSplit
  import opened IxMerge
  import opened IxChain
  import opened IxSteps
  import opened IxHeight
  import opened IxInsert
  import opened IxDelete
  import opened IxRange
  import opened IxZero

  /** How `insert_entry` ends: `Exists` and `ZeroSeparator` are both the exception
      `IndexEntryExistsError`, thrown at different places. */
  datatype InsertOutcome = Inserted | Exists | ZeroSeparator

  /** How `delete_entry` ends: without a root it fails to read page -1, and after a misread
      it erases slot -1. */
  datatype DeleteOutcome = Deleted | Absent | NoRoot | Misread

  /** The key that the page header's bytes in front of the key array spell. */
  type Front = Node -> Key

  /** One INT column: the last four bytes of the page header are `next_leaf`. */
  const IntFront: Front := (n: Node) => n.next

  /** Every key of the leaf is below `k`, so that `k` is compared with the header's bytes,
      and these are equal to it. */
  ghost predicate Misreads(t: Tree, k: Key, front: Front) {
    exists p :: p in t.pages && t.pages[p].isLeaf && p in t.spans && InSpan(t.spans[p], k)
                && t.pages[p].num <= |t.pages[p].keys| && InsertPoint(t.pages[p], k, t.pages[p].num)
                && front(t.pages[p]) == k
  }

  /** `IxNodeHandle::insert` up to the shift: the slot for `k`, or a duplicate.  A page
      with one child and no separator compares `k` with the unused slot 1. */
  method FindSlot(n: Node, k: Key) returns (pos: nat, dup: bool)
    requires n.num < |n.keys| && 2 <= |n.keys| && Sorted(n)
    requires n.num == 0 ==> n.isLeaf
    ensures First(n) < n.num || n.num == 0 ==> InsertPoint(n, k, pos) && (dup <==> pos < n.num && n.keys[pos] == k)
    ensures n.num == First(n) == 1 ==> pos == 1 && (dup <==> n.keys[1] == k)
  {
    if n.num == 0 {
      pos, dup := 0, false;
    } else {
      var p := LowerBound(n, k);
      if p == -1 {
        pos, dup := n.num, false;
      } else {
        pos, dup := p, n.keys[p] == k;
      }
    }
  }

  /** `internal_lookup`: the slot whose span contains `k`. On a page with one child it
      compares with the unused slot 1. */
  method InternalLookup(n: Node, ghost s: Span, k: Key) returns (i: nat)
    requires !n.isLeaf && 1 <= n.num <= |n.keys| && 2 <= |n.keys| && Sorted(n)
    ensures NodeOk(n, s) && 2 <= n.num && InSpan(s, k) ==> i < n.num && InSpan(SlotSpan(n, s, i), k)
    ensures n.num == 1 ==> i == if n.keys[1] == k then 1 else 0
  {
    var pos := LowerBound(n, k);
    if pos == -1 {
      i := n.num - 1;
    } else {
      i := if n.keys[pos] != k then pos - 1 else pos;
    }
  }

  ghost predicate KeysBelow(n: Node, k: Key) {
    forall i :: First(n) <= i < n.num && i < |n.keys| ==> n.keys[i] < k
  }

  ghost predicate HasKidFrom(n: Node, from: nat, c: int) {
    exists i :: from <= i < n.num && i < |n.rids| && n.rids[i].pageNo == c
  }

  const INIT_ROOT_PAGE: int := 2
  const INIT_NUM_PAGES: int := 3
  const PAGE_HDR_SIZE: int := 24
  const RID_SIZE: int := 8
  const MAX_COL_LEN: int := 512

  function Sum(lens: seq<nat>): nat {
    if lens == [] then 0 else Sum(lens[..|lens| - 1]) + lens[|lens| - 1]
  }

  lemma {:induction false} SumAdds(a: seq<nat>, b: seq<nat>)
    ensures Sum(a + b) == Sum(a) + Sum(b)
  {
    if b == [] {
      assert a + b == a;
    } else {
      assert (a + b)[..|a + b| - 1] == a + b[..|b| - 1];
      SumAdds(a, b[..|b| - 1]);
    }
  }

  lemma SumOfOne(x: nat)
    ensures Sum([x]) == x
  {
    assert [x][..0] == [];
  }

  /** `create_index`: refuses keys that are too long; otherwise the order is the largest
      for which one slot more than the order still fits the page, and it is at least 6. */
  method CreateIndex(colLens: seq<nat>) returns (ok: bool, order: nat)
    ensures ok <==> Sum(colLens) <= MAX_COL_LEN
    ensures ok ==> 6 <= order
    ensures ok ==> PAGE_HDR_SIZE + (order + 1) * (Sum(colLens) + RID_SIZE) <= PAGE_SIZE
    ensures ok ==> PAGE_SIZE < PAGE_HDR_SIZE + (order + 2) * (Sum(colLens) + RID_SIZE)
  {
    var total := 0;
    for i := 0 to |colLens|
      invariant total == Sum(colLens[..i])
    {
      assert colLens[..i + 1][..i] == colLens[..i];
      total := total + colLens[i];
    }
    assert colLens[..|colLens|] == colLens;
    if total > MAX_COL_LEN {
      return false, 0;
    }
    SlotsPerPage(total);
    ok, order := true, (PAGE_SIZE - PAGE_HDR_SIZE) / (total + RID_SIZE) - 1;
  }

  lemma SlotsPerPage(len: nat)
    requires len <= MAX_COL_LEN
    ensures var n := (PAGE_SIZE - PAGE_HDR_SIZE) / (len + RID_SIZE);
            7 <= n && n * (len + RID_SIZE) <= PAGE_SIZE - PAGE_HDR_SIZE < (n + 1) * (len + RID_SIZE)
  {
    var d, m := len + RID_SIZE, PAGE_SIZE - PAGE_HDR_SIZE;
    var n := m / d;
    assert n * d + m % d == m;
    assert m < (n + 1) * d;
    assert n + 1 <= 7 ==> (n + 1) * d <= 7 * d;
  }

  /** Inserting `k` splits every page from its full leaf up to the root, and the key that
      leaves the root as the new separator is the all-zero key. */
  ghost predicate SplitsAtZero(t: Tree, k: Key) {
    && t.root != NO_PAGE && Legal(t)
    && exists p :: p in t.pages && t.pages[p].isLeaf && InSpan(t.spans[p], k) && t.order <= t.pages[p].num
                   && PromotesZero(t, p, Promoted(t.pages[p], k, Mid(t.order)))
  }

  class IxIndexHandle {
    const order: nat
    var pages: map<int, Node>
    var root: int
    var firstLeaf: int
    var lastLeaf: int
    var nextPage: int
    ghost var spans: map<int, Span>
    ghost var chain: seq<int>
    /** The map from keys to record positions that the index stands for. */
    ghost var entries: map<Key, Rid>

    ghost function View(): Tree
      reads this
    {
      Tree(order, pages, root, firstLeaf, lastLeaf, spans, chain, entries)
    }

    ghost predicate PagesAllocated()
      reads this
    {
      0 <= nextPage && forall p :: p in pages ==> p < nextPage
    }

    ghost predicate Valid()
      reads this
    {
      && 6 <= order
      && PagesAllocated()
      && (root == NO_PAGE ==> pages == map[] && entries == map[])
      && (root != NO_PAGE ==> Legal(View()))
    }

    /** The index file as `create_index` leaves it: no root yet. */
    constructor (order: nat)
      requires 6 <= order
      ensures Valid() && root == NO_PAGE && entries == map[] && this.order == order
      ensures NoZero(View())
    {
      this.order := order;
      pages, root, firstLeaf, lastLeaf, nextPage := map[], NO_PAGE, INIT_ROOT_PAGE, INIT_ROOT_PAGE, INIT_NUM_PAGES;
      spans, chain, entries := map[], [], map[];
    }

    /** `find_leaf_page`: descends to the leaf responsible for `k`. */
    method FindLeaf(k: Key) returns (p: int)
      requires Valid() && root != NO_PAGE
      ensures p in pages && pages[p].isLeaf && InSpan(spans[p], k)
    {
      p := root;
      while !pages[p].isLeaf
        invariant p in pages && InSpan(spans[p], k)
        decreases spans[p].h
      {
        assert SizeOk(View(), p);
        var i := InternalLookup(pages[p], spans[p], k);
        assert KidOk(View(), p, i);
        p := pages[p].rids[i].pageNo;
      }
    }

    /** `find_leaf_page` followed by `leaf_lookup`: the entry stored under `k`, if any. */
    method Lookup(k: Key) returns (found: bool, r: Rid)
      requires Valid() && root != NO_PAGE
      ensures found <==> k in entries
      ensures found ==> r == entries[k]
    {
      var p := FindLeaf(k);
      assert SizeOk(View(), p) && NodeOk(pages[p], spans[p]) && LeafOk(pages[p], spans[p], entries);
      var pos := LowerBound(pages[p], k);
      if pos == -1 || pages[p].keys[pos] != k {
        found, r := false, Rid(0, 0);
      } else {
        found, r := true, pages[p].rids[pos];
      }
    }

    /** `maintain_child` for the children of page `b` from slot `from` on. */
    method MaintainChildren(b: int, from: nat)
      requires b in pages && from <= pages[b].num <= |pages[b].rids|
      requires forall i :: from <= i < pages[b].num ==> pages[b].rids[i].pageNo in pages && pages[b].rids[i].pageNo != b
      modifies this`pages
      ensures pages.Keys == old(pages).Keys
      ensures forall p :: p in pages ==>
                pages[p] == if HasKidFrom(old(pages)[b], from, p) then old(pages)[p].(parent := b) else old(pages)[p]
    {
      var n := pages[b];
      for i := from to n.num
        invariant pages.Keys == old(pages).Keys
        invariant pages[b] == n
        invariant forall p :: p in pages ==>
                    pages[p] == if exists j :: from <= j < i && n.rids[j].pageNo == p
                                then old(pages)[p].(parent := b) else old(pages)[p]
      {
        var c := n.rids[i].pageNo;
        pages := pages[c := pages[c].(parent := b)];
      }
    }

    /** `split`: moves the upper half of page `a` to a new page on its right. */
    method Split(a: int, ghost m: nat) returns (b: int)
      requires Structured(View()) && PagesAllocated() && a in pages && 2 <= pages[a].num && m == pages[a].num / 2
      modifies this`pages, this`lastLeaf, this`nextPage
      ensures IsSplit(old(View()), View(), a, b, m)
      ensures PagesAllocated() && b == old(nextPage) && nextPage == b + 1
    {
      hide LeftHalf, RightHalf, KidsOk, ParentsOk, EntriesOk, ChainOk, Sorted;
      ghost var t := View();
      assert NodeOk(pages[a], spans[a]);
      var n := pages[a];
      var leftSize := n.num / 2;
      b := nextPage;
      nextPage := nextPage + 1;
      var left, right := LeftHalf(n, leftSize), RightHalf(n, leftSize);
      if n.isLeaf {
        NextLeafExists(t, a);
        pages := pages[b := right.(prev := a, next := n.next)][a := left.(next := b)];
        pages := pages[n.next := pages[n.next].(prev := b)];
        if a == lastLeaf {
          lastLeaf := b;
        }
        LeafSplitIsSplit(t, View(), a, b, m);
      } else {
        KidsExist(t, a);
        pages := pages[b := right.(prev := 0, next := 0)][a := left];
        ghost var half := pages;
        MaintainChildren(b, 0);
        assert forall p :: HasKidFrom(half[b], 0, p) == HasKid(half[b], p);
        InnerSplitIsSplit(t, View(), a, b, m, half);
      }
    }

    /** The root has one child, the former root, which has kept its keys below zero. */
    ghost predicate Broken(a: int)
      reads this
    {
      root in pages && pages[root] == RootStub(order, a) && a in pages && KeysBelow(pages[a], ZERO_KEY)
    }

    /** The first step of `find_leaf_page` below a broken root: the all-zero key leads to page
        0, which is no page of the tree, and every other key to the former root, which lacks
        the keys from zero on. */
    method BrokenStep(a: int, k: Key) returns (child: int)
      requires 6 <= order && Broken(a)
      ensures child == if k == ZERO_KEY then 0 else a
    {
      var n := pages[root];
      var i := InternalLookup(n, Span(NegInf, PosInf, 0), k);
      child := n.rids[i].pageNo;
    }

    /** `insert_into_parent` when the split page was the root. */
    method GrowRoot(a: int, key: Key, b: int, ghost t: Tree) returns (done: bool)
      requires Overfull(t, a) && IsSplit(t, View(), a, b, Mid(t.order)) && PagesAllocated()
      requires key == t.pages[a].keys[Mid(t.order)] && a == t.root
      modifies this
      ensures done ==> Legal(View()) && PagesAllocated() && entries == t.entries && root != NO_PAGE
      ensures done <==> key != ZERO_KEY
      ensures done && NoZero(t) ==> NoZero(View())
      ensures !done ==> Broken(a)
    {
      hide Structured, SizesOkExcept, IsSplit, CanRoot, GrownChain, SplitSpans, RootStub;
      ghost var t1 := View();
      SplitKey(t, t1, a, b);
      SplitBelow(t, t1, a, b);
      var c := nextPage;
      nextPage := nextPage + 1;
      root := c;
      var n := RootStub(order, a);
      pages := pages[a := pages[a].(parent := c)][b := pages[b].(parent := c)];
      var pos, dup := FindSlot(n, key);
      if dup {
        pages := pages[c := n];
        return false;
      }
      n := InsertAt(n, pos, key, Rid(b, 0));
      pages := pages[c := n];
      ghost var j := RootReady(t, t1, a, b, c, n);
      spans := SplitSpans(t, a, b, key)[c := Span(NegInf, PosInf, t.spans[a].h + 1)];
      chain := GrownChain(t, a, b, j);
      RootStep(t, t1, a, b, c, n, j);
      if NoZero(t) { SplitKeepsNoZero(t, View(), a, b); }
      done := true;
    }

    /** `insert_into_parent`: links the new page `b` next to `a`, splitting upwards as far
        as pages overflow.  `t` is the tree before `a` was split. */
    method InsertIntoParent(a: int, key: Key, b: int, ghost t: Tree) returns (done: bool)
      requires Overfull(t, a) && IsSplit(t, View(), a, b, Mid(t.order)) && PagesAllocated()
      requires key == t.pages[a].keys[Mid(t.order)]
      modifies this
      ensures done ==> Legal(View()) && PagesAllocated() && entries == t.entries && root != NO_PAGE
      ensures done <==> !PromotesZero(t, a, key)
      ensures NoZero(t) ==> done && NoZero(View())
      ensures !done ==> Broken(old(root))
      decreases t.spans[t.root].h - t.spans[a].h
    {
      hide Structured, SizesOkExcept, InsertPoint, Sorted, PromotesZero, IsSplit, CanLink, GrownChain, SplitSpans,
        InsertAt, Legal, NoZero, Overfull, RootStub, KeysBelow;
      SplitKey(t, View(), a, b);
      OverfullShape(t, a);
      if pages[a].parent == NO_PAGE {
        SplitOfRoot(t, View(), a, b);
        done := GrowRoot(a, key, b, t);
        return;
      }
      ghost var t1 := View();
      var q := pages[a].parent;
      ghost var i, j := ParentReady(t, t1, a, b);
      var pos, dup := FindSlot(pages[q], key);
      InsertPointUnique(pages[q], key, pos, i + 1);
      assert !dup;
      pages := pages[q := InsertAt(pages[q], pos, key, Rid(b, 0))];
      spans := SplitSpans(t, a, b, key);
      chain := GrownChain(t, a, b, j);
      LinkStep(t, t1, a, b, q, i, j);
      ghost var t2 := View();
      if NoZero(t) { SplitKeepsNoZero(t, t2, a, b); }
      assert t2 == Linked(t, t1, a, b, q, Mid(t.order), i, j);
      if pages[q].num > order {
        OverfullShape(t2, q);
        var b2 := Split(q, Mid(order));
        SplitKey(t2, View(), q, b2);
        var key2 := pages[b2].keys[0];
        done := InsertIntoParent(q, key2, b2, t2);
      } else {
        done := true;
      }
    }

    ghost predicate RootSplitsAtZero(k: Key)
      reads this
    {
      SplitsAtZero(View(), k)
    }

    /** `insert_entry`: adds an absent key, refuses a present one and, because the new
        root's unused slot is compared with the separator, fails when that is zero. */
    method InsertEntry(k: Key, r: Rid) returns (out: InsertOutcome)
      requires Valid()
      modifies this
      ensures out.Exists? <==> k in old(entries)
      ensures out.Exists? ==> View() == old(View()) && nextPage == old(nextPage)
      ensures out.Inserted? ==> Valid() && root != NO_PAGE && entries == old(entries)[k := r]
      ensures out.ZeroSeparator? <==> k !in old(entries) && old(RootSplitsAtZero(k))
      ensures out.ZeroSeparator? ==> Broken(old(root)) && !Valid()
      ensures old(NoZero(View())) && k != ZERO_KEY ==> !out.ZeroSeparator? && NoZero(View())
    {
      hide NodeOk, KidsOk, ParentsOk, EntriesOk, ChainOk, SizesOkExcept, PromotesZero, Promoted, InsertAt, NoZero;
      if root == NO_PAGE {
        InsertFirst(k, r);
        return Inserted;
      }
      ghost var t := View();
      var p := FindLeaf(k);
      LeafReady(t, p, k);
      var pos, dup := FindSlot(pages[p], k);
      if dup {
        return Exists;
      }
      NotInLeaf(t, p, k, pos);
      var full := pages[p].num >= order;
      pages := pages[p := InsertAt(pages[p], pos, k, r)];
      entries := entries[k := r];
      PutStep(t, View(), p, pos, k, r);
      PutNoZero(t, View(), k, r);
      if full {
        ghost var t1 := View();
        var b := Split(p, Mid(order));
        SplitKey(t1, View(), p, b);
        var done := InsertIntoParent(p, pages[b].keys[0], b, t1);
        out := if done then Inserted else ZeroSeparator;
        if !done { OneChildRoot(View()); }
      } else {
        out := Inserted;
      }
      ResponsibleLeaf(t, p, k);
    }

    /** `insert_entry` on an index without a root. */
    method InsertFirst(k: Key, r: Rid)
      requires Valid() && root == NO_PAGE
      modifies this
      ensures Valid() && root != NO_PAGE && entries == map[k := r]
      ensures k != ZERO_KEY ==> NoZero(View())
    {
      hide NoZero, Legal, InsertAt;
      var c := nextPage;
      nextPage := nextPage + 1;
      root, firstLeaf, lastLeaf := c, c, c;
      var n := Fresh(order).(isLeaf := true, parent := NO_PAGE, next := c, prev := c);
      n := InsertAt(n, 0, k, r);
      pages := map[c := n];
      spans, chain, entries := map[c := Span(NegInf, PosInf, 0)], [c], map[k := r];
      SingleLeafLegal(order, c, n, k, r);
      SingleNoZero(View(), c, k, r);
    }

    /** `find_child`: the slot of page `p` in page `q`. */
    method FindChild(q: int, p: int) returns (x: nat)
      requires q in pages && pages[q].num <= |pages[q].rids| && HasKid(pages[q], p)
      ensures x < pages[q].num && pages[q].rids[x].pageNo == p
    {
      x := 0;
      while pages[q].rids[x].pageNo != p
        invariant x < pages[q].num
        invariant forall i :: 0 <= i < x ==> pages[q].rids[i].pageNo != p
        decreases pages[q].num - x
      {
        assert exists i :: x < i < pages[q].num && pages[q].rids[i].pageNo == p;
        x := x + 1;
      }
    }

    /** `redistribute`, first branch: an internal page takes its right neighbour's first
        child. */
    method BorrowChildFromRight(nb: int, p: int, q: int)
      requires Shrunk(View(), p) && p != root && p in pages && !pages[p].isLeaf && pages[p].num == MinSize(order) - 1
      requires Siblings(View(), p, nb, q, 0) && MinSize(order) < pages[nb].num
      modifies this`pages, this`spans
      ensures IsBorrowRight(old(View()), View(), p, nb, q, 0)
    {
      hide Structured, SizesOkExcept, InsertPoint, Sorted, IsShift, InsertAt, EraseAt;
      ghost var t := View();
      RightChildReady(t, nb, p, q);
      hide Shrunk, MinSize;
      var newKey, newRid := pages[q].keys[1], pages[nb].rids[0];
      var pos, dup := FindSlot(pages[p], newKey);
      FoundEnd(pages[p], newKey, pos, dup);
      assert !dup;
      var node := InsertAt(pages[p], pos, newKey, newRid);
      pages := pages[p := node];
      var right := EraseAt(pages[nb], 0);
      pages := pages[nb := right];
      var c := node.rids[node.num - 1].pageNo;
      pages := pages[c := pages[c].(parent := p)];
      pages := pages[q := pages[q].(keys := pages[q].keys[1 := right.keys[0]])];
      spans := spans[p := spans[p].(hi := Fin(right.keys[0]))][nb := spans[nb].(lo := Fin(right.keys[0]))];
      UpdatesAreShift(t, View(), p, nb, q, 0, node, right, right.keys[0], c, p);
    }

    /** Second branch: an internal page takes its left neighbour's last child. */
    method BorrowChildFromLeft(nb: int, p: int, q: int, index: nat)
      requires Shrunk(View(), p) && p != root && p in pages && !pages[p].isLeaf && pages[p].num == MinSize(order) - 1
      requires 0 < index && Siblings(View(), nb, p, q, index - 1) && MinSize(order) < pages[nb].num
      modifies this`pages, this`spans
      ensures IsBorrowLeft(old(View()), View(), nb, p, q, index - 1)
    {
      hide Structured, SizesOkExcept, InsertPoint, Sorted, IsShift, InsertPairs, InsertAt, EraseAt;
      ghost var t := View();
      SiblingShapes(t, p, nb, q, index);
      SiblingKids(t, p, nb, q, index);
      var last := pages[nb].num - 1;
      var newKey, newRid := pages[nb].keys[last], pages[nb].rids[last];
      InsertPairsAtOne(pages[p], pages[q].keys[index], pages[p].rids[0]);
      var node := InsertPairs(pages[p], 1, [pages[q].keys[index]], [pages[p].rids[0]]);
      node := node.(rids := node.rids[0 := newRid]);
      var left := EraseAt(pages[nb], last);
      pages := pages[nb := left][p := node];
      var c := node.rids[0].pageNo;
      pages := pages[c := pages[c].(parent := p)];
      pages := pages[q := pages[q].(keys := pages[q].keys[index := newKey])];
      spans := spans[nb := spans[nb].(hi := Fin(newKey))][p := spans[p].(lo := Fin(newKey))];
      UpdatesAreShift(t, View(), nb, p, q, index - 1, left, node, newKey, c, p);
    }

    /** Third branch: a leaf takes its right neighbour's first entry. */
    method BorrowEntryFromRight(nb: int, p: int, q: int)
      requires Shrunk(View(), p) && p != root && p in pages && pages[p].isLeaf && pages[p].num == MinSize(order) - 1
      requires Siblings(View(), p, nb, q, 0) && MinSize(order) < pages[nb].num
      modifies this`pages, this`spans
      ensures IsBorrowRight(old(View()), View(), p, nb, q, 0)
    {
      hide Structured, SizesOkExcept, InsertPoint, Sorted, IsShift, InsertAt, EraseAt;
      ghost var t := View();
      SiblingShapes(t, p, nb, q, 0);
      var newKey, newRid := pages[nb].keys[0], pages[nb].rids[0];
      LeafBounds(t, nb, 0);
      AppendPoint(t, p, newKey);
      var pos, dup := FindSlot(pages[p], newKey);
      InsertPointUnique(pages[p], newKey, pos, pages[p].num);
      assert !dup;
      var node := InsertAt(pages[p], pos, newKey, newRid);
      pages := pages[p := node];
      var right := EraseAt(pages[nb], 0);
      pages := pages[nb := right];
      pages := pages[q := pages[q].(keys := pages[q].keys[1 := right.keys[0]])];
      spans := spans[p := spans[p].(hi := Fin(right.keys[0]))][nb := spans[nb].(lo := Fin(right.keys[0]))];
      UpdatesAreShift(t, View(), p, nb, q, 0, node, right, right.keys[0], newRid.pageNo, p);
    }

    /** Fourth branch: a leaf takes its left neighbour's last entry. */
    method BorrowEntryFromLeft(nb: int, p: int, q: int, index: nat)
      requires Shrunk(View(), p) && p != root && p in pages && pages[p].isLeaf && pages[p].num == MinSize(order) - 1
      requires 0 < index && Siblings(View(), nb, p, q, index - 1) && MinSize(order) < pages[nb].num
      modifies this`pages, this`spans
      ensures IsBorrowLeft(old(View()), View(), nb, p, q, index - 1)
    {
      hide Structured, SizesOkExcept, InsertPoint, Sorted, IsShift, InsertAt, EraseAt;
      ghost var t := View();
      SiblingShapes(t, p, nb, q, index);
      var last := pages[nb].num - 1;
      var newKey, newRid := pages[nb].keys[last], pages[nb].rids[last];
      LeafBounds(t, nb, last);
      PrependPoint(t, p, newKey);
      var left := EraseAt(pages[nb], last);
      pages := pages[nb := left];
      var pos, dup := FindSlot(pages[p], newKey);
      InsertPointUnique(pages[p], newKey, pos, 0);
      assert !dup;
      var node := InsertAt(pages[p], pos, newKey, newRid);
      pages := pages[p := node];
      pages := pages[q := pages[q].(keys := pages[q].keys[index := newKey])];
      spans := spans[nb := spans[nb].(hi := Fin(newKey))][p := spans[p].(lo := Fin(newKey))];
      UpdatesAreShift(t, View(), nb, p, q, index - 1, left, node, newKey, newRid.pageNo, p);
    }

    /** `redistribute`: moves one slot from the sibling `nb` to the short page `p`. */
    method Redistribute(nb: int, p: int, q: int, index: nat)
      requires Shrunk(View(), p) && p != root && p in pages && pages[p].num == MinSize(order) - 1
      requires if index == 0 then Siblings(View(), p, nb, q, 0) else Siblings(View(), nb, p, q, index - 1)
      requires MinSize(order) < pages[nb].num
      modifies this`pages, this`spans
      ensures Legal(View()) && pages.Keys == old(pages).Keys && spans.Keys == old(spans).Keys
      ensures old(NoZero(View())) ==> NoZero(View())
      ensures forall x :: x in spans ==> spans[x].h == old(spans)[x].h
    {
      hide Structured, SizesOkExcept, IsShift;
      ghost var t := View();
      if !pages[p].isLeaf {
        if index == 0 { BorrowChildFromRight(nb, p, q); } else { BorrowChildFromLeft(nb, p, q, index); }
      } else {
        if index == 0 { BorrowEntryFromRight(nb, p, q); } else { BorrowEntryFromLeft(nb, p, q, index); }
      }
      if NoZero(t) {
        var l, r := if index == 0 then p else nb, if index == 0 then nb else p;
        BorrowNoZero(t, View(), l, r, q, if index == 0 then 0 else index - 1);
      }
      if index == 0 {
        BorrowStep(t, View(), p, p, nb, q, 0);
        ShiftKeepsPages(t, View(), p, nb, q, 0);
      } else {
        BorrowStep(t, View(), p, nb, p, q, index - 1);
        ShiftKeepsPages(t, View(), nb, p, q, index - 1);
      }
    }

    /** `coalesce` above the leaves: the children of `r` move to `l`. */
    method CoalesceInner(l: int, r: int, q: int, i: nat)
      requires Structured(View()) && CanCoalesce(View(), l, r, q, i) && !pages[l].isLeaf
      modifies this`pages, this`spans
      ensures IsCoalesce(old(View()), View(), l, r, q, i)
    {
      hide Structured, InsertPairs, HasKid, HasKidFrom, IsCoalesce;
      ghost var t := View();
      var right := pages[r].(keys := pages[r].keys[0 := pages[q].keys[i + 1]]);
      var pos := pages[l].num;
      var left := InsertPairs(pages[l], pos, right.keys[..right.num], right.rids[..right.num]);
      AppendedRids(t, l, r, q, i);
      AppendedKids(t, l, r, q, i, left);
      AppendedHasKid(t.pages[r], left, pos);
      pages := pages[l := left][q := EraseAt(pages[q], i + 1)];
      ghost var mid := pages;
      MaintainChildren(l, pos);
      pages := pages - {r};
      spans := spans[l := Span(spans[l].lo, spans[r].hi, spans[l].h)] - {r};
      InnerCoalesceDone(t, View(), l, r, q, i, mid);
    }

    /** `coalesce` of two leaves: `r` leaves the leaf list. */
    method CoalesceLeaf(l: int, r: int, q: int, i: nat) returns (ghost j: nat)
      requires Structured(View()) && CanCoalesce(View(), l, r, q, i) && pages[l].isLeaf
      requires pages[r].next in pages && pages[pages[r].next].isLeaf && pages[r].next != r
      modifies this`pages, this`spans, this`chain, this`lastLeaf
      ensures IsCoalesce(old(View()), View(), l, r, q, i)
      ensures j + 1 < |old(chain)| && old(chain)[j] == l && old(chain)[j + 1] == r
      ensures chain == old(chain)[..j + 1] + old(chain)[j + 2..]
    {
      hide Structured, InsertPairs, HasKid, IsCoalesce;
      ghost var t := View();
      j := ChainPosition(t, l, r, q, i);
      var right := pages[r];
      var left := InsertPairs(pages[l], pages[l].num, right.keys[..right.num], right.rids[..right.num]);
      pages := pages[l := left.(next := right.next)][q := EraseAt(pages[q], i + 1)];
      pages := pages[right.next := pages[right.next].(prev := l)] - {r};
      if r == lastLeaf {
        lastLeaf := l;
      }
      chain := chain[..j + 1] + chain[j + 2..];
      spans := spans[l := Span(spans[l].lo, spans[r].hi, spans[l].h)] - {r};
      LeafCoalesceDone(t, View(), l, r, q, i);
    }

    /** `coalesce`: empties the right one of two siblings into the left one. */
    method Coalesce(neighbor: int, node: int, q: int, index: nat)
      requires Shrunk(View(), node) && node != root && node in pages && pages[node].num == MinSize(order) - 1
      requires if index == 0 then Siblings(View(), node, neighbor, q, 0)
               else Siblings(View(), neighbor, node, q, index - 1)
      requires pages[node].num + pages[neighbor].num < 2 * MinSize(order)
      modifies this`pages, this`spans, this`chain, this`lastLeaf
      ensures Shrunk(View(), q) && pages.Keys <= old(pages).Keys
      ensures q in spans && q in old(spans) && spans[q] == old(spans)[q]
      ensures root in spans && root in old(spans) && spans[root] == old(spans)[root]
      ensures old(NoZero(View())) ==> NoZero(View())
    {
      hide Structured, SizesOkExcept, IsCoalesce, InsertPairs, HasKid;
      ghost var t := View();
      SiblingShapes(t, node, neighbor, q, index);
      var l, r := if index == 0 then node else neighbor, if index == 0 then neighbor else node;
      var i := if index == 0 then 0 else index - 1;
      CoalesceReady(t, l, r, q, i);
      ghost var j: nat := 0;
      if !pages[node].isLeaf {
        CoalesceInner(l, r, q, i);
      } else {
        j := CoalesceLeaf(l, r, q, i);
      }
      CoalesceKeeps(t, View(), l, r, q, i);
      if NoZero(t) { CoalesceNoZero(t, View(), l, r, q, i); }
      CoalesceStep(t, View(), node, l, r, q, i, j);
    }


    /** `adjust_root`: an internal root with one child hands over to it, and an empty leaf
        root leaves an empty index. */
    method AdjustRoot()
      requires Shrunk(View(), root) && PagesAllocated()
      modifies this
      ensures Valid() && entries == old(entries)
      ensures old(NoZero(View())) ==> NoZero(View())
    {
      hide KidsOk, ParentsOk, ChainOk, ChainLink;
      ghost var t := View();
      RootFacts(t);
      var a := root;
      if !pages[a].isLeaf && pages[a].num == 1 {
        var c := pages[a].rids[0].pageNo;
        root := c;
        pages := (pages - {a})[c := pages[c].(parent := NO_PAGE)];
        spans := spans - {a};
        CollapseStep(t, View(), a, c);
      } else if pages[a].isLeaf && pages[a].num == 0 {
        root, firstLeaf, lastLeaf := NO_PAGE, NO_PAGE, NO_PAGE;
        pages, spans, chain := map[], map[], [];
      } else {
        RootIsLegal(t);
      }
    }

    /** `coalesce_or_redistribute`: repairs page `p`, which may be one entry short, and
        then the pages above it. */
    method CoalesceOrRedistribute(p: int)
      requires Shrunk(View(), p) && PagesAllocated()
      modifies this
      ensures Valid() && entries == old(entries)
      ensures old(NoZero(View())) ==> NoZero(View())
      decreases spans[root].h - spans[p].h
    {
      hide Structured, SizesOkExcept;
      ghost var t := View();
      Climbing(t, p);
      if pages[p].parent == NO_PAGE {
        AdjustRoot();
        return;
      }
      var minSize := if (order + 1) / 2 - 1 > 1 then (order + 1) / 2 - 1 else 1;
      if pages[p].num >= minSize {
        LongEnough(t, p);
        return;
      }
      var q := pages[p].parent;
      var index := FindChild(q, p);
      var pos := if index != 0 then index - 1 else 1;
      SiblingExists(t, p, q, index);
      var nb := pages[q].rids[pos].pageNo;
      if pages[p].num + pages[nb].num >= minSize * 2 {
        Redistribute(nb, p, q, index);
        LegalIsShrunk(View(), q);
      } else {
        Coalesce(nb, p, q, index);
      }
      Climbing(View(), q);
      CoalesceOrRedistribute(q);
    }

    /** `delete_entry`. */
    method DeleteEntry(k: Key, front: Front) returns (out: DeleteOutcome)
      requires Valid()
      modifies this
      ensures out.NoRoot? <==> old(root) == NO_PAGE
      ensures out.Deleted? <==> k in old(entries)
      ensures out.Misread? <==> k !in old(entries) && old(root) != NO_PAGE && old(Misreads(View(), k, front))
      ensures out.Deleted? ==> Valid() && entries == old(entries) - {k}
      ensures out.Absent? || out.NoRoot? ==> Valid() && View() == old(View())
      ensures old(NoZero(View())) && !out.Misread? ==> NoZero(View())
    {
      hide KidsOk, ParentsOk, ChainOk, ChainLink, SizesOkExcept, EraseAt, NodeOk, EntriesOk, Misreads;
      if root == NO_PAGE {
        return NoRoot;
      }
      ghost var t := View();
      var p := FindLeaf(k);
      LeafReady(t, p, k);
      var pos := LowerBound(pages[p], k);
      MisreadAt(t, p, k, pos, front);
      var stored := if pos == -1 then front(pages[p]) else pages[p].keys[pos];
      if stored != k {
        LeafLacks(t, p, k, pos);
        return Absent;
      }
      if pos == -1 {
        LeafLacks(t, p, k, pos);
        return Misread;
      }
      pages := pages[p := EraseAt(pages[p], pos)];
      entries := entries - {k};
      EraseStep(t, View(), p, pos);
      CoalesceOrRedistribute(p);
      out := Deleted;
    }

    /** The position behind slot `index - 1` of leaf `p`; `-1` stands for the leaf's end,
        which is the next leaf's first slot unless there is none. */
    method PositionIn(p: int, index: int, ghost c: nat) returns (iid: Iid)
      requires Valid() && root != NO_PAGE && c < |chain| && p == chain[c] && p in pages && -1 <= index < pages[p].num
      ensures c + 1 < |chain| && index == -1 ==> AtRank(View(), iid, c + 1, |Flat(View(), c + 1)|)
      ensures c + 1 == |chain| || index != -1 ==>
                AtRank(View(), iid, c, |Flat(View(), c)| + if index == -1 then pages[p].num else index)
    {
      hide KidsOk, ParentsOk, EntriesOk, SizesOkExcept;
      LeafAt(View(), c);
      if index != -1 {
        return Iid(p, index);
      }
      if p == lastLeaf {
        iid := Iid(p, pages[p].num);
      } else {
        iid := Iid(pages[p].next, 0);
        LeafAt(View(), c + 1);
      }
    }

    /** `lower_bound`: the position of the first entry whose key is at least `k`. */
    method LowerBoundOf(k: Key) returns (iid: Iid, ghost c: nat, ghost x: nat)
      requires Valid() && root != NO_PAGE
      ensures AtRank(View(), iid, c, x) && Divides(All(View()), k, false, x)
    {
      hide KidsOk, ParentsOk, EntriesOk, SizesOkExcept, ChainOk, AtRank, Divides, InsertPoint, Flat;
      ghost var t := View();
      var p := FindLeaf(k);
      LeafReady(t, p, k);
      var index := LowerBound(pages[p], k);
      c := ChainIndex(t, p);
      LowerDivides(t, c, k, index);
      iid := PositionIn(p, index, c);
      x := |Flat(t, c)| + if index == -1 then pages[p].num else index;
      if index == -1 && c + 1 < |chain| { c := NextStart(t, c); }
    }

    /** `upper_bound`: the position of the first entry whose key is above `k`. */
    method UpperBoundOf(k: Key) returns (iid: Iid, ghost c: nat, ghost x: nat)
      requires Valid() && root != NO_PAGE
      ensures AtRank(View(), iid, c, x) && Divides(All(View()), k, true, x)
    {
      hide KidsOk, ParentsOk, EntriesOk, SizesOkExcept, ChainOk, AtRank, Divides, Flat;
      ghost var t := View();
      var p := FindLeaf(k);
      LeafReady(t, p, k);
      var index := UpperBound(pages[p], k);
      c := ChainIndex(t, p);
      UpperDivides(t, c, k, index);
      iid := PositionIn(p, index, c);
      x := |Flat(t, c)| + if index == -1 then pages[p].num else index;
      if index == -1 && c + 1 < |chain| { c := NextStart(t, c); }
    }

  }

  lemma SplitKeepsNoZero(t: Tree, t': Tree, a: int, b: int)
    requires Overfull(t, a) && NoZero(t) && t'.entries == t.entries
    requires a in t.spans && Mid(t.order) < |t.pages[a].keys|
    requires var s := SplitSpans(t, a, b, t.pages[a].keys[Mid(t.order)]);
             forall p :: p in t'.spans ==> t'.spans[p].lo == NegInf || (p in s && t'.spans[p] == s[p])
    ensures NoZero(t')
  {
    hide ChainOk, ParentsOk, RootOk, SizesOkExcept, SplitSpans, NodesOk, KidsOk, EntriesOk;
    SplitNoZero(t, t', a, b, Mid(t.order));
  }

  /** The merged entries fit, and the pages involved are all different. */
  lemma CoalesceReady(t: Tree, l: int, r: int, q: int, i: nat)
    requires Structured(t) && 6 <= t.order && Siblings(t, l, r, q, i)
    requires Shaped(t.pages[l], t.order) && t.pages[l].num + t.pages[r].num < 2 * MinSize(t.order)
    ensures t.pages[l].num + t.pages[r].num <= |t.pages[l].keys|
    ensures l != r && q != l && q != r && l != t.root && r != t.root && t.pages[l].isLeaf == t.pages[r].isLeaf
    ensures t.spans.Keys == t.pages.Keys && t.root in t.spans && q in t.spans
    ensures t.pages[l].isLeaf ==>
              t.pages[r].next in t.pages && t.pages[t.pages[r].next].isLeaf && (t.pages[r].next != r)
  {
    MergeSpans(t, l, r, q, i);
    if t.pages[l].isLeaf {
      var j := ChainPosition(t, l, r, q, i);
      assert ChainLink(t, j + 1);
      ChainDistinct(t);
      assert ChainLink(t, if j + 2 < |t.chain| then j + 2 else 0);
    }
  }

  lemma ChainPosition(t: Tree, l: int, r: int, q: int, i: nat) returns (j: nat)
    requires Structured(t) && Siblings(t, l, r, q, i) && t.pages[l].isLeaf
    ensures j + 1 < |t.chain| && t.chain[j] == l && t.chain[j + 1] == r
  {
    MergeSpans(t, l, r, q, i);
    j :| 0 <= j < |t.chain| && t.chain[j] == l;
    NextInChain(t, j, r);
  }

  /** The slots appended to `l` are the children of `r`. */
  lemma AppendedKids(t: Tree, l: int, r: int, q: int, i: nat, left: Node)
    requires Structured(t) && Siblings(t, l, r, q, i) && !t.pages[l].isLeaf && !t.pages[r].isLeaf
    requires l != r && q != l && q != r
    requires left.num == t.pages[l].num + t.pages[r].num <= |left.rids| && t.pages[r].num <= |t.pages[r].rids|
    requires forall k :: 0 <= k < t.pages[r].num ==> left.rids[t.pages[l].num + k] == t.pages[r].rids[k]
    ensures forall k :: t.pages[l].num <= k < left.num ==> KidIsElsewhere(t, l, r, q, left.rids[k].pageNo)
  {
    MergeSpans(t, l, r, q, i);
    var ln := t.pages[l].num;
    forall k | ln <= k < left.num
      ensures KidIsElsewhere(t, l, r, q, left.rids[k].pageNo)
    {
      assert KidOk(t, r, k - ln);
      assert left.rids[ln + (k - ln)] == left.rids[k];
    }
  }

  lemma AppendedHasKid(r: Node, left: Node, ln: nat)
    requires left.num == ln + r.num <= |left.rids| && r.num <= |r.rids|
    requires forall k :: 0 <= k < r.num ==> left.rids[ln + k] == r.rids[k]
    ensures forall p :: HasKidFrom(left, ln, p) == HasKid(r, p)
  {
    forall p
      ensures HasKidFrom(left, ln, p) == HasKid(r, p)
    {
      if HasKidFrom(left, ln, p) {
        var k :| ln <= k < left.num && left.rids[k].pageNo == p;
        assert left.rids[ln + (k - ln)] == r.rids[k - ln];
      }
      if HasKid(r, p) {
        var k :| 0 <= k < r.num && r.rids[k].pageNo == p;
        assert left.rids[ln + k].pageNo == p;
      }
    }
  }

  lemma CoalesceKeeps(t: Tree, t': Tree, l: int, r: int, q: int, i: nat)
    requires IsCoalesce(t, t', l, r, q, i) && t.spans.Keys == t.pages.Keys && q in t.spans && t.root in t.spans
    requires l != t.root && r != t.root
    ensures t'.pages.Keys <= t.pages.Keys && t'.root == t.root && t'.entries == t.entries && t'.order == t.order
    ensures q in t'.spans && t'.spans[q] == t.spans[q] && t.root in t'.spans && t'.spans[t.root] == t.spans[t.root]
    ensures !t.pages[l].isLeaf ==> t'.last == t.last
  {
    hide InsertPairs, HasKid;
  }

  lemma LeafAt(t: Tree, c: nat)
    requires Legal(t) && c < |t.chain|
    ensures t.chain[c] in t.pages && t.chain[c] in t.spans && t.pages[t.chain[c]].isLeaf && 1 <= t.pages[t.chain[c]].num
    ensures |LeafEntries(t, c)| == t.pages[t.chain[c]].num
    ensures t.chain[c] == t.last <==> c + 1 == |t.chain|
    ensures c + 1 < |t.chain| ==> t.pages[t.chain[c]].next == t.chain[c + 1]
  {
    hide KidsOk, ParentsOk, EntriesOk;
    assert ChainLink(t, c);
    var p := t.chain[c];
    assert p in t.pages && SizeOk(t, p);
    ChainDistinct(t);
  }

  lemma ChainIndex(t: Tree, p: int) returns (c: nat)
    requires Legal(t) && p in t.pages && t.pages[p].isLeaf
    ensures c < |t.chain| && t.chain[c] == p && t.chain[c] in t.spans && |LeafEntries(t, c)| == t.pages[p].num
  {
    hide KidsOk, ParentsOk, EntriesOk, ChainLink;
    c :| 0 <= c < |t.chain| && t.chain[c] == p;
  }

  lemma NextStart(t: Tree, c: nat) returns (d: nat)
    requires Legal(t) && c + 1 < |t.chain| && t.chain[c] in t.pages
    ensures d == c + 1 && |Flat(t, d)| == |Flat(t, c)| + t.pages[t.chain[c]].num
  {
    hide KidsOk, ParentsOk, EntriesOk;
    LeafAt(t, c);
    d := c + 1;
  }

  lemma LowerDivides(t: Tree, c: nat, k: Key, index: int)
    requires Legal(t) && c < |t.chain| && t.chain[c] in t.pages && InSpan(t.spans[t.chain[c]], k)
    requires t.pages[t.chain[c]].isLeaf
    requires var n := t.pages[t.chain[c]];
             && n.num <= |n.keys|
             && if index == -1 then InsertPoint(n, k, n.num) else InsertPoint(n, k, index) && index < n.num
    ensures Divides(All(t), k, false, |Flat(t, c)| + if index == -1 then t.pages[t.chain[c]].num else index)
  {
    hide KidsOk, ParentsOk, EntriesOk, ChainLink;
    LeafDivides(t, c, k, false, if index == -1 then t.pages[t.chain[c]].num else index);
  }

  lemma UpperDivides(t: Tree, c: nat, k: Key, index: int)
    requires Legal(t) && c < |t.chain| && t.chain[c] in t.pages && InSpan(t.spans[t.chain[c]], k)
    requires t.pages[t.chain[c]].isLeaf
    requires var n := t.pages[t.chain[c]];
             n.num <= |n.keys| && if index == -1 then forall i :: 0 <= i < n.num ==> n.keys[i] <= k
             else && 0 <= index < n.num && (forall i :: 0 <= i < index ==> n.keys[i] <= k)
                  && (forall i :: index <= i < n.num ==> k < n.keys[i])
    ensures Divides(All(t), k, true, |Flat(t, c)| + if index == -1 then t.pages[t.chain[c]].num else index)
  {
    hide KidsOk, ParentsOk, EntriesOk, ChainLink;
    LeafDivides(t, c, k, true, if index == -1 then t.pages[t.chain[c]].num else index);
  }

  lemma RootFacts(t: Tree)
    requires Shrunk(t, t.root)
    ensures t.root != NO_PAGE && t.pages[t.root].num <= |t.pages[t.root].rids|
    ensures !t.pages[t.root].isLeaf ==> 1 <= t.pages[t.root].num && t.pages[t.root].rids[0].pageNo in t.pages
    ensures !t.pages[t.root].isLeaf ==> t.pages[t.root].rids[0].pageNo != t.root
    ensures t.pages[t.root].isLeaf && t.pages[t.root].num == 0 ==> t.entries == map[]
  {
    assert NodeOk(t.pages[t.root], t.spans[t.root]);
    if !t.pages[t.root].isLeaf {
      assert KidOk(t, t.root, 0);
    } else if t.pages[t.root].num == 0 {
      assert LeafOk(t.pages[t.root], t.spans[t.root], t.entries);
      assert forall k :: k in t.entries ==> InSpan(t.spans[t.root], k);
      assert forall k :: k !in t.entries;
      assert t.entries.Keys == {};
    }
  }

  lemma CollapseStep(t: Tree, t': Tree, a: int, c: int)
    requires Shrunk(t, a) && IsCollapse(t, t', a, c)
    ensures Legal(t') && t'.root != NO_PAGE
  {
    hide KidsOk, ParentsOk, EntriesOk, ChainOk, Sorted;
    CollapseOk(t, t', a, c);
    forall x | x in t'.pages
      ensures SizeOk(t', x)
    {
      assert SizeOk(t, x);
    }
  }

  lemma RootIsLegal(t: Tree)
    requires Shrunk(t, t.root) && (if t.pages[t.root].isLeaf then 1 else 2) <= t.pages[t.root].num
    ensures Legal(t)
  {
    hide KidsOk, ParentsOk, EntriesOk, ChainOk, Sorted, NodeOk;
    assert SizeOk(t, t.root);
  }

  lemma LongEnough(t: Tree, p: int)
    requires Shrunk(t, p) && p != t.root && MinSize(t.order) <= t.pages[p].num
    ensures Legal(t) && t.root != NO_PAGE
  {
    hide KidsOk, ParentsOk, EntriesOk, ChainOk, Sorted, NodeOk;
    assert SizeOk(t, p);
  }

  lemma LegalIsShrunk(t: Tree, q: int)
    requires Legal(t) && q in t.pages
    ensures Shrunk(t, q)
  {
    hide KidsOk, ParentsOk, EntriesOk, ChainOk, Sorted, NodeOk;
    assert SizeOk(t, q);
  }

  /** A page without a parent is the root, and every other page is below it. */
  lemma Climbing(t: Tree, p: int)
    requires Shrunk(t, p)
    ensures p in t.spans && t.root in t.spans && 0 <= t.spans[t.root].h - t.spans[p].h
    ensures p == t.root <==> t.pages[p].parent == NO_PAGE
    ensures p != t.root ==>
              var q := t.pages[p].parent;
              && q in t.pages && q in t.spans && t.spans[q].h == t.spans[p].h + 1 && HasKid(t.pages[q], p)
              && t.pages[q].num <= |t.pages[q].rids| && t.spans[t.root].h - t.spans[q].h >= 0
  {
    RootIsTallest(t);
    if p != t.root {
      assert ParentOk(t, p);
      assert NodeOk(t.pages[t.pages[p].parent], t.spans[t.pages[p].parent]);
    }
  }

  lemma SiblingExists(t: Tree, p: int, q: int, index: nat)
    requires Shrunk(t, p) && p != t.root && q == t.pages[p].parent && q in t.pages
    requires index < t.pages[q].num <= |t.pages[q].rids| && t.pages[q].rids[index].pageNo == p
    ensures 2 <= t.pages[q].num
    ensures if index == 0 then Siblings(t, p, t.pages[q].rids[1].pageNo, q, 0)
            else Siblings(t, t.pages[q].rids[index - 1].pageNo, p, q, index - 1)
  {
    RootIsTallest(t);
    assert ParentOk(t, p);
    assert SizeOk(t, q);
    if index == 0 { assert KidOk(t, q, 1); } else { assert KidOk(t, q, index - 1); }
  }

  lemma EraseStep(t: Tree, t': Tree, p: int, pos: nat)
    requires Legal(t) && IsErase(t, t', p, pos)
    ensures Shrunk(t', p)
  {
    hide KidsOk, ParentsOk, EntriesOk, ChainOk, Sorted;
    EraseOk(t, t', p, pos);
    assert SizeOk(t, p);
    forall x | x in t'.pages && x != p
      ensures SizeOk(t', x)
    {
      assert SizeOk(t, x);
    }
  }

  lemma LeafLacks(t: Tree, p: int, k: Key, pos: int)
    requires Legal(t) && p in t.pages && t.pages[p].isLeaf && InSpan(t.spans[p], k)
    requires t.pages[p].num <= |t.pages[p].keys|
    requires if pos == -1 then InsertPoint(t.pages[p], k, t.pages[p].num)
             else InsertPoint(t.pages[p], k, pos) && pos < t.pages[p].num && t.pages[p].keys[pos] != k
    ensures k !in t.entries
  {
    NotInLeaf(t, p, k, if pos == -1 then t.pages[p].num else pos);
  }

  /** A root with a single child is not a tree that any operation leaves. */
  lemma OneChildRoot(t: Tree)
    requires t.root in t.pages && !t.pages[t.root].isLeaf && t.pages[t.root].num == 1
    ensures t.root != NO_PAGE ==> !Legal(t)
  {
    hide Structured;
    assert !SizeOk(t, t.root);
  }

  lemma MisreadAt(t: Tree, p: int, k: Key, pos: int, front: Front)
    requires Legal(t) && p in t.pages && t.pages[p].isLeaf && InSpan(t.spans[p], k)
    requires t.pages[p].num <= |t.pages[p].keys|
    requires if pos == -1 then InsertPoint(t.pages[p], k, t.pages[p].num)
             else InsertPoint(t.pages[p], k, pos) && pos < t.pages[p].num
    ensures Misreads(t, k, front) <==> pos == -1 && front(t.pages[p]) == k
  {
    hide KidsOk, ParentsOk, EntriesOk, ChainOk, SizesOkExcept, InSpan, InsertPoint;
    ResponsibleLeaf(t, p, k);
    OnePoint(t.pages[p], k, pos);
  }

  lemma OnePoint(n: Node, k: Key, pos: int)
    requires n.num <= |n.keys| && 0 <= n.num
    requires if pos == -1 then InsertPoint(n, k, n.num) else InsertPoint(n, k, pos) && pos < n.num
    ensures InsertPoint(n, k, n.num) <==> pos == -1
  {
    assert 0 <= pos < n.num ==> k <= n.keys[pos];
  }

  lemma FoundEnd(n: Node, k: Key, pos: nat, dup: bool)
    requires !n.isLeaf && 1 <= n.num < |n.keys| && 2 <= |n.keys| && InsertPoint(n, k, n.num)
    requires First(n) < n.num ==> InsertPoint(n, k, pos) && (dup <==> pos < n.num && n.keys[pos] == k)
    requires n.num == 1 ==> pos == 1 && (dup <==> n.keys[1] == k)
    requires n.num == 1 ==> n.keys[1] != k
    ensures pos == n.num && !dup
  {
    if n.num > 1 { InsertPointUnique(n, k, pos, n.num); }
  }

  lemma ShiftKeepsPages(t: Tree, t': Tree, l: int, r: int, q: int, i: nat)
    requires IsBorrowRight(t, t', l, r, q, i) || IsBorrowLeft(t, t', l, r, q, i)
    ensures t'.pages.Keys == t.pages.Keys && t'.spans.Keys == t.spans.Keys
    ensures forall x :: x in t.spans ==> t'.spans[x].h == t.spans[x].h
  {
    hide InsertAt, EraseAt, Prepended;
    assert t'.spans.Keys == t.spans.Keys;
  }

  /** What the siblings of a shrunken page look like. */
  lemma SiblingShapes(t: Tree, p: int, nb: int, q: int, index: nat)
    requires Shrunk(t, p) && p != t.root
    requires if index == 0 then Siblings(t, p, nb, q, 0) else Siblings(t, nb, p, q, index - 1)
    ensures Shaped(t.pages[p], t.order) && Shaped(t.pages[nb], t.order) && Shaped(t.pages[q], t.order)
    ensures 1 <= t.pages[p].num
    ensures p != nb && p != q && nb != q && t.pages[p].isLeaf == t.pages[nb].isLeaf && t.spans.Keys == t.pages.Keys
    ensures t.pages[p].parent == q && t.pages[nb].parent == q && nb != t.root
    ensures MinSize(t.order) <= t.pages[nb].num && t.pages[q].num <= t.order
    ensures if index == 0 then t.spans[p].hi == t.spans[nb].lo == Fin(t.pages[q].keys[1])
            else t.spans[p].lo == t.spans[nb].hi == Fin(t.pages[q].keys[index])
    ensures NodesOk(t)
  {
    hide NodesOk, KidsOk, ParentsOk, RootOk, EntriesOk, ChainOk, Siblings;
    if index == 0 { PairShapes(t, p, nb, q, 0); } else { PairShapes(t, nb, p, q, index - 1); }
    assert SizeOk(t, nb) && SizeOk(t, q);
  }

  /** Two neighbouring children of one page. */
  lemma PairShapes(t: Tree, l: int, r: int, q: int, i: nat)
    requires Structured(t) && Siblings(t, l, r, q, i)
    ensures l in t.pages && r in t.pages && q in t.pages && t.spans.Keys == t.pages.Keys
    ensures l != r && l != q && r != q && t.pages[l].isLeaf == t.pages[r].isLeaf
    ensures t.pages[l].parent == q && t.pages[r].parent == q && l != t.root && r != t.root
    ensures i + 1 < |t.pages[q].keys| && t.spans[l].hi == t.spans[r].lo == Fin(t.pages[q].keys[i + 1])
  {
    hide ParentsOk, EntriesOk, ChainOk, NodeOk;
    assert NodesOk(t);
    NodeSizes(t, q);
    MergeSpans(t, l, r, q, i);
  }

  lemma NodeSizes(t: Tree, q: int)
    requires NodesOk(t) && q in t.pages
    ensures t.pages[q].num <= |t.pages[q].keys| == |t.pages[q].rids|
  {
    assert NodeOk(t.pages[q], t.spans[q]);
  }

  /** Children of siblings are neither the siblings nor their parent. */
  lemma SiblingKids(t: Tree, p: int, nb: int, q: int, index: nat)
    requires Structured(t) && p in t.pages && !t.pages[p].isLeaf
    requires if index == 0 then Siblings(t, p, nb, q, 0) else Siblings(t, nb, p, q, index - 1)
    requires t.pages[p].num <= |t.pages[p].rids| && t.pages[nb].num <= |t.pages[nb].rids|
    ensures forall k :: 0 <= k < t.pages[nb].num ==> KidIsElsewhere(t, p, nb, q, t.pages[nb].rids[k].pageNo)
  {
    MergeSpans(t, if index == 0 then p else nb, if index == 0 then nb else p, q, if index == 0 then 0 else index - 1);
    forall k | 0 <= k < t.pages[nb].num
      ensures KidIsElsewhere(t, p, nb, q, t.pages[nb].rids[k].pageNo)
    {
      assert KidOk(t, nb, k);
    }
  }

  /** What taking over the right neighbour's first child needs. */
  lemma RightChildReady(t: Tree, nb: int, p: int, q: int)
    requires Shrunk(t, p) && p != t.root && !t.pages[p].isLeaf && t.pages[p].num == MinSize(t.order) - 1
    requires Siblings(t, p, nb, q, 0) && MinSize(t.order) < t.pages[nb].num
    ensures var n, m, k := t.pages[p], t.pages[nb], t.pages[q].keys[1];
            && Shaped(n, t.order) && Shaped(m, t.order) && Shaped(t.pages[q], t.order) && t.spans.Keys == t.pages.Keys
            && p != nb && p != q && nb != q && n.parent == m.parent == q && 2 <= m.num && t.pages[q].num <= t.order
            && 1 <= n.num < t.order && Sorted(n) && InsertPoint(n, k, n.num) && (n.num == 1 ==> n.keys[1] != k)
            && KidIsElsewhere(t, p, nb, q, m.rids[0].pageNo)
  {
    hide Structured, SizesOkExcept, InsertPoint, Sorted, KidIsElsewhere;
    SiblingShapes(t, p, nb, q, 0);
    SiblingKids(t, p, nb, q, 0);
    AppendPoint(t, p, t.pages[q].keys[1]);
  }

  lemma LeafBounds(t: Tree, p: int, x: nat)
    requires NodesOk(t) && p in t.pages && t.pages[p].isLeaf && x < t.pages[p].num <= |t.pages[p].keys|
    ensures InSpan(t.spans[p], t.pages[p].keys[x])
  {
    assert NodeOk(t.pages[p], t.spans[p]);
  }

  /** A key below a leaf's span goes before all its keys. */
  lemma PrependPoint(t: Tree, p: int, k: Key)
    requires NodesOk(t) && p in t.pages && t.pages[p].isLeaf && t.spans[p].lo.Fin? && k < t.spans[p].lo.key
    ensures Sorted(t.pages[p]) && InsertPoint(t.pages[p], k, 0)
    ensures forall i :: 0 <= i < t.pages[p].num ==> t.pages[p].keys[i] != k
  {
    assert NodeOk(t.pages[p], t.spans[p]);
  }

  ghost predicate KidIsElsewhere(t: Tree, p: int, nb: int, q: int, c: int) {
    c in t.pages && c != p && c != nb && c != q
  }

  /** A key at the upper end of a page's span goes behind all its keys. */
  lemma AppendPoint(t: Tree, p: int, k: Key)
    requires NodesOk(t) && p in t.pages && t.spans[p].hi.Fin? && t.spans[p].hi.key <= k
    ensures Sorted(t.pages[p])
    ensures First(t.pages[p]) <= t.pages[p].num ==> InsertPoint(t.pages[p], k, t.pages[p].num)
  {
    assert NodeOk(t.pages[p], t.spans[p]);
  }

  lemma LeafReady(t: Tree, p: int, k: Key)
    requires Legal(t) && p in t.pages && t.pages[p].isLeaf && InSpan(t.spans[p], k)
    ensures Sorted(t.pages[p]) && Shaped(t.pages[p], t.order) && 1 <= t.pages[p].num <= t.order
    ensures k in t.entries <==> k in t.pages[p].keys[..t.pages[p].num]
    ensures t.root != NO_PAGE
  {
    assert SizeOk(t, p) && NodeOk(t.pages[p], t.spans[p]) && LeafOk(t.pages[p], t.spans[p], t.entries);
  }

  lemma NotInLeaf(t: Tree, p: int, k: Key, pos: nat)
    requires Legal(t) && p in t.pages && t.pages[p].isLeaf && InSpan(t.spans[p], k)
    requires t.pages[p].num <= |t.pages[p].keys| && InsertPoint(t.pages[p], k, pos)
    requires pos < t.pages[p].num ==> t.pages[p].keys[pos] != k
    ensures k !in t.entries
  {
    assert NodeOk(t.pages[p], t.spans[p]) && LeafOk(t.pages[p], t.spans[p], t.entries);
  }

  /** No other leaf could be the one whose fullness decides. */
  lemma ResponsibleLeaf(t: Tree, p: int, k: Key)
    requires Legal(t) && p in t.pages && t.pages[p].isLeaf && InSpan(t.spans[p], k)
    ensures forall q :: q in t.pages && t.pages[q].isLeaf && InSpan(t.spans[q], k) ==> q == p
  {
    forall q | q in t.pages && t.pages[q].isLeaf && InSpan(t.spans[q], k)
      ensures q == p
    {
      LeafSpansDisjoint(t, p, q, k);
    }
  }


  lemma SplitBelow(t: Tree, t1: Tree, a: int, b: int)
    requires Overfull(t, a) && IsSplit(t, t1, a, b, Mid(t.order))
    ensures KeysBelow(t1.pages[a], t.pages[a].keys[Mid(t.order)])
  {
    hide KidsOk, ParentsOk, EntriesOk, ChainOk, SizesOkExcept;
    assert NodeOk(t.pages[a], t.spans[a]);
  }

  lemma SplitOfRoot(t: Tree, t1: Tree, a: int, b: int)
    requires Overfull(t, a) && IsSplit(t, t1, a, b, Mid(t.order)) && t1.pages[a].parent == NO_PAGE
    ensures a == t.root == t1.root
    ensures PromotesZero(t, a, t.pages[a].keys[Mid(t.order)]) <==> t.pages[a].keys[Mid(t.order)] == ZERO_KEY
  {
    assert a != t.root ==> ParentOk(t, a);
  }

  lemma RootReady(t: Tree, t1: Tree, a: int, b: int, c: int, n: Node) returns (j: nat)
    requires Overfull(t, a) && IsSplit(t, t1, a, b, Mid(t.order)) && a == t.root && c !in t1.pages && 0 <= c
    requires !n.isLeaf && n.num == 2 && Shaped(n, t.order) && n.parent == NO_PAGE
    requires n.keys[1] == t.pages[a].keys[Mid(t.order)] && n.rids[0].pageNo == a && n.rids[1].pageNo == b
    ensures CanRoot(t, t1, a, b, c, n, Mid(t.order), j) && a in t.spans
  {
    hide KidsOk, ParentsOk, EntriesOk, ChainLink, SizesOkExcept;
    j := 0;
    if t.pages[a].isLeaf {
      j :| 0 <= j < |t.chain| && t.chain[j] == a;
    }
  }

  lemma SplitKey(t: Tree, t1: Tree, a: int, b: int)
    requires IsSplit(t, t1, a, b, Mid(t.order))
    ensures t1.order == t.order && t1.entries == t.entries && a in t1.pages && b in t1.pages && |t1.pages[b].keys| > 0
    ensures t1.pages[b].keys[0] == t.pages[a].keys[Mid(t.order)]
  {
  }

  lemma ParentShape(t: Tree, a: int, q: int)
    requires Overfull(t, a) && a != t.root && q == t.pages[a].parent && q in t.pages && !t.pages[q].isLeaf
    ensures q != a && Sorted(t.pages[q]) && Shaped(t.pages[q], t.order) && 2 <= t.pages[q].num <= t.order
  {
    RootIsTallest(t);
    assert SizeOk(t, q) && NodeOk(t.pages[q], t.spans[q]);
  }

  /** The parent of the split page has room, and the separator belongs behind slot `i`. */
  lemma OverfullShape(t: Tree, a: int)
    requires Overfull(t, a)
    ensures Structured(t) && t.pages[a].num == t.order + 1 == |t.pages[a].keys| && Mid(t.order) == t.pages[a].num / 2
    ensures 6 <= t.order && (NoZero(t) ==> t.pages[a].keys[Mid(t.order)] != ZERO_KEY)
  {
    hide Structured, SizesOkExcept, NoZero;
    if NoZero(t) { PromotedNotZero(t, a, Mid(t.order)); }
  }

  lemma ParentReady(t: Tree, t1: Tree, a: int, b: int) returns (i: nat, j: nat)
    requires Overfull(t, a) && IsSplit(t, t1, a, b, Mid(t.order)) && t1.pages[a].parent != NO_PAGE
    ensures var q := t1.pages[a].parent; CanLink(t, t1, a, b, q, Mid(t.order), i, j) && q in t1.pages && q in t.pages
    ensures t1.order == t.order && a in t.spans
    ensures var n := t1.pages[t1.pages[a].parent];
            var sep := t.pages[a].keys[Mid(t.order)];
            && !n.isLeaf && Sorted(n) && Shaped(n, t.order) && 2 <= n.num <= t.order
            && i < n.num && InsertPoint(n, sep, i + 1) && (i + 1 < n.num ==> sep < n.keys[i + 1])
            && n.num == t.pages[t1.pages[a].parent].num
  {
    hide KidsOk, ParentsOk, EntriesOk, ChainOk, SizesOkExcept, PromotesZero;
    var q := t1.pages[a].parent;
    i, j := LinkPosition(t, a);
    ParentShape(t, a, q);
    SeparatorSlot(t, a, q, i, Mid(t.order));
  }

  /** The slot of a page in its parent and, for a leaf, its position in the chain. */
  lemma LinkPosition(t: Tree, a: int) returns (i: nat, j: nat)
    requires Structured(t) && a in t.pages && a != t.root
    ensures var q := t.pages[a].parent;
            q in t.pages && !t.pages[q].isLeaf && i < t.pages[q].num && t.pages[q].rids[i].pageNo == a
    ensures t.pages[a].isLeaf ==> j < |t.chain| && t.chain[j] == a
  {
    assert ParentOk(t, a);
    var q := t.pages[a].parent;
    i :| 0 <= i < t.pages[q].num && t.pages[q].rids[i].pageNo == a;
    j := 0;
    if t.pages[a].isLeaf {
      j :| 0 <= j < |t.chain| && t.chain[j] == a;
    }
  }
}
