/** From the effect of `redistribute`, `coalesce` and `adjust_root` on the pages to the
    tree they leave behind. */
module IxDelete {
  import opened IxNode
  import opened IxTree
  import opened IxReshape
  import opened IxSplit
  import opened IxMerge
  import opened IxSteps

  /** `insert_pairs`: it makes room by moving the upper slots up by `pos` places, not by
      the number of pairs. */
  function InsertPairs(n: Node, pos: nat, ks: seq<Key>, rs: seq<Rid>): (m: Node)
    requires pos <= n.num <= |n.keys| == |n.rids| && |ks| == |rs| && n.num + |ks| <= |n.keys|
    requires pos < n.num ==> n.num + pos <= |n.keys|
    ensures m == n.(num := n.num + |ks|, keys := m.keys, rids := m.rids)
    ensures |m.keys| == |n.keys| && |m.rids| == |n.rids|
  {
    var keys := if pos < n.num then n.keys[..2 * pos] + n.keys[pos..n.num] + n.keys[n.num + pos..] else n.keys;
    var rids := if pos < n.num then n.rids[..2 * pos] + n.rids[pos..n.num] + n.rids[n.num + pos..] else n.rids;
    n.(num := n.num + |ks|, keys := keys[..pos] + ks + keys[pos + |ks|..],
       rids := rids[..pos] + rs + rids[pos + |rs|..])
  }

  /** Both call sites are ones where the shift by `pos` is the right one: a single pair at
      position 1, and pairs appended at the end. */
  lemma InsertPairsAtOne(n: Node, k: Key, r: Rid)
    requires 1 <= n.num < |n.keys| == |n.rids|
    ensures InsertPairs(n, 1, [k], [r]) == InsertAt(n, 1, k, r)
  {
    ShiftAtOne(n.keys, n.num, k);
    ShiftAtOne(n.rids, n.num, r);
  }

  /** Shifting by one position and then overwriting slot 1 is inserting there. */
  lemma ShiftAtOne<T>(a: seq<T>, num: nat, x: T)
    requires 1 <= num < |a|
    ensures var b := if 1 < num then a[..2] + a[1..num] + a[num + 1..] else a;
            b[..1] + [x] + b[2..] == a[..1] + [x] + a[1..num] + a[num + 1..]
  {
    var b := if 1 < num then a[..2] + a[1..num] + a[num + 1..] else a;
    assert b[2..] == a[1..num] + a[num + 1..];
    assert b[..1] == a[..1];
  }

  lemma InsertPairsAtEnd(l: Node, r: Node, sep: Key)
    requires l.num <= |l.keys| == |l.rids| && 1 <= r.num <= |r.keys| == |r.rids| && l.num + r.num <= |l.keys|
    requires l.isLeaf == r.isLeaf
    ensures var r0 := if r.isLeaf then r else r.(keys := r.keys[0 := sep]);
            SameUsed(InsertPairs(l, l.num, r0.keys[..r.num], r0.rids[..r.num]), Merged(l, r, sep))
  {
    var r0 := if r.isLeaf then r else r.(keys := r.keys[0 := sep]);
    var m, n := InsertPairs(l, l.num, r0.keys[..r.num], r0.rids[..r.num]), Merged(l, r, sep);
    assert forall i :: 0 <= i < n.num ==> m.keys[i] == n.keys[i] && m.rids[i] == n.rids[i];
  }

  // ----- borrow

  /** Where the moved slot lands when `l` takes the first slot of `r`. */
  lemma BorrowRightBodies(l: Node, r: Node, sep: Key)
    requires l.num < |l.keys| == |l.rids| && 2 <= r.num <= |r.keys| == |r.rids| && l.isLeaf == r.isLeaf
    ensures var n := Merged(l, r, sep);
            && n.keys[l.num + 1] == r.keys[1]
            && SameUsed(InsertAt(l, l.num, if l.isLeaf then r.keys[0] else sep, r.rids[0]), LeftHalf(n, l.num + 1))
            && SameUsed(EraseAt(r, 0), RightHalf(n, l.num + 1))
  {
    hide Merged, LeftHalf, RightHalf, InsertAt, EraseAt;
    var n := Merged(l, r, sep);
    assert n.keys[l.num + 1] == r.keys[1];
    var h := RightHalf(n, l.num + 1);
    assert forall i :: 0 <= i < r.num - 1 ==> h.keys[i] == r.keys[i + 1] && h.rids[i] == r.rids[i + 1];
  }

  /** `r` after it received the last slot of its left neighbour. */
  function Prepended(l: Node, r: Node, sep: Key): (n: Node)
    requires 1 <= l.num <= |l.keys| == |l.rids| && 1 <= r.num < |r.keys| == |r.rids|
    ensures n.num == r.num + 1 && |n.keys| == |r.keys| && |n.rids| == |r.rids| && n.isLeaf == r.isLeaf
  {
    if r.isLeaf then InsertAt(r, 0, l.keys[l.num - 1], l.rids[l.num - 1])
    else
      var m := InsertAt(r, 1, sep, r.rids[0]);
      m.(rids := m.rids[0 := l.rids[l.num - 1]])
  }

  lemma BorrowLeftBodies(l: Node, r: Node, sep: Key)
    requires 2 <= l.num <= |l.keys| == |l.rids| && 1 <= r.num < |r.keys| == |r.rids| && l.isLeaf == r.isLeaf
    ensures var n := Merged(l, r, sep);
            && n.keys[l.num - 1] == l.keys[l.num - 1]
            && SameUsed(EraseAt(l, l.num - 1), LeftHalf(n, l.num - 1))
            && SameUsed(Prepended(l, r, sep), RightHalf(n, l.num - 1))
  {
    hide Merged, LeftHalf, RightHalf, InsertAt, EraseAt;
    var n := Merged(l, r, sep);
    var h, m := RightHalf(n, l.num - 1), Prepended(l, r, sep);
    assert forall i :: 0 <= i < r.num + 1 ==> (First(h) <= i ==> h.keys[i] == m.keys[i]) && h.rids[i] == m.rids[i];
  }

  /** The pages after a borrow: three changed arrays and one child with a new parent. */
  ghost predicate IsShift(t: Tree, t': Tree, l: int, r: int, q: int, i: nat, ln: Node, rn: Node, k: Key, c: int,
                          to: int) {
    && l in t.pages && r in t.pages && q in t.pages && l != r && q != l && q != r && t.spans.Keys == t.pages.Keys
    && i + 1 < t.pages[q].num <= |t.pages[q].keys|
    && t' == t.(pages := t'.pages, spans := t.spans[l := t.spans[l].(hi := Fin(k))][r := t.spans[r].(lo := Fin(k))])
    && t'.pages.Keys == t.pages.Keys
    && (forall p :: p in t.pages ==>
          t'.pages[p] == (if p == l then ln else if p == r then rn
                          else if p == q then t.pages[q].(keys := t.pages[q].keys[i + 1 := k]) else t.pages[p])
                         .(parent := if !t.pages[l].isLeaf && p == c then to else t.pages[p].parent))
  }

  lemma UpdatesAreShift(t: Tree, t': Tree, l: int, r: int, q: int, i: nat, ln: Node, rn: Node, k: Key, c: int, to: int)
    requires l in t.pages && r in t.pages && q in t.pages && l != r && q != l && q != r && t.spans.Keys == t.pages.Keys
    requires i + 1 < t.pages[q].num <= |t.pages[q].keys|
    requires ln.parent == t.pages[l].parent && rn.parent == t.pages[r].parent
    requires !t.pages[l].isLeaf ==> c in t.pages && c != l && c != r && c != q
    requires t' == t.(pages := t'.pages,
                      spans := t.spans[l := t.spans[l].(hi := Fin(k))][r := t.spans[r].(lo := Fin(k))])
    requires var qn := t.pages[q].(keys := t.pages[q].keys[i + 1 := k]);
             t'.pages == if t.pages[l].isLeaf then t.pages[l := ln][r := rn][q := qn]
                         else t.pages[l := ln][r := rn][c := t.pages[c].(parent := to)][q := qn]
    ensures IsShift(t, t', l, r, q, i, ln, rn, k, c, to)
  {
  }

  lemma ShiftIsBorrow(t: Tree, t': Tree, l: int, r: int, q: int, i: nat, ln: Node, rn: Node, c: int, to: int, m: nat)
    requires q in t.pages && !t.pages[q].isLeaf && i + 1 < t.pages[q].num <= |t.pages[q].keys| == |t.pages[q].rids|
    requires t.pages[q].rids[i].pageNo == l && t.pages[q].rids[i + 1].pageNo == r && l in t.pages && r in t.pages
    requires t.pages[l].num <= |t.pages[l].keys| == |t.pages[l].rids|
    requires 1 <= t.pages[r].num <= |t.pages[r].keys| == |t.pages[r].rids|
    requires var n := Merged(t.pages[l], t.pages[r], t.pages[q].keys[i + 1]);
             && 0 < m < n.num && IsShift(t, t', l, r, q, i, ln, rn, n.keys[m], c, to)
             && SameUsed(ln, LeftHalf(n, m)) && SameUsed(rn, RightHalf(n, m))
             && (forall p :: p in t.pages && (t.pages[p].parent == l || t.pages[p].parent == r) ==>
                   !t.pages[l].isLeaf && (StartsFrom(t.spans[p], n.keys[m]) <==>
                                          (if p == c then to else t.pages[p].parent) == r))
    requires forall p :: p in t.pages ==> t.pages[p].num <= |t.pages[p].keys| == |t.pages[p].rids|
    requires ln.next == t.pages[l].next && ln.prev == t.pages[l].prev && rn.next == t.pages[r].next
    requires rn.prev == t.pages[r].prev
    requires !t.pages[l].isLeaf ==> c in t.pages && t.pages[c].parent in {l, r} && to in {l, r}
    ensures IsBorrow(t, t', l, r, q, i, m)
  {
    hide LeftHalf, RightHalf, Merged;
  }

  lemma KidSlot(t: Tree, l: int, p: int) returns (k: nat)
    requires NodesOk(t) && KidsOk(t) && ParentsOk(t) && RootOk(t) && l in t.pages && p in t.pages
    requires t.pages[p].parent == l
    ensures !t.pages[l].isLeaf && k < t.pages[l].num && t.pages[l].rids[k].pageNo == p
    ensures t.spans[p] == SlotSpan(t.pages[l], t.spans[l], k)
  {
    assert p != t.root;
    assert ParentOk(t, p);
    k :| 0 <= k < t.pages[l].num && t.pages[l].rids[k].pageNo == p;
    assert KidOk(t, l, k);
  }

  lemma ArraysOk(t: Tree)
    requires NodesOk(t)
    ensures forall p :: p in t.pages ==> t.pages[p].num <= |t.pages[p].keys| == |t.pages[p].rids|
  {
    assert forall p :: p in t.pages ==> NodeOk(t.pages[p], t.spans[p]);
  }

  lemma KidAt(t: Tree, l: int, k: nat)
    requires NodesOk(t) && KidsOk(t) && l in t.pages && !t.pages[l].isLeaf && k < t.pages[l].num
    ensures t.pages[l].rids[k].pageNo in t.pages && t.pages[t.pages[l].rids[k].pageNo].parent == l
  {
    assert KidOk(t, l, k);
  }

  lemma BorrowRightParents(t: Tree, l: int, r: int, q: int, i: nat, p: int)
    requires NodesOk(t) && KidsOk(t) && ParentsOk(t) && RootOk(t)
    requires q in t.pages && !t.pages[q].isLeaf && i + 1 < t.pages[q].num && t.pages[q].rids[i].pageNo == l
    requires t.pages[q].rids[i + 1].pageNo == r
    requires l in t.pages && r in t.pages && 2 <= t.pages[r].num && p in t.pages && t.pages[p].parent in {l, r}
    ensures !t.pages[l].isLeaf
    ensures StartsFrom(t.spans[p], t.pages[r].keys[1]) <==>
              (if p == t.pages[r].rids[0].pageNo then l else t.pages[p].parent) == r
  {
    MergeSpans(t, l, r, q, i);
    var k := KidSlot(t, t.pages[p].parent, p);
    assert NodeOk(t.pages[l], t.spans[l]) && NodeOk(t.pages[r], t.spans[r]);
    assert KidOk(t, r, 0);
    if t.pages[p].parent == r && k > 0 { SlotsDiffer(t.pages[r], t.spans[r], 0, k); }
  }

  lemma BorrowLeftParents(t: Tree, l: int, r: int, q: int, i: nat, p: int)
    requires NodesOk(t) && KidsOk(t) && ParentsOk(t) && RootOk(t)
    requires q in t.pages && !t.pages[q].isLeaf && i + 1 < t.pages[q].num && t.pages[q].rids[i].pageNo == l
    requires t.pages[q].rids[i + 1].pageNo == r
    requires l in t.pages && r in t.pages && 2 <= t.pages[l].num && p in t.pages && t.pages[p].parent in {l, r}
    ensures !t.pages[l].isLeaf
    ensures var x := t.pages[l].num - 1;
            StartsFrom(t.spans[p], t.pages[l].keys[x]) <==>
                (if p == t.pages[l].rids[x].pageNo then r else t.pages[p].parent) == r
  {
    MergeSpans(t, l, r, q, i);
    var x := t.pages[l].num - 1;
    var k := KidSlot(t, t.pages[p].parent, p);
    assert NodeOk(t.pages[l], t.spans[l]) && NodeOk(t.pages[r], t.spans[r]);
    assert KidOk(t, l, x);
    if t.pages[p].parent == l && k < x { SlotsDiffer(t.pages[l], t.spans[l], x, k); }
  }

  ghost predicate Siblings(t: Tree, l: int, r: int, q: int, i: nat) {
    && q in t.pages && !t.pages[q].isLeaf && i + 1 < t.pages[q].num <= |t.pages[q].rids|
    && t.pages[q].rids[i].pageNo == l && t.pages[q].rids[i + 1].pageNo == r
    && l in t.pages && r in t.pages
  }

  /** `l` took the first slot of its right neighbour. */
  ghost predicate IsBorrowRight(t: Tree, t': Tree, l: int, r: int, q: int, i: nat) {
    && Siblings(t, l, r, q, i)
    && t.pages[l].num < |t.pages[l].keys| == |t.pages[l].rids|
    && 2 <= t.pages[r].num <= |t.pages[r].keys| == |t.pages[r].rids|
    && i + 1 < |t.pages[q].keys|
    && var lp, rp := t.pages[l], t.pages[r];
    && IsShift(t, t', l, r, q, i,
               InsertAt(lp, lp.num, if lp.isLeaf then rp.keys[0] else t.pages[q].keys[i + 1], rp.rids[0]),
               EraseAt(rp, 0),
               rp.keys[1], rp.rids[0].pageNo, l)
  }

  /** `r` took the last slot of its left neighbour. */
  ghost predicate IsBorrowLeft(t: Tree, t': Tree, l: int, r: int, q: int, i: nat) {
    && Siblings(t, l, r, q, i)
    && 2 <= t.pages[l].num <= |t.pages[l].keys| == |t.pages[l].rids|
    && 1 <= t.pages[r].num < |t.pages[r].keys| == |t.pages[r].rids|
    && i + 1 < |t.pages[q].keys|
    && var lp, rp := t.pages[l], t.pages[r];
    && IsShift(t, t', l, r, q, i, EraseAt(lp, lp.num - 1), Prepended(lp, rp, t.pages[q].keys[i + 1]),
               lp.keys[lp.num - 1], lp.rids[lp.num - 1].pageNo, r)
  }

  lemma BorrowRightIsBorrow(t: Tree, t': Tree, l: int, r: int, q: int, i: nat)
    requires NodesOk(t) && KidsOk(t) && ParentsOk(t) && RootOk(t) && IsBorrowRight(t, t', l, r, q, i)
    ensures IsBorrow(t, t', l, r, q, i, t.pages[l].num + 1)
  {
    hide NodesOk, KidsOk, ParentsOk, RootOk, IsBorrow, SameUsed, StartsFrom, Merged, LeftHalf, RightHalf, InsertAt,
      EraseAt;
    MergeSpans(t, l, r, q, i);
    var lp, rp, sep := t.pages[l], t.pages[r], t.pages[q].keys[i + 1];
    BorrowRightBodies(lp, rp, sep);
    if !lp.isLeaf { KidAt(t, r, 0); }
    forall p | p in t.pages && (t.pages[p].parent == l || t.pages[p].parent == r)
      ensures !lp.isLeaf
      ensures (StartsFrom(t.spans[p], rp.keys[1]) <==> (if p == rp.rids[0].pageNo then l else t.pages[p].parent) == r)
    {
      BorrowRightParents(t, l, r, q, i, p);
    }
    ArraysOk(t);
    ShiftIsBorrow(t, t', l, r, q, i, InsertAt(lp, lp.num, if lp.isLeaf then rp.keys[0] else sep, rp.rids[0]),
                  EraseAt(rp, 0),
                  rp.rids[0].pageNo, l, lp.num + 1);
  }

  lemma BorrowLeftIsBorrow(t: Tree, t': Tree, l: int, r: int, q: int, i: nat)
    requires NodesOk(t) && KidsOk(t) && ParentsOk(t) && RootOk(t) && IsBorrowLeft(t, t', l, r, q, i)
    ensures IsBorrow(t, t', l, r, q, i, t.pages[l].num - 1)
  {
    hide NodesOk, KidsOk, ParentsOk, RootOk, IsBorrow, SameUsed, StartsFrom, Merged, LeftHalf, RightHalf, InsertAt,
      EraseAt;
    MergeSpans(t, l, r, q, i);
    var lp, rp, sep := t.pages[l], t.pages[r], t.pages[q].keys[i + 1];
    BorrowLeftBodies(lp, rp, sep);
    if !lp.isLeaf { KidAt(t, l, lp.num - 1); }
    forall p | p in t.pages && (t.pages[p].parent == l || t.pages[p].parent == r)
      ensures !lp.isLeaf && (StartsFrom(t.spans[p], lp.keys[lp.num - 1]) <==>
                             (if p == lp.rids[lp.num - 1].pageNo then r else t.pages[p].parent) == r)
    {
      BorrowLeftParents(t, l, r, q, i, p);
    }
    ArraysOk(t);
    ShiftIsBorrow(t, t', l, r, q, i, EraseAt(lp, lp.num - 1), Prepended(lp, rp, sep), lp.rids[lp.num - 1].pageNo, r,
                  lp.num - 1);
  }

  // ----- sizes

  /** Everything is legal except that `p` may be one entry short.  The last clause is
      about the stale bytes a one-child page is compared with when it borrows. */
  ghost predicate Shrunk(t: Tree, p: int) {
    && 6 <= t.order && Structured(t) && SizesOkExcept(t, p)
    && p in t.pages && Shaped(t.pages[p], t.order) && t.pages[p].num <= t.order
    && (p != t.root ==> MinSize(t.order) - 1 <= t.pages[p].num)
    && (!t.pages[p].isLeaf && t.pages[p].num == 1 ==> Fin(t.pages[p].keys[1]) != t.spans[p].hi)
  }

  lemma BorrowStep(t: Tree, t': Tree, p: int, l: int, r: int, q: int, i: nat)
    requires Shrunk(t, p) && p in {l, r} && p != t.root && t.pages[p].num == MinSize(t.order) - 1
    requires if p == l then IsBorrowRight(t, t', l, r, q, i) else IsBorrowLeft(t, t', l, r, q, i)
    requires MinSize(t.order) < t.pages[if p == l then r else l].num
    ensures Legal(t')
  {
    hide NodesOk, KidsOk, ParentsOk, RootOk, EntriesOk, ChainOk, Sorted, IsBorrow, SameUsed, Merged;
    if p == l {
      BorrowRightIsBorrow(t, t', l, r, q, i);
      BorrowOk(t, t', l, r, q, i, t.pages[l].num + 1);
    } else {
      BorrowLeftIsBorrow(t, t', l, r, q, i);
      BorrowOk(t, t', l, r, q, i, t.pages[l].num - 1);
    }
    NoNegativePage(t);
    BorrowSizes(t, t', p, l, r, q, i);
  }

  /** The neighbour gives one slot, and the page takes it. */
  lemma BorrowSizes(t: Tree, t': Tree, p: int, l: int, r: int, q: int, i: nat)
    requires p in t.pages && l in t.pages && r in t.pages && p in {l, r} && 6 <= t.order && NO_PAGE !in t.pages
    requires SizesOkExcept(t, p) && Shaped(t.pages[p], t.order) && t.pages[p].num == MinSize(t.order) - 1
    requires if p == l then IsBorrowRight(t, t', l, r, q, i) else IsBorrowLeft(t, t', l, r, q, i)
    requires MinSize(t.order) < t.pages[if p == l then r else l].num
    ensures SizesOkExcept(t', NO_PAGE)
  {
    hide InsertAt, EraseAt, Prepended, IsShift, SizesOkExcept, MinSize;
    var lp, rp := t.pages[l], t.pages[r];
    NeighbourSize(t, p, if p == l then r else l);
    if p == l {
      ShiftSizes(t, t', p, l, r, q, i,
                 InsertAt(lp, lp.num, if lp.isLeaf then rp.keys[0] else t.pages[q].keys[i + 1], rp.rids[0]),
                 EraseAt(rp, 0),
                 rp.keys[1], rp.rids[0].pageNo, l);
    } else {
      ShiftSizes(t, t', p, l, r, q, i, EraseAt(lp, lp.num - 1), Prepended(lp, rp, t.pages[q].keys[i + 1]),
                 lp.keys[lp.num - 1], lp.rids[lp.num - 1].pageNo, r);
    }
  }

  lemma NoNegativePage(t: Tree)
    requires NodesOk(t)
    ensures NO_PAGE !in t.pages
  {
  }

  lemma NeighbourSize(t: Tree, p: int, nb: int)
    requires SizesOkExcept(t, p) && nb in t.pages && NO_PAGE !in t.pages && 6 <= t.order
    ensures nb != p ==> Shaped(t.pages[nb], t.order) && t.pages[nb].num <= t.order
    ensures 2 <= MinSize(t.order) <= t.order
  {
    if nb != p { assert SizeOk(t, nb); }
  }

  lemma ShiftSizes(t: Tree, t': Tree, p: int, l: int, r: int, q: int, i: nat, ln: Node, rn: Node, k: Key, c: int,
                   to: int)
    requires IsShift(t, t', l, r, q, i, ln, rn, k, c, to) && p in {l, r} && SizesOkExcept(t, p) && 2 <= MinSize(t.order)
    requires Shaped(ln, t.order) && MinSize(t.order) <= ln.num <= t.order
    requires Shaped(rn, t.order) && MinSize(t.order) <= rn.num <= t.order
    ensures SizesOkExcept(t', NO_PAGE)
  {
    hide MinSize;
    forall x | x in t'.pages
      ensures SizeOk(t', x)
    {
      if x != p { assert SizeOk(t, x); }
    }
  }

  // ----- merge

  /** `coalesce` emptied `r` into its left neighbour `l` and dropped it. */
  ghost predicate IsCoalesce(t: Tree, t': Tree, l: int, r: int, q: int, i: nat) {
    && Siblings(t, l, r, q, i) && l != r && q != l && q != r
    && t.pages[q].num <= |t.pages[q].keys| == |t.pages[q].rids|
    && t.pages[l].num <= |t.pages[l].keys| == |t.pages[l].rids|
    && 1 <= t.pages[r].num <= |t.pages[r].keys| == |t.pages[r].rids|
    && t.pages[l].num + t.pages[r].num <= |t.pages[l].keys| && t.pages[l].isLeaf == t.pages[r].isLeaf
    && l in t.spans && r in t.spans
    && var lp, rp, sep := t.pages[l], t.pages[r], t.pages[q].keys[i + 1];
    && var r0 := if rp.isLeaf then rp else rp.(keys := rp.keys[0 := sep]);
    && t' == t.(pages := t'.pages, last := if lp.isLeaf && t.last == r then l else t.last,
                spans := t.spans[l := Span(t.spans[l].lo, t.spans[r].hi, t.spans[l].h)] - {r}, chain := t'.chain)
    && t'.pages.Keys == t.pages.Keys - {r}
    && (forall p :: p in t'.pages ==>
          t'.pages[p] == (if p == l then InsertPairs(lp, lp.num, r0.keys[..rp.num], r0.rids[..rp.num])
                          else if p == q then EraseAt(t.pages[q], i + 1) else t.pages[p])
                         .(parent := if !lp.isLeaf && HasKid(rp, p) then l else t.pages[p].parent,
                           next := if lp.isLeaf && p == l then rp.next else t.pages[p].next,
                           prev := if lp.isLeaf && p == rp.next then l else t.pages[p].prev))
  }

  lemma KidsOfMerged(t: Tree, r: int)
    requires NodesOk(t) && KidsOk(t) && ParentsOk(t) && RootOk(t) && r in t.pages
    ensures forall p :: p in t.pages ==> (!t.pages[r].isLeaf && HasKid(t.pages[r], p) <==> t.pages[p].parent == r)
  {
    forall p | p in t.pages
      ensures !t.pages[r].isLeaf && HasKid(t.pages[r], p) <==> t.pages[p].parent == r
    {
      if !t.pages[r].isLeaf && HasKid(t.pages[r], p) {
        var k :| 0 <= k < t.pages[r].num && t.pages[r].rids[k].pageNo == p;
        assert KidOk(t, r, k);
      }
      if t.pages[p].parent == r {
        var k := KidSlot(t, r, p);
      }
    }
  }

  lemma CoalesceIsMerge(t: Tree, t': Tree, l: int, r: int, q: int, i: nat)
    requires NodesOk(t) && KidsOk(t) && ParentsOk(t) && RootOk(t) && IsCoalesce(t, t', l, r, q, i)
    ensures IsMerge(t, t', l, r, q, i)
  {
    hide KidsOk, ParentsOk, Sorted, HasKid;
    KidsOfMerged(t, r);
    InsertPairsAtEnd(t.pages[l], t.pages[r], t.pages[q].keys[i + 1]);
  }

  lemma CoalesceOk(t: Tree, t': Tree, l: int, r: int, q: int, i: nat, j: nat)
    requires Structured(t) && IsCoalesce(t, t', l, r, q, i)
    requires if t.pages[l].isLeaf
             then j + 1 < |t.chain| && t.chain[j] == l && t.chain[j + 1] == r
                  && t'.chain == t.chain[..j + 1] + t.chain[j + 2..]
             else t'.chain == t.chain
    ensures Structured(t')
  {
    hide KidsOk, ParentsOk, EntriesOk, ChainOk, Sorted, HasKid, IsMerge, NodeOk;
    CoalesceIsMerge(t, t', l, r, q, i);
    if t.pages[l].isLeaf {
      LeafMergeOk(t, t', l, r, q, i, j);
    } else {
      InnerMergeOk(t, t', l, r, q, i);
    }
  }

  /** A merge leaves a legal page behind and takes one slot from the parent. */
  lemma CoalesceStep(t: Tree, t': Tree, p: int, l: int, r: int, q: int, i: nat, j: nat)
    requires Shrunk(t, p) && p in {l, r} && p != t.root && t.pages[p].num == MinSize(t.order) - 1
    requires IsCoalesce(t, t', l, r, q, i) && t.pages[l].num + t.pages[r].num < 2 * MinSize(t.order)
    requires if t.pages[l].isLeaf
             then j + 1 < |t.chain| && t.chain[j] == l && t.chain[j + 1] == r
                  && t'.chain == t.chain[..j + 1] + t.chain[j + 2..]
             else t'.chain == t.chain
    requires l != t.root && r != t.root
    ensures Shrunk(t', q)
  {
    hide NodesOk, KidsOk, ParentsOk, RootOk, EntriesOk, ChainOk, HasKid;
    CoalesceOk(t, t', l, r, q, i, j);
    forall x | x in t'.pages && x != q
      ensures SizeOk(t', x)
    {
      assert x != p ==> SizeOk(t, x);
      assert r != p ==> SizeOk(t, r);
      assert l != p ==> SizeOk(t, l);
    }
    assert SizeOk(t, q);
    ParentKeepsStale(t, t', l, r, q, i);
  }

  lemma ParentKeepsStale(t: Tree, t': Tree, l: int, r: int, q: int, i: nat)
    requires NodesOk(t) && IsCoalesce(t, t', l, r, q, i)
    ensures t'.pages[q].num == 1 ==> Fin(t'.pages[q].keys[1]) != t'.spans[q].hi
  {
    assert NodeOk(t.pages[q], t.spans[q]);
    assert t.pages[q].num == 2 ==> i == 0 && StrictlyAbove(t.spans[q].hi, t.pages[q].keys[1]);
  }

  ghost predicate CanCoalesce(t: Tree, l: int, r: int, q: int, i: nat) {
    && Siblings(t, l, r, q, i) && l != r && q != l && q != r
    && t.pages[q].num <= |t.pages[q].keys| == |t.pages[q].rids|
    && t.pages[l].num <= |t.pages[l].keys| == |t.pages[l].rids|
    && 1 <= t.pages[r].num <= |t.pages[r].keys| == |t.pages[r].rids|
    && t.pages[l].num + t.pages[r].num <= |t.pages[l].keys| && t.pages[l].isLeaf == t.pages[r].isLeaf
    && l in t.spans && r in t.spans
  }

  /** The page `l` after `insert_pairs` appended the slots of `r`. */
  ghost function Appended(t: Tree, l: int, r: int, q: int, i: nat): Node
    requires CanCoalesce(t, l, r, q, i)
  {
    var lp, rp := t.pages[l], t.pages[r];
    var r0 := if rp.isLeaf then rp else rp.(keys := rp.keys[0 := t.pages[q].keys[i + 1]]);
    InsertPairs(lp, lp.num, r0.keys[..rp.num], r0.rids[..rp.num])
  }

  lemma InnerCoalesceDone(t: Tree, t': Tree, l: int, r: int, q: int, i: nat, mid: map<int, Node>)
    requires CanCoalesce(t, l, r, q, i) && !t.pages[l].isLeaf
    requires mid == t.pages[l := Appended(t, l, r, q, i)][q := EraseAt(t.pages[q], i + 1)]
    requires t' == t.(pages := t'.pages, spans := t.spans[l := Span(t.spans[l].lo, t.spans[r].hi, t.spans[l].h)] - {r})
    requires t'.pages.Keys == t.pages.Keys - {r}
    requires forall p :: p in t'.pages ==> t'.pages[p] == if HasKid(t.pages[r], p) then mid[p].(parent := l) else mid[p]
    ensures IsCoalesce(t, t', l, r, q, i)
  {
    hide InsertPairs, HasKid;
  }

  lemma LeafCoalesceDone(t: Tree, t': Tree, l: int, r: int, q: int, i: nat)
    requires CanCoalesce(t, l, r, q, i) && t.pages[l].isLeaf && t.pages[r].next in t.pages
    requires t.pages[t.pages[r].next].isLeaf
    requires t' == t.(pages := t'.pages, last := if t.last == r then l else t.last,
                      spans := t.spans[l := Span(t.spans[l].lo, t.spans[r].hi, t.spans[l].h)] - {r}, chain := t'.chain)
    requires var left, parent := Appended(t, l, r, q, i).(next := t.pages[r].next), EraseAt(t.pages[q], i + 1);
             var mid := t.pages[l := left][q := parent];
             t'.pages == mid[t.pages[r].next := mid[t.pages[r].next].(prev := l)] - {r}
    ensures IsCoalesce(t, t', l, r, q, i)
  {
    hide InsertPairs, HasKid;
  }

  lemma AppendedRids(t: Tree, l: int, r: int, q: int, i: nat)
    requires CanCoalesce(t, l, r, q, i)
    ensures var n := Appended(t, l, r, q, i);
            && n.num == t.pages[l].num + t.pages[r].num <= |n.rids|
            && forall k :: 0 <= k < t.pages[r].num ==> n.rids[t.pages[l].num + k] == t.pages[r].rids[k]
  {
  }
}
