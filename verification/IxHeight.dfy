/** Heights and parents: why climbing towards the root stops, and which children `split`
    hands over. */
module IxHeight {
  import opened IxNode
  import opened IxTree
  import opened IxSplit

  lemma {:induction false} Tallest(t: Tree, s: set<nat>) returns (p: nat)
    requires s != {} && forall x :: x in s ==> x in t.spans
    ensures p in s && forall x :: x in s ==> t.spans[x].h <= t.spans[p].h
  {
    p :| p in s;
    if s != {p} {
      var q := Tallest(t, s - {p});
      if t.spans[p].h < t.spans[q].h { p := q; }
    }
  }

  /** Every page but the root has a taller parent, so the root is the tallest page. */
  lemma RootIsTallest(t: Tree)
    requires NodesOk(t) && KidsOk(t) && ParentsOk(t) && RootOk(t)
    ensures forall p :: p in t.pages && p != t.root ==> t.spans[p].h < t.spans[t.root].h
    ensures forall p :: p in t.pages && p != t.root ==>
              t.pages[p].parent in t.pages && t.spans[t.pages[p].parent].h == t.spans[p].h + 1
  {
    var all := set p: nat | p in t.pages;
    assert t.root in all;
    var m := Tallest(t, all);
    forall p | p in t.pages && p != t.root
      ensures t.pages[p].parent in t.pages && t.spans[t.pages[p].parent].h == t.spans[p].h + 1
    {
      assert ParentOk(t, p);
      var q := t.pages[p].parent;
      var i :| 0 <= i < t.pages[q].num && t.pages[q].rids[i].pageNo == p;
      assert KidOk(t, q, i);
    }
  }

  /** The children under slots `m..` are exactly those whose span starts at the separator
      or later. */
  lemma MovedKids(t: Tree, a: int, m: nat, p: int)
    requires NodesOk(t) && KidsOk(t) && ParentsOk(t)
    requires a in t.pages && !t.pages[a].isLeaf && 0 < m < t.pages[a].num && p in t.pages && p != t.root
    ensures HasKid(RightHalf(t.pages[a], m), p) <==>
              t.pages[p].parent == a && StartsFrom(t.spans[p], t.pages[a].keys[m])
  {
    var n, r := t.pages[a], RightHalf(t.pages[a], m);
    assert NodeOk(n, t.spans[a]);
    if HasKid(r, p) {
      var j :| 0 <= j < r.num && r.rids[j].pageNo == p;
      assert KidOk(t, a, m + j);
    }
    if t.pages[p].parent == a && StartsFrom(t.spans[p], n.keys[m]) {
      assert ParentOk(t, p);
      var k :| 0 <= k < n.num && n.rids[k].pageNo == p;
      assert KidOk(t, a, k);
      assert r.rids[k - m].pageNo == p;
    }
  }

  /** The middle one of the keys that surround the split point once `k` is inserted. */
  function Promoted(n: Node, k: Key, mid: nat): Key
    requires 0 < mid < n.num <= |n.keys|
  {
    if k < n.keys[mid - 1] then n.keys[mid - 1] else if n.keys[mid] < k then n.keys[mid] else k
  }

  lemma PromotedIsMiddle(n: Node, k: Key, r: Rid, pos: nat, mid: nat)
    requires n.num < |n.keys| == |n.rids| && Sorted(n) && InsertPoint(n, k, pos) && (pos < n.num ==> n.keys[pos] != k)
    requires First(n) < mid < n.num
    ensures InsertAt(n, pos, k, r).keys[mid] == Promoted(n, k, mid)
  {
    assert pos < mid ==> k < n.keys[mid - 1];
    assert mid < pos ==> n.keys[mid] < k;
  }

  /** Splitting `a` with separator `sep` splits every page above it and promotes the
      all-zero key out of the root. */
  ghost predicate PromotesZero(t: Tree, a: int, sep: Key)
    requires 6 <= t.order && NodesOk(t) && KidsOk(t) && ParentsOk(t) && RootOk(t) && a in t.pages
    decreases if a in t.spans && t.root in t.spans then t.spans[t.root].h - t.spans[a].h else 0
  {
    if a == t.root then sep == ZERO_KEY
    else
      (RootIsTallest(t);
       var q := t.pages[a].parent;
       t.order <= t.pages[q].num && PromotesZero(t, q, Promoted(t.pages[q], sep, (t.order + 1) / 2)))
  }

  lemma PromotesZeroUp(t: Tree, a: int, sep: Key)
    requires 6 <= t.order && NodesOk(t) && KidsOk(t) && ParentsOk(t) && RootOk(t) && a in t.pages && a != t.root
    requires var q := t.pages[a].parent; q in t.pages && t.order <= t.pages[q].num
    ensures var q := t.pages[a].parent;
            PromotesZero(t, a, sep) == PromotesZero(t, q, Promoted(t.pages[q], sep, (t.order + 1) / 2))
  {
  }

  /** The two trees agree on `a`'s place and on every page taller than `a`. */
  ghost predicate SameAbove(t: Tree, t': Tree, a: int) {
    && a in t.pages && a in t.spans && a in t'.pages && a in t'.spans && t.root in t.spans && t.root in t'.spans
    && t'.order == t.order && t'.root == t.root && t'.pages[a].parent == t.pages[a].parent
    && t'.spans[t.root].h == t.spans[t.root].h && t'.spans[a].h == t.spans[a].h
    && forall p :: p in t.pages && p in t.spans && t.spans[p].h > t.spans[a].h ==>
         p in t'.pages && p in t'.spans && t'.pages[p].keys == t.pages[p].keys && t'.pages[p].num == t.pages[p].num
         && t'.pages[p].parent == t.pages[p].parent && t'.spans[p].h == t.spans[p].h
  }

  /** Only the pages above `a` decide. */
  lemma {:induction false} PromotesZeroFrame(t: Tree, t': Tree, a: int, sep: Key)
    requires 6 <= t.order && NodesOk(t) && KidsOk(t) && ParentsOk(t) && RootOk(t)
    requires NodesOk(t') && KidsOk(t') && ParentsOk(t') && RootOk(t')
    requires SameAbove(t, t', a)
    ensures PromotesZero(t, a, sep) == PromotesZero(t', a, sep)
    decreases t.spans[t.root].h - t.spans[a].h
  {
    hide KidsOk, ParentsOk, Sorted;
    if a != t.root {
      RootIsTallest(t);
      RootIsTallest(t');
      var q := t.pages[a].parent;
      if t.order <= t.pages[q].num {
        PromotesZeroFrame(t, t', q, Promoted(t.pages[q], sep, (t.order + 1) / 2));
      }
    }
  }
}
