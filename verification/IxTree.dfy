/** The value of a whole index file and the invariant that every operation keeps.

    Besides the page heap and the header fields, a `Tree` carries what the code leaves
    implicit: for each page the key span its subtree is responsible for and its height,
    the leaf pages in chain order, and the map the index stands for. */
module IxTree {
  import opened IxNode

  datatype Bound = NegInf | Fin(key: Key) | PosInf

  ghost predicate AtOrBelow(b: Bound, k: Key) {
    b.NegInf? || (b.Fin? && b.key <= k)
  }

  ghost predicate StrictlyBelow(b: Bound, k: Key) {
    b.NegInf? || (b.Fin? && b.key < k)
  }

  ghost predicate StrictlyAbove(b: Bound, k: Key) {
    b.PosInf? || (b.Fin? && k < b.key)
  }

  ghost predicate BoundLess(a: Bound, b: Bound) {
    a != b && (a.NegInf? || b.PosInf? || (a.Fin? && b.Fin? && a.key < b.key))
  }

  /** Keys `lo <= k < hi` belong to the subtree, whose leaves are `h` levels down. */
  datatype Span = Span(lo: Bound, hi: Bound, h: int)

  ghost predicate InSpan(s: Span, k: Key) {
    AtOrBelow(s.lo, k) && StrictlyAbove(s.hi, k)
  }

  datatype Tree = Tree(order: nat, pages: map<int, Node>, root: int, first: int, last: int,
                       spans: map<int, Span>, chain: seq<int>, entries: map<Key, Rid>)

  /** Smallest legal size of a page that is not the root. */
  function MinSize(order: nat): nat {
    var m := (order + 1) / 2 - 1;
    if m < 1 then 1 else m
  }

  ghost predicate NodeOk(n: Node, s: Span) {
    && n.num <= |n.keys| == |n.rids|
    && Sorted(n)
    && BoundLess(s.lo, s.hi)
    && 0 <= s.h
    && (n.isLeaf <==> s.h == 0)
    && (!n.isLeaf ==> 1 <= n.num)
    && (forall i :: First(n) <= i < n.num ==>
          && StrictlyAbove(s.hi, n.keys[i])
          && if n.isLeaf then AtOrBelow(s.lo, n.keys[i]) else StrictlyBelow(s.lo, n.keys[i]))
  }

  ghost predicate NodesOk(t: Tree) {
    && t.spans.Keys == t.pages.Keys
    && forall p :: p in t.pages ==> 0 <= p && NodeOk(t.pages[p], t.spans[p])
  }

  /** The span that slot `i` of a page delegates to its child. */
  function SlotSpan(n: Node, s: Span, i: nat): Span
    requires i < n.num <= |n.keys|
  {
    Span(if i == 0 then s.lo else Fin(n.keys[i]), if i + 1 == n.num then s.hi else Fin(n.keys[i + 1]), s.h - 1)
  }

  /** The spans of different slots of one page have different lower ends. */
  lemma SlotsDiffer(n: Node, s: Span, i: nat, j: nat)
    requires NodeOk(n, s) && !n.isLeaf && i < n.num && j < n.num && i != j
    ensures SlotSpan(n, s, i) != SlotSpan(n, s, j)
  {
  }

  ghost predicate KidOk(t: Tree, p: int, i: nat)
    requires p in t.pages && i < t.pages[p].num <= |t.pages[p].keys| == |t.pages[p].rids|
    requires t.spans.Keys == t.pages.Keys
  {
    var c := t.pages[p].rids[i].pageNo;
    c in t.pages && t.pages[c].parent == p && t.spans[c] == SlotSpan(t.pages[p], t.spans[p], i)
  }

  ghost predicate KidsOk(t: Tree)
    requires NodesOk(t)
  {
    forall p, i :: p in t.pages && !t.pages[p].isLeaf && 0 <= i < t.pages[p].num ==> KidOk(t, p, i)
  }

  ghost predicate HasKid(n: Node, c: int) {
    exists i :: 0 <= i < n.num && i < |n.rids| && n.rids[i].pageNo == c
  }

  ghost predicate ParentOk(t: Tree, p: int)
    requires p in t.pages
  {
    var q := t.pages[p].parent;
    q in t.pages && !t.pages[q].isLeaf && HasKid(t.pages[q], p)
  }

  ghost predicate ParentsOk(t: Tree) {
    forall p :: p in t.pages && p != t.root ==> ParentOk(t, p)
  }

  ghost predicate RootOk(t: Tree) {
    && t.root in t.pages
    && t.root in t.spans
    && t.pages[t.root].parent == NO_PAGE
    && t.spans[t.root].lo == NegInf
    && t.spans[t.root].hi == PosInf
  }

  /** Each leaf's keys, and nothing else in its span, are in the map. */
  ghost predicate LeafOk(n: Node, s: Span, entries: map<Key, Rid>)
    requires n.num <= |n.keys| == |n.rids|
  {
    && (forall i :: 0 <= i < n.num ==> n.keys[i] in entries && entries[n.keys[i]] == n.rids[i])
    && (forall k :: k in entries && InSpan(s, k) ==> k in n.keys[..n.num])
  }

  ghost predicate EntriesOk(t: Tree)
    requires NodesOk(t)
  {
    forall p :: p in t.pages && t.pages[p].isLeaf ==> LeafOk(t.pages[p], t.spans[p], t.entries)
  }

  ghost predicate ChainLink(t: Tree, i: nat)
    requires i < |t.chain|
  {
    var p := t.chain[i];
    && p in t.pages && p in t.spans
    && t.pages[p].isLeaf
    && t.pages[p].next == (if i + 1 == |t.chain| then t.chain[0] else t.chain[i + 1])
    && t.pages[p].prev == (if i == 0 then t.chain[|t.chain| - 1] else t.chain[i - 1])
    && (if i == 0 then t.spans[p].lo == NegInf
        else t.chain[i - 1] in t.spans && t.spans[p].lo == t.spans[t.chain[i - 1]].hi)
    && (i + 1 == |t.chain| ==> t.spans[p].hi == PosInf)
  }

  /** The leaves form one circular list in key order, from `first` to `last`. */
  ghost predicate ChainOk(t: Tree) {
    && t.chain != []
    && t.first == t.chain[0]
    && t.last == t.chain[|t.chain| - 1]
    && (forall i :: 0 <= i < |t.chain| ==> ChainLink(t, i))
    && (forall p :: p in t.pages && t.pages[p].isLeaf ==> p in t.chain)
  }

  /** Everything but the size limits, which are broken for one page at a time while an
      insertion or a deletion is under way. */
  ghost predicate Structured(t: Tree) {
    NodesOk(t) && KidsOk(t) && ParentsOk(t) && RootOk(t) && EntriesOk(t) && ChainOk(t)
  }

  ghost predicate SizeOk(t: Tree, p: int)
    requires p in t.pages
  {
    && Shaped(t.pages[p], t.order)
    && t.pages[p].num <= t.order
    && (if p == t.root then (if t.pages[p].isLeaf then 1 else 2) <= t.pages[p].num
        else MinSize(t.order) <= t.pages[p].num)
  }

  ghost predicate SizesOkExcept(t: Tree, except: int) {
    forall p :: p in t.pages && p != except ==> SizeOk(t, p)
  }

  ghost predicate Legal(t: Tree) {
    6 <= t.order && Structured(t) && SizesOkExcept(t, NO_PAGE)
  }
}
