/** Indexes that have never held the all-zero key: no separator is zero, so no insertion
    can fail on one. */
module IxZero {
  import opened IxNode
  import opened IxTree
  import opened IxInsert
  import opened IxDelete

  /** Separators are the lower ends of the spans. */
  ghost predicate NoZero(t: Tree) {
    ZERO_KEY !in t.entries && forall p :: p in t.spans ==> t.spans[p].lo != Fin(ZERO_KEY)
  }

  /** Every key in use is an entry or a separator. */
  lemma UsedNotZero(t: Tree, p: int, i: nat)
    requires NodesOk(t) && KidsOk(t) && EntriesOk(t) && NoZero(t)
    requires p in t.pages && First(t.pages[p]) <= i < t.pages[p].num
    ensures i < |t.pages[p].keys| && t.pages[p].keys[i] != ZERO_KEY
  {
    hide ChainLink;
    var n := t.pages[p];
    assert NodeOk(n, t.spans[p]);
    if n.isLeaf {
      assert LeafOk(n, t.spans[p], t.entries);
    } else {
      assert KidOk(t, p, i);
    }
  }

  /** The key that a split promotes is not zero, and neither is any span's lower end. */
  lemma SplitNoZero(t: Tree, t': Tree, a: int, b: int, m: nat)
    requires NodesOk(t) && KidsOk(t) && EntriesOk(t) && NoZero(t) && a in t.pages
    requires 1 <= m < t.pages[a].num <= |t.pages[a].keys| && a in t.spans
    requires t'.entries == t.entries
    requires var spans := SplitSpans(t, a, b, t.pages[a].keys[m]);
             forall p :: p in t'.spans ==> t'.spans[p].lo == NegInf || (p in spans && t'.spans[p] == spans[p])
    ensures t.pages[a].keys[m] != ZERO_KEY && NoZero(t')
  {
    UsedNotZero(t, a, m);
  }

  lemma PromotedNotZero(t: Tree, a: int, m: nat)
    requires Structured(t) && NoZero(t) && a in t.pages && 1 <= m < t.pages[a].num <= |t.pages[a].keys|
    ensures t.pages[a].keys[m] != ZERO_KEY
  {
    hide ChainOk, ParentsOk, RootOk;
    UsedNotZero(t, a, m);
  }

  /** A borrow makes a used key the new separator. */
  lemma BorrowNoZero(t: Tree, t': Tree, l: int, r: int, q: int, i: nat)
    requires Structured(t) && NoZero(t) && (IsBorrowRight(t, t', l, r, q, i) || IsBorrowLeft(t, t', l, r, q, i))
    ensures NoZero(t')
  {
    hide ChainOk, ParentsOk, RootOk, KidsOk, EntriesOk;
    if IsBorrowRight(t, t', l, r, q, i) {
      UsedNotZero(t, r, 1);
    } else {
      UsedNotZero(t, l, t.pages[l].num - 1);
    }
  }

  lemma CoalesceNoZero(t: Tree, t': Tree, l: int, r: int, q: int, i: nat)
    requires NoZero(t) && IsCoalesce(t, t', l, r, q, i)
    ensures NoZero(t')
  {
  }

  lemma PutNoZero(t: Tree, t': Tree, k: Key, r: Rid)
    requires t'.spans == t.spans && t'.entries == t.entries[k := r]
    ensures NoZero(t) && k != ZERO_KEY ==> NoZero(t')
  {
  }

  lemma SingleNoZero(t: Tree, c: int, k: Key, r: Rid)
    requires t.spans == map[c := Span(NegInf, PosInf, 0)] && t.entries == map[k := r]
    ensures k != ZERO_KEY ==> NoZero(t)
  {
  }
}
