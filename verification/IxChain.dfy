/** The circular list of leaves: its order, and what `split` and `coalesce` do to it. */
module IxChain {
  import opened IxNode
  import opened IxTree

  ghost predicate BoundAtMost(a: Bound, b: Bound) {
    a == b || BoundLess(a, b)
  }

  /** Leaves further down the chain start where, or after, earlier ones end. */
  lemma {:induction false} ChainOrder(t: Tree, i: nat, j: nat)
    requires NodesOk(t) && ChainOk(t) && i < j < |t.chain|
    ensures t.chain[i] in t.spans && t.chain[j] in t.spans
    ensures BoundAtMost(t.spans[t.chain[i]].hi, t.spans[t.chain[j]].lo)
    ensures t.chain[i] != t.chain[j]
  {
    assert ChainLink(t, i) && ChainLink(t, j) && ChainLink(t, j - 1);
    assert NodeOk(t.pages[t.chain[i]], t.spans[t.chain[i]]);
    if i + 1 < j {
      ChainOrder(t, i, j - 1);
      assert NodeOk(t.pages[t.chain[j - 1]], t.spans[t.chain[j - 1]]);
    }
  }

  lemma ChainDistinct(t: Tree)
    requires NodesOk(t) && ChainOk(t)
    ensures forall i, j :: 0 <= i < j < |t.chain| ==> t.chain[i] != t.chain[j]
  {
    forall i, j | 0 <= i < j < |t.chain|
      ensures t.chain[i] != t.chain[j]
    {
      ChainOrder(t, i, j);
    }
  }

  lemma InSpanOrdered(s: Span, u: Span, k: Key)
    requires BoundAtMost(s.hi, u.lo) && InSpan(s, k)
    ensures !InSpan(u, k)
  {
  }

  /** Two leaves are never responsible for the same key. */
  lemma LeafSpansDisjoint(t: Tree, p: int, q: int, k: Key)
    requires NodesOk(t) && ChainOk(t)
    requires p in t.pages && t.pages[p].isLeaf && q in t.pages && t.pages[q].isLeaf
    requires InSpan(t.spans[p], k) && InSpan(t.spans[q], k)
    ensures p == q
  {
    var i :| 0 <= i < |t.chain| && t.chain[i] == p;
    var j :| 0 <= j < |t.chain| && t.chain[j] == q;
    if i < j {
      ChainOrder(t, i, j);
      InSpanOrdered(t.spans[p], t.spans[q], k);
    } else if j < i {
      ChainOrder(t, j, i);
      InSpanOrdered(t.spans[q], t.spans[p], k);
    }
  }

  /** The leaf that starts where leaf `j` ends is the next one. */
  lemma NextInChain(t: Tree, j: nat, q: int)
    requires NodesOk(t) && ChainOk(t) && j < |t.chain|
    requires q in t.pages && t.pages[q].isLeaf && t.chain[j] in t.spans && t.spans[q].lo == t.spans[t.chain[j]].hi
    ensures j + 1 < |t.chain| && t.chain[j + 1] == q
  {
    var i :| 0 <= i < |t.chain| && t.chain[i] == q;
    assert ChainLink(t, j) && ChainLink(t, i);
    assert NodeOk(t.pages[t.chain[j]], t.spans[t.chain[j]]) && NodeOk(t.pages[q], t.spans[q]);
    if j + 1 < |t.chain| {
      assert ChainLink(t, j + 1);
      assert NodeOk(t.pages[t.chain[j + 1]], t.spans[t.chain[j + 1]]);
    }
    if i < j {
      ChainOrder(t, i, j);
    } else if j + 1 < i {
      ChainOrder(t, j + 1, i);
    }
  }

  /** `split` put the new leaf `b` right after `a`, the leaf at position `j`. */
  ghost predicate IsChainInsert(t: Tree, t': Tree, a: int, b: int, j: nat) {
    && j < |t.chain| && t.chain[j] == a && a in t.pages && b !in t.pages
    && t.pages.Keys + {b} <= t'.pages.Keys && t'.spans.Keys == t'.pages.Keys && t.spans.Keys == t.pages.Keys
    && t'.chain == t.chain[..j + 1] + [b] + t.chain[j + 1..]
    && t'.first == t.first
    && t'.last == (if t.last == a then b else t.last)
    && t'.pages[b].isLeaf && t'.pages[b].prev == a && t'.pages[b].next == t.pages[a].next
    && t'.spans[a].lo == t.spans[a].lo && t'.spans[b].lo == t'.spans[a].hi && t'.spans[b].hi == t.spans[a].hi
    && (forall p :: p in t.pages && t.pages[p].isLeaf ==>
          && t'.pages[p].isLeaf
          && t'.pages[p].next == (if p == a then b else t.pages[p].next)
          && t'.pages[p].prev == (if p == t.pages[a].next then b else t.pages[p].prev)
          && (p != a ==> t'.spans[p] == t.spans[p]))
    && (forall p :: p in t'.pages && t'.pages[p].isLeaf ==> p == b || (p in t.pages && t.pages[p].isLeaf))
  }

  lemma ChainInsertLink(t: Tree, t': Tree, a: int, b: int, j: nat, i: nat)
    requires NodesOk(t) && ChainOk(t) && IsChainInsert(t, t', a, b, j)
    requires i < |t.chain|
    ensures ChainLink(t', if i <= j then i else i + 1)
  {
    ChainDistinct(t);
    assert ChainLink(t, i) && ChainLink(t, j);
    assert i > 0 ==> ChainLink(t, i - 1);
  }

  lemma ChainInsertNew(t: Tree, t': Tree, a: int, b: int, j: nat)
    requires NodesOk(t) && ChainOk(t) && IsChainInsert(t, t', a, b, j)
    ensures ChainLink(t', j + 1)
  {
    assert ChainLink(t, j);
    assert t'.chain[j] == a && t'.chain[j + 1] == b;
    assert j + 2 < |t'.chain| ==> t'.chain[j + 2] == t.chain[j + 1];
    assert t'.chain[0] == t.chain[0];
  }

  lemma ChainInsertMembers(t: Tree, t': Tree, a: int, b: int, j: nat)
    requires ChainOk(t) && IsChainInsert(t, t', a, b, j)
    ensures forall p :: p in t'.pages && t'.pages[p].isLeaf ==> p in t'.chain
  {
    forall p | p in t'.pages && t'.pages[p].isLeaf
      ensures p in t'.chain
    {
      if p == b {
        assert t'.chain[j + 1] == b;
      } else {
        var i :| 0 <= i < |t.chain| && t.chain[i] == p;
        assert t'.chain[if i <= j then i else i + 1] == p;
      }
    }
  }

  lemma ChainInsertOk(t: Tree, t': Tree, a: int, b: int, j: nat)
    requires NodesOk(t) && ChainOk(t) && IsChainInsert(t, t', a, b, j)
    ensures ChainOk(t')
  {
    hide NodesOk, ChainLink;
    forall i | 0 <= i < |t'.chain|
      ensures ChainLink(t', i)
    {
      if i == j + 1 {
        ChainInsertNew(t, t', a, b, j);
      } else {
        ChainInsertLink(t, t', a, b, j, if i <= j then i else i - 1);
      }
    }
    ChainInsertMembers(t, t', a, b, j);
    ChainDistinct(t);
  }

  /** `coalesce` unlinked leaf `r`, at position `j + 1`, and `l` before it took its span. */
  ghost predicate IsChainRemove(t: Tree, t': Tree, l: int, r: int, j: nat) {
    && j + 1 < |t.chain| && t.chain[j] == l && t.chain[j + 1] == r
    && l in t.pages && r in t.pages && l != r
    && t'.pages.Keys == t.pages.Keys - {r} && t'.spans.Keys == t'.pages.Keys && t.spans.Keys == t.pages.Keys
    && t'.chain == t.chain[..j + 1] + t.chain[j + 2..]
    && t'.first == t.first
    && t'.last == (if t.last == r then l else t.last)
    && t'.spans[l].lo == t.spans[l].lo && t'.spans[l].hi == t.spans[r].hi
    && (forall p :: p in t'.pages ==>
          && t'.pages[p].isLeaf == t.pages[p].isLeaf
          && (t.pages[p].isLeaf ==>
                && t'.pages[p].next == (if p == l then t.pages[r].next else t.pages[p].next)
                && t'.pages[p].prev == (if p == t.pages[r].next then l else t.pages[p].prev)
                && (p != l ==> t'.spans[p] == t.spans[p])))
  }

  lemma ChainRemoveLink(t: Tree, t': Tree, l: int, r: int, j: nat, i: nat)
    requires NodesOk(t) && ChainOk(t) && IsChainRemove(t, t', l, r, j)
    requires i < |t.chain| && i != j + 1
    ensures ChainLink(t', if i <= j then i else i - 1)
  {
    hide NodesOk;
    ChainDistinct(t);
    assert ChainLink(t, i) && ChainLink(t, j) && ChainLink(t, j + 1);
    if i > 0 { assert ChainLink(t, i - 1); }
    var k, p := if i <= j then i else i - 1, t.chain[i];
    assert |t'.chain| == |t.chain| - 1 && t'.chain[k] == p && p != r;
    assert k > 0 ==> t'.chain[k - 1] == if i == j + 2 then l else t.chain[i - 1];
    assert k + 1 < |t'.chain| ==> t'.chain[k + 1] == if i == j then t.chain[j + 2] else t.chain[i + 1];
  }

  lemma ChainRemoveOk(t: Tree, t': Tree, l: int, r: int, j: nat)
    requires NodesOk(t) && ChainOk(t) && IsChainRemove(t, t', l, r, j)
    ensures ChainOk(t')
  {
    hide NodesOk, ChainLink;
    forall i | 0 <= i < |t'.chain|
      ensures ChainLink(t', i)
    {
      ChainRemoveLink(t, t', l, r, j, if i <= j then i else i + 1);
    }
    ChainRemoveMembers(t, t', l, r, j);
    ChainDistinct(t);
  }

  lemma ChainRemoveMembers(t: Tree, t': Tree, l: int, r: int, j: nat)
    requires ChainOk(t) && IsChainRemove(t, t', l, r, j)
    ensures forall p :: p in t'.pages && t'.pages[p].isLeaf ==> p in t'.chain
  {
    hide ChainLink;
    forall p | p in t'.pages && t'.pages[p].isLeaf
      ensures p in t'.chain
    {
      var i :| 0 <= i < |t.chain| && t.chain[i] == p;
      assert t'.chain[if i <= j then i else i - 1] == p;
    }
  }
}
