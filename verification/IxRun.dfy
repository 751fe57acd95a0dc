/** Whole runs of an index against a plain map, and the insertion that the code refuses
    although the key is new. */
module IxRun {
  import opened IxNode
  import opened IxTree
  import opened IxHeight
  import opened IxInsert
  import opened IxHandle
  import opened IxZero

  datatype Op = Insert(key: Key, rid: Rid) | Delete(key: Key)

  ghost function Apply(m: map<Key, Rid>, op: Op): map<Key, Rid> {
    match op
    case Insert(k, r) => if k in m then m else m[k := r]
    case Delete(k) => m - {k}
  }

  ghost function ApplyAll(m: map<Key, Rid>, ops: seq<Op>): map<Key, Rid> {
    if ops == [] then m else Apply(ApplyAll(m, ops[..|ops| - 1]), ops[|ops| - 1])
  }

  /** The engine deletes only keys it has inserted. */
  ghost predicate DeletesPresent(m: map<Key, Rid>, ops: seq<Op>) {
    forall i :: 0 <= i < |ops| && ops[i].Delete? ==> ops[i].key in ApplyAll(m, ops[..i])
  }

  /** No operation of the run inserts the all-zero key. */
  ghost predicate NeverZero(ops: seq<Op>) {
    forall i :: 0 <= i < |ops| && ops[i].Insert? ==> ops[i].key != ZERO_KEY
  }

  /** Every run keeps the index valid and equal to the map under the same operations, up
      to the first insertion that fails on a zero separator or the first deletion of an
      absent key that is misread. There is none as long as the all-zero key is never
      inserted and only present keys are deleted. */
  method Run(ih: IxIndexHandle, ops: seq<Op>, front: Front) returns (n: nat, failed: bool)
    requires ih.Valid()
    modifies ih
    ensures n <= |ops| && (failed <==> n < |ops|)
    ensures !failed ==> ih.Valid() && ih.entries == ApplyAll(old(ih.entries), ops)
    ensures failed ==> ops[n].key !in ApplyAll(old(ih.entries), ops[..n])
    ensures old(NoZero(ih.View())) && NeverZero(ops) && DeletesPresent(old(ih.entries), ops) ==> !failed
    ensures old(NoZero(ih.View())) && NeverZero(ops) && !failed ==> NoZero(ih.View())
  {
    hide Structured, SizesOkExcept, NoZero, Misreads;
    ghost var m := ih.entries;
    n, failed := 0, false;
    while n < |ops|
      invariant n <= |ops| && ih.Valid() && ih.entries == ApplyAll(m, ops[..n])
      invariant old(NoZero(ih.View())) && NeverZero(ops) ==> NoZero(ih.View())
      decreases |ops| - n
    {
      assert ops[..n + 1][..n] == ops[..n];
      match ops[n] {
        case Insert(k, r) =>
          var out := ih.InsertEntry(k, r);
          if out.ZeroSeparator? {
            return n, true;
          }
        case Delete(k) =>
          var out := ih.DeleteEntry(k, front);
          if out.Misread? {
            return n, true;
          }
      }
      n := n + 1;
    }
    assert ops[..n] == ops;
  }

  /** A root leaf of order 6 that holds -3, -2, -1, 1, 2, 3. */
  function AroundZero(): Node {
    Node(true, 6, [-3, -2, -1, 1, 2, 3, ZERO_KEY], seq(7, _ => Rid(1, 0)), NO_PAGE, 3, 3)
  }

  ghost function TreeAroundZero(): Tree {
    Tree(6, map[3 := AroundZero()], 3, 3, 3, map[3 := Span(NegInf, PosInf, 0)], [3],
         map[-3 := Rid(1, 0), -2 := Rid(1, 0), -1 := Rid(1, 0), 1 := Rid(1, 0), 2 := Rid(1, 0), 3 := Rid(1, 0)])
  }

  /** In a legal index without the key 0, inserting 0 promotes it out of the root, which
      the comparison with the new root's zeroed slot takes for a duplicate. */
  lemma ZeroSeparatorHappens()
    ensures var t := TreeAroundZero();
            && Legal(t) && 0 !in t.entries
            && InSpan(t.spans[t.root], 0) && t.pages[t.root].num == t.order
            && PromotesZero(t, t.root, Promoted(t.pages[t.root], 0, Mid(t.order)))
  {
    hide Structured, SizesOkExcept;
    LegalAroundZero();
    assert Promoted(AroundZero(), 0, 3) == 0;
  }

  lemma LegalAroundZero()
    ensures Legal(TreeAroundZero())
  {
    hide LeafOk, ChainLink;
    var t := TreeAroundZero();
    LeafAroundZero();
    assert ChainOk(t) by { ChainAroundZero(); }
    assert t.pages.Keys == {3};
  }

  lemma LeafAroundZero()
    ensures LeafOk(AroundZero(), Span(NegInf, PosInf, 0), TreeAroundZero().entries)
  {
    var n, m := AroundZero(), TreeAroundZero().entries;
    assert n.keys[..6] == [-3, -2, -1, 1, 2, 3];
    assert forall k :: k in m ==> k in n.keys[..6];
  }

  lemma ChainAroundZero()
    ensures ChainLink(TreeAroundZero(), 0)
  {
  }

  /** In an index over one INT column a deletion is misread exactly when the key is the page
      number of the leaf that follows the responsible one in key order, or of the first leaf
      after the last, and above all keys of the responsible one. */
  lemma MisreadIff(t: Tree, k: Key)
    requires Legal(t)
    ensures Misreads(t, k, IntFront) <==>
            exists i :: 0 <= i < |t.chain| && MisreadAfter(t, i, k)
  {
    hide KidsOk, ParentsOk, RootOk, EntriesOk, SizesOkExcept;
    if Misreads(t, k, IntFront) {
      var p :| p in t.pages && t.pages[p].isLeaf && InSpan(t.spans[p], k)
               && t.pages[p].num <= |t.pages[p].keys| && InsertPoint(t.pages[p], k, t.pages[p].num)
               && IntFront(t.pages[p]) == k;
      var i :| 0 <= i < |t.chain| && t.chain[i] == p;
      assert ChainLink(t, i) && MisreadAfter(t, i, k);
    }
    if i :| 0 <= i < |t.chain| && MisreadAfter(t, i, k) {
      assert ChainLink(t, i);
      var p := t.chain[i];
      assert NodeOk(t.pages[p], t.spans[p]);
      assert InsertPoint(t.pages[p], k, t.pages[p].num);
    }
  }

  ghost predicate MisreadAfter(t: Tree, i: nat, k: Key)
    requires i < |t.chain|
  {
    var p := t.chain[i];
    && p in t.pages && p in t.spans && InSpan(t.spans[p], k) && KeysBelow(t.pages[p], k)
    && k == t.chain[if i + 1 == |t.chain| then 0 else i + 1]
  }

  /** An index over one INT column with a single leaf: deleting the absent key that is
      equal to the leaf's page number is misread as deleting slot -1. */
  lemma MisreadHappens(order: nat, c: int, k: Key, r: Rid)
    requires 6 <= order && 0 <= c && k < c
    ensures var n := InsertAt(Fresh(order).(isLeaf := true, parent := NO_PAGE, next := c, prev := c), 0, k, r);
            var t := Tree(order, map[c := n], c, c, c, map[c := Span(NegInf, PosInf, 0)], [c], map[k := r]);
            Legal(t) && c !in t.entries && Misreads(t, c, IntFront)
  {
    hide Structured, SizesOkExcept;
    var n := InsertAt(Fresh(order).(isLeaf := true, parent := NO_PAGE, next := c, prev := c), 0, k, r);
    SingleLeafLegal(order, c, n, k, r);
  }
}
