/** The B+ tree indexes of one table, seen as one sequence of maps. */
module IndexSets {
  import opened IxNode
  import opened IxTree
  import opened IxHandle
  import opened IxZero

  type Handles = seq<IxIndexHandle>

  ghost predicate Distinct(handles: Handles) {
    forall i, j :: 0 <= i < j < |handles| ==> handles[i] != handles[j]
  }

  ghost predicate AllValid(handles: Handles)
    reads handles
  {
    forall i :: 0 <= i < |handles| ==> handles[i].Valid()
  }

  ghost predicate AllNoZero(handles: Handles)
    reads handles
  {
    forall i :: 0 <= i < |handles| ==> NoZero(handles[i].View())
  }

  ghost function Indexes(handles: Handles): seq<map<Key, Rid>>
    reads handles
  {
    seq(|handles|, i requires 0 <= i < |handles| reads handles => handles[i].entries)
  }

  /** `insert_entry` of a new key leaves a root that no operation can use. */
  ghost predicate Breaks(t: Tree, k: Key) {
    k !in t.entries && SplitsAtZero(t, k)
  }

  /** `insert_entry` throws: the key is present, or it is promoted as a zero separator. */
  ghost predicate Refuses(ih: IxIndexHandle, k: Key)
    reads ih
  {
    k in ih.entries || Breaks(ih.View(), k)
  }

  /** A tree with these entries. */
  ghost predicate Holds(t: Tree, entries: map<Key, Rid>) {
    t.entries == entries && (t.root != NO_PAGE ==> Legal(t)) && (t.root == NO_PAGE ==> entries == map[])
  }

  lemma ValidHolds(handles: Handles, i: nat)
    requires AllValid(handles) && i < |handles|
    ensures Holds(handles[i].View(), Indexes(handles)[i])
  {
    hide Legal;
  }

  lemma EntriesNoZero(handles: Handles)
    requires AllNoZero(handles)
    ensures forall i :: 0 <= i < |handles| ==> ZERO_KEY !in Indexes(handles)[i]
  {
    hide Legal;
  }

  lemma SameLength(handles: Handles)
    ensures |Indexes(handles)| == |handles|
  {
  }

  lemma BrokenIndex(handles: Handles, i: nat)
    requires i < |handles| && !handles[i].Valid()
    ensures !AllValid(handles)
  {
  }

  /** `insert_entry` on one of the indexes. */
  method PutKey(handles: Handles, i: nat, k: Key, r: Rid) returns (out: InsertOutcome)
    requires Distinct(handles) && AllValid(handles) && i < |handles|
    modifies handles[i]
    ensures out.Exists? <==> k in old(Indexes(handles))[i]
    ensures out.Inserted? <==> !old(Refuses(handles[i], k))
    ensures out.ZeroSeparator? <==> old(Breaks(handles[i].View(), k))
    ensures !out.ZeroSeparator? ==> AllValid(handles)
    ensures out.Inserted? ==> Indexes(handles) == old(Indexes(handles))[i := old(Indexes(handles))[i][k := r]]
    ensures out.Exists? ==> Indexes(handles) == old(Indexes(handles))
    ensures out.ZeroSeparator? ==> !handles[i].Valid() && !AllValid(handles)
    ensures out.ZeroSeparator? ==> |Indexes(handles)| == |handles| && forall j :: 0 <= j < |handles| && j != i ==>
              Indexes(handles)[j] == old(Indexes(handles))[j]
    ensures forall j :: 0 <= j < |handles| && j != i ==> unchanged(handles[j])
    ensures old(AllNoZero(handles)) && k != ZERO_KEY ==> !out.ZeroSeparator? && AllNoZero(handles)
  {
    hide NoZero, Legal, SplitsAtZero;
    out := handles[i].InsertEntry(k, r);
    if out.ZeroSeparator? { BrokenIndex(handles, i); }
    assert !out.ZeroSeparator? ==> Indexes(handles) == old(Indexes(handles))[i := handles[i].entries];
  }

  /** `delete_entry` of a key that one of the indexes has. */
  method DropKey(handles: Handles, i: nat, k: Key, front: Front)
    requires Distinct(handles) && AllValid(handles) && i < |handles| && k in Indexes(handles)[i]
    modifies handles[i]
    ensures AllValid(handles)
    ensures Indexes(handles) == old(Indexes(handles))[i := old(Indexes(handles))[i] - {k}]
    ensures forall j :: 0 <= j < |handles| && j != i ==> unchanged(handles[j])
    ensures old(AllNoZero(handles)) ==> AllNoZero(handles)
  {
    hide NoZero, Legal, Misreads;
    var out := handles[i].DeleteEntry(k, front);
    assert Indexes(handles) == old(Indexes(handles))[i := handles[i].entries];
  }
}
