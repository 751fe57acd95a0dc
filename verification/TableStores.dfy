/** A table's records together with its B+ tree indexes: the insert, delete and update
    executors and the rollback of a transaction. */
module TableStores {
  import opened Defs
  import opened IxNode
  import opened IxTree
  import opened IxHandle
  import opened IxZero
  import opened IndexSets
  import opened TableWrites

  /** How an update ends. `Refused` has run the whole restore loop; `Stuck` is the same
      exception raised again inside that loop; `Broken` has left the index with a root
      that no operation can use. */
  datatype UpdateOutcome = Done | Refused(index: nat) | Stuck(index: nat) | Broken(index: nat)

  /** The record has the all-zero key in no index. */
  ghost predicate NonZero(keys: KeyFns, rec: Bytes) {
    forall i :: 0 <= i < |keys| ==> keys[i](rec) != ZERO_KEY
  }

  /** The record that the rollback of a deletion or an update puts back. */
  function PutBack(w: Write): Bytes
    requires !w.Inserted?
  {
    if w.Deleted? then w.rec else w.prior
  }

  // The trees into which keys are put

  /** Putting the keys of a record into the trees breaks one of them. */
  ghost predicate BreaksOne(trees: seq<Tree>, keys: KeyFns, rec: Bytes) {
    exists j :: 0 <= j < |trees| && j < |keys| && Breaks(trees[j], keys[j](rec))
  }

  /** The trees are those of the first indexes. */
  ghost predicate Holding(trees: seq<Tree>, indexes: seq<map<Key, Rid>>) {
    |trees| <= |indexes| && forall j :: 0 <= j < |trees| ==> Holds(trees[j], indexes[j])
  }

  /** The indexes without the keys of the record. */
  function Minus(indexes: seq<map<Key, Rid>>, keys: KeyFns, rec: Bytes): seq<map<Key, Rid>>
    requires |indexes| == |keys|
  {
    seq(|keys|, j requires 0 <= j < |keys| => indexes[j] - {keys[j](rec)})
  }

  /** The indexes when index `i` refuses the new key of an update. */
  function Halfway(indexes: seq<map<Key, Rid>>, keys: KeyFns, w: Write, i: int): seq<map<Key, Rid>>
    requires |indexes| == |keys| && w.Updated?
  {
    seq(|keys|, j requires 0 <= j < |keys| =>
      if j < i then Changed(indexes[j], keys[j], w)
      else if j == i then indexes[j] - {keys[j](w.prior)}
      else indexes[j])
  }

  /** What the rollback of a write leaves of the indexes before it puts keys back. */
  function Emptied(indexes: seq<map<Key, Rid>>, keys: KeyFns, w: Write): seq<map<Key, Rid>>
    requires |indexes| == |keys|
  {
    if w.Deleted? then indexes else Minus(indexes, keys, w.rec)
  }

  /** The rollback of the write breaks one of the trees. */
  ghost predicate UndoBreaks(trees: seq<Tree>, keys: KeyFns, w: Write) {
    !w.Inserted? && BreaksOne(trees, keys, PutBack(w))
  }

  /** `trees[k]` are the trees into which the rollback of the `k`-th last write puts keys. */
  ghost predicate Undoing(trees: seq<seq<Tree>>, states: seq<State>, keys: KeyFns, ws: seq<Write>)
    requires |states| == |ws| + 1
  {
    |trees| <= |ws| && forall k :: 0 <= k < |trees| ==> Ready(trees[k], states[|ws| - k], keys, ws[|ws| - 1 - k])
  }

  ghost predicate Ready(trees: seq<Tree>, s: State, keys: KeyFns, w: Write) {
    |s.indexes| == |keys| && Holding(trees, Emptied(s.indexes, keys, w))
  }

  ghost predicate AbortBreaks(trees: seq<seq<Tree>>, keys: KeyFns, ws: seq<Write>) {
    exists k :: 0 <= k < |trees| && k < |ws| && UndoBreaks(trees[k], keys, ws[|ws| - 1 - k])
  }

  lemma NoTrees(keys: KeyFns)
    ensures forall indexes :: Holding([], indexes)
    ensures forall rec :: !BreaksOne([], keys, rec)
  {
  }

  lemma NoUndo(indexes: seq<map<Key, Rid>>, keys: KeyFns, w: Write)
    requires |indexes| == |keys|
    ensures Holding([], Emptied(indexes, keys, w)) && !UndoBreaks([], keys, w)
  {
  }

  lemma OneMore(trees: seq<Tree>, t: Tree, indexes: seq<map<Key, Rid>>, keys: KeyFns, rec: Bytes)
    requires Holding(trees, indexes) && |trees| < |indexes| == |keys| && Holds(t, indexes[|trees|])
    ensures Holding(trees + [t], indexes)
    ensures BreaksOne(trees + [t], keys, rec) <==> BreaksOne(trees, keys, rec) || Breaks(t, keys[|trees|](rec))
  {
    hide Holds, Breaks;
    var more := trees + [t];
    assert more[|trees|] == t && forall j :: 0 <= j < |trees| ==> more[j] == trees[j];
  }

  lemma UndoMore(trees: seq<Tree>, t: Tree, indexes: seq<map<Key, Rid>>, keys: KeyFns, w: Write)
    requires |trees| < |indexes| == |keys| && Holding(trees, Emptied(indexes, keys, w))
    requires var index := indexes[|trees|]; Holds(t, if w.Deleted? then index else index - {keys[|trees|](w.rec)})
    ensures Holding(trees + [t], Emptied(indexes, keys, w))
    ensures UndoBreaks(trees + [t], keys, w) <==>
            UndoBreaks(trees, keys, w) || (!w.Inserted? && Breaks(t, keys[|trees|](PutBack(w))))
  {
    hide Holding, BreaksOne, Breaks, Holds;
    OneMore(trees, t, Emptied(indexes, keys, w), keys, if w.Inserted? then w.rec else PutBack(w));
  }

  lemma NothingUndone(states: seq<State>, keys: KeyFns, ws: seq<Write>)
    requires |states| == |ws| + 1
    ensures Undoing([], states, keys, ws) && !AbortBreaks([], keys, ws)
  {
  }

  lemma UndoingMore(trees: seq<seq<Tree>>, last: seq<Tree>, states: seq<State>, keys: KeyFns, ws: seq<Write>)
    requires |states| == |ws| + 1 && |trees| < |ws| && Undoing(trees, states, keys, ws)
    requires Ready(last, states[|ws| - |trees|], keys, ws[|ws| - 1 - |trees|])
    ensures Undoing(trees + [last], states, keys, ws)
    ensures AbortBreaks(trees + [last], keys, ws) <==>
            AbortBreaks(trees, keys, ws) || UndoBreaks(last, keys, ws[|ws| - 1 - |trees|])
  {
    hide UndoBreaks, Ready;
    var more := trees + [last];
    assert more[|trees|] == last && forall k :: 0 <= k < |trees| ==> more[k] == trees[k];
    if k :| 0 <= k < |trees| && UndoBreaks(trees[k], keys, ws[|ws| - 1 - k]) {
      assert UndoBreaks(more[k], keys, ws[|ws| - 1 - k]);
    }
    if UndoBreaks(last, keys, ws[|ws| - 1 - |trees|]) {
      assert UndoBreaks(more[|trees|], keys, ws[|ws| - 1 - |trees|]);
    }
  }

  /** Which of the indexes refuse their key of the record. */
  ghost function Refusals(handles: Handles, keys: KeyFns, rec: Bytes): seq<bool>
    requires |handles| == |keys|
    reads handles
  {
    seq(|handles|, i requires 0 <= i < |handles| reads handles => Refuses(handles[i], keys[i](rec)))
  }

  /** The first refusal, or -1 when there is none. */
  ghost predicate IsFirst(refusals: seq<bool>, i: int) {
    && -1 <= i < |refusals| && (i == -1 <==> forall j :: 0 <= j < |refusals| ==> !refusals[j])
    && (i >= 0 ==> refusals[i]) && forall j :: 0 <= j < i ==> !refusals[j]
  }

  ghost predicate NoZeroKeys(states: seq<State>) {
    forall n, i :: 0 <= n < |states| && 0 <= i < |states[n].indexes| ==> ZERO_KEY !in states[n].indexes[i]
  }

  class TableStore {
    const keys: KeyFns
    const handles: Handles
    /** What the bytes in front of a page's key array spell. */
    const front: Front
    var records: map<Rid, Bytes>
    var writeSet: seq<Write>
    /** The states of this transaction, from its begin to now. */
    ghost var states: seq<State>

    ghost function View(): State
      reads this, handles
    {
      State(records, Indexes(handles))
    }

    /** The indexes can be used and are exactly the maps from keys to positions. */
    ghost predicate Sound()
      reads this, handles
    {
      AllValid(handles) && Consistent(View(), keys)
    }

    ghost predicate Valid()
      reads this, handles
    {
      && |handles| == |keys| && Distinct(handles) && AllValid(handles)
      && Trail(states, writeSet, keys) && states[|writeSet|] == View()
    }

    /** The all-zero key has not been used in this transaction, and no index has it. */
    ghost predicate Zeroless()
      reads this, handles
    {
      AllNoZero(handles) && NoZeroKeys(states)
    }

    /** A table without records. */
    constructor (keys: KeyFns, handles: Handles, front: Front)
      requires |handles| == |keys| && Distinct(handles) && AllValid(handles)
      requires Indexes(handles) == seq(|keys|, _ => map[])
      ensures Valid() && records == map[] && writeSet == [] && this.keys == keys && this.handles == handles
      ensures AllNoZero(handles) ==> Zeroless()
    {
      hide AllNoZero, AllValid;
      this.keys, this.handles, this.front := keys, handles, front;
      records, writeSet := map[], [];
      states := [State(map[], Indexes(handles))];
    }

    /** `commit` empties the write set. */
    method Commit()
      requires Valid()
      modifies this`writeSet, this`states
      ensures Valid() && writeSet == [] && states == [View()]
      ensures old(Zeroless()) ==> Zeroless()
    {
      hide Consistent, Wrote, AllValid, AllNoZero;
      writeSet, states := [], [View()];
    }

    /** Puts the keys of a record into the indexes up to the first one that refuses. */
    method PutAll(rid: Rid, rec: Bytes) returns (failed: int)
      requires |handles| == |keys| && Distinct(handles) && AllValid(handles)
      modifies handles
      ensures -1 <= failed < |handles| == |Indexes(handles)| == |old(Indexes(handles))|
      ensures IsFirst(old(Refusals(handles, keys, rec)), failed)
      ensures forall j :: 0 <= j < |handles| && (failed == -1 || j < failed) ==>
                && keys[j](rec) !in old(Indexes(handles))[j]
                && Indexes(handles)[j] == old(Indexes(handles))[j][keys[j](rec) := rid]
      ensures forall j :: 0 <= failed < j < |handles| ==> Indexes(handles)[j] == old(Indexes(handles))[j]
      ensures failed == -1 ==> AllValid(handles)
      ensures failed >= 0 ==> (AllValid(handles) <==> keys[failed](rec) in old(Indexes(handles))[failed])
      ensures failed >= 0 && AllValid(handles) ==> Indexes(handles)[failed] == old(Indexes(handles))[failed]
      ensures old(AllNoZero(handles)) && NonZero(keys, rec) ==>
                AllNoZero(handles) && (failed >= 0 ==> AllValid(handles))
    {
      hide AllValid, AllNoZero, Indexes, Refuses, IxIndexHandle.Valid;
      SameLength(handles);
      for i := 0 to |handles|
        invariant AllValid(handles) && |Indexes(handles)| == |handles|
        invariant old(AllNoZero(handles)) && NonZero(keys, rec) ==> AllNoZero(handles)
        invariant forall j :: 0 <= j < i ==> Indexes(handles)[j] == old(Indexes(handles))[j][keys[j](rec) := rid]
        invariant forall j :: 0 <= j < i ==> keys[j](rec) !in old(Indexes(handles))[j]
        invariant forall j :: 0 <= j < i ==> !old(Refusals(handles, keys, rec))[j]
        invariant forall j :: i <= j < |handles| ==>
                    unchanged(handles[j]) && Indexes(handles)[j] == old(Indexes(handles))[j]
      {
        assert Refuses(handles[i], keys[i](rec)) == old(Refusals(handles, keys, rec))[i];
        var out := PutKey(handles, i, keys[i](rec), rid);
        if !out.Inserted? {
          return i;
        }
      }
      failed := -1;
    }

    /** Inserts a record at a position that is free. The first index that refuses its key
        makes the insertion fail: the record is taken back, but the indexes before the
        failing one keep its key. So the table is as before exactly when the first index
        has the key. */
    method Insert(rid: Rid, rec: Bytes) returns (failed: int)
      requires Valid() && rid !in records
      modifies this, handles
      ensures -1 <= failed < |handles| == |keys| == |Indexes(handles)| == |old(Indexes(handles))|
      ensures IsFirst(old(Refusals(handles, keys, rec)), failed)
      ensures failed == -1 ==> Valid() && states == old(states) + [View()]
      ensures failed == -1 ==> Wrote(old(View()), Write.Inserted(rid, rec), View(), keys)
      ensures failed >= 0 ==> records == old(records) && writeSet == old(writeSet) && states == old(states)
      ensures forall j :: 0 <= j < failed ==> Indexes(handles)[j] == old(Indexes(handles))[j][keys[j](rec) := rid]
      ensures failed >= 0 ==> (Sound() <==> keys[0](rec) in old(Indexes(handles))[0])
      ensures failed >= 0 && Sound() ==> Valid() && View() == old(View())
      ensures old(Zeroless()) && NonZero(keys, rec) ==>
                if failed == -1 then Zeroless() else keys[failed](rec) in old(Indexes(handles))[failed]
    {
      hide Consistent, Trail, Wrote, Distinct, AllValid, AllNoZero, Indexes, Refuses, IxIndexHandle.Valid, NonZero,
        IsFirst, Refusals;
      ghost var s := View();
      StateOk(states, writeSet, keys);
      var w := Write.Inserted(rid, rec);
      records := records[rid := rec];
      writeSet := writeSet + [w];
      failed := PutAll(rid, rec);
      if failed >= 0 {
        Removed(s.records, rid, rec);
        records := records - {rid};
        writeSet := writeSet[..|writeSet| - 1];
        InsertFailed(s, View(), keys, rid, rec, failed);
        return;
      }
      WroteAll(s, View(), keys, w);
      TrailMore(states, old(writeSet), keys, w, View());
      states := states + [View()];
      if AllNoZero(handles) { EntriesNoZero(handles); }
    }

    method Delete(rid: Rid)
      requires Valid() && rid in records
      modifies this, handles
      ensures Valid() && states == old(states) + [View()]
      ensures Wrote(old(View()), Write.Deleted(rid, old(records)[rid]), View(), keys)
      ensures old(Zeroless()) ==> Zeroless()
    {
      hide Consistent, Trail, AllValid, AllNoZero, Indexes;
      ghost var s, good := View(), Zeroless();
      StateOk(states, writeSet, keys);
      var w := Write.Deleted(rid, records[rid]);
      records := records - {rid};
      writeSet := writeSet + [w];
      for i := 0 to |handles|
        invariant writeSet == old(writeSet) + [w] && states == old(states) && records == s.records - {rid}
        invariant AllValid(handles) && (good ==> AllNoZero(handles)) && |Indexes(handles)| == |handles|
        invariant forall j :: 0 <= j < i ==> Indexes(handles)[j] == s.indexes[j] - {keys[j](w.rec)}
        invariant forall j :: i <= j < |handles| ==> Indexes(handles)[j] == s.indexes[j]
      {
        KeyPresent(s, keys, rid, i);
        DropKey(handles, i, keys[i](w.rec), front);
      }
      TrailMore(states, old(writeSet), keys, w, View());
      states := states + [View()];
      if good { EntriesNoZero(handles); }
    }

    /** Updates a record. An index that has the new key makes the update fail. The restore
        loop then puts the old key back into the indexes seen so far and does not take the
        new one out, so that the table is as before exactly when the first index fails.
        An index breaks exactly when its tree splits at zero: `dropped` are the trees
        without the old key, and `restored` those into which it is put back. */
    method Update(rid: Rid, rec: Bytes)
      returns (out: UpdateOutcome, ghost dropped: seq<Tree>, ghost restored: seq<Tree>)
      requires Valid() && rid in records
      modifies this, handles
      ensures |handles| == |keys| == |old(Indexes(handles))| && (!out.Done? ==> out.index < |handles|)
      ensures out.Done? ==> Valid() && states == old(states) + [View()]
      ensures out.Done? ==> Wrote(old(View()), Updated(rid, rec, old(records)[rid]), View(), keys)
      ensures !out.Done? ==> records == old(records) && writeSet == old(writeSet) && states == old(states)
      ensures out.Refused? || out.Stuck? ==>
                !NoClash(old(Indexes(handles))[out.index], keys[out.index], Updated(rid, rec, old(records)[rid]))
      ensures out.Refused? || out.Stuck? ==> forall j :: 0 <= j < out.index ==>
                NoClash(old(Indexes(handles))[j], keys[j], Updated(rid, rec, old(records)[rid]))
      ensures out.Stuck? ==> exists j :: 0 <= j < out.index && keys[j](rec) == keys[j](old(records)[rid])
      ensures out.Refused? ==> forall j :: 0 <= j < out.index ==> keys[j](rec) != keys[j](old(records)[rid])
      ensures out.Broken? ==> !handles[out.index].Valid()
      ensures Holding(dropped, Minus(old(Indexes(handles)), keys, old(records)[rid]))
      ensures var w := Updated(rid, rec, old(records)[rid]);
              Holding(restored, Halfway(old(Indexes(handles)), keys, w, |dropped| - 1))
      ensures out.Broken? <==> BreaksOne(dropped, keys, rec) || BreaksOne(restored, keys, old(records)[rid])
      ensures out.Broken? ==> out.index == (if restored == [] then |dropped| else |restored|) - 1
      ensures out.Done? ==> |dropped| == |handles|
      ensures !out.Done? ==> (Sound() <==> !out.Broken? && out.index == 0)
      ensures !out.Done? && Sound() ==> Valid() && View() == old(View())
      ensures old(Zeroless()) && NonZero(keys, rec) ==> !out.Broken? && (out.Done? ==> Zeroless())
    {
      hide Consistent, Trail, Wrote, Distinct, AllValid, AllNoZero, Indexes, Refuses, IxIndexHandle.Valid,
        Holding, BreaksOne, Breaks, Holds;
      ghost var s, good := View(), Zeroless() && NonZero(keys, rec);
      StateOk(states, writeSet, keys);
      var w := Updated(rid, rec, records[rid]);
      if good { PriorNonZero(s, keys, rid); }
      NoTrees(keys);
      restored := [];
      var failed, broken;
      failed, broken, dropped := MoveAll(w, s, good);
      if broken {
        out := Broken(failed);
        return;
      }
      if failed >= 0 {
        out, restored := Restore(failed, rid, w, s, good);
        return;
      }
      records := records[rid := rec];
      writeSet := writeSet + [w];
      WroteAll(s, View(), keys, w);
      TrailMore(states, old(writeSet), keys, w, View());
      states := states + [View()];
      if good { EntriesNoZero(handles); }
      out := Done;
    }

    /** Moves the keys of an updated record up to the first index that refuses. */
    method MoveAll(w: Write, ghost s: State, ghost good: bool)
      returns (failed: int, broken: bool, ghost dropped: seq<Tree>)
      requires |handles| == |keys| && Distinct(handles) && AllValid(handles) && Indexes(handles) == s.indexes
      requires w.Updated? && Consistent(s, keys) && w.rid in s.records && s.records[w.rid] == w.prior
      requires good ==> AllNoZero(handles) && NonZero(keys, w.rec)
      modifies handles
      ensures -1 <= failed < |handles| == |Indexes(handles)| == |s.indexes|
      ensures Holding(dropped, Minus(s.indexes, keys, w.prior)) && (broken <==> BreaksOne(dropped, keys, w.rec))
      ensures |dropped| == if failed == -1 then |handles| else failed + 1
      ensures if broken then failed >= 0 && !handles[failed].Valid() && !AllValid(handles) else AllValid(handles)
      ensures failed >= 0 && !broken ==>
                && !NoClash(s.indexes[failed], keys[failed], w)
                && Indexes(handles)[failed] == s.indexes[failed] - {keys[failed](w.prior)}
      ensures forall j :: 0 <= j < |handles| && (failed == -1 || j < failed) ==> NoClash(s.indexes[j], keys[j], w)
      ensures forall j :: !broken && 0 <= j < |handles| && (failed == -1 || j < failed) ==>
                Indexes(handles)[j] == Changed(s.indexes[j], keys[j], w)
      ensures forall j :: !broken && 0 <= failed < j < |handles| ==> Indexes(handles)[j] == s.indexes[j]
      ensures good ==> !broken && AllNoZero(handles)
    {
      hide Consistent, Distinct, AllValid, AllNoZero, Indexes, IxIndexHandle.Valid, Holding, BreaksOne, Breaks, Holds,
        Changed, NoClash;
      SameLength(handles);
      NoTrees(keys);
      dropped := [];
      for i := 0 to |handles|
        invariant |dropped| == i && Holding(dropped, Minus(s.indexes, keys, w.prior))
        invariant !BreaksOne(dropped, keys, w.rec)
        invariant AllValid(handles) && (good ==> AllNoZero(handles)) && |Indexes(handles)| == |handles|
        invariant forall j :: 0 <= j < i ==> NoClash(s.indexes[j], keys[j], w)
        invariant forall j :: 0 <= j < i ==> Indexes(handles)[j] == Changed(s.indexes[j], keys[j], w)
        invariant forall j :: i <= j < |handles| ==> Indexes(handles)[j] == s.indexes[j]
      {
        KeyPresent(s, keys, w.rid, i);
        ghost var tree;
        var moved;
        moved, tree := MoveKey(i, w);
        OneMore(dropped, tree, Minus(s.indexes, keys, w.prior), keys, w.rec);
        dropped := dropped + [tree];
        if !moved.Inserted? {
          return i, moved.ZeroSeparator?, dropped;
        }
      }
      return -1, false, dropped;
    }

    /** Takes the old key out of one index and puts the new one in. */
    method MoveKey(i: nat, w: Write) returns (out: InsertOutcome, ghost t: Tree)
      requires |handles| == |keys| && Distinct(handles) && AllValid(handles) && i < |handles| && w.Updated?
      requires keys[i](w.prior) in Indexes(handles)[i]
      modifies handles
      ensures |Indexes(handles)| == |handles| == |old(Indexes(handles))|
      ensures Holds(t, old(Indexes(handles))[i] - {keys[i](w.prior)})
      ensures out.ZeroSeparator? <==> Breaks(t, keys[i](w.rec))
      ensures out.Exists? <==> !NoClash(old(Indexes(handles))[i], keys[i], w)
      ensures !out.ZeroSeparator? ==> AllValid(handles)
      ensures out.Exists? ==>
                Indexes(handles) == old(Indexes(handles))[i := old(Indexes(handles))[i] - {keys[i](w.prior)}]
      ensures out.Inserted? ==>
                Indexes(handles) == old(Indexes(handles))[i := Changed(old(Indexes(handles))[i], keys[i], w)]
      ensures out.ZeroSeparator? ==> !handles[i].Valid() && !AllValid(handles)
      ensures old(AllNoZero(handles)) && keys[i](w.rec) != ZERO_KEY ==> !out.ZeroSeparator? && AllNoZero(handles)
    {
      hide AllValid, AllNoZero, Refuses, Breaks, Holds, IxIndexHandle.Valid;
      DropKey(handles, i, keys[i](w.prior), front);
      ValidHolds(handles, i);
      t := handles[i].View();
      out := PutKey(handles, i, keys[i](w.rec), w.rid);
    }

    /** The restore loop of an update that index `i` refused. */
    method Restore(i: nat, rid: Rid, w: Write, ghost s: State, ghost good: bool)
      returns (out: UpdateOutcome, ghost restored: seq<Tree>)
      requires |handles| == |keys| && Distinct(handles) && AllValid(handles) && (good ==> AllNoZero(handles))
      requires i < |handles| && w.Updated? && w.rid == rid && Consistent(s, keys) && |s.indexes| == |keys|
      requires rid in s.records && s.records[rid] == w.prior && records == s.records
      requires (good ==> NonZero(keys, w.prior))
      requires |Indexes(handles)| == |handles|
      requires forall j :: 0 <= j < i ==> Indexes(handles)[j] == Changed(s.indexes[j], keys[j], w)
      requires Indexes(handles)[i] == s.indexes[i] - {keys[i](w.prior)}
      requires forall j :: i < j < |handles| ==> Indexes(handles)[j] == s.indexes[j]
      modifies handles
      ensures !out.Done? && out.index < |handles| && (good ==> !out.Broken?)
      ensures out.Refused? || out.Stuck? ==> out.index == i
      ensures out.Stuck? ==> exists j :: 0 <= j < i && keys[j](w.rec) == keys[j](w.prior)
      ensures out.Refused? ==> forall j :: 0 <= j < i ==> keys[j](w.rec) != keys[j](w.prior)
      ensures out.Broken? ==> !handles[out.index].Valid()
      ensures restored != [] && Holding(restored, Halfway(s.indexes, keys, w, i))
      ensures out.Broken? <==> BreaksOne(restored, keys, w.prior)
      ensures out.Broken? ==> out.index == |restored| - 1
      ensures Sound() <==> !out.Broken? && i == 0
      ensures Sound() ==> View() == s
    {
      hide Consistent, Distinct, AllValid, AllNoZero, Indexes, Refuses, IxIndexHandle.Valid,
        Holding, BreaksOne, Breaks, Holds;
      restored := [];
      NoTrees(keys);
      for j := 0 to i + 1
        invariant |restored| == j && Holding(restored, Halfway(s.indexes, keys, w, i))
        invariant !BreaksOne(restored, keys, w.prior)
        invariant AllValid(handles) && (good ==> AllNoZero(handles)) && |Indexes(handles)| == |handles|
        invariant forall l :: 0 <= l < j && l < i ==> keys[l](w.prior) != keys[l](w.rec)
        invariant forall l :: 0 <= l < j && l < i ==>
                    Indexes(handles)[l] == Changed(s.indexes[l], keys[l], w)[keys[l](w.prior) := rid]
        invariant forall l :: j <= l < i ==> Indexes(handles)[l] == Changed(s.indexes[l], keys[l], w)
        invariant Indexes(handles)[i] == if j <= i then s.indexes[i] - {keys[i](w.prior)} else s.indexes[i]
        invariant forall l :: i < l < |handles| ==> Indexes(handles)[l] == s.indexes[l]
      {
        KeyPresent(s, keys, rid, j);
        ValidHolds(handles, j);
        OneMore(restored, handles[j].View(), Halfway(s.indexes, keys, w, i), keys, w.prior);
        restored := restored + [handles[j].View()];
        var inserted := PutKey(handles, j, keys[j](w.prior), rid);
        if inserted.ZeroSeparator? {
          out := Broken(j);
          return;
        }
        if inserted.Exists? {
          HalfRestored(s, View(), keys, rid, w.rec, i);
          out := Stuck(i);
          return;
        }
      }
      if i > 0 { HalfRestored(s, View(), keys, rid, w.rec, i); } else { assert View() == s; }
      out := Refused(i);
    }

    /** What the rollback of a write does to one index. */
    method RevertIndex(i: nat, w: Write) returns (ok: bool, ghost t: Tree)
      requires |handles| == |keys| && Distinct(handles) && AllValid(handles) && i < |handles|
      requires !w.Deleted? ==> keys[i](w.rec) in Indexes(handles)[i]
      requires w.Updated? ==> keys[i](w.prior) == keys[i](w.rec) || keys[i](w.prior) !in Indexes(handles)[i]
      modifies handles
      ensures ok ==> AllValid(handles) && |Indexes(handles)| == |handles| == |old(Indexes(handles))|
      ensures ok ==> Indexes(handles) == old(Indexes(handles))[i := Reverted(old(Indexes(handles))[i], keys[i], w)]
      ensures !ok ==> !AllValid(handles)
      ensures !ok <==> !w.Inserted? && Breaks(t, keys[i](PutBack(w)))
      ensures Holds(t, if w.Deleted? then old(Indexes(handles))[i] else old(Indexes(handles))[i] - {keys[i](w.rec)})
      ensures w.Deleted? ==> t == old(handles[i].View())
      ensures forall j :: 0 <= j < |handles| && j != i ==> unchanged(handles[j])
      ensures old(AllNoZero(handles)) && (w.Inserted? || keys[i](PutBack(w)) != ZERO_KEY) ==> ok && AllNoZero(handles)
    {
      hide AllValid, AllNoZero, Refuses, Breaks, Holds;
      ok := true;
      if !w.Deleted? {
        DropKey(handles, i, keys[i](w.rec), front);
      }
      ValidHolds(handles, i);
      t := handles[i].View();
      if !w.Inserted? {
        var inserted := PutKey(handles, i, keys[i](PutBack(w)), w.rid);
        ok := !inserted.ZeroSeparator?;
      }
    }

    /** Undoes the last write of the write set. Putting a key back breaks an index exactly
        when its tree splits at zero, so never when the all-zero key is not used. Of a
        deletion, these are the trees as they are before the call. */
    method UndoLast() returns (ok: bool, ghost trees: seq<Tree>)
      requires Valid() && writeSet != []
      modifies this, handles
      ensures |old(writeSet)| > 0 && |old(Indexes(handles))| == |keys|
      ensures Holding(trees, Emptied(old(Indexes(handles)), keys, old(writeSet)[|old(writeSet)| - 1]))
      ensures !ok <==> UndoBreaks(trees, keys, old(writeSet)[|old(writeSet)| - 1])
      ensures writeSet == old(writeSet)[..|old(writeSet)| - 1] && (ok ==> |trees| == |handles|)
      ensures old(writeSet)[|old(writeSet)| - 1].Deleted? ==>
                forall j :: 0 <= j < |trees| ==> trees[j] == old(handles[j].View())
      ensures ok ==>
                Valid() && |states| == |writeSet| + 1 == |old(writeSet)| && states == old(states)[..|old(writeSet)|]
      ensures !ok ==> !AllValid(handles)
      ensures old(Zeroless()) ==> ok && Zeroless()
    {
      hide Consistent, Trail, Reverted, Unstored, Wrote, AllValid, AllNoZero, Indexes, Holding, UndoBreaks, Emptied,
        Distinct;
      var n := |writeSet| - 1;
      var w := writeSet[n];
      StateOk(states, writeSet, keys);
      TrailLess(states, writeSet, keys);
      ghost var s, t, good := states[n], View(), Zeroless();
      UndoOk(s, t, w, keys);
      writeSet, states := writeSet[..n], states[..n + 1];
      if good { UndoNonZero(s, t, w, keys); }
      records := Unstored(records, w);
      ok, trees := UndoIndexes(w, s, t, good);
      assert ok ==> View() == s;
    }

    /** Undoes a write from `s` to `t` in the indexes. */
    method UndoIndexes(w: Write, ghost s: State, ghost t: State, ghost good: bool)
      returns (ok: bool, ghost trees: seq<Tree>)
      requires |handles| == |keys| && Distinct(handles) && AllValid(handles) && Indexes(handles) == t.indexes
      requires |s.indexes| == |t.indexes| == |keys| && Wrote(s, w, t, keys)
      requires forall i :: 0 <= i < |keys| ==> Reverted(t.indexes[i], keys[i], w) == s.indexes[i]
      requires good ==> AllNoZero(handles) && (!w.Inserted? ==> NonZero(keys, PutBack(w)))
      modifies handles
      ensures Holding(trees, Emptied(t.indexes, keys, w)) && (!ok <==> UndoBreaks(trees, keys, w))
      ensures w.Deleted? ==> forall j :: 0 <= j < |trees| ==> trees[j] == old(handles[j].View())
      ensures ok ==> |trees| == |handles| && AllValid(handles) && Indexes(handles) == s.indexes
      ensures !ok ==> !AllValid(handles)
      ensures good ==> ok && AllNoZero(handles)
    {
      hide Reverted, Wrote, AllValid, AllNoZero, Indexes, Holding, UndoBreaks, Breaks, Holds, Emptied, Distinct,
        IxIndexHandle.Valid;
      trees := [];
      NoUndo(t.indexes, keys, w);
      for i := 0 to |handles|
        invariant |trees| == i && Holding(trees, Emptied(t.indexes, keys, w)) && !UndoBreaks(trees, keys, w)
        invariant w.Deleted? ==> forall j :: 0 <= j < i ==> trees[j] == old(handles[j].View())
        invariant forall j :: i <= j < |handles| ==> unchanged(handles[j])
        invariant AllValid(handles) && (good ==> AllNoZero(handles)) && |Indexes(handles)| == |handles|
        invariant forall j :: 0 <= j < i ==> Indexes(handles)[j] == s.indexes[j]
        invariant forall j :: i <= j < |handles| ==> Indexes(handles)[j] == t.indexes[j]
      {
        UndoReady(s, t, w, keys, i);
        ghost var tree;
        ok, tree := RevertIndex(i, w);
        UndoMore(trees, tree, t.indexes, keys, w);
        trees := trees + [tree];
        if !ok {
          return;
        }
      }
      ok := true;
    }

    /** `abort`: undoes the writes from the last to the first, which brings the records and
        every index back to their state at begin. */
    method Abort() returns (ok: bool, ghost trees: seq<seq<Tree>>)
      requires Valid()
      modifies this, handles
      ensures |old(states)| == |old(writeSet)| + 1 && Undoing(trees, old(states), keys, old(writeSet))
      ensures !ok <==> AbortBreaks(trees, keys, old(writeSet))
      ensures ok ==> |trees| == |old(writeSet)|
      ensures ok ==> Valid() && writeSet == [] && old(states) != [] && View() == old(states)[0]
      ensures !ok ==> !AllValid(handles)
      ensures old(Zeroless()) ==> ok && Zeroless()
    {
      hide Consistent, Trail, AllValid, AllNoZero, Indexes, Undoing, AbortBreaks, UndoBreaks, Holding, Emptied;
      StateOk(states, writeSet, keys);
      NothingUndone(states, keys, writeSet);
      trees := [];
      while writeSet != []
        invariant |trees| + |writeSet| == |old(writeSet)| && writeSet == old(writeSet)[..|writeSet|]
        invariant Undoing(trees, old(states), keys, old(writeSet)) && !AbortBreaks(trees, keys, old(writeSet))
        invariant |states| <= |old(states)| && states == old(states)[..|states|]
        invariant Valid() && |states| == |writeSet| + 1 && states[0] == old(states)[0]
        invariant old(Zeroless()) ==> Zeroless()
        decreases |writeSet|
      {
        ghost var last;
        StateOk(states, writeSet, keys);
        ok, last := UndoLast();
        UndoingMore(trees, last, old(states), keys, old(writeSet));
        trees := trees + [last];
        if !ok {
          return;
        }
      }
      ok := true;
    }
  }

  lemma WroteAll(s: State, t: State, keys: KeyFns, w: Write)
    requires |s.indexes| == |t.indexes| == |keys| && Fits(s.records, w) && t.records == Stored(s.records, w)
    requires forall j :: 0 <= j < |keys| ==>
               NoClash(s.indexes[j], keys[j], w) && t.indexes[j] == Changed(s.indexes[j], keys[j], w)
    ensures Wrote(s, w, t, keys)
  {
  }

  lemma Removed(records: map<Rid, Bytes>, rid: Rid, rec: Bytes)
    requires rid !in records
    ensures records[rid := rec] - {rid} == records
  {
  }

  lemma InsertFailed(s: State, t: State, keys: KeyFns, rid: Rid, rec: Bytes, failed: nat)
    requires Consistent(s, keys) && |s.indexes| == |t.indexes| == |keys| && failed < |keys|
    requires rid !in s.records && t.records == s.records
    requires forall j :: 0 <= j < failed ==> t.indexes[j] == s.indexes[j][keys[j](rec) := rid]
    requires forall j :: failed < j < |keys| ==> t.indexes[j] == s.indexes[j]
    ensures failed > 0 ==> !Consistent(t, keys)
    ensures failed == 0 && t.indexes[0] == s.indexes[0] ==> t == s
  {
    hide Consistent;
    if failed > 0 { Dangling(s, t, keys, rid, rec, failed); }
    if failed == 0 && t.indexes[0] == s.indexes[0] { assert t.indexes == s.indexes; }
  }

  lemma PriorNonZero(s: State, keys: KeyFns, rid: Rid)
    requires Consistent(s, keys) && rid in s.records && forall i :: 0 <= i < |s.indexes| ==> ZERO_KEY !in s.indexes[i]
    ensures NonZero(keys, s.records[rid])
  {
    forall i | 0 <= i < |keys|
      ensures keys[i](s.records[rid]) != ZERO_KEY
    {
      KeyPresent(s, keys, rid, i);
    }
  }

  /** The keys that a rollback puts back are not zero. */
  lemma UndoNonZero(s: State, t: State, w: Write, keys: KeyFns)
    requires Consistent(s, keys) && Wrote(s, w, t, keys)
    requires forall i :: 0 <= i < |s.indexes| ==> ZERO_KEY !in s.indexes[i]
    ensures w.Deleted? ==> NonZero(keys, w.rec)
    ensures w.Updated? ==> NonZero(keys, w.prior)
  {
    hide Consistent;
    if !w.Inserted? { PriorNonZero(s, keys, w.rid); }
  }

  lemma UndoReady(s: State, t: State, w: Write, keys: KeyFns, i: nat)
    requires Wrote(s, w, t, keys) && i < |keys|
    ensures !w.Deleted? ==> keys[i](w.rec) in t.indexes[i]
    ensures w.Updated? ==> keys[i](w.prior) == keys[i](w.rec) || keys[i](w.prior) !in t.indexes[i]
  {
  }

  // Failures that leave the table inconsistent

  method EmptyTable(keys: KeyFns) returns (store: TableStore)
    requires |keys| == 2
    ensures fresh(store) && fresh(store.handles) && store.Valid() && store.Zeroless() && store.records == map[]
    ensures store.keys == keys && Indexes(store.handles) == [map[], map[]]
  {
    hide NoZeroKeys, IxIndexHandle.Valid, NoZero;
    var first := new IxIndexHandle(6);
    var second := new IxIndexHandle(6);
    store := new TableStore(keys, [first, second], IntFront);
  }

  /** The second index sees the same key in every record: the failed insertion leaves a
      key in the first index for a record that is gone. */
  method InsertLeavesKey() returns (store: TableStore, failed: int)
    ensures failed == 1 && |store.handles| == 2 && !store.Sound()
    ensures store.records == map[Rid(1, 0) := [5]]
    ensures Indexes(store.handles)[0] == map[1 := Rid(1, 0), 2 := Rid(1, 1)]
  {
    hide AllValid, AllNoZero, Refuses, Consistent, Trail, NoZeroKeys, Indexes, Refusals, Distinct, IxIndexHandle.Valid;
    var keys: KeyFns := [(b: Bytes) => |b|, (b: Bytes) => 1];
    assert keys[0]([5]) == 1 && keys[1]([5]) == 1 && keys[0]([5, 5]) == 2 && keys[1]([5, 5]) == 1;
    store := EmptyTable(keys);
    failed := store.Insert(Rid(1, 0), [5]);
    assert failed == -1;
    assert Indexes(store.handles) == [map[1 := Rid(1, 0)], map[1 := Rid(1, 0)]];
    failed := store.Insert(Rid(1, 1), [5, 5]);
  }

  /** The second index sees lengths modulo three: the update clashes there with the first
      record. */
  method UpdateLeavesKey() returns (store: TableStore, out: UpdateOutcome)
    ensures out == Refused(1) && |store.handles| == 2 && !store.Sound()
    ensures store.records == map[Rid(1, 0) := [5], Rid(1, 1) := [5, 5]]
  {
    hide AllValid, AllNoZero, Refuses, Consistent, Trail, NoZeroKeys, Indexes, Refusals, Distinct, IxIndexHandle.Valid;
    var keys: KeyFns := [(b: Bytes) => |b|, (b: Bytes) => |b| % 3 + 1];
    assert keys[0]([5]) == 1 && keys[1]([5]) == 2 && keys[0]([5, 5]) == 2 && keys[1]([5, 5]) == 3;
    store := EmptyTable(keys);
    var failed := store.Insert(Rid(1, 0), [5]);
    assert failed == -1 && Indexes(store.handles) == [map[1 := Rid(1, 0)], map[2 := Rid(1, 0)]];
    failed := store.Insert(Rid(1, 1), [5, 5]);
    assert failed == -1;
    assert Indexes(store.handles) == [map[1 := Rid(1, 0), 2 := Rid(1, 1)], map[2 := Rid(1, 0), 3 := Rid(1, 1)]];
    out := UpdateTwo(store);
  }

  method UpdateTwo(store: TableStore) returns (out: UpdateOutcome)
    requires store.Valid() && store.Zeroless() && store.records == map[Rid(1, 0) := [5], Rid(1, 1) := [5, 5]]
    requires store.keys == [(b: Bytes) => |b|, (b: Bytes) => |b| % 3 + 1]
    requires Indexes(store.handles) == [map[1 := Rid(1, 0), 2 := Rid(1, 1)], map[2 := Rid(1, 0), 3 := Rid(1, 1)]]
    modifies store, store.handles
    ensures out == Refused(1) && |store.handles| == 2 && !store.Sound() && store.records == old(store.records)
  {
    hide AllValid, AllNoZero, Consistent, Trail, NoZeroKeys, Indexes, Distinct, IxIndexHandle.Valid, Holding, BreaksOne,
      Minus, Halfway;
    assert store.keys[0]([5, 5]) == 2 && store.keys[1]([5, 5]) == 3;
    assert store.keys[0]([5, 5, 5, 5]) == 4 && store.keys[1]([5, 5, 5, 5]) == 2;
    ghost var dropped, restored;
    out, dropped, restored := store.Update(Rid(1, 1), [5, 5, 5, 5]);
  }
}
