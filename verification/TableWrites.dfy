/** The writes of one transaction to a table and its indexes, and their rollback, on the
    maps that the record file and the indexes stand for. */
module TableWrites {
  import opened Defs
  import IxNode

  type Rid = IxNode.Rid
  type Key = IxNode.Key
  /** For each index, the key that it takes from a record. */
  type KeyFns = seq<Bytes -> Key>

  datatype State = State(records: map<Rid, Bytes>, indexes: seq<map<Key, Rid>>)

  datatype Write =
    | Inserted(rid: Rid, rec: Bytes)
    | Deleted(rid: Rid, rec: Bytes)
    | Updated(rid: Rid, rec: Bytes, prior: Bytes)

  /** The index is exactly the map from the key of each record to its position. */
  ghost predicate IndexOk(records: map<Rid, Bytes>, index: map<Key, Rid>, key: Bytes -> Key) {
    && (forall r :: r in records ==> key(records[r]) in index && index[key(records[r])] == r)
    && (forall k :: k in index ==> index[k] in records && key(records[index[k]]) == k)
  }

  ghost predicate Consistent(s: State, keys: KeyFns) {
    |s.indexes| == |keys| && forall i :: 0 <= i < |keys| ==> IndexOk(s.records, s.indexes[i], keys[i])
  }

  function Changed(index: map<Key, Rid>, key: Bytes -> Key, w: Write): map<Key, Rid> {
    match w
    case Inserted(rid, rec) => index[key(rec) := rid]
    case Deleted(rid, rec) => index - {key(rec)}
    case Updated(rid, rec, prior) => (index - {key(prior)})[key(rec) := rid]
  }

  /** The write fits the table: positions are free or used as it needs, and unique keys
      stay unique. */
  ghost predicate Fits(records: map<Rid, Bytes>, w: Write) {
    match w
    case Inserted(rid, rec) => rid !in records
    case Deleted(rid, rec) => rid in records && records[rid] == rec
    case Updated(rid, rec, prior) => rid in records && records[rid] == prior
  }

  ghost predicate NoClash(index: map<Key, Rid>, key: Bytes -> Key, w: Write) {
    match w
    case Inserted(rid, rec) => key(rec) !in index
    case Deleted(_, _) => true
    case Updated(rid, rec, prior) => key(rec) !in index - {key(prior)}
  }

  function Stored(records: map<Rid, Bytes>, w: Write): map<Rid, Bytes> {
    match w
    case Inserted(rid, rec) => records[rid := rec]
    case Deleted(rid, _) => records - {rid}
    case Updated(rid, rec, _) => records[rid := rec]
  }

  /** The write takes the table from `s` to `t`. */
  ghost predicate Wrote(s: State, w: Write, t: State, keys: KeyFns) {
    && |s.indexes| == |keys| == |t.indexes|
    && Fits(s.records, w) && t.records == Stored(s.records, w)
    && forall i :: 0 <= i < |keys| ==>
          NoClash(s.indexes[i], keys[i], w) && t.indexes[i] == Changed(s.indexes[i], keys[i], w)
  }

  lemma IndexStaysOk(records: map<Rid, Bytes>, index: map<Key, Rid>, key: Bytes -> Key, w: Write)
    requires IndexOk(records, index, key) && Fits(records, w) && NoClash(index, key, w)
    ensures IndexOk(Stored(records, w), Changed(index, key, w), key)
  {
  }

  /** Every write keeps every index equal to the map from keys to positions. */
  lemma WroteOk(s: State, w: Write, t: State, keys: KeyFns)
    requires Consistent(s, keys) && Wrote(s, w, t, keys)
    ensures Consistent(t, keys)
  {
    hide IndexOk, Changed, Stored, NoClash, Fits;
    forall i | 0 <= i < |keys|
      ensures IndexOk(t.records, t.indexes[i], keys[i])
    {
      IndexStaysOk(s.records, s.indexes[i], keys[i], w);
    }
  }

  // Rollback

  function Unstored(records: map<Rid, Bytes>, w: Write): map<Rid, Bytes> {
    match w
    case Inserted(rid, _) => records - {rid}
    case Deleted(rid, rec) => records[rid := rec]
    case Updated(rid, _, prior) => records[rid := prior]
  }

  /** `insert_entry` of a present key changes nothing. */
  function Reverted(index: map<Key, Rid>, key: Bytes -> Key, w: Write): map<Key, Rid> {
    match w
    case Inserted(_, rec) => index - {key(rec)}
    case Deleted(rid, rec) => if key(rec) in index then index else index[key(rec) := rid]
    case Updated(rid, rec, prior) =>
      var rest := index - {key(rec)};
      if key(prior) in rest then rest else rest[key(prior) := rid]
  }

  lemma RevertedOk(records: map<Rid, Bytes>, index: map<Key, Rid>, key: Bytes -> Key, w: Write)
    requires IndexOk(records, index, key) && Fits(records, w) && NoClash(index, key, w)
    ensures Reverted(Changed(index, key, w), key, w) == index
    ensures Unstored(Stored(records, w), w) == records
  {
  }

  /** The states before, between and after the writes. */
  ghost predicate Trail(states: seq<State>, ws: seq<Write>, keys: KeyFns) {
    && |states| == |ws| + 1
    && (forall i :: 0 <= i < |states| ==> Consistent(states[i], keys))
    && (forall i :: 0 <= i < |ws| ==> Wrote(states[i], ws[i], states[i + 1], keys))
  }

  lemma TrailMore(states: seq<State>, ws: seq<Write>, keys: KeyFns, w: Write, t: State)
    requires Trail(states, ws, keys) && Wrote(states[|ws|], w, t, keys)
    ensures Trail(states + [t], ws + [w], keys)
  {
    hide Consistent, Wrote;
    WroteOk(states[|ws|], w, t, keys);
  }

  lemma TrailLess(states: seq<State>, ws: seq<Write>, keys: KeyFns)
    requires Trail(states, ws, keys) && ws != []
    ensures Trail(states[..|ws|], ws[..|ws| - 1], keys)
    ensures Consistent(states[|ws| - 1], keys) && Wrote(states[|ws| - 1], ws[|ws| - 1], states[|ws|], keys)
  {
    hide Consistent, Wrote;
  }

  lemma StateOk(states: seq<State>, ws: seq<Write>, keys: KeyFns)
    requires Trail(states, ws, keys)
    ensures |states| == |ws| + 1 && Consistent(states[|ws|], keys) && |states[|ws|].indexes| == |keys|
  {
  }

  lemma UndoOk(s: State, t: State, w: Write, keys: KeyFns)
    requires Consistent(s, keys) && Wrote(s, w, t, keys)
    ensures Unstored(t.records, w) == s.records && |s.indexes| == |t.indexes| == |keys|
    ensures forall i :: 0 <= i < |keys| ==> Reverted(t.indexes[i], keys[i], w) == s.indexes[i]
  {
    hide IndexOk, Changed, Stored, NoClash, Fits, Reverted, Unstored;
    RecordsBack(s.records, w);
    forall i | 0 <= i < |keys|
      ensures Reverted(t.indexes[i], keys[i], w) == s.indexes[i]
    {
      RevertedOk(s.records, s.indexes[i], keys[i], w);
    }
  }

  lemma RecordsBack(records: map<Rid, Bytes>, w: Write)
    requires Fits(records, w)
    ensures Unstored(Stored(records, w), w) == records
  {
  }

  /** Each record of a consistent table is found under its key, and nowhere else. */
  lemma KeyPresent(s: State, keys: KeyFns, rid: Rid, i: nat)
    requires Consistent(s, keys) && rid in s.records && i < |keys|
    ensures var k := keys[i](s.records[rid]);
            k in s.indexes[i] && s.indexes[i][k] == rid && (s.indexes[i] - {k})[k := rid] == s.indexes[i]
  {
    assert IndexOk(s.records, s.indexes[i], keys[i]);
  }

  /** After a failed insertion, an index before the failing one holds a key of a record
      that is gone. */
  lemma Dangling(s: State, t: State, keys: KeyFns, rid: Rid, rec: Bytes, i: nat)
    requires Consistent(s, keys) && rid !in s.records && 0 < i < |keys| == |t.indexes|
    requires t.records == s.records && t.indexes[0] == s.indexes[0][keys[0](rec) := rid]
    ensures !Consistent(t, keys)
  {
    var k := keys[0](rec);
    assert k in t.indexes[0] && t.indexes[0][k] !in t.records;
  }

  /** After a failed update, the first index holds a key that no record has, or the failing
      index lacks the record's key. */
  lemma HalfRestored(s: State, t: State, keys: KeyFns, rid: Rid, rec: Bytes, i: nat)
    requires Consistent(s, keys) && rid in s.records && 0 < i < |keys| == |t.indexes| && t.records == s.records
    requires keys[0](rec) != keys[0](s.records[rid]) ==>
               keys[0](rec) in t.indexes[0] && t.indexes[0][keys[0](rec)] == rid
    requires keys[0](rec) == keys[0](s.records[rid]) ==> keys[i](s.records[rid]) !in t.indexes[i]
    ensures !Consistent(t, keys)
  {
    assert IndexOk(t.records, t.indexes[0], keys[0]) && IndexOk(t.records, t.indexes[i], keys[i]) ==> false;
  }
}
