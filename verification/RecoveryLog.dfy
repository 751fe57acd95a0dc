/** The write-ahead log as recovery reads it, the history that it tells, and what recovery
    makes of a store. Everything is stated record by record: a location holds a record or
    nothing. */
module RecoveryLog {
  import opened PageIds
  import opened Defs

  type TxnId = nat
  datatype Loc = Loc(page: PageId, slot: nat)
  datatype Page = Page(lsn: int, recs: map<nat, Bytes>)

  datatype LogRecord =
    | Begin(lsn: int, tid: TxnId, prev: int)
    | Commit(lsn: int, tid: TxnId, prev: int)
    | Abort(lsn: int, tid: TxnId, prev: int)
    | Insert(lsn: int, tid: TxnId, prev: int, loc: Loc, after: Bytes)
    | Delete(lsn: int, tid: TxnId, prev: int, loc: Loc, before: Bytes)
    | Update(lsn: int, tid: TxnId, prev: int, loc: Loc, before: Bytes, after: Bytes)
    | Checkpoint(lsn: int)

  predicate IsWrite(r: LogRecord) {
    r.Insert? || r.Delete? || r.Update?
  }

  predicate Touches(r: LogRecord, loc: Loc) {
    IsWrite(r) && r.loc == loc
  }

  predicate TouchesPage(r: LogRecord, p: PageId) {
    IsWrite(r) && r.loc.page == p
  }

  predicate OfTxn(r: LogRecord, t: TxnId) {
    !r.Checkpoint? && r.tid == t
  }

  /** What redoing a write does to the location: an update does not set the bitmap. */
  function Redone(r: LogRecord, v: Option<Bytes>): Option<Bytes>
    requires IsWrite(r)
  {
    match r
    case Insert(_, _, _, _, after) => Some(after)
    case Delete(_, _, _, _, _) => None
    case Update(_, _, _, _, _, after) => if v.Some? then Some(after) else None
  }

  /** What undoing a write does to the location. */
  function Undone(r: LogRecord, v: Option<Bytes>): Option<Bytes>
    requires IsWrite(r)
  {
    match r
    case Insert(_, _, _, _, _) => None
    case Delete(_, _, _, _, before) => Some(before)
    case Update(_, _, _, _, before, _) => if v.Some? then Some(before) else None
  }

  /** The transaction of record `i` has a commit record in the log. */
  ghost predicate Winner(log: seq<LogRecord>, i: nat)
    requires i < |log|
  {
    exists c :: i < c < |log| && log[c].Commit? && OfTxn(log[i], log[c].tid)
  }

  /** The transaction of record `i` has been rolled back, and a checkpoint has followed:
      analysis then forgets it. */
  ghost predicate Dropped(log: seq<LogRecord>, i: nat)
    requires i < |log|
  {
    exists a, c :: i < a < c < |log| && log[a].Abort? && OfTxn(log[i], log[a].tid) && log[c].Checkpoint?
  }

  /** A write that recovery has to take back. */
  ghost predicate Loser(log: seq<LogRecord>, i: nat)
    requires i < |log|
  {
    IsWrite(log[i]) && !Winner(log, i) && !Dropped(log, i)
  }

  /** A write that is committed, or rolled back and forgotten. */
  ghost predicate Finished(log: seq<LogRecord>, i: nat)
    requires i < |log|
  {
    Winner(log, i) || Dropped(log, i)
  }

  type Base = map<Loc, Bytes>

  ghost function At(base: Base, loc: Loc): Option<Bytes> {
    if loc in base then Some(base[loc]) else None
  }

  /** The location after replaying those of the first `n` records that are kept. */
  ghost function Replay(log: seq<LogRecord>, base: Base, keep: set<int>, n: nat, loc: Loc): Option<Bytes>
    requires n <= |log|
  {
    if n == 0 then At(base, loc)
    else
      var v := Replay(log, base, keep, n - 1, loc);
      if Touches(log[n - 1], loc) && n - 1 in keep then Redone(log[n - 1], v) else v
  }

  ghost function Winners(log: seq<LogRecord>): set<int> {
    set i | 0 <= i < |log| && Winner(log, i)
  }

  /** What the committed transactions wrote to the location. */
  ghost function Committed(log: seq<LogRecord>, base: Base, loc: Loc): Option<Bytes> {
    Replay(log, base, Winners(log), |log|, loc)
  }

  /** The location after the writes of a transaction among the first `n` records have been
      undone, the last one first. */
  ghost function RolledBackTo(log: seq<LogRecord>, n: nat, t: TxnId, loc: Loc, v: Option<Bytes>): Option<Bytes>
    requires n <= |log|
  {
    if n == 0 then v
    else if Touches(log[n - 1], loc) && log[n - 1].tid == t
    then RolledBackTo(log, n - 1, t, loc, Undone(log[n - 1], v))
    else RolledBackTo(log, n - 1, t, loc, v)
  }

  /** What the location held in memory after the first `n` records: an abort record stands
      for the rollback of its transaction. */
  ghost function History(log: seq<LogRecord>, base: Base, n: nat, loc: Loc): Option<Bytes>
    requires n <= |log|
  {
    if n == 0 then At(base, loc)
    else
      var v, r := History(log, base, n - 1, loc), log[n - 1];
      if Touches(r, loc) then Redone(r, v)
      else if r.Abort? then RolledBackTo(log, n - 1, r.tid, loc, v)
      else v
  }

  /** `prev` is the transaction's previous record, which is its begin record or a write. */
  ghost predicate ChainOk(log: seq<LogRecord>, i: nat)
    requires i < |log|
  {
    match log[i]
    case Checkpoint(_) => true
    case Begin(_, t, _) => forall j :: 0 <= j < i ==> !OfTxn(log[j], t)
    case _ =>
      && 0 <= log[i].prev < i
      && OfTxn(log[log[i].prev], log[i].tid)
      && (log[log[i].prev].Begin? || IsWrite(log[log[i].prev]))
      && forall j :: log[i].prev < j < i ==> !OfTxn(log[j], log[i].tid)
  }

  ghost predicate LsnsInOrder(log: seq<LogRecord>) {
    forall i :: 0 <= i < |log| ==> log[i].lsn == i
  }

  /** One epoch of a log whose records are linked by transaction. */
  ghost predicate Linked(log: seq<LogRecord>) {
    LsnsInOrder(log) && forall i :: 0 <= i < |log| ==> ChainOk(log, i)
  }

  /** What the location held before the write, as the record tells it. */
  function Before(r: LogRecord): Option<Bytes>
    requires IsWrite(r)
  {
    if r.Insert? then None else Some(r.before)
  }

  /** The before-image of record `i` is what history had there. */
  ghost predicate ImageOk(log: seq<LogRecord>, base: Base, i: nat)
    requires i < |log|
  {
    IsWrite(log[i]) ==> History(log, base, i, log[i].loc) == Before(log[i])
  }

  /** The transaction of record `i` has a commit or an abort record. */
  ghost predicate Ended(log: seq<LogRecord>, i: nat)
    requires i < |log|
  {
    exists e :: i < e < |log| && (log[e].Commit? || log[e].Abort?) && OfTxn(log[i], log[e].tid)
  }

  /** Locks are held to the end: a location written by a transaction is written by another
      one only after the first has committed or was rolled back. */
  ghost predicate Strict(log: seq<LogRecord>) {
    forall i, j ::
      0 <= i < j < |log| && IsWrite(log[i]) && IsWrite(log[j]) && log[i].loc == log[j].loc && log[i].tid != log[j].tid
      ==> Ended(log[..j], i)
  }

  ghost predicate WellFormed(log: seq<LogRecord>, base: Base) {
    Linked(log) && Strict(log) && forall i :: 0 <= i < |log| ==> ImageOk(log, base, i)
  }

  /** No checkpoint record follows record `i` among the first `n`. */
  ghost predicate SinceCheckpoint(log: seq<LogRecord>, i: int, n: nat)
    requires 0 <= i && n <= |log|
  {
    forall c :: i < c < n ==> !log[c].Checkpoint?
  }

  type Pages = map<PageId, Page>

  ghost function Read(pages: Pages, loc: Loc): Option<Bytes>
    requires loc.page in pages
  {
    var recs := pages[loc.page].recs;
    if loc.slot in recs then Some(recs[loc.slot]) else None
  }

  /** Checkpoints were complete: a page written before one has been written back. */
  ghost predicate Flushed(log: seq<LogRecord>, pages: Pages) {
    forall c, i :: 0 <= i < c < |log| && log[c].Checkpoint? && IsWrite(log[i]) ==>
      log[i].loc.page in pages && i <= pages[log[i].loc.page].lsn
  }

  /** The store holds exactly what the committed transactions wrote. */
  ghost predicate Recovered(log: seq<LogRecord>, base: Base, pages: Pages) {
    forall loc: Loc :: loc.page in pages ==> Read(pages, loc) == Committed(log, base, loc)
  }

  // What recovery does to one location, whatever it holds

  /** The location after redo of the first `n` records on a page with the given LSN. */
  ghost function RedoTo(log: seq<LogRecord>, n: nat, lsn: int, loc: Loc, v: Option<Bytes>): Option<Bytes>
    requires n <= |log|
  {
    if n == 0 then v
    else
      var u := RedoTo(log, n - 1, lsn, loc, v);
      if Touches(log[n - 1], loc) && lsn < n - 1 && SinceCheckpoint(log, n - 1, |log|) then Redone(log[n - 1], u) else u
  }

  /** The location after undoing the losers from `n` on. */
  ghost function UndoTo(log: seq<LogRecord>, n: nat, loc: Loc, v: Option<Bytes>): Option<Bytes>
    requires n <= |log|
    decreases |log| - n
  {
    if n == |log| then v
    else
      var u := UndoTo(log, n + 1, loc, v);
      if Touches(log[n], loc) && Loser(log, n) then Undone(log[n], u) else u
  }

  ghost function RecoveredValue(log: seq<LogRecord>, lsn: int, loc: Loc, v: Option<Bytes>): Option<Bytes> {
    UndoTo(log, 0, loc, RedoTo(log, |log|, lsn, loc, v))
  }

  /** The store is what recovery makes of `start`. */
  ghost predicate RecoveredFrom(log: seq<LogRecord>, start: Pages, pages: Pages) {
    && pages.Keys == start.Keys
    && forall loc: Loc :: loc.page in start ==>
         Read(pages, loc) == RecoveredValue(log, start[loc.page].lsn, loc, Read(start, loc))
  }
}
