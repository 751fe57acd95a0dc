/** Normal operation as a state machine: transactions write, commit and roll back, pages
    and log reach the disk at any time that the code allows, and a crash keeps what is
    durable. */
module Engine {
  import opened PageIds
  import opened RecoveryLog
  import opened Recovery
  import opened RecoveryHistory

  /** `mem` holds the latest contents of every page, in the buffer pool or not; the first
      `durable` records of the log are on disk. */
  datatype State = State(log: seq<LogRecord>, durable: nat, mem: Pages, disk: Pages)

  datatype Step =
    | DoBegin(tid: TxnId)
    | DoWrite(rec: LogRecord)
    | DoCommit(tid: TxnId, prev: int)
    | DoAbort(tid: TxnId, prev: int)
    | FlushLog
    | Evict(page: PageId)
    | DoCheckpoint

  /** The last record of the transaction, which must not be a commit or abort record. */
  ghost predicate LastOf(log: seq<LogRecord>, t: TxnId, prev: int) {
    && 0 <= prev < |log| && OfTxn(log[prev], t) && (log[prev].Begin? || IsWrite(log[prev]))
    && forall j :: prev < j < |log| ==> !OfTxn(log[j], t)
  }

  /** No other transaction holds a lock on the location: those that wrote it have ended. */
  ghost predicate MayWrite(log: seq<LogRecord>, t: TxnId, loc: Loc) {
    forall i :: 0 <= i < |log| && Touches(log[i], loc) && log[i].tid != t ==> Ended(log, i)
  }

  /** The pages after the writes of a transaction among the first `n` records have been
      undone, the last one first. */
  ghost function RolledBackPages(log: seq<LogRecord>, n: nat, t: TxnId, pages: Pages): Pages
    requires n <= |log|
  {
    if n == 0 then pages
    else if IsWrite(log[n - 1]) && log[n - 1].tid == t && log[n - 1].loc.page in pages
    then
      var p := log[n - 1].loc.page;
      RolledBackPages(log, n - 1, t, pages[p := UndoPage(pages[p], log[n - 1])])
    else RolledBackPages(log, n - 1, t, pages)
  }

  /** A page may be written back as soon as all records below its LSN are durable, which
      is what eviction makes sure of. */
  ghost predicate Enabled(s: State, step: Step) {
    match step
    case DoBegin(t) => forall i :: 0 <= i < |s.log| ==> !OfTxn(s.log[i], t)
    case DoWrite(r) =>
      && IsWrite(r) && r.lsn == |s.log| && LastOf(s.log, r.tid, r.prev)
      && r.loc.page in s.mem && Read(s.mem, r.loc) == Before(r) && MayWrite(s.log, r.tid, r.loc)
    case DoCommit(t, prev) => LastOf(s.log, t, prev)
    case DoAbort(t, prev) => LastOf(s.log, t, prev)
    case FlushLog => true
    case Evict(p) => p in s.mem && s.mem[p].lsn <= s.durable
    case DoCheckpoint => true
  }

  ghost function After(s: State, step: Step): State
    requires Enabled(s, step)
  {
    match step
    case DoBegin(t) => s.(log := s.log + [Begin(|s.log|, t, -1)])
    case DoWrite(r) => s.(log := s.log + [r], mem := s.mem[r.loc.page := RedoPage(s.mem[r.loc.page], r)])
    case DoCommit(t, prev) => s.(log := s.log + [Commit(|s.log|, t, prev)])
    case DoAbort(t, prev) =>
      s.(log := s.log + [Abort(|s.log|, t, prev)], mem := RolledBackPages(s.log, |s.log|, t, s.mem))
    case FlushLog => s.(durable := |s.log|)
    case Evict(p) => s.(disk := s.disk[p := s.mem[p]])
    case DoCheckpoint => State(s.log + [Checkpoint(|s.log|)], |s.log| + 1, s.mem, s.mem)
  }

  /** Pages start with LSN 0, which is the LSN of no write. */
  ghost predicate Initial(s: State, base: Base) {
    && s.log == [] && s.durable == 0 && s.disk == s.mem
    && (forall p :: p in s.mem ==> s.mem[p].lsn == 0)
    && (forall loc: Loc :: loc.page in s.mem ==> Read(s.mem, loc) == At(base, loc))
  }

  /** A run: each state follows from the one before. */
  ghost predicate IsRun(states: seq<State>, steps: seq<Step>, base: Base) {
    && |states| == |steps| + 1 && Initial(states[0], base)
    && forall i :: 0 <= i < |steps| ==> Enabled(states[i], steps[i]) && states[i + 1] == After(states[i], steps[i])
  }

  // The invariant

  /** The page is as memory had it after the first `n` records. */
  ghost predicate AsOf(log: seq<LogRecord>, base: Base, pages: Pages, p: PageId, n: nat)
    requires p in pages && n <= |log|
  {
    && (pages[p].lsn == 0 || 0 < pages[p].lsn < |log|)
    && (forall i :: 0 <= i < |log| && TouchesPage(log[i], p) ==> (i <= pages[p].lsn <==> i < n))
    && forall slot: nat :: Read(pages, Loc(p, slot)) == History(log, base, n, Loc(p, slot))
  }

  ghost predicate MemOk(log: seq<LogRecord>, base: Base, mem: Pages) {
    forall p :: p in mem ==> AsOf(log, base, mem, p, |log|)
  }

  /** Every page on disk was written back after the last checkpoint began, or by it. */
  ghost predicate DiskOk(log: seq<LogRecord>, base: Base, disk: Pages, durable: nat) {
    forall p :: p in disk ==>
      && disk[p].lsn <= durable
      && exists n: nat :: n <= |log| && AsOf(log, base, disk, p, n) && CheckpointsBefore(log, n)
  }

  ghost predicate Inv(s: State, base: Base) {
    && s.durable <= |s.log| && s.mem.Keys == s.disk.Keys && CheckpointsBefore(s.log, s.durable)
    && WellFormed(s.log, base) && MemOk(s.log, base, s.mem) && DiskOk(s.log, base, s.disk, s.durable)
    && (forall i :: 0 <= i < |s.log| && IsWrite(s.log[i]) ==> s.log[i].loc.page in s.mem)
  }
}
