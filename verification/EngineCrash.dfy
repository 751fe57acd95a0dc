/** A crash keeps the durable log and the pages on disk. */
module EngineCrash {
  import opened Defs
  import opened RecoveryLog
  import opened Recovery
  import opened RecoveryPasses
  import opened RecoveryHistory
  import opened RecoveryMeaning
  import opened Engine
  import opened EngineSteps

  // One location

  /** The value is history as of record `n`, on a page with LSN `l`. */
  ghost predicate LocAsOf(log: seq<LogRecord>, base: Base, l: int, loc: Loc, v: Option<Bytes>, n: nat)
    requires n <= |log|
  {
    && (forall i :: 0 <= i < |log| && Touches(log[i], loc) ==> (i <= l <==> i < n))
    && v == History(log, base, n, loc) && CheckpointsBefore(log, n)
  }

  /** Redo of the durable log goes on from there. */
  lemma {:induction false} RedoLive(log: seq<LogRecord>, base: Base, d: nat, l: int, loc: Loc, v: Option<Bytes>, n: nat,
                                    m: nat)
    requires m <= d <= |log| && n <= |log| && LocAsOf(log, base, l, loc, v, n)
    requires v == Replay(log, base, LiveAt(log, n), n, loc)
    ensures RedoTo(log[..d], m, l, loc, v) == if m <= n then v else Replay(log, base, LiveAt(log, n), m, loc)
    decreases m
  {
    hide History, RolledBack;
    if m > 0 {
      RedoLive(log, base, d, l, loc, v, n, m - 1);
      var r := log[m - 1];
      if Touches(r, loc) && n < m {
        assert SinceCheckpoint(log[..d], m - 1, d);
        assert m - 1 in LiveAt(log, n) by { LaterIsLive(log, m - 1, n); }
      }
    }
  }

  lemma LaterIsLive(log: seq<LogRecord>, i: nat, n: nat)
    requires n <= i < |log|
    ensures !RolledBack(log, i, n)
  {
  }

  /** Undo makes of such a location what it makes of the committed value. */
  lemma CrashedLoc(log: seq<LogRecord>, base: Base, d: nat, l: int, loc: Loc, v: Option<Bytes>, n: nat)
    requires WellFormed(log, base) && d <= |log| && n <= |log| && LocAsOf(log, base, l, loc, v, n)
    requires forall i :: d <= i < n ==> !Touches(log[i], loc)
    ensures RecoveredValue(log[..d], l, loc, v) == UndoTo(log[..d], 0, loc, Committed(log[..d], base, loc))
  {
    hide WellFormed, History, Replay, UndoTo, RedoTo, Committed, CheckpointsBefore;
    HistoryIsLive(log, base, n, loc);
    RedoLive(log, base, d, l, loc, v, n, d);
    if d <= n { ReplayIdle(log, base, LiveAt(log, n), d, n, loc); }
    LinkedOf(log, base);
    UndoneHistory(log, base, d, n, loc);
  }

  lemma LinkedOf(log: seq<LogRecord>, base: Base)
    requires WellFormed(log, base)
    ensures Linked(log)
  {
  }

  // The location of a write that reached the disk before its record

  /** Recovery does not see the write `w`. That does no harm where the write had been taken
      back, or where the undo of other writes puts the location right. */
  ghost predicate Harmless(log: seq<LogRecord>, base: Base, w: LogRecord, v: Option<Bytes>)
    requires IsWrite(w)
  {
    if NoLoser(log, w.loc, 0) then v == Before(w)
    else OnlyUpdates(log, w.loc, 0) ==> (v.Some? <==> Committed(log, base, w.loc).Some?)
  }

  lemma EarlyWrite(log: seq<LogRecord>, base: Base, d: nat, v: Option<Bytes>)
    requires WellFormed(log, base) && d < |log| && IsWrite(log[d]) && CheckpointsBefore(log, d)
    ensures var l, loc := log[..d], log[d].loc; var c := Committed(l, base, loc);
            RecoveredValue(l, d, loc, v) == c <==> UndoTo(l, 0, loc, c) == c && Harmless(l, base, log[d], v)
  {
    hide Linked, Strict, History, Replay, UndoTo, RedoTo, Committed, CheckpointsBefore, Loser;
    var l, loc := log[..d], log[d].loc;
    var c := Committed(l, base, loc);
    RedoSkips(l, d, d, loc, v);
    HistoryIsLive(log, base, d, loc);
    UndoneHistory(log, base, d, d, loc);
    if NoLoser(l, loc, 0) {
      UndoNothing(l, 0, loc, v);
      UndoNothing(l, 0, loc, c);
      assert ImageOk(log, base, d);
    } else if OnlyUpdates(l, loc, 0) {
      UndoUpdates(l, 0, loc, v);
      if v.Some? <==> c.Some? { UndoSame(l, 0, loc, v, c); }
    } else {
      UndoSame(l, 0, loc, v, c);
    }
  }

  // The whole store

  ghost function DurableLog(s: State): seq<LogRecord>
    requires s.durable <= |s.log|
  {
    s.log[..s.durable]
  }

  /** The last write to the location is on disk, but its record is not. */
  ghost predicate Early(s: State, loc: Loc)
    requires loc.page in s.disk
  {
    s.disk[loc.page].lsn == s.durable < |s.log| && Touches(s.log[s.durable], loc)
  }

  /** Every page that was written back before its own record is harmless. */
  ghost predicate DiskHarmless(s: State, base: Base)
    requires s.durable <= |s.log|
  {
    forall loc: Loc :: loc.page in s.disk && Early(s, loc) ==>
      Harmless(DurableLog(s), base, s.log[s.durable], Read(s.disk, loc))
  }

  /** Undo leaves the committed value of every location alone. */
  ghost predicate UndoKeepsAll(s: State, base: Base)
    requires s.durable <= |s.log|
  {
    forall loc: Loc :: loc.page in s.disk ==> UndoKeeps(DurableLog(s), base, loc)
  }

  lemma DiskLoc(s: State, base: Base, loc: Loc) returns (n: nat)
    requires Inv(s, base) && loc.page in s.disk
    ensures n <= |s.log| && LocAsOf(s.log, base, s.disk[loc.page].lsn, loc, Read(s.disk, loc), n)
  {
    hide WellFormed, MemOk, History;
    n :| n <= |s.log| && AsOf(s.log, base, s.disk, loc.page, n) && CheckpointsBefore(s.log, n);
    assert loc == Loc(loc.page, loc.slot);
  }

  /** What recovery makes of one location after a crash. */
  lemma CrashLoc(s: State, base: Base, loc: Loc)
    requires Inv(s, base) && loc.page in s.disk
    ensures RecoveredValue(DurableLog(s), s.disk[loc.page].lsn, loc, Read(s.disk, loc))
            == Committed(DurableLog(s), base, loc)
            <==> && UndoKeeps(DurableLog(s), base, loc)
                 && (Early(s, loc) ==> Harmless(DurableLog(s), base, s.log[s.durable], Read(s.disk, loc)))
  {
    hide WellFormed, MemOk, History, RecoveredValue, Harmless, UndoKeeps, UndoTo, Committed, CheckpointsBefore;
    var n := DiskLoc(s, base, loc);
    WellFormedPrefix(s.log, base, s.durable);
    UndoKeepsIff(DurableLog(s), base, loc);
    if Early(s, loc) {
      EarlyWrite(s.log, base, s.durable, Read(s.disk, loc));
    } else {
      CrashedLoc(s.log, base, s.durable, s.disk[loc.page].lsn, loc, Read(s.disk, loc), n);
    }
  }

  /** Recovery from a crash is right exactly when the pages that were written back before
      their own records are harmless, and undo leaves every committed value alone. */
  lemma CrashOk(s: State, base: Base, pages: Pages)
    requires Inv(s, base) && RecoveredFrom(DurableLog(s), s.disk, pages)
    ensures Recovered(DurableLog(s), base, pages) <==> DiskHarmless(s, base) && UndoKeepsAll(s, base)
  {
    hide WellFormed, MemOk, DiskOk, RecoveredValue, Harmless, UndoKeeps, Committed, DurableLog, CheckpointsBefore;
    forall loc: Loc | loc.page in pages
      ensures Read(pages, loc) == Committed(DurableLog(s), base, loc)
              <==> && UndoKeeps(DurableLog(s), base, loc)
                   && (Early(s, loc) ==> Harmless(DurableLog(s), base, s.log[s.durable], Read(s.disk, loc)))
    {
      CrashLoc(s, base, loc);
    }
  }

  /** From any state of any run, crash and recovery leave what the transactions with
      durable commit records wrote exactly when the pages that were written back before
      their own records are harmless, and undo leaves every committed value alone. A
      recovery that is interrupted and started over makes the same of the disk. */
  method CrashAndRecover(ghost states: seq<State>, ghost steps: seq<Step>, ghost base: Base, ghost i: nat,
                         log: seq<LogRecord>, disk: Pages) returns (pages: Pages, ghost seen: set<Pages>)
    requires IsRun(states, steps, base) && i <= |steps| && states[i].durable <= |states[i].log|
    requires log == DurableLog(states[i]) && disk == states[i].disk
    ensures pages.Keys == disk.Keys && RecoveredFrom(log, disk, pages)
    ensures HoldsCommitted(log, base, pages) <==> DiskHarmless(states[i], base) && UndoKeepsAll(states[i], base)
    ensures Recovered(log, base, pages) <==> HoldsCommitted(log, base, pages)
    ensures pages in seen && forall s :: s in seen ==> SameOutcome(log, disk, s)
  {
    hide WellFormed, Recovered, MemOk, DiskOk, Enabled, After, Initial, DiskHarmless, UndoKeepsAll, RecoveredFrom,
      Linked, SameOutcome, CheckpointsBefore, HoldsCommitted;
    ghost var s := states[i];
    RunOk(states, steps, base, i);
    WellFormedPrefix(s.log, base, s.durable);
    LinkedOf(log, base);
    var rm := new RecoveryManager(log, disk);
    var ok := rm.Recover();
    pages, seen := rm.pages, rm.seen;
    CrashOk(s, base, pages);
    RecoveredMeans(log, base, pages);
  }

  // A crash during a checkpoint

  /** The log with the checkpoint record, which is durable before any page is written. */
  ghost function WithCheckpoint(s: State): seq<LogRecord> {
    s.log + [Checkpoint(|s.log|)]
  }

  /** Any of the pages may have been written back already. */
  ghost predicate PartlyFlushed(s: State, disk: Pages) {
    && disk.Keys == s.disk.Keys && s.mem.Keys == s.disk.Keys
    && forall p :: p in disk ==> disk[p] == s.disk[p] || disk[p] == s.mem[p]
  }

  /** Where undo does nothing, the disk already agrees with memory. */
  ghost predicate AgreesWithMemory(s: State, disk: Pages)
    requires disk.Keys == s.mem.Keys
  {
    forall loc: Loc :: loc.page in disk ==>
      if NoLoser(WithCheckpoint(s), loc, 0) then Read(disk, loc) == Read(s.mem, loc)
      else Read(disk, loc).Some? || !OnlyUpdates(WithCheckpoint(s), loc, 0)
  }

  /** A checkpoint leaves no loser but those of active transactions, which come last. */
  lemma LosersComeLast(log: seq<LogRecord>, loc: Loc)
    requires Linked(log) && Strict(log) && log != [] && log[|log| - 1].Checkpoint?
    ensures NoCommitAfterLoser(log, loc)
  {
    hide Linked, Ended, Loser;
    forall i, j | 0 <= i < j < |log| && Touches(log[i], loc) && Touches(log[j], loc) && Loser(log, i)
      ensures !Winner(log, j)
    {
      if log[i].tid == log[j].tid {
        SameFate(log, i, j);
        NotWinner(log, j);
      } else {
        EndedIsFinished(log, i, j);
      }
    }
  }

  lemma NotWinner(log: seq<LogRecord>, j: nat)
    requires j < |log| && Loser(log, j)
    ensures !Winner(log, j)
  {
  }

  lemma EndedIsFinished(log: seq<LogRecord>, i: nat, j: nat)
    requires i < j < |log| && log[|log| - 1].Checkpoint? && Ended(log[..j], i)
    ensures !Loser(log, i)
  {
    var l := log[..j];
    var e :| i < e < j && (l[e].Commit? || l[e].Abort?) && OfTxn(l[i], l[e].tid);
    assert log[e] == l[e];
    var c := |log| - 1;
    assert log[c].Checkpoint? && e < c;
  }

  lemma CheckpointCrashLoc(s: State, base: Base, l: int, loc: Loc, v: Option<Bytes>)
    requires Inv(s, base) && loc.page in s.mem
    ensures var log := WithCheckpoint(s);
            RecoveredValue(log, l, loc, v) == Committed(log, base, loc)
            <==> if NoLoser(log, loc, 0) then v == Read(s.mem, loc) else v.Some? || !OnlyUpdates(log, loc, 0)
  {
    hide WellFormed, MemOk, DiskOk, Loser, UndoTo, RedoTo, Replay, History, CheckpointsBefore, NoCommitAfterLoser;
    var log := WithCheckpoint(s);
    var c := Committed(log, base, loc);
    CheckpointLog(s, base);
    assert log[|s.log|].Checkpoint?;
    RedoToNothing(log, |log|, l, loc, v);
    if k :| 0 <= k < |log| && Touches(log[k], loc) && Loser(log, k) {
      var i := FirstLoser(log, loc, k);
      LosersComeLast(log, loc);
      CommittedAtLoser(log, base, i);
      UndoKeepsIff(log, base, loc);
      UndoUpdatesOnly(log, loc, v);
      if v.Some? || !OnlyUpdates(log, loc, 0) { UndoSame(log, 0, loc, v, c); }
    } else {
      UndoNothing(log, 0, loc, v);
      MemCommitted(s, base, loc);
    }
  }

  lemma UndoUpdatesOnly(log: seq<LogRecord>, loc: Loc, v: Option<Bytes>)
    ensures OnlyUpdates(log, loc, 0) ==> (UndoTo(log, 0, loc, v).Some? <==> v.Some?)
  {
    hide Loser, UndoTo;
    if OnlyUpdates(log, loc, 0) { UndoUpdates(log, 0, loc, v); }
  }

  /** The committed value where losers come last is what the first one found. */
  lemma CommittedAtLoser(log: seq<LogRecord>, base: Base, i: nat)
    requires WellFormed(log, base) && i < |log| && IsWrite(log[i]) && Loser(log, i)
    requires NoCommitAfterLoser(log, log[i].loc)
    requires forall j :: 0 <= j < i && Touches(log[j], log[i].loc) ==> !Loser(log, j)
    ensures Committed(log, base, log[i].loc) == Before(log[i])
  {
    hide WellFormed, Winner, Dropped, Replay;
    ReplayIdle(log, base, Winners(log), i, |log|, log[i].loc);
    CommittedBefore(log, base, i);
  }

  lemma CheckpointLog(s: State, base: Base)
    requires Inv(s, base)
    ensures WellFormed(WithCheckpoint(s), base) && Linked(WithCheckpoint(s)) && Strict(WithCheckpoint(s))
    ensures CheckpointsBefore(WithCheckpoint(s), |WithCheckpoint(s)|)
  {
    hide ImageOk, ChainOk, Ended, MemOk, DiskOk;
    StepOk(s, DoCheckpoint, base);
  }

  /** Where there is no loser, memory holds the committed value. */
  lemma MemCommitted(s: State, base: Base, loc: Loc)
    requires Inv(s, base) && loc.page in s.mem && NoLoser(WithCheckpoint(s), loc, 0)
    ensures Read(s.mem, loc) == Committed(WithCheckpoint(s), base, loc)
  {
    hide WellFormed, DiskOk, Loser, UndoTo, Replay, History, CheckpointsBefore;
    var log := WithCheckpoint(s);
    CheckpointLog(s, base);
    QuietMem(s.log, base, Checkpoint(|s.log|), s.mem);
    MemHere(log, base, s.mem, loc);
    HistoryIsLive(log, base, |log|, loc);
    assert log[..|log|] == log;
    UndoneHistory(log, base, |log|, |log|, loc);
  }

  /** Recovery after a crash during a checkpoint is right exactly when the pages that were
      not written back yet did not need it. */
  lemma CheckpointCrashOk(s: State, base: Base, disk: Pages, pages: Pages)
    requires Inv(s, base) && disk.Keys == s.mem.Keys && RecoveredFrom(WithCheckpoint(s), disk, pages)
    ensures Recovered(WithCheckpoint(s), base, pages) <==> AgreesWithMemory(s, disk)
  {
    hide Inv, Committed, RecoveredValue, NoLoser, OnlyUpdates, WithCheckpoint;
    forall loc: Loc | loc.page in pages
      ensures Read(pages, loc) == Committed(WithCheckpoint(s), base, loc)
              <==> if NoLoser(WithCheckpoint(s), loc, 0) then Read(disk, loc) == Read(s.mem, loc)
                   else Read(disk, loc).Some? || !OnlyUpdates(WithCheckpoint(s), loc, 0)
    {
      CheckpointCrashLoc(s, base, disk[loc.page].lsn, loc, Read(disk, loc));
    }
  }

  method CrashInCheckpoint(ghost states: seq<State>, ghost steps: seq<Step>, ghost base: Base, ghost i: nat,
                           log: seq<LogRecord>, disk: Pages) returns (pages: Pages)
    requires IsRun(states, steps, base) && i <= |steps|
    requires log == WithCheckpoint(states[i]) && PartlyFlushed(states[i], disk)
    ensures pages.Keys == disk.Keys && RecoveredFrom(log, disk, pages)
    ensures HoldsCommitted(log, base, pages) <==> AgreesWithMemory(states[i], disk)
    ensures Recovered(log, base, pages) <==> HoldsCommitted(log, base, pages)
  {
    hide WellFormed, Recovered, MemOk, DiskOk, Enabled, After, Initial, AgreesWithMemory, RecoveredFrom, Linked, Strict,
      CheckpointsBefore, SameOutcome, HoldsCommitted;
    ghost var s := states[i];
    RunOk(states, steps, base, i);
    CheckpointLog(s, base);
    var rm := new RecoveryManager(log, disk);
    var ok := rm.Recover();
    pages := rm.pages;
    CheckpointCrashOk(s, base, disk, pages);
    RecoveredMeans(log, base, pages);
  }
}
