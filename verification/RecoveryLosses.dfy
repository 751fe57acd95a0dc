/** Runs of the engine that recovery then gets wrong. */
module RecoveryLosses {
  import opened PageIds
  import opened Defs
  import opened RecoveryLog
  import opened RecoveryPasses
  import opened RecoveryHistory
  import opened Engine
  import opened EngineCrash

  const Here: Loc := Loc(PageId(0, 1), 0)

  function Store(lsn: int, recs: map<nat, Bytes>): Pages {
    map[Here.page := Page(lsn, recs)]
  }

  function Empty(): Pages {
    Store(0, map[])
  }

  // The checkpoint record is written before the pages are

  function CommitLog(): seq<LogRecord> {
    [Begin(0, 0, -1), Insert(1, 0, 0, Here, [7]), Commit(2, 0, 1)]
  }

  function CommitSteps(): seq<Step> {
    [DoBegin(0), DoWrite(CommitLog()[1]), DoCommit(0, 1)]
  }

  function CommitStates(): seq<State> {
    var log, full := CommitLog(), Store(1, map[0 := [7]]);
    [State([], 0, Empty(), Empty()), State(log[..1], 0, Empty(), Empty()), State(log[..2], 0, full, Empty()),
     State(log, 0, full, Empty())]
  }

  lemma CommitRun()
    ensures IsRun(CommitStates(), CommitSteps(), map[])
  {
    hide Enabled, After;
    var states, steps := CommitStates(), CommitSteps();
    forall i | 0 <= i < 3
      ensures Enabled(states[i], steps[i]) && states[i + 1] == After(states[i], steps[i])
    {
      CommitStep(i);
    }
  }

  lemma CommitStep(i: nat)
    requires i < 3
    ensures Enabled(CommitStates()[i], CommitSteps()[i])
    ensures CommitStates()[i + 1] == After(CommitStates()[i], CommitSteps()[i])
  {
    var log := CommitLog();
    assert LastOf(log[..1], 0, 0) && LastOf(log[..2], 0, 1);
    assert log[..1] + [log[1]] == log[..2] && log[..2] + [log[2]] == log;
  }

  lemma CommitValues(log: seq<LogRecord>)
    requires log == CommitLog() + [Checkpoint(3)]
    ensures RecoveredValue(log, 0, Here, None) == None && Committed(log, map[], Here) == Some([7])
  {
    assert log[2].Commit? && OfTxn(log[1], log[2].tid) && Winner(log, 1) && log[3].Checkpoint?;
    RedoToNothing(log, 4, 0, Here, None);
    UndoToNothing(log, 0, 4, Here, None);
    var keep := Winners(log);
    assert Replay(log, map[], keep, 2, Here) == Some([7]);
    assert Replay(log, map[], keep, 3, Here) == Some([7]);
  }

  /** A crash after the checkpoint record and before the pages are flushed loses a
      committed insertion. */
  method CheckpointLosesCommit() returns (log: seq<LogRecord>, pages: Pages)
    ensures IsRun(CommitStates(), CommitSteps(), map[]) && log == WithCheckpoint(CommitStates()[3])
    ensures Committed(log, map[], Here) == Some([7]) && !Recovered(log, map[], pages)
    ensures Here.page in pages && Read(pages, Here) == None
  {
    hide IsRun, Recovered, Committed, RecoveredValue;
    CommitRun();
    log := CommitLog() + [Checkpoint(3)];
    pages := CrashInCheckpoint(CommitStates(), CommitSteps(), map[], 3, log, Empty());
    CommitValues(log);
    NotRecovered(log, pages);
  }

  lemma NotRecovered(log: seq<LogRecord>, pages: Pages)
    requires Here.page in pages && Read(pages, Here) != Committed(log, map[], Here)
    ensures !Recovered(log, map[], pages)
  {
  }

  // A location is written again after a rollback

  function AbortLog(): seq<LogRecord> {
    [Begin(0, 0, -1), Insert(1, 0, 0, Here, [1]), Abort(2, 0, 1),
     Begin(3, 1, -1), Insert(4, 1, 3, Here, [2]), Commit(5, 1, 4)]
  }

  function AbortSteps(): seq<Step> {
    [DoBegin(0), DoWrite(AbortLog()[1]), DoAbort(0, 1), DoBegin(1), DoWrite(AbortLog()[4]), DoCommit(1, 4), FlushLog]
  }

  function AbortStates(): seq<State> {
    var log, first, second := AbortLog(), Store(1, map[0 := [1]]), Store(4, map[0 := [2]]);
    [State([], 0, Empty(), Empty()), State(log[..1], 0, Empty(), Empty()), State(log[..2], 0, first, Empty()),
     State(log[..3], 0, Store(1, map[]), Empty()), State(log[..4], 0, Store(1, map[]), Empty()),
     State(log[..5], 0, second, Empty()), State(log, 0, second, Empty()), State(log, 6, second, Empty())]
  }

  lemma AbortRun()
    ensures IsRun(AbortStates(), AbortSteps(), map[])
  {
    hide Enabled, After;
    var states, steps := AbortStates(), AbortSteps();
    forall i | 0 <= i < 7
      ensures Enabled(states[i], steps[i]) && states[i + 1] == After(states[i], steps[i])
    {
      if i < 2 { AbortStep(i); } else if i == 2 { RollbackStep(); } else { CommitAgain(i); }
    }
  }

  lemma AbortStep(i: nat)
    requires i < 2
    ensures Enabled(AbortStates()[i], AbortSteps()[i])
    ensures AbortStates()[i + 1] == After(AbortStates()[i], AbortSteps()[i])
  {
    var log := AbortLog();
    assert LastOf(log[..1], 0, 0);
    assert log[..1] + [log[1]] == log[..2];
  }

  lemma RollbackStep()
    ensures Enabled(AbortStates()[2], AbortSteps()[2])
    ensures AbortStates()[3] == After(AbortStates()[2], AbortSteps()[2])
  {
    var log := AbortLog();
    var two := log[..2];
    assert LastOf(two, 0, 1);
    assert two + [log[2]] == log[..3];
    var first := Store(1, map[0 := [1]]);
    assert RolledBackPages(two, 0, 0, Store(1, map[])) == Store(1, map[]);
    assert RolledBackPages(two, 1, 0, Store(1, map[])) == Store(1, map[]);
    assert Recovery.UndoPage(first[Here.page], two[1]) == Page(1, map[]);
    assert first[Here.page := Page(1, map[])] == Store(1, map[]);
    assert RolledBackPages(two, 2, 0, first) == RolledBackPages(two, 1, 0, Store(1, map[]));
  }

  lemma CommitAgain(i: nat)
    requires 3 <= i < 7
    ensures Enabled(AbortStates()[i], AbortSteps()[i])
    ensures AbortStates()[i + 1] == After(AbortStates()[i], AbortSteps()[i])
  {
    var log := AbortLog();
    var four := log[..4];
    assert four[2].Abort? && OfTxn(four[1], four[2].tid) && Ended(four, 1);
    assert MayWrite(four, 1, Here);
    assert LastOf(four, 1, 3) && LastOf(log[..5], 1, 4);
    assert log[..3] + [log[3]] == four && four + [log[4]] == log[..5] && log[..5] + [log[5]] == log;
  }

  lemma AbortValues()
    ensures Committed(AbortLog(), map[], Here) == Some([2])
    ensures Loser(AbortLog(), 1) && Winner(AbortLog(), 4)
  {
    var log := AbortLog();
    assert log[5].Commit? && OfTxn(log[4], log[5].tid);
    assert Loser(log, 1) && Winner(log, 4);
    var keep := Winners(log);
    assert Replay(log, map[], keep, 5, Here) == Some([2]);
    assert Replay(log, map[], keep, 6, Here) == Some([2]);
  }

  lemma AbortUndone(x: Option<Bytes>)
    ensures UndoTo(AbortLog(), 0, Here, x) == None
  {
    hide Winner, Dropped;
    AbortValues();
    FirstLoserDecides(AbortLog(), Here, 1, x);
  }

  /** Recovery takes a rolled back insertion back once more, although another transaction
      has since written the location and committed. */
  method AbortLosesCommit() returns (pages: Pages)
    ensures IsRun(AbortStates(), AbortSteps(), map[]) && DurableLog(AbortStates()[7]) == AbortLog()
    ensures Committed(AbortLog(), map[], Here) == Some([2]) && !UndoKeeps(AbortLog(), map[], Here)
    ensures RecoveredFrom(AbortLog(), Empty(), pages) && !Recovered(AbortLog(), map[], pages)
    ensures Here.page in pages && Read(pages, Here) == None
  {
    hide IsRun, Recovered, UndoTo, RedoTo, Committed, Loser, Winner;
    var log := AbortLog();
    AbortRun();
    AbortValues();
    assert log[..6] == log;
    ghost var seen;
    pages, seen := CrashAndRecover(AbortStates(), AbortSteps(), map[], 7, log, Empty());
    assert !NoCommitAfterLoser(log, Here);
    AbortUndone(Some([2]));
    AbortUndone(RedoTo(log, 6, 0, Here, None));
    assert !UndoKeeps(log, map[], Here);
  }

  // An eviction before the record of the last write is durable

  function EarlySteps(): seq<Step> {
    [DoBegin(0), FlushLog, DoWrite(CommitLog()[1]), Evict(Here.page)]
  }

  function EarlyStates(): seq<State> {
    var log, full := CommitLog(), Store(1, map[0 := [7]]);
    [State([], 0, Empty(), Empty()), State(log[..1], 0, Empty(), Empty()), State(log[..1], 1, Empty(), Empty()),
     State(log[..2], 1, full, Empty()), State(log[..2], 1, full, full)]
  }

  lemma EarlyRun()
    ensures IsRun(EarlyStates(), EarlySteps(), map[])
  {
    hide Enabled, After;
    var states, steps := EarlyStates(), EarlySteps();
    forall i | 0 <= i < 4
      ensures Enabled(states[i], steps[i]) && states[i + 1] == After(states[i], steps[i])
    {
      EarlyStep(i);
    }
  }

  lemma EarlyStep(i: nat)
    requires i < 4
    ensures Enabled(EarlyStates()[i], EarlySteps()[i])
    ensures EarlyStates()[i + 1] == After(EarlyStates()[i], EarlySteps()[i])
  {
    var log := CommitLog();
    assert LastOf(log[..1], 0, 0);
    assert log[..1] + [log[1]] == log[..2];
  }

  lemma EarlyValues(log: seq<LogRecord>)
    requires log == [Begin(0, 0, -1)]
    ensures RecoveredValue(log, 1, Here, Some([7])) == Some([7]) && Committed(log, map[], Here) == None
  {
    assert RedoTo(log, 1, 1, Here, Some([7])) == RedoTo(log, 0, 1, Here, Some([7]));
    assert UndoTo(log, 0, Here, Some([7])) == UndoTo(log, 1, Here, Some([7]));
    assert Replay(log, map[], Winners(log), 1, Here) == Replay(log, map[], Winners(log), 0, Here);
  }

  /** A run after which recovery leaves a record that no transaction has committed, and
      whose log record is lost. */
  method EarlyEvictionKeepsUncommitted() returns (log: seq<LogRecord>, pages: Pages)
    ensures IsRun(EarlyStates(), EarlySteps(), map[]) && log == DurableLog(EarlyStates()[4])
    ensures RecoveredFrom(log, EarlyStates()[4].disk, pages) && !Recovered(log, map[], pages)
    ensures Here.page in pages && Read(pages, Here) == Some([7]) && Committed(log, map[], Here) == None
  {
    hide IsRun, Recovered, Committed, RecoveredValue;
    EarlyRun();
    log := [Begin(0, 0, -1)];
    ghost var seen;
    pages, seen := CrashAndRecover(EarlyStates(), EarlySteps(), map[], 4, log, Store(1, map[0 := [7]]));
    EarlyValues(log);
    NotRecovered(log, pages);
  }
}
