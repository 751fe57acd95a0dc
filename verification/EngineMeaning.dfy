/** What the steps of the engine do to the records that clients see. */
module EngineMeaning {
  import opened Defs
  import opened RecoveryLog
  import opened RecoveryHistory
  import opened RecoveryMeaning
  import opened Engine
  import opened EngineSteps

  /** A write shows the new bytes at its location, or nothing after a deletion, and touches
      no other location. */
  lemma WriteShows(s: State, r: LogRecord, loc: Loc)
    requires Enabled(s, DoWrite(r)) && loc.page in s.mem
    ensures var t := After(s, DoWrite(r));
            && t.mem.Keys == s.mem.Keys && t.mem[r.loc.page].lsn == |s.log|
            && Read(t.mem, loc) == (if loc != r.loc then Read(s.mem, loc)
                                    else if r.Delete? then None else Some(r.after))
  {
  }

  /** In every state of every run, memory holds what the last write says that has not been
      rolled back. */
  lemma MemoryIs(states: seq<State>, steps: seq<Step>, base: Base, i: nat, loc: Loc)
    requires IsRun(states, steps, base) && i <= |steps| && |states| == |steps| + 1 && loc.page in states[i].mem
    ensures var s := states[i];
            HoldsAfter(s.log, base, LastKept(s.log, LiveAt(s.log, |s.log|), |s.log|, loc), loc, Read(s.mem, loc))
  {
    hide WellFormed, History, LastKept, DiskOk, IsRun;
    RunOk(states, steps, base, i);
    var s := states[i];
    assert AsOf(s.log, base, s.mem, loc.page, |s.log|);
    HistoryIs(s.log, base, |s.log|, loc);
  }

  /** A rollback brings back what the first write of the transaction to a location found
      there, as its record says. */
  lemma AbortShows(s: State, base: Base, t: TxnId, prev: int, g: nat, loc: Loc)
    requires Inv(s, base) && Enabled(s, DoAbort(t, prev)) && loc.page in s.mem
    requires g < |s.log| && Touches(s.log[g], loc) && s.log[g].tid == t
    requires forall j :: 0 <= j < g && Touches(s.log[j], loc) ==> s.log[j].tid != t
    ensures var s' := After(s, DoAbort(t, prev));
            loc.page in s'.mem && Read(s'.mem, loc) == if s.log[g].Insert? then None else Some(s.log[g].before)
  {
    hide Linked, Strict, History, DiskOk, RolledBackPages, RolledBackTo, Ended, Enabled;
    var s', r := After(s, DoAbort(t, prev)), Abort(|s.log|, t, prev);
    StepOk(s, DoAbort(t, prev), base);
    var log := s.log + [r];
    assert s'.log == log && s'.mem.Keys == s.mem.Keys;
    assert AsOf(log, base, s'.mem, loc.page, |log|);
    WritesAlone(log, t, loc, g, |s.log|);
    RolledBackToFirst(log, base, |s.log|, t, loc, g, |s.log|);
    LastAbort(log, base, loc);
    assert ImageOk(log, base, g);
  }

  lemma LastAbort(log: seq<LogRecord>, base: Base, loc: Loc)
    requires log != [] && log[|log| - 1].Abort?
    ensures var n := |log| - 1;
            History(log, base, |log|, loc) == RolledBackTo(log, n, log[n].tid, loc, History(log, base, n, loc))
  {
  }

  /** A rollback leaves the locations alone that the transaction has not written. */
  lemma AbortSpares(s: State, base: Base, t: TxnId, prev: int, loc: Loc)
    requires Inv(s, base) && Enabled(s, DoAbort(t, prev)) && loc.page in s.mem
    requires forall j :: 0 <= j < |s.log| && Touches(s.log[j], loc) ==> s.log[j].tid != t
    ensures var s' := After(s, DoAbort(t, prev)); loc.page in s'.mem && Read(s'.mem, loc) == Read(s.mem, loc)
  {
    hide WellFormed, History, DiskOk, RolledBackPages, RolledBackTo, Enabled;
    var s', r := After(s, DoAbort(t, prev)), Abort(|s.log|, t, prev);
    StepOk(s, DoAbort(t, prev), base);
    assert AsOf(s'.log, base, s'.mem, loc.page, |s'.log|) && AsOf(s.log, base, s.mem, loc.page, |s.log|);
    AbortHistory(s.log, r, base, loc);
    RolledBackIdle(s.log, |s.log|, t, loc, History(s.log, base, |s.log|, loc));
  }
}
