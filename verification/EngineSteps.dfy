/** Every step of normal operation keeps the invariant. */
module EngineSteps {
  import opened PageIds
  import opened RecoveryLog
  import opened Recovery
  import opened RecoveryHistory
  import opened Engine

  // A longer log

  lemma HistoryMore(log: seq<LogRecord>, r: LogRecord, base: Base, n: nat, loc: Loc)
    requires n <= |log|
    ensures History(log + [r], base, n, loc) == History(log, base, n, loc)
  {
    hide History;
    assert (log + [r])[..|log|] == log;
    HistoryPrefix(log + [r], base, |log|, n, loc);
  }

  lemma LinkedMore(log: seq<LogRecord>, r: LogRecord)
    requires Linked(log) && r.lsn == |log| && ChainOk(log + [r], |log|)
    ensures Linked(log + [r])
  {
    var more := log + [r];
    forall i | 0 <= i < |log|
      ensures ChainOk(more, i)
    {
      assert ChainOk(log, i);
    }
  }

  lemma StrictMore(log: seq<LogRecord>, r: LogRecord)
    requires Strict(log) && (IsWrite(r) ==> MayWrite(log, r.tid, r.loc))
    ensures Strict(log + [r])
  {
    hide Ended;
    var more := log + [r];
    forall i, j | 0 <= i < j < |more| && IsWrite(more[i]) && IsWrite(more[j])
                  && more[i].loc == more[j].loc && more[i].tid != more[j].tid
      ensures Ended(more[..j], i)
    {
      assert more[..j] == log[..j];
      assert log[..|log|] == log;
    }
  }

  lemma WellFormedMore(log: seq<LogRecord>, base: Base, r: LogRecord)
    requires WellFormed(log, base) && r.lsn == |log| && ChainOk(log + [r], |log|)
    requires IsWrite(r) ==> MayWrite(log, r.tid, r.loc) && History(log, base, |log|, r.loc) == Before(r)
    ensures WellFormed(log + [r], base)
  {
    hide History, Strict, ChainOk, Linked, MayWrite;
    var more := log + [r];
    LinkedMore(log, r);
    StrictMore(log, r);
    forall i | 0 <= i < |more|
      ensures ImageOk(more, base, i)
    {
      if IsWrite(more[i]) { HistoryMore(log, r, base, i, more[i].loc); }
      if i < |log| { assert ImageOk(log, base, i); }
    }
  }

  lemma AsOfMore(log: seq<LogRecord>, base: Base, r: LogRecord, pages: Pages, p: PageId, n: nat)
    requires p in pages && n <= |log| && AsOf(log, base, pages, p, n)
    requires TouchesPage(r, p) ==> log != []
    ensures AsOf(log + [r], base, pages, p, n)
  {
    hide History;
    forall slot: nat
      ensures Read(pages, Loc(p, slot)) == History(log + [r], base, n, Loc(p, slot))
    {
      HistoryMore(log, r, base, n, Loc(p, slot));
    }
  }

  lemma DiskMore(log: seq<LogRecord>, base: Base, r: LogRecord, disk: Pages, d: nat)
    requires !r.Checkpoint? && DiskOk(log, base, disk, d) && d <= |log|
    requires IsWrite(r) ==> log != []
    ensures DiskOk(log + [r], base, disk, d)
  {
    hide AsOf;
    forall p | p in disk
      ensures exists n: nat :: n <= |log| + 1 && AsOf(log + [r], base, disk, p, n) && CheckpointsBefore(log + [r], n)
    {
      var n: nat :| n <= |log| && AsOf(log, base, disk, p, n) && CheckpointsBefore(log, n);
      AsOfMore(log, base, r, disk, p, n);
    }
  }

  lemma BeginChain(log: seq<LogRecord>, t: TxnId)
    requires forall i :: 0 <= i < |log| ==> !OfTxn(log[i], t)
    ensures ChainOk(log + [Begin(|log|, t, -1)], |log|)
  {
  }

  lemma NextChain(log: seq<LogRecord>, r: LogRecord)
    requires (IsWrite(r) || r.Commit? || r.Abort?) && LastOf(log, r.tid, r.prev)
    ensures ChainOk(log + [r], |log|)
  {
  }

  /** A record that changes nothing in memory. */
  lemma QuietMem(log: seq<LogRecord>, base: Base, r: LogRecord, mem: Pages)
    requires (r.Begin? || r.Commit? || r.Checkpoint?) && MemOk(log, base, mem)
    ensures MemOk(log + [r], base, mem)
  {
    hide AsOf;
    forall p | p in mem
      ensures AsOf(log + [r], base, mem, p, |log| + 1)
    {
      AsOfMore(log, base, r, mem, p, |log|);
      AsOfQuiet(log, base, r, mem, p);
    }
  }

  lemma AsOfQuiet(log: seq<LogRecord>, base: Base, r: LogRecord, mem: Pages, p: PageId)
    requires (r.Begin? || r.Commit? || r.Checkpoint?) && p in mem && AsOf(log + [r], base, mem, p, |log|)
    ensures AsOf(log + [r], base, mem, p, |log| + 1)
  {
  }

  // A write

  lemma WriteMem(log: seq<LogRecord>, base: Base, r: LogRecord, mem: Pages)
    requires IsWrite(r) && r.lsn == |log| > 0 && r.loc.page in mem && MemOk(log, base, mem)
    ensures MemOk(log + [r], base, mem[r.loc.page := RedoPage(mem[r.loc.page], r)])
  {
    hide History, RedoPage;
    var more, mem' := log + [r], mem[r.loc.page := RedoPage(mem[r.loc.page], r)];
    RedoLsn(mem[r.loc.page], r);
    forall p | p in mem'
      ensures AsOf(more, base, mem', p, |more|)
    {
      assert AsOf(log, base, mem, p, |log|);
      forall slot: nat
        ensures Read(mem', Loc(p, slot)) == History(more, base, |more|, Loc(p, slot))
      {
        PageReads(mem, r, Loc(p, slot));
        WriteHistory(log, r, base, Loc(p, slot));
      }
    }
  }

  lemma WriteHistory(log: seq<LogRecord>, r: LogRecord, base: Base, loc: Loc)
    requires IsWrite(r)
    ensures var v := History(log, base, |log|, loc);
            History(log + [r], base, |log| + 1, loc) == if Touches(r, loc) then Redone(r, v) else v
  {
    HistoryMore(log, r, base, |log|, loc);
  }

  lemma MemHere(log: seq<LogRecord>, base: Base, mem: Pages, loc: Loc)
    requires MemOk(log, base, mem) && loc.page in mem
    ensures Read(mem, loc) == History(log, base, |log|, loc)
  {
    hide History;
    assert AsOf(log, base, mem, loc.page, |log|);
    assert loc == Loc(loc.page, loc.slot);
  }

  lemma WriteOk(s: State, base: Base, r: LogRecord)
    requires Inv(s, base) && Enabled(s, DoWrite(r))
    ensures Inv(After(s, DoWrite(r)), base)
  {
    hide WellFormed, MemOk, DiskOk, ChainOk, LastOf, MayWrite, History, RedoPage;
    NotEmpty(s.log, r);
    NextChain(s.log, r);
    MemHere(s.log, base, s.mem, r.loc);
    WellFormedMore(s.log, base, r);
    WriteMem(s.log, base, r, s.mem);
    DiskMore(s.log, base, r, s.disk, s.durable);
  }

  lemma NotEmpty(log: seq<LogRecord>, r: LogRecord)
    requires IsWrite(r) && LastOf(log, r.tid, r.prev)
    ensures log != []
  {
  }

  // A rollback

  lemma {:induction false} RolledBackReads(log: seq<LogRecord>, n: nat, t: TxnId, pages: Pages, loc: Loc)
    requires n <= |log| && loc.page in pages
    ensures var after := RolledBackPages(log, n, t, pages);
            && after.Keys == pages.Keys && after[loc.page].lsn == pages[loc.page].lsn
            && Read(after, loc) == RolledBackTo(log, n, t, loc, Read(pages, loc))
  {
    hide UndoPage;
    if n > 0 {
      var r := log[n - 1];
      if IsWrite(r) && r.tid == t && r.loc.page in pages {
        var p := r.loc.page;
        RedoLsn(pages[p], r);
        PageReads(pages, r, loc);
        RolledBackReads(log, n - 1, t, pages[p := UndoPage(pages[p], r)], loc);
      } else {
        RolledBackReads(log, n - 1, t, pages, loc);
      }
    }
  }

  lemma {:induction false} RolledBackKeys(log: seq<LogRecord>, n: nat, t: TxnId, pages: Pages)
    requires n <= |log|
    ensures RolledBackPages(log, n, t, pages).Keys == pages.Keys
  {
    hide UndoPage;
    if n > 0 {
      var r := log[n - 1];
      if IsWrite(r) && r.tid == t && r.loc.page in pages {
        RolledBackKeys(log, n - 1, t, pages[r.loc.page := UndoPage(pages[r.loc.page], r)]);
      } else {
        RolledBackKeys(log, n - 1, t, pages);
      }
    }
  }

  lemma AbortHistory(log: seq<LogRecord>, r: LogRecord, base: Base, loc: Loc)
    requires r.Abort?
    ensures History(log + [r], base, |log| + 1, loc)
         == RolledBackTo(log, |log|, r.tid, loc, History(log, base, |log|, loc))
  {
    hide RolledBackTo;
    HistoryMore(log, r, base, |log|, loc);
    assert (log + [r])[..|log|] == log;
    RolledBackPrefix(log + [r], |log|, |log|, r, loc, History(log, base, |log|, loc));
  }

  lemma AbortMem(log: seq<LogRecord>, base: Base, r: LogRecord, mem: Pages)
    requires r.Abort? && MemOk(log, base, mem)
    ensures RolledBackPages(log, |log|, r.tid, mem).Keys == mem.Keys
    ensures MemOk(log + [r], base, RolledBackPages(log, |log|, r.tid, mem))
  {
    hide History, RolledBackPages, RolledBackTo;
    var more, mem' := log + [r], RolledBackPages(log, |log|, r.tid, mem);
    RolledBackKeys(log, |log|, r.tid, mem);
    forall p | p in mem'
      ensures AsOf(more, base, mem', p, |more|)
    {
      assert AsOf(log, base, mem, p, |log|);
      RolledBackReads(log, |log|, r.tid, mem, Loc(p, 0));
      forall slot: nat
        ensures Read(mem', Loc(p, slot)) == History(more, base, |more|, Loc(p, slot))
      {
        RolledBackReads(log, |log|, r.tid, mem, Loc(p, slot));
        AbortHistory(log, r, base, Loc(p, slot));
      }
    }
  }

  lemma AbortOk(s: State, base: Base, t: TxnId, prev: int)
    requires Inv(s, base) && Enabled(s, DoAbort(t, prev))
    ensures Inv(After(s, DoAbort(t, prev)), base)
  {
    hide WellFormed, MemOk, DiskOk, ChainOk, LastOf, RolledBackPages;
    var r := Abort(|s.log|, t, prev);
    NextChain(s.log, r);
    WellFormedMore(s.log, base, r);
    AbortMem(s.log, base, r, s.mem);
    DiskMore(s.log, base, r, s.disk, s.durable);
  }

  // Pages and log reach the disk

  lemma CheckpointChain(log: seq<LogRecord>)
    ensures ChainOk(log + [Checkpoint(|log|)], |log|)
  {
  }

  lemma LsnsBelow(log: seq<LogRecord>, base: Base, mem: Pages)
    requires MemOk(log, base, mem)
    ensures forall p :: p in mem ==> mem[p].lsn <= |log|
  {
    hide History;
    forall p | p in mem
      ensures mem[p].lsn <= |log|
    {
      assert AsOf(log, base, mem, p, |log|);
    }
  }

  lemma CheckpointOk(s: State, base: Base)
    requires Inv(s, base)
    ensures Inv(After(s, DoCheckpoint), base)
  {
    hide WellFormed, AsOf, ChainOk;
    var r := Checkpoint(|s.log|);
    CheckpointChain(s.log);
    WellFormedMore(s.log, base, r);
    QuietMem(s.log, base, r, s.mem);
    LsnsBelow(s.log, base, s.mem);
    assert CheckpointsBefore(s.log + [r], |s.log| + 1);
    assert forall p :: p in s.mem ==> AsOf(s.log + [r], base, s.mem, p, |s.log| + 1);
  }

  lemma EvictOk(s: State, base: Base, p: PageId)
    requires Inv(s, base) && Enabled(s, Evict(p))
    ensures Inv(After(s, Evict(p)), base)
  {
    hide WellFormed, AsOf;
    var disk' := s.disk[p := s.mem[p]];
    assert CheckpointsBefore(s.log, |s.log|);
    forall q | q in disk'
      ensures exists n: nat :: n <= |s.log| && AsOf(s.log, base, disk', q, n) && CheckpointsBefore(s.log, n)
    {
      if q == p {
        AsOfSame(s.log, base, s.mem, disk', p, |s.log|);
      } else {
        var n: nat :| n <= |s.log| && AsOf(s.log, base, s.disk, q, n) && CheckpointsBefore(s.log, n);
        AsOfSame(s.log, base, s.disk, disk', q, n);
      }
    }
  }

  lemma AsOfSame(log: seq<LogRecord>, base: Base, pages: Pages, pages': Pages, p: PageId, n: nat)
    requires p in pages && p in pages' && pages[p] == pages'[p] && n <= |log| && AsOf(log, base, pages, p, n)
    ensures AsOf(log, base, pages', p, n)
  {
    hide History;
    assert forall slot: nat :: Read(pages, Loc(p, slot)) == Read(pages', Loc(p, slot));
  }

  lemma FlushLogOk(s: State, base: Base)
    requires Inv(s, base)
    ensures Inv(After(s, FlushLog), base)
  {
    hide WellFormed, MemOk, AsOf;
  }

  // Every step

  lemma AppendOk(s: State, base: Base, r: LogRecord)
    requires Inv(s, base) && (r.Begin? || r.Commit?) && r.lsn == |s.log| && ChainOk(s.log + [r], |s.log|)
    ensures Inv(s.(log := s.log + [r]), base)
  {
    hide WellFormed, MemOk, DiskOk, ChainOk;
    WellFormedMore(s.log, base, r);
    QuietMem(s.log, base, r, s.mem);
    DiskMore(s.log, base, r, s.disk, s.durable);
  }

  lemma StepOk(s: State, step: Step, base: Base)
    requires Inv(s, base) && Enabled(s, step)
    ensures Inv(After(s, step), base)
  {
    hide Inv, LastOf, ChainOk, MayWrite, RolledBackPages;
    match step
    case DoBegin(t) =>
      BeginChain(s.log, t);
      AppendOk(s, base, Begin(|s.log|, t, -1));
    case DoWrite(r) => WriteOk(s, base, r);
    case DoCommit(t, prev) =>
      NextChain(s.log, Commit(|s.log|, t, prev));
      AppendOk(s, base, Commit(|s.log|, t, prev));
    case DoAbort(t, prev) => AbortOk(s, base, t, prev);
    case FlushLog => FlushLogOk(s, base);
    case Evict(p) => EvictOk(s, base, p);
    case DoCheckpoint => CheckpointOk(s, base);
  }

  lemma InitialOk(s: State, base: Base)
    requires Initial(s, base)
    ensures Inv(s, base)
  {
    forall p | p in s.mem
      ensures AsOf(s.log, base, s.mem, p, 0)
    {
      assert forall slot: nat :: Read(s.mem, Loc(p, slot)) == At(base, Loc(p, slot));
    }
  }

  /** The invariant holds in every state of every run. */
  lemma {:induction false} RunOk(states: seq<State>, steps: seq<Step>, base: Base, i: nat)
    requires IsRun(states, steps, base) && i <= |steps|
    ensures Inv(states[i], base)
  {
    hide Inv, Enabled, After, Initial;
    if i == 0 {
      InitialOk(states[0], base);
    } else {
      RunOk(states, steps, base, i - 1);
      StepOk(states[i - 1], steps[i - 1], base);
    }
  }
}
