/** What histories and committed values are in terms of the images that the records carry,
    without replaying anything. */
module RecoveryMeaning {
  import opened Defs
  import opened RecoveryLog
  import opened RecoveryAnalysis
  import opened RecoveryHistory

  /** The last of the first `n` records that writes the location and is kept, or -1. */
  ghost function LastKept(log: seq<LogRecord>, keep: set<int>, n: nat, loc: Loc): (i: int)
    requires n <= |log|
    ensures -1 <= i < n && (i >= 0 ==> Touches(log[i], loc) && i in keep)
    ensures forall j :: i < j < n && Touches(log[j], loc) ==> j !in keep
  {
    if n == 0 then -1
    else if Touches(log[n - 1], loc) && n - 1 in keep then n - 1
    else LastKept(log, keep, n - 1, loc)
  }

  /** What the location holds when record `i` was the last to write it: the new bytes after
      an insertion or an update, nothing after a deletion, and what was there at the
      beginning if there is no such record. */
  ghost predicate HoldsAfter(log: seq<LogRecord>, base: Base, i: int, loc: Loc, v: Option<Bytes>)
    requires -1 <= i < |log| && (i >= 0 ==> IsWrite(log[i]))
  {
    if i == -1 then v == if loc in base then Some(base[loc]) else None
    else if log[i].Delete? then v == None
    else v == Some(log[i].after)
  }

  /** The records that decide what write `i` found are the same whether one asks which are
      live or which are committed. */
  lemma WinnersAreLive(log: seq<LogRecord>, i: nat, j: nat)
    requires Linked(log) && Strict(log) && j < i < |log| && IsWrite(log[i]) && Touches(log[j], log[i].loc)
    requires Winner(log, i)
    ensures j in Winners(log) <==> j in LiveAt(log, i)
  {
    hide Linked, Strict, RolledBack;
    assert log[..|log|] == log;
    if log[j].tid == log[i].tid {
      var c :| i < c < |log| && log[c].Commit? && OfTxn(log[i], log[c].tid);
      assert OfTxn(log[j], log[c].tid) && Winner(log, j);
    } else {
      OthersEnded(log, i, j);
    }
    if Winner(log, j) { EndsOnce(log, j, |log|, i); }
  }

  /** A write of another transaction has been committed or rolled back before. */
  lemma OthersEnded(log: seq<LogRecord>, i: nat, j: nat)
    requires Strict(log) && j < i < |log| && IsWrite(log[i]) && Touches(log[j], log[i].loc) && log[j].tid != log[i].tid
    ensures Ended(log[..i], j) && (Winner(log, j) || RolledBack(log, j, i))
  {
    var l := log[..i];
    var e :| j < e < i && (l[e].Commit? || l[e].Abort?) && OfTxn(l[j], l[e].tid);
    assert log[e] == l[e];
  }

  /** What a committed write found is what the committed writes before it left. */
  lemma WinnerFound(log: seq<LogRecord>, base: Base, i: nat)
    requires WellFormed(log, base) && i < |log| && IsWrite(log[i]) && Winner(log, i)
    ensures Replay(log, base, Winners(log), i, log[i].loc) == Before(log[i])
  {
    hide Linked, Strict, Winner, RolledBack, Replay;
    var loc := log[i].loc;
    forall j | 0 <= j < i && Touches(log[j], loc)
      ensures j in Winners(log) <==> j in LiveAt(log, i)
    {
      WinnersAreLive(log, i, j);
    }
    ReplayAgree(log, log, base, Winners(log), LiveAt(log, i), i, loc);
    HistoryIsLive(log, base, i, loc);
    assert ImageOk(log, base, i);
  }

  /** The committed value is what the last committed write to the location says. */
  lemma CommittedIs(log: seq<LogRecord>, base: Base, loc: Loc)
    requires WellFormed(log, base)
    ensures HoldsAfter(log, base, LastKept(log, Winners(log), |log|, loc), loc, Committed(log, base, loc))
  {
    hide WellFormed, Winner, LastKept;
    var i := LastKept(log, Winners(log), |log|, loc);
    ReplayIdle(log, base, Winners(log), i + 1, |log|, loc);
    if i >= 0 { WinnerFound(log, base, i); }
  }

  /** What a write that has not been rolled back found is what those before it left that
      have not been either. */
  lemma LiveFound(log: seq<LogRecord>, base: Base, n: nat, i: nat)
    requires WellFormed(log, base) && i < n <= |log| && IsWrite(log[i]) && i in LiveAt(log, n)
    ensures Replay(log, base, LiveAt(log, n), i, log[i].loc) == Before(log[i])
  {
    hide Linked, Strict, RolledBack, Replay, Winner, Ended;
    var loc := log[i].loc;
    forall j | 0 <= j < i && Touches(log[j], loc)
      ensures j in LiveAt(log, n) <==> j in LiveAt(log, i)
    {
      if log[j].tid == log[i].tid {
        SameLife(log, i, j, n);
      } else {
        OthersEnded(log, i, j);
        RolledBackSettled(log, j, i, n);
      }
    }
    ReplayAgree(log, log, base, LiveAt(log, n), LiveAt(log, i), i, loc);
    HistoryIsLive(log, base, i, loc);
    assert ImageOk(log, base, i);
  }

  lemma SameLife(log: seq<LogRecord>, i: nat, j: nat, n: nat)
    requires Linked(log) && j < i < n <= |log| && IsWrite(log[i]) && IsWrite(log[j]) && log[i].tid == log[j].tid
    requires !RolledBack(log, i, n)
    ensures !RolledBack(log, j, n) && !RolledBack(log, j, i)
  {
    hide ChainOk;
    forall a | j < a < n && log[a].Abort?
      ensures !OfTxn(log[j], log[a].tid)
    {
      if a < i && OfTxn(log[j], log[a].tid) { NothingAfterEnd(log, a, i); }
    }
  }

  /** Memory holds what the last write says that has not been rolled back. */
  lemma HistoryIs(log: seq<LogRecord>, base: Base, n: nat, loc: Loc)
    requires WellFormed(log, base) && n <= |log|
    ensures HoldsAfter(log, base, LastKept(log, LiveAt(log, n), n, loc), loc, History(log, base, n, loc))
  {
    hide WellFormed, LiveAt, LastKept, History;
    var i := LastKept(log, LiveAt(log, n), n, loc);
    HistoryIsLive(log, base, n, loc);
    ReplayIdle(log, base, LiveAt(log, n), i + 1, n, loc);
    if i >= 0 { LiveFound(log, base, n, i); }
  }

  /** The store holds at each location what the last committed write to it says. */
  ghost predicate HoldsCommitted(log: seq<LogRecord>, base: Base, pages: Pages) {
    forall loc: Loc :: loc.page in pages ==>
      HoldsAfter(log, base, LastKept(log, Winners(log), |log|, loc), loc, Read(pages, loc))
  }

  lemma RecoveredMeans(log: seq<LogRecord>, base: Base, pages: Pages)
    requires WellFormed(log, base)
    ensures Recovered(log, base, pages) <==> HoldsCommitted(log, base, pages)
  {
    hide WellFormed, Winners, LastKept, Committed, Read;
    forall loc: Loc | loc.page in pages
      ensures Read(pages, loc) == Committed(log, base, loc) <==>
              HoldsAfter(log, base, LastKept(log, Winners(log), |log|, loc), loc, Read(pages, loc))
    {
      CommittedIs(log, base, loc);
    }
  }
}
