/** What a well-formed log tells about a location: the history that memory has seen, the
    committed value, and what undo makes of them. */
module RecoveryHistory {
  import opened Defs
  import opened RecoveryLog
  import opened Recovery
  import opened RecoveryAnalysis

  // Replaying

  lemma {:induction false} ReplayAgree(a: seq<LogRecord>, b: seq<LogRecord>, base: Base, keep: set<int>,
                                       keep': set<int>, n: nat, loc: Loc)
    requires n <= |a| && n <= |b| && forall i :: 0 <= i < n ==> a[i] == b[i]
    requires forall i :: 0 <= i < n && Touches(a[i], loc) ==> (i in keep <==> i in keep')
    ensures Replay(a, base, keep, n, loc) == Replay(b, base, keep', n, loc)
  {
    if n > 0 { ReplayAgree(a, b, base, keep, keep', n - 1, loc); }
  }

  /** Only inserts and deletes decide whether there is a record. */
  lemma {:induction false} ReplayPresence(a: seq<LogRecord>, b: seq<LogRecord>, base: Base, keep: set<int>,
                                          keep': set<int>, n: nat, loc: Loc)
    requires n <= |a| && n <= |b| && forall i :: 0 <= i < n ==> a[i] == b[i]
    requires forall i :: 0 <= i < n && Touches(a[i], loc) && !a[i].Update? ==> (i in keep <==> i in keep')
    ensures Replay(a, base, keep, n, loc).Some? <==> Replay(b, base, keep', n, loc).Some?
  {
    if n > 0 { ReplayPresence(a, b, base, keep, keep', n - 1, loc); }
  }

  lemma {:induction false} ReplayIdle(log: seq<LogRecord>, base: Base, keep: set<int>, m: nat, n: nat, loc: Loc)
    requires m <= n <= |log| && forall i :: m <= i < n && Touches(log[i], loc) ==> i !in keep
    ensures Replay(log, base, keep, n, loc) == Replay(log, base, keep, m, loc)
  {
    if m < n { ReplayIdle(log, base, keep, m, n - 1, loc); }
  }

  lemma {:induction false} UpdatesIdle(log: seq<LogRecord>, base: Base, keep: set<int>, m: nat, n: nat, loc: Loc)
    requires m <= n <= |log| && forall i :: m <= i < n && Touches(log[i], loc) ==> log[i].Update?
    ensures Replay(log, base, keep, n, loc).Some? <==> Replay(log, base, keep, m, loc).Some?
  {
    if m < n { UpdatesIdle(log, base, keep, m, n - 1, loc); }
  }

  // Ends of transactions

  /** The transaction of record `i` has an abort record among the first `n`. */
  ghost predicate RolledBack(log: seq<LogRecord>, i: nat, n: nat)
    requires i < |log| && n <= |log|
  {
    exists a :: i < a < n && log[a].Abort? && OfTxn(log[i], log[a].tid)
  }

  /** The records that have not been rolled back within the first `n`. */
  ghost function LiveAt(log: seq<LogRecord>, n: nat): set<int>
    requires n <= |log|
  {
    set i | 0 <= i < |log| && !RolledBack(log, i, n)
  }

  lemma EndsOnce(log: seq<LogRecord>, i: nat, d: nat, n: nat)
    requires Linked(log) && i < d <= |log| && Winner(log[..d], i) && n <= |log|
    ensures !RolledBack(log, i, n)
  {
    hide ChainOk;
    var l := log[..d];
    var c :| i < c < d && l[c].Commit? && OfTxn(l[i], l[c].tid);
    assert log[c].Commit?;
    forall a | i < a < n && log[a].Abort?
      ensures !OfTxn(log[i], log[a].tid)
    {
      if a < c { NothingAfterEnd(log, a, c); } else { NothingAfterEnd(log, c, a); }
    }
  }

  /** Once it has ended, a transaction is rolled back now or never. */
  lemma RolledBackSettled(log: seq<LogRecord>, i: nat, g: nat, n: nat)
    requires Linked(log) && i < g <= n <= |log| && Ended(log[..g], i)
    ensures RolledBack(log, i, n) <==> RolledBack(log, i, g)
  {
    hide ChainOk;
    var l := log[..g];
    var e :| i < e < g && (l[e].Commit? || l[e].Abort?) && OfTxn(l[i], l[e].tid);
    assert log[e] == l[e];
    forall a | g <= a < n && log[a].Abort?
      ensures !OfTxn(log[i], log[a].tid)
    {
      NothingAfterEnd(log, e, a);
    }
  }

  // Rollback

  lemma {:induction false} RolledBackIdle(log: seq<LogRecord>, n: nat, t: TxnId, loc: Loc, v: Option<Bytes>)
    requires n <= |log| && forall i :: 0 <= i < n && Touches(log[i], loc) ==> log[i].tid != t
    ensures RolledBackTo(log, n, t, loc, v) == v
  {
    if n > 0 { RolledBackIdle(log, n - 1, t, loc, v); }
  }

  /** The first write of the transaction to the location. */
  lemma {:induction false} FirstWrite(log: seq<LogRecord>, t: TxnId, loc: Loc, k: nat) returns (g: nat)
    requires k < |log| && Touches(log[k], loc) && log[k].tid == t
    ensures g <= k && Touches(log[g], loc) && log[g].tid == t
    ensures forall i :: 0 <= i < g && Touches(log[i], loc) ==> log[i].tid != t
    decreases k
  {
    if j :| 0 <= j < k && Touches(log[j], loc) && log[j].tid == t {
      g := FirstWrite(log, t, loc, j);
    } else {
      g := k;
    }
  }

  /** Between `g` and `n` only the transaction writes the location, and those who wrote it
      before have ended. */
  ghost predicate Alone(log: seq<LogRecord>, t: TxnId, loc: Loc, g: nat, n: nat)
    requires g <= n <= |log|
  {
    && (forall i :: 0 <= i < g && Touches(log[i], loc) ==> log[i].tid != t && Ended(log[..g], i))
    && (forall i :: g <= i < n && Touches(log[i], loc) ==> log[i].tid == t)
  }

  lemma WritesAlone(log: seq<LogRecord>, t: TxnId, loc: Loc, g: nat, n: nat)
    requires Linked(log) && Strict(log) && g < n < |log| && OfTxn(log[n], t)
    requires Touches(log[g], loc) && log[g].tid == t
    requires forall i :: 0 <= i < g && Touches(log[i], loc) ==> log[i].tid != t
    ensures Alone(log, t, loc, g, n)
  {
    hide Linked, Ended;
    forall i | g <= i < n && Touches(log[i], loc)
      ensures log[i].tid == t
    {
      if log[i].tid != t { EndedBefore(log, g, i, n); }
    }
  }

  lemma EndedBefore(log: seq<LogRecord>, i: nat, g: nat, k: nat)
    requires Linked(log) && i < g <= k < |log| && IsWrite(log[i]) && Ended(log[..g], i)
    ensures !OfTxn(log[k], log[i].tid)
  {
    hide ChainOk;
    var l := log[..g];
    var e :| i < e < g && (l[e].Commit? || l[e].Abort?) && OfTxn(l[i], l[e].tid);
    assert log[e] == l[e];
    NothingAfterEnd(log, e, k);
  }

  /** Undoing the writes of a transaction from its first one on gives what that found. */
  lemma {:induction false} RolledBackToFirst(log: seq<LogRecord>, base: Base, k: nat, t: TxnId, loc: Loc, g: nat,
                                             n: nat)
    requires WellFormed(log, base) && g <= k <= n < |log| && OfTxn(log[n], t) && Alone(log, t, loc, g, n)
    ensures RolledBackTo(log, k, t, loc, History(log, base, k, loc)) == History(log, base, g, loc)
    decreases k
  {
    hide Linked, Strict, Ended;
    if k == g {
      RolledBackIdle(log, k, t, loc, History(log, base, k, loc));
    } else {
      var r := log[k - 1];
      if Touches(r, loc) {
        assert ImageOk(log, base, k - 1);
      } else if r.Abort? {
        AbortElsewhere(log, t, loc, g, k - 1, n);
        RolledBackIdle(log, k - 1, r.tid, loc, History(log, base, k - 1, loc));
      }
      RolledBackToFirst(log, base, k - 1, t, loc, g, n);
    }
  }

  lemma AbortElsewhere(log: seq<LogRecord>, t: TxnId, loc: Loc, g: nat, k: nat, n: nat)
    requires Linked(log) && g <= k < n < |log| && OfTxn(log[n], t) && Alone(log, t, loc, g, n) && log[k].Abort?
    ensures forall i :: 0 <= i < k && Touches(log[i], loc) ==> log[i].tid != log[k].tid
  {
    hide Linked, Ended;
    NothingAfterEnd(log, k, n);
    forall i | 0 <= i < k && Touches(log[i], loc) && i < g
      ensures log[i].tid != log[k].tid
    {
      EndedBefore(log, i, g, k);
    }
  }

  // History

  /** Memory holds what replaying all records gives that have not been rolled back. */
  lemma {:induction false} HistoryIsLive(log: seq<LogRecord>, base: Base, n: nat, loc: Loc)
    requires WellFormed(log, base) && n <= |log|
    ensures History(log, base, n, loc) == Replay(log, base, LiveAt(log, n), n, loc)
    decreases n
  {
    hide Linked, Strict, ImageOk, RolledBack;
    if n > 0 {
      var m := n - 1;
      HistoryIsLive(log, base, m, loc);
      if log[m].Abort? {
        AbortIsLive(log, base, m, loc);
      } else {
        LiveSame(log, m);
        ReplayAgree(log, log, base, LiveAt(log, m), LiveAt(log, n), m, loc);
        assert m in LiveAt(log, n) by { NewIsLive(log, m); }
      }
    }
  }

  lemma NewIsLive(log: seq<LogRecord>, m: nat)
    requires m < |log|
    ensures !RolledBack(log, m, m + 1)
  {
  }

  lemma LiveSame(log: seq<LogRecord>, m: nat)
    requires m < |log| && !log[m].Abort?
    ensures forall i :: 0 <= i < m ==> (RolledBack(log, i, m + 1) <==> RolledBack(log, i, m))
  {
  }

  lemma LiveElsewhere(log: seq<LogRecord>, m: nat, i: nat)
    requires i < m < |log| && log[m].Abort? && !OfTxn(log[i], log[m].tid)
    ensures RolledBack(log, i, m + 1) <==> RolledBack(log, i, m)
  {
  }

  lemma {:induction false} AbortIsLive(log: seq<LogRecord>, base: Base, m: nat, loc: Loc)
    requires WellFormed(log, base) && m < |log| && log[m].Abort?
    requires History(log, base, m, loc) == Replay(log, base, LiveAt(log, m), m, loc)
    ensures History(log, base, m + 1, loc) == Replay(log, base, LiveAt(log, m + 1), m + 1, loc)
    decreases m
  {
    hide Linked, Strict, ImageOk, RolledBack, Ended;
    var t, live := log[m].tid, LiveAt(log, m + 1);
    if k :| 0 <= k < m && Touches(log[k], loc) && log[k].tid == t {
      var g := FirstWrite(log, t, loc, k);
      WritesAlone(log, t, loc, g, m);
      RolledBackToFirst(log, base, m, t, loc, g, m);
      HistoryIsLive(log, base, g, loc);
      forall i | 0 <= i < m && Touches(log[i], loc)
        ensures if i < g then i in live <==> i in LiveAt(log, g) else i !in live
      {
        if i < g { RolledBackSettled(log, i, g, m + 1); } else { RolledBackHere(log, i, m); }
      }
      ReplayIdle(log, base, live, g, m, loc);
      ReplayAgree(log, log, base, live, LiveAt(log, g), g, loc);
    } else {
      RolledBackIdle(log, m, t, loc, History(log, base, m, loc));
      forall i | 0 <= i < m && Touches(log[i], loc)
        ensures i in live <==> i in LiveAt(log, m)
      {
        LiveElsewhere(log, m, i);
      }
      ReplayAgree(log, log, base, live, LiveAt(log, m), m, loc);
    }
  }

  lemma RolledBackHere(log: seq<LogRecord>, i: nat, m: nat)
    requires i < m < |log| && log[m].Abort? && OfTxn(log[i], log[m].tid)
    ensures RolledBack(log, i, m + 1)
  {
  }

  // The durable part of a log

  lemma {:induction false} HistoryPrefix(log: seq<LogRecord>, base: Base, d: nat, n: nat, loc: Loc)
    requires n <= d <= |log|
    ensures History(log[..d], base, n, loc) == History(log, base, n, loc)
  {
    if n > 0 {
      HistoryPrefix(log, base, d, n - 1, loc);
      RolledBackPrefix(log, d, n - 1, log[n - 1], loc, History(log, base, n - 1, loc));
    }
  }

  lemma {:induction false} RolledBackPrefix(log: seq<LogRecord>, d: nat, n: nat, r: LogRecord, loc: Loc,
                                            v: Option<Bytes>)
    requires n <= d <= |log|
    ensures r.Abort? ==> RolledBackTo(log[..d], n, r.tid, loc, v) == RolledBackTo(log, n, r.tid, loc, v)
  {
    if n > 0 && r.Abort? {
      var u := if Touches(log[n - 1], loc) && log[n - 1].tid == r.tid then Undone(log[n - 1], v) else v;
      RolledBackPrefix(log, d, n - 1, r, loc, u);
    }
  }

  lemma LinkedPrefix(log: seq<LogRecord>, d: nat)
    requires Linked(log) && d <= |log|
    ensures Linked(log[..d])
  {
    forall i | 0 <= i < d
      ensures ChainOk(log[..d], i)
    {
      assert ChainOk(log, i);
    }
  }

  lemma StrictPrefix(log: seq<LogRecord>, d: nat)
    requires Strict(log) && d <= |log|
    ensures Strict(log[..d])
  {
    hide Ended;
    assert forall j :: 0 <= j <= d ==> log[..d][..j] == log[..j];
  }

  lemma WellFormedPrefix(log: seq<LogRecord>, base: Base, d: nat)
    requires WellFormed(log, base) && d <= |log|
    ensures WellFormed(log[..d], base)
  {
    hide Linked, Strict, History;
    LinkedPrefix(log, d);
    StrictPrefix(log, d);
    forall i | 0 <= i < d
      ensures ImageOk(log[..d], base, i)
    {
      if IsWrite(log[i]) { HistoryPrefix(log, base, d, i, log[i].loc); }
      assert ImageOk(log, base, i);
    }
  }

  // What undo makes of it

  /** All checkpoints come before record `n`. */
  ghost predicate CheckpointsBefore(log: seq<LogRecord>, n: nat) {
    forall c :: 0 <= c < |log| && log[c].Checkpoint? ==> c < n
  }

  /** A write of the durable log: committed ones are live, forgotten ones are not. */
  lemma KeptOrNot(log: seq<LogRecord>, d: nat, n: nat, i: nat)
    requires Linked(log) && i < d <= |log| && n <= |log| && CheckpointsBefore(log, n) && IsWrite(log[i])
    ensures Winner(log[..d], i) ==> i in LiveAt(log, n)
    ensures Dropped(log[..d], i) ==> i !in LiveAt(log, n) && !Winner(log[..d], i)
  {
    hide Linked, Winner;
    if Winner(log[..d], i) { EndsOnce(log, i, d, n); }
    if Dropped(log[..d], i) { DroppedIsRolledBack(log, d, n, i); }
  }

  lemma DroppedIsRolledBack(log: seq<LogRecord>, d: nat, n: nat, i: nat)
    requires i < d <= |log| && n <= |log| && CheckpointsBefore(log, n) && Dropped(log[..d], i)
    ensures RolledBack(log, i, n)
  {
    var l := log[..d];
    var a, c :| i < a < c < d && l[a].Abort? && OfTxn(l[i], l[a].tid) && l[c].Checkpoint?;
    assert log[c].Checkpoint? && log[a] == l[a];
  }

  /** History and the committed value agree where there is no loser, and undo makes the
      same of both in any case. */
  lemma UndoneHistory(log: seq<LogRecord>, base: Base, d: nat, n: nat, loc: Loc)
    requires Linked(log) && d <= |log| && n <= |log| && CheckpointsBefore(log, n)
    ensures var x, c := Replay(log, base, LiveAt(log, n), d, loc), Committed(log[..d], base, loc);
            && (NoLoser(log[..d], loc, 0) ==> x == c)
            && (OnlyUpdates(log[..d], loc, 0) ==> (x.Some? <==> c.Some?))
            && UndoTo(log[..d], 0, loc, x) == UndoTo(log[..d], 0, loc, c)
  {
    hide Linked, Winner, Dropped, Replay, RolledBack, UndoTo;
    var l, live := log[..d], LiveAt(log, n);
    var x, c := Replay(log, base, live, d, loc), Committed(l, base, loc);
    forall i | 0 <= i < d && Touches(log[i], loc)
      ensures Winner(l, i) ==> i in live
      ensures Dropped(l, i) ==> i !in live && !Winner(l, i)
    {
      KeptOrNot(log, d, n, i);
    }
    if NoLoser(l, loc, 0) {
      assert forall i :: 0 <= i < d && Touches(l[i], loc) ==> !Loser(l, i);
      ReplayAgree(log, l, base, live, Winners(l), d, loc);
    }
    if OnlyUpdates(l, loc, 0) {
      forall i | 0 <= i < d && Touches(log[i], loc) && !log[i].Update?
        ensures i in live <==> i in Winners(l)
      {
        assert !(Touches(l[i], loc) && Loser(l, i));
      }
      ReplayPresence(log, l, base, live, Winners(l), d, loc);
    }
    UndoSame(l, 0, loc, x, c);
  }

  // When undo leaves the committed value alone

  /** No committed write to the location follows one that undo takes back. */
  ghost predicate NoCommitAfterLoser(log: seq<LogRecord>, loc: Loc) {
    forall i, j :: 0 <= i < j < |log| && Touches(log[i], loc) && Touches(log[j], loc) && Loser(log, i) ==>
        !Winner(log, j)
  }

  /** Undo leaves the committed value: it takes back nothing that a committed write
      followed, or it puts back just that value. */
  ghost predicate UndoKeeps(log: seq<LogRecord>, base: Base, loc: Loc) {
    || NoCommitAfterLoser(log, loc)
    || Committed(log, base, loc) == UndoTo(log, 0, loc, Committed(log, base, loc))
  }

  lemma {:induction false} FirstLoser(log: seq<LogRecord>, loc: Loc, k: nat) returns (i: nat)
    requires k < |log| && Touches(log[k], loc) && Loser(log, k)
    ensures i <= k && Touches(log[i], loc) && Loser(log, i)
    ensures forall j :: 0 <= j < i && Touches(log[j], loc) ==> !Loser(log, j)
    decreases k
  {
    hide Loser;
    if j :| 0 <= j < k && Touches(log[j], loc) && Loser(log, j) {
      i := FirstLoser(log, loc, j);
    } else {
      i := k;
    }
  }

  lemma {:induction false} UndoFrom(log: seq<LogRecord>, m: nat, n: nat, loc: Loc, x: Option<Bytes>)
    requires m <= n <= |log| && forall i :: m <= i < n && Touches(log[i], loc) ==> !Loser(log, i)
    ensures UndoTo(log, m, loc, x) == UndoTo(log, n, loc, x)
    decreases n - m
  {
    hide Loser;
    if m < n { UndoFrom(log, m + 1, n, loc, x); }
  }

  /** The first loser decides what undo puts back: what it found, or nothing. */
  lemma FirstLoserDecides(log: seq<LogRecord>, loc: Loc, i: nat, x: Option<Bytes>)
    requires i < |log| && Touches(log[i], loc) && Loser(log, i)
    requires forall j :: 0 <= j < i && Touches(log[j], loc) ==> !Loser(log, j)
    ensures UndoTo(log, 0, loc, x) == Undone(log[i], UndoTo(log, i + 1, loc, x))
    ensures UndoTo(log, 0, loc, x) == Before(log[i]) || (log[i].Update? && UndoTo(log, 0, loc, x) == None)
  {
    hide Loser;
    UndoFrom(log, 0, i, loc, x);
  }

  /** Other transactions that wrote the location before a loser have ended before it. */
  lemma EndedBeforeLoser(log: seq<LogRecord>, i: nat, k: nat)
    requires Linked(log) && Strict(log) && i < k < |log| && IsWrite(log[k]) && Touches(log[i], log[k].loc)
    requires Loser(log, k) && !Loser(log, i)
    ensures Ended(log[..k], i)
  {
    hide Linked, Ended, Loser;
    if log[i].tid == log[k].tid { SameFate(log, i, k); }
  }

  lemma SameFate(log: seq<LogRecord>, i: nat, k: nat)
    requires Linked(log) && i < k < |log| && IsWrite(log[i]) && IsWrite(log[k]) && log[i].tid == log[k].tid
    ensures Loser(log, i) <==> Loser(log, k)
  {
    hide ChainOk;
    if Finished(log, k) { FinishedBefore(log, i, k); }
    if Winner(log, i) {
      var c :| i < c < |log| && log[c].Commit? && OfTxn(log[i], log[c].tid);
      if c < k { NothingAfterEnd(log, c, k); }
      assert OfTxn(log[k], log[c].tid);
    } else if Dropped(log, i) {
      var a, c :| i < a < c < |log| && log[a].Abort? && OfTxn(log[i], log[a].tid) && log[c].Checkpoint?;
      if a < k { NothingAfterEnd(log, a, k); }
      assert OfTxn(log[k], log[a].tid);
    }
  }

  lemma FinishedBefore(log: seq<LogRecord>, i: nat, k: nat)
    requires i < k < |log| && IsWrite(log[i]) && IsWrite(log[k]) && log[i].tid == log[k].tid && Finished(log, k)
    ensures Finished(log, i)
  {
    if Winner(log, k) {
      var c :| k < c < |log| && log[c].Commit? && OfTxn(log[k], log[c].tid);
      assert OfTxn(log[i], log[c].tid);
    } else {
      var a, c :| k < a < c < |log| && log[a].Abort? && OfTxn(log[k], log[a].tid) && log[c].Checkpoint?;
      assert OfTxn(log[i], log[a].tid);
    }
  }

  /** When a later write has been forgotten, so has this one, or it is committed. */
  lemma ForgottenBefore(log: seq<LogRecord>, i: nat, k: nat)
    requires Strict(log) && i < k < |log| && IsWrite(log[i]) && Touches(log[k], log[i].loc)
    ensures Dropped(log, k) ==> Finished(log, i)
  {
    if Dropped(log, k) {
      var a, c :| k < a < c < |log| && log[a].Abort? && OfTxn(log[k], log[a].tid) && log[c].Checkpoint?;
      if log[i].tid == log[k].tid {
        assert OfTxn(log[i], log[a].tid);
      } else {
        var l := log[..k];
        var e :| i < e < k && (l[e].Commit? || l[e].Abort?) && OfTxn(l[i], l[e].tid);
        assert log[e] == l[e];
      }
    }
  }

  /** The committed value before the first loser is what that found. */
  lemma CommittedBefore(log: seq<LogRecord>, base: Base, i: nat)
    requires WellFormed(log, base) && i < |log| && IsWrite(log[i]) && Loser(log, i)
    requires forall j :: 0 <= j < i && Touches(log[j], log[i].loc) ==> !Loser(log, j)
    ensures Replay(log, base, Winners(log), i, log[i].loc) == Before(log[i])
  {
    hide Linked, Strict, Winner, Dropped, RolledBack, Replay, Ended;
    var loc := log[i].loc;
    assert log[..|log|] == log;
    forall j | 0 <= j < i && Touches(log[j], loc)
      ensures j in Winners(log) <==> j in LiveAt(log, i)
    {
      EndedBeforeLoser(log, j, i);
      RolledBackSettled(log, j, i, |log|);
      if Winner(log, j) { EndsOnce(log, j, |log|, i); } else { DroppedIsRolledBack(log, |log|, |log|, j); }
    }
    ReplayAgree(log, log, base, Winners(log), LiveAt(log, i), i, loc);
    HistoryIsLive(log, base, i, loc);
    assert ImageOk(log, base, i);
  }

  /** From the first loser on, updates do not change that there is a record. */
  lemma StillThere(log: seq<LogRecord>, base: Base, i: nat, k: nat)
    requires WellFormed(log, base) && i <= k <= |log| && i < |log| && IsWrite(log[i]) && Loser(log, i)
    requires forall j :: 0 <= j < i && Touches(log[j], log[i].loc) ==> !Loser(log, j)
    requires forall j :: i <= j < k && Touches(log[j], log[i].loc) ==> log[j].Update?
    ensures History(log, base, k, log[i].loc).Some? <==> History(log, base, i, log[i].loc).Some?
  {
    hide Linked, Strict, ImageOk, Winner, Dropped, RolledBack, Replay, Ended, History;
    var loc := log[i].loc;
    HistoryIsLive(log, base, i, loc);
    HistoryIsLive(log, base, k, loc);
    UpdatesIdle(log, base, LiveAt(log, k), i, k, loc);
    forall j | 0 <= j < i && Touches(log[j], loc)
      ensures j in LiveAt(log, i) <==> j in LiveAt(log, k)
    {
      EndedBeforeLoser(log, j, i);
      RolledBackSettled(log, j, i, k);
    }
    ReplayAgree(log, log, base, LiveAt(log, i), LiveAt(log, k), i, loc);
  }

  /** Undoing what follows an update that is the first loser leaves a record. */
  lemma {:induction false} UndoneToUpdate(log: seq<LogRecord>, base: Base, i: nat, k: nat, x: Option<Bytes>)
    requires WellFormed(log, base) && i < k <= |log| && log[i].Update? && Loser(log, i) && x.Some?
    requires NoCommitAfterLoser(log, log[i].loc)
    requires forall j :: 0 <= j < i && Touches(log[j], log[i].loc) ==> !Loser(log, j)
    requires forall j :: i <= j < k && Touches(log[j], log[i].loc) ==> log[j].Update?
    ensures UndoTo(log, k, log[i].loc, x).Some?
    decreases |log| - k
  {
    hide Linked, Strict, Winner, Dropped, History;
    var loc := log[i].loc;
    if k < |log| {
      if Touches(log[k], loc) {
        ForgottenBefore(log, i, k);
        assert Loser(log, k);
        StillThere(log, base, i, k);
        assert ImageOk(log, base, i) && ImageOk(log, base, k);
      }
      if !Touches(log[k], loc) || log[k].Update? { UndoneToUpdate(log, base, i, k + 1, x); }
    }
  }

  /** Undo that takes back nothing that a committed write followed leaves the committed
      value, so that this is what `UndoKeeps` says in any case. */
  lemma UndoKeepsIff(log: seq<LogRecord>, base: Base, loc: Loc)
    requires WellFormed(log, base)
    ensures UndoKeeps(log, base, loc) <==> UndoTo(log, 0, loc, Committed(log, base, loc)) == Committed(log, base, loc)
  {
    hide WellFormed, Winner, Dropped, UndoTo, Replay;
    var c := Committed(log, base, loc);
    if k :| 0 <= k < |log| && Touches(log[k], loc) && Loser(log, k) {
      var i := FirstLoser(log, loc, k);
      if NoCommitAfterLoser(log, loc) {
        ReplayIdle(log, base, Winners(log), i, |log|, loc);
        CommittedBefore(log, base, i);
        FirstLoserDecides(log, loc, i, c);
        if log[i].Update? { UndoneToUpdate(log, base, i, i + 1, c); }
      }
    } else {
      UndoNothing(log, 0, loc, c);
    }
  }
}
