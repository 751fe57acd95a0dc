/** What analysis finds in the log: offsets, dirty pages and active transactions. */
module RecoveryAnalysis {
  import opened PageIds
  import opened RecoveryLog

  /** The write is finished within the first `n` records. */
  ghost predicate FinishedBy(log: seq<LogRecord>, i: nat, n: nat)
    requires i < n <= |log|
  {
    || (exists c :: i < c < n && log[c].Commit? && OfTxn(log[i], log[c].tid))
    || (exists a, c :: i < a < c < n && log[a].Abort? && OfTxn(log[i], log[a].tid) && log[c].Checkpoint?)
  }

  ghost predicate AbortedBy(log: seq<LogRecord>, t: TxnId, n: nat)
    requires n <= |log|
  {
    exists a :: 0 <= a < n && log[a].Abort? && OfTxn(log[a], t)
  }

  /** The active transactions, each with its last begin or write record: all that have
      neither committed nor been rolled back before a checkpoint. */
  ghost predicate AttOk(log: seq<LogRecord>, n: nat, att: map<TxnId, int>, aborted: set<TxnId>)
    requires n <= |log|
  {
    && (forall t :: t in att ==>
        0 <= att[t] < n && OfTxn(log[att[t]], t) && (log[att[t]].Begin? || IsWrite(log[att[t]])))
    && (forall t, j :: t in att && att[t] < j < n && OfTxn(log[j], t) ==>
          log[j].Abort? && t in aborted && SinceCheckpoint(log, j, n))
    && (forall i :: 0 <= i < n && IsWrite(log[i]) ==> log[i].tid in att || FinishedBy(log, i, n))
    && (forall t :: t in aborted ==> AbortedBy(log, t, n))
  }

  /** The dirty pages are those written since the last checkpoint, each with its first write. */
  ghost predicate DptOk(log: seq<LogRecord>, n: nat, dpt: map<PageId, int>)
    requires n <= |log|
  {
    && (forall p :: p in dpt ==> 0 <= dpt[p] < n && TouchesPage(log[dpt[p]], p) && SinceCheckpoint(log, dpt[p], n))
    && (forall i :: 0 <= i < n && IsWrite(log[i]) && SinceCheckpoint(log, i, n) ==>
          log[i].loc.page in dpt && dpt[log[i].loc.page] <= i)
  }

  /** The offset of every record scanned so far, and of no other. */
  ghost predicate OffsetsOk(offsets: map<int, nat>, n: nat) {
    && (forall i :: 0 <= i < n ==> i in offsets && offsets[i] == i)
    && (forall i :: i in offsets ==> i < n)
  }

  // One record at a time

  lemma OffsetNew(offsets: map<int, nat>, n: nat)
    requires OffsetsOk(offsets, n)
    ensures n !in offsets && OffsetsOk(offsets[n := n], n + 1)
  {
  }

  lemma EmptyLog(log: seq<LogRecord>)
    ensures AttOk(log, 0, map[], {}) && DptOk(log, 0, map[]) && OffsetsOk(map[], 0)
  {
  }

  lemma DirtyCheckpoint(log: seq<LogRecord>, n: nat)
    requires n < |log| && log[n].Checkpoint?
    ensures DptOk(log, n + 1, map[])
  {
  }

  lemma DirtySame(log: seq<LogRecord>, n: nat, dpt: map<PageId, int>)
    requires n < |log| && !log[n].Checkpoint? && DptOk(log, n, dpt)
    requires IsWrite(log[n]) ==> log[n].loc.page in dpt
    ensures DptOk(log, n + 1, dpt)
  {
    assert forall i :: 0 <= i <= n && SinceCheckpoint(log, i, n + 1) ==> SinceCheckpoint(log, i, n);
  }

  lemma DirtyNew(log: seq<LogRecord>, n: nat, dpt: map<PageId, int>)
    requires n < |log| && IsWrite(log[n]) && log[n].loc.page !in dpt && DptOk(log, n, dpt)
    ensures DptOk(log, n + 1, dpt[log[n].loc.page := n])
  {
    assert forall i :: 0 <= i <= n && SinceCheckpoint(log, i, n + 1) ==> SinceCheckpoint(log, i, n);
  }

  /** A transaction writes no record after its commit or abort record. */
  lemma {:induction false} NothingAfterEnd(log: seq<LogRecord>, a: nat, j: nat)
    requires Linked(log) && a < j < |log| && (log[a].Commit? || log[a].Abort?)
    ensures !OfTxn(log[j], log[a].tid)
  {
    assert ChainOk(log, j);
    if !log[j].Checkpoint? && !log[j].Begin? && log[j].prev > a { NothingAfterEnd(log, a, log[j].prev); }
  }

  lemma FinishedMore(log: seq<LogRecord>, n: nat)
    requires n < |log|
    ensures forall i :: 0 <= i < n && FinishedBy(log, i, n) ==> FinishedBy(log, i, n + 1)
    ensures forall t :: AbortedBy(log, t, n) ==> AbortedBy(log, t, n + 1)
  {
  }

  lemma ActiveWrite(log: seq<LogRecord>, n: nat, att: map<TxnId, int>, aborted: set<TxnId>)
    requires n < |log| && (log[n].Begin? || IsWrite(log[n])) && AttOk(log, n, att, aborted)
    ensures AttOk(log, n + 1, att[log[n].tid := n], aborted)
  {
    hide FinishedBy, AbortedBy;
    FinishedMore(log, n);
  }

  lemma ActiveCommit(log: seq<LogRecord>, n: nat, att: map<TxnId, int>, aborted: set<TxnId>)
    requires n < |log| && log[n].Commit? && AttOk(log, n, att, aborted)
    ensures AttOk(log, n + 1, att - {log[n].tid}, aborted)
  {
    hide FinishedBy, AbortedBy;
    FinishedMore(log, n);
    forall i | 0 <= i < n && IsWrite(log[i]) && log[i].tid == log[n].tid
      ensures FinishedBy(log, i, n + 1)
    {
      CommitFinishes(log, i, n);
    }
  }

  lemma CommitFinishes(log: seq<LogRecord>, i: nat, n: nat)
    requires i < n < |log| && log[n].Commit? && OfTxn(log[i], log[n].tid)
    ensures FinishedBy(log, i, n + 1)
  {
  }

  lemma ActiveAbort(log: seq<LogRecord>, n: nat, att: map<TxnId, int>, aborted: set<TxnId>)
    requires n < |log| && log[n].Abort? && AttOk(log, n, att, aborted)
    ensures AttOk(log, n + 1, att, aborted + {log[n].tid})
  {
    hide FinishedBy;
    FinishedMore(log, n);
    assert AbortedBy(log, log[n].tid, n + 1);
  }

  lemma ActiveCheckpoint(log: seq<LogRecord>, n: nat, att: map<TxnId, int>, aborted: set<TxnId>)
    requires Linked(log) && n < |log| && log[n].Checkpoint? && AttOk(log, n, att, aborted)
    ensures AttOk(log, n + 1, att - aborted, {})
  {
    hide FinishedBy, AbortedBy, Linked;
    FinishedMore(log, n);
    forall i | 0 <= i < n && IsWrite(log[i]) && log[i].tid in aborted
      ensures FinishedBy(log, i, n + 1)
    {
      AbortFinishes(log, i, n);
    }
  }

  lemma AbortFinishes(log: seq<LogRecord>, i: nat, n: nat)
    requires Linked(log) && i < n < |log| && log[n].Checkpoint? && IsWrite(log[i]) && AbortedBy(log, log[i].tid, n)
    ensures FinishedBy(log, i, n + 1)
  {
    hide ChainOk;
    var a :| 0 <= a < n && log[a].Abort? && OfTxn(log[a], log[i].tid);
    if a < i { NothingAfterEnd(log, a, i); }
  }
}
