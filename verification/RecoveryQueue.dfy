/** The queue of the undo pass. */
module RecoveryQueue {
  import opened RecoveryLog
  import opened RecoveryAnalysis

  /** A record of a transaction that is being undone. */
  ghost predicate Pending(log: seq<LogRecord>, x: int, n: nat)
    requires n <= |log|
  {
    0 <= x < n && (log[x].Begin? || IsWrite(log[x])) && !Finished(log, x)
  }

  ghost predicate SameTxn(log: seq<LogRecord>, x: int, y: int) {
    && 0 <= x < |log| && 0 <= y < |log|
    && !log[x].Checkpoint? && !log[y].Checkpoint? && log[x].tid == log[y].tid
  }

  ghost predicate Queued(log: seq<LogRecord>, queue: seq<int>, k: nat) {
    exists a :: 0 <= a < |queue| && k <= queue[a] && SameTxn(log, queue[a], k)
  }

  /** Undo: the queue holds the last record not yet undone of each loser that has any. */
  ghost predicate QueueOk(log: seq<LogRecord>, queue: seq<int>, n: nat)
    requires n <= |log|
  {
    && (forall a :: 0 <= a < |queue| ==> Pending(log, queue[a], n))
    && (forall a, b :: 0 <= a < b < |queue| ==> !SameTxn(log, queue[a], queue[b]))
    && (forall k :: 0 <= k < n && Loser(log, k) ==> Queued(log, queue, k))
  }

  ghost predicate ListsActive(log: seq<LogRecord>, att: map<TxnId, int>, aborted: set<TxnId>, rest: set<TxnId>,
                              queue: seq<int>)
    requires AttOk(log, |log|, att, aborted)
  {
    && rest <= att.Keys
    && (forall a :: 0 <= a < |queue| ==> exists t :: t in att && t !in rest && queue[a] == att[t])
    && (forall a, b :: 0 <= a < b < |queue| ==> queue[a] != queue[b])
    && (forall t :: t in att && t !in rest ==> att[t] in queue)
  }

  lemma StartQueue(log: seq<LogRecord>, att: map<TxnId, int>, aborted: set<TxnId>, queue: seq<int>)
    requires AttOk(log, |log|, att, aborted) && ListsActive(log, att, aborted, {}, queue)
    ensures QueueOk(log, queue, |log|)
  {
    hide Winner, Dropped, Finished, FinishedBy, AbortedBy, SinceCheckpoint;
    forall a | 0 <= a < |queue|
      ensures Pending(log, queue[a], |log|)
    {
      var t :| t in att && queue[a] == att[t];
      ActiveIsPending(log, att, aborted, t);
    }
    forall k | 0 <= k < |log| && Loser(log, k)
      ensures Queued(log, queue, k)
    {
      var t := log[k].tid;
      LoserIsActive(log, k);
      LastActive(log, att, aborted, t, k);
      var a :| 0 <= a < |queue| && queue[a] == att[t];
    }
  }

  lemma ActiveIsPending(log: seq<LogRecord>, att: map<TxnId, int>, aborted: set<TxnId>, t: TxnId)
    requires AttOk(log, |log|, att, aborted) && t in att
    ensures Pending(log, att[t], |log|) && OfTxn(log[att[t]], t)
  {
    hide FinishedBy, AbortedBy;
  }

  lemma LoserIsActive(log: seq<LogRecord>, k: nat)
    requires k < |log| && Loser(log, k)
    ensures !FinishedBy(log, k, |log|)
  {
  }

  lemma LastActive(log: seq<LogRecord>, att: map<TxnId, int>, aborted: set<TxnId>, t: TxnId, k: nat)
    requires AttOk(log, |log|, att, aborted) && t in att && k < |log| && IsWrite(log[k]) && log[k].tid == t
    ensures k <= att[t]
  {
    hide FinishedBy, AbortedBy;
    assert OfTxn(log[k], t);
  }

  function Without(queue: seq<int>, a: nat): seq<int>
    requires a < |queue|
  {
    queue[..a] + queue[a + 1..]
  }

  /** Losers have no records above the top of the queue. */
  lemma NoneAboveTop(log: seq<LogRecord>, queue: seq<int>, n: nat, top: int)
    requires n <= |log| && QueueOk(log, queue, n) && forall a :: 0 <= a < |queue| ==> queue[a] <= top
    ensures forall i :: 0 <= top < i < n ==> !Loser(log, i)
    ensures queue == [] ==> forall i :: 0 <= i < n ==> !Loser(log, i)
  {
  }

  lemma PopBegin(log: seq<LogRecord>, queue: seq<int>, n: nat, a: nat)
    requires n <= |log| && a < |queue| && QueueOk(log, queue, n)
    requires forall b :: 0 <= b < |queue| ==> queue[b] <= queue[a]
    requires ChainOk(log, queue[a]) && log[queue[a]].Begin?
    ensures QueueOk(log, Without(queue, a), queue[a])
  {
    hide Loser, Finished;
    var m, rest := queue[a], Without(queue, a);
    RestPending(log, queue, n, a);
    forall k | 0 <= k < m && Loser(log, k)
      ensures Queued(log, rest, k)
    {
      var b :| 0 <= b < |queue| && k <= queue[b] && SameTxn(log, queue[b], k);
      assert !OfTxn(log[k], log[m].tid);
      assert rest[if b < a then b else b - 1] == queue[b];
    }
  }

  /** The rest of the queue lies below the top and belongs to other transactions. */
  lemma RestPending(log: seq<LogRecord>, queue: seq<int>, n: nat, a: nat)
    requires n <= |log| && a < |queue| && QueueOk(log, queue, n)
    requires forall b :: 0 <= b < |queue| ==> queue[b] <= queue[a]
    ensures var rest, m := Without(queue, a), queue[a];
            && Pending(log, m, n)
            && (forall b :: 0 <= b < |rest| ==> rest[b] == queue[if b < a then b else b + 1])
            && (forall b :: 0 <= b < |rest| ==> Pending(log, rest[b], m) && !SameTxn(log, rest[b], m))
            && (forall b, c :: 0 <= b < c < |rest| ==> !SameTxn(log, rest[b], rest[c]))
            && (forall k :: 0 <= k < n && Loser(log, k) ==> Queued(log, queue, k))
  {
    hide Loser, Finished, Queued;
    var rest := Without(queue, a);
    forall b | 0 <= b < |rest|
      ensures Pending(log, rest[b], queue[a]) && !SameTxn(log, rest[b], queue[a])
    {
      var c := if b < a then b else b + 1;
      assert rest[b] == queue[c];
      assert Pending(log, queue[c], n) && Pending(log, queue[a], n);
    }
  }

  lemma PopWrite(log: seq<LogRecord>, queue: seq<int>, n: nat, a: nat)
    requires n <= |log| && a < |queue| && QueueOk(log, queue, n)
    requires forall b :: 0 <= b < |queue| ==> queue[b] <= queue[a]
    requires ChainOk(log, queue[a]) && IsWrite(log[queue[a]])
    ensures QueueOk(log, Without(queue, a) + [log[queue[a]].prev], queue[a])
  {
    hide Loser, Finished, QueueOk, Queued;
    RestPending(log, queue, n, a);
    var m := queue[a];
    var prev, rest := log[m].prev, Without(queue, a);
    var q := rest + [prev];
    PrevUndecided(log, m);
    assert forall b :: 0 <= b < |rest| ==> q[b] == rest[b];
    assert q[|rest|] == prev;
    assert Pending(log, prev, m);
    forall k | 0 <= k < m && Loser(log, k)
      ensures Queued(log, q, k)
    {
      StillQueued(log, queue, a, k);
    }
    assert QueueOk(log, q, m) by { Assembled(log, q, m); }
  }

  lemma Assembled(log: seq<LogRecord>, q: seq<int>, n: nat)
    requires n <= |log| && (forall a :: 0 <= a < |q| ==> Pending(log, q[a], n))
    requires forall a, b :: 0 <= a < b < |q| ==> !SameTxn(log, q[a], q[b])
    requires forall k :: 0 <= k < n && Loser(log, k) ==> Queued(log, q, k)
    ensures QueueOk(log, q, n)
  {
  }

  lemma StillQueued(log: seq<LogRecord>, queue: seq<int>, a: nat, k: nat)
    requires a < |queue| && 0 <= queue[a] < |log| && ChainOk(log, queue[a]) && IsWrite(log[queue[a]])
    requires k < queue[a] && Queued(log, queue, k)
    ensures Queued(log, Without(queue, a) + [log[queue[a]].prev], k)
  {
    hide Finished;
    var m := queue[a];
    var q := Without(queue, a) + [log[m].prev];
    var b :| 0 <= b < |queue| && k <= queue[b] && SameTxn(log, queue[b], k);
    if b == a {
      assert OfTxn(log[k], log[m].tid);
      assert q[|queue| - 1] == log[m].prev;
    } else {
      assert q[if b < a then b else b - 1] == queue[b];
    }
  }

  lemma PrevUndecided(log: seq<LogRecord>, m: nat)
    requires m < |log| && ChainOk(log, m) && IsWrite(log[m])
    ensures Finished(log, log[m].prev) ==> Finished(log, m)
  {
    var p := log[m].prev;
    if Winner(log, p) {
      var c :| p < c < |log| && log[c].Commit? && OfTxn(log[p], log[c].tid);
      assert OfTxn(log[c], log[m].tid);
    } else if Dropped(log, p) {
      var a, c :| p < a < c < |log| && log[a].Abort? && OfTxn(log[p], log[a].tid) && log[c].Checkpoint?;
      assert OfTxn(log[a], log[m].tid);
    }
  }

  lemma TopIsLoser(log: seq<LogRecord>, queue: seq<int>, n: nat, a: nat)
    requires n <= |log| && a < |queue| && QueueOk(log, queue, n) && Linked(log)
    ensures 0 <= queue[a] < n && ChainOk(log, queue[a]) && log[queue[a]].lsn == queue[a]
    ensures (log[queue[a]].Begin? && !Loser(log, queue[a])) || Loser(log, queue[a])
  {
    hide ChainOk, Winner, Dropped;
  }
}
