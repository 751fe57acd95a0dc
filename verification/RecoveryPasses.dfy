/** The three passes of restart recovery over the log file and the pages it fetches. */
module RecoveryPasses {
  import opened PageIds
  import opened Defs
  import opened RecoveryLog
  import opened Recovery
  import opened RecoveryAnalysis
  import opened RecoveryQueue

  /** The write is not yet in its page. */
  predicate Missing(log: seq<LogRecord>, pages: Pages, i: nat)
    requires i < |log|
  {
    IsWrite(log[i]) && log[i].loc.page in pages && pages[log[i].loc.page].lsn < i
  }

  /** Before the first dirty LSN there is nothing that redo would apply. */
  lemma NothingBefore(log: seq<LogRecord>, pages: Pages, dpt: map<PageId, int>, first: nat)
    requires DptOk(log, |log|, dpt) && first <= |log| && forall p :: p in dpt ==> first <= dpt[p]
    ensures forall p :: p in pages ==> CaughtUp(log, pages, p, first)
  {
  }

  lemma CaughtUpNext(log: seq<LogRecord>, pages: Pages, pages': Pages, n: nat)
    requires n < |log| && pages'.Keys == pages.Keys && forall p :: p in pages ==> CaughtUp(log, pages, p, n)
    requires forall p :: p in pages ==> pages[p].lsn <= pages'[p].lsn
    requires IsWrite(log[n]) && log[n].loc.page in pages ==> n <= pages'[log[n].loc.page].lsn
    ensures forall p :: p in pages' ==> CaughtUp(log, pages', p, n + 1)
  {
    forall p | p in pages'
      ensures CaughtUp(log, pages', p, n + 1)
    {
      assert CaughtUp(log, pages, p, n);
    }
  }

  /** Redo has applied, from `first` up to `n`, exactly the writes that were missing. */
  ghost predicate RedoneTo(log: seq<LogRecord>, dpt: map<PageId, int>, start: Pages, pages: Pages, redone: seq<int>,
                           first: nat, n: nat)
    requires n <= |log|
  {
    && pages.Keys == start.Keys
    && (forall p :: p in start ==> pages[p] == start[p] || start[p].lsn < pages[p].lsn < n)
    && (forall p :: p in dpt && dpt[p] < n ==> p in pages)
    && (forall i :: i in redone <==> first <= i < n && Missing(log, start, i))
    && (redone == [] ==> pages == start)
  }

  lemma NothingDirty(log: seq<LogRecord>, dpt: map<PageId, int>)
    requires DptOk(log, |log|, dpt) && dpt == map[]
    ensures forall i :: 0 <= i < |log| && IsWrite(log[i]) ==> !SinceCheckpoint(log, i, |log|)
  {
  }

  lemma FirstIsLsn(log: seq<LogRecord>, dpt: map<PageId, int>, first: int)
    requires DptOk(log, |log|, dpt) && (exists p :: p in dpt && dpt[p] == first)
    ensures 0 <= first < |log|
  {
  }

  lemma RedoneNone(log: seq<LogRecord>, dpt: map<PageId, int>, pages: Pages, first: nat)
    requires first <= |log| && forall p :: p in dpt ==> first <= dpt[p]
    ensures RedoneTo(log, dpt, pages, pages, [], first, first)
  {
  }

  /** From the first dirty LSN on, every page written is dirty. */
  lemma AllDirty(log: seq<LogRecord>, dpt: map<PageId, int>, first: nat, n: nat)
    requires DptOk(log, |log|, dpt) && first <= n < |log| && (exists p :: p in dpt && dpt[p] == first)
    ensures SinceCheckpoint(log, n, |log|) && (IsWrite(log[n]) ==> log[n].loc.page in dpt)
    ensures forall p :: p in dpt && dpt[p] == n ==> TouchesPage(log[n], p)
  {
    assert SinceCheckpoint(log, n, |log|);
  }

  lemma RedoneSame(log: seq<LogRecord>, dpt: map<PageId, int>, start: Pages, pages: Pages, redone: seq<int>,
                   first: nat, n: nat)
    requires first <= n < |log| && RedoneTo(log, dpt, start, pages, redone, first, n)
    requires forall p :: p in dpt && dpt[p] == n ==> TouchesPage(log[n], p)
    ensures pages.Keys == start.Keys && (redone == [] ==> pages == start)
    ensures forall p :: p in start ==> pages[p] == start[p] || start[p].lsn < pages[p].lsn < n
    ensures !IsWrite(log[n]) || (log[n].loc.page in pages && n <= pages[log[n].loc.page].lsn) ==>
              RedoneTo(log, dpt, start, pages, redone, first, n + 1)
  {
  }

  lemma RedoneKeys(log: seq<LogRecord>, dpt: map<PageId, int>, start: Pages, pages: Pages, redone: seq<int>,
                   first: nat, n: nat)
    requires n <= |log| && RedoneTo(log, dpt, start, pages, redone, first, n)
    ensures pages.Keys == start.Keys && (redone == [] ==> pages == start)
  {
  }

  lemma RedoneMore(log: seq<LogRecord>, dpt: map<PageId, int>, start: Pages, pages: Pages, redone: seq<int>,
                   first: nat, n: nat)
    requires first <= n < |log| && log[n].lsn == n && RedoneTo(log, dpt, start, pages, redone, first, n)
    requires forall p :: p in dpt && dpt[p] == n ==> TouchesPage(log[n], p)
    requires IsWrite(log[n]) && log[n].loc.page in pages && pages[log[n].loc.page].lsn < n
    ensures var p := log[n].loc.page;
            RedoneTo(log, dpt, start, pages[p := RedoPage(pages[p], log[n])], redone + [n], first, n + 1)
  {
    hide Store, Redone, Fetch;
    assert n in redone + [n];
  }

  lemma RedoneAll(log: seq<LogRecord>, dpt: map<PageId, int>, start: Pages, pages: Pages, redone: seq<int>, first: nat)
    requires DptOk(log, |log|, dpt) && first <= |log| && (exists p :: p in dpt && dpt[p] == first)
    requires forall p :: p in dpt ==> first <= dpt[p]
    requires RedoneTo(log, dpt, start, pages, redone, first, |log|)
    ensures pages.Keys == start.Keys && (forall p :: p in dpt ==> p in pages) && (redone == [] ==> pages == start)
    ensures forall i :: i in redone <==> 0 <= i < |log| && Missing(log, start, i) && SinceCheckpoint(log, i, |log|)
  {
  }

  // What redo and undo have done to each location

  ghost predicate RedoReads(log: seq<LogRecord>, start: Pages, pages: Pages, n: nat)
    requires n <= |log|
  {
    && pages.Keys == start.Keys
    && forall loc: Loc :: loc.page in start ==>
         Read(pages, loc) == RedoTo(log, n, start[loc.page].lsn, loc, Read(start, loc))
  }

  lemma {:induction false} RedoToNothing(log: seq<LogRecord>, n: nat, lsn: int, loc: Loc, v: Option<Bytes>)
    requires n <= |log| && forall i :: 0 <= i < n && Touches(log[i], loc) ==> !SinceCheckpoint(log, i, |log|)
    ensures RedoTo(log, n, lsn, loc, v) == v
  {
    hide SinceCheckpoint;
    if n > 0 { RedoToNothing(log, n - 1, lsn, loc, v); }
  }

  lemma RedoReadsNone(log: seq<LogRecord>, dpt: map<PageId, int>, pages: Pages, first: nat)
    requires DptOk(log, |log|, dpt) && first <= |log| && forall p :: p in dpt ==> first <= dpt[p]
    ensures RedoReads(log, pages, pages, first)
  {
    hide SinceCheckpoint, RedoTo;
    forall loc: Loc | loc.page in pages
      ensures Read(pages, loc) == RedoTo(log, first, pages[loc.page].lsn, loc, Read(pages, loc))
    {
      RedoToNothing(log, first, pages[loc.page].lsn, loc, Read(pages, loc));
    }
  }

  /** One more record: it is applied exactly when its page lacks it. */
  lemma RedoReadsNext(log: seq<LogRecord>, start: Pages, pages: Pages, n: nat)
    requires n < |log| && SinceCheckpoint(log, n, |log|) && RedoReads(log, start, pages, n)
    requires forall p :: p in start ==> pages[p] == start[p] || start[p].lsn < pages[p].lsn < n
    requires IsWrite(log[n]) ==> log[n].loc.page in pages
    ensures if IsWrite(log[n]) && pages[log[n].loc.page].lsn < n
            then RedoReads(log, start, pages[log[n].loc.page := RedoPage(pages[log[n].loc.page], log[n])], n + 1)
            else RedoReads(log, start, pages, n + 1)
  {
    hide SinceCheckpoint, RedoPage, UndoPage;
    if IsWrite(log[n]) && pages[log[n].loc.page].lsn < n {
      var pages' := pages[log[n].loc.page := RedoPage(pages[log[n].loc.page], log[n])];
      forall loc: Loc | loc.page in start
        ensures Read(pages', loc) == RedoTo(log, n + 1, start[loc.page].lsn, loc, Read(start, loc))
      {
        PageReads(pages, log[n], loc);
      }
    }
  }

  lemma {:induction false} UndoToNothing(log: seq<LogRecord>, m: nat, n: nat, loc: Loc, v: Option<Bytes>)
    requires m <= n <= |log| && forall i :: m <= i < n ==> !Loser(log, i)
    ensures UndoTo(log, m, loc, v) == UndoTo(log, n, loc, v)
    decreases n - m
  {
    hide Loser;
    if m < n { UndoToNothing(log, m + 1, n, loc, v); }
  }

  lemma UndoReadsSkip(log: seq<LogRecord>, start: Pages, pages: Pages, m: nat, n: nat)
    requires m <= n <= |log| && UndoReads(log, start, pages, n) && forall i :: m <= i < n ==> !Loser(log, i)
    ensures UndoReads(log, start, pages, m)
  {
    hide Loser, UndoTo;
    forall loc: Loc | loc.page in start
      ensures Read(pages, loc) == UndoTo(log, m, loc, Read(start, loc))
    {
      UndoToNothing(log, m, n, loc, Read(start, loc));
    }
  }

  lemma UndoReadsNext(log: seq<LogRecord>, start: Pages, pages: Pages, n: nat)
    requires n < |log| && Loser(log, n) && log[n].loc.page in pages && UndoReads(log, start, pages, n + 1)
    ensures UndoReads(log, start, pages[log[n].loc.page := UndoPage(pages[log[n].loc.page], log[n])], n)
  {
    hide RedoPage, UndoPage, Winner, Dropped;
    var pages' := pages[log[n].loc.page := UndoPage(pages[log[n].loc.page], log[n])];
    RedoLsn(pages[log[n].loc.page], log[n]);
    forall loc: Loc | loc.page in start
      ensures Read(pages', loc) == UndoTo(log, n, loc, Read(start, loc))
    {
      PageReads(pages, log[n], loc);
    }
  }

  lemma RedoThenUndo(log: seq<LogRecord>, start: Pages, mid: Pages, pages: Pages)
    requires RedoReads(log, start, mid, |log|) && UndoReads(log, mid, pages, 0)
    ensures RecoveredFrom(log, start, pages)
  {
    hide RedoTo, UndoTo;
  }

  class RecoveryManager {
    const log: seq<LogRecord>
    var att: map<TxnId, int>
    var dpt: map<PageId, int>
    var logOffsets: map<int, nat>
    var lastLsn: int
    var pages: Pages
    /** Transactions rolled back since the last checkpoint. */
    ghost var aborted: set<TxnId>
    /** Every state the store has been in; any page may have been written back from any. */
    ghost var seen: set<Pages>
    /** The records that redo applied. */
    ghost var redone: seq<int>

    constructor (log: seq<LogRecord>, pages: Pages)
      ensures this.log == log && this.pages == pages && Fresh()
    {
      this.log, this.pages := log, pages;
      att, dpt, logOffsets, lastLsn, aborted, seen, redone := map[], map[], map[], -1, {}, {pages}, [];
    }

    ghost predicate Fresh()
      reads this
    {
      att == map[] && dpt == map[] && logOffsets == map[] && seen == {pages} && redone == []
    }

    /** From every state seen, recovery would make the same as from `start`. */
    ghost predicate SeenOk(start: Pages)
      reads this
    {
      pages in seen && forall s :: s in seen ==> SameOutcome(log, start, s)
    }

    /** What analysis knows after the first `n` records. */
    ghost predicate Analyzed(n: nat, abortedTids: set<TxnId>)
      requires n <= |log|
      reads this
    {
      && OffsetsOk(logOffsets, n) && (0 < n ==> lastLsn == n - 1) && DptOk(log, n, dpt)
      && (Linked(log) ==> AttOk(log, n, att, abortedTids))
    }

    /** `analyze`. */
    method Analyze()
      requires LsnsInOrder(log) && att == map[] && dpt == map[] && logOffsets == map[]
      modifies this`att, this`dpt, this`logOffsets, this`lastLsn, this`aborted
      ensures DptOk(log, |log|, dpt) && OffsetsOk(logOffsets, |log|) && (log != [] ==> lastLsn == |log| - 1)
      ensures Linked(log) ==> AttOk(log, |log|, att, aborted)
    {
      hide AttOk, DptOk, OffsetsOk, Linked;
      var abortedTids: set<TxnId> := {};
      EmptyLog(log);
      for offset := 0 to |log|
        invariant Analyzed(offset, abortedTids)
      {
        var r := log[offset];
        OffsetNew(logOffsets, offset);
        if r.lsn !in logOffsets {
          logOffsets := logOffsets[r.lsn := offset];
        }
        lastLsn := r.lsn;
        abortedTids := AnalyzeRecord(offset, abortedTids);
      }
      aborted := abortedTids;
    }

    /** The cases of `analyze`. */
    method AnalyzeRecord(offset: nat, tids: set<TxnId>) returns (abortedTids: set<TxnId>)
      requires offset < |log| && log[offset].lsn == offset && DptOk(log, offset, dpt)
      requires Linked(log) ==> AttOk(log, offset, att, tids)
      modifies this`att, this`dpt
      ensures DptOk(log, offset + 1, dpt) && (Linked(log) ==> AttOk(log, offset + 1, att, abortedTids))
    {
      hide AttOk, DptOk, Linked;
      var r := log[offset];
      abortedTids := tids;
      match r {
        case Begin(lsn, tid, _) =>
          DirtySame(log, offset, dpt);
          if Linked(log) { ActiveWrite(log, offset, att, tids); }
          att := att[tid := lsn];
        case Commit(_, tid, _) =>
          DirtySame(log, offset, dpt);
          if Linked(log) { ActiveCommit(log, offset, att, tids); }
          att := att - {tid};
        case Abort(_, tid, _) =>
          DirtySame(log, offset, dpt);
          if Linked(log) { ActiveAbort(log, offset, att, tids); }
          abortedTids := abortedTids + {tid};
        case Checkpoint(_) =>
          DirtyCheckpoint(log, offset);
          if Linked(log) { ActiveCheckpoint(log, offset, att, tids); }
          dpt := map[];
          att := att - abortedTids;
          abortedTids := {};
        case _ =>
          if r.loc.page !in dpt {
            DirtyNew(log, offset, dpt);
            dpt := dpt[r.loc.page := r.lsn];
          } else {
            DirtySame(log, offset, dpt);
          }
          if Linked(log) { ActiveWrite(log, offset, att, tids); }
          att := att[r.tid := r.lsn];
      }
    }

    method FirstDirty() returns (first: int)
      requires dpt != map[]
      ensures exists p :: p in dpt && dpt[p] == first
      ensures forall p :: p in dpt ==> first <= dpt[p]
    {
      var p0 :| p0 in dpt;
      first := dpt[p0];
      var rest := dpt.Keys;
      while rest != {}
        invariant rest <= dpt.Keys && (exists p :: p in dpt && dpt[p] == first)
        invariant forall p :: p in dpt && p !in rest ==> first <= dpt[p]
      {
        var p :| p in rest;
        rest := rest - {p};
        if dpt[p] < first {
          first := dpt[p];
        }
      }
    }

    /** What redo has done before it looks at record `n`. */
    ghost predicate Redoing(origin: Pages, start: Pages, first: nat, n: nat)
      requires n <= |log|
      reads this
    {
      && RedoneTo(log, dpt, start, pages, redone, first, n) && RedoReads(log, start, pages, n)
      && SeenOk(origin) && forall p :: p in pages ==> CaughtUp(log, pages, p, n)
    }

    /** `redo`: from the first dirty LSN on, applies to the dirty pages the writes they
        lack. It fails when a dirty page is not on disk. */
    method Redo(ghost origin: Pages) returns (ok: bool)
      requires LsnsInOrder(log) && DptOk(log, |log|, dpt) && OffsetsOk(logOffsets, |log|) && SeenOk(origin)
      requires redone == [] && (log != [] ==> lastLsn == |log| - 1)
      modifies this`pages, this`seen, this`redone
      ensures pages.Keys == old(pages.Keys) && SeenOk(origin)
      ensures ok <==> forall p :: p in dpt ==> p in pages
      ensures ok ==> forall i :: i in redone <==>
                0 <= i < |log| && Missing(log, old(pages), i) && SinceCheckpoint(log, i, |log|)
      ensures ok ==> RedoReads(log, old(pages), pages, |log|)
      ensures ok ==> forall p :: p in pages ==> CaughtUp(log, pages, p, |log|)
      ensures redone == [] ==> pages == old(pages)
    {
      hide SameOutcome, CaughtUp, RedoneTo, DptOk, RedoReads, SinceCheckpoint;
      ghost var start := pages;
      if dpt == map[] {
        NothingBefore(log, pages, dpt, |log|);
        NothingDirty(log, dpt);
        RedoReadsNone(log, dpt, pages, |log|);
        return true;
      }
      var first := FirstDirty();
      FirstIsLsn(log, dpt, first);
      NothingBefore(log, pages, dpt, first);
      RedoneNone(log, dpt, pages, first);
      RedoReadsNone(log, dpt, pages, first);
      for lsn := first to lastLsn + 1
        invariant Redoing(origin, start, first, lsn)
      {
        RedoneKeys(log, dpt, start, pages, redone, first, lsn);
        ok := RedoRecord(lsn, origin, start, first);
        if !ok {
          return false;
        }
      }
      RedoneAll(log, dpt, start, pages, redone, first);
      ok := true;
    }

    /** One step of `redo`. */
    method RedoRecord(lsn: nat, ghost origin: Pages, ghost start: Pages, ghost first: nat) returns (ok: bool)
      requires LsnsInOrder(log) && DptOk(log, |log|, dpt) && OffsetsOk(logOffsets, |log|)
      requires first <= lsn < |log| && (exists p :: p in dpt && dpt[p] == first) && Redoing(origin, start, first, lsn)
      modifies this`pages, this`seen, this`redone
      ensures ok ==> Redoing(origin, start, first, lsn + 1)
      ensures !ok ==> unchanged(this) && exists p :: p in dpt && p !in pages
    {
      hide SameOutcome, CaughtUp, RedoneTo, DptOk, RedoReads, SinceCheckpoint;
      var r := log[logOffsets[lsn]];
      AllDirty(log, dpt, first, lsn);
      RedoneSame(log, dpt, start, pages, redone, first, lsn);
      ghost var before := pages;
      if IsWrite(r) && r.loc.page in dpt {
        if r.loc.page !in pages {
          return false;
        }
        RedoReadsNext(log, start, pages, lsn);
        if pages[r.loc.page].lsn < lsn {
          RedoStep(log, origin, pages, lsn);
          RedoneMore(log, dpt, start, pages, redone, first, lsn);
          pages := pages[r.loc.page := RedoPage(pages[r.loc.page], r)];
          seen := seen + {pages};
          redone := redone + [lsn];
        }
      } else {
        RedoReadsNext(log, start, pages, lsn);
      }
      CaughtUpNext(log, before, pages, lsn);
      ok := true;
    }

    /** The largest element of the priority queue. */
    method Top(queue: seq<int>) returns (a: nat)
      requires queue != []
      ensures a < |queue| && forall b :: 0 <= b < |queue| ==> queue[b] <= queue[a]
    {
      a := 0;
      for i := 1 to |queue|
        invariant a < |queue| && forall b :: 0 <= b < i ==> queue[b] <= queue[a]
      {
        if queue[a] < queue[i] {
          a := i;
        }
      }
    }

    method LastRecords() returns (queue: seq<int>)
      requires AttOk(log, |log|, att, aborted)
      ensures QueueOk(log, queue, |log|)
    {
      hide QueueOk, FinishedBy, AbortedBy, SinceCheckpoint;
      queue := [];
      var rest := att.Keys;
      while rest != {}
        invariant ListsActive(log, att, aborted, rest, queue)
      {
        var t :| t in rest;
        queue := queue + [att[t]];
        rest := rest - {t};
      }
      StartQueue(log, att, aborted, queue);
    }

    /** `undo`: takes back the losers' writes, always the latest remaining one first. It
        fails when the page of one is not on disk. */
    method Undo(ghost origin: Pages) returns (ok: bool)
      requires Linked(log) && AttOk(log, |log|, att, aborted) && OffsetsOk(logOffsets, |log|)
      requires SeenOk(origin) && forall p :: p in pages ==> CaughtUp(log, pages, p, |log|)
      modifies this`pages, this`seen
      ensures pages.Keys == old(pages.Keys) && SeenOk(origin)
      ensures ok <==> forall i :: 0 <= i < |log| && Loser(log, i) ==> log[i].loc.page in pages
      ensures ok ==> UndoReads(log, old(pages), pages, 0)
    {
      hide Linked, SameOutcome, CaughtUp, QueueOk, AttOk, UndoReads, Winner, Dropped, UndoPage, Without;
      ghost var n, start := |log|, pages;
      UndoReadsStart(log, pages);
      var queue := LastRecords();
      while queue != []
        invariant 0 <= n <= |log| && QueueOk(log, queue, n) && UndoReads(log, start, pages, n)
        invariant pages.Keys == start.Keys && SeenOk(origin) && SameOutcome(log, origin, start)
        invariant forall p :: p in start ==> CaughtUp(log, start, p, |log|)
        invariant forall i :: n <= i < |log| && Loser(log, i) ==> log[i].loc.page in pages
        decreases n
      {
        var a := Top(queue);
        var lsn := queue[a];
        TopIsLoser(log, queue, n, a);
        if lsn == -1 {
          break;
        }
        NoneAboveTop(log, queue, n, lsn);
        var r := log[logOffsets[lsn]];
        if IsWrite(r) {
          if r.loc.page !in pages {
            return false;
          }
          UndoReadsSkip(log, start, pages, lsn + 1, n);
          UndoReadsNext(log, start, pages, lsn);
          pages := pages[r.loc.page := UndoPage(pages[r.loc.page], r)];
          UndoStep(log, origin, start, pages, lsn);
          seen := seen + {pages};
          PopWrite(log, queue, n, a);
          queue := Without(queue, a) + [r.prev];
        } else if r.Begin? {
          UndoReadsSkip(log, start, pages, lsn, n);
          PopBegin(log, queue, n, a);
          queue := Without(queue, a);
        }
        n := lsn;
      }
      NoneAboveTop(log, queue, n, 0);
      UndoReadsSkip(log, start, pages, 0, n);
      ok := true;
    }

    /** The three passes, for any linked log and any store. What they make of the store is
        a function of both, and a crash at any moment does not change what starting over
        makes of it. They fail exactly when a page that they need is not on disk. */
    method Recover() returns (ok: bool)
      requires Linked(log) && Fresh()
      modifies this
      ensures pages.Keys == old(pages.Keys) && SeenOk(old(pages))
      ensures ok <==> forall i :: 0 <= i < |log| && IsWrite(log[i]) && (SinceCheckpoint(log, i, |log|) || Loser(log, i))
                                  ==> log[i].loc.page in pages
      ensures ok ==> RecoveredFrom(log, old(pages), pages)
    {
      hide SameOutcome, CaughtUp, AttOk, RedoReads, UndoReads, RecoveredFrom, Winner, Dropped, SinceCheckpoint, ChainOk;
      ghost var start := pages;
      SameAsItself(log, start);
      Analyze();
      ok := Redo(start);
      DirtyPresent(log, dpt, pages);
      if ok {
        ghost var mid := pages;
        ok := Undo(start);
        if ok { RedoThenUndo(log, start, mid, pages); }
      }
    }
  }

  lemma SameAsItself(log: seq<LogRecord>, pages: Pages)
    ensures SameOutcome(log, pages, pages)
  {
  }

  lemma UndoReadsStart(log: seq<LogRecord>, pages: Pages)
    ensures UndoReads(log, pages, pages, |log|)
  {
  }

  lemma DirtyPresent(log: seq<LogRecord>, dpt: map<PageId, int>, pages: Pages)
    requires DptOk(log, |log|, dpt)
    ensures (forall p :: p in dpt ==> p in pages) <==>
              forall i :: 0 <= i < |log| && IsWrite(log[i]) && SinceCheckpoint(log, i, |log|) ==>
                  log[i].loc.page in pages
  {
  }

  /** Redo applies every missing write exactly when checkpoints were atomic. */
  lemma RedoCompleteIff(log: seq<LogRecord>, pages: Pages)
    requires forall i :: 0 <= i < |log| && IsWrite(log[i]) ==> log[i].loc.page in pages
    ensures (forall i :: 0 <= i < |log| && Missing(log, pages, i) ==> SinceCheckpoint(log, i, |log|)) <==>
              Flushed(log, pages)
  {
    if forall i :: 0 <= i < |log| && Missing(log, pages, i) ==> SinceCheckpoint(log, i, |log|) {
      forall c, i | 0 <= i < c < |log| && log[c].Checkpoint? && IsWrite(log[i])
        ensures i <= pages[log[i].loc.page].lsn
      {
        assert !SinceCheckpoint(log, i, |log|);
        assert !Missing(log, pages, i);
      }
    }
  }

  lemma NothingIn(s: seq<int>)
    requires forall i :: i !in s
    ensures s == []
  {
    var z := if s == [] then 0 else s[0];
    assert z !in s;
  }

  /** A second redo over the same log changes nothing. */
  method RedoTwice(rm: RecoveryManager, ghost origin: Pages) returns (ok: bool, ghost once: Pages)
    requires LsnsInOrder(rm.log) && rm.SeenOk(origin) && DptOk(rm.log, |rm.log|, rm.dpt)
    requires OffsetsOk(rm.logOffsets, |rm.log|) && rm.redone == [] && (rm.log != [] ==> rm.lastLsn == |rm.log| - 1)
    requires forall p :: p in rm.dpt ==> p in rm.pages
    modifies rm
    ensures ok && rm.redone == [] && rm.pages == once && rm.SeenOk(origin)
    ensures forall p :: p in once ==> CaughtUp(rm.log, once, p, |rm.log|)
  {
    hide SameOutcome, DptOk, CaughtUp, SinceCheckpoint;
    ok := rm.Redo(origin);
    once := rm.pages;
    rm.redone := [];
    NothingMissing(rm.log, once);
    ok := rm.Redo(origin);
    NothingIn(rm.redone);
    assert rm.pages == once;
  }

  lemma NothingMissing(log: seq<LogRecord>, pages: Pages)
    requires forall p :: p in pages ==> CaughtUp(log, pages, p, |log|)
    ensures forall i :: 0 <= i < |log| && Missing(log, pages, i) ==> !SinceCheckpoint(log, i, |log|)
  {
    hide SinceCheckpoint;
    forall i | 0 <= i < |log| && Missing(log, pages, i)
      ensures !SinceCheckpoint(log, i, |log|)
    {
      assert CaughtUp(log, pages, log[i].loc.page, |log|);
      assert !Redoable(log, log[i].loc.page, i);
    }
  }
}
