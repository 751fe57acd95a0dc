/** Redo and undo of records, and recovery that is interrupted and started again. */
module Recovery {
  import opened PageIds
  import opened Defs
  import opened RecoveryLog

  function Store(recs: map<nat, Bytes>, slot: nat, v: Option<Bytes>): map<nat, Bytes> {
    if v.Some? then recs[slot := v.value] else recs - {slot}
  }

  function Fetch(recs: map<nat, Bytes>, slot: nat): Option<Bytes> {
    if slot in recs then Some(recs[slot]) else None
  }

  /** `insert_redo`, `delete_redo` and `update_redo`. */
  function RedoPage(page: Page, r: LogRecord): Page
    requires IsWrite(r)
  {
    Page(r.lsn, Store(page.recs, r.loc.slot, Redone(r, Fetch(page.recs, r.loc.slot))))
  }

  /** `insert_undo`, `delete_undo` and `update_undo`, which leave the page LSN alone. */
  function UndoPage(page: Page, r: LogRecord): Page
    requires IsWrite(r)
  {
    Page(page.lsn, Store(page.recs, r.loc.slot, Undone(r, Fetch(page.recs, r.loc.slot))))
  }

  /** What redo and undo of a record change in the store. */
  lemma PageReads(pages: Pages, r: LogRecord, loc: Loc)
    requires IsWrite(r) && r.loc.page in pages && loc.page in pages
    ensures Read(pages[r.loc.page := RedoPage(pages[r.loc.page], r)], loc)
         == if Touches(r, loc) then Redone(r, Read(pages, loc)) else Read(pages, loc)
    ensures Read(pages[r.loc.page := UndoPage(pages[r.loc.page], r)], loc)
         == if Touches(r, loc) then Undone(r, Read(pages, loc)) else Read(pages, loc)
  {
  }

  lemma RedoLsn(page: Page, r: LogRecord)
    requires IsWrite(r)
    ensures RedoPage(page, r).lsn == r.lsn && UndoPage(page, r).lsn == page.lsn
  {
  }

  // Undo, whatever the location holds

  ghost predicate NoLoser(log: seq<LogRecord>, loc: Loc, n: nat) {
    forall i :: n <= i < |log| && Touches(log[i], loc) ==> !Loser(log, i)
  }

  ghost predicate OnlyUpdates(log: seq<LogRecord>, loc: Loc, n: nat) {
    forall i :: n <= i < |log| && Touches(log[i], loc) && Loser(log, i) ==> log[i].Update?
  }

  lemma {:induction false} UndoNothing(log: seq<LogRecord>, n: nat, loc: Loc, x: Option<Bytes>)
    requires n <= |log| && NoLoser(log, loc, n)
    ensures UndoTo(log, n, loc, x) == x
    decreases |log| - n
  {
    hide Loser;
    if n < |log| { UndoNothing(log, n + 1, loc, x); }
  }

  /** Undone updates leave a record where there is one, and nowhere else. */
  lemma {:induction false} UndoUpdates(log: seq<LogRecord>, n: nat, loc: Loc, x: Option<Bytes>)
    requires n <= |log| && OnlyUpdates(log, loc, n)
    ensures UndoTo(log, n, loc, x).Some? <==> x.Some?
    decreases |log| - n
  {
    hide Loser;
    if n < |log| { UndoUpdates(log, n + 1, loc, x); }
  }

  lemma {:induction false} UndoPresence(log: seq<LogRecord>, n: nat, loc: Loc, x: Option<Bytes>, y: Option<Bytes>)
    requires n <= |log| && (OnlyUpdates(log, loc, n) ==> (x.Some? <==> y.Some?))
    ensures UndoTo(log, n, loc, x).Some? <==> UndoTo(log, n, loc, y).Some?
    decreases |log| - n
  {
    hide Loser;
    if n < |log| && (!(Touches(log[n], loc) && Loser(log, n)) || log[n].Update?) {
      UndoPresence(log, n + 1, loc, x, y);
    }
  }

  /** What undo leaves at a location does not depend on what it held when a loser wrote
      there; only updates do not bring back a record that is not there. */
  lemma {:induction false} UndoSame(log: seq<LogRecord>, n: nat, loc: Loc, x: Option<Bytes>, y: Option<Bytes>)
    requires n <= |log| && (NoLoser(log, loc, n) ==> x == y) && (OnlyUpdates(log, loc, n) ==> (x.Some? <==> y.Some?))
    ensures UndoTo(log, n, loc, x) == UndoTo(log, n, loc, y)
    decreases |log| - n
  {
    hide Loser;
    if n < |log| {
      if !(Touches(log[n], loc) && Loser(log, n)) {
        UndoSame(log, n + 1, loc, x, y);
      } else if log[n].Update? {
        UndoPresence(log, n + 1, loc, x, y);
      }
    }
  }

  /** Undo that was interrupted can start over. */
  lemma UndoAgain(log: seq<LogRecord>, n: nat, loc: Loc, x: Option<Bytes>)
    requires n <= |log|
    ensures UndoTo(log, 0, loc, UndoTo(log, n, loc, x)) == UndoTo(log, 0, loc, x)
  {
    hide UndoTo, Loser;
    if NoLoser(log, loc, 0) { UndoNothing(log, n, loc, x); }
    if OnlyUpdates(log, loc, 0) { UndoUpdates(log, n, loc, x); }
    UndoSame(log, 0, loc, UndoTo(log, n, loc, x), x);
  }

  // Redo that was interrupted

  /** A write that redo would apply at all, to the page. */
  ghost predicate Redoable(log: seq<LogRecord>, p: PageId, i: nat)
    requires i < |log|
  {
    TouchesPage(log[i], p) && SinceCheckpoint(log, i, |log|)
  }

  /** No write of the first `n` is missing that redo would apply. */
  ghost predicate CaughtUp(log: seq<LogRecord>, pages: Pages, p: PageId, n: nat)
    requires p in pages && n <= |log|
  {
    forall i :: 0 <= i < n && Redoable(log, p, i) ==> i <= pages[p].lsn
  }

  /** Redo goes on from a page to which record `k` has been applied as from the page before. */
  lemma {:induction false} RedoGoesOn(log: seq<LogRecord>, m: nat, l: int, k: nat, loc: Loc, v: Option<Bytes>)
    requires m <= |log| && l < k < |log| && SinceCheckpoint(log, k, |log|)
    requires forall i :: 0 <= i < k && l < i ==> !Redoable(log, loc.page, i)
    ensures RedoTo(log, m, l, loc, v)
         == if m <= k then v else RedoTo(log, m, k, loc, if Touches(log[k], loc) then Redone(log[k], v) else v)
    decreases m
  {
    hide SinceCheckpoint;
    if m > 0 {
      RedoGoesOn(log, m - 1, l, k, loc, v);
      assert m <= k && l < m - 1 ==> !Redoable(log, loc.page, m - 1);
      if m == k + 1 { RedoSkips(log, k, k, loc, if Touches(log[k], loc) then Redone(log[k], v) else v); }
    }
  }

  lemma {:induction false} RedoSkips(log: seq<LogRecord>, m: nat, l: int, loc: Loc, v: Option<Bytes>)
    requires m <= |log| && forall i :: 0 <= i < m && l < i ==> !Redoable(log, loc.page, i)
    ensures RedoTo(log, m, l, loc, v) == v
  {
    hide SinceCheckpoint;
    if m > 0 {
      RedoSkips(log, m - 1, l, loc, v);
      assert l < m - 1 ==> !Redoable(log, loc.page, m - 1);
    }
  }

  // Recovery that was interrupted

  /** Recovery makes the same of both stores. */
  ghost predicate SameOutcome(log: seq<LogRecord>, start: Pages, pages: Pages) {
    && pages.Keys == start.Keys
    && forall loc: Loc :: loc.page in start ==>
         RecoveredValue(log, pages[loc.page].lsn, loc, Read(pages, loc))
         == RecoveredValue(log, start[loc.page].lsn, loc, Read(start, loc))
  }

  lemma RedoStep(log: seq<LogRecord>, start: Pages, pages: Pages, n: nat)
    requires SameOutcome(log, start, pages) && n < |log| && IsWrite(log[n]) && log[n].lsn == n
    requires SinceCheckpoint(log, n, |log|)
    requires var p := log[n].loc.page; p in pages && pages[p].lsn < n && CaughtUp(log, pages, p, n)
    ensures var p := log[n].loc.page; SameOutcome(log, start, pages[p := RedoPage(pages[p], log[n])])
  {
    hide RedoTo, UndoTo, RedoPage, UndoPage, SinceCheckpoint;
    var p := log[n].loc.page;
    var pages' := pages[p := RedoPage(pages[p], log[n])];
    RedoLsn(pages[p], log[n]);
    forall loc: Loc | loc.page in start
      ensures RecoveredValue(log, pages'[loc.page].lsn, loc, Read(pages', loc))
           == RecoveredValue(log, start[loc.page].lsn, loc, Read(start, loc))
    {
      PageReads(pages, log[n], loc);
      if loc.page == p { RedoGoesOn(log, |log|, pages[p].lsn, n, loc, Read(pages, loc)); }
    }
  }

  /** The losers from `n` on have been undone, and page LSNs are as they were. */
  ghost predicate UndoReads(log: seq<LogRecord>, redone: Pages, pages: Pages, n: nat)
    requires n <= |log|
  {
    && pages.Keys == redone.Keys && (forall p :: p in pages ==> pages[p].lsn == redone[p].lsn)
    && forall loc: Loc :: loc.page in redone ==> Read(pages, loc) == UndoTo(log, n, loc, Read(redone, loc))
  }

  lemma UndoStep(log: seq<LogRecord>, start: Pages, redone: Pages, pages: Pages, n: nat)
    requires n <= |log| && SameOutcome(log, start, redone) && UndoReads(log, redone, pages, n)
    requires forall p :: p in redone ==> CaughtUp(log, redone, p, |log|)
    ensures SameOutcome(log, start, pages)
  {
    hide RedoTo, UndoTo, SinceCheckpoint;
    forall loc: Loc | loc.page in start
      ensures RecoveredValue(log, pages[loc.page].lsn, loc, Read(pages, loc))
           == RecoveredValue(log, start[loc.page].lsn, loc, Read(start, loc))
    {
      assert CaughtUp(log, redone, loc.page, |log|);
      RedoSkips(log, |log|, redone[loc.page].lsn, loc, Read(redone, loc));
      RedoSkips(log, |log|, redone[loc.page].lsn, loc, Read(pages, loc));
      UndoAgain(log, n, loc, Read(redone, loc));
    }
  }

  /** Each page of the store is as it was in one of the states seen. */
  ghost predicate WrittenFrom(seen: set<Pages>, disk: Pages) {
    && (forall s :: s in seen ==> s.Keys == disk.Keys)
    && (forall p :: p in disk ==> exists s :: s in seen && p in s && s[p] == disk[p])
    && exists s :: s in seen
  }

  /** A crash during recovery leaves each page as it was at some moment. Starting recovery
      over makes the same of that as the first recovery would have made. */
  lemma CrashDuringRecovery(log: seq<LogRecord>, start: Pages, seen: set<Pages>, disk: Pages)
    requires WrittenFrom(seen, disk) && forall s :: s in seen ==> SameOutcome(log, start, s)
    ensures SameOutcome(log, start, disk)
  {
    hide RecoveredValue;
    forall loc: Loc | loc.page in start
      ensures loc.page in disk
      ensures RecoveredValue(log, disk[loc.page].lsn, loc, Read(disk, loc))
           == RecoveredValue(log, start[loc.page].lsn, loc, Read(start, loc))
    {
      var s0 :| s0 in seen;
      assert SameOutcome(log, start, s0);
      var s :| s in seen && loc.page in s && s[loc.page] == disk[loc.page];
      assert SameOutcome(log, start, s);
      assert Read(disk, loc) == Read(s, loc);
    }
    var s0 :| s0 in seen;
    assert SameOutcome(log, start, s0);
  }
}
