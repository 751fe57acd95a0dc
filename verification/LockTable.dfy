/** The operations on one table's request queue. Each runs under the queue's latch, so it
    is one atomic step; waiting ends in `Wake`. */
module LockTable {
  import opened LockQueue

  datatype Outcome = Granted | Waiting | Died | UpgradeConflict

  /** Another transaction holds a lock that conflicts with the mode. */
  ghost predicate Blocked(q: Queue, t: TxnId, m: Mode) {
    exists r :: r in q.reqs && r.granted && r.txn != t && Conflicts(m, r.mode)
  }

  ghost function Strength(m: Mode): int {
    match m case IS => 0 case IX => 1 case X => 2
  }

  ghost function Stronger(a: Mode, b: Mode): Mode {
    if Strength(a) < Strength(b) then b else a
  }

  /** The queue with the request of the transaction: a new one comes last, and one that it
      has is strengthened in its place. */
  ghost function Asked(reqs: seq<Request>, t: TxnId, m: Mode, granted: bool): seq<Request> {
    if reqs == [] then [Request(t, m, granted)]
    else if reqs[0].txn == t then [Request(t, Stronger(reqs[0].mode, m), granted)] + reqs[1..]
    else [reqs[0]] + Asked(reqs[1..], t, m, granted)
  }

  lemma {:induction false} AskedNew(reqs: seq<Request>, t: TxnId, m: Mode, granted: bool)
    requires forall r :: r in reqs ==> r.txn != t
    ensures Asked(reqs, t, m, granted) == reqs + [Request(t, m, granted)]
  {
    if reqs != [] {
      AskedNew(reqs[1..], t, m, granted);
      assert reqs == [reqs[0]] + reqs[1..];
    }
  }

  lemma {:induction false} AskedAt(reqs: seq<Request>, i: nat, m: Mode, granted: bool)
    requires OnePerTxn(reqs) && i < |reqs|
    ensures Asked(reqs, reqs[i].txn, m, granted)
         == reqs[i := Request(reqs[i].txn, Stronger(reqs[i].mode, m), granted)]
  {
    var mine := Request(reqs[i].txn, Stronger(reqs[i].mode, m), granted);
    if i == 0 {
      assert reqs[0 := mine] == [mine] + reqs[1..];
    } else {
      AskedAt(reqs[1..], i - 1, m, granted);
      assert reqs[i := mine] == [reqs[0]] + reqs[1..][i - 1 := mine];
    }
  }

  lemma {:induction false} AskedRemoved(reqs: seq<Request>, t: TxnId, m: Mode, granted: bool)
    ensures RemoveTxn(Asked(reqs, t, m, granted), t) == RemoveTxn(reqs, t)
  {
    if reqs != [] {
      AskedRemoved(reqs[1..], t, m, granted);
      assert Asked(reqs, t, m, granted)[1..] == if reqs[0].txn == t then reqs[1..] else Asked(reqs[1..], t, m, granted);
    } else {
      assert [Request(t, m, granted)][1..] == [];
    }
  }

  /** The transaction is running: it is neither waiting nor about to wake. */
  ghost predicate Running(q: Queue, t: TxnId) {
    !Waits(q.reqs, t) && t !in q.waking
  }

  ghost predicate Queued(q: Queue, t: TxnId) {
    exists r :: r in q.reqs && r.txn == t
  }

  ghost predicate Oldest(q: Queue, t: TxnId) {
    forall r :: r in q.reqs && r.txn != t ==> t < r.txn
  }

  /** What a request of mode `m` leads to. It is granted in exactly this mode, or the one
      that the transaction holds if that is stronger, exactly when no other transaction
      holds a conflicting lock; otherwise the oldest transaction waits and any other dies. */
  ghost predicate Decided(q: Queue, q': Queue, t: TxnId, m: Mode, out: Outcome) {
    && Ok(q') && Rest(q.reqs, q'.reqs, t) && q'.waking == q.waking
    && match out {
         case Granted =>
           && !Blocked(q, t, m) && q'.reqs == Asked(q.reqs, t, m, true) && q'.group == Raised(q.group, m)
           && q'.since == q.since && q'.clock == q.clock && q'.upgrading == q.upgrading
         case Waiting =>
           && Blocked(q, t, m) && Oldest(q, t) && q'.reqs == Asked(q.reqs, t, m, false) && q'.group == q.group
           && q'.since == q.since[t := q.clock] && t !in q.since
           && q'.upgrading == (if Queued(q, t) then t else q.upgrading)
         case Died =>
           && Blocked(q, t, m) && !Oldest(q, t) && q'.reqs == RemoveTxn(q.reqs, t) && q'.group == q.group
           && (forall r :: r in q'.reqs ==> r.txn != t) && q'.since == q.since && q'.upgrading == q.upgrading
         case UpgradeConflict =>
           m == X && q' == q && q.upgrading != INVALID_TXN && Queued(q, t)
       }
  }

  function RemoveTxn(reqs: seq<Request>, t: TxnId): seq<Request> {
    if reqs == [] then []
    else if reqs[0].txn == t then RemoveTxn(reqs[1..], t)
    else [reqs[0]] + RemoveTxn(reqs[1..], t)
  }

  lemma {:induction false} RemoveTxnElements(reqs: seq<Request>, t: TxnId)
    ensures forall r :: r in RemoveTxn(reqs, t) <==> r in reqs && r.txn != t
    ensures OnePerTxn(reqs) ==> OnePerTxn(RemoveTxn(reqs, t))
  {
    if reqs != [] {
      RemoveTxnElements(reqs[1..], t);
      assert reqs == [reqs[0]] + reqs[1..];
      if OnePerTxn(reqs) {
        assert forall r :: r in reqs[1..] ==> r.txn != reqs[0].txn;
        HeadOnePerTxn(reqs[0], RemoveTxn(reqs[1..], t));
      }
    }
  }

  lemma HeadOnePerTxn(r: Request, rest: seq<Request>)
    requires OnePerTxn(rest) && forall s :: s in rest ==> s.txn != r.txn
    ensures OnePerTxn([r] + rest)
  {
  }

  lemma Appended(reqs: seq<Request>, mine: Request)
    requires OnePerTxn(reqs) && forall r :: r in reqs ==> r.txn != mine.txn
    ensures OnePerTxn(reqs + [mine]) && Rest(reqs, reqs + [mine], mine.txn) && mine in reqs + [mine]
  {
  }

  class LockRequestQueue {
    var reqs: seq<Request>
    var group: Group
    var upgrading: int
    ghost var since: map<TxnId, nat>
    ghost var clock: nat
    ghost var waking: set<TxnId>

    ghost function View(): Queue
      reads this
    {
      Queue(reqs, group, upgrading, since, clock, waking)
    }

    constructor ()
      ensures Ok(View()) && reqs == []
    {
      reqs, group, upgrading, since, clock, waking := [], NoLock, INVALID_TXN, map[], 0, {};
    }

    method Find(t: TxnId) returns (i: int)
      ensures -1 <= i < |reqs|
      ensures i >= 0 ==> reqs[i].txn == t
      ensures i == -1 ==> forall r :: r in reqs ==> r.txn != t
    {
      for j := 0 to |reqs|
        invariant forall k :: 0 <= k < j ==> reqs[k].txn != t
      {
        if reqs[j].txn == t {
          return j;
        }
      }
      i := -1;
    }

    method OtherHolds(t: TxnId, exclusive: bool) returns (b: bool)
      ensures b <==> exists r :: r in reqs && r.granted && r.txn != t && (exclusive ==> r.mode == X)
    {
      for j := 0 to |reqs|
        invariant forall k :: 0 <= k < j ==> !(reqs[k].granted && reqs[k].txn != t && (exclusive ==> reqs[k].mode == X))
      {
        if reqs[j].granted && reqs[j].txn != t && (exclusive ==> reqs[j].mode == X) {
          return true;
        }
      }
      b := false;
    }

    /** `wait_die`: a transaction that is younger than any other in the queue dies, and
        its request is removed. */
    method WaitDie(t: TxnId) returns (died: bool)
      modifies this`reqs, this`upgrading
      ensures died <==> exists r :: r in old(reqs) && r.txn < t
      ensures !died ==> reqs == old(reqs) && upgrading == old(upgrading)
      ensures died ==> reqs == RemoveTxn(old(reqs), t)
      ensures died ==> upgrading == if old(upgrading) == t then INVALID_TXN else old(upgrading)
    {
      for j := 0 to |reqs|
        invariant reqs == old(reqs) && upgrading == old(upgrading)
        invariant forall k :: 0 <= k < j ==> t <= reqs[k].txn
      {
        if t > reqs[j].txn {
          if upgrading == t {
            upgrading := INVALID_TXN;
          }
          reqs := RemoveTxn(reqs, t);
          return true;
        }
      }
      died := false;
    }

    /** The tail of a request that cannot be granted at once: die or wait. */
    method WaitOrDie(t: TxnId, ghost q: Queue, ghost mine: Request) returns (out: Outcome)
      requires mine.txn == t && !mine.granted
      modifies this`reqs, this`upgrading, this`since, this`clock
      ensures out.Waiting? || out.Died?
      ensures old(PreparedToWait(q, View(), mine)) ==> Decided(q, View(), t, mine.mode, out)
    {
      hide Ok, OnePerTxn, Oldest;
      var died := WaitDie(t);
      ghost var prepared := old(PreparedToWait(q, View(), mine));
      if died {
        if prepared { Dies(q, old(View()), View(), mine); }
        return Died;
      }
      since := since[t := clock];
      clock := clock + 1;
      if prepared { BeginsToWait(q, old(View()), View(), mine); }
      out := Waiting;
    }

    /** `lock_IS_on_table`. */
    method LockIS(t: TxnId) returns (out: Outcome)
      modifies this`reqs, this`group, this`upgrading, this`since, this`clock
      ensures old(Ok(View()) && Running(View(), t)) ==> Decided(old(View()), View(), t, IS, out)
    {
      hide Tidy, Decided, OnePerTxn, Rest;
      ghost var q := View();
      ghost var good := Ok(q) && Running(q, t);
      var i := Find(t);
      if i >= 0 {
        if group == GroupIS || group == GroupIX {
          reqs := reqs[i := reqs[i].(granted := true)];
          if good { HeldGranted(q, i, IS); }
          return Granted;
        } else if group == TabX {
          var other := OtherHolds(t, true);
          if other {
            if good { HolderIsAlone(q, i); }
            reqs := reqs[i := reqs[i].(granted := false)];
            out := WaitOrDie(t, q, reqs[i]);
            return;
          }
          reqs := reqs[i := reqs[i].(granted := true)];
          if good { HeldGranted(q, i, IS); }
          return Granted;
        }
      }
      if good { NewRequest(q, t, i); }
      var mine := Request(t, IS, true);
      if reqs == [] {
        reqs, group := [mine], GroupIS;
        if good { NewGranted(q, View(), mine); }
        return Granted;
      }
      if group == GroupIS || group == GroupIX {
        reqs := reqs + [mine];
        if good { NewGranted(q, View(), mine); }
        return Granted;
      }
      mine := Request(t, IS, false);
      reqs := reqs + [mine];
      if group == TabX {
        if good { NewBlocked(q, View(), mine); }
        out := WaitOrDie(t, q, mine);
        return;
      }
      out := Granted;
    }

    /** `lock_IX_on_table`. */
    method LockIX(t: TxnId) returns (out: Outcome)
      modifies this`reqs, this`group, this`upgrading, this`since, this`clock
      ensures old(Ok(View()) && Running(View(), t)) ==> Decided(old(View()), View(), t, IX, out)
    {
      hide Tidy, Decided, OnePerTxn, Rest;
      ghost var q := View();
      ghost var good := Ok(q) && Running(q, t);
      var i := Find(t);
      if i >= 0 {
        if group == GroupIX {
          reqs := reqs[i := Request(t, if reqs[i].mode == IS then IX else reqs[i].mode, true)];
          if good { Strengthened(q, View(), i); }
          return Granted;
        } else if group == GroupIS {
          reqs, group := reqs[i := Request(t, IX, true)], GroupIX;
          if good { Strengthened(q, View(), i); }
          return Granted;
        } else if group == TabX {
          var other := OtherHolds(t, true);
          if other {
            if good { HolderIsAlone(q, i); }
            reqs := reqs[i := Request(t, IX, false)];
            out := WaitOrDie(t, q, reqs[i]);
            return;
          }
          reqs := reqs[i := reqs[i].(granted := true)];
          if good { HeldGranted(q, i, IX); }
          return Granted;
        }
      }
      if good { NewRequest(q, t, i); }
      var mine := Request(t, IX, true);
      if reqs == [] {
        reqs, group := [mine], GroupIX;
        if good { NewGranted(q, View(), mine); }
        return Granted;
      }
      if group == GroupIX || group == GroupIS {
        reqs, group := reqs + [mine], GroupIX;
        if good { NewGranted(q, View(), mine); }
        return Granted;
      }
      mine := Request(t, IX, false);
      reqs := reqs + [mine];
      if group == TabX {
        if good { NewBlocked(q, View(), mine); }
        out := WaitOrDie(t, q, mine);
        return;
      }
      out := Granted;
    }

    /** `lock_exclusive_on_table`. */
    method LockX(t: TxnId) returns (out: Outcome)
      modifies this`reqs, this`group, this`upgrading, this`since, this`clock
      ensures old(Ok(View()) && Running(View(), t)) ==> Decided(old(View()), View(), t, X, out)
      ensures out.UpgradeConflict? <==> old(upgrading != INVALID_TXN && Queued(View(), t))
    {
      hide Tidy, Decided, OnePerTxn, Rest;
      ghost var q := View();
      ghost var good := Ok(q) && Running(q, t);
      var i := Find(t);
      assert i >= 0 <==> Queued(q, t);
      if i >= 0 {
        if upgrading != INVALID_TXN {
          if good { Refused(q, t); }
          return UpgradeConflict;
        }
        upgrading := t;
        var other := OtherHolds(t, false);
        if other {
          reqs := reqs[i := Request(t, X, false)];
          if good { UpgradeBlocked(q, View(), i); }
          out := WaitOrDie(t, q, reqs[i]);
          return;
        }
        reqs, group, upgrading := reqs[i := Request(t, X, true)], TabX, INVALID_TXN;
        if good { Upgraded(q, View(), i); }
        return Granted;
      }
      if good { NewRequest(q, t, i); }
      if reqs == [] || group == NoLock {
        reqs, group := reqs + [Request(t, X, true)], TabX;
        if good { NewGranted(q, View(), Request(t, X, true)); }
        return Granted;
      }
      var mine := Request(t, X, false);
      reqs := reqs + [mine];
      if good { NewBlocked(q, View(), mine); }
      out := WaitOrDie(t, q, mine);
    }

    /** A waiting transaction runs again after its lock has been granted. */
    method Wake(t: TxnId)
      requires t in waking
      modifies this`group, this`upgrading, this`waking
      ensures reqs == old(reqs) && waking == old(waking) - {t}
      ensures old(Ok(View())) ==> Ok(View()) && group == old(group)
    {
      hide Tidy, OnePerTxn;
      ghost var q := View();
      var i := Find(t);
      if i >= 0 && reqs[i].mode == X {
        group := TabX;
        if upgrading == t {
          upgrading := INVALID_TXN;
        }
      }
      waking := waking - {t};
      if Ok(q) { WakeOk(q, View(), t, i); }
    }

    method RecomputeGroup()
      modifies this`group
      ensures GroupOf(reqs, group)
    {
      var g := NoLock;
      for j := 0 to |reqs|
        invariant GroupOf(reqs[..j], g)
      {
        ghost var before := g;
        if reqs[j].granted {
          match reqs[j].mode {
            case X => g := TabX;
            case IX => if g != TabX { g := GroupIX; }
            case IS => if g == NoLock { g := GroupIS; }
          }
        }
        GroupMore(reqs, j, before, g);
      }
      assert reqs[..|reqs|] == reqs;
      group := g;
    }

    /** `grant_lock`: in queue order, grants every request that the group mode admits. */
    method GrantLock()
      modifies this`reqs, this`group, this`since, this`waking
      ensures old(Tidy(View())) ==> Tidy(View()) && View() == Passed(old(View()), |old(reqs)|)
      ensures old(Tidy(View())) && reqs != [] ==> Ok(View())
    {
      hide Tidy, OnePerTxn;
      ghost var q := View();
      ghost var good := Tidy(q);
      for i := 0 to |reqs|
        invariant |reqs| == |q.reqs| && upgrading == q.upgrading && clock == q.clock
        invariant good ==> View() == Passed(q, i) && GrantedTo(View(), i)
      {
        ghost var v := View();
        var r := reqs[i];
        var granted := !r.granted && Grantable(group, r.mode);
        if granted {
          reqs := reqs[i := r.(granted := true)];
          group := Raised(group, r.mode);
          since, waking := since - {r.txn}, waking + {r.txn};
        }
        if !granted && r.txn == upgrading {
          var other := OtherHolds(r.txn, false);
          if !other {
            reqs := reqs[i := r.(granted := true)];
            group := TabX;
          }
        }
        if good { GrantStep(q, v, View(), i); }
      }
    }

    /** `unlock`: gives up the lock and passes it on. */
    method Unlock(t: TxnId) returns (ok: bool)
      modifies this
      ensures ok <==> exists r :: r in old(reqs) && r.txn == t
      ensures !ok ==> View() == old(View())
      ensures old(Ok(View()) && Running(View(), t)) ==>
                Ok(View()) && (ok ==> Handed(old(View()), View(), t))
    {
      hide Tidy, OnePerTxn, GroupOf;
      ghost var q := View();
      ghost var good := Ok(q) && Running(q, t);
      var i := Find(t);
      if i < 0 {
        return false;
      }
      ok := true;
      if good { Erased(q, i); }
      reqs := reqs[..i] + reqs[i + 1..];
      RecomputeGroup();
      if upgrading == t {
        upgrading := INVALID_TXN;
      }
      ghost var w := View();
      if good { Released(q, w, t); }
      if reqs == [] {
        group := NoLock;
        if good { NothingLeft(q, w, View(), t); }
      } else {
        GrantLock();
      }
    }
  }

  /** The queue `w` is `q` with the transaction's request marked as not granted. */
  ghost predicate PreparedToWait(q: Queue, w: Queue, mine: Request) {
    && Ok(q) && Running(q, mine.txn) && Blocked(q, mine.txn, mine.mode)
    && OnePerTxn(w.reqs) && Rest(q.reqs, w.reqs, mine.txn) && mine in w.reqs && !mine.granted
    && w.reqs == Asked(q.reqs, mine.txn, mine.mode, false)
    && w.group == q.group && w.since == q.since && w.clock == q.clock && w.waking == q.waking
    && w.upgrading == (if Queued(q, mine.txn) then mine.txn else q.upgrading)
    && (Queued(q, mine.txn) ==> q.upgrading == INVALID_TXN && mine.mode == X)
  }

  lemma Youngest(q: Queue, w: Queue, mine: Request)
    requires OnePerTxn(w.reqs) && Rest(q.reqs, w.reqs, mine.txn) && mine in w.reqs && OnePerTxn(q.reqs)
    ensures (exists r :: r in w.reqs && r.txn < mine.txn) <==> !Oldest(q, mine.txn)
  {
    if !Oldest(q, mine.txn) {
      var r :| r in q.reqs && r.txn != mine.txn && r.txn <= mine.txn;
      assert r in w.reqs;
    }
  }

  lemma Dies(q: Queue, w: Queue, q': Queue, mine: Request)
    requires PreparedToWait(q, w, mine) && (exists r :: r in w.reqs && r.txn < mine.txn)
    requires q' == w.(reqs := RemoveTxn(w.reqs, mine.txn),
                      upgrading := if w.upgrading == mine.txn then INVALID_TXN else w.upgrading)
    ensures Decided(q, q', mine.txn, mine.mode, Died)
  {
    hide Compatible, WaitOrder;
    Youngest(q, w, mine);
    RemoveTxnElements(w.reqs, mine.txn);
    AskedRemoved(q.reqs, mine.txn, mine.mode, false);
    NotUpgrading(q, mine.txn);
    DiedOk(q, q', mine.txn);
  }

  /** A running transaction is not the upgrading one. */
  lemma NotUpgrading(q: Queue, t: TxnId)
    requires Ok(q) && Running(q, t)
    ensures q.upgrading != t
  {
    if q.upgrading != INVALID_TXN {
      var u :| u in q.reqs && u.txn == q.upgrading && u.mode == X && (!u.granted || u.txn in q.waking);
      assert !u.granted ==> Waits(q.reqs, u.txn);
    }
  }

  lemma BlockedByGroup(q: Queue, t: TxnId, m: Mode)
    requires Ok(q)
    ensures Blocked(q, t, m) && m != X ==> q.group == TabX
    ensures q.group == TabX && OtherGranted(q.reqs, t) ==> Blocked(q, t, m)
    ensures m == X ==> (Blocked(q, t, m) <==> OtherGranted(q.reqs, t))
  {
    if q.group == TabX && OtherGranted(q.reqs, t) {
      var x :| x in q.reqs && x.granted && x.mode == X;
      var o :| o in q.reqs && o.granted && o.txn != t;
      assert o == x;
    }
  }

  lemma BeginsToWait(q: Queue, w: Queue, q': Queue, mine: Request)
    requires PreparedToWait(q, w, mine) && !(exists r :: r in w.reqs && r.txn < mine.txn)
    requires q' == w.(since := w.since[mine.txn := w.clock], clock := w.clock + 1)
    ensures Decided(q, q', mine.txn, mine.mode, Waiting)
  {
    hide Compatible;
    Youngest(q, w, mine);
    BlockedByGroup(q, mine.txn, mine.mode);
    NotUpgrading(q, mine.txn);
    WaitingOk(q, q', mine);
  }

  lemma HolderIsAlone(q: Queue, i: nat)
    requires Ok(q) && i < |q.reqs| && Running(q, q.reqs[i].txn) && q.group == TabX
    ensures q.reqs[i].granted && q.reqs[i].mode == X && forall r :: r in q.reqs && r.granted ==> r == q.reqs[i]
  {
    assert q.reqs[i].granted;
    var x :| x in q.reqs && x.granted && x.mode == X;
    assert x == q.reqs[i];
  }

  lemma GrantDecided(q: Queue, q': Queue, mine: Request, m: Mode)
    requires Ok(q) && Ok(q') && Rest(q.reqs, q'.reqs, mine.txn) && q'.reqs == Asked(q.reqs, mine.txn, m, true)
    requires !Blocked(q, mine.txn, m) && q' == q.(reqs := q'.reqs, group := Raised(q.group, m))
    ensures Decided(q, q', mine.txn, m, Granted)
  {
    hide Ok;
  }

  /** The transaction asks for no more than it holds. */
  lemma HeldGranted(q: Queue, i: nat, m: Mode)
    requires Ok(q) && i < |q.reqs| && Running(q, q.reqs[i].txn) && q.group != NoLock && m != X
    requires m == IS || q.group == TabX
    ensures var q' := q.(reqs := q.reqs[i := q.reqs[i].(granted := true)]); Decided(q, q', q.reqs[i].txn, m, Granted)
  {
    var r := q.reqs[i];
    assert r.granted;
    assert q.reqs[i := r.(granted := true)] == q.reqs;
    if q.group == TabX { HolderIsAlone(q, i); }
    BlockedByGroup(q, r.txn, m);
    AskedAt(q.reqs, i, m, true);
    assert q.reqs[i := r] == q.reqs;
    GrantDecided(q, q, r, m);
  }

  lemma Strengthened(q: Queue, q': Queue, i: nat)
    requires Ok(q) && i < |q.reqs| && Running(q, q.reqs[i].txn) && (q.group == GroupIS || q.group == GroupIX)
    requires var r := q.reqs[i];
      var mode := if q.group == GroupIX && r.mode != IS then r.mode else IX;
      q' == q.(reqs := q.reqs[i := Request(r.txn, mode, true)], group := GroupIX)
    ensures Decided(q, q', q.reqs[i].txn, IX, Granted)
  {
    var r := q.reqs[i];
    assert r.granted && r.mode != X;
    var mine := Request(r.txn, IX, true);
    ReplaceAt(q.reqs, i, mine);
    BlockedByGroup(q, r.txn, IX);
    AskedAt(q.reqs, i, IX, true);
    assert q'.reqs == q.reqs[i := mine];
    GrantedOk(q, q', mine);
    GrantDecided(q, q', mine, IX);
  }

  /** A transaction that reaches the second half of a request has none in the queue. */
  lemma NewRequest(q: Queue, t: TxnId, i: int)
    requires Ok(q) && Running(q, t) && -1 <= i < |q.reqs|
    ensures q.reqs != [] ==> q.group != NoLock
    ensures q.reqs == [] ==> q.group == NoLock
    ensures i >= 0 ==> q.group != NoLock
  {
  }

  lemma NewGranted(q: Queue, q': Queue, mine: Request)
    requires Ok(q) && Running(q, mine.txn) && mine.granted && forall r :: r in q.reqs ==> r.txn != mine.txn
    requires q' == q.(reqs := q.reqs + [mine], group := q'.group)
    requires if mine.mode == X then q.reqs == [] && q'.group == TabX
             else q.group != TabX && q'.group == Raised(q.group, mine.mode)
    ensures Decided(q, q', mine.txn, mine.mode, Granted)
  {
    Appended(q.reqs, mine);
    BlockedByGroup(q, mine.txn, mine.mode);
    AskedNew(q.reqs, mine.txn, mine.mode, true);
    GrantedOk(q, q', mine);
    GrantDecided(q, q', mine, mine.mode);
  }

  lemma NewBlocked(q: Queue, w: Queue, mine: Request)
    requires Ok(q) && Running(q, mine.txn) && !mine.granted && forall r :: r in q.reqs ==> r.txn != mine.txn
    requires w == q.(reqs := q.reqs + [mine]) && q.group != NoLock && (mine.mode != X ==> q.group == TabX)
    ensures PreparedToWait(q, w, mine)
  {
    hide WaitOrder, Upgrades;
    Appended(q.reqs, mine);
    assert AnyGranted(q.reqs);
    var o :| o in q.reqs && o.granted;
    assert OtherGranted(q.reqs, mine.txn);
    AskedNew(q.reqs, mine.txn, mine.mode, false);
    BlockedByGroup(q, mine.txn, mine.mode);
  }

  lemma Refused(q: Queue, t: TxnId)
    requires Ok(q) && q.upgrading != INVALID_TXN && Queued(q, t)
    ensures Decided(q, q, t, X, UpgradeConflict)
  {
    hide Ok;
  }

  lemma UpgradeBlocked(q: Queue, w: Queue, i: nat)
    requires Ok(q) && i < |q.reqs| && Running(q, q.reqs[i].txn) && q.upgrading == INVALID_TXN
    requires OtherGranted(q.reqs, q.reqs[i].txn)
    requires w == q.(reqs := q.reqs[i := Request(q.reqs[i].txn, X, false)], upgrading := q.reqs[i].txn)
    ensures PreparedToWait(q, w, Request(q.reqs[i].txn, X, false))
  {
    hide WaitOrder, Upgrades, Compatible;
    ReplaceAt(q.reqs, i, Request(q.reqs[i].txn, X, false));
    AskedAt(q.reqs, i, X, false);
    assert Queued(q, q.reqs[i].txn);
    BlockedByGroup(q, q.reqs[i].txn, X);
  }

  lemma Upgraded(q: Queue, q': Queue, i: nat)
    requires Ok(q) && i < |q.reqs| && Running(q, q.reqs[i].txn) && q.upgrading == INVALID_TXN
    requires !OtherGranted(q.reqs, q.reqs[i].txn)
    requires q' == q.(reqs := q.reqs[i := Request(q.reqs[i].txn, X, true)], group := TabX)
    ensures Decided(q, q', q.reqs[i].txn, X, Granted)
  {
    hide WaitOrder, Upgrades, Compatible;
    var mine := Request(q.reqs[i].txn, X, true);
    ReplaceAt(q.reqs, i, mine);
    BlockedByGroup(q, mine.txn, X);
    AskedAt(q.reqs, i, X, true);
    GrantedOk(q, q', mine);
    GrantDecided(q, q', mine, X);
  }

  lemma WakeOk(q: Queue, q': Queue, t: TxnId, i: int)
    requires Ok(q) && -1 <= i < |q.reqs| && t in q.waking && (i >= 0 ==> q.reqs[i].txn == t)
    requires i == -1 ==> forall r :: r in q.reqs ==> r.txn != t
    requires q' == q.(waking := q.waking - {t}, group := q'.group, upgrading := q'.upgrading)
    requires q'.group == if i >= 0 && q.reqs[i].mode == X then TabX else q.group
    requires q'.upgrading == if i >= 0 && q.reqs[i].mode == X && q.upgrading == t then INVALID_TXN else q.upgrading
    ensures Ok(q') && q'.group == q.group
  {
    assert i >= 0 ==> q.reqs[i] in q.reqs && q.reqs[i].granted;
    if q'.upgrading != INVALID_TXN {
      var u :| u in q.reqs && u.txn == q.upgrading && u.mode == X && (!u.granted || u.txn in q.waking);
      if i >= 0 { SameTxn(q.reqs, u, q.reqs[i]); }
      assert u in q'.reqs;
    }
  }

  lemma GroupMore(reqs: seq<Request>, j: nat, g: Group, g': Group)
    requires j < |reqs| && GroupOf(reqs[..j], g)
    requires g' == (if !reqs[j].granted then g else match reqs[j].mode
                    case X => TabX
                    case IX => if g != TabX then GroupIX else g
                    case IS => if g == NoLock then GroupIS else g)
    ensures GroupOf(reqs[..j + 1], g')
  {
    var a, b := reqs[..j], reqs[..j + 1];
    assert b == a + [reqs[j]];
    assert reqs[j] in b;
    assert forall r :: r in a ==> r in b;
    assert AnyGranted(a) ==> AnyGranted(b);
    assert AnyExclusive(a) ==> AnyExclusive(b);
  }

  /** The first `n` requests in queue order, each granted if the group mode admits it by
      then. */
  ghost function Passed(q: Queue, n: nat): (q': Queue)
    requires n <= |q.reqs|
    ensures |q'.reqs| == |q.reqs| && forall i :: n <= i < |q.reqs| ==> q'.reqs[i] == q.reqs[i]
  {
    if n == 0 then q
    else
      var v := Passed(q, n - 1);
      if !v.reqs[n - 1].granted && Grantable(v.group, v.reqs[n - 1].mode) then GrantAt(v, n - 1) else v
  }

  /** Without the request of the transaction, and with the strongest mode still granted as
      group mode, the queue is passed once. */
  ghost predicate Handed(q: Queue, q': Queue, t: TxnId) {
    exists g :: GroupOf(RemoveTxn(q.reqs, t), g) && q' == Passed(Freed(q, t, g), |RemoveTxn(q.reqs, t)|)
  }

  ghost function Freed(q: Queue, t: TxnId, g: Group): Queue {
    q.(reqs := RemoveTxn(q.reqs, t), group := g, upgrading := if q.upgrading == t then INVALID_TXN else q.upgrading)
  }

  /** Raising the group mode by a grant gives the strongest mode granted again. */
  lemma RaisedIsStrongest(reqs: seq<Request>, g: Group, r: Request)
    requires GroupOf(reqs, g) && r.granted
    ensures GroupOf(reqs + [r], Raised(g, r.mode))
  {
    assert r in reqs + [r];
    assert AnyExclusive(reqs) ==> AnyExclusive(reqs + [r]);
    if g == GroupIX {
      var x :| x in reqs && x.granted && x.mode == IX;
      assert x in reqs + [r];
    }
  }

  /** There is only one such group mode. */
  lemma GroupUnique(reqs: seq<Request>, g: Group, g': Group)
    requires GroupOf(reqs, g) && GroupOf(reqs, g')
    ensures g == g'
  {
  }

  /** The requests keep their places, owners and modes, and none loses its lock. */
  lemma {:induction false} PassedKeeps(q: Queue, n: nat)
    requires n <= |q.reqs|
    ensures var q' := Passed(q, n);
            && q'.clock == q.clock && q'.upgrading == q.upgrading
            && forall i :: 0 <= i < |q.reqs| ==>
                 q'.reqs[i] == q.reqs[i] || q'.reqs[i] == q.reqs[i].(granted := true)
  {
    if n > 0 { PassedKeeps(q, n - 1); }
  }

  /** First come, first served: when nothing is granted, the first request is. */
  lemma {:induction false} FirstIsServed(q: Queue, n: nat)
    requires 0 < n <= |q.reqs| && q.group == NoLock
    ensures Passed(q, n).reqs[0].granted && (!q.reqs[0].granted ==> Passed(q, 1) == GrantAt(q, 0))
  {
    if n > 1 {
      FirstIsServed(q, n - 1);
    } else {
      assert Passed(q, 0) == q;
    }
  }

  /** The grant loop has passed the first `n` requests. */
  ghost predicate GrantedTo(q: Queue, n: nat) {
    && Tidy(q) && (0 < n ==> q.group != NoLock)
    && (forall i :: 0 <= i < n && i < |q.reqs| && !q.reqs[i].granted && q.reqs[i].mode != X ==> q.group == TabX)
    && (n == |q.reqs| && 0 < n ==> Ok(q))
  }

  lemma GrantStep(q0: Queue, q: Queue, q': Queue, i: nat)
    requires i < |q.reqs| == |q0.reqs| && GrantedTo(q, i) && q == Passed(q0, i)
    requires var r := q.reqs[i]; var g := !r.granted && Grantable(q.group, r.mode);
             var u := !g && r.txn == q.upgrading && !OtherGranted(q.reqs, r.txn);
             q' == if g then GrantAt(q, i)
                   else if u then q.(reqs := q.reqs[i := r.(granted := true)], group := TabX) else q
    ensures q' == Passed(q0, i + 1) && GrantedTo(q', i + 1)
  {
    hide WaitOrder;
    var r := q.reqs[i];
    if !r.granted && Grantable(q.group, r.mode) {
      GrantAtOk(q, i);
    } else {
      NotGrantable(q, i);
      assert q' == q;
    }
  }

  lemma NotGrantable(q: Queue, i: nat)
    requires Tidy(q) && i < |q.reqs| && (q.reqs[i].granted || !Grantable(q.group, q.reqs[i].mode))
    ensures q.group != NoLock && (!q.reqs[i].granted ==> OtherGranted(q.reqs, q.reqs[i].txn))
    ensures q.reqs[i].granted ==> q.reqs[i := q.reqs[i].(granted := true)] == q.reqs
    ensures q.reqs[i].granted && q.reqs[i].txn == q.upgrading ==> q.group == TabX
  {
    var r := q.reqs[i];
    assert r in q.reqs;
    if !r.granted {
      assert AnyGranted(q.reqs);
      var o :| o in q.reqs && o.granted;
      SameTxn(q.reqs, o, r);
    } else if r.txn == q.upgrading {
      var u :| u in q.reqs && u.txn == q.upgrading && u.mode == X && (!u.granted || u.txn in q.waking);
      SameTxn(q.reqs, u, r);
    }
  }

  lemma {:induction false} EraseIsRemove(reqs: seq<Request>, i: nat)
    requires OnePerTxn(reqs) && i < |reqs|
    ensures reqs[..i] + reqs[i + 1..] == RemoveTxn(reqs, reqs[i].txn)
  {
    var t := reqs[i].txn;
    if i == 0 {
      RemoveNoneSeq(reqs[1..], t);
    } else {
      EraseIsRemove(reqs[1..], i - 1);
      assert reqs[..i] + reqs[i + 1..] == [reqs[0]] + (reqs[1..][..i - 1] + reqs[1..][i..]);
    }
  }

  lemma {:induction false} RemoveNoneSeq(reqs: seq<Request>, t: TxnId)
    requires forall r :: r in reqs ==> r.txn != t
    ensures RemoveTxn(reqs, t) == reqs
  {
    if reqs != [] { RemoveNoneSeq(reqs[1..], t); }
  }

  lemma Erased(q: Queue, i: nat)
    requires Ok(q) && i < |q.reqs|
    ensures q.reqs[..i] + q.reqs[i + 1..] == RemoveTxn(q.reqs, q.reqs[i].txn)
  {
    EraseIsRemove(q.reqs, i);
  }

  lemma Released(q: Queue, w: Queue, t: TxnId)
    requires Ok(q) && Running(q, t) && GroupOf(w.reqs, w.group)
    requires w == q.(reqs := RemoveTxn(q.reqs, t), group := w.group,
                     upgrading := if q.upgrading == t then INVALID_TXN else q.upgrading)
    ensures Tidy(w)
  {
    hide WaitOrder, Compatible, GroupOf;
    RemoveTxnElements(q.reqs, t);
    ReleasedOk(q, w, t);
  }

  lemma NothingLeft(q: Queue, w: Queue, q': Queue, t: TxnId)
    requires Tidy(w) && w.reqs == [] && q' == w.(group := NoLock) && w == Freed(q, t, w.group) && GroupOf([], w.group)
    ensures Ok(q') && Handed(q, q', t)
  {
    hide WaitOrder;
    assert w.group == NoLock;
    assert Passed(w, 0) == w;
  }

  // Any number of intention locks

  /** The transaction has a request, and one to write if so it asked. */
  ghost predicate Intends(reqs: seq<Request>, t: TxnId, toWrite: bool) {
    exists r :: r in reqs && r.txn == t && (toWrite ==> r.mode == IX)
  }

  /** Intention locks do not conflict: on a queue where nobody holds or awaits X, every
      sequence of IS and IX requests is granted throughout. */
  method LockIntents(queue: LockRequestQueue, asks: seq<(TxnId, bool)>) returns (outs: seq<Outcome>)
    requires Ok(queue.View()) && queue.waking == {} && forall r :: r in queue.reqs ==> r.granted && r.mode != X
    modifies queue
    ensures |outs| == |asks| && forall i :: 0 <= i < |outs| ==> outs[i] == Granted
    ensures Ok(queue.View()) && forall r :: r in queue.reqs ==> r.granted && r.mode != X
    ensures forall i :: 0 <= i < |asks| ==> Intends(queue.reqs, asks[i].0, asks[i].1)
  {
    hide Ok, Intends, Asked;
    outs := [];
    for i := 0 to |asks|
      invariant Ok(queue.View()) && queue.waking == {} && forall r :: r in queue.reqs ==> r.granted && r.mode != X
      invariant |outs| == i && forall k :: 0 <= k < i ==> outs[k] == Granted
      invariant forall k :: 0 <= k < i ==> Intends(queue.reqs, asks[k].0, asks[k].1)
    {
      var (t, toWrite) := asks[i];
      ghost var q, m := queue.View(), if toWrite then IX else IS;
      var out;
      if toWrite {
        out := queue.LockIX(t);
      } else {
        out := queue.LockIS(t);
      }
      assert Decided(q, queue.View(), t, m, out);
      AskedIntent(q.reqs, t, m);
      forall k | 0 <= k < i
        ensures Intends(queue.reqs, asks[k].0, asks[k].1)
      {
        AskedKeeps(q.reqs, t, m, asks[k].0, asks[k].1);
      }
      outs := outs + [out];
    }
  }

  lemma {:induction false} AskedIntent(reqs: seq<Request>, t: TxnId, m: Mode)
    requires m != X && forall r :: r in reqs ==> r.granted && r.mode != X
    ensures forall r :: r in Asked(reqs, t, m, true) ==> r.granted && r.mode != X
    ensures Intends(Asked(reqs, t, m, true), t, m == IX)
  {
    var more := Asked(reqs, t, m, true);
    if reqs == [] || reqs[0].txn == t {
      assert more[0] in more;
    } else {
      AskedIntent(reqs[1..], t, m);
      assert more == [reqs[0]] + Asked(reqs[1..], t, m, true);
      assert reqs[0] in reqs;
    }
  }

  lemma {:induction false} AskedKeeps(reqs: seq<Request>, t: TxnId, m: Mode, u: TxnId, toWrite: bool)
    requires m != X && (forall r :: r in reqs ==> r.mode != X) && Intends(reqs, u, toWrite)
    ensures Intends(Asked(reqs, t, m, true), u, toWrite)
  {
    var r :| r in reqs && r.txn == u && (toWrite ==> r.mode == IX);
    var more := Asked(reqs, t, m, true);
    if r == reqs[0] {
      assert more[0] in more && more[0].txn == u;
    } else {
      assert r in reqs[1..];
      if reqs[0].txn == t {
        assert more[1..] == reqs[1..];
      } else {
        AskedKeeps(reqs[1..], t, m, u, toWrite);
        assert more[1..] == Asked(reqs[1..], t, m, true);
      }
      assert forall x :: x in more[1..] ==> x in more;
    }
  }
}
