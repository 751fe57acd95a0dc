/** The request queue of one table lock under IS, IX and X requests with wait-die, as a
    protocol of atomic steps: request, die, wait, wake and unlock. */
module LockQueue {
  type TxnId = nat

  const INVALID_TXN: int := -1

  datatype Mode = IS | IX | X
  datatype Group = NoLock | GroupIS | GroupIX | TabX
  datatype Request = Request(txn: TxnId, mode: Mode, granted: bool)

  /** `since` says at what time each waiting transaction began to wait; `waking` holds the
      transactions that have been granted their lock and have not yet run again. */
  datatype Queue = Queue(reqs: seq<Request>, group: Group, upgrading: int,
                         since: map<TxnId, nat>, clock: nat, waking: set<TxnId>)

  predicate Dominates(g: Group, m: Mode) {
    match m
    case IS => g != NoLock
    case IX => g == GroupIX || g == TabX
    case X => g == TabX
  }

  ghost predicate OnePerTxn(reqs: seq<Request>) {
    forall i, j :: 0 <= i < j < |reqs| ==> reqs[i].txn != reqs[j].txn
  }

  ghost predicate AnyGranted(reqs: seq<Request>) {
    exists r :: r in reqs && r.granted
  }

  ghost predicate AnyExclusive(reqs: seq<Request>) {
    exists r :: r in reqs && r.granted && r.mode == X
  }

  ghost predicate Waits(reqs: seq<Request>, t: TxnId) {
    exists r :: r in reqs && r.txn == t && !r.granted
  }

  ghost predicate Upgrades(q: Queue) {
    exists r :: r in q.reqs && r.txn == q.upgrading && r.mode == X && (!r.granted || r.txn in q.waking)
  }

  /** A granted X excludes every other grant, and the group mode covers all grants. */
  ghost predicate Compatible(q: Queue) {
    && (forall r, s :: r in q.reqs && s in q.reqs && r.granted && s.granted && r.mode == X ==> r == s)
    && (forall r :: r in q.reqs && r.granted ==> Dominates(q.group, r.mode))
    && (q.group == TabX ==> AnyExclusive(q.reqs))
    && (q.group != NoLock ==> AnyGranted(q.reqs))
  }

  /** Later waiters have smaller ids. */
  ghost predicate WaitOrder(q: Queue) {
    && (forall t :: t in q.since <==> Waits(q.reqs, t))
    && (forall t :: t in q.since ==> q.since[t] < q.clock)
    && (forall t, u :: t in q.since && u in q.since && q.since[t] < q.since[u] ==> u < t)
  }

  ghost predicate Tidy(q: Queue) {
    && OnePerTxn(q.reqs) && Compatible(q) && WaitOrder(q)
    && (forall r :: r in q.reqs && r.txn in q.waking ==> r.granted)
    && (q.upgrading != INVALID_TXN ==> Upgrades(q))
  }

  /** No lost wake-up: someone holds the lock while anyone asks for it, and a waiting
      intention lock waits for a granted X. */
  ghost predicate Ok(q: Queue) {
    && Tidy(q)
    && (q.reqs != [] ==> q.group != NoLock)
    && (forall r :: r in q.reqs && !r.granted && r.mode != X ==> q.group == TabX)
  }

  /** Every waiting request conflicts with a lock granted to another transaction. */
  ghost predicate Conflicts(a: Mode, b: Mode) {
    a == X || b == X
  }

  lemma WaitersAreBlocked(q: Queue, r: Request)
    requires Ok(q) && r in q.reqs && !r.granted
    ensures exists s :: s in q.reqs && s.granted && s.txn != r.txn && Conflicts(r.mode, s.mode)
  {
    assert AnyGranted(q.reqs);
    var s :| s in q.reqs && s.granted;
    SameTxn(q.reqs, r, s);
    if r.mode != X {
      var x :| x in q.reqs && x.granted && x.mode == X;
      SameTxn(q.reqs, r, x);
    }
  }

  lemma SameTxn(reqs: seq<Request>, r: Request, s: Request)
    requires OnePerTxn(reqs) && r in reqs && s in reqs
    ensures r.txn == s.txn ==> r == s
  {
  }

  // Steps that change the request of one transaction

  ghost predicate Rest(reqs: seq<Request>, reqs': seq<Request>, t: TxnId) {
    forall r: Request :: r.txn != t ==> (r in reqs' <==> r in reqs)
  }

  /** The transaction's request becomes `mine`, which is granted. */
  lemma GrantedOk(q: Queue, q': Queue, mine: Request)
    requires OnePerTxn(q'.reqs) && Rest(q.reqs, q'.reqs, mine.txn) && mine in q'.reqs && mine.granted
    requires Ok(q) && !Waits(q.reqs, mine.txn) && mine.txn !in q.waking
    requires q'.since == q.since && q'.clock == q.clock && q'.waking == q.waking && q'.upgrading == q.upgrading
    requires Dominates(q'.group, mine.mode) && forall m :: Dominates(q.group, m) ==> Dominates(q'.group, m)
    requires if mine.mode == X then forall r :: r in q.reqs && r.granted ==> r.txn == mine.txn
             else q'.group != TabX
    ensures Ok(q')
  {
    assert forall r :: r in q'.reqs && r.txn == mine.txn ==> r == mine by {
      forall r | r in q'.reqs
        ensures r.txn == mine.txn ==> r == mine
      {
        SameTxn(q'.reqs, r, mine);
      }
    }
    assert AnyGranted(q'.reqs);
    if mine.mode == X { assert AnyExclusive(q'.reqs); }
    assert forall t :: t != mine.txn && Waits(q.reqs, t) ==> Waits(q'.reqs, t);
    if q.upgrading != INVALID_TXN {
      var u :| u in q.reqs && u.txn == q.upgrading && u.mode == X && (!u.granted || u.txn in q.waking);
      assert u in q'.reqs;
    }
  }

  ghost predicate OtherGranted(reqs: seq<Request>, t: TxnId) {
    exists r :: r in reqs && r.granted && r.txn != t
  }

  /** The transaction begins to wait: its id is the smallest in the queue. */
  lemma WaitingOk(q: Queue, q': Queue, mine: Request)
    requires OnePerTxn(q'.reqs) && Rest(q.reqs, q'.reqs, mine.txn) && mine in q'.reqs && !mine.granted
    requires Ok(q) && !Waits(q.reqs, mine.txn) && mine.txn !in q.waking && OtherGranted(q.reqs, mine.txn)
    requires forall r :: r in q.reqs && r.txn != mine.txn ==> mine.txn < r.txn
    requires q'.since == q.since[mine.txn := q.clock] && q'.clock == q.clock + 1 && q'.waking == q.waking
    requires q'.group == q.group && (mine.mode != X ==> q.group == TabX)
    requires q'.upgrading == q.upgrading || (q'.upgrading == mine.txn && mine.mode == X)
    ensures Ok(q')
  {
    hide Dominates;
    forall r | r in q'.reqs
      ensures r.txn == mine.txn ==> r == mine
    {
      SameTxn(q'.reqs, r, mine);
    }
    var o :| o in q.reqs && o.granted && o.txn != mine.txn;
    assert o in q'.reqs && AnyGranted(q'.reqs);
    if q.group == TabX {
      var x :| x in q.reqs && x.granted && x.mode == X;
      assert x in q'.reqs;
    }
    WaitOrderMore(q, q', mine);
    if q.upgrading != INVALID_TXN {
      var u :| u in q.reqs && u.txn == q.upgrading && u.mode == X && (!u.granted || u.txn in q.waking);
      assert u in q'.reqs;
    }
  }

  lemma WaitOrderMore(q: Queue, q': Queue, mine: Request)
    requires WaitOrder(q) && Rest(q.reqs, q'.reqs, mine.txn) && mine in q'.reqs && !mine.granted
    requires forall r :: r in q.reqs && r.txn != mine.txn ==> mine.txn < r.txn
    requires q'.since == q.since[mine.txn := q.clock] && q'.clock == q.clock + 1
    ensures WaitOrder(q')
  {
    assert forall t :: t != mine.txn ==> (Waits(q.reqs, t) <==> Waits(q'.reqs, t));
  }

  /** The transaction dies: its request is gone and the others are as before. */
  lemma DiedOk(q: Queue, q': Queue, t: TxnId)
    requires OnePerTxn(q'.reqs) && Rest(q.reqs, q'.reqs, t) && forall r :: r in q'.reqs ==> r.txn != t
    requires Ok(q) && !Waits(q.reqs, t) && t !in q.waking && OtherGranted(q.reqs, t)
    requires q'.since == q.since && q'.clock == q.clock && q'.waking == q.waking && q'.group == q.group
    requires q'.upgrading == (if q.upgrading == t then INVALID_TXN else q.upgrading)
    ensures Ok(q')
  {
    hide Dominates;
    var o :| o in q.reqs && o.granted && o.txn != t;
    assert o in q'.reqs && AnyGranted(q'.reqs);
    if q.group == TabX {
      var x :| x in q.reqs && x.granted && x.mode == X;
      assert x in q'.reqs;
    }
    assert forall u :: Waits(q.reqs, u) <==> Waits(q'.reqs, u);
    if q'.upgrading != INVALID_TXN {
      var u :| u in q.reqs && u.txn == q.upgrading && u.mode == X && (!u.granted || u.txn in q.waking);
      assert u in q'.reqs;
    }
  }

  // Unlocking

  /** The strongest mode granted. */
  ghost predicate GroupOf(reqs: seq<Request>, g: Group) {
    && (forall r :: r in reqs && r.granted ==> Dominates(g, r.mode))
    && (g == TabX ==> AnyExclusive(reqs))
    && (g == GroupIX ==> exists r :: r in reqs && r.granted && r.mode == IX)
    && (g != NoLock ==> AnyGranted(reqs))
  }

  lemma ReleasedOk(q: Queue, q': Queue, t: TxnId)
    requires OnePerTxn(q'.reqs) && Rest(q.reqs, q'.reqs, t) && forall r :: r in q'.reqs ==> r.txn != t
    requires Ok(q) && !Waits(q.reqs, t) && t !in q.waking && GroupOf(q'.reqs, q'.group)
    requires q'.since == q.since && q'.clock == q.clock && q'.waking == q.waking
    requires q'.upgrading == (if q.upgrading == t then INVALID_TXN else q.upgrading)
    ensures Tidy(q')
  {
    hide Dominates;
    assert forall u :: Waits(q.reqs, u) <==> Waits(q'.reqs, u);
    if q'.upgrading != INVALID_TXN {
      var u :| u in q.reqs && u.txn == q.upgrading && u.mode == X && (!u.granted || u.txn in q.waking);
      assert u in q'.reqs;
    }
  }

  function Raised(g: Group, m: Mode): Group {
    match m
    case X => TabX
    case IX => if g == NoLock || g == GroupIS then GroupIX else g
    case IS => if g == NoLock then GroupIS else g
  }

  ghost function GrantAt(q: Queue, i: nat): Queue
    requires i < |q.reqs|
  {
    var r := q.reqs[i];
    Queue(q.reqs[i := r.(granted := true)], Raised(q.group, r.mode), q.upgrading, q.since - {r.txn}, q.clock,
          q.waking + {r.txn})
  }

  predicate Grantable(g: Group, m: Mode) {
    if m == X then g == NoLock else g != TabX
  }

  lemma ReplaceAt(reqs: seq<Request>, i: nat, mine: Request)
    requires OnePerTxn(reqs) && i < |reqs| && mine.txn == reqs[i].txn
    ensures OnePerTxn(reqs[i := mine]) && Rest(reqs, reqs[i := mine], mine.txn) && mine in reqs[i := mine]
    ensures forall r :: r in reqs[i := mine] && r.txn == mine.txn ==> r == mine
    ensures forall r :: r in reqs && r.txn == mine.txn ==> r == reqs[i]
  {
    var reqs' := reqs[i := mine];
    assert reqs'[i] == mine;
    forall r: Request | r.txn != mine.txn
      ensures r in reqs' <==> r in reqs
    {
      if r in reqs {
        var j :| 0 <= j < |reqs| && reqs[j] == r;
        assert reqs'[j] == r;
      }
    }
  }

  lemma GrantAtOk(q: Queue, i: nat)
    requires Tidy(q) && i < |q.reqs| && !q.reqs[i].granted && Grantable(q.group, q.reqs[i].mode)
    ensures Tidy(GrantAt(q, i)) && GrantAt(q, i).group != NoLock
  {
    hide OnePerTxn, Rest, Upgrades, WaitOrder;
    var q' := GrantAt(q, i);
    var mine := q.reqs[i].(granted := true);
    ReplaceAt(q.reqs, i, mine);
    GrantAtCompatible(q, q', mine);
    GrantAtOrder(q, q', i);
    GrantAtUpgrade(q, q', i);
    forall r | r in q'.reqs && r.txn in q'.waking
      ensures r.granted
    {
      if r.txn != mine.txn { RestIn(q.reqs, q'.reqs, mine.txn, r); }
    }
  }

  lemma RestIn(reqs: seq<Request>, reqs': seq<Request>, t: TxnId, r: Request)
    requires Rest(reqs, reqs', t) && r.txn != t
    ensures r in reqs' <==> r in reqs
  {
  }

  lemma GrantAtCompatible(q: Queue, q': Queue, mine: Request)
    requires Compatible(q) && Rest(q.reqs, q'.reqs, mine.txn) && mine in q'.reqs && mine.granted
    requires forall r :: r in q'.reqs && r.txn == mine.txn ==> r == mine
    requires forall r :: r in q.reqs && r.txn == mine.txn ==> !r.granted
    requires Grantable(q.group, mine.mode) && q'.group == Raised(q.group, mine.mode)
    ensures Compatible(q')
  {
    assert AnyGranted(q'.reqs);
    if mine.mode == X { assert AnyExclusive(q'.reqs); }
  }

  lemma GrantAtOrder(q: Queue, q': Queue, i: nat)
    requires WaitOrder(q) && i < |q.reqs| && Rest(q.reqs, q'.reqs, q.reqs[i].txn)
    requires forall r :: r in q'.reqs && r.txn == q.reqs[i].txn ==> r.granted
    requires q'.since == q.since - {q.reqs[i].txn} && q'.clock == q.clock
    ensures WaitOrder(q')
  {
    assert forall t :: t != q.reqs[i].txn ==> (Waits(q.reqs, t) <==> Waits(q'.reqs, t));
  }

  lemma GrantAtUpgrade(q: Queue, q': Queue, i: nat)
    requires q.upgrading != INVALID_TXN ==> Upgrades(q)
    requires i < |q.reqs| && Rest(q.reqs, q'.reqs, q.reqs[i].txn) && q.reqs[i].(granted := true) in q'.reqs
    requires forall r :: r in q.reqs && r.txn == q.reqs[i].txn ==> r == q.reqs[i]
    requires q'.waking == q.waking + {q.reqs[i].txn} && q'.upgrading == q.upgrading
    ensures q'.upgrading != INVALID_TXN ==> Upgrades(q')
  {
    if q.upgrading != INVALID_TXN {
      var u :| u in q.reqs && u.txn == q.upgrading && u.mode == X && (!u.granted || u.txn in q.waking);
      var v := if u.txn == q.reqs[i].txn then q.reqs[i].(granted := true) else u;
      assert v in q'.reqs;
    }
  }
}
