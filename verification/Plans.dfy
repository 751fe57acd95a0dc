/** Conditions and plan trees, and what a plan means. */
module Plans {
  datatype Op = Eq | Ne | Lt | Gt | Le | Ge
  datatype Col = Col(tab: string, name: string)
  datatype Rhs = Lit(value: int) | Ref(col: Col)
  datatype Cond = Cond(lhs: Col, op: Op, rhs: Rhs)

  datatype Plan = Scan(tab: string, conds: seq<Cond>) | Join(left: Plan, right: Plan, conds: seq<Cond>)

  function Mirror(op: Op): Op {
    match op
    case Eq => Eq
    case Ne => Ne
    case Lt => Gt
    case Gt => Lt
    case Le => Ge
    case Ge => Le
  }

  function Swap(c: Cond): Cond {
    match c.rhs
    case Lit(_) => c
    case Ref(col) => Cond(col, Mirror(c.op), Ref(c.lhs))
  }

  /** The table of the right-hand column; a literal leaves it empty. */
  function RhsTab(c: Cond): string {
    if c.rhs.Ref? then c.rhs.col.tab else ""
  }

  predicate Compare(a: int, op: Op, b: int) {
    match op
    case Eq => a == b
    case Ne => a != b
    case Lt => a < b
    case Gt => a > b
    case Le => a <= b
    case Ge => a >= b
  }

  type Row = map<string, int>

  /** A database and one row number for each table. */
  datatype Env = Env(db: map<string, seq<Row>>, pick: map<string, nat>)

  predicate Picks(env: Env, tab: string) {
    tab in env.db && tab in env.pick && env.pick[tab] < |env.db[tab]|
  }

  function Val(env: Env, c: Col): int {
    if Picks(env, c.tab) && c.name in env.db[c.tab][env.pick[c.tab]] then env.db[c.tab][env.pick[c.tab]][c.name] else 0
  }

  predicate Holds(c: Cond, env: Env) {
    Compare(Val(env, c.lhs), c.op, if c.rhs.Lit? then c.rhs.value else Val(env, c.rhs.col))
  }

  predicate AllHold(cs: seq<Cond>, env: Env) {
    forall i :: 0 <= i < |cs| ==> Holds(cs[i], env)
  }

  lemma SwapHolds(c: Cond, env: Env)
    ensures Holds(Swap(c), env) <==> Holds(c, env)
    ensures Swap(Swap(c)) == c
  {
  }

  function Tables(p: Plan): seq<string> {
    match p
    case Scan(tab, _) => [tab]
    case Join(l, r, _) => Tables(l) + Tables(r)
  }

  /** The plan denotes the combination of rows that `env` stands for: each scan's rows pass
      its conditions, and each join's pairs pass the join's. */
  ghost predicate Denotes(p: Plan, env: Env) {
    match p
    case Scan(tab, cs) => Picks(env, tab) && AllHold(cs, env)
    case Join(l, r, cs) => Denotes(l, env) && Denotes(r, env) && AllHold(cs, env)
  }

  /** A scan only sees its own table. */
  ghost predicate ScanScoped(p: Plan)
    requires p.Scan?
  {
    forall i :: 0 <= i < |p.conds| ==>
        p.conds[i].lhs.tab == p.tab && (p.conds[i].rhs.Ref? ==> p.conds[i].rhs.col.tab == p.tab)
  }

  /** The columns of a join condition are on the two sides of the join, in this order. */
  ghost predicate JoinsScoped(p: Plan) {
    match p
    case Scan(_, _) => true
    case Join(l, r, cs) =>
      JoinsScoped(l) && JoinsScoped(r) &&
      forall i :: 0 <= i < |cs| ==> cs[i].rhs.Ref? && cs[i].lhs.tab in Tables(l) && cs[i].rhs.col.tab in Tables(r)
  }

  /** A condition up to exchanging its sides. */
  function Norm(c: Cond): set<Cond> {
    {c, Swap(c)}
  }

  lemma NormSwap(c: Cond)
    ensures Norm(Swap(c)) == Norm(c)
  {
  }

  function Norms(cs: seq<Cond>): multiset<set<Cond>> {
    if cs == [] then multiset{} else multiset{Norm(cs[0])} + Norms(cs[1..])
  }

  lemma {:induction false} NormsAppend(a: seq<Cond>, b: seq<Cond>)
    ensures Norms(a + b) == Norms(a) + Norms(b)
  {
    if a == [] {
      assert a + b == b;
    } else {
      assert (a + b)[1..] == a[1..] + b;
      NormsAppend(a[1..], b);
    }
  }

  /** The conditions attached to the joins of a plan. */
  function JoinConds(p: Plan): multiset<set<Cond>> {
    match p
    case Scan(_, _) => multiset{}
    case Join(l, r, cs) => JoinConds(l) + JoinConds(r) + Norms(cs)
  }

  ghost predicate NormsHold(ns: multiset<set<Cond>>, env: Env) {
    forall n, c :: n in ns && c in n ==> Holds(c, env)
  }

  lemma {:induction false} NormsMeaning(cs: seq<Cond>, env: Env)
    ensures NormsHold(Norms(cs), env) <==> AllHold(cs, env)
  {
    if cs != [] {
      NormsMeaning(cs[1..], env);
      SwapHolds(cs[0], env);
      assert cs[0] in Norm(cs[0]) && Norm(cs[0]) in Norms(cs);
      assert AllHold(cs, env) <==> Holds(cs[0], env) && AllHold(cs[1..], env) by {
        assert forall i :: 1 <= i < |cs| ==> cs[i] == cs[1..][i - 1];
      }
      assert forall n :: n in Norms(cs) <==> n == Norm(cs[0]) || n in Norms(cs[1..]);
    }
  }

  lemma NormsHoldUnion(a: multiset<set<Cond>>, b: multiset<set<Cond>>, env: Env)
    ensures NormsHold(a + b, env) <==> NormsHold(a, env) && NormsHold(b, env)
  {
    assert forall n :: n in a + b <==> n in a || n in b;
  }

  function Leaves(p: Plan): set<Plan> {
    match p
    case Scan(_, _) => {p}
    case Join(l, r, _) => Leaves(l) + Leaves(r)
  }

  lemma {:induction false} LeavesAreScans(p: Plan)
    ensures forall s :: s in Leaves(p) ==> s.Scan?
  {
    if p.Join? {
      LeavesAreScans(p.left);
      LeavesAreScans(p.right);
    }
  }

  ghost predicate LeavesDenote(p: Plan, env: Env) {
    forall s :: s in Leaves(p) ==> Denotes(s, env)
  }

  /** A plan denotes what passes all its leaves and all its join conditions. */
  lemma {:induction false} DenotesMeaning(p: Plan, env: Env)
    ensures Denotes(p, env) <==> LeavesDenote(p, env) && NormsHold(JoinConds(p), env)
  {
    match p
    case Scan(_, _) =>
    case Join(l, r, cs) =>
      DenotesMeaning(l, env);
      DenotesMeaning(r, env);
      NormsMeaning(cs, env);
      NormsHoldUnion(JoinConds(l) + JoinConds(r), Norms(cs), env);
      NormsHoldUnion(JoinConds(l), JoinConds(r), env);
      LeavesOfJoin(l, r, cs, env);
  }

  lemma LeavesOfJoin(l: Plan, r: Plan, cs: seq<Cond>, env: Env)
    ensures LeavesDenote(Join(l, r, cs), env) <==> LeavesDenote(l, env) && LeavesDenote(r, env)
  {
    assert forall s :: s in Leaves(Join(l, r, cs)) <==> s in Leaves(l) || s in Leaves(r);
  }

  /** Every condition of the plan sees the columns it mentions. */
  ghost predicate Scoped(p: Plan) {
    JoinsScoped(p) && forall s :: s in Leaves(p) && s.Scan? ==> ScanScoped(s)
  }

  /** The left child of every join, which is its inner one, is a scan. */
  predicate RightDeep(p: Plan) {
    p.Join? ==> p.left.Scan? && RightDeep(p.right)
  }

  /** The left child of every join is a scan, or joins two scans. */
  predicate NearlyRightDeep(p: Plan) {
    p.Join? ==>
      && (p.left.Join? ==> p.left.left.Scan? && p.left.right.Scan?)
      && NearlyRightDeep(p.right)
  }
}
