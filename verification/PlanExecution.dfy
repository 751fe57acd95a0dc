/** What the executors of a plan deliver, and when they crash. */
module PlanExecution {
  import opened Plans
  import opened Planner
  import opened JoinTree
  import opened JoinStreams
  import opened NestedLoopJoin
  import opened PlanRows

  /** What the executors of the plan deliver when they are pulled row by row. */
  ghost function PlanOut(p: Plan, db: Db): (s: Stream<Pick>)
    ensures s.once == p.Join?
  {
    match p
    case Scan(_, _) => Stream(Rows(p, db), false, false)
    case Join(l, r, cs) => JoinOut(PlanOut(r, db), PlanOut(l, db), Union(), JoinTest(cs, db))
  }

  ghost predicate Crashes(p: Plan, db: Db) {
    PlanOut(p, db).crashes
  }

  /** They deliver the rows of the plan in their order, and all of them unless they crash. */
  lemma {:induction false} PlanDelivers(p: Plan, db: Db)
    ensures Delivers(PlanOut(p, db), Rows(p, db))
  {
    if p.Join? {
      hide Matches, Records;
      PlanDelivers(p.left, db);
      PlanDelivers(p.right, db);
      JoinDelivers(PlanOut(p.right, db), Rows(p.right, db), PlanOut(p.left, db), Rows(p.left, db), Union(),
                   JoinTest(p.conds, db));
    }
  }

  // When they crash

  /** A join crashes exactly when a child crashes as far as it is pulled, when an outer join
      would have to be read again for a second inner row, or an inner join to be begun again
      for a second outer row. */
  lemma CrashesStep(p: Plan, db: Db)
    requires p.Join?
    ensures var outer, inner := PlanOut(p.right, db), PlanOut(p.left, db);
            Crashes(p, db) <==>
            || BeginFails(outer) || BeginFails(inner)
            || (outer.rows != [] && inner.rows != []
                && (|| Crashes(p.right, db) || Crashes(p.left, db)
                    || (p.right.Join? && 2 <= |inner.rows|) || (p.left.Join? && 2 <= |outer.rows|)))
  {
    hide JoinOut, Rows;
    JoinCrashes(PlanOut(p.right, db), PlanOut(p.left, db), Union(), JoinTest(p.conds, db));
  }

  /** Beside every join that is a child of another one, the other child has at most one row. */
  ghost predicate Safe(p: Plan, db: Db) {
    p.Join? ==>
      && Safe(p.left, db) && Safe(p.right, db)
      && (p.right.Join? ==> |Rows(p.left, db)| <= 1) && (p.left.Join? ==> |Rows(p.right, db)| <= 1)
  }

  lemma {:induction false} SafeNeverCrashes(p: Plan, db: Db)
    requires Safe(p, db)
    ensures !Crashes(p, db) && PlanOut(p, db).rows == Rows(p, db)
  {
    hide Rows;
    PlanDelivers(p, db);
    if p.Join? {
      SafeNeverCrashes(p.left, db);
      SafeNeverCrashes(p.right, db);
      CrashesStep(p, db);
    }
  }

  /** A query with a result crashes exactly when some join beside two rows is a child. */
  lemma {:induction false} CrashesIff(p: Plan, db: Db)
    requires Rows(p, db) != []
    ensures Crashes(p, db) <==> !Safe(p, db)
  {
    hide PlanOut, Rows;
    if Safe(p, db) { SafeNeverCrashes(p, db); }
    if p.Join? {
      SomeRows(p, db);
      CrashesIff(p.left, db);
      CrashesIff(p.right, db);
      CrashesStep(p, db);
      PlanDelivers(p.left, db);
      PlanDelivers(p.right, db);
    }
  }

  lemma SomeRows(p: Plan, db: Db)
    requires p.Join? && Rows(p, db) != []
    ensures Rows(p.left, db) != [] && Rows(p.right, db) != []
  {
    hide Matches;
    if Rows(p.left, db) == [] || Rows(p.right, db) == [] {
      EmptyProduct(Rows(p.right, db), Rows(p.left, db), JoinTest(p.conds, db));
    }
  }

  /** One join of two scans does not crash. */
  lemma TwoTables(p: Plan, db: Db)
    requires |Tables(p)| <= 2
    ensures !Crashes(p, db) && PlanOut(p, db).rows == Rows(p, db)
  {
    if p.Join? { AtLeastOne(p.left); AtLeastOne(p.right); }
    SafeNeverCrashes(p, db);
  }

  lemma {:induction false} AtLeastOne(p: Plan)
    ensures 1 <= |Tables(p)| && (p.Join? ==> 2 <= |Tables(p)|)
  {
    if p.Join? { AtLeastOne(p.left); AtLeastOne(p.right); }
  }

  /** A scan joined onto the join of two scans crashes exactly when that has a row and the
      scan has two. */
  lemma ThreeTables(p: Plan, db: Db)
    requires p.Join? && p.left.Scan? && p.right.Join? && p.right.left.Scan? && p.right.right.Scan?
    ensures Crashes(p, db) <==> Rows(p.right, db) != [] && 2 <= |Rows(p.left, db)|
  {
    hide Rows;
    AtLeastOne(p);
    TwoTables(p.right, db);
    CrashesStep(p, db);
  }

  // Execution

  method ScanAll(tab: string, cs: seq<Cond>, db: Db) returns (out: seq<Pick>)
    ensures out == Rows(Scan(tab, cs), db)
  {
    out := [];
    if tab in db {
      for i := 0 to |db[tab]|
        invariant out == ScanRows(tab, cs, db, i)
      {
        if AllHold(cs, Env(db, map[tab := i])) {
          out := out + [map[tab := i]];
        }
      }
    }
  }

  /** The executors of a plan. */
  method Build(p: Plan, db: Db) returns (e: Executor<Pick>)
    ensures e.Tree() && e.New() && fresh(e.Repr()) && e.Out() == PlanOut(p, db) && (e.JoinExecutor? <==> p.Join?)
    decreases p
  {
    hide Rows, JoinOut;
    if p.Scan? {
      var rows := ScanAll(p.tab, p.conds, db);
      var scan := new TableScan(rows);
      return ScanExecutor(scan);
    }
    var left := Build(p.left, db);
    var right := Build(p.right, db);
    var join := new NestedLoopJoinExecutor(right, left, Union(), JoinTest(p.conds, db));
    e := JoinExecutor(join);
  }

  /** Running the executors of a plan: they deliver its rows in order, and crash before the
      end exactly when the plan says so. */
  method Execute(p: Plan, db: Db) returns (out: seq<Pick>, crashed: bool)
    ensures crashed <==> Crashes(p, db)
    ensures out == PlanOut(p, db).rows && Prefix(out, Rows(p, db)) && (!crashed ==> out == Rows(p, db))
  {
    hide Rows, JoinOut;
    PlanDelivers(p, db);
    var e := Build(p, db);
    match e
    case ScanExecutor(s) => return s.rows, false;
    case JoinExecutor(join) => out, crashed := Run(join);
  }

  // What a query asks for, in terms of the values in the tables

  /** The operators that hold of two values. */
  ghost function Related(a: int, b: int): set<Op> {
    if a < b then {Lt, Le, Ne} else if a == b then {Eq, Le, Ge} else {Gt, Ge, Ne}
  }

  lemma CompareIs(a: int, op: Op, b: int)
    ensures Compare(a, op, b) <==> op in Related(a, b)
  {
  }

  /** The value of a column in the chosen row of its table; a column that is not there counts
      as 0. */
  ghost function Field(x: Pick, db: Db, c: Col): int {
    if c.tab in x && c.tab in db && x[c.tab] < |db[c.tab]| then
      var row := db[c.tab][x[c.tab]];
      if c.name in row then row[c.name] else 0
    else 0
  }

  ghost predicate Satisfies(x: Pick, db: Db, c: Cond) {
    c.op in Related(Field(x, db, c.lhs), match c.rhs case Lit(v) => v case Ref(col) => Field(x, db, col))
  }

  /** One row of each table, such that every condition is satisfied. */
  ghost predicate IsAnswer(x: Pick, tables: seq<string>, conds: seq<Cond>, db: Db) {
    && x.Keys == (set t | t in tables)
    && (forall t :: t in tables ==> t in db && x[t] < |db[t]|)
    && (forall c :: c in conds ==> Satisfies(x, db, c))
  }

  lemma AnswerIs(x: Pick, tables: seq<string>, conds: seq<Cond>, db: Db)
    requires x.Keys == set t | t in tables
    ensures (forall t :: t in tables ==> Picks(Env(db, x), t)) && AllHold(conds, Env(db, x))
            <==> IsAnswer(x, tables, conds, db)
  {
    forall c
      ensures Holds(c, Env(db, x)) <==> Satisfies(x, db, c)
    {
      var env := Env(db, x);
      CompareIs(Val(env, c.lhs), c.op, if c.rhs.Lit? then c.rhs.value else Val(env, c.rhs.col));
    }
    hide Holds, Satisfies;
    assert AllHold(conds, Env(db, x)) <==> forall c :: c in conds ==> Satisfies(x, db, c);
  }

  /** A query from planner to executors. At most two tables never crash; otherwise the exact
      condition is that of the plan. What is delivered satisfies all conditions, once each,
      and without a crash it is everything that does. */
  method RunQuery(tables: seq<string>, conds: seq<Cond>, db: Db) returns (out: seq<Pick>, crashed: bool, ghost p: Plan)
    requires IsQuery(tables, conds)
    ensures multiset(Tables(p)) == multiset(tables) && Once(out) && Prefix(out, Rows(p, db))
    ensures (crashed <==> Crashes(p, db)) && (|tables| <= 2 || Safe(p, db) ==> !crashed)
    ensures Rows(p, db) != [] ==> (crashed <==> !Safe(p, db))
    ensures SameTableFirst(tables, conds) ==>
              forall x: Pick :: (x in out ==> IsAnswer(x, tables, conds, db))
                                && (!crashed && IsAnswer(x, tables, conds, db) ==> x in out)
  {
    hide Denotes, AllHold, Scoped, Rows, Once, Crashes, Safe, Connected, RightDeep, NearlyRightDeep, Norms, PlanOut;
    var plan;
    ghost var scans;
    plan, scans := MakeOneRel(tables, conds);
    p := plan;
    out, crashed := Execute(plan, db);
    SameCount(plan, tables);
    if |tables| <= 2 { TwoTables(plan, db); }
    if Safe(plan, db) { SafeNeverCrashes(plan, db); }
    if Rows(plan, db) != [] { CrashesIff(plan, db); }
    TablesDistinct(plan, tables);
    RowsOnce(plan, db);
    OncePrefix(out, Rows(plan, db));
    forall x: Pick | Scoped(plan)
      ensures x in Rows(plan, db) <==> IsAnswer(x, tables, conds, db)
    {
      RowIsAnswer(plan, tables, conds, db, x);
    }
  }

  lemma RowIsAnswer(p: Plan, tables: seq<string>, conds: seq<Cond>, db: Db, x: Pick)
    requires Scoped(p) && Distinct(Tables(p)) && multiset(Tables(p)) == multiset(tables)
    requires var env := Env(db, x);
             Denotes(p, env) <==> (forall t :: t in tables ==> Picks(env, t)) && AllHold(conds, env)
    ensures x in Rows(p, db) <==> IsAnswer(x, tables, conds, db)
  {
    hide Scoped, Distinct, Rows, Denotes, AllHold, Satisfies;
    assert forall t :: t in Tables(p) <==> t in multiset(Tables(p));
    assert forall t :: t in tables <==> t in multiset(tables);
    if x in Rows(p, db) { RowKeys(p, db, x); }
    if x.Keys == set t | t in tables {
      AnswerIs(x, tables, conds, db);
      assert Restrict(x, Tables(p)) == x;
      RowsMeaning(p, Env(db, x));
    }
  }

  lemma SameCount(p: Plan, tables: seq<string>)
    requires multiset(Tables(p)) == multiset(tables)
    ensures |Tables(p)| == |tables|
  {
    assert |multiset(Tables(p))| == |Tables(p)| && |multiset(tables)| == |tables|;
  }

  lemma OncePrefix<T>(a: seq<T>, b: seq<T>)
    requires Prefix(a, b) && Once(b)
    ensures Once(a) && forall x :: x in a ==> x in b
  {
    assert forall i :: 0 <= i < |a| ==> a[i] == b[i];
  }
}
