/** Queries whose executors crash. */
module PlanCrashes {
  import opened Plans
  import opened Planner
  import opened JoinTree
  import opened PlanRows
  import opened PlanExecution

  // Four tables in two pairs

  function FourTables(): seq<string> {
    ["a", "b", "c", "d"]
  }

  function FourConds(): seq<Cond> {
    [Cond(Col("a", "x"), Eq, Ref(Col("b", "x"))), Cond(Col("c", "y"), Eq, Ref(Col("d", "y")))]
  }

  function FourDb(): Db {
    map["a" := [map["x" := 1], map["x" := 1]], "b" := [map["x" := 1]], "c" := [map["y" := 1]], "d" := [map["y" := 1]]]
  }

  function FourPlan(): Plan {
    Join(Join(Scan("c", []), Scan("d", []), [FourConds()[1]]), Join(Scan("a", []), Scan("b", []), [FourConds()[0]]), [])
  }

  lemma FourIsQuery()
    ensures IsQuery(FourTables(), FourConds()) && CrossConds(FourConds()) == FourConds()
  {
    var cs := FourConds();
    assert cs[1..] == [cs[1]] && cs[1..][1..] == [];
    SelectAll(cs, c => CrossTable(c));
  }

  lemma FourPlanned(scans: seq<Plan>)
    requires ScansOk(scans, FourTables()) && Popped(scans, FourTables(), FourConds(), 4)
    ensures Topped(TreeOf(FourConds(), scans), scans, 4) == FourPlan()
  {
    forall k | 0 <= k < 4
      ensures scans[k] == Scan(FourTables()[k], [])
    {
      NothingScanned(scans, FourTables(), FourConds(), k);
    }
    FourTree(scans);
    FourTop(scans);
  }

  lemma NoConds(cs: seq<Cond>)
    requires forall c :: c !in cs
    ensures cs == []
  {
    var z := if cs == [] then Cond(Col("", ""), Eq, Lit(0)) else cs[0];
    assert z !in cs;
  }

  lemma NothingScanned(scans: seq<Plan>, tables: seq<string>, conds: seq<Cond>, k: nat)
    requires ScansOk(scans, tables) && Popped(scans, tables, conds, |tables|) && k < |tables|
    requires forall c :: c in conds ==> CrossTable(c)
    ensures scans[k].conds == []
  {
    assert tables[..|tables|] == tables;
    assert forall c :: c in scans[k].conds ==> c in conds && Pops(c, tables[k]);
    NoConds(scans[k].conds);
  }

  lemma FourTree(scans: seq<Plan>)
    requires |scans| == 4 && forall k :: 0 <= k < 4 ==> scans[k] == Scan(FourTables()[k], [])
    ensures TreeOf(FourConds(), scans) == FourPlan()
  {
    var tables, cs := FourTables(), FourConds();
    assert Distinct(tables) && ScansOk(scans, tables);
    forall k | 0 <= k < 4
      ensures ScanOf(tables[k], scans) == scans[k]
    {
      ScanFound(tables, scans, k);
    }
    assert tables[0] == "a" && tables[1] == "b" && tables[2] == "c" && tables[3] == "d";
    assert cs[..1] == [cs[0]];
    assert TreeOf(cs[..1], scans) == FourPlan().right;
  }

  lemma FourTop(scans: seq<Plan>)
    requires |scans| == 4 && forall k :: 0 <= k < 4 ==> scans[k] == Scan(FourTables()[k], [])
    ensures Topped(FourPlan(), scans, 4) == FourPlan()
  {
    var p := FourPlan();
    assert Tables(p) == ["c", "d"] + ["a", "b"];
    assert "a" in Tables(p) && "b" in Tables(p) && "c" in Tables(p) && "d" in Tables(p);
    assert Topped(p, scans, 1) == p;
    assert Topped(p, scans, 2) == p;
    assert Topped(p, scans, 3) == p;
  }

  /** A row of a scan without conditions. */
  lemma Scanned(tab: string, db: Db, i: nat)
    requires tab in db && i < |db[tab]|
    ensures map[tab := i] in Rows(Scan(tab, []), db)
  {
    InScanRows(tab, [], db, |db[tab]|, map[tab := i]);
  }

  lemma PairRow(l: string, r: string, cs: seq<Cond>, db: Db, i: nat, j: nat)
    requires l in db && r in db && i < |db[l]| && j < |db[r]|
    requires AllHold(cs, Env(db, map[r := j] + map[l := i]))
    ensures map[r := j] + map[l := i] in Rows(Join(Scan(l, []), Scan(r, []), cs), db)
  {
    hide Rows, AllHold;
    Scanned(l, db, i);
    Scanned(r, db, j);
    InJoinRows(Scan(l, []), Scan(r, []), cs, db, map[r := j] + map[l := i]);
  }

  lemma TwoMembers<T>(s: seq<T>, x: T, y: T)
    requires x in s && y in s && x != y
    ensures 2 <= |s|
  {
  }

  lemma FourCrashes()
    ensures Crashes(FourPlan(), FourDb())
  {
    hide Rows, PlanOut;
    var p, db, cs := FourPlan(), FourDb(), FourConds();
    PairRow("c", "d", [cs[1]], db, 0, 0);
    PairRow("a", "b", [cs[0]], db, 0, 0);
    PairRow("a", "b", [cs[0]], db, 1, 0);
    var x, y: Pick := map["b" := 0] + map["a" := 0], map["b" := 0] + map["a" := 1];
    assert x["a"] != y["a"];
    TwoMembers(Rows(p.right, db), x, y);
    TwoTables(p.left, db);
    TwoTables(p.right, db);
    CrashesStep(p, db);
  }

  /** Planned and executed, this query of two unconnected pairs crashes: the second pair is
      an inner join, which is begun again for the second row of the first. */
  method FourTablesCrash() returns (p: Plan, crashed: bool)
    ensures p == FourPlan() && !RightDeep(p) && crashed
  {
    hide Denotes, Crashes, Scoped, Topped, TreeOf, Connected, Norms, CrossConds;
    FourIsQuery();
    FourCrashes();
    ghost var scans;
    p, scans := MakeOneRel(FourTables(), FourConds());
    FourPlanned(scans);
    var out;
    out, crashed := Execute(p, FourDb());
  }

  // Three connected tables

  function ThreeNames(): seq<string> {
    ["a", "b", "c"]
  }

  function ThreeConds(): seq<Cond> {
    [Cond(Col("a", "x"), Eq, Ref(Col("b", "x"))), Cond(Col("b", "y"), Eq, Ref(Col("c", "y")))]
  }

  function ThreeDb(): Db {
    map["a" := [map["x" := 1]], "b" := [map["x" := 1, "y" := 1]], "c" := [map["y" := 1], map["y" := 2]]]
  }

  function ThreePlan(): Plan {
    Join(Scan("c", []), Join(Scan("a", []), Scan("b", []), [ThreeConds()[0]]), [Swap(ThreeConds()[1])])
  }

  lemma ThreeIsQuery()
    ensures IsQuery(ThreeNames(), ThreeConds()) && CrossConds(ThreeConds()) == ThreeConds() && Connected(ThreeConds())
  {
    var cs := ThreeConds();
    assert cs[1..] == [cs[1]] && cs[1..][1..] == [];
    SelectAll(cs, c => CrossTable(c));
    assert cs[..1][0] == cs[0];
    assert Mentions(cs[..1], "b");
  }

  lemma ThreePlanned(scans: seq<Plan>)
    requires ScansOk(scans, ThreeNames()) && Popped(scans, ThreeNames(), ThreeConds(), 3)
    ensures Topped(TreeOf(ThreeConds(), scans), scans, 3) == ThreePlan()
  {
    forall k | 0 <= k < 3
      ensures scans[k] == Scan(ThreeNames()[k], [])
    {
      NothingScanned(scans, ThreeNames(), ThreeConds(), k);
    }
    ThreeTree(scans);
    ThreeTop(scans);
  }

  lemma ThreeTree(scans: seq<Plan>)
    requires |scans| == 3 && forall k :: 0 <= k < 3 ==> scans[k] == Scan(ThreeNames()[k], [])
    ensures TreeOf(ThreeConds(), scans) == ThreePlan()
  {
    var tables, cs := ThreeNames(), ThreeConds();
    assert Distinct(tables) && ScansOk(scans, tables);
    forall k | 0 <= k < 3
      ensures ScanOf(tables[k], scans) == scans[k]
    {
      ScanFound(tables, scans, k);
    }
    assert tables[0] == "a" && tables[1] == "b" && tables[2] == "c";
    assert cs[..1] == [cs[0]];
    assert TreeOf(cs[..1], scans) == ThreePlan().right;
    assert Tables(ThreePlan().right) == ["a", "b"];
  }

  lemma ThreeTop(scans: seq<Plan>)
    requires |scans| == 3 && forall k :: 0 <= k < 3 ==> scans[k] == Scan(ThreeNames()[k], [])
    ensures Topped(ThreePlan(), scans, 3) == ThreePlan()
  {
    var p := ThreePlan();
    assert Tables(p) == ["c"] + ["a", "b"];
    assert "a" in Tables(p) && "b" in Tables(p) && "c" in Tables(p);
    assert Topped(p, scans, 1) == p;
    assert Topped(p, scans, 2) == p;
  }

  lemma ThreeCrashes()
    ensures Crashes(ThreePlan(), ThreeDb())
  {
    hide Rows;
    var p, db, cs := ThreePlan(), ThreeDb(), ThreeConds();
    PairRow("a", "b", [cs[0]], db, 0, 0);
    Scanned("c", db, 0);
    Scanned("c", db, 1);
    var x, y: Pick := map["c" := 0], map["c" := 1];
    assert x["c"] != y["c"];
    TwoMembers(Rows(p.left, db), x, y);
    ThreeTables(p, db);
  }

  /** A query of three connected tables crashes when the third delivers two rows: the join of
      the other two is read a second time. */
  method ThreeTablesCrash() returns (p: Plan, crashed: bool)
    ensures Connected(CrossConds(ThreeConds())) && p == ThreePlan() && RightDeep(p) && crashed
  {
    hide Denotes, Crashes, Scoped, Topped, TreeOf, Connected, Norms, CrossConds;
    ThreeIsQuery();
    ThreeCrashes();
    ghost var scans;
    p, scans := MakeOneRel(ThreeNames(), ThreeConds());
    ThreePlanned(scans);
    var out;
    out, crashed := Execute(p, ThreeDb());
  }
}
