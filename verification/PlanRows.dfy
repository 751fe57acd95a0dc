/** The rows of a plan, in the order in which its executors would deliver them, compared
    with what the plan denotes. */
module PlanRows {
  import opened Plans
  import opened Planner
  import opened JoinTree
  import opened JoinStreams

  /** A row of a plan: one row number for each of its tables. */
  type Pick = map<string, nat>
  type Db = map<string, seq<Row>>

  ghost function ScanRows(tab: string, cs: seq<Cond>, db: Db, n: nat): seq<Pick> {
    if n == 0 then []
    else ScanRows(tab, cs, db, n - 1) + if AllHold(cs, Env(db, map[tab := n - 1])) then [map[tab := n - 1]] else []
  }

  function JoinTest(cs: seq<Cond>, db: Db): (Pick, Pick) -> bool {
    (a: Pick, b: Pick) => AllHold(cs, Env(db, a + b))
  }

  /** `make_record` puts the rows of both children together. */
  function Union(): (Pick, Pick) -> Pick {
    (a: Pick, b: Pick) => a + b
  }

  function Combined(pairs: seq<(Pick, Pick)>): (r: seq<Pick>)
    ensures |r| == |pairs| && forall i :: 0 <= i < |pairs| ==> r[i] == pairs[i].0 + pairs[i].1
  {
    Records(pairs, Union())
  }

  /** The right child is the outer one. */
  ghost function Rows(p: Plan, db: Db): seq<Pick> {
    match p
    case Scan(tab, cs) => if tab in db then ScanRows(tab, cs, db, |db[tab]|) else []
    case Join(l, r, cs) => Combined(Matches(Rows(r, db), Rows(l, db), JoinTest(cs, db), |Rows(r, db)|))
  }

  // What the rows mean

  ghost function Restrict(pick: Pick, tabs: seq<string>): Pick {
    map t | t in tabs && t in pick :: pick[t]
  }

  /** A condition sees no more of a row than the tables that it is about. */
  lemma HoldsLocally(c: Cond, env: Env, tabs: seq<string>)
    requires c.lhs.tab in tabs && (c.rhs.Ref? ==> c.rhs.col.tab in tabs)
    ensures Holds(c, env) <==> Holds(c, Env(env.db, Restrict(env.pick, tabs)))
  {
  }

  lemma AllHoldLocally(cs: seq<Cond>, env: Env, tabs: seq<string>)
    requires forall i :: 0 <= i < |cs| ==> cs[i].lhs.tab in tabs && (cs[i].rhs.Ref? ==> cs[i].rhs.col.tab in tabs)
    ensures AllHold(cs, env) <==> AllHold(cs, Env(env.db, Restrict(env.pick, tabs)))
  {
    hide Holds;
    forall i | 0 <= i < |cs|
      ensures Holds(cs[i], env) <==> Holds(cs[i], Env(env.db, Restrict(env.pick, tabs)))
    {
      HoldsLocally(cs[i], env, tabs);
    }
  }

  lemma {:induction false} InScanRows(tab: string, cs: seq<Cond>, db: Db, n: nat, x: Pick)
    ensures x in ScanRows(tab, cs, db, n) <==> exists i: nat :: i < n && x == map[tab := i] && AllHold(cs, Env(db, x))
  {
    hide AllHold;
    if n > 0 { InScanRows(tab, cs, db, n - 1, x); }
  }

  lemma {:induction false} InRow<L, R>(l: L, rs: seq<R>, test: (L, R) -> bool, j: nat, x: (L, R))
    requires j <= |rs|
    ensures x in RowMatches(l, rs, test, j) <==> x.0 == l && x.1 in rs[..j] && test(x.0, x.1)
  {
    if j > 0 {
      InRow(l, rs, test, j - 1, x);
      assert rs[..j] == rs[..j - 1] + [rs[j - 1]];
    }
  }

  lemma {:induction false} InMatches<L, R>(ls: seq<L>, rs: seq<R>, test: (L, R) -> bool, i: nat, x: (L, R))
    requires i <= |ls|
    ensures x in Matches(ls, rs, test, i) <==> x.0 in ls[..i] && x.1 in rs && test(x.0, x.1)
  {
    hide RowMatches;
    if i > 0 {
      InMatches(ls, rs, test, i - 1, x);
      InRow(ls[i - 1], rs, test, |rs|, x);
      assert rs[..|rs|] == rs && ls[..i] == ls[..i - 1] + [ls[i - 1]];
    }
  }

  /** A row of a join puts a row of each child together. */
  lemma InJoinRows(l: Plan, r: Plan, cs: seq<Cond>, db: Db, x: Pick)
    ensures x in Rows(Join(l, r, cs), db)
            <==> exists a, b :: a in Rows(r, db) && b in Rows(l, db) && x == a + b && AllHold(cs, Env(db, x))
  {
    InCombined(Rows(r, db), Rows(l, db), cs, db, x);
  }

  lemma InCombined(outer: seq<Pick>, inner: seq<Pick>, cs: seq<Cond>, db: Db, x: Pick)
    ensures x in Combined(Matches(outer, inner, JoinTest(cs, db), |outer|))
            <==> exists a, b :: a in outer && b in inner && x == a + b && AllHold(cs, Env(db, x))
  {
    hide Matches, AllHold;
    var test := JoinTest(cs, db);
    var pairs := Matches(outer, inner, test, |outer|);
    assert outer[..|outer|] == outer;
    if x in Combined(pairs) {
      var i :| 0 <= i < |pairs| && Combined(pairs)[i] == x;
      InMatches(outer, inner, test, |outer|, pairs[i]);
      assert pairs[i].0 in outer && pairs[i].1 in inner;
    }
    if a, b :| a in outer && b in inner && x == a + b && AllHold(cs, Env(db, x)) {
      InMatches(outer, inner, test, |outer|, (a, b));
      var i :| 0 <= i < |pairs| && pairs[i] == (a, b);
      assert Combined(pairs)[i] == x;
    }
  }

  lemma {:induction false} RowKeys(p: Plan, db: Db, x: Pick)
    requires x in Rows(p, db)
    ensures forall t :: t in x <==> t in Tables(p)
  {
    hide AllHold;
    match p
    case Scan(tab, cs) =>
      InScanRows(tab, cs, db, |db[tab]|, x);
    case Join(l, r, cs) =>
      hide Rows;
      InJoinRows(l, r, cs, db, x);
      var a, b :| a in Rows(r, db) && b in Rows(l, db) && x == a + b && AllHold(cs, Env(db, x));
      RowKeys(r, db, a);
      RowKeys(l, db, b);
  }

  /** The rows of a plan are what the plan denotes. */
  lemma {:induction false} RowsMeaning(p: Plan, env: Env)
    requires Scoped(p) && Distinct(Tables(p))
    ensures Restrict(env.pick, Tables(p)) in Rows(p, env.db) <==> Denotes(p, env)
  {
    match p
    case Scan(tab, cs) => ScanMeaning(tab, cs, env);
    case Join(l, r, cs) =>
      SidesDisjoint(l, r);
      SidesScoped(l, r, cs);
      RowsMeaning(l, env);
      RowsMeaning(r, env);
      JoinMeaning(l, r, cs, env);
  }

  lemma SidesScoped(l: Plan, r: Plan, cs: seq<Cond>)
    requires Scoped(Join(l, r, cs))
    ensures Scoped(l) && Scoped(r)
  {
  }

  lemma ScanMeaning(tab: string, cs: seq<Cond>, env: Env)
    requires Scoped(Scan(tab, cs))
    ensures Restrict(env.pick, [tab]) in Rows(Scan(tab, cs), env.db) <==> Denotes(Scan(tab, cs), env)
  {
    hide AllHold;
    var p, x := Scan(tab, cs), Restrict(env.pick, [tab]);
    assert p in Leaves(p) && ScanScoped(p);
    AllHoldLocally(cs, env, [tab]);
    if tab in env.db {
      InScanRows(tab, cs, env.db, |env.db[tab]|, x);
      if i: nat :| i < |env.db[tab]| && x == map[tab := i] {
        assert tab in x && i == env.pick[tab];
      }
      if Picks(env, tab) {
        var i: nat := env.pick[tab];
        assert x == map[tab := i];
      }
    }
  }

  lemma JoinMeaning(l: Plan, r: Plan, cs: seq<Cond>, env: Env)
    requires JoinsScoped(Join(l, r, cs)) && forall t :: t in Tables(l) ==> t !in Tables(r)
    requires Restrict(env.pick, Tables(l)) in Rows(l, env.db) <==> Denotes(l, env)
    requires Restrict(env.pick, Tables(r)) in Rows(r, env.db) <==> Denotes(r, env)
    ensures var p := Join(l, r, cs); Restrict(env.pick, Tables(p)) in Rows(p, env.db) <==> Denotes(p, env)
  {
    hide Rows, AllHold;
    var p, db := Join(l, r, cs), env.db;
    var x, y, z := Restrict(env.pick, Tables(p)), Restrict(env.pick, Tables(r)), Restrict(env.pick, Tables(l));
    assert forall t :: t in Tables(p) <==> t in Tables(l) || t in Tables(r);
    AllHoldLocally(cs, env, Tables(p));
    InJoinRows(l, r, cs, db, x);
    assert x == y + z;
    if a, b :| a in Rows(r, db) && b in Rows(l, db) && x == a + b && AllHold(cs, Env(db, x)) {
      RowKeys(r, db, a);
      RowKeys(l, db, b);
      SameParts(a, b, x, y, z, Tables(r), Tables(l), env.pick);
    }
  }

  lemma SameParts(a: Pick, b: Pick, x: Pick, y: Pick, z: Pick, ra: seq<string>, rb: seq<string>, pick: Pick)
    requires x == a + b && (forall t :: t in rb ==> t !in ra) && y == Restrict(pick, ra) && z == Restrict(pick, rb)
    requires (forall t :: t in a <==> t in ra) && (forall t :: t in b <==> t in rb) && x == y + z
    ensures a == y && b == z
  {
    assert forall t :: t in a ==> t in x && t in y && a[t] == x[t] == y[t];
    assert forall t :: t in b ==> t in x && t in z && b[t] == x[t] == z[t];
  }

  lemma TablesDistinct(p: Plan, tables: seq<string>)
    requires Distinct(tables) && multiset(Tables(p)) == multiset(tables)
    ensures Distinct(Tables(p))
  {
    var a := Tables(p);
    forall i, j | 0 <= i < j < |a|
      ensures a[i] != a[j]
    {
      OnceEach(tables, a[i]);
      assert a == a[..j] + [a[j]] + a[j + 1..];
      assert a[i] in a[..j];
      assert multiset(a)[a[i]] <= 1;
    }
  }

  // Every combination once

  ghost predicate Once<T>(s: seq<T>) {
    forall i, j :: 0 <= i < j < |s| ==> s[i] != s[j]
  }

  lemma OnceMore<T>(s: seq<T>, x: T)
    requires Once(s) && x !in s
    ensures Once(s + [x])
  {
    assert forall i :: 0 <= i < |s| ==> s[i] in s;
  }

  lemma OnceBoth<T>(a: seq<T>, b: seq<T>)
    requires Once(a) && Once(b) && forall x :: x in a ==> x !in b
    ensures Once(a + b)
  {
    assert forall i :: 0 <= i < |a| ==> a[i] in a;
    assert forall i :: 0 <= i < |b| ==> b[i] in b;
  }

  lemma {:induction false} ScanOnce(tab: string, cs: seq<Cond>, db: Db, n: nat)
    ensures Once(ScanRows(tab, cs, db, n))
  {
    hide AllHold, Once;
    if n > 0 {
      ScanOnce(tab, cs, db, n - 1);
      var x: Pick := map[tab := n - 1];
      InScanRows(tab, cs, db, n - 1, x);
      assert forall i: nat :: x == map[tab := i] ==> x[tab] == i;
      OnceMore(ScanRows(tab, cs, db, n - 1), x);
      var prev := ScanRows(tab, cs, db, n - 1);
      assert ScanRows(tab, cs, db, n) == if AllHold(cs, Env(db, x)) then prev + [x] else prev;
    } else {
      assert Once(ScanRows(tab, cs, db, 0)) by { NothingOnce<Pick>(); }
    }
  }

  lemma NothingOnce<T>()
    ensures Once<T>([])
  {
  }

  lemma {:induction false} RowOnce<L, R>(l: L, rs: seq<R>, test: (L, R) -> bool, j: nat)
    requires j <= |rs| && Once(rs)
    ensures Once(RowMatches(l, rs, test, j))
  {
    if j > 0 {
      RowOnce(l, rs, test, j - 1);
      InRow(l, rs, test, j - 1, (l, rs[j - 1]));
      OnceMore(RowMatches(l, rs, test, j - 1), (l, rs[j - 1]));
    }
  }

  lemma {:induction false} MatchesOnce<L, R>(ls: seq<L>, rs: seq<R>, test: (L, R) -> bool, i: nat)
    requires i <= |ls| && Once(ls) && Once(rs)
    ensures Once(Matches(ls, rs, test, i))
  {
    hide RowMatches;
    if i > 0 {
      MatchesOnce(ls, rs, test, i - 1);
      var l, before := ls[i - 1], Matches(ls, rs, test, i - 1);
      RowOnce(l, rs, test, |rs|);
      forall x | x in before
        ensures x !in RowMatches(l, rs, test, |rs|)
      {
        InMatches(ls, rs, test, i - 1, x);
        InRow(l, rs, test, |rs|, x);
      }
      OnceBoth(before, RowMatches(l, rs, test, |rs|));
    }
  }

  /** No row is delivered twice. */
  lemma {:induction false} RowsOnce(p: Plan, db: Db)
    requires Distinct(Tables(p))
    ensures Once(Rows(p, db))
  {
    match p
    case Scan(tab, cs) => if tab in db { ScanOnce(tab, cs, db, |db[tab]|); }
    case Join(l, r, cs) =>
      SidesDisjoint(l, r);
      RowsOnce(l, db);
      RowsOnce(r, db);
      var outer, inner, test := Rows(r, db), Rows(l, db), JoinTest(cs, db);
      MatchesOnce(outer, inner, test, |outer|);
      CombinedOnce(l, r, db, Matches(outer, inner, test, |outer|), test);
  }

  lemma CombinedOnce(l: Plan, r: Plan, db: Db, pairs: seq<(Pick, Pick)>, test: (Pick, Pick) -> bool)
    requires Once(pairs) && pairs == Matches(Rows(r, db), Rows(l, db), test, |Rows(r, db)|)
    requires forall t :: t in Tables(l) ==> t !in Tables(r)
    ensures Once(Combined(pairs))
  {
    hide Matches, Rows;
    var outer, inner := Rows(r, db), Rows(l, db);
    assert outer[..|outer|] == outer;
    forall i, j | 0 <= i < j < |pairs|
      ensures Combined(pairs)[i] != Combined(pairs)[j]
    {
      var (a, b) := pairs[i];
      var (c, d) := pairs[j];
      InMatches(outer, inner, test, |outer|, (a, b));
      InMatches(outer, inner, test, |outer|, (c, d));
      RowKeys(r, db, a);
      RowKeys(r, db, c);
      RowKeys(l, db, b);
      RowKeys(l, db, d);
      if a + b == c + d { SumsEqual(a, b, c, d); }
    }
  }

  lemma SumsEqual(a: Pick, b: Pick, c: Pick, d: Pick)
    requires a + b == c + d && a.Keys == c.Keys && b.Keys == d.Keys && a.Keys !! b.Keys
    ensures a == c && b == d
  {
    assert forall t :: t in a ==> a[t] == (a + b)[t] == (c + d)[t] == c[t];
    assert forall t :: t in b ==> b[t] == (a + b)[t] == (c + d)[t] == d[t];
  }
}
