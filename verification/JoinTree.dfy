/** `make_one_rel`: joining the scans along the conditions between tables. */
module JoinTree {
  import opened Plans
  import opened Planner

  /** The tree joins the scans of some of the tables, each once. */
  ghost predicate TreeOk(p: Plan, tables: seq<string>, scans: seq<Plan>) {
    && JoinsScoped(p) && Distinct(Tables(p))
    && (forall t :: t in Tables(p) ==> t in tables)
    && (forall s :: s in Leaves(p) <==> s in scans && s.Scan? && s.tab in Tables(p))
  }

  lemma LeafOk(tables: seq<string>, scans: seq<Plan>, k: nat)
    requires Distinct(tables) && ScansOk(scans, tables) && k < |tables|
    ensures TreeOk(scans[k], tables, scans)
  {
    forall s | s in scans && s.Scan? && s.tab == tables[k]
      ensures s == scans[k]
    {
      var j :| 0 <= j < |scans| && scans[j] == s;
      assert tables[j] == tables[k];
    }
  }

  /** Joining two trees over different tables. */
  lemma JoinOk(l: Plan, r: Plan, cs: seq<Cond>, tables: seq<string>, scans: seq<Plan>)
    requires TreeOk(l, tables, scans) && TreeOk(r, tables, scans)
    requires forall t :: t in Tables(l) ==> t !in Tables(r)
    requires forall i :: 0 <= i < |cs| ==>
               cs[i].rhs.Ref? && cs[i].lhs.tab in Tables(l) && cs[i].rhs.col.tab in Tables(r)
    ensures TreeOk(Join(l, r, cs), tables, scans)
  {
    var p := Join(l, r, cs);
    assert forall t :: t in Tables(p) <==> t in Tables(l) || t in Tables(r);
    JoinDistinct(Tables(l), Tables(r));
  }

  lemma JoinDistinct(a: seq<string>, b: seq<string>)
    requires Distinct(a) && Distinct(b) && forall t :: t in a ==> t !in b
    ensures Distinct(a + b)
  {
    var c := a + b;
    forall i, j | 0 <= i < j < |c|
      ensures c[i] != c[j]
    {
      assert i < |a| ==> c[i] == a[i] && c[i] in a;
      assert j >= |a| ==> c[j] == b[j - |a|] && c[j] in b;
    }
  }

  lemma PushOk(c: Cond, p: Plan, tables: seq<string>, scans: seq<Plan>)
    requires TreeOk(p, tables, scans) && CrossTable(c) && c.lhs.tab in Tables(p) && c.rhs.col.tab in Tables(p)
    ensures var q := PushConds(c, p).1;
            TreeOk(q, tables, scans) && Tables(q) == Tables(p) && JoinConds(q) == JoinConds(p) + multiset{Norm(c)}
  {
    hide Norm, Distinct, JoinsScoped;
    PushCondsOk(c, p);
  }

  /** The bookkeeping arrays agree with the tree. */
  ghost predicate Marks(p: Plan, tables: seq<string>, scantbl: seq<int>, joined: seq<string>) {
    && |scantbl| == |tables|
    && (forall k :: 0 <= k < |tables| ==> (scantbl[k] == -1 <==> tables[k] !in Tables(p)))
    && (forall t :: t in tables ==> (t in joined <==> t in Tables(p)))
  }

  /** `pop_scan`: the scan of the table, which is then marked as used. */
  method PopScan(scantbl: array<int>, tab: string, joined: seq<string>, scans: seq<Plan>, ghost tables: seq<string>)
    returns (k: int, joined': seq<string>)
    requires ScansOk(scans, tables) && scantbl.Length == |tables|
    modifies scantbl
    ensures k == -1 <==> tab !in tables
    ensures k == -1 ==> scantbl[..] == old(scantbl[..]) && joined' == joined
    ensures k != -1 ==> 0 <= k < |tables| && tables[k] == tab && joined' == joined + [tab]
    ensures k != -1 ==> scantbl[..] == old(scantbl[..])[k := 1]
  {
    for i := 0 to |scans|
      invariant scantbl[..] == old(scantbl[..])
      invariant forall j :: 0 <= j < i ==> tables[j] != tab
    {
      if scans[i].tab == tab {
        scantbl[i] := 1;
        return i, joined + [tab];
      }
    }
    k, joined' := -1, joined;
  }

  /** What the plan must be, given the scans it was built from. */
  ghost predicate Joined(p: Plan, tables: seq<string>, scans: seq<Plan>, rest: seq<Cond>) {
    && TreeOk(p, tables, scans)
    && (forall t :: t in tables ==> t in Tables(p))
    && JoinConds(p) == Norms(rest)
  }

  lemma MarkOne(p: Plan, q: Plan, tables: seq<string>, marks: seq<int>, joined: seq<string>, k: nat)
    requires Marks(p, tables, marks, joined) && Distinct(tables) && k < |tables|
    requires forall t :: t in Tables(q) <==> t in Tables(p) || t == tables[k]
    ensures Marks(q, tables, marks[k := 1], joined + [tables[k]])
  {
    assert forall j :: 0 <= j < |tables| && j != k ==> tables[j] != tables[k];
    assert forall t :: t in joined + [tables[k]] <==> t in joined || t == tables[k];
  }

  // The plan as a function of the conditions

  ghost function ScanOf(tab: string, scans: seq<Plan>): Plan {
    if scans == [] then Scan(tab, [])
    else if scans[0].Scan? && scans[0].tab == tab then scans[0] else ScanOf(tab, scans[1..])
  }

  lemma {:induction false} ScanFound(tables: seq<string>, scans: seq<Plan>, k: nat)
    requires Distinct(tables) && ScansOk(scans, tables) && k < |tables|
    ensures ScanOf(tables[k], scans) == scans[k]
  {
    if k > 0 {
      assert Distinct(tables[1..]) && ScansOk(scans[1..], tables[1..]);
      ScanFound(tables[1..], scans[1..], k - 1);
    }
  }

  ghost function NextPlan(c: Cond, p: Plan, scans: seq<Plan>): Plan {
    if c.lhs.tab !in Tables(p) && RhsTab(c) !in Tables(p)
    then Join(Join(ScanOf(c.lhs.tab, scans), ScanOf(RhsTab(c), scans), [c]), p, [])
    else if c.lhs.tab !in Tables(p) then Join(ScanOf(c.lhs.tab, scans), p, [c])
    else if RhsTab(c) !in Tables(p) then Join(ScanOf(RhsTab(c), scans), p, [Swap(c)])
    else PushConds(c, p).1
  }

  /** The tree after all conditions. */
  ghost function TreeOf(rest: seq<Cond>, scans: seq<Plan>): Plan
    requires rest != []
  {
    if |rest| == 1 then Join(ScanOf(rest[0].lhs.tab, scans), ScanOf(RhsTab(rest[0]), scans), rest)
    else NextPlan(rest[|rest| - 1], TreeOf(rest[..|rest| - 1], scans), scans)
  }

  /** The tables that no condition has reached come on top. */
  ghost function Topped(p: Plan, scans: seq<Plan>, n: nat): Plan
    requires n <= |scans|
  {
    if n == 0 then p
    else
      var q := Topped(p, scans, n - 1);
      if scans[n - 1].Scan? && scans[n - 1].tab !in Tables(q) then Join(scans[n - 1], q, []) else q
  }

  /** The first join: the scans of the two tables of the first condition. */
  method FirstJoin(c: Cond, scantbl: array<int>, scans: seq<Plan>, ghost tables: seq<string>) returns (p: Plan,
                   joined: seq<string>)
    requires Distinct(tables) && ScansOk(scans, tables) && scantbl.Length == |tables| && "" !in tables
    requires (forall k :: 0 <= k < scantbl.Length ==> scantbl[k] == -1) && CrossTable(c) && Known(c, tables)
    modifies scantbl
    ensures TreeOk(p, tables, scans) && Marks(p, tables, scantbl[..], joined)
    ensures JoinConds(p) == Norms([c])
    ensures RightDeep(p) && NearlyRightDeep(p) && Tables(p) == [c.lhs.tab, RhsTab(c)] && p == TreeOf([c], scans)
  {
    hide Norms, JoinsScoped, TreeOk, ScanOf;
    var a, b;
    joined := seq(|scans|, _ => "");
    a, joined := PopScan(scantbl, c.lhs.tab, joined, scans, tables);
    b, joined := PopScan(scantbl, RhsTab(c), joined, scans, tables);
    p := Join(scans[a], scans[b], [c]);
    LeafOk(tables, scans, a);
    LeafOk(tables, scans, b);
    JoinOk(scans[a], scans[b], [c], tables, scans);
    assert Tables(p) == [tables[a], tables[b]];
    ScanFound(tables, scans, a);
    ScanFound(tables, scans, b);
  }

  /** One more condition: up to two more scans join the tree, or the condition is pushed
      into it. */
  method JoinNext(c0: Cond, p0: Plan, scantbl: array<int>, joined0: seq<string>, scans: seq<Plan>,
                  ghost tables: seq<string>)
    returns (p: Plan, joined: seq<string>)
    requires Distinct(tables) && ScansOk(scans, tables) && CrossTable(c0) && Known(c0, tables)
    requires TreeOk(p0, tables, scans) && Marks(p0, tables, scantbl[..], joined0) && scantbl.Length == |tables|
    modifies scantbl
    ensures TreeOk(p, tables, scans) && Marks(p, tables, scantbl[..], joined)
    ensures JoinConds(p) == JoinConds(p0) + multiset{Norm(c0)}
    ensures forall t :: t in Tables(p) <==> t in Tables(p0) || t == c0.lhs.tab || t == RhsTab(c0)
    ensures RightDeep(p) <==> RightDeep(p0) && (c0.lhs.tab in Tables(p0) || RhsTab(c0) in Tables(p0))
    ensures NearlyRightDeep(p0) ==> NearlyRightDeep(p)
    ensures p == NextPlan(c0, p0, scans)
  {
    hide Norms, Norm, JoinsScoped, TreeOk, Distinct, Marks, ScanOf;
    var c := c0;
    var left, right, needReverse := -1, -1, false;
    joined := joined0;
    JoinedNames(p0, tables, scantbl[..], joined, c);
    if c.lhs.tab !in joined {
      left, joined := PopScan(scantbl, c.lhs.tab, joined, scans, tables);
    }
    if RhsTab(c) !in joined {
      right, joined := PopScan(scantbl, RhsTab(c), joined, scans, tables);
      needReverse := true;
    }
    if left != -1 && right != -1 {
      ScanFound(tables, scans, left);
      ScanFound(tables, scans, right);
      var temp := Join(scans[left], scans[right], [c]);
      p := Join(temp, p0, []);
      BothNew(c, p0, p, left, right, tables, scans);
      MarkOne(p0, Join(scans[left], p0, []), tables, old(scantbl[..]), joined0, left);
      MarkOne(Join(scans[left], p0, []), p, tables, old(scantbl[..])[left := 1], joined0 + [tables[left]], right);
    } else if left != -1 || right != -1 {
      if needReverse {
        c := Swap(c);
        left := right;
      }
      ScanFound(tables, scans, left);
      p := Join(scans[left], p0, [c]);
      OneNew(c0, c, p0, p, left, tables, scans);
      MarkOne(p0, p, tables, old(scantbl[..]), joined0, left);
    } else {
      p := PushConds(c, p0).1;
      PushOk(c, p0, tables, scans);
      PushKeepsShape(c, p0);
      MarksSame(p0, p, tables, scantbl[..], joined);
    }
  }

  /** Pushing a condition into the tree does not change its shape. */
  lemma {:induction false} PushKeepsShape(c: Cond, p: Plan)
    ensures var q := PushConds(c, p).1;
            && q.Scan? == p.Scan? && (RightDeep(q) <==> RightDeep(p)) && (NearlyRightDeep(q) <==> NearlyRightDeep(p))
            && (p.Join? ==> q.left.Scan? == p.left.Scan? && q.right.Scan? == p.right.Scan?)
  {
    if p.Join? {
      PushKeepsShape(c, p.left);
      PushKeepsShape(c, p.right);
    }
  }

  lemma MarksSame(p: Plan, q: Plan, tables: seq<string>, marks: seq<int>, joined: seq<string>)
    requires Marks(p, tables, marks, joined) && Tables(q) == Tables(p)
    ensures Marks(q, tables, marks, joined)
  {
  }

  lemma JoinedNames(p: Plan, tables: seq<string>, marks: seq<int>, joined: seq<string>, c: Cond)
    requires Marks(p, tables, marks, joined) && CrossTable(c) && Known(c, tables)
    ensures c.lhs.tab in joined <==> c.lhs.tab in Tables(p)
    ensures RhsTab(c) in joined <==> RhsTab(c) in Tables(p)
    ensures RhsTab(c) in joined + [c.lhs.tab] <==> RhsTab(c) in Tables(p)
  {
  }

  lemma OneNew(c0: Cond, c: Cond, p0: Plan, p: Plan, k: nat, tables: seq<string>, scans: seq<Plan>)
    requires Distinct(tables) && ScansOk(scans, tables) && k < |tables| && TreeOk(p0, tables, scans)
    requires CrossTable(c) && (c == c0 || c == Swap(c0)) && c.lhs.tab == tables[k] && tables[k] !in Tables(p0)
    requires c.rhs.col.tab in Tables(p0)
    requires p == Join(scans[k], p0, [c])
    ensures TreeOk(p, tables, scans) && JoinConds(p) == JoinConds(p0) + multiset{Norm(c0)}
    ensures forall t :: t in Tables(p) <==> t in Tables(p0) || t == tables[k]
  {
    hide Norms, Norm, Distinct;
    LeafOk(tables, scans, k);
    JoinOk(scans[k], p0, [c], tables, scans);
    NormOne(c0, c);
  }

  lemma BothNew(c: Cond, p0: Plan, p: Plan, a: nat, b: nat, tables: seq<string>, scans: seq<Plan>)
    requires Distinct(tables) && ScansOk(scans, tables) && a < |tables| && b < |tables| && TreeOk(p0, tables, scans)
    requires CrossTable(c) && c.lhs.tab == tables[a] && tables[a] !in Tables(p0) && c.rhs.col.tab == tables[b]
    requires tables[b] !in Tables(p0)
    requires p == Join(Join(scans[a], scans[b], [c]), p0, [])
    ensures TreeOk(p, tables, scans) && JoinConds(p) == JoinConds(p0) + multiset{Norm(c)}
    ensures Tables(p) == [tables[a], tables[b]] + Tables(p0)
  {
    hide Norm, Distinct, TreeOk, JoinsScoped;
    var temp := Join(scans[a], scans[b], [c]);
    LeafOk(tables, scans, a);
    LeafOk(tables, scans, b);
    JoinOk(scans[a], scans[b], [c], tables, scans);
    assert Tables(temp) == [tables[a], tables[b]];
    JoinOk(temp, p0, [], tables, scans);
    NormOne(c, c);
    assert JoinConds(temp) == multiset{Norm(c)};
    assert JoinConds(p) == JoinConds(temp) + JoinConds(p0) + Norms([]);
  }

  /** The tables that no condition has reached are joined without conditions. */
  method JoinRemaining(p0: Plan, scantbl: array<int>, scans: seq<Plan>, tables: seq<string>,
                       ghost joined: seq<string>) returns (p: Plan)
    requires Distinct(tables) && ScansOk(scans, tables)
    requires TreeOk(p0, tables, scans) && Marks(p0, tables, scantbl[..], joined)
    ensures TreeOk(p, tables, scans) && JoinConds(p) == JoinConds(p0)
    ensures forall t :: t in tables ==> t in Tables(p)
    ensures (RightDeep(p) <==> RightDeep(p0)) && (NearlyRightDeep(p0) ==> NearlyRightDeep(p))
    ensures p == Topped(p0, scans, |scans|)
  {
    hide JoinsScoped, TreeOk, Distinct, JoinConds, Tables;
    p := p0;
    for i := 0 to |tables|
      invariant TreeOk(p, tables, scans) && JoinConds(p) == JoinConds(p0)
      invariant (RightDeep(p) <==> RightDeep(p0)) && (NearlyRightDeep(p0) ==> NearlyRightDeep(p))
      invariant p == Topped(p0, scans, i)
      invariant forall k :: 0 <= k < i ==> tables[k] in Tables(p)
      invariant forall k :: i <= k < |tables| ==> (scantbl[k] == -1 <==> tables[k] !in Tables(p))
    {
      if scantbl[i] == -1 {
        LoneNew(p, i, tables, scans);
        p := Join(scans[i], p, []);
      }
    }
  }

  lemma LoneNew(p: Plan, k: nat, tables: seq<string>, scans: seq<Plan>)
    requires Distinct(tables) && ScansOk(scans, tables) && k < |tables| && TreeOk(p, tables, scans)
    requires tables[k] !in Tables(p)
    ensures TreeOk(Join(scans[k], p, []), tables, scans) && JoinConds(Join(scans[k], p, [])) == JoinConds(p)
    ensures forall j :: 0 <= j < |tables| ==>
              (tables[j] in Tables(Join(scans[k], p, [])) <==> tables[j] in Tables(p) || j == k)
  {
    LeafOk(tables, scans, k);
    JoinOk(scans[k], p, [], tables, scans);
  }

  lemma {:induction false} SameTables(a: seq<string>, b: seq<string>)
    requires Distinct(a) && Distinct(b) && forall t :: t in a <==> t in b
    ensures multiset(a) == multiset(b)
  {
    forall t
      ensures multiset(a)[t] == multiset(b)[t]
    {
      OnceEach(a, t);
      OnceEach(b, t);
    }
  }

  lemma {:induction false} OnceEach(a: seq<string>, t: string)
    requires Distinct(a)
    ensures multiset(a)[t] == if t in a then 1 else 0
  {
    if a != [] {
      var b := a[..|a| - 1];
      assert a == b + [a[|a| - 1]];
      OnceEach(b, t);
    }
  }

  lemma {:induction false} ScanCondsMeaning(scans: seq<Plan>, env: Env)
    ensures NormsHold(ScanConds(scans), env) <==> forall k :: 0 <= k < |scans| ==> AllHold(scans[k].conds, env)
  {
    hide AllHold, Norms, NormsHold;
    if scans != [] {
      var n := |scans| - 1;
      ScanCondsMeaning(scans[..n], env);
      NormsMeaning(scans[n].conds, env);
      NormsHoldUnion(ScanConds(scans[..n]), Norms(scans[n].conds), env);
    } else {
      NothingToHold(env);
    }
  }

  lemma NothingToHold(env: Env)
    ensures NormsHold(multiset{}, env)
  {
  }

  /** The tree over all scans denotes the filtered product. */
  lemma JoinedMeaning(p: Plan, tables: seq<string>, scans: seq<Plan>, conds: seq<Cond>, env: Env)
    requires ScansOk(scans, tables) && TreeOk(p, tables, scans) && (forall t :: t in tables ==> t in Tables(p))
    requires Norms(conds) == ScanConds(scans) + JoinConds(p)
    ensures Denotes(p, env) <==> (forall t :: t in tables ==> Picks(env, t)) && AllHold(conds, env)
  {
    hide Norms, NormsHold, AllHold;
    DenotesMeaning(p, env);
    NormsMeaning(conds, env);
    NormsHoldUnion(ScanConds(scans), JoinConds(p), env);
    ScanCondsMeaning(scans, env);
    AllLeaves(p, tables, scans);
    assert LeavesDenote(p, env) <==> forall k :: 0 <= k < |scans| ==> Denotes(scans[k], env);
    assert forall k :: 0 <= k < |scans| ==>
        (Denotes(scans[k], env) <==> Picks(env, tables[k]) && AllHold(scans[k].conds, env));
  }

  lemma AllLeaves(p: Plan, tables: seq<string>, scans: seq<Plan>)
    requires ScansOk(scans, tables) && TreeOk(p, tables, scans) && (forall t :: t in tables ==> t in Tables(p))
    ensures forall s :: s in Leaves(p) <==> s in scans
  {
  }

  /** The first table takes every condition between two columns of one table; it can
      evaluate them exactly when they are about itself. */
  ghost predicate SameTableFirst(tables: seq<string>, conds: seq<Cond>)
    requires tables != []
  {
    forall c :: c in conds && SameTable(c) ==> c.lhs.tab == tables[0]
  }

  lemma ScopedIff(p: Plan, tables: seq<string>, scans: seq<Plan>, conds: seq<Cond>)
    requires IsQuery(tables, conds) && ScansOk(scans, tables) && Popped(scans, tables, conds, |tables|)
    requires TreeOk(p, tables, scans) && (forall t :: t in tables ==> t in Tables(p))
    ensures Scoped(p) <==> SameTableFirst(tables, conds)
  {
    hide JoinsScoped, Distinct, Leaves, Tables;
    AllLeaves(p, tables, scans);
    if SameTableFirst(tables, conds) {
      forall k, c | 0 <= k < |scans| && c in scans[k].conds
        ensures c.lhs.tab == tables[k] && (c.rhs.Ref? ==> c.rhs.col.tab == tables[k])
      {
        assert c in conds && Pops(c, tables[k]);
      }
    }
    if Scoped(p) {
      assert scans[0] in scans && ScanScoped(scans[0]);
    }
  }

  /** The plan joins every table once, attaches every condition once (up to exchanging its
      sides), and denotes exactly the combinations of rows that satisfy all conditions.
      Every condition can be evaluated where it is attached exactly when conditions within
      one table are all on the first. A join is the inner child of another one exactly when
      some condition between tables shares no table with those before it. */
  method MakeOneRel(tables: seq<string>, conds: seq<Cond>) returns (p: Plan, ghost scans: seq<Plan>)
    requires IsQuery(tables, conds)
    ensures multiset(Tables(p)) == multiset(tables)
    ensures forall s :: s in Leaves(p) <==> s in scans
    ensures Norms(conds) == ScanConds(scans) + JoinConds(p)
    ensures forall env: Env :: Denotes(p, env) <==> (forall t :: t in tables ==> Picks(env, t)) && AllHold(conds, env)
    ensures Scoped(p) <==> SameTableFirst(tables, conds)
    ensures NearlyRightDeep(p) && (RightDeep(p) <==> Connected(CrossConds(conds)))
    ensures ScansOk(scans, tables) && Popped(scans, tables, conds, |tables|)
    ensures 1 < |tables| ==>
              var cross := CrossConds(conds);
              p == Topped(if cross == [] then scans[0] else TreeOf(cross, scans), scans, |scans|)
  {
    hide Norms, JoinConds, TreeOk, Marks, Denotes, Topped, TreeOf, AllHold, Scoped, Popped, Distinct, Connected,
      CrossConds;
    var scanPlans, rest := MakeScans(tables, conds);
    scans := scanPlans;
    if |tables| == 1 {
      p := scanPlans[0];
      SingleTable(tables, conds, scans, rest);
    } else {
      p := JoinAll(tables, scanPlans, rest);
    }
    Finished(p, tables, scans, conds, rest);
  }

  lemma SingleTable(tables: seq<string>, conds: seq<Cond>, scans: seq<Plan>, rest: seq<Cond>)
    requires IsQuery(tables, conds) && |tables| == 1 && ScansOk(scans, tables)
    requires forall c :: c in rest ==> c in conds && CrossTable(c)
    ensures Joined(scans[0], tables, scans, rest) && Connected(rest)
  {
    LeafOk(tables, scans, 0);
    var c := if rest == [] then Cond(Col("", ""), Eq, Lit(0)) else rest[0];
    assert c in rest ==> Known(c, tables);
    assert rest == [];
  }

  lemma Finished(p: Plan, tables: seq<string>, scans: seq<Plan>, conds: seq<Cond>, rest: seq<Cond>)
    requires IsQuery(tables, conds) && ScansOk(scans, tables) && Popped(scans, tables, conds, |tables|)
    requires Joined(p, tables, scans, rest) && Norms(conds) == ScanConds(scans) + Norms(rest)
    ensures multiset(Tables(p)) == multiset(tables)
    ensures forall s :: s in Leaves(p) <==> s in scans
    ensures Norms(conds) == ScanConds(scans) + JoinConds(p)
    ensures forall env: Env :: Denotes(p, env) <==> (forall t :: t in tables ==> Picks(env, t)) && AllHold(conds, env)
    ensures Scoped(p) <==> SameTableFirst(tables, conds)
  {
    hide Denotes, AllHold, Scoped, Popped, Norms, JoinsScoped, Leaves, Tables;
    SameTables(Tables(p), tables);
    AllLeaves(p, tables, scans);
    ScopedIff(p, tables, scans, conds);
    forall env: Env
      ensures Denotes(p, env) <==> (forall t :: t in tables ==> Picks(env, t)) && AllHold(conds, env)
    {
      JoinedMeaning(p, tables, scans, conds, env);
    }
  }

  method JoinAll(tables: seq<string>, scans: seq<Plan>, rest: seq<Cond>) returns (p: Plan)
    requires tables != [] && Distinct(tables) && "" !in tables && ScansOk(scans, tables)
    requires forall c :: c in rest ==> CrossTable(c) && Known(c, tables)
    ensures Joined(p, tables, scans, rest) && NearlyRightDeep(p) && (RightDeep(p) <==> Connected(rest))
    ensures p == Topped(if rest == [] then scans[0] else TreeOf(rest, scans), scans, |scans|)
  {
    hide Norm, JoinsScoped, TreeOk, Distinct, Marks, Connected;
    NothingToConnect();
    var scantbl := new int[|tables|](_ => -1);
    var joined;
    if rest != [] {
      p, joined := JoinAlong(tables, scans, rest, scantbl);
    } else {
      p, joined := scans[0], [tables[0]];
      scantbl[0] := 1;
      LeafOk(tables, scans, 0);
      FirstMarked(tables, scans, scantbl[..]);
    }
    p := JoinRemaining(p, scantbl, scans, tables, joined);
  }

  method JoinAlong(tables: seq<string>, scans: seq<Plan>, rest: seq<Cond>, scantbl: array<int>) returns (p: Plan,
                   joined: seq<string>)
    requires Distinct(tables) && "" !in tables && ScansOk(scans, tables) && scantbl.Length == |tables|
    requires (forall k :: 0 <= k < scantbl.Length ==> scantbl[k] == -1)
    requires rest != [] && forall c :: c in rest ==> CrossTable(c) && Known(c, tables)
    modifies scantbl
    ensures TreeOk(p, tables, scans) && Marks(p, tables, scantbl[..], joined) && JoinConds(p) == Norms(rest)
    ensures NearlyRightDeep(p) && (RightDeep(p) <==> Connected(rest)) && p == TreeOf(rest, scans)
  {
    hide Norm, Norms, JoinConds, NextPlan, JoinsScoped, TreeOk, Distinct, Marks, ScansOk, CrossTable, Known,
      Connected, Mentions,
      RightDeep, NearlyRightDeep;
    p, joined := FirstJoin(rest[0], scantbl, scans, tables);
    assert rest[..1] == [rest[0]];
    OneMentions(rest[0]);
    var it := 1;
    while it < |rest|
      invariant 1 <= it <= |rest|
      invariant TreeOk(p, tables, scans) && Marks(p, tables, scantbl[..], joined)
      invariant JoinConds(p) == Norms(rest[..it])
      invariant forall t :: t in Tables(p) <==> Mentions(rest[..it], t)
      invariant NearlyRightDeep(p) && (RightDeep(p) <==> Connected(rest[..it])) && p == TreeOf(rest[..it], scans)
    {
      assert rest[..it + 1][..it] == rest[..it];
      NormsSnoc(rest, it);
      MentionsMore(rest, it);
      p, joined := JoinNext(rest[it], p, scantbl, joined, scans, tables);
      it := it + 1;
    }
    assert rest[..it] == rest;
  }

  /** One of the conditions is about the table. */
  ghost predicate Mentions(cs: seq<Cond>, t: string) {
    exists j :: 0 <= j < |cs| && (cs[j].lhs.tab == t || RhsTab(cs[j]) == t)
  }

  /** Every condition after the first shares a table with those before it. */
  ghost predicate Connected(cs: seq<Cond>) {
    forall k :: 1 <= k < |cs| ==> Mentions(cs[..k], cs[k].lhs.tab) || Mentions(cs[..k], RhsTab(cs[k]))
  }

  lemma NothingToConnect()
    ensures Connected([])
  {
  }

  lemma OneMentions(c: Cond)
    ensures Connected([c]) && forall t :: Mentions([c], t) <==> c.lhs.tab == t || RhsTab(c) == t
  {
    forall t
      ensures Mentions([c], t) <==> c.lhs.tab == t || RhsTab(c) == t
    {
      assert [c][0] == c;
    }
  }

  lemma MentionsMore(cs: seq<Cond>, i: nat)
    requires 1 <= i < |cs|
    ensures forall t :: Mentions(cs[..i + 1], t) <==> Mentions(cs[..i], t) || t == cs[i].lhs.tab || t == RhsTab(cs[i])
    ensures Connected(cs[..i + 1])
            <==> Connected(cs[..i]) && (Mentions(cs[..i], cs[i].lhs.tab) || Mentions(cs[..i], RhsTab(cs[i])))
  {
    var a, b := cs[..i], cs[..i + 1];
    assert b == a + [cs[i]] && b[i] == cs[i];
    forall t
      ensures Mentions(b, t) <==> Mentions(a, t) || t == cs[i].lhs.tab || t == RhsTab(cs[i])
    {
      if Mentions(a, t) {
        var j :| 0 <= j < |a| && (a[j].lhs.tab == t || RhsTab(a[j]) == t);
        assert b[j] == a[j];
      }
    }
    assert forall k :: 1 <= k <= i ==> b[..k] == cs[..k] && (k < i ==> a[..k] == cs[..k]);
  }

  lemma NormsSnoc(cs: seq<Cond>, i: nat)
    requires i < |cs|
    ensures Norms(cs[..i + 1]) == Norms(cs[..i]) + multiset{Norm(cs[i])}
  {
    assert cs[..i + 1] == cs[..i] + [cs[i]];
    NormsAppend(cs[..i], [cs[i]]);
    NormOne(cs[i], cs[i]);
  }

  lemma FirstMarked(tables: seq<string>, scans: seq<Plan>, marks: seq<int>)
    requires tables != [] && Distinct(tables) && ScansOk(scans, tables) && |marks| == |tables|
    requires marks[0] == 1 && forall k :: 1 <= k < |marks| ==> marks[k] == -1
    ensures Marks(scans[0], tables, marks, [tables[0]])
  {
  }
}
