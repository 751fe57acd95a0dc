/** Building the join tree of a query: conditions go to the scan of their table or to the
    lowest join that sees both their columns. */
module Planner {
  import opened Plans

  ghost predicate Distinct(tables: seq<string>) {
    forall i, j :: 0 <= i < j < |tables| ==> tables[i] != tables[j]
  }

  /** Conditions that `pop_conds` takes for a table: those with a literal on this table,
      and those between two columns of one table, whichever that is. */
  predicate Pops(c: Cond, tab: string) {
    (tab == c.lhs.tab && c.rhs.Lit?) || c.lhs.tab == RhsTab(c)
  }

  /** The conditions that pass, in their order. */
  ghost function Select(conds: seq<Cond>, pass: Cond -> bool): seq<Cond> {
    if conds == [] then [] else (if pass(conds[0]) then [conds[0]] else []) + Select(conds[1..], pass)
  }

  lemma {:induction false} SelectTwice(conds: seq<Cond>, p: Cond -> bool, q: Cond -> bool, r: Cond -> bool)
    requires forall c :: c in conds ==> (r(c) <==> p(c) && q(c))
    ensures Select(Select(conds, p), q) == Select(conds, r)
  {
    if conds != [] {
      SelectTwice(conds[1..], p, q, r);
      var rest := Select(conds[1..], p);
      if p(conds[0]) { assert ([conds[0]] + rest)[1..] == rest; } else { assert [] + rest == rest; }
    }
  }

  lemma {:induction false} SelectAll(conds: seq<Cond>, pass: Cond -> bool)
    requires forall c :: c in conds ==> pass(c)
    ensures Select(conds, pass) == conds
  {
    if conds != [] { SelectAll(conds[1..], pass); }
  }

  lemma {:induction false} SelectAgree(conds: seq<Cond>, p: Cond -> bool, q: Cond -> bool)
    requires forall c :: c in conds ==> (p(c) <==> q(c))
    ensures Select(conds, p) == Select(conds, q)
  {
    if conds != [] { SelectAgree(conds[1..], p, q); }
  }

  ghost function NotPopped(tab: string): Cond -> bool {
    c => !Pops(c, tab)
  }

  /** The conditions that the table does not take. */
  ghost function Left(conds: seq<Cond>, tab: string): seq<Cond> {
    Select(conds, NotPopped(tab))
  }

  lemma LeftStep(conds: seq<Cond>, i: nat, tab: string)
    requires i < |conds|
    ensures Left(conds[i..], tab) == (if Pops(conds[i], tab) then [] else [conds[i]]) + Left(conds[i + 1..], tab)
    ensures (conds[..i] + conds[i + 1..])[i..] == conds[i + 1..] && (conds[..i] + conds[i + 1..])[..i] == conds[..i]
    ensures conds[..i + 1] == conds[..i] + [conds[i]]
  {
    assert conds[i..][1..] == conds[i + 1..];
  }

  method PopConds(conds: seq<Cond>, tab: string) returns (solved: seq<Cond>, rest: seq<Cond>)
    ensures rest == Left(conds, tab)
    ensures forall c :: c in solved ==> c in conds && Pops(c, tab)
    ensures forall c :: c in rest ==> c in conds && !Pops(c, tab)
    ensures Norms(conds) == Norms(solved) + Norms(rest)
    ensures forall c :: c in conds ==> c in solved || c in rest
  {
    hide Norms, Left;
    solved, rest := [], conds;
    var it := 0;
    assert rest[0..] == conds;
    NothingLeft([], tab);
    while it < |rest|
      invariant 0 <= it <= |rest|
      invariant forall c :: c in solved ==> c in conds && Pops(c, tab)
      invariant forall c :: c in rest[..it] ==> !Pops(c, tab)
      invariant forall c :: c in rest ==> c in conds
      invariant forall c :: c in conds ==> c in solved || c in rest
      invariant Norms(conds) == Norms(solved) + Norms(rest)
      invariant rest[..it] + Left(rest[it..], tab) == Left(conds, tab)
      decreases |rest| - it
    {
      LeftStep(rest, it, tab);
      if Pops(rest[it], tab) {
        MoveCond(solved, rest, it);
        solved, rest := solved + [rest[it]], rest[..it] + rest[it + 1..];
      } else {
        it := it + 1;
      }
    }
    assert rest[..it] == rest;
    NothingLeft(rest[it..], tab);
  }

  lemma NothingLeft(conds: seq<Cond>, tab: string)
    requires conds == []
    ensures Left(conds, tab) == [] && Norms([]) == multiset{}
  {
  }

  lemma MoveCond(a: seq<Cond>, b: seq<Cond>, i: nat)
    requires i < |b|
    ensures Norms(a + [b[i]]) + Norms(b[..i] + b[i + 1..]) == Norms(a) + Norms(b)
    ensures forall c :: c in b ==> c in a + [b[i]] || c in b[..i] + b[i + 1..]
  {
    hide Norms;
    var x, y, z := b[..i], [b[i]], b[i + 1..];
    assert b == x + (y + z);
    NormsAppend(a, y);
    NormsAppend(x, z);
    NormsAppend(x, y + z);
    NormsAppend(y, z);
  }

  /** `push_conds`: 1 or 2 when the plan has only the left or the right column, 3 when
      the condition has been attached, together with the changed plan. */
  function PushConds(c: Cond, p: Plan): (r: (int, Plan))
  {
    match p
    case Scan(tab, _) => (if tab == c.lhs.tab then 1 else if tab == RhsTab(c) then 2 else 0, p)
    case Join(l, r, cs) =>
      var left := PushConds(c, l);
      if left.0 == 3 then (3, Join(left.1, r, cs))
      else
        var right := PushConds(c, r);
        if right.0 == 3 then (3, Join(l, right.1, cs))
        else if left.0 == 0 || right.0 == 0 then (left.0 + right.0, p)
        else (3, Join(l, r, cs + [if left.0 == 2 then Swap(c) else c]))
  }

  ghost predicate Has(p: Plan, tab: string) {
    tab in Tables(p)
  }

  ghost function Pushed(c: Cond, p: Plan): int
    requires c.rhs.Ref?
  {
    if Has(p, c.lhs.tab) then (if Has(p, c.rhs.col.tab) then 3 else 1)
    else if Has(p, c.rhs.col.tab) then 2 else 0
  }

  /** The condition is attached to one join, and nothing else has changed. */
  ghost predicate Attached(c: Cond, p: Plan, q: Plan) {
    && JoinsScoped(q) && Tables(q) == Tables(p) && Leaves(q) == Leaves(p)
    && JoinConds(q) == JoinConds(p) + multiset{Norm(c)}
  }

  /** A condition between two tables is attached exactly once if both are in the plan. */
  lemma {:induction false} PushCondsOk(c: Cond, p: Plan)
    requires JoinsScoped(p) && Distinct(Tables(p)) && c.rhs.Ref? && c.lhs.tab != c.rhs.col.tab
    ensures PushConds(c, p).0 == Pushed(c, p)
    ensures if Pushed(c, p) == 3 then Attached(c, p, PushConds(c, p).1) else PushConds(c, p).1 == p
  {
    hide Norms, Norm, Distinct, Attached;
    match p
    case Scan(_, _) =>
    case Join(l, r, cs) =>
      SidesDisjoint(l, r);
      PushCondsOk(c, l);
      PushCondsOk(c, r);
      PushedSides(c, l, r, cs);
      if Pushed(c, l) == 3 {
        AttachedBelow(c, l, PushConds(c, l).1, r, cs, true);
      } else if Pushed(c, r) == 3 {
        AttachedBelow(c, r, PushConds(c, r).1, l, cs, false);
      } else if Pushed(c, l) != 0 && Pushed(c, r) != 0 {
        AttachedHere(c, l, r, cs, if Pushed(c, l) == 2 then Swap(c) else c);
      }
  }

  lemma PushedSides(c: Cond, l: Plan, r: Plan, cs: seq<Cond>)
    requires c.rhs.Ref? && forall t :: t in Tables(l) ==> t !in Tables(r)
    ensures var p := Join(l, r, cs);
            && Pushed(c, p) == (if Pushed(c, l) == 3 || Pushed(c, r) == 3 then 3 else Pushed(c, l) + Pushed(c, r))
            && (Pushed(c, l) == 3 ==> Pushed(c, r) == 0) && (Pushed(c, r) == 3 ==> Pushed(c, l) == 0)
            && (Pushed(c, l) != 0 ==> Pushed(c, l) != Pushed(c, r))
  {
    assert forall t :: t in Tables(Join(l, r, cs)) <==> t in Tables(l) || t in Tables(r);
    assert Has(l, c.lhs.tab) ==> !Has(r, c.lhs.tab);
    assert Has(l, c.rhs.col.tab) ==> !Has(r, c.rhs.col.tab);
  }

  lemma AttachedBelow(c: Cond, p: Plan, q: Plan, other: Plan, cs: seq<Cond>, onLeft: bool)
    requires Attached(c, p, q) && JoinsScoped(if onLeft then Join(p, other, cs) else Join(other, p, cs))
    ensures if onLeft then Attached(c, Join(p, other, cs), Join(q, other, cs))
            else Attached(c, Join(other, p, cs), Join(other, q, cs))
  {
    hide Norms, Norm;
  }

  lemma AttachedHere(c: Cond, l: Plan, r: Plan, cs: seq<Cond>, d: Cond)
    requires JoinsScoped(Join(l, r, cs)) && c.rhs.Ref? && (d == c || d == Swap(c)) && d.lhs.tab in Tables(l)
    requires RhsTab(d) in Tables(r)
    ensures Attached(c, Join(l, r, cs), Join(l, r, cs + [d]))
  {
    hide Norms, Norm, JoinsScoped;
    ScopedHere(l, r, cs, d);
    NormOne(c, d);
    NormsAppend(cs, [d]);
  }

  lemma ScopedHere(l: Plan, r: Plan, cs: seq<Cond>, d: Cond)
    requires JoinsScoped(Join(l, r, cs)) && d.rhs.Ref? && d.lhs.tab in Tables(l) && d.rhs.col.tab in Tables(r)
    ensures JoinsScoped(Join(l, r, cs + [d]))
  {
    hide Tables;
  }

  lemma NormOne(c: Cond, d: Cond)
    requires d == c || d == Swap(c)
    ensures Norms([d]) == multiset{Norm(c)}
  {
    NormSwap(c);
    assert [d][1..] == [];
  }

  lemma SidesDisjoint(l: Plan, r: Plan)
    requires Distinct(Tables(l) + Tables(r))
    ensures Distinct(Tables(l)) && Distinct(Tables(r)) && forall t :: t in Tables(l) ==> t !in Tables(r)
  {
    PartsDistinct(Tables(l), Tables(r));
  }

  lemma PartsDistinct(a: seq<string>, b: seq<string>)
    requires Distinct(a + b)
    ensures Distinct(a) && Distinct(b) && forall t :: t in a ==> t !in b
  {
    assert forall i :: 0 <= i < |a| ==> (a + b)[i] == a[i];
    assert forall i :: 0 <= i < |b| ==> (a + b)[|a| + i] == b[i];
  }

  // The scans

  function ScanConds(scans: seq<Plan>): multiset<set<Cond>> {
    if scans == [] then multiset{} else ScanConds(scans[..|scans| - 1]) + Norms(scans[|scans| - 1].conds)
  }

  ghost predicate Known(c: Cond, tables: seq<string>) {
    c.lhs.tab in tables && (c.rhs.Ref? ==> c.rhs.col.tab in tables)
  }

  ghost predicate SameTable(c: Cond) {
    c.rhs.Ref? && c.lhs.tab == c.rhs.col.tab
  }

  ghost predicate CrossTable(c: Cond) {
    c.rhs.Ref? && c.lhs.tab != c.rhs.col.tab
  }

  ghost predicate IsQuery(tables: seq<string>, conds: seq<Cond>) {
    && tables != [] && Distinct(tables) && "" !in tables
    && (forall c :: c in conds ==> Known(c, tables))
  }

  ghost predicate ScansOk(scans: seq<Plan>, tables: seq<string>) {
    |scans| == |tables| && forall k :: 0 <= k < |scans| ==> scans[k].Scan? && scans[k].tab == tables[k]
  }

  /** Each scan takes the literal conditions on its table; the first also takes every
      condition between two columns of one table. */
  ghost predicate Popped(scans: seq<Plan>, tables: seq<string>, conds: seq<Cond>, n: nat)
    requires n <= |tables| && ScansOk(scans, tables[..n])
  {
    && (forall k, c :: 0 <= k < n && c in scans[k].conds ==>
        c in conds && Pops(c, tables[k]) && (SameTable(c) ==> k == 0))
    && (forall c :: c in conds && SameTable(c) && 0 < n ==> c in scans[0].conds)
  }

  method MakeScans(tables: seq<string>, conds: seq<Cond>) returns (scans: seq<Plan>, rest: seq<Cond>)
    requires IsQuery(tables, conds)
    ensures ScansOk(scans, tables) && Popped(scans, tables, conds, |tables|)
    ensures forall c :: c in rest ==> c in conds && CrossTable(c)
    ensures Norms(conds) == ScanConds(scans) + Norms(rest)
    ensures rest == CrossConds(conds)
  {
    hide Norms, Select;
    scans, rest := [], conds;
    NothingPopped(conds);
    for i := 0 to |tables|
      invariant ScansOk(scans, tables[..i])
      invariant Popped(scans, tables, conds, i)
      invariant forall c :: c in rest ==> c in conds
      invariant forall c, k :: c in rest && 0 <= k < i ==> !Pops(c, tables[k])
      invariant i == 0 ==> rest == conds
      invariant Norms(conds) == ScanConds(scans) + Norms(rest)
      invariant rest == LeftBy(conds, tables[..i])
    {
      LeftByMore(conds, tables, i);
      var solved, rest' := PopConds(rest, tables[i]);
      assert (scans + [Scan(tables[i], solved)])[..i] == scans;
      rest, scans := rest', scans + [Scan(tables[i], solved)];
    }
    assert tables[..|tables|] == tables;
    CrossIsLeft(tables, conds);
  }

  /** The conditions that none of the tables takes. */
  ghost function LeftBy(conds: seq<Cond>, tabs: seq<string>): seq<Cond> {
    Select(conds, NonePops(tabs))
  }

  ghost function NonePops(tabs: seq<string>): Cond -> bool {
    c => forall t :: t in tabs ==> !Pops(c, t)
  }

  ghost function CrossConds(conds: seq<Cond>): seq<Cond> {
    Select(conds, c => CrossTable(c))
  }

  lemma NothingPopped(conds: seq<Cond>)
    ensures LeftBy(conds, []) == conds
  {
    hide Select;
    SelectAll(conds, NonePops([]));
  }

  lemma LeftByMore(conds: seq<Cond>, tabs: seq<string>, i: nat)
    requires i < |tabs|
    ensures Left(LeftBy(conds, tabs[..i]), tabs[i]) == LeftBy(conds, tabs[..i + 1])
  {
    hide Select;
    assert tabs[..i + 1] == tabs[..i] + [tabs[i]];
    SelectTwice(conds, NonePops(tabs[..i]), NotPopped(tabs[i]), NonePops(tabs[..i + 1]));
  }

  /** What all tables leave are the conditions between two tables. */
  lemma CrossIsLeft(tables: seq<string>, conds: seq<Cond>)
    requires IsQuery(tables, conds)
    ensures LeftBy(conds, tables) == CrossConds(conds)
  {
    hide Select;
    forall c | c in conds
      ensures (forall t :: t in tables ==> !Pops(c, t)) <==> CrossTable(c)
    {
      assert Known(c, tables);
      if !CrossTable(c) { assert Pops(c, if c.rhs.Lit? then c.lhs.tab else tables[0]); }
    }
    SelectAgree(conds, NonePops(tables), c => CrossTable(c));
  }
}
