/** From conditions to key bounds: the index scan does not recheck conditions, so its
    bounds must say exactly what the conditions say. */
module IndexBound {
  import opened Defs
  import opened Plans
  import opened IndexKeys

  ghost predicate DistinctNames(cols: seq<string>) {
    forall i, j :: 0 <= i < j < |cols| ==> cols[i] != cols[j]
  }

  /** A comparison of an INT column with a literal. */
  ghost predicate IsTest(c: Cond) {
    c.rhs.Lit? && c.op != Ne && INT_MIN <= c.rhs.value <= INT_MAX
  }

  /** The conditions are on the first columns in order, all but the last equalities. */
  ghost predicate PrefixForm(cols: seq<string>, conds: seq<Cond>) {
    && |conds| <= |cols|
    && (forall j :: 0 <= j < |conds| ==> conds[j].lhs.name == cols[j])
    && (forall j :: 0 <= j < |conds| - 1 ==> conds[j].op == Eq)
  }

  predicate IsLow(op: Op) {
    op == Gt || op == Ge
  }

  predicate IsHigh(op: Op) {
    op == Lt || op == Le
  }

  /** A lower and an upper bound on the only column. */
  ghost predicate RangeForm(cols: seq<string>, conds: seq<Cond>) {
    && |cols| == 1 && |conds| == 2
    && conds[0].lhs.name == cols[0] && conds[1].lhs.name == cols[0]
    && ((IsLow(conds[0].op) && IsHigh(conds[1].op)) || (IsHigh(conds[0].op) && IsLow(conds[1].op)))
  }

  ghost predicate Accepted(cols: seq<string>, conds: seq<Cond>) {
    && DistinctNames(cols) && (forall c :: c in conds ==> IsTest(c))
    && (PrefixForm(cols, conds) || RangeForm(cols, conds))
  }

  /** The sequential filter: every condition holds of the key's column of that name. */
  ghost predicate Passes(cols: seq<string>, conds: seq<Cond>, key: seq<int>)
    requires |key| == |cols|
  {
    forall i, j :: 0 <= i < |cols| && 0 <= j < |conds| && conds[j].lhs.name == cols[i] && conds[j].rhs.Lit? ==>
      Compare(key[i], conds[j].op, conds[j].rhs.value)
  }

  datatype Bounds = Bounds(lower: seq<int>, openLow: bool, upper: seq<int>, openHigh: bool)

  ghost predicate Between(key: seq<int>, b: Bounds)
    requires |key| == |b.lower| == |b.upper|
  {
    LowOk(key, b.lower, b.openLow) && HighOk(key, b.upper, b.openHigh)
  }

  ghost predicate LowOk(key: seq<int>, lower: seq<int>, open: bool)
    requires |key| == |lower|
  {
    if open then LexLess(lower, key) else !LexLess(key, lower)
  }

  ghost predicate HighOk(key: seq<int>, upper: seq<int>, open: bool)
    requires |key| == |upper|
  {
    if open then LexLess(key, upper) else !LexLess(upper, key)
  }

  // What the loops collect

  function Value(c: Cond): int {
    if c.rhs.Lit? then c.rhs.value else 0
  }

  function Lows(conds: seq<Cond>): seq<int> {
    if conds == [] then []
    else
      var n := |conds| - 1;
      Lows(conds[..n]) + if conds[n].op == Eq || IsLow(conds[n].op) then [Value(conds[n])] else []
  }

  function Highs(conds: seq<Cond>): seq<int> {
    if conds == [] then []
    else
      var n := |conds| - 1;
      Highs(conds[..n]) + if conds[n].op == Eq || IsHigh(conds[n].op) then [Value(conds[n])] else []
  }

  function LowOp(conds: seq<Cond>): Op {
    if conds == [] then Eq
    else
      var n := |conds| - 1;
      if IsLow(conds[n].op) then conds[n].op else LowOp(conds[..n])
  }

  function HighOp(conds: seq<Cond>): Op {
    if conds == [] then Eq
    else
      var n := |conds| - 1;
      if IsHigh(conds[n].op) then conds[n].op else HighOp(conds[..n])
  }

  function Fill(n: nat, v: int): (r: seq<int>)
    ensures |r| == n && forall i :: 0 <= i < n ==> r[i] == v
  {
    if n == 0 then [] else Fill(n - 1, v) + [v]
  }

  // Lexicographic order against a filled key

  lemma LexPrefix(a: seq<int>, p: seq<int>, v: int)
    requires |p| <= |a| && InDomain(a)
    ensures var f := p + Fill(|a| - |p|, v);
            && (v == INT_MIN ==> (LexLess(a, f) <==> LexLess(a[..|p|], p)))
            && (v == INT_MAX ==> (LexLess(f, a) <==> LexLess(p, a[..|p|])))
  {
    var k := |p|;
    var f := p + Fill(|a| - k, v);
    assert f[..k] == p;
    if v == INT_MIN && LexLess(a, f) { LessBefore(a, f, k); }
    if v == INT_MAX && LexLess(f, a) { LessBefore(f, a, k); }
    if LexLess(a[..k], p) { LessAfter(a, f, k); }
    if LexLess(p, a[..k]) { LessAfter(f, a, k); }
  }

  /** If the difference cannot be in the second part, it is in the first. */
  lemma LessBefore(a: seq<int>, b: seq<int>, k: nat)
    requires k <= |a| == |b| && LexLess(a, b) && forall j :: k <= j < |a| ==> a[j] >= b[j]
    ensures LexLess(a[..k], b[..k])
  {
    var j :| 0 <= j < |a| && a[..j] == b[..j] && a[j] < b[j];
    assert a[..k][..j] == a[..j] && b[..k][..j] == b[..j];
  }

  lemma LessAfter(a: seq<int>, b: seq<int>, k: nat)
    requires k <= |a| == |b| && LexLess(a[..k], b[..k])
    ensures LexLess(a, b)
  {
    var j :| 0 <= j < k && a[..k][..j] == b[..k][..j] && a[..k][j] < b[..k][j];
    assert a[..k][..j] == a[..j] && b[..k][..j] == b[..j];
  }

  lemma {:induction false} Trichotomy(a: seq<int>, b: seq<int>)
    requires |a| == |b|
    ensures LexLess(a, b) || LexLess(b, a) || a == b
    ensures !(LexLess(a, b) && LexLess(b, a)) && (a == b ==> !LexLess(a, b) && !LexLess(b, a))
  {
    if |a| > 0 {
      var n := |a| - 1;
      LexLast(a, b);
      LexLast(b, a);
      Trichotomy(a[..n], b[..n]);
      assert a == a[..n] + [a[n]] && b == b[..n] + [b[n]];
    }
  }

  // The bounds of a condition list

  function BoundsOf(n: nat, conds: seq<Cond>): (b: Bounds)
    requires |Lows(conds)| <= n && |Highs(conds)| <= n
    ensures |b.lower| == n == |b.upper|
  {
    var low, high := Lows(conds), Highs(conds);
    Bounds(low + Fill(n - |low|, if LowOp(conds) == Gt then INT_MAX else INT_MIN), LowOp(conds) == Gt,
           high + Fill(n - |high|, if HighOp(conds) == Lt then INT_MIN else INT_MAX), HighOp(conds) == Lt)
  }

  lemma {:induction false} Equalities(conds: seq<Cond>)
    requires forall j :: 0 <= j < |conds| ==> conds[j].op == Eq
    ensures Lows(conds) == Highs(conds) && |Lows(conds)| == |conds| && LowOp(conds) == Eq == HighOp(conds)
    ensures forall j :: 0 <= j < |conds| ==> Lows(conds)[j] == Value(conds[j])
  {
    if conds != [] { Equalities(conds[..|conds| - 1]); }
  }

  lemma PassesPrefix(cols: seq<string>, conds: seq<Cond>, key: seq<int>)
    requires DistinctNames(cols) && PrefixForm(cols, conds) && |key| == |cols| && (forall c :: c in conds ==> IsTest(c))
    ensures Passes(cols, conds, key) <==> forall j :: 0 <= j < |conds| ==> Compare(key[j], conds[j].op, Value(conds[j]))
  {
    assert forall j :: 0 <= j < |conds| ==> conds[j] in conds;
  }

  lemma LastDigit(key: seq<int>, e: seq<int>, v: int)
    requires |e| < |key|
    ensures var k := |e|;
            && (LexLess(key[..k + 1], e + [v]) <==> LexLess(key[..k], e) || (key[..k] == e && key[k] < v))
            && (LexLess(e + [v], key[..k + 1]) <==> LexLess(e, key[..k]) || (key[..k] == e && v < key[k]))
  {
    var k := |e|;
    var a, b := key[..k + 1], e + [v];
    assert a[..k] == key[..k] && b[..k] == e && a[k] == key[k];
    LexLast(a, b);
    LexLast(b, a);
  }

  /** A bound that is filled up to full length speaks of the given prefix only. */
  lemma LowSide(key: seq<int>, p: seq<int>, open: bool)
    requires |p| <= |key| && InDomain(key)
    ensures LowOk(key, p + Fill(|key| - |p|, if open then INT_MAX else INT_MIN), open) <==> LowOk(key[..|p|], p, open)
  {
    LexPrefix(key, p, if open then INT_MAX else INT_MIN);
  }

  lemma HighSide(key: seq<int>, p: seq<int>, open: bool)
    requires |p| <= |key| && InDomain(key)
    ensures HighOk(key, p + Fill(|key| - |p|, if open then INT_MIN else INT_MAX), open) <==> HighOk(key[..|p|], p, open)
  {
    LexPrefix(key, p, if open then INT_MIN else INT_MAX);
  }

  lemma LastCond(conds: seq<Cond>)
    requires conds != []
    ensures var k := |conds| - 1; var op, v := conds[k].op, Value(conds[k]);
            && Lows(conds) == (if op == Eq || IsLow(op) then Lows(conds[..k]) + [v] else Lows(conds[..k]))
            && Highs(conds) == (if op == Eq || IsHigh(op) then Highs(conds[..k]) + [v] else Highs(conds[..k]))
            && LowOp(conds) == (if IsLow(op) then op else LowOp(conds[..k]))
            && HighOp(conds) == (if IsHigh(op) then op else HighOp(conds[..k]))
  {
  }

  /** The two sides of an equality prefix `e` with a last condition on the next column. */
  ghost predicate Sides(key: seq<int>, e: seq<int>, op: Op, v: int, b: Bounds)
    requires |e| < |key| == |b.lower| == |b.upper|
  {
    var k := |e|;
    && (LowOk(key, b.lower, b.openLow) <==>
          || LexLess(e, key[..k])
          || (key[..k] == e && (op == Lt || op == Le || Compare(key[k], if op == Eq then Ge else op, v))))
    && (HighOk(key, b.upper, b.openHigh) <==>
          || LexLess(key[..k], e)
          || (key[..k] == e && (op == Gt || op == Ge || Compare(key[k], if op == Eq then Le else op, v))))
  }

  lemma PrefixSides(n: nat, conds: seq<Cond>, key: seq<int>)
    requires conds != [] && |conds| <= n == |key| && InDomain(key) && (forall c :: c in conds ==> IsTest(c))
    requires forall j :: 0 <= j < |conds| - 1 ==> conds[j].op == Eq
    ensures |Lows(conds)| <= n && |Highs(conds)| <= n
    ensures var k := |conds| - 1;
            |Lows(conds[..k])| == k && Sides(key, Lows(conds[..k]), conds[k].op, Value(conds[k]), BoundsOf(n, conds))
  {
    hide LexLess, Lows, Highs, LowOp, HighOp;
    var k := |conds| - 1;
    Equalities(conds[..k]);
    LastCond(conds);
    var e, v := Lows(conds[..k]), Value(conds[k]);
    assert conds[k] in conds;
    Trichotomy(key[..k], e);
    LastDigit(key, e, v);
    LowSide(key, Lows(conds), LowOp(conds) == Gt);
    HighSide(key, Highs(conds), HighOp(conds) == Lt);
  }

  lemma PrefixBounds(n: nat, conds: seq<Cond>, key: seq<int>)
    requires conds != [] && |conds| <= n == |key| && InDomain(key) && (forall c :: c in conds ==> IsTest(c))
    requires forall j :: 0 <= j < |conds| - 1 ==> conds[j].op == Eq
    ensures |Lows(conds)| <= n && |Highs(conds)| <= n
    ensures Between(key, BoundsOf(n, conds)) <==> forall j :: 0 <= j < |conds| ==>
              Compare(key[j], conds[j].op, Value(conds[j]))
  {
    hide LexLess, Lows, Highs, LowOp, HighOp, BoundsOf, LowOk, HighOk;
    var k := |conds| - 1;
    Equalities(conds[..k]);
    PrefixSides(n, conds, key);
    var e, v, last := Lows(conds[..k]), Value(conds[k]), conds[k].op;
    assert conds[k] in conds;
    Trichotomy(key[..k], e);
    assert (forall j :: 0 <= j < k ==> Compare(key[j], conds[j].op, Value(conds[j]))) <==> key[..k] == e;
  }

  lemma RangeValues(cols: seq<string>, conds: seq<Cond>)
    requires RangeForm(cols, conds)
    ensures var i := if IsLow(conds[0].op) then 0 else 1;
            && Lows(conds) == [Value(conds[i])] && LowOp(conds) == conds[i].op
            && Highs(conds) == [Value(conds[1 - i])] && HighOp(conds) == conds[1 - i].op
  {
    LastCond(conds);
    LastCond(conds[..1]);
    assert conds[..1][..0] == [];
  }

  lemma RangeBounds(cols: seq<string>, conds: seq<Cond>, key: seq<int>)
    requires RangeForm(cols, conds) && |key| == 1 && (forall c :: c in conds ==> IsTest(c))
    ensures |Lows(conds)| == 1 && |Highs(conds)| == 1
    ensures Between(key, BoundsOf(1, conds)) <==> Passes(cols, conds, key)
  {
    hide LexLess, Lows, Highs, LowOp, HighOp;
    RangeValues(cols, conds);
    assert conds[0] in conds && conds[1] in conds;
    SingleLess(Lows(conds), key);
    SingleLess(key, Lows(conds));
    SingleLess(Highs(conds), key);
    SingleLess(key, Highs(conds));
    assert Lows(conds) + Fill(0, INT_MIN) == Lows(conds) && Highs(conds) + Fill(0, INT_MAX) == Highs(conds);
    assert Lows(conds) + Fill(0, INT_MAX) == Lows(conds) && Highs(conds) + Fill(0, INT_MIN) == Highs(conds);
    assert Passes(cols, conds, key) <==>
           Compare(key[0], conds[0].op, conds[0].rhs.value) && Compare(key[0], conds[1].op, conds[1].rhs.value);
  }

  lemma SingleLess(a: seq<int>, b: seq<int>)
    requires |a| == |b| == 1
    ensures LexLess(a, b) <==> a[0] < b[0]
  {
    assert a[..0] == b[..0];
  }

  /** Every accepted condition list says the same as its bounds. */
  lemma BoundsAreFilter(cols: seq<string>, conds: seq<Cond>, key: seq<int>)
    requires conds != [] && Accepted(cols, conds) && |key| == |cols| && InDomain(key)
    ensures |Lows(conds)| <= |cols| && |Highs(conds)| <= |cols|
    ensures Between(key, BoundsOf(|cols|, conds)) <==> Passes(cols, conds, key)
  {
    hide Between, BoundsOf, Passes, DistinctNames;
    if PrefixForm(cols, conds) {
      PrefixBounds(|cols|, conds, key);
      PassesPrefix(cols, conds, key);
    } else {
      RangeBounds(cols, conds, key);
    }
  }

  /** Only contradictory ranges can cross: equality prefixes never do. */
  ghost predicate Crosses(key: seq<int>, b: Bounds)
    requires |key| == |b.lower| == |b.upper|
  {
    !LowOk(key, b.lower, b.openLow) && !HighOk(key, b.upper, b.openHigh)
  }

  lemma PrefixNeverCrosses(n: nat, conds: seq<Cond>, key: seq<int>)
    requires conds != [] && |conds| <= n == |key| && InDomain(key) && (forall c :: c in conds ==> IsTest(c))
    requires forall j :: 0 <= j < |conds| - 1 ==> conds[j].op == Eq
    ensures |Lows(conds)| <= n && |Highs(conds)| <= n && !Crosses(key, BoundsOf(n, conds))
  {
    hide LexLess, Lows, Highs, LowOp, HighOp, BoundsOf, LowOk, HighOk;
    var k := |conds| - 1;
    PrefixSides(n, conds, key);
    Trichotomy(key[..k], Lows(conds[..k]));
    assert conds[k] in conds;
  }
}
