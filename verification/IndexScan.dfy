/** Choosing an index for a condition list, and scanning it. */
module IndexScan {
  import opened Defs
  import opened Plans
  import opened IndexKeys
  import opened IndexBound
  import opened IxNode
  import opened IxTree
  import opened IxRange
  import opened IxHandle
  import opened IxScanner
  import opened GapScan

  /** Exactly one condition is on the column. */
  ghost predicate OneNamed(conds: seq<Cond>, name: string) {
    exists i :: 0 <= i < |conds| && conds[i].lhs.name == name
                && forall j :: 0 <= j < |conds| && conds[j].lhs.name == name ==> j == i
  }

  method CountAndFind(conds: seq<Cond>, name: string) returns (count: nat, first: int)
    ensures -1 <= first < |conds| && (count == 0 <==> first == -1)
    ensures first >= 0 ==> conds[first].lhs.name == name
    ensures count == 1 <==> OneNamed(conds, name)
  {
    count, first := 0, -1;
    for i := 0 to |conds|
      invariant -1 <= first < i && (count == 0 <==> first == -1)
      invariant first >= 0 ==> conds[first].lhs.name == name
      invariant count <= 1 ==> forall j :: 0 <= j < i && conds[j].lhs.name == name ==> j == first
      invariant count > 1 ==> exists j :: first < j < i && conds[j].lhs.name == name
    {
      if conds[i].lhs.name == name {
        count := count + 1;
        if first == -1 {
          first := i;
        }
      }
    }
  }

  /** Why the search stops. */
  ghost predicate Stuck(cols: seq<string>, conditions: seq<Cond>, found: seq<Cond>) {
    var n := |found|;
    || n == |cols|
    || (n < |cols| && !OneNamed(conditions, cols[n]))
    || (0 < n <= |cols| && found[n - 1].op != Eq && OneNamed(conditions, cols[n - 1]))
  }

  /** `MatchIndex`: succeeds exactly if the conditions, put in the order of the columns,
      are equalities on the first columns with at most a last inequality. */
  method MatchIndex(cols: seq<string>, conditions: seq<Cond>) returns (ok: bool, conds: seq<Cond>)
    requires DistinctNames(cols)
    ensures ok ==> multiset(conds) == multiset(conditions) && PrefixForm(cols, conds)
    ensures !ok ==> conds == conditions && forall p :: multiset(p) == multiset(conditions) ==> !PrefixForm(cols, p)
  {
    hide OneNamed;
    var found: seq<Cond> := [];
    var i := 0;
    while i < |cols|
      invariant 0 <= i <= |cols| && |found| == i
      invariant PrefixForm(cols, found) && forall j :: 0 <= j < |found| ==> found[j] in conditions && found[j].op == Eq
      decreases |cols| - i
    {
      var count, first := CountAndFind(conditions, cols[i]);
      if count != 1 {
        break;
      }
      found := found + [conditions[first]];
      if conditions[first].op != Eq {
        break;
      }
      i := i + 1;
    }
    if |found| == |conditions| {
      SamePermutation(cols, found, conditions);
      return true, found;
    }
    ok, conds := false, conditions;
    NoneFits(cols, conditions, found);
  }

  lemma NoneFits(cols: seq<string>, conditions: seq<Cond>, found: seq<Cond>)
    requires DistinctNames(cols) && PrefixForm(cols, found) && Stuck(cols, conditions, found) && |found| != |conditions|
    requires forall j :: 0 <= j < |found| ==> found[j] in conditions
    ensures forall p :: multiset(p) == multiset(conditions) ==> !PrefixForm(cols, p)
  {
    hide PrefixForm, Stuck, DistinctNames;
    forall p | multiset(p) == multiset(conditions)
      ensures !PrefixForm(cols, p)
    {
      StuckForGood(cols, conditions, found, p);
    }
  }

  lemma Twice(s: seq<Cond>, i: nat, j: nat)
    requires i < j < |s| && s[i] == s[j]
    ensures multiset(s)[s[i]] >= 2
  {
    assert s == s[..j] + [s[j]] + s[j + 1..];
    assert s[i] in s[..j];
  }

  lemma Once(s: seq<Cond>, i: nat)
    requires i < |s| && forall j :: 0 <= j < |s| && s[j] == s[i] ==> j == i
    ensures multiset(s)[s[i]] == 1
  {
    assert s == s[..i] + [s[i]] + s[i + 1..];
    assert s[i] !in s[..i] && s[i] !in s[i + 1..];
  }

  /** A column that a permutation in prefix form uses has exactly one condition. */
  lemma OneNamedIn(cols: seq<string>, p: seq<Cond>, conditions: seq<Cond>, i: nat)
    requires DistinctNames(cols) && multiset(p) == multiset(conditions) && PrefixForm(cols, p) && i < |p|
    ensures OneNamed(conditions, cols[i]) && forall c :: c in conditions && c.lhs.name == cols[i] ==> c == p[i]
  {
    assert forall c :: c in p <==> c in multiset(p);
    assert forall c :: c in conditions <==> c in multiset(conditions);
    assert p[i] in conditions;
    Once(p, i);
    var k :| 0 <= k < |conditions| && conditions[k] == p[i];
    forall j | 0 <= j < |conditions| && conditions[j].lhs.name == cols[i]
      ensures j == k
    {
      assert conditions[j] in p;
      assert conditions[j] == p[i];
      if j < k { Twice(conditions, j, k); }
      if k < j { Twice(conditions, k, j); }
    }
  }

  lemma StuckForGood(cols: seq<string>, conditions: seq<Cond>, found: seq<Cond>, p: seq<Cond>)
    requires DistinctNames(cols) && PrefixForm(cols, found) && Stuck(cols, conditions, found) && |found| != |conditions|
    requires multiset(p) == multiset(conditions) && (forall j :: 0 <= j < |found| ==> found[j] in conditions)
    ensures !PrefixForm(cols, p)
  {
    assert |p| == |multiset(p)| == |multiset(conditions)| == |conditions|;
    FoundFits(cols, found, conditions);
    var n := |found|;
    if PrefixForm(cols, p) && n < |cols| {
      OneNamedIn(cols, p, conditions, n);
      if 0 < n { OneNamedIn(cols, p, conditions, n - 1); }
    }
  }

  lemma FoundFits(cols: seq<string>, found: seq<Cond>, conditions: seq<Cond>)
    requires DistinctNames(cols) && PrefixForm(cols, found)
    requires forall j :: 0 <= j < |found| ==> found[j] in conditions
    ensures |found| <= |conditions|
  {
    FoundInside(cols, found, conditions);
    assert multiset(conditions) == multiset(found) + (multiset(conditions) - multiset(found));
    assert |multiset(found)| == |found| && |multiset(conditions)| == |conditions|;
  }

  /** Different conditions from the list, as many as it has, are a permutation of it. */
  lemma SamePermutation(cols: seq<string>, found: seq<Cond>, conditions: seq<Cond>)
    requires DistinctNames(cols) && PrefixForm(cols, found) && |found| == |conditions|
    requires forall j :: 0 <= j < |found| ==> found[j] in conditions
    ensures multiset(found) == multiset(conditions)
  {
    FoundInside(cols, found, conditions);
    SameSize(multiset(found), multiset(conditions));
  }

  lemma {:induction false} FoundInside(cols: seq<string>, found: seq<Cond>, conditions: seq<Cond>)
    requires DistinctNames(cols) && PrefixForm(cols, found)
    requires forall j :: 0 <= j < |found| ==> found[j] in conditions
    ensures multiset(found) <= multiset(conditions)
  {
    if found != [] {
      var n := |found| - 1;
      FoundInside(cols, found[..n], conditions);
      assert found == found[..n] + [found[n]];
      assert forall j :: 0 <= j < n ==> found[j] != found[n];
    }
  }

  lemma SameSize(a: multiset<Cond>, b: multiset<Cond>)
    requires a <= b && |a| == |b|
    ensures a == b
  {
    assert b == a + (b - a);
    assert |b - a| == 0;
  }

  /** Some order of the conditions is in prefix form for the index. */
  ghost predicate Admits(cols: seq<string>, conditions: seq<Cond>) {
    exists p :: multiset(p) == multiset(conditions) && PrefixForm(cols, p)
  }

  /** `MatchIndexMultiple`: among the indexes that match, the first with fewest columns. */
  method MatchIndexMultiple(indexes: seq<seq<string>>, conditions: seq<Cond>)
    returns (cols: seq<string>, conds: seq<Cond>, ghost at: int)
    requires forall i :: 0 <= i < |indexes| ==> DistinctNames(indexes[i]) && 0 < |indexes[i]| <= MAX_COL_LEN
    ensures multiset(conds) == multiset(conditions)
    ensures cols != [] ==> 0 <= at < |indexes| && cols == indexes[at] && PrefixForm(cols, conds)
    ensures forall i :: 0 <= i < |indexes| && Admits(indexes[i], conditions) ==>
              0 < |cols| <= |indexes[i]| && (|cols| == |indexes[i]| ==> at <= i)
  {
    hide PrefixForm, DistinctNames;
    at := -1;
    var best := MAX_COL_LEN + 1;
    cols, conds := [], conditions;
    for i := 0 to |indexes|
      invariant multiset(conds) == multiset(conditions)
      invariant cols != [] ==> 0 <= at < i && cols == indexes[at] && PrefixForm(cols, conds)
      invariant best == if cols == [] then MAX_COL_LEN + 1 else |cols|
      invariant forall j :: 0 <= j < i && Admits(indexes[j], conditions) ==>
                  0 < |cols| <= |indexes[j]| && (|cols| == |indexes[j]| ==> at <= j)
    {
      if |indexes[i]| < best {
        var ok, reordered := MatchIndex(indexes[i], conds);
        if ok {
          best, cols, conds, at := |indexes[i]|, indexes[i], reordered, i;
        }
      }
    }
  }

  /** `is_index` for a single column. */
  method IsSingleIndex(indexes: seq<seq<string>>, name: string) returns (ok: bool)
    ensures ok <==> [name] in indexes
  {
    for i := 0 to |indexes|
      invariant [name] !in indexes[..i]
    {
      if |indexes[i]| == 1 && indexes[i][0] == name {
        assert indexes[i] == [name];
        return true;
      }
      assert indexes[..i + 1] == indexes[..i] + [indexes[i]];
    }
    assert indexes[..|indexes|] == indexes;
    ok := false;
  }

  /** A lower and an upper bound, in either order. */
  predicate OpposedOps(a: Op, b: Op) {
    (IsLow(a) && IsHigh(b)) || (IsHigh(a) && IsLow(b))
  }

  /** When the planner uses an index: all conditions compare columns of the table with
      literals, without inequality, and fit an index. One condition, or two on one column,
      need a single-column index. */
  ghost predicate Usable(tab: string, indexes: seq<seq<string>>, conds: seq<Cond>) {
    && (forall i :: 0 <= i < |conds| ==> conds[i].rhs.Lit? && conds[i].lhs.tab == tab && conds[i].op != Ne)
    && if conds == [] then indexes != []
       else if |conds| == 1 then [conds[0].lhs.name] in indexes
       else if |conds| == 2 && conds[0].lhs.name == conds[1].lhs.name
       then
         && [conds[0].lhs.name] in indexes
         && (|| (conds[0].op in {Gt, Ge} && conds[1].op in {Lt, Le})
             || (conds[0].op in {Lt, Le} && conds[1].op in {Gt, Ge}))
       else exists i :: 0 <= i < |indexes| && Admits(indexes[i], conds)
  }

  /** `get_index_cols`: an index whose bounds can express the conditions exactly. */
  method GetIndexCols(tab: string, indexes: seq<seq<string>>, conditions: seq<Cond>) returns (ok: bool,
                      cols: seq<string>, conds: seq<Cond>)
    requires forall i :: 0 <= i < |indexes| ==> DistinctNames(indexes[i]) && 0 < |indexes[i]| <= MAX_COL_LEN
    requires forall c :: c in conditions && c.rhs.Lit? ==> INT_MIN <= c.rhs.value <= INT_MAX
    ensures multiset(conds) == multiset(conditions)
    ensures ok ==> cols in indexes && Accepted(cols, conds) && forall c :: c in conds ==> c.lhs.tab == tab
    ensures ok <==> Usable(tab, indexes, conditions)
    ensures ok && conditions == [] ==> indexes != [] && cols == indexes[0]
  {
    cols, conds := [], conditions;
    for i := 0 to |conditions|
      invariant forall j :: 0 <= j < i ==>
                  conditions[j].rhs.Lit? && conditions[j].lhs.tab == tab && conditions[j].op != Ne
    {
      if !conditions[i].rhs.Lit? || conditions[i].lhs.tab != tab || conditions[i].op == Ne {
        return false, [], conditions;
      }
    }
    if conditions == [] {
      if indexes == [] {
        return false, [], conditions;
      }
      return true, indexes[0], conditions;
    }
    if |conditions| == 1 {
      ok := IsSingleIndex(indexes, conditions[0].lhs.name);
      cols := [conditions[0].lhs.name];
      return;
    }
    if |conditions| == 2 && conditions[0].lhs.name == conditions[1].lhs.name {
      if OpposedOps(conditions[0].op, conditions[1].op) {
        ok := IsSingleIndex(indexes, conditions[0].lhs.name);
        cols := [conditions[0].lhs.name];
        return;
      }
      return false, [], conditions;
    }
    ghost var at;
    cols, conds, at := MatchIndexMultiple(indexes, conditions);
    ok := cols != [];
    SameElements(conds, conditions);
  }

  lemma SameElements(a: seq<Cond>, b: seq<Cond>)
    requires multiset(a) == multiset(b)
    ensures forall c :: c in a <==> c in b
  {
    assert forall c :: c in a <==> c in multiset(a);
    assert forall c :: c in b <==> c in multiset(b);
  }

  /** `get_bound`: collects the values column by column and fills the rest of each key
      with the smallest or the largest value of the column. */
  method GetBound(cols: seq<string>, conds: seq<Cond>) returns (b: Bounds)
    requires conds != [] && Accepted(cols, conds)
    ensures |Lows(conds)| <= |cols| && |Highs(conds)| <= |cols| && b == BoundsOf(|cols|, conds)
  {
    hide Lows, Highs, LowOp, HighOp, Matched, Accepted, IsTest;
    var lower: seq<int>, upper: seq<int> := [], [];
    var lowOp, highOp := Eq, Eq;
    ghost var t := 0;
    MatchedEnds(cols, conds);
    for i := 0 to |cols|
      invariant t == Matched(cols, conds, i, 0) <= |conds| && Collected(conds[..t], lower, upper, lowOp, highOp)
    {
      MatchedWithin(cols, conds, i);
      for j := 0 to |conds|
        invariant t == Matched(cols, conds, i, j) <= |conds| && Collected(conds[..t], lower, upper, lowOp, highOp)
      {
        MatchedNext(cols, conds, i, j);
        if cols[i] == conds[j].lhs.name {
          CollectOne(conds, t, lower, upper, lowOp, highOp);
          if conds[j].op == Eq {
            lower, upper := lower + [Value(conds[j])], upper + [Value(conds[j])];
          } else if IsLow(conds[j].op) {
            lower, lowOp := lower + [Value(conds[j])], conds[j].op;
          } else if IsHigh(conds[j].op) {
            upper, highOp := upper + [Value(conds[j])], conds[j].op;
          }
          t := t + 1;
        }
      }
    }
    assert conds[..t] == conds;
    BoundsAreFilter(cols, conds, Fill(|cols|, 0));
    lower := FillUp(lower, |cols|, if lowOp == Gt then INT_MAX else INT_MIN);
    upper := FillUp(upper, |cols|, if highOp == Lt then INT_MIN else INT_MAX);
    b := Bounds(lower, lowOp == Gt, upper, highOp == Lt);
  }

  ghost predicate Collected(conds: seq<Cond>, lower: seq<int>, upper: seq<int>, lowOp: Op, highOp: Op) {
    lower == Lows(conds) && upper == Highs(conds) && lowOp == LowOp(conds) && highOp == HighOp(conds)
  }

  lemma CollectOne(conds: seq<Cond>, t: nat, lower: seq<int>, upper: seq<int>, lowOp: Op, highOp: Op)
    requires t < |conds| && Collected(conds[..t], lower, upper, lowOp, highOp)
    ensures var op, v := conds[t].op, Value(conds[t]);
            Collected(conds[..t + 1], if op == Eq || IsLow(op) then lower + [v] else lower,
                      if op == Eq || IsHigh(op) then upper + [v] else upper,
                      if IsLow(op) then op else lowOp, if IsHigh(op) then op else highOp)
  {
    LastCond(conds[..t + 1]);
    assert conds[..t + 1][..t] == conds[..t];
  }

  lemma MatchedEnds(cols: seq<string>, conds: seq<Cond>)
    requires conds != [] && Accepted(cols, conds)
    ensures Matched(cols, conds, 0, 0) == 0 && Matched(cols, conds, |cols|, 0) == |conds|
    ensures Collected(conds[..0], [], [], Eq, Eq)
  {
  }

  lemma MatchedWithin(cols: seq<string>, conds: seq<Cond>, i: nat)
    requires Accepted(cols, conds) && i < |cols|
    ensures Matched(cols, conds, i, |conds|) == Matched(cols, conds, i + 1, 0) <= |conds|
  {
  }

  method FillUp(s: seq<int>, n: nat, v: int) returns (r: seq<int>)
    requires |s| <= n
    ensures r == s + Fill(n - |s|, v)
  {
    r := s;
    for i := |s| to n
      invariant r == s + Fill(i - |s|, v)
    {
      r := r + [v];
    }
  }

  /** How many conditions the nested loops have met before column `i`, condition `j`. */
  ghost function Matched(cols: seq<string>, conds: seq<Cond>, i: nat, j: nat): nat {
    if PrefixForm(cols, conds) then (if |conds| <= i then |conds| else if i < j then i + 1 else i)
    else if i == 0 then j else |conds|
  }

  lemma MatchedNext(cols: seq<string>, conds: seq<Cond>, i: nat, j: nat)
    requires Accepted(cols, conds) && i < |cols| && j < |conds|
    ensures Matched(cols, conds, i, j + 1) == Matched(cols, conds, i, j) + if cols[i] == conds[j].lhs.name then 1 else 0
    ensures cols[i] == conds[j].lhs.name ==> Matched(cols, conds, i, j) == j
  {
  }

  /** The index holds keys of the given length over INT columns. */
  ghost predicate KeysOk(entries: map<Key, Rid>, keyOf: map<Key, seq<int>>, n: nat) {
    forall k :: k in entries ==> k in keyOf && |keyOf[k]| == n && InDomain(keyOf[k]) && Encode(keyOf[k]) == k
  }

  /** The key that `get_key` writes for the end of the leaf list: its loop sets the first
      two columns only, the others keep what the memory held. */
  function EndKey(n: nat, stale: seq<int>): (r: seq<int>)
    requires |stale| == n && InDomain(stale)
    ensures |r| == n && InDomain(r)
  {
    seq(n, i requires 0 <= i < n => if i < 2 then INT_MAX else stale[i])
  }

  /** No stored key and no lower bound is above the key of the end. */
  ghost predicate EndAbove(entries: map<Key, Rid>, keyOf: map<Key, seq<int>>, lower: seq<int>, end: seq<int>)
    requires KeysOk(entries, keyOf, |end|) && |lower| == |end|
  {
    !LexLess(end, lower) && forall k :: k in entries ==> !LexLess(end, keyOf[k])
  }

  ghost predicate CrossedOnce(entries: map<Key, Rid>, keyOf: map<Key, seq<int>>, b: Bounds)
    requires |b.lower| == |b.upper| && KeysOk(entries, keyOf, |b.lower|)
  {
    exists k :: k in entries && Crosses(keyOf[k], b) && forall l :: l in entries && Crosses(keyOf[l], b) ==> l == k
  }

  /** Bounds that have crossed over exactly one stored key make the scan run past its end,
      unless the lower bound is closed and stored, or is the key of the end. */
  ghost predicate ScanOverruns(entries: map<Key, Rid>, keyOf: map<Key, seq<int>>, b: Bounds, end: seq<int>)
    requires |b.lower| == |b.upper| == |end| && KeysOk(entries, keyOf, |b.lower|)
  {
    var stored := exists k :: k in entries && keyOf[k] == b.lower;
    && CrossedOnce(entries, keyOf, b) && (stored ==> b.openLow)
    && ((forall k :: k in entries ==> !LowOk(keyOf[k], b.lower, b.openLow)) ==>
          LexLess(b.lower, end) || (stored && b.lower == end))
  }

  /** The assertion on the gap keys fails. */
  ghost predicate ScanAsserts(entries: map<Key, Rid>, keyOf: map<Key, seq<int>>, b: Bounds, end: seq<int>)
    requires |b.lower| == |b.upper| == |end| && KeysOk(entries, keyOf, |b.lower|)
  {
    LexLess(end, b.lower) && forall k :: k in entries ==> !LowOk(keyOf[k], b.lower, b.openLow)
  }

  /** A range that reaches to the end of the leaf list is taken for empty: the key of the end
      is below a key in front of the range, or below a lower bound that is stored or has no
      key in front of it. */
  ghost predicate ScanCut(entries: map<Key, Rid>, keyOf: map<Key, seq<int>>, b: Bounds, end: seq<int>)
    requires |b.lower| == |b.upper| == |end| && KeysOk(entries, keyOf, |b.lower|)
  {
    && (forall k :: k in entries ==> HighOk(keyOf[k], b.upper, b.openHigh))
    && (exists k :: k in entries && LowOk(keyOf[k], b.lower, b.openLow))
    && (|| (exists k :: k in entries && !LowOk(keyOf[k], b.lower, b.openLow) && LexLess(end, keyOf[k]))
        || (LexLess(end, b.lower)
            && (|| (!b.openLow && exists k :: k in entries && keyOf[k] == b.lower)
                || forall k :: k in entries ==> LowOk(keyOf[k], b.lower, b.openLow))))
  }

  /** The entries that the sequential filter would keep, once each and in key order. */
  ghost predicate IsFilter(out: seq<Entry>, entries: map<Key, Rid>, keyOf: map<Key, seq<int>>, cols: seq<string>,
                           conds: seq<Cond>)
    requires KeysOk(entries, keyOf, |cols|)
  {
    && KeySorted(out)
    && (forall k :: HoldsKey(out, k) <==> k in entries && Passes(cols, conds, keyOf[k]))
    && (forall i :: 0 <= i < |out| ==> out[i].key in entries && out[i].rid == entries[out[i].key])
  }

  /** The scan over the index. Without conditions the test on the gap keys compares the
      smallest key with that of the end and never fires. */
  method ScanIndex(ih: IxIndexHandle, cols: seq<string>, conds: seq<Cond>, stale: seq<int>, ghost keyOf: map<Key,
                   seq<int>>)
    returns (out: ScanOutcome)
    requires ih.Valid() && ih.root != NO_PAGE && Accepted(cols, conds) && KeysOk(ih.entries, keyOf, |cols|)
    requires |stale| == |cols| && InDomain(stale)
    ensures conds == [] ==> out.Rows? && IsFilter(out.rows, ih.entries, keyOf, cols, conds)
    ensures |Lows(conds)| <= |cols| && |Highs(conds)| <= |cols|
    ensures conds != [] ==>
              (out.Overrun? <==> ScanOverruns(ih.entries, keyOf, BoundsOf(|cols|, conds), EndKey(|cols|, stale)))
    ensures conds != [] ==>
              (out.AssertFails? <==> ScanAsserts(ih.entries, keyOf, BoundsOf(|cols|, conds), EndKey(|cols|, stale)))
    ensures conds != [] && out.Rows? ==>
              (IsFilter(out.rows, ih.entries, keyOf, cols, conds) <==>
               !ScanCut(ih.entries, keyOf, BoundsOf(|cols|, conds), EndKey(|cols|, stale)))
    ensures out.Rows? && !IsFilter(out.rows, ih.entries, keyOf, cols, conds) ==> out.rows == []
    ensures PrefixForm(cols, conds) ==> !out.Overrun?
    ensures EndAbove(ih.entries, keyOf, BoundsOf(|cols|, conds).lower, EndKey(|cols|, stale)) ==>
              !out.AssertFails? && (out.Rows? ==> IsFilter(out.rows, ih.entries, keyOf, cols, conds))
  {
    hide Structured, SizesOkExcept, BoundsOf, Lows, Highs, Encode, Accepted, Overruns, ScanOverruns, EndAbove, IsRange,
      IsFilter, Cut, NoneAbove, LexLess, InDomain, ScanAsserts, ScanCut;
    if conds == [] {
      var rows := FullScan(ih);
      NoConditions(cols, ih.entries, keyOf, rows);
      return Rows(rows);
    }
    var b := GetBound(cols, conds);
    BoundsInDomain(cols, conds);
    var end := EndKey(|cols|, stale);
    out := RangeScan(ih, Encode(b.lower), b.openLow, Encode(b.upper), b.openHigh, Encode(end));
    OverrunsScan(ih.entries, keyOf, b, end);
    if PrefixForm(cols, conds) { NeverOverruns(ih.entries, keyOf, cols, conds, end); }
    CutScan(ih.entries, keyOf, b, end);
    if EndAbove(ih.entries, keyOf, b.lower, end) { NeverCut(ih.entries, keyOf, b, end); }
    if out.Rows? { RangeIsFilter(ih.entries, keyOf, cols, conds, out.rows); }
  }

  lemma NoConditions(cols: seq<string>, entries: map<Key, Rid>, keyOf: map<Key, seq<int>>, rows: seq<Entry>)
    requires KeysOk(entries, keyOf, |cols|) && KeySorted(rows) && forall k :: HoldsKey(rows, k) <==> k in entries
    requires forall i :: 0 <= i < |rows| ==> rows[i].key in entries && rows[i].rid == entries[rows[i].key]
    ensures IsFilter(rows, entries, keyOf, cols, []) && Lows([]) == [] == Highs([])
  {
    hide HoldsKey, KeySorted;
    assert forall k :: k in entries ==> Passes(cols, [], keyOf[k]) by { NothingToPass(cols, entries, keyOf); }
  }

  lemma NothingToPass(cols: seq<string>, entries: map<Key, Rid>, keyOf: map<Key, seq<int>>)
    requires KeysOk(entries, keyOf, |cols|)
    ensures forall k :: k in entries ==> Passes(cols, [], keyOf[k])
  {
  }

  /** Comparing encodings is comparing keys. */
  lemma BoundsOfKey(entries: map<Key, Rid>, keyOf: map<Key, seq<int>>, b: Bounds, k: Key)
    requires |b.lower| == |b.upper| && KeysOk(entries, keyOf, |b.lower|) && InDomain(b.lower) && InDomain(b.upper)
    requires k in entries
    ensures AboveLow(k, Encode(b.lower), b.openLow) <==> LowOk(keyOf[k], b.lower, b.openLow)
    ensures BelowHigh(k, Encode(b.upper), b.openHigh) <==> HighOk(keyOf[k], b.upper, b.openHigh)
    ensures k == Encode(b.lower) <==> keyOf[k] == b.lower
  {
    hide LexLess, Encode, InDomain;
    var key := keyOf[k];
    EncodeOrder(key, b.lower);
    EncodeOrder(b.lower, key);
    EncodeOrder(key, b.upper);
    EncodeOrder(b.upper, key);
  }

  lemma OverrunsScan(entries: map<Key, Rid>, keyOf: map<Key, seq<int>>, b: Bounds, end: seq<int>)
    requires |b.lower| == |b.upper| == |end| && KeysOk(entries, keyOf, |b.lower|)
    requires InDomain(b.lower) && InDomain(b.upper) && InDomain(end)
    ensures Overruns(entries, Encode(b.lower), b.openLow, Encode(b.upper), b.openHigh, Encode(end))
            <==> ScanOverruns(entries, keyOf, b, end)
  {
    hide LexLess, Encode, InDomain, LowOk, HighOk, AboveLow, BelowHigh;
    forall k | k in entries
      ensures AboveLow(k, Encode(b.lower), b.openLow) <==> LowOk(keyOf[k], b.lower, b.openLow)
      ensures Beyond(k, Encode(b.lower), b.openLow, Encode(b.upper), b.openHigh) <==> Crosses(keyOf[k], b)
      ensures k == Encode(b.lower) <==> keyOf[k] == b.lower
    {
      BoundsOfKey(entries, keyOf, b, k);
    }
    EncodeOrder(b.lower, end);
    assert OneBeyond(entries, Encode(b.lower), b.openLow, Encode(b.upper), b.openHigh) <==>
        CrossedOnce(entries, keyOf, b);
  }

  lemma NeverOverruns(entries: map<Key, Rid>, keyOf: map<Key, seq<int>>, cols: seq<string>, conds: seq<Cond>,
                      end: seq<int>)
    requires conds != [] && Accepted(cols, conds) && PrefixForm(cols, conds) && KeysOk(entries, keyOf, |cols|)
    requires |end| == |cols|
    ensures |Lows(conds)| <= |cols| && |Highs(conds)| <= |cols|
    ensures !ScanOverruns(entries, keyOf, BoundsOf(|cols|, conds), end)
  {
    hide BoundsOf, Lows, Highs, LexLess, Encode, InDomain, Crosses;
    BoundsInDomain(cols, conds);
    forall k | k in entries
      ensures !Crosses(keyOf[k], BoundsOf(|cols|, conds))
    {
      PrefixNeverCrosses(|cols|, conds, keyOf[k]);
    }
  }

  lemma NeverCut(entries: map<Key, Rid>, keyOf: map<Key, seq<int>>, b: Bounds, end: seq<int>)
    requires |b.lower| == |b.upper| == |end| && KeysOk(entries, keyOf, |b.lower|)
    requires EndAbove(entries, keyOf, b.lower, end)
    ensures !ScanAsserts(entries, keyOf, b, end) && !ScanCut(entries, keyOf, b, end)
  {
    hide LexLess, LowOk, HighOk;
  }

  lemma CutScan(entries: map<Key, Rid>, keyOf: map<Key, seq<int>>, b: Bounds, end: seq<int>)
    requires |b.lower| == |b.upper| == |end| && KeysOk(entries, keyOf, |b.lower|)
    requires InDomain(b.lower) && InDomain(b.upper) && InDomain(end)
    ensures Cut(entries, Encode(b.lower), b.openLow, Encode(b.upper), b.openHigh, Encode(end))
            <==> ScanCut(entries, keyOf, b, end)
    ensures Encode(end) < Encode(b.lower) && NoneAbove(entries, Encode(b.lower), b.openLow)
            <==> ScanAsserts(entries, keyOf, b, end)
  {
    hide LexLess, Encode, InDomain, LowOk, HighOk, AboveLow, BelowHigh;
    forall k | k in entries
      ensures AboveLow(k, Encode(b.lower), b.openLow) <==> LowOk(keyOf[k], b.lower, b.openLow)
      ensures BelowHigh(k, Encode(b.upper), b.openHigh) <==> HighOk(keyOf[k], b.upper, b.openHigh)
      ensures k == Encode(b.lower) <==> keyOf[k] == b.lower
      ensures Encode(end) < k <==> LexLess(end, keyOf[k])
    {
      BoundsOfKey(entries, keyOf, b, k);
      EncodeOrder(end, keyOf[k]);
    }
    EncodeOrder(end, b.lower);
  }

  lemma RangeIsFilter(entries: map<Key, Rid>, keyOf: map<Key, seq<int>>, cols: seq<string>, conds: seq<Cond>,
                      rows: seq<Entry>)
    requires conds != [] && Accepted(cols, conds) && KeysOk(entries, keyOf, |cols|)
    requires |Lows(conds)| <= |cols| && |Highs(conds)| <= |cols|
    ensures var b := BoundsOf(|cols|, conds);
            IsRange(rows, entries, Encode(b.lower), b.openLow, Encode(b.upper), b.openHigh)
            <==> IsFilter(rows, entries, keyOf, cols, conds)
  {
    hide BoundsOf, Lows, Highs, Passes, LexLess, Encode, InDomain, LowOk, HighOk, AboveLow, BelowHigh, HoldsKey,
      KeySorted, DistinctNames;
    var b := BoundsOf(|cols|, conds);
    BoundsInDomain(cols, conds);
    forall k | k in entries
      ensures AboveLow(k, Encode(b.lower), b.openLow) && BelowHigh(k, Encode(b.upper), b.openHigh) <==>
                Passes(cols, conds, keyOf[k])
    {
      BoundsOfKey(entries, keyOf, b, k);
      BoundsAreFilter(cols, conds, keyOf[k]);
    }
  }

  /** With at most two columns the key of the end is the largest of all. */
  lemma TwoColumns(entries: map<Key, Rid>, keyOf: map<Key, seq<int>>, lower: seq<int>, stale: seq<int>)
    requires |lower| == |stale| <= 2 && InDomain(lower) && InDomain(stale) && KeysOk(entries, keyOf, |lower|)
    ensures EndAbove(entries, keyOf, lower, EndKey(|lower|, stale))
  {
  }

  // With three columns it need not be

  function ThreeConds(): seq<Cond> {
    [Cond(Col("t", "a"), Eq, Lit(INT_MAX)), Cond(Col("t", "b"), Eq, Lit(INT_MAX)), Cond(Col("t", "c"), Gt, Lit(3))]
  }

  lemma ThreeBounds()
    ensures Accepted(["a", "b", "c"], ThreeConds()) && |Lows(ThreeConds())| <= 3 && |Highs(ThreeConds())| <= 3
    ensures BoundsOf(3, ThreeConds()) == Bounds([INT_MAX, INT_MAX, 3], true, [INT_MAX, INT_MAX, INT_MAX], false)
  {
    hide Lows, Highs, LowOp, HighOp;
    var cs := ThreeConds();
    Equalities(cs[..2]);
    LastCond(cs);
    assert Lows(cs[..2]) == [INT_MAX, INT_MAX];
    assert Fill(1, INT_MAX) == [INT_MAX] && Fill(0, INT_MAX) == [];
  }

  lemma ThreeCut(entries: map<Key, Rid>, keyOf: map<Key, seq<int>>)
    requires keyOf == map[Encode([INT_MAX, INT_MAX, 5]) := [INT_MAX, INT_MAX, 5]] && entries.Keys == keyOf.Keys
    ensures KeysOk(entries, keyOf, 3)
    ensures var b := Bounds([INT_MAX, INT_MAX, 3], true, [INT_MAX, INT_MAX, INT_MAX], false);
            var end := EndKey(3, [0, 0, 0]);
            && ScanCut(entries, keyOf, b, end)
            && !ScanOverruns(entries, keyOf, b, end) && !ScanAsserts(entries, keyOf, b, end)
  {
    hide Encode;
    var key, lower, upper := [INT_MAX, INT_MAX, 5], [INT_MAX, INT_MAX, 3], [INT_MAX, INT_MAX, INT_MAX];
    var end := EndKey(3, [0, 0, 0]);
    assert end == [INT_MAX, INT_MAX, 0];
    DifferAt(lower, key, 2);
    DifferAt(key, upper, 2);
    DifferAt(end, lower, 2);
    hide LexLess;
    assert Encode(key) in entries && LowOk(keyOf[Encode(key)], lower, true);
  }

  /** The only row satisfies the conditions, and the scan does not deliver it. */
  method StaleEndCuts() returns (ih: IxIndexHandle, out: ScanOutcome)
    ensures var key := [INT_MAX, INT_MAX, 5];
            ih.entries == map[Encode(key) := Rid(1, 0)] && Passes(["a", "b", "c"], ThreeConds(), key)
    ensures out == Rows([])
  {
    hide Encode, LexLess, ScanCut, ScanOverruns, ScanAsserts, Accepted, BoundsOf, Lows, Highs, Legal,
      IsFilter;
    var cols, key := ["a", "b", "c"], [INT_MAX, INT_MAX, 5];
    ih := new IxIndexHandle(6);
    var inserted := ih.InsertEntry(Encode(key), Rid(1, 0));
    ghost var keyOf := map[Encode(key) := key];
    ThreeBounds();
    ThreeCut(ih.entries, keyOf);
    out := ScanIndex(ih, cols, ThreeConds(), [0, 0, 0], keyOf);
  }

  lemma {:induction false} ValuesInDomain(conds: seq<Cond>)
    requires forall c :: c in conds ==> IsTest(c)
    ensures InDomain(Lows(conds)) && InDomain(Highs(conds))
  {
    if conds != [] {
      var n := |conds| - 1;
      ValuesInDomain(conds[..n]);
      assert conds[n] in conds;
    }
  }

  lemma BoundsInDomain(cols: seq<string>, conds: seq<Cond>)
    requires conds != [] && Accepted(cols, conds)
    ensures |Lows(conds)| <= |cols| && |Highs(conds)| <= |cols|
    ensures var b := BoundsOf(|cols|, conds); InDomain(b.lower) && InDomain(b.upper)
  {
    BoundsAreFilter(cols, conds, Fill(|cols|, 0));
    ValuesInDomain(conds);
  }
}
