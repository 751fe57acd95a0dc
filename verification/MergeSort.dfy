/** What one merge pass of the external sort computes, on sequences. */
module MergeSort {
  datatype Tuple = Tuple(key: int, data: seq<bv8>)

  ghost predicate Sorted(s: seq<Tuple>) {
    forall i, j :: 0 <= i < j < |s| ==> s[i].key <= s[j].key
  }

  ghost predicate NoSharedKey(a: seq<Tuple>, b: seq<Tuple>) {
    forall i, j :: 0 <= i < |a| && 0 <= j < |b| ==> a[i].key != b[j].key
  }

  /** The merge as the code does it: of two tuples with equal keys, both are written to
      the same place, so that only the right one remains. */
  function Merge(a: seq<Tuple>, b: seq<Tuple>): (r: seq<Tuple>)
    ensures |r| <= |a| + |b|
    decreases |a| + |b|
  {
    if a == [] then b
    else if b == [] then a
    else if a[0].key < b[0].key then [a[0]] + Merge(a[1..], b)
    else if a[0].key > b[0].key then [b[0]] + Merge(a, b[1..])
    else [b[0]] + Merge(a[1..], b[1..])
  }

  /** Without a shared key the merge keeps every tuple. */
  lemma MergePermutes(a: seq<Tuple>, b: seq<Tuple>)
    requires NoSharedKey(a, b)
    ensures multiset(Merge(a, b)) == multiset(a) + multiset(b) && |Merge(a, b)| == |a| + |b|
  {
    MergeConserves(a, b);
    NothingLost(a, b);
  }

  lemma {:induction false} NothingLost(a: seq<Tuple>, b: seq<Tuple>)
    requires NoSharedKey(a, b)
    ensures Lost(a, b) == []
    decreases |a| + |b|
  {
    if a != [] && b != [] {
      if a[0].key < b[0].key { NothingLost(a[1..], b); } else { NothingLost(a, b[1..]); }
    }
  }

  /** With a shared key it loses at least one: sorted blocks merge without loss exactly
      when they share no key. */
  lemma {:induction false} MergeLosesIff(a: seq<Tuple>, b: seq<Tuple>)
    requires Sorted(a) && Sorted(b)
    ensures |Merge(a, b)| == |a| + |b| <==> NoSharedKey(a, b)
    decreases |a| + |b|
  {
    if NoSharedKey(a, b) {
      MergePermutes(a, b);
    } else if a[0].key < b[0].key {
      assert NoSharedKey(a[..1], b);
      MergeLosesIff(a[1..], b);
      StillShared(a, b);
    } else if a[0].key > b[0].key {
      MergeLosesIff(a, b[1..]);
      StillShared(b, a);
    }
  }

  /** A head below all keys of the other block is not the shared one. */
  lemma StillShared(a: seq<Tuple>, b: seq<Tuple>)
    requires Sorted(b) && a != [] && b != [] && a[0].key < b[0].key && !NoSharedKey(a, b)
    ensures !NoSharedKey(a[1..], b) && !NoSharedKey(b, a[1..]) && !NoSharedKey(b, a)
  {
    var i, j :| 0 <= i < |a| && 0 <= j < |b| && a[i].key == b[j].key;
    assert 0 < j ==> b[0].key <= b[j].key;
    assert a[1..][i - 1] == a[i];
  }

  ghost predicate AtLeast(k: int, s: seq<Tuple>) {
    forall x :: x in s ==> k <= x.key
  }

  lemma ConsSorted(x: Tuple, s: seq<Tuple>)
    requires Sorted(s) && AtLeast(x.key, s)
    ensures Sorted([x] + s)
  {
  }

  lemma HeadLeast(s: seq<Tuple>)
    requires Sorted(s) && s != []
    ensures AtLeast(s[0].key, s)
  {
  }

  lemma {:induction false} MergeAtLeast(k: int, a: seq<Tuple>, b: seq<Tuple>)
    requires AtLeast(k, a) && AtLeast(k, b)
    ensures AtLeast(k, Merge(a, b))
    decreases |a| + |b|
  {
    if a != [] && b != [] {
      if a[0].key < b[0].key { MergeAtLeast(k, a[1..], b); }
      else if a[0].key > b[0].key { MergeAtLeast(k, a, b[1..]); }
      else { MergeAtLeast(k, a[1..], b[1..]); }
    }
  }

  lemma {:induction false} MergeSorted(a: seq<Tuple>, b: seq<Tuple>)
    requires Sorted(a) && Sorted(b)
    ensures Sorted(Merge(a, b))
    decreases |a| + |b|
  {
    if a != [] && b != [] {
      HeadLeast(a);
      HeadLeast(b);
      if a[0].key < b[0].key {
        MergeSorted(a[1..], b);
        MergeAtLeast(a[0].key, a[1..], b);
        ConsSorted(a[0], Merge(a[1..], b));
      } else if a[0].key > b[0].key {
        MergeSorted(a, b[1..]);
        MergeAtLeast(b[0].key, a, b[1..]);
        ConsSorted(b[0], Merge(a, b[1..]));
      } else {
        MergeSorted(a[1..], b[1..]);
        MergeAtLeast(b[0].key, a[1..], b[1..]);
        ConsSorted(b[0], Merge(a[1..], b[1..]));
      }
    }
  }

  /** Every block of `t` tuples is sorted; the last block may be shorter. */
  ghost predicate BlocksSorted(s: seq<Tuple>, t: nat)
    requires t > 0
    decreases |s|
  {
    if |s| <= t then Sorted(s) else Sorted(s[..t]) && BlocksSorted(s[t..], t)
  }

  function Min(a: int, b: int): int {
    if a < b then a else b
  }

  /** Merges blocks two by two and copies a last odd block. */
  ghost function MergePass(s: seq<Tuple>, t: nat): (r: seq<Tuple>)
    requires t > 0
    decreases |s|
  {
    if |s| <= t then s
    else
      var m := Min(2 * t, |s|);
      Merge(s[..t], s[t..m]) + MergePass(s[m..], t)
  }

  /** No two blocks that the pass merges share a key. */
  ghost predicate PairsApart(s: seq<Tuple>, t: nat)
    requires t > 0
    decreases |s|
  {
    |s| > t ==>
      var m := Min(2 * t, |s|);
      NoSharedKey(s[..t], s[t..m]) && PairsApart(s[m..], t)
  }

  /** No two blocks share a key. */
  ghost predicate BlocksApart(s: seq<Tuple>, t: nat)
    requires t > 0
    decreases |s|
  {
    |s| > t ==> NoSharedKey(s[..t], s[t..]) && BlocksApart(s[t..], t)
  }

  lemma {:induction false} PassPermutes(s: seq<Tuple>, t: nat)
    requires t > 0 && PairsApart(s, t)
    ensures multiset(MergePass(s, t)) == multiset(s) && |MergePass(s, t)| == |s|
    decreases |s|
  {
    hide NoSharedKey, Merge;
    if |s| > t {
      var m := Min(2 * t, |s|);
      MergePermutes(s[..t], s[t..m]);
      PassPermutes(s[m..], t);
      assert s == s[..t] + s[t..m] + s[m..];
    }
  }

  /** A pass over sorted blocks keeps all tuples exactly when no two blocks that it merges
      share a key. */
  lemma {:induction false} PassLosesIff(s: seq<Tuple>, t: nat)
    requires t > 0 && BlocksSorted(s, t)
    ensures |MergePass(s, t)| <= |s| && (|MergePass(s, t)| == |s| <==> PairsApart(s, t))
    decreases |s|
  {
    hide NoSharedKey, Merge, Sorted;
    if |s| > t {
      var m := Min(2 * t, |s|);
      SecondBlock(s, t);
      MergeLosesIff(s[..t], s[t..m]);
      PassLosesIff(s[m..], t);
    }
  }

  lemma SecondBlock(s: seq<Tuple>, t: nat)
    requires t > 0 && |s| > t && BlocksSorted(s, t)
    ensures var m := Min(2 * t, |s|); Sorted(s[..t]) && Sorted(s[t..m]) && BlocksSorted(s[m..], t)
  {
    var r := s[t..];
    if |r| <= t {
      assert s[t..|s|] == r;
      assert s[|s|..] == [];
    } else {
      assert r[..t] == s[t..2 * t] && r[t..] == s[2 * t..];
    }
  }

  /** A pass doubles the size of the sorted blocks. */
  lemma {:induction false} PassSorts(s: seq<Tuple>, t: nat)
    requires t > 0 && BlocksSorted(s, t) && PairsApart(s, t)
    ensures BlocksSorted(MergePass(s, t), 2 * t)
    decreases |s|
  {
    hide NoSharedKey, Merge, Sorted;
    if |s| > t {
      var m := Min(2 * t, |s|);
      SecondBlock(s, t);
      var a := Merge(s[..t], s[t..m]);
      MergeSorted(s[..t], s[t..m]);
      MergePermutes(s[..t], s[t..m]);
      PassSorts(s[m..], t);
      PassPermutes(s[m..], t);
      var r := MergePass(s, t);
      assert r[..m] == a && r[m..] == MergePass(s[m..], t);
      if |s| <= 2 * t {
        assert r == a;
      }
    }
  }

  // Blocks that share no key

  lemma SharedPermutes(a: seq<Tuple>, b: seq<Tuple>, a': seq<Tuple>, b': seq<Tuple>)
    requires NoSharedKey(a, b) && multiset(a) == multiset(a') && multiset(b) == multiset(b')
    ensures NoSharedKey(a', b')
  {
    forall i, j | 0 <= i < |a'| && 0 <= j < |b'|
      ensures a'[i].key != b'[j].key
    {
      assert a'[i] in multiset(a') && b'[j] in multiset(b');
      assert a'[i] in a && b'[j] in b;
    }
  }

  /** Apart from two blocks means apart from both together. */
  lemma SharedSplit(s: seq<Tuple>, t: nat, m: nat)
    requires t <= m <= |s| && NoSharedKey(s[..t], s[t..])
    ensures NoSharedKey(s[..t], s[t..m]) && NoSharedKey(s[..t], s[m..])
  {
    assert forall j :: 0 <= j < m - t ==> s[t..m][j] == s[t..][j];
    assert forall j :: 0 <= j < |s| - m ==> s[m..][j] == s[t..][j + m - t];
  }

  lemma SharedJoin(s: seq<Tuple>, t: nat, m: nat)
    requires t <= m <= |s| && NoSharedKey(s[..t], s[m..]) && NoSharedKey(s[t..m], s[m..])
    ensures NoSharedKey(s[..m], s[m..])
  {
    assert forall i :: 0 <= i < m ==> s[..m][i] == if i < t then s[..t][i] else s[t..m][i - t];
  }

  /** The first two blocks and the rest. */
  lemma FirstPair(s: seq<Tuple>, t: nat)
    requires t > 0 && |s| > t && BlocksApart(s, t)
    ensures var m := Min(2 * t, |s|);
            NoSharedKey(s[..t], s[t..m]) && NoSharedKey(s[..m], s[m..]) && BlocksApart(s[m..], t)
  {
    hide NoSharedKey;
    var m, r := Min(2 * t, |s|), s[t..];
    SharedSplit(s, t, m);
    if |r| > t {
      assert r[..t] == s[t..m] && r[t..] == s[m..];
    } else {
      assert s[m..] == [];
      Unshared(s[t..m]);
    }
    SharedJoin(s, t, m);
  }

  lemma Unshared(a: seq<Tuple>)
    ensures NoSharedKey(a, [])
  {
  }

  lemma {:induction false} ApartInPairs(s: seq<Tuple>, t: nat)
    requires t > 0 && BlocksApart(s, t)
    ensures PairsApart(s, t)
    decreases |s|
  {
    hide NoSharedKey;
    if |s| > t {
      FirstPair(s, t);
      ApartInPairs(s[Min(2 * t, |s|)..], t);
    }
  }

  /** After a pass the larger blocks share no key either. */
  lemma {:induction false} PassApart(s: seq<Tuple>, t: nat)
    requires t > 0 && BlocksApart(s, t)
    ensures BlocksApart(MergePass(s, t), 2 * t)
    decreases |s|
  {
    hide NoSharedKey, Merge;
    ApartInPairs(s, t);
    PassPermutes(s, t);
    if |s| > 2 * t {
      var m := 2 * t;
      FirstPair(s, t);
      MergePermutes(s[..t], s[t..m]);
      ApartInPairs(s[m..], t);
      PassPermutes(s[m..], t);
      PassApart(s[m..], t);
      var r := MergePass(s, t);
      assert r[..m] == Merge(s[..t], s[t..m]) && r[m..] == MergePass(s[m..], t);
      assert s[..m] == s[..t] + s[t..m];
      SharedPermutes(s[..m], s[m..], r[..m], r[m..]);
    }
  }

  lemma OneBlock(s: seq<Tuple>, t: nat)
    requires t > 0 && BlocksSorted(s, t) && |s| <= t
    ensures Sorted(s)
  {
  }

  lemma SharedPair(s: seq<Tuple>, t: nat, m: nat)
    requires t <= m <= |s| && NoSharedKey(s[..t], s[t..m]) && NoSharedKey(s[..m], s[m..])
    ensures NoSharedKey(s[..t], s[t..]) && NoSharedKey(s[t..m], s[m..])
  {
    assert forall i :: 0 <= i < m ==> s[..m][i] == if i < t then s[..t][i] else s[t..m][i - t];
    assert forall i :: 0 <= i < |s| - t ==> s[t..][i] == if i < m - t then s[t..m][i] else s[m..][i - (m - t)];
  }

  lemma {:induction false} ApartBeforePass(s: seq<Tuple>, t: nat)
    requires t > 0 && PairsApart(s, t) && BlocksApart(MergePass(s, t), 2 * t)
    ensures BlocksApart(s, t)
    decreases |s|
  {
    hide NoSharedKey, Merge;
    PassPermutes(s, t);
    if |s| > t {
      var m, r := Min(2 * t, |s|), s[t..];
      MergePermutes(s[..t], s[t..m]);
      PassPermutes(s[m..], t);
      if |r| > t {
        var u := MergePass(s, t);
        assert u[..m] == Merge(s[..t], s[t..m]) && u[m..] == MergePass(s[m..], t);
        assert s[..m] == s[..t] + s[t..m];
        SharedPermutes(u[..m], u[m..], s[..m], s[m..]);
        ApartBeforePass(s[m..], t);
        assert r[..t] == s[t..m] && r[t..] == s[m..];
      } else {
        assert s[m..] == [];
        Unshared(s[..m]);
      }
      SharedPair(s, t, m);
    }
  }

  // What a pass writes

  /** The pairs of blocks merged one after the other. */
  ghost function MergePairs(s: seq<Tuple>, t: nat): (r: seq<Tuple>)
    requires t > 0
    ensures |r| <= |s|
    decreases |s|
  {
    if |s| <= t then []
    else
      var m := Min(2 * t, |s|);
      Merge(s[..t], s[t..m]) + MergePairs(s[m..], t)
  }

  /** A last block has no partner. */
  ghost predicate OddLast(s: seq<Tuple>, t: nat)
    requires t > 0
    decreases |s|
  {
    if |s| <= t then s != [] else OddLast(s[Min(2 * t, |s|)..], t)
  }

  /** What a pass over `s` makes of the district `out`: behind the merged pairs comes the
      rest of `s` from the same offset on, or what was there. */
  ghost function PassOut(s: seq<Tuple>, out: seq<Tuple>, t: nat): (r: seq<Tuple>)
    requires t > 0 && |s| == |out|
    ensures |r| == |s|
  {
    var merged := MergePairs(s, t);
    merged + (if OddLast(s, t) then s else out)[|merged|..]
  }

  /** All passes, back and forth between two districts. */
  ghost function Passes(s: seq<Tuple>, out: seq<Tuple>, t: nat): (r: seq<Tuple>)
    requires t > 0 && |s| == |out|
    ensures |r| == |s|
    decreases if |s| > t then |s| - t else 0
  {
    if |s| <= t then s else Passes(PassOut(s, out, t), s, 2 * t)
  }

  lemma {:induction false} PassIsPairs(s: seq<Tuple>, t: nat)
    requires t > 0 && PairsApart(s, t)
    ensures var merged := MergePairs(s, t);
            if OddLast(s, t) then MergePass(s, t) == merged + s[|merged|..]
            else |merged| == |s| && MergePass(s, t) == merged
    decreases |s|
  {
    hide NoSharedKey, Merge;
    if |s| > t {
      var m := Min(2 * t, |s|);
      MergePermutes(s[..t], s[t..m]);
      PassIsPairs(s[m..], t);
      PairsJoined(s, m, Merge(s[..t], s[t..m]), MergePairs(s[m..], t));
    }
  }

  lemma PairsJoined(s: seq<Tuple>, m: nat, a: seq<Tuple>, b: seq<Tuple>)
    requires |a| == m <= |s| && |b| <= |s| - m
    ensures a + (b + s[m..][|b|..]) == (a + b) + s[|a + b|..]
  {
    assert s[m..][|b|..] == s[|a + b|..];
  }

  /** Where no two blocks that it merges share a key, a pass writes the merged blocks. */
  lemma PassOutIsPass(s: seq<Tuple>, out: seq<Tuple>, t: nat)
    requires t > 0 && |s| == |out| && PairsApart(s, t)
    ensures PassOut(s, out, t) == MergePass(s, t)
  {
    hide MergePairs, OddLast, MergePass, PairsApart;
    PassIsPairs(s, t);
  }

  /** No pass of the sort overwrites a tuple that it has written. */
  ghost predicate OverwritesNone(s: seq<Tuple>, out: seq<Tuple>, t: nat)
    requires t > 0 && |s| == |out|
    decreases if |s| > t then |s| - t else 0
  {
    |s| > t ==> |MergePass(s, t)| == |s| && OverwritesNone(PassOut(s, out, t), s, 2 * t)
  }

  /** The passes overwrite no tuple exactly when no two initial runs share a key. */
  lemma {:induction false} SortLosesIff(s: seq<Tuple>, out: seq<Tuple>, t: nat)
    requires t > 0 && BlocksSorted(s, t) && |s| == |out|
    ensures OverwritesNone(s, out, t) <==> BlocksApart(s, t)
    decreases if |s| > t then |s| - t else 0
  {
    hide NoSharedKey, Merge, MergePass, BlocksSorted, PassOut;
    if |s| > t {
      PassLosesIff(s, t);
      if BlocksApart(s, t) {
        ApartInPairs(s, t);
        PassApart(s, t);
      }
      if PairsApart(s, t) {
        PassOutIsPass(s, out, t);
        PassSorts(s, t);
        SortLosesIff(MergePass(s, t), s, 2 * t);
        if OverwritesNone(s, out, t) { ApartBeforePass(s, t); }
      }
    }
  }

  /** Then the result is a sorted permutation. */
  lemma {:induction false} PassesSort(s: seq<Tuple>, out: seq<Tuple>, t: nat)
    requires t > 0 && BlocksSorted(s, t) && BlocksApart(s, t) && |s| == |out|
    ensures Sorted(Passes(s, out, t)) && multiset(Passes(s, out, t)) == multiset(s)
    decreases if |s| > t then |s| - t else 0
  {
    hide NoSharedKey, Merge, MergePass, BlocksSorted, BlocksApart, PairsApart, PassOut, Sorted;
    if |s| > t {
      ApartInPairs(s, t);
      PassOutIsPass(s, out, t);
      PassPermutes(s, t);
      PassSorts(s, t);
      PassApart(s, t);
      PassesSort(MergePass(s, t), s, 2 * t);
    } else {
      OneBlock(s, t);
    }
  }

  // Inputs of which tuples are overwritten

  /** The tuples that a merge overwrites. */
  ghost function Lost(a: seq<Tuple>, b: seq<Tuple>): seq<Tuple>
    decreases |a| + |b|
  {
    if a == [] || b == [] then []
    else if a[0].key < b[0].key then Lost(a[1..], b)
    else if a[0].key > b[0].key then Lost(a, b[1..])
    else [a[0]] + Lost(a[1..], b[1..])
  }

  /** `m` and `l` together hold the tuples of `a` and `b`. */
  ghost predicate Conserved(m: seq<Tuple>, l: seq<Tuple>, a: seq<Tuple>, b: seq<Tuple>) {
    multiset(m) + multiset(l) == multiset(a) + multiset(b) && |m| + |l| == |a| + |b|
  }

  lemma TakeLeft(m: seq<Tuple>, l: seq<Tuple>, a: seq<Tuple>, b: seq<Tuple>)
    requires a != [] && Conserved(m, l, a[1..], b)
    ensures Conserved([a[0]] + m, l, a, b)
  {
    Head(a[0], m, l);
    assert a == [a[0]] + a[1..];
    Head(a[0], a[1..], b);
  }

  lemma TakeRight(m: seq<Tuple>, l: seq<Tuple>, a: seq<Tuple>, b: seq<Tuple>)
    requires b != [] && Conserved(m, l, a, b[1..])
    ensures Conserved([b[0]] + m, l, a, b)
  {
    Head(b[0], m, l);
    assert b == [b[0]] + b[1..];
    Head(b[0], b[1..], a);
    assert multiset(a) + multiset(b) == multiset(b) + multiset(a);
  }

  lemma TakeLost(m: seq<Tuple>, l: seq<Tuple>, a: seq<Tuple>, b: seq<Tuple>)
    requires a != [] && Conserved(m, l, a[1..], b)
    ensures Conserved(m, [a[0]] + l, a, b)
  {
    Head(a[0], l, m);
    assert multiset(m) + multiset(l) == multiset(l) + multiset(m);
    assert multiset(m) + multiset([a[0]] + l) == multiset([a[0]] + l) + multiset(m);
    assert a == [a[0]] + a[1..];
    Head(a[0], a[1..], b);
  }

  lemma Head(x: Tuple, s: seq<Tuple>, r: seq<Tuple>)
    ensures multiset([x] + s) + multiset(r) == multiset{x} + (multiset(s) + multiset(r))
  {
    assert multiset([x] + s) == multiset{x} + multiset(s);
  }

  /** A merge keeps every tuple or overwrites it. */
  lemma {:induction false} MergeConserves(a: seq<Tuple>, b: seq<Tuple>)
    ensures Conserved(Merge(a, b), Lost(a, b), a, b)
    decreases |a| + |b|
  {
    if a == [] || b == [] {
      assert Merge(a, b) == a + b;
    } else {
      hide Conserved;
      if a[0].key < b[0].key {
        MergeConserves(a[1..], b);
        TakeLeft(Merge(a[1..], b), Lost(a[1..], b), a, b);
      } else if a[0].key > b[0].key {
        MergeConserves(a, b[1..]);
        TakeRight(Merge(a, b[1..]), Lost(a, b[1..]), a, b);
      } else {
        MergeConserves(a[1..], b[1..]);
        TakeLost(Merge(a[1..], b[1..]), Lost(a[1..], b[1..]), a, b[1..]);
        TakeRight(Merge(a[1..], b[1..]), [a[0]] + Lost(a[1..], b[1..]), a, b);
      }
    }
  }

  /** Two runs: the output is a permutation of the input exactly when every tuple that is
      overwritten is equal to the filler of the second district. */
  lemma TwoRuns(s: seq<Tuple>, filler: Tuple, t: nat)
    requires t > 0 && t < |s| <= 2 * t
    ensures multiset(Passes(s, seq(|s|, _ => filler), t)) == multiset(s)
            <==> forall x :: x in Lost(s[..t], s[t..]) ==> x == filler
  {
    hide Merge, Lost, Passes;
    var a, b, out := s[..t], s[t..], seq(|s|, _ => filler);
    MergeConserves(a, b);
    TwoRunsOut(s, out, t);
    assert s == a + b;
    FilledUp(Merge(a, b), Lost(a, b), out[|Merge(a, b)|..], s, filler);
  }

  lemma FilledUp(merged: seq<Tuple>, lost: seq<Tuple>, rest: seq<Tuple>, s: seq<Tuple>, filler: Tuple)
    requires Conserved(merged, lost, s, []) && |rest| == |lost| && AllEqual(rest, filler)
    ensures multiset(merged + rest) == multiset(s) <==> forall x :: x in lost ==> x == filler
  {
    assert multiset(s) == multiset(merged) + multiset(lost);
    assert multiset(merged + rest) == multiset(merged) + multiset(rest);
    if forall x :: x in lost ==> x == filler {
      forall i | 0 <= i < |lost|
        ensures lost[i] == rest[i]
      {
        assert lost[i] in lost;
      }
      assert lost == rest;
    }
    if multiset(merged) + multiset(rest) == multiset(merged) + multiset(lost) {
      MultisetCancels(multiset(merged), multiset(rest), multiset(lost));
      forall x | x in lost
        ensures x == filler
      {
        assert multiset(lost)[x] > 0;
        assert x in multiset(rest);
      }
    }
  }

  lemma MultisetCancels(m: multiset<Tuple>, a: multiset<Tuple>, b: multiset<Tuple>)
    requires m + a == m + b
    ensures a == b
  {
    assert a == (m + a) - m && b == (m + b) - m;
  }

  // Any number of runs: conservation over all passes

  /** The tuples that the merged pairs of a pass lack: those that are overwritten, and a last
      block without a partner. */
  ghost function Unmerged(s: seq<Tuple>, t: nat): seq<Tuple>
    requires t > 0
    decreases |s|
  {
    if |s| <= t then s
    else
      var m := Min(2 * t, |s|);
      Lost(s[..t], s[t..m]) + Unmerged(s[m..], t)
  }

  /** What a pass leaves behind the merged pairs. */
  ghost function Filling(s: seq<Tuple>, out: seq<Tuple>, t: nat): seq<Tuple>
    requires t > 0 && |s| == |out|
  {
    PassOut(s, out, t)[|MergePairs(s, t)|..]
  }

  lemma {:induction false} PairsConserve(s: seq<Tuple>, t: nat)
    requires t > 0
    ensures Conserved(MergePairs(s, t), Unmerged(s, t), s, [])
    decreases |s|
  {
    hide Merge, Lost;
    if |s| > t {
      hide Conserved;
      var m := Min(2 * t, |s|);
      MergeConserves(s[..t], s[t..m]);
      PairsConserve(s[m..], t);
      BothConserved(Merge(s[..t], s[t..m]), Lost(s[..t], s[t..m]), s[..t], s[t..m], MergePairs(s[m..], t),
                    Unmerged(s[m..], t), s[m..]);
      assert s == s[..t] + s[t..m] + s[m..];
    }
  }

  lemma BothConserved(m: seq<Tuple>, l: seq<Tuple>, a: seq<Tuple>, b: seq<Tuple>, m': seq<Tuple>, l': seq<Tuple>,
                      c: seq<Tuple>)
    requires Conserved(m, l, a, b) && Conserved(m', l', c, [])
    ensures Conserved(m + m', l + l', a + b + c, [])
  {
    assert multiset(m + m') == multiset(m) + multiset(m') && multiset(l + l') == multiset(l) + multiset(l');
    assert multiset(a + b + c) == multiset(a) + multiset(b) + multiset(c);
    assert multiset(m) + multiset(m') + (multiset(l) + multiset(l'))
        == multiset(m) + multiset(l) + (multiset(m') + multiset(l'));
  }

  /** A pass permutes its tuples exactly when what it leaves behind the merged pairs is what
      these lack. */
  lemma PassPermutesIff(s: seq<Tuple>, out: seq<Tuple>, t: nat)
    requires t > 0 && |s| == |out|
    ensures multiset(PassOut(s, out, t)) + multiset(Unmerged(s, t)) == multiset(s) + multiset(Filling(s, out, t))
    ensures multiset(PassOut(s, out, t)) == multiset(s) <==> multiset(Filling(s, out, t)) == multiset(Unmerged(s, t))
  {
    hide MergePairs, Unmerged;
    PairsConserve(s, t);
    var merged, rest := MergePairs(s, t), Filling(s, out, t);
    assert PassOut(s, out, t) == merged + rest;
    if multiset(merged) + multiset(rest) == multiset(merged) + multiset(Unmerged(s, t)) {
      MultisetCancels(multiset(merged), multiset(rest), multiset(Unmerged(s, t)));
    }
  }

  /** What the merged pairs of all passes lack, and what the passes leave in its place. */
  ghost function AllUnmerged(s: seq<Tuple>, out: seq<Tuple>, t: nat): multiset<Tuple>
    requires t > 0 && |s| == |out|
    decreases if |s| > t then |s| - t else 0
  {
    if |s| <= t then multiset{} else multiset(Unmerged(s, t)) + AllUnmerged(PassOut(s, out, t), s, 2 * t)
  }

  ghost function AllFilling(s: seq<Tuple>, out: seq<Tuple>, t: nat): multiset<Tuple>
    requires t > 0 && |s| == |out|
    decreases if |s| > t then |s| - t else 0
  {
    if |s| <= t then multiset{} else multiset(Filling(s, out, t)) + AllFilling(PassOut(s, out, t), s, 2 * t)
  }

  lemma {:induction false} PassesConserve(s: seq<Tuple>, out: seq<Tuple>, t: nat)
    requires t > 0 && |s| == |out|
    ensures multiset(Passes(s, out, t)) + AllUnmerged(s, out, t) == multiset(s) + AllFilling(s, out, t)
    decreases if |s| > t then |s| - t else 0
  {
    hide PassOut, Unmerged, Filling;
    if |s| > t {
      PassPermutesIff(s, out, t);
      PassesConserve(PassOut(s, out, t), s, 2 * t);
      Telescopes(multiset(s), multiset(PassOut(s, out, t)), multiset(Passes(s, out, t)), multiset(Unmerged(s, t)),
                 AllUnmerged(PassOut(s, out, t), s, 2 * t), multiset(Filling(s, out, t)),
                 AllFilling(PassOut(s, out, t), s, 2 * t));
    }
  }

  lemma Telescopes(a: multiset<Tuple>, b: multiset<Tuple>, c: multiset<Tuple>, u: multiset<Tuple>, v: multiset<Tuple>,
                   f: multiset<Tuple>, g: multiset<Tuple>)
    requires b + u == a + f && c + v == b + g
    ensures c + (u + v) == a + (f + g)
  {
    assert c + (u + v) == (c + v) + u == (b + g) + u == (b + u) + g;
  }

  /** The sort of any number of runs permutes its input exactly when the tuples that the
      passes leave behind their merged pairs are, all together, those that the pairs lack. */
  lemma SortPermutesIff(s: seq<Tuple>, out: seq<Tuple>, t: nat)
    requires t > 0 && |s| == |out|
    ensures multiset(Passes(s, out, t)) == multiset(s) <==> AllUnmerged(s, out, t) == AllFilling(s, out, t)
  {
    hide Passes, AllUnmerged, AllFilling;
    PassesConserve(s, out, t);
    if multiset(Passes(s, out, t)) == multiset(s) {
      MultisetCancels(multiset(s), AllUnmerged(s, out, t), AllFilling(s, out, t));
    }
    if AllUnmerged(s, out, t) == AllFilling(s, out, t) {
      var f := AllFilling(s, out, t);
      assert f + multiset(Passes(s, out, t)) == multiset(Passes(s, out, t)) + f && f + multiset(s) == multiset(s) + f;
      MultisetCancels(f, multiset(Passes(s, out, t)), multiset(s));
    }
  }

  lemma TwoRunsOut(s: seq<Tuple>, out: seq<Tuple>, t: nat)
    requires t > 0 && t < |s| <= 2 * t && |s| == |out|
    ensures |Merge(s[..t], s[t..])| <= |s|
    ensures Passes(s, out, t) == Merge(s[..t], s[t..]) + out[|Merge(s[..t], s[t..])|..]
  {
    hide Merge;
    var m := Min(2 * t, |s|);
    assert m == |s| && s[m..] == [] && s[t..m] == s[t..];
    assert MergePairs(s[m..], t) == [] && !OddLast(s[m..], t);
    assert MergePairs(s, t) == Merge(s[..t], s[t..]);
    assert !OddLast(s, t);
  }

  /** All tuples equal: the runs share their only key. */
  ghost predicate AllEqual(s: seq<Tuple>, x: Tuple) {
    forall i :: 0 <= i < |s| ==> s[i] == x
  }

  lemma {:induction false} MergeEqual(a: seq<Tuple>, b: seq<Tuple>, x: Tuple)
    requires AllEqual(a, x) && AllEqual(b, x)
    ensures AllEqual(Merge(a, b), x)
    decreases |a| + |b|
  {
    if a != [] && b != [] { MergeEqual(a[1..], b[1..], x); }
  }

  lemma {:induction false} PairsEqual(s: seq<Tuple>, t: nat, x: Tuple)
    requires t > 0 && AllEqual(s, x)
    ensures AllEqual(MergePairs(s, t), x)
    decreases |s|
  {
    hide Merge;
    if |s| > t {
      var m := Min(2 * t, |s|);
      MergeEqual(s[..t], s[t..m], x);
      PairsEqual(s[m..], t, x);
    }
  }

  /** An input of nothing but fillers is returned as it is, although its runs share a key. */
  lemma {:induction false} PassesEqual(s: seq<Tuple>, out: seq<Tuple>, t: nat, x: Tuple)
    requires t > 0 && |s| == |out| && AllEqual(s, x) && AllEqual(out, x)
    ensures Passes(s, out, t) == s
    decreases if |s| > t then |s| - t else 0
  {
    if |s| > t {
      PairsEqual(s, t, x);
      assert AllEqual(PassOut(s, out, t), x);
      PassesEqual(PassOut(s, out, t), s, 2 * t, x);
    }
  }

  // The sort of one block in memory

  function Insert(x: Tuple, s: seq<Tuple>): seq<Tuple> {
    if s == [] then [x] else if x.key <= s[0].key then [x] + s else [s[0]] + Insert(x, s[1..])
  }

  lemma {:induction false} InsertAtLeast(k: int, x: Tuple, s: seq<Tuple>)
    requires AtLeast(k, s) && k <= x.key
    ensures AtLeast(k, Insert(x, s))
  {
    if s != [] && x.key > s[0].key { InsertAtLeast(k, x, s[1..]); }
  }

  lemma {:induction false} InsertOk(x: Tuple, s: seq<Tuple>)
    requires Sorted(s)
    ensures Sorted(Insert(x, s)) && multiset(Insert(x, s)) == multiset(s) + multiset{x}
  {
    if s != [] {
      HeadLeast(s);
      assert s == [s[0]] + s[1..];
      if x.key <= s[0].key {
        ConsSorted(x, s);
      } else {
        InsertOk(x, s[1..]);
        InsertAtLeast(s[0].key, x, s[1..]);
        ConsSorted(s[0], Insert(x, s[1..]));
      }
    }
  }

  /** Stands for `std::sort`, of which only `SortBlockOk` is used. */
  function SortBlock(s: seq<Tuple>): seq<Tuple> {
    if s == [] then [] else Insert(s[|s| - 1], SortBlock(s[..|s| - 1]))
  }

  lemma {:induction false} SortBlockOk(s: seq<Tuple>)
    ensures Sorted(SortBlock(s)) && multiset(SortBlock(s)) == multiset(s)
  {
    hide Insert;
    if s != [] {
      var n := |s| - 1;
      SortBlockOk(s[..n]);
      InsertOk(s[n], SortBlock(s[..n]));
      assert s == s[..n] + [s[n]];
    }
  }

  /** Every block of `t` tuples sorted by itself. */
  function SortRuns(s: seq<Tuple>, t: nat): seq<Tuple>
    requires t > 0
    decreases |s|
  {
    if |s| <= t then SortBlock(s) else SortBlock(s[..t]) + SortRuns(s[t..], t)
  }

  lemma SameLength(a: seq<Tuple>, b: seq<Tuple>)
    requires multiset(a) == multiset(b)
    ensures |a| == |b|
  {
    assert |multiset(a)| == |a| && |multiset(b)| == |b|;
  }

  /** The initial runs are a permutation of the input, block by block. */
  lemma {:induction false} SortRunsOk(s: seq<Tuple>, t: nat)
    requires t > 0
    ensures multiset(SortRuns(s, t)) == multiset(s) && |SortRuns(s, t)| == |s| && BlocksSorted(SortRuns(s, t), t)
    ensures BlocksApart(s, t) <==> BlocksApart(SortRuns(s, t), t)
    decreases |s|
  {
    hide NoSharedKey, SortBlock, Sorted;
    var r := SortRuns(s, t);
    if |s| <= t {
      SortBlockOk(s);
      SameLength(r, s);
    } else {
      SortBlockOk(s[..t]);
      SameLength(SortBlock(s[..t]), s[..t]);
      SortRunsOk(s[t..], t);
      assert s == s[..t] + s[t..];
      assert r[..t] == SortBlock(s[..t]) && r[t..] == SortRuns(s[t..], t);
      if BlocksApart(s, t) { SharedPermutes(s[..t], s[t..], r[..t], r[t..]); }
      if BlocksApart(r, t) { SharedPermutes(r[..t], r[t..], s[..t], s[t..]); }
    }
  }

  /** One more run: the runs of the rest of the input. */
  lemma NextRun(s: seq<Tuple>, pos: nat, end: nat, t: nat)
    requires t > 0 && pos < |s| && end == Min(pos + t, |s|)
    ensures SortRuns(s[pos..], t) == SortBlock(s[pos..end]) + SortRuns(s[end..], t)
    ensures |SortBlock(s[pos..end])| == end - pos
  {
    hide SortBlock;
    var r := s[pos..];
    SortBlockOk(s[pos..end]);
    SameLength(SortBlock(s[pos..end]), s[pos..end]);
    if |r| <= t {
      assert r == s[pos..end] && s[end..] == [];
      SortBlockOk([]);
      SameLength(SortBlock([]), []);
    } else {
      assert r[..t] == s[pos..end] && r[t..] == s[end..];
    }
  }
}
