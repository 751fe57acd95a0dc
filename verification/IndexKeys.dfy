/** Composite index keys over INT columns, their order, and the integer that stands for a
    key in the model of the tree. */
module IndexKeys {
  import opened Defs
  const WIDTH: int := 0x1_0000_0000

  predicate InDomain(a: seq<int>) {
    forall i :: 0 <= i < |a| ==> INT_MIN <= a[i] <= INT_MAX
  }

  /** Lexicographic order of keys of one length: the first difference decides. */
  ghost predicate LexLess(a: seq<int>, b: seq<int>)
    requires |a| == |b|
  {
    exists j :: 0 <= j < |a| && a[..j] == b[..j] && a[j] < b[j]
  }

  /** `ix_compare`: column by column until they differ. */
  method IxCompare(a: seq<int>, b: seq<int>) returns (res: int)
    requires |a| == |b|
    ensures res < 0 <==> LexLess(a, b)
    ensures res > 0 <==> LexLess(b, a)
    ensures res == 0 <==> a == b
  {
    for i := 0 to |a|
      invariant a[..i] == b[..i]
    {
      res := if a[i] < b[i] then -1 else if a[i] > b[i] then 1 else 0;
      if res != 0 {
        DifferAt(a, b, i);
        return;
      }
    }
    assert a[..|a|] == a && b[..|b|] == b;
    Irreflexive(a);
    res := 0;
  }

  lemma DifferAt(a: seq<int>, b: seq<int>, i: nat)
    requires i < |a| == |b| && a[..i] == b[..i] && a[i] != b[i]
    ensures LexLess(a, b) <==> a[i] < b[i]
    ensures LexLess(b, a) <==> b[i] < a[i]
  {
    forall j | 0 <= j < |a|
      ensures j < i ==> a[j] == b[j]
      ensures i < j ==> a[..j] != b[..j]
    {
      assert j < i ==> a[j] == a[..i][j] && b[j] == b[..i][j];
      assert i < j ==> a[..j][i] == a[i] && b[..j][i] == b[i];
    }
  }

  lemma Irreflexive(a: seq<int>)
    ensures !LexLess(a, a)
  {
  }

  function Encode(a: seq<int>): int {
    if a == [] then 0 else Encode(a[..|a| - 1]) * WIDTH + a[|a| - 1]
  }

  lemma {:induction false} LexLast(a: seq<int>, b: seq<int>)
    requires |a| == |b| > 0
    ensures var n := |a| - 1; LexLess(a, b) <==> LexLess(a[..n], b[..n]) || (a[..n] == b[..n] && a[n] < b[n])
  {
    var n := |a| - 1;
    if LexLess(a, b) {
      var j :| 0 <= j < |a| && a[..j] == b[..j] && a[j] < b[j];
      if j < n {
        assert a[..n][..j] == a[..j] && b[..n][..j] == b[..j];
      }
    }
    if LexLess(a[..n], b[..n]) {
      var j :| 0 <= j < n && a[..n][..j] == b[..n][..j] && a[..n][j] < b[..n][j];
      assert a[..n][..j] == a[..j] && b[..n][..j] == b[..j];
    }
  }

  /** The encoding keeps order and tells keys apart. */
  lemma {:induction false} EncodeOrder(a: seq<int>, b: seq<int>)
    requires |a| == |b| && InDomain(a) && InDomain(b)
    ensures Encode(a) < Encode(b) <==> LexLess(a, b)
    ensures Encode(a) == Encode(b) <==> a == b
  {
    hide LexLess;
    if |a| == 0 {
      Irreflexive(a);
    } else {
      var n := |a| - 1;
      EncodeOrder(a[..n], b[..n]);
      LexLast(a, b);
      assert a == a[..n] + [a[n]] && b == b[..n] + [b[n]];
      DigitOrder(Encode(a[..n]), a[n], Encode(b[..n]), b[n]);
    }
  }

  lemma DigitOrder(x: int, d: int, y: int, e: int)
    requires INT_MIN <= d <= INT_MAX && INT_MIN <= e <= INT_MAX
    ensures x * WIDTH + d < y * WIDTH + e <==> x < y || (x == y && d < e)
    ensures x * WIDTH + d == y * WIDTH + e <==> x == y && d == e
  {
    if x < y {
      assert (x + 1) * WIDTH <= y * WIDTH;
    } else if y < x {
      assert (y + 1) * WIDTH <= x * WIDTH;
    }
  }

  /** The all-zero key is encoded as 0. */
  lemma {:induction false} EncodeZero(a: seq<int>)
    requires InDomain(a)
    ensures Encode(a) == 0 <==> forall i :: 0 <= i < |a| ==> a[i] == 0
  {
    if |a| > 0 {
      var n := |a| - 1;
      EncodeZero(a[..n]);
      DigitOrder(Encode(a[..n]), a[n], 0, 0);
      assert forall i :: 0 <= i < n ==> a[..n][i] == a[i];
    }
  }
}
