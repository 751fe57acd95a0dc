/** The external sort: sorted runs in one district of a temporary file, then merge passes
    back and forth between two districts. */
module SortExecutor {
  import opened Defs
  import opened MergeSort

  const BLOCK_SIZE_MIN: nat := 100

  function CeilInt(a: int, b: int): int
    requires b > 0
  {
    (a + b - 1) / b
  }

  lemma CeilOk(a: nat, b: nat)
    requires b > 0
    ensures CeilInt(a, b) >= 0 && Mul(CeilInt(a, b), b) >= a > Mul(CeilInt(a, b) - 1, b)
  {
    var q, r := (a + b - 1) / b, (a + b - 1) % b;
    assert a + b - 1 == q * b + r;
  }

  /** Where the file keeps a tuple of a district. */
  function Slot(offset: int, district: int, n: int): int {
    offset + district * n
  }

  ghost function District(tmp: seq<Tuple>, n: nat, d: int): (s: seq<Tuple>)
    requires |tmp| == 2 * n && (d == 0 || d == 1)
    ensures |s| == n
  {
    if d == 0 then tmp[..n] else tmp[n..]
  }

  lemma SlotOf(tmp: seq<Tuple>, n: nat, d: int, offset: nat)
    requires |tmp| == 2 * n && (d == 0 || d == 1) && offset < n
    ensures 0 <= Slot(offset, d, n) < |tmp| && tmp[Slot(offset, d, n)] == District(tmp, n, d)[offset]
  {
  }

  lemma AllSlots(tmp: seq<Tuple>, n: nat, d: int)
    requires |tmp| == 2 * n && (d == 0 || d == 1)
    ensures forall i :: 0 <= i < n ==> 0 <= Slot(i, d, n) < |tmp| && tmp[Slot(i, d, n)] == District(tmp, n, d)[i]
  {
    hide Slot, District;
    forall i | 0 <= i < n
      ensures 0 <= Slot(i, d, n) < |tmp| && tmp[Slot(i, d, n)] == District(tmp, n, d)[i]
    {
      SlotOf(tmp, n, d, i);
    }
  }

  lemma FirstSlots(tmp: seq<Tuple>)
    ensures forall i :: 0 <= i < |tmp| ==> Slot(i, 0, |tmp|) == i
  {
  }

  /** Writing to one district does not touch the other. */
  lemma WriteSlot(tmp: seq<Tuple>, n: nat, d: int, offset: nat, x: Tuple)
    requires |tmp| == 2 * n && (d == 0 || d == 1) && offset < n
    ensures 0 <= Slot(offset, d, n) < |tmp|
    ensures var tmp' := tmp[Slot(offset, d, n) := x];
            && District(tmp', n, d) == District(tmp, n, d)[offset := x]
            && District(tmp', n, 1 - d) == District(tmp, n, 1 - d)
  {
  }

  class SortExecutor {
    const tupPerPage: nat
    const input: seq<Tuple>
    /** The tuple whose bytes are all zero. */
    const zero: Tuple
    var tmp: seq<Tuple>
    var tupleNum: nat
    var prevDistrict: int
    var currDistrict: int
    var curTup: nat

    constructor (tupleLen: nat, input: seq<Tuple>, zero: Tuple)
      requires 0 < tupleLen <= PAGE_SIZE
      ensures this.input == input && this.zero == zero && tupPerPage > 0
    {
      tupPerPage := PAGE_SIZE / tupleLen;
      this.input, this.zero := input, zero;
      tmp, tupleNum, prevDistrict, currDistrict, curTup := [], 0, 0, 1, 0;
    }

    /** Reads the child in blocks and writes each block sorted to the first district. */
    method LoadRuns()
      requires tupPerPage > 0
      modifies this`tmp, this`tupleNum
      ensures Mul(BLOCK_SIZE_MIN, tupPerPage) > 0
      ensures tupleNum == |tmp| == |input| && tmp == SortRuns(input, Mul(BLOCK_SIZE_MIN, tupPerPage))
    {
      hide SortRuns, Mul, SortBlock, Loaded;
      var tupPerBlock := Mul(BLOCK_SIZE_MIN, tupPerPage);
      Multiply(BLOCK_SIZE_MIN, tupPerPage);
      tmp, tupleNum := [], 0;
      var pos := 0;
      LoadedNone(input, tupPerBlock);
      while pos < |input|
        invariant 0 <= pos <= |input| && |tmp| == pos == tupleNum && Loaded(input, tmp, pos, tupPerBlock)
        decreases |input| - pos
      {
        var end := Min(pos + tupPerBlock, |input|);
        var records := SortBlock(input[pos..end]);
        LoadedNext(input, tmp, pos, end, tupPerBlock);
        tmp := tmp + records;
        tupleNum := tupleNum + |records|;
        pos := end;
      }
      LoadedAll(input, tmp, tupPerBlock);
    }

    ghost predicate Ready()
      reads this
    {
      |tmp| == 2 * tupleNum && (prevDistrict == 0 || prevDistrict == 1) && currDistrict == 1 - prevDistrict
    }

    /** One step of a merge: the smaller tuple is written at the offset, or both, one over
        the other. */
    method MergeOne(left: nat, leftEnd: nat, right: nat, rightEnd: nat, offset: nat) returns (l: nat, r: nat)
      requires Ready() && left <= leftEnd <= tupleNum && right <= rightEnd <= tupleNum && offset < tupleNum
      requires left < leftEnd || right < rightEnd
      modifies this`tmp
      ensures Ready() && District(tmp, tupleNum, prevDistrict) == old(District(tmp, tupleNum, prevDistrict))
      ensures left <= l <= leftEnd && right <= r <= rightEnd && left + right < l + r
      ensures var s, out := District(tmp, tupleNum, prevDistrict), District(tmp, tupleNum, currDistrict);
              && out == old(District(tmp, tupleNum, currDistrict))[offset := out[offset]]
              && Merge(s[left..leftEnd], s[right..rightEnd]) == [out[offset]] + Merge(s[l..leftEnd], s[r..rightEnd])
    {
      hide District, Slot, Merge;
      MergeStep(District(tmp, tupleNum, prevDistrict), left, leftEnd, right, rightEnd);
      l, r := left, right;
      if l >= leftEnd {
        SlotOf(tmp, tupleNum, prevDistrict, r);
        Put(offset, tmp[Slot(r, prevDistrict, tupleNum)]);
        r := r + 1;
        return;
      }
      if r >= rightEnd {
        SlotOf(tmp, tupleNum, prevDistrict, l);
        Put(offset, tmp[Slot(l, prevDistrict, tupleNum)]);
        l := l + 1;
        return;
      }
      SlotOf(tmp, tupleNum, prevDistrict, l);
      SlotOf(tmp, tupleNum, prevDistrict, r);
      var leftData, rightData := tmp[Slot(l, prevDistrict, tupleNum)], tmp[Slot(r, prevDistrict, tupleNum)];
      if leftData.key < rightData.key {
        Put(offset, leftData);
        l := l + 1;
      } else if leftData.key > rightData.key {
        Put(offset, rightData);
        r := r + 1;
      } else {
        Put(offset, leftData);
        Put(offset, rightData);
        l, r := l + 1, r + 1;
      }
    }

    /** Merges two neighbouring blocks of the previous district to the current one. */
    method MergePair(left: nat, leftEnd: nat, right: nat, rightEnd: nat, start: nat) returns (offset: nat)
      requires Ready() && start <= left <= leftEnd == right <= rightEnd <= tupleNum
      modifies this`tmp
      ensures Ready() && District(tmp, tupleNum, prevDistrict) == old(District(tmp, tupleNum, prevDistrict))
      ensures start <= offset <= rightEnd
      ensures var s, out := District(tmp, tupleNum, prevDistrict), District(tmp, tupleNum, currDistrict);
              var was := old(District(tmp, tupleNum, currDistrict));
              out == was[..start] + Merge(s[left..leftEnd], s[right..rightEnd]) + was[offset..]
      ensures var s := District(tmp, tupleNum, prevDistrict);
              offset == start + |Merge(s[left..leftEnd], s[right..rightEnd])|
    {
      hide District, Slot, Merge, MergedTo;
      ghost var s, was := District(tmp, tupleNum, prevDistrict), District(tmp, tupleNum, currDistrict);
      ghost var total := was[..start] + Merge(s[left..leftEnd], s[right..rightEnd]);
      var l, r := left, right;
      offset := start;
      MergedNone(was, start, Merge(s[left..leftEnd], s[right..rightEnd]));
      while l < leftEnd || r < rightEnd
        invariant left <= l <= leftEnd && right <= r <= rightEnd && start <= offset <= start + (l - left) + (r - right)
        invariant Ready() && District(tmp, tupleNum, prevDistrict) == s && offset <= tupleNum
        invariant var merged := Merge(s[l..leftEnd], s[r..rightEnd]);
                  MergedTo(District(tmp, tupleNum, currDistrict), was, offset, merged, total)
        decreases leftEnd - l + rightEnd - r
      {
        ghost var out, rest := District(tmp, tupleNum, currDistrict), Merge(s[l..leftEnd], s[r..rightEnd]);
        l, r := MergeOne(l, leftEnd, r, rightEnd, offset);
        MergedPut(out, District(tmp, tupleNum, currDistrict), was, offset, rest, Merge(s[l..leftEnd], s[r..rightEnd]),
                  total);
        offset := offset + 1;
      }
      MergeStep(s, l, leftEnd, r, rightEnd);
      MergedAll(District(tmp, tupleNum, currDistrict), was, offset, total);
    }

    /** Copies the rest of the previous district, from the same offset on. */
    method CopyTail(start: nat)
      requires Ready() && start <= tupleNum
      modifies this`tmp
      ensures Ready() && District(tmp, tupleNum, prevDistrict) == old(District(tmp, tupleNum, prevDistrict))
      ensures var s, out := District(tmp, tupleNum, prevDistrict), District(tmp, tupleNum, currDistrict);
              out == old(District(tmp, tupleNum, currDistrict))[..start] + s[start..]
    {
      hide District, Slot;
      ghost var s, done := District(tmp, tupleNum, prevDistrict), District(tmp, tupleNum, currDistrict)[..start];
      var offset := start;
      while offset < tupleNum
        invariant Ready() && start <= offset <= tupleNum && District(tmp, tupleNum, prevDistrict) == s
        invariant District(tmp, tupleNum, currDistrict)[..offset] == done + s[start..offset]
      {
        SlotOf(tmp, tupleNum, prevDistrict, offset);
        assert s[start..offset + 1] == s[start..offset] + [s[offset]];
        ghost var out := District(tmp, tupleNum, currDistrict);
        Put(offset, tmp[Slot(offset, prevDistrict, tupleNum)]);
        assert District(tmp, tupleNum, currDistrict)[..offset + 1] == out[..offset] + [s[offset]];
        offset := offset + 1;
      }
    }

    /** One pass over all pairs of blocks. */
    method Pass(blockSize: nat, numPages: nat)
      requires Ready() && tupPerPage > 0 && blockSize > 0 && Mul(blockSize, tupPerPage) > 0
      requires numPages == CeilInt(tupleNum, tupPerPage)
      modifies this`tmp
      ensures Ready() && District(tmp, tupleNum, prevDistrict) == old(District(tmp, tupleNum, prevDistrict))
      ensures District(tmp, tupleNum, currDistrict)
           == PassOut(District(tmp, tupleNum, prevDistrict), old(District(tmp, tupleNum, currDistrict)),
                      Mul(blockSize, tupPerPage))
    {
      hide District, Merge, PassOut, CeilInt, Mul, Passed;
      ghost var s, was := District(tmp, tupleNum, prevDistrict), District(tmp, tupleNum, currDistrict);
      var n, t := tupleNum, Mul(blockSize, tupPerPage);
      Multiply(blockSize, tupPerPage);
      Multiply(0, t);
      var numBlock := CeilInt(numPages, blockSize);
      var offset, leftOffset, rightOffset := 0, 0, t;
      var bid := 0;
      PassedNone(s, was, t);
      BlockBounds(n, tupPerPage, numPages, blockSize, numBlock, bid);
      while bid < numBlock
        invariant 0 <= bid && Ready() && District(tmp, n, prevDistrict) == s
        invariant 0 <= offset <= Min(n, Mul(bid, t))
        invariant bid < numBlock ==> leftOffset == Mul(bid, t) < n && rightOffset == leftOffset + t
        invariant Passed(s, was, District(tmp, n, currDistrict), offset, Min(n, Mul(bid, t)), t)
        invariant bid >= numBlock ==> n <= Mul(bid, t)
        decreases numBlock - bid
      {
        Multiply(bid, t);
        var leftEnd, rightEnd := Min(n, Mul(bid + 1, t)), Min(n, Mul(bid + 2, t));
        ghost var before, start := District(tmp, n, currDistrict), offset;
        if leftEnd == rightEnd {
          CopyTail(offset);
          PassedTail(s, was, before, District(tmp, n, currDistrict), offset, leftOffset, t);
          return;
        }
        offset := MergePair(leftOffset, leftEnd, rightOffset, rightEnd, offset);
        PassedPair(s, was, before, District(tmp, n, currDistrict), start, offset, leftOffset, t);
        leftOffset, rightOffset := leftEnd + t, rightEnd + t;
        bid := bid + 2;
        BlockBounds(n, tupPerPage, numPages, blockSize, numBlock, bid);
      }
      PassedAll(s, was, District(tmp, n, currDistrict), offset, t);
    }

    /** `modify_tuple` in the current district. */
    method Put(offset: nat, x: Tuple)
      requires Ready() && offset < tupleNum
      modifies this`tmp
      ensures Ready() && District(tmp, tupleNum, prevDistrict) == old(District(tmp, tupleNum, prevDistrict))
      ensures District(tmp, tupleNum, currDistrict) == old(District(tmp, tupleNum, currDistrict))[offset := x]
    {
      hide District, Slot;
      WriteSlot(tmp, tupleNum, currDistrict, offset, x);
      tmp := tmp[Slot(offset, currDistrict, tupleNum) := x];
    }

    /** The tuples in the order in which the executor will return them. */
    ghost predicate Holds(out: seq<Tuple>)
      reads this
    {
      && |out| == tupleNum
      && forall i :: 0 <= i < tupleNum ==>
            0 <= Slot(i, currDistrict, tupleNum) < |tmp| && tmp[Slot(i, currDistrict, tupleNum)] == out[i]
    }

    /** What the executor returns: the passes over the runs, from a second district of
        zero tuples. */
    ghost function Result(): (out: seq<Tuple>)
      requires tupPerPage > 0
      ensures |out| == |input|
    {
      var t := RunSize(tupPerPage);
      SortRunsOk(input, t);
      Passes(SortRuns(input, t), seq(|input|, _ => zero), t)
    }

    /** `beginTuple`: the whole sort. The result is a sorted permutation of the input when
        no two initial runs share a key. */
    method BeginTuple() returns (ghost out: seq<Tuple>)
      requires tupPerPage > 0
      modifies this
      ensures Holds(out) && out == Result() && curTup == 0
      ensures BlocksApart(input, RunSize(tupPerPage)) ==> Sorted(out) && multiset(out) == multiset(input)
    {
      hide BlocksApart, Sorted, CeilInt, Mul, PassOut, Passes, SortRuns, District, Slot;
      curTup := 0;
      LoadRuns();
      ghost var t := RunSize(tupPerPage);
      SortRunsOk(input, t);
      ghost var runs, zeros := tmp, seq(|input|, _ => zero);
      if BlocksApart(input, t) { PassesSort(runs, zeros, t); }
      var numPages := CeilInt(tupleNum, tupPerPage);
      PagesOf(tupleNum, tupPerPage, numPages);
      if numPages == 1 {
        currDistrict := 0;
        out := tmp;
        FirstSlots(tmp);
        NoPass(runs, zeros, t);
        return;
      }
      Extend();
      var blockSize := BLOCK_SIZE_MIN;
      while blockSize < numPages
        invariant BLOCK_SIZE_MIN <= blockSize && Ready() && Mul(blockSize, tupPerPage) > 0
        invariant Passes(District(tmp, tupleNum, prevDistrict), District(tmp, tupleNum, currDistrict),
                         Mul(blockSize, tupPerPage)) == Passes(runs, zeros, t)
        invariant tupleNum == |input| && numPages == CeilInt(tupleNum, tupPerPage) && curTup == 0
        decreases numPages - blockSize
      {
        NextPass(District(tmp, tupleNum, prevDistrict), District(tmp, tupleNum, currDistrict), tupPerPage, numPages,
                 blockSize);
        Pass(blockSize, numPages);
        Double(blockSize, tupPerPage);
        prevDistrict, currDistrict := currDistrict, prevDistrict;
        blockSize := blockSize * 2;
      }
      Covered(tupleNum, tupPerPage, numPages, blockSize);
      out := District(tmp, tupleNum, prevDistrict);
      NoPass(out, District(tmp, tupleNum, currDistrict), Mul(blockSize, tupPerPage));
      prevDistrict, currDistrict := currDistrict, prevDistrict;
      AllSlots(tmp, tupleNum, currDistrict);
    }

    /** Makes room for the second district. */
    method Extend()
      requires |tmp| == tupleNum
      modifies this`tmp, this`prevDistrict, this`currDistrict
      ensures Ready() && prevDistrict == 0 && District(tmp, tupleNum, 0) == old(tmp)
      ensures District(tmp, tupleNum, 1) == seq(tupleNum, _ => zero)
    {
      for i := 0 to tupleNum
        invariant tmp == old(tmp) + seq(i, _ => zero)
      {
        tmp := tmp + [zero];
      }
      prevDistrict, currDistrict := 0, 1;
    }

    /** The executor's loop. */
    method Run() returns (out: seq<Tuple>)
      requires tupPerPage > 0
      modifies this
      ensures out == Result()
      ensures BlocksApart(input, RunSize(tupPerPage)) ==> Sorted(out) && multiset(out) == multiset(input)
    {
      hide Sorted, BlocksApart, Slot, SortRuns, Passes;
      ghost var all := BeginTuple();
      out := [];
      while curTup != tupleNum
        invariant curTup <= tupleNum && Holds(all) && out == all[..curTup]
        decreases tupleNum - curTup
      {
        out := out + [tmp[Slot(curTup, currDistrict, tupleNum)]];
        curTup := curTup + 1;
      }
      assert all[..curTup] == all;
    }
  }

  function RunSize(tupPerPage: nat): (t: nat)
    requires tupPerPage > 0
    ensures t == Mul(BLOCK_SIZE_MIN, tupPerPage) > 0 && t == 100 * tupPerPage
  {
    BLOCK_SIZE_MIN * tupPerPage
  }

  lemma NoPass(s: seq<Tuple>, out: seq<Tuple>, t: nat)
    requires t > 0 && |s| == |out| && |s| <= t
    ensures Passes(s, out, t) == s
  {
  }

  lemma NextPass(s: seq<Tuple>, out: seq<Tuple>, tpp: nat, numPages: nat, blockSize: nat)
    requires tpp > 0 && |s| == |out| && numPages == CeilInt(|s|, tpp) && blockSize < numPages && Mul(blockSize, tpp) > 0
    ensures Passes(s, out, Mul(blockSize, tpp)) ==
            Passes(PassOut(s, out, Mul(blockSize, tpp)), s, 2 * Mul(blockSize, tpp))
  {
    hide CeilInt, PassOut, Mul;
    CeilOk(|s|, tpp);
    Monotone(blockSize, numPages - 1, tpp);
  }

  /** The runs of the executor: no pass overwrites a tuple exactly when no two share a key. */
  lemma ExecutorOverwritesIff(input: seq<Tuple>, zero: Tuple, t: nat)
    requires t > 0
    ensures |SortRuns(input, t)| == |input|
    ensures OverwritesNone(SortRuns(input, t), seq(|input|, _ => zero), t) <==> BlocksApart(input, t)
  {
    hide SortRuns, OverwritesNone, BlocksApart;
    SortRunsOk(input, t);
    SortLosesIff(SortRuns(input, t), seq(|input|, _ => zero), t);
  }

  /** Zero tuples come back although they share their key. */
  lemma ZeroTuples(n: nat, zero: Tuple, t: nat)
    requires 0 < t < n
    ensures var input := seq(n, _ => zero);
            && !BlocksApart(input, t) && |SortRuns(input, t)| == n
            && Passes(SortRuns(input, t), seq(n, _ => zero), t) == input
  {
    hide Passes, SortRuns;
    var input := seq(n, _ => zero);
    SortRunsOk(input, t);
    var runs := SortRuns(input, t);
    forall i | 0 <= i < n
      ensures runs[i] == zero
    {
      assert runs[i] in multiset(runs);
      assert runs[i] in input;
    }
    assert runs == input;
    PassesEqual(runs, seq(n, _ => zero), t, zero);
    assert input[..t][0].key == input[t..][0].key;
  }

  /** The runs of the first `pos` tuples are in place. */
  ghost predicate Loaded(input: seq<Tuple>, tmp: seq<Tuple>, pos: nat, t: nat)
    requires pos <= |input| && t > 0
  {
    tmp + SortRuns(input[pos..], t) == SortRuns(input, t)
  }

  lemma LoadedNone(input: seq<Tuple>, t: nat)
    requires t > 0
    ensures Loaded(input, [], 0, t)
  {
    assert input[0..] == input;
  }

  lemma LoadedNext(input: seq<Tuple>, tmp: seq<Tuple>, pos: nat, end: nat, t: nat)
    requires t > 0 && pos < |input| && end == Min(pos + t, |input|) && Loaded(input, tmp, pos, t)
    ensures Loaded(input, tmp + SortBlock(input[pos..end]), end, t) && |SortBlock(input[pos..end])| == end - pos
  {
    hide SortRuns, SortBlock;
    NextRun(input, pos, end, t);
  }

  lemma LoadedAll(input: seq<Tuple>, tmp: seq<Tuple>, t: nat)
    requires t > 0 && Loaded(input, tmp, |input|, t)
    ensures tmp == SortRuns(input, t)
  {
    hide SortBlock;
    SortRunsOk(input[|input|..], t);
  }

  lemma PagesOf(n: nat, tpp: nat, numPages: int)
    requires tpp > 0 && numPages == CeilInt(n, tpp)
    ensures 0 <= numPages && (numPages <= 1 ==> n <= tpp) && tpp <= Mul(BLOCK_SIZE_MIN, tpp)
    ensures numPages > BLOCK_SIZE_MIN ==> n > Mul(BLOCK_SIZE_MIN, tpp)
  {
    hide CeilInt;
    CeilOk(n, tpp);
    if numPages > BLOCK_SIZE_MIN { Monotone(BLOCK_SIZE_MIN, numPages - 1, tpp); }
    if numPages <= 1 { Monotone(numPages, 1, tpp); }
  }

  lemma Double(b: nat, tpp: nat)
    ensures Mul(2 * b, tpp) == 2 * Mul(b, tpp) == Mul(b * 2, tpp)
  {
  }

  lemma Covered(n: nat, tpp: nat, numPages: nat, blockSize: nat)
    requires tpp > 0 && numPages == CeilInt(n, tpp) && numPages <= blockSize
    ensures n <= Mul(blockSize, tpp)
  {
    hide CeilInt, Mul;
    CeilOk(n, tpp);
    Monotone(numPages, blockSize, tpp);
  }

  /** The first `offset` tuples and what is still to be merged make up the result, and the
      rest is as it was. */
  ghost predicate MergedTo(out: seq<Tuple>, was: seq<Tuple>, offset: nat, rest: seq<Tuple>, total: seq<Tuple>) {
    offset <= |out| == |was| && out[..offset] + rest == total && out[offset..] == was[offset..]
  }

  lemma MergedNone(was: seq<Tuple>, offset: nat, rest: seq<Tuple>)
    requires offset <= |was|
    ensures MergedTo(was, was, offset, rest, was[..offset] + rest)
  {
  }

  lemma MergedPut(out: seq<Tuple>, out': seq<Tuple>, was: seq<Tuple>, offset: nat, rest: seq<Tuple>, rest': seq<Tuple>,
                  total: seq<Tuple>)
    requires offset < |out| == |out'| && MergedTo(out, was, offset, rest, total)
    requires rest == [out'[offset]] + rest' && out' == out[offset := out'[offset]]
    ensures MergedTo(out', was, offset + 1, rest', total)
  {
    assert out'[..offset + 1] == out[..offset] + [out'[offset]];
    assert out'[offset + 1..] == out[offset..][1..];
    assert was[offset + 1..] == was[offset..][1..];
  }

  lemma MergedAll(out: seq<Tuple>, was: seq<Tuple>, offset: nat, total: seq<Tuple>)
    requires MergedTo(out, was, offset, [], total)
    ensures out == total + was[offset..] && offset == |total|
  {
    assert out == out[..offset] + out[offset..];
  }

  /** What one step of the merge takes off. */
  lemma MergeStep(s: seq<Tuple>, l: nat, le: nat, r: nat, re: nat)
    requires l <= le <= |s| && r <= re <= |s|
    ensures l == le && r == re ==> Merge(s[l..le], s[r..re]) == []
    ensures l < le && (r == re || s[l].key < s[r].key) ==>
              Merge(s[l..le], s[r..re]) == [s[l]] + Merge(s[l + 1..le], s[r..re])
    ensures r < re && (l == le || s[r].key < s[l].key) ==>
              Merge(s[l..le], s[r..re]) == [s[r]] + Merge(s[l..le], s[r + 1..re])
    ensures l < le && r < re && s[l].key == s[r].key ==>
              Merge(s[l..le], s[r..re]) == [s[r]] + Merge(s[l + 1..le], s[r + 1..re])
  {
    if l < le { assert s[l..le] == [s[l]] + s[l + 1..le]; }
    if r < re { assert s[r..re] == [s[r]] + s[r + 1..re]; }
  }

  function Mul(a: int, b: int): int {
    a * b
  }

  lemma Multiply(b: int, t: int)
    ensures Mul(b + 1, t) == Mul(b, t) + t && Mul(b + 2, t) == Mul(b, t) + 2 * t && Mul(0, t) == 0
    ensures b > 0 && t > 0 ==> Mul(b, t) > 0
  {
  }

  lemma Monotone(a: int, b: int, c: nat)
    requires a <= b
    ensures Mul(a, c) <= Mul(b, c)
  {
  }

  lemma Associate(a: int, b: int, c: int)
    ensures Mul(a, Mul(b, c)) == Mul(Mul(a, b), c)
  {
  }

  /** The blocks that the outer loop visits start inside the file, and the blocks before
      its end cover the file. */
  lemma BlockBounds(n: nat, tpp: nat, numPages: nat, blockSize: nat, numBlock: int, bid: nat)
    requires tpp > 0 && blockSize > 0 && numPages == CeilInt(n, tpp) && numBlock == CeilInt(numPages, blockSize)
    ensures bid < numBlock ==> Mul(bid, Mul(blockSize, tpp)) < n
    ensures bid >= numBlock ==> n <= Mul(bid, Mul(blockSize, tpp))
  {
    hide CeilInt, Mul;
    CeilOk(n, tpp);
    CeilOk(numPages, blockSize);
    Associate(bid, blockSize, tpp);
    if bid < numBlock {
      Monotone(bid, numBlock - 1, blockSize);
      Monotone(Mul(bid, blockSize), numPages - 1, tpp);
    } else {
      Monotone(numBlock, bid, blockSize);
      Monotone(numPages, Mul(bid, blockSize), tpp);
    }
  }

  lemma PairStep(s: seq<Tuple>, pos: nat, t: nat)
    requires t > 0 && pos <= |s|
    ensures |s| - pos <= t ==> MergePairs(s[pos..], t) == [] && (OddLast(s[pos..], t) <==> pos < |s|)
    ensures |s| - pos > t ==>
              var m := Min(|s|, pos + 2 * t);
              && MergePairs(s[pos..], t) == Merge(s[pos..pos + t], s[pos + t..m]) + MergePairs(s[m..], t)
              && (OddLast(s[pos..], t) <==> OddLast(s[m..], t))
  {
    hide Merge;
    var r := s[pos..];
    if |r| > t {
      var m := Min(2 * t, |r|);
      assert r[..t] == s[pos..pos + t] && r[t..m] == s[pos + t..pos + m] && r[m..] == s[pos + m..];
    }
  }

  /** The pairs before `pos` have been merged to the first `offset` tuples. */
  ghost predicate Passed(s: seq<Tuple>, was: seq<Tuple>, out: seq<Tuple>, offset: nat, pos: nat, t: nat)
    requires t > 0
  {
    && offset <= pos <= |s| == |was| == |out| && out[offset..] == was[offset..]
    && out[..offset] + MergePairs(s[pos..], t) == MergePairs(s, t) && (OddLast(s[pos..], t) <==> OddLast(s, t))
  }

  lemma PassedNone(s: seq<Tuple>, was: seq<Tuple>, t: nat)
    requires t > 0 && |s| == |was|
    ensures Passed(s, was, was, 0, 0, t)
  {
    hide MergePairs, OddLast;
    assert s[0..] == s;
  }

  lemma PassedPair(s: seq<Tuple>, was: seq<Tuple>, out: seq<Tuple>, out': seq<Tuple>, offset: nat, offset': nat,
                   pos: nat, t: nat)
    requires t > 0 && Passed(s, was, out, offset, pos, t) && pos + t < |s|
    requires var m := Min(|s|, pos + 2 * t);
             && offset <= offset' <= m && offset' == offset + |Merge(s[pos..pos + t], s[pos + t..m])|
             && out' == out[..offset] + Merge(s[pos..pos + t], s[pos + t..m]) + out[offset'..]
    ensures Passed(s, was, out', offset', Min(|s|, pos + 2 * t), t)
  {
    hide Merge, MergePairs, OddLast;
    var m := Min(|s|, pos + 2 * t);
    PairStep(s, pos, t);
    assert out'[..offset'] == out[..offset] + Merge(s[pos..pos + t], s[pos + t..m]);
    assert out[offset'..] == out[offset..][offset' - offset..];
    assert was[offset'..] == was[offset..][offset' - offset..];
  }

  lemma PassedTail(s: seq<Tuple>, was: seq<Tuple>, out: seq<Tuple>, out': seq<Tuple>, offset: nat, pos: nat, t: nat)
    requires t > 0 && Passed(s, was, out, offset, pos, t) && pos < |s| <= pos + t && out' == out[..offset] + s[offset..]
    ensures out' == PassOut(s, was, t)
  {
    hide MergePairs, OddLast;
    PairStep(s, pos, t);
  }

  lemma PassedAll(s: seq<Tuple>, was: seq<Tuple>, out: seq<Tuple>, offset: nat, t: nat)
    requires t > 0 && Passed(s, was, out, offset, |s|, t)
    ensures out == PassOut(s, was, t)
  {
    hide MergePairs, OddLast;
    PairStep(s, |s|, t);
    assert out == out[..offset] + out[offset..];
  }
}
