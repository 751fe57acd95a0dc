/** The nested-loop join executor. Its children are scans or joins again. */
module NestedLoopJoin {
  import opened Defs
  import opened JoinStreams

  /** A scan delivers a fixed list of tuples. It can be read and begun as often as one
      likes. */
  class TableScan<T> {
    const rows: seq<T>
    var pos: nat

    constructor (rows: seq<T>)
      ensures this.rows == rows
    {
      this.rows := rows;
      pos := 0;
    }

    predicate IsEnd()
      reads this
    {
      pos >= |rows|
    }

    method BeginTuple()
      modifies this
      ensures pos == 0
    {
      pos := 0;
    }

    method NextTuple()
      modifies this
      ensures pos == old(pos) + 1
    {
      pos := pos + 1;
    }

    method Next() returns (t: T)
      requires !IsEnd()
      ensures t == rows[pos]
    {
      t := rows[pos];
    }
  }

  datatype Executor<T> = ScanExecutor(scan: TableScan<T>) | JoinExecutor(join: NestedLoopJoinExecutor<T>) {
    // The tree of executors, which never changes

    ghost function Height(): nat {
      if ScanExecutor? then 0 else join.height
    }

    ghost function Repr(): set<object> {
      if ScanExecutor? then {scan} else join.repr
    }

    ghost predicate Tree()
      decreases Height(), 1
    {
      JoinExecutor? ==> join in join.repr && join.Tree()
    }

    /** What the executor delivers from its first begin on. */
    ghost function Out(): (s: Stream<T>)
      requires Tree()
      ensures s.once == JoinExecutor? && (s.crashes ==> s.once)
      decreases Height(), 1
    {
      if ScanExecutor? then Stream(scan.rows, false, false) else join.Out()
    }

    // Where it stands

    /** At row `k` of its stream. */
    ghost predicate On(k: nat)
      requires Tree()
      reads Repr()
      decreases Height(), 3
    {
      if ScanExecutor? then scan.pos == k < |scan.rows| else join.Standing() && join.k == k
    }

    ghost predicate Fresh()
      requires Tree()
      reads Repr()
    {
      JoinExecutor? ==> join.record.Some?
    }

    /** Its row has been moved out. */
    ghost predicate Taken()
      requires Tree()
      reads Repr()
    {
      JoinExecutor? ==> join.record.None?
    }

    predicate IsEnd()
      requires Tree()
      reads Repr()
    {
      if ScanExecutor? then scan.IsEnd() else join.isEnd
    }

    /** No join below has looked at its last pair: beginning it starts from the front. */
    ghost predicate New()
      requires Tree()
      reads Repr()
      decreases Height(), 1
    {
      JoinExecutor? ==> join.New()
    }

    /** It has been pulled to its end and had rows to look at. */
    ghost predicate Spent()
      requires Tree()
      reads Repr()
      decreases Height(), 1
    {
      if ScanExecutor? then scan.rows != [] else join.Spent()
    }

    ghost predicate Restartable()
      requires Tree()
      reads Repr()
      decreases Height(), 1
    {
      JoinExecutor? ==> join.Restartable()
    }

    // The calls, each to a scan or to a join

    method BeginTuple() returns (crashed: bool)
      requires Tree() && Restartable()
      modifies Repr()
      ensures crashed <==> old(New()) && BeginFails(Out())
      ensures (old(New()) || ScanExecutor?) && !crashed ==>
                (IsEnd() <==> Out().rows == []) && (!IsEnd() ==> On(0) && Fresh())
      ensures old(Spent()) ==> Spent() && (IsEnd() <==> JoinExecutor?)
      decreases Height(), 5
    {
      match this
      case ScanExecutor(s) =>
        s.BeginTuple();
        crashed := false;
      case JoinExecutor(j) =>
        crashed := j.BeginTuple();
    }

    method NextTuple(ghost k: nat) returns (crashed: bool)
      requires Tree() && On(k)
      modifies Repr()
      ensures crashed <==> k + 1 == |Out().rows| && Out().crashes
      ensures !crashed ==> k < |Out().rows| && (IsEnd() <==> k + 1 == |Out().rows|)
      ensures !crashed && !IsEnd() ==> On(k + 1) && Fresh()
      ensures !crashed && IsEnd() && old(Taken()) ==> Spent()
      decreases Height(), 5
    {
      match this
      case ScanExecutor(s) =>
        s.NextTuple();
        crashed := false;
      case JoinExecutor(j) =>
        crashed := j.NextTuple();
    }

    /** The row, if it is still there. */
    method Next(ghost k: nat) returns (t: Option<T>)
      requires Tree() && (On(k) || (JoinExecutor? && Spent()))
      modifies Repr()
      ensures (old(On(k)) ==> On(k)) && (old(Spent()) ==> Spent())
      ensures old(On(k)) ==>
                k < |Out().rows| && Taken() && t == if old(Fresh()) then Some(Out().rows[k]) else None
      ensures old(On(k)) && ScanExecutor? ==> old(Fresh())
      ensures JoinExecutor? && old(Spent()) ==> t == None
    {
      match this
      case ScanExecutor(s) =>
        var row := s.Next();
        t := Some(row);
      case JoinExecutor(j) =>
        t := j.Next();
    }
  }

  class NestedLoopJoinExecutor<T> {
    const left: Executor<T>
    const right: Executor<T>
    const make: (T, T) -> T
    const test: (T, T) -> bool
    var isLast: bool
    var isEnd: bool
    /** The current row, until `Next` moves it out. */
    var record: Option<T>
    ghost const height: nat
    ghost const repr: set<object>
    /** The number of the current row, and the next pair to look at. */
    ghost var k: nat
    ghost var i: nat
    ghost var j: nat

    /** The source swaps its two arguments: `left`, the outer child, is the plan's right
        child. */
    constructor (left: Executor<T>, right: Executor<T>, make: (T, T) -> T, test: (T, T) -> bool)
      requires left.Tree() && right.Tree() && left.Repr() !! right.Repr() && left.New() && right.New()
      ensures this.left == left && this.right == right && this.make == make && this.test == test
      ensures Tree() && New() && fresh(repr - left.Repr() - right.Repr())
    {
      this.left, this.right, this.make, this.test := left, right, make, test;
      isLast, isEnd, record, k, i, j := false, false, None, 0, 0, 0;
      height := 1 + left.Height() + right.Height();
      repr := {this} + left.Repr() + right.Repr();
    }

    ghost predicate Tree()
      decreases height, 0
    {
      && left.Height() < height && right.Height() < height && left.Tree() && right.Tree()
      && this !in left.Repr() && this !in right.Repr() && left.Repr() !! right.Repr()
      && repr == {this} + left.Repr() + right.Repr()
    }

    ghost function Out(): (s: Stream<T>)
      requires Tree()
      ensures s.once
      decreases height, 0
    {
      JoinOut(left.Out(), right.Out(), make, test)
    }

    /** The matches among the pairs before the next one. */
    ghost function FoundHere(): seq<(T, T)>
      requires Tree() && i <= |left.Out().rows| && j <= |right.Out().rows|
      reads this
    {
      Found(left.Out().rows, right.Out().rows, test, i, j)
    }

    /** The children stand at the next pair. An outer row is there to be read only before
        its first pair, an inner join only for the first outer row. */
    ghost predicate At()
      requires Tree()
      reads repr
      decreases height, 1
    {
      var l, r := left.Out(), right.Out();
      && l.rows != [] && i <= |l.rows| && j < |r.rows| && Upto(i, j, Limit(l, r)) && (isLast <==> i == |l.rows|)
      && (if i < |l.rows| then left.On(i) && (if j == 0 then left.Fresh() else left.Taken()) else left.Spent())
      && (if i == 0 || right.ScanExecutor? then right.On(j) && right.Fresh() else j == 0 && right.Spent())
    }

    ghost predicate Standing()
      requires Tree()
      reads repr
      decreases height, 2
    {
      && !isEnd && At() && |FoundHere()| == k + 1 <= |Out().rows|
      && (record.None? || record == Some(Out().rows[k]))
    }

    ghost predicate Valid()
      requires Tree()
      reads repr
    {
      if isEnd then isLast else Standing()
    }

    ghost predicate New()
      requires Tree()
      reads repr
      decreases height, 0
    {
      !isLast && !isEnd && left.New() && right.New()
    }

    ghost predicate Spent()
      requires Tree()
      reads repr
      decreases height, 0
    {
      isLast && isEnd && record.None? && !Out().crashes && left.Spent() && right.Spent()
    }

    /** It has not looked at its last pair, or its children can be begun again. */
    ghost predicate Restartable()
      requires Tree()
      reads repr
      decreases height, 0
    {
      || New()
      || (isLast && left.Restartable() && right.Restartable() && !BeginFails(left.Out()) && !BeginFails(right.Out()))
    }

    /** Both rows of the pair have been read. */
    ghost predicate HasRead()
      requires Tree()
      reads repr
    {
      && i < |left.Out().rows| && j < |right.Out().rows| && Upto(i, j, Limit(left.Out(), right.Out())) && !isLast
      && left.On(i) && left.Taken() && right.On(j) && right.Taken()
    }

    /** Reading the pair fails when the outer row has been read before, or the inner child
        begun again. */
    method Read() returns (pair: Option<(T, T)>)
      requires Tree() && At() && !isLast
      modifies left.Repr(), right.Repr()
      ensures old(i) < |left.Out().rows| && old(j) < |right.Out().rows|
      ensures pair.None? <==> (left.JoinExecutor? && 0 < old(j)) || (right.JoinExecutor? && 0 < old(i))
      ensures pair.Some? ==> HasRead() && pair.value == (left.Out().rows[old(i)], right.Out().rows[old(j)])
      ensures unchanged(this)
      decreases height, 0
    {
      hide Executor.On, Executor.Spent, Executor.Out, Limit, Upto, Standing, Spent, Out;
      var a := left.Next(i);
      if a.None? {
        return None;
      }
      var b := right.Next(j);
      if b.None? {
        return None;
      }
      pair := Some((a.value, b.value));
    }

    /** Pulls the next pair. */
    method Pull() returns (crashed: bool)
      requires Tree() && HasRead() && (right.JoinExecutor? ==> i == 0) && (left.JoinExecutor? ==> j == 0)
      modifies repr
      ensures crashed <==> old((i, j)) == Limit(left.Out(), right.Out())
      ensures !crashed ==>
                && At() && (isEnd <==> old(isEnd) || isLast) && record == old(record) && k == old(k)
                && (i, j) == if old(j) + 1 < |right.Out().rows| then (old(i), old(j) + 1) else (old(i) + 1, 0)
      decreases height, 1
    {
      hide Executor.On, Executor.Fresh, Executor.Spent, Executor.New, Executor.Restartable, Executor.Out, Limit, Upto,
        Standing, Spent, New, Restartable, Out;
      ghost var l, r := left.Out(), right.Out();
      LimitIff(l, r, i, j);
      if (i, j) != Limit(l, r) { UptoNext(l, r, i, j); }
      crashed := right.NextTuple(j);
      if crashed {
        return;
      }
      if right.IsEnd() {
        crashed := PullRow();
      } else {
        j := j + 1;
      }
    }

    /** Pulls the next outer row and begins the inner child again. */
    method PullRow() returns (crashed: bool)
      requires Tree() && i < |left.Out().rows| && right.Out().rows != []
      requires left.On(i) && left.Taken() && right.Spent()
      modifies repr
      ensures crashed <==> left.Out().crashes && old(i) + 1 == |left.Out().rows|
      ensures !crashed ==>
                && i == old(i) + 1 && j == 0 && record == old(record) && k == old(k)
                && (if i < |left.Out().rows| then left.On(i) && left.Fresh() else left.Spent())
                && (if right.ScanExecutor? then right.On(0) && right.Fresh() else right.Spent())
                && (isEnd <==> old(isEnd) || i == |left.Out().rows|)
                && (isLast <==> old(isLast) || i == |left.Out().rows|)
      decreases height, 0
    {
      hide Executor.On, Executor.Fresh, Executor.Spent, Executor.New, Executor.Restartable, Executor.Out, Standing,
        Spent, New, Restartable, Out;
      crashed := left.NextTuple(i);
      if crashed {
        return;
      }
      SpentRestarts(right);
      crashed := right.BeginTuple();
      i, j := i + 1, 0;
      if left.IsEnd() {
        isEnd, isLast := true, true;
      }
    }

    /** One round of the loop: reads both children and pulls the next pair. It crashes
        exactly at the limit. */
    method Look() returns (pair: Option<(T, T)>)
      requires Tree() && At() && !isLast
      modifies repr
      ensures old(i) < |left.Out().rows| && old(j) < |right.Out().rows|
      ensures pair.None? <==> old((i, j)) == Limit(left.Out(), right.Out())
      ensures pair.Some? ==>
                && At() && (isEnd <==> old(isEnd) || isLast) && record == old(record) && k == old(k)
                && pair.value == (left.Out().rows[old(i)], right.Out().rows[old(j)])
                && (i, j) == if old(j) + 1 < |right.Out().rows| then (old(i), old(j) + 1) else (old(i) + 1, 0)
      decreases height, 2
    {
      hide Executor.On, Executor.Fresh, Executor.Spent, Executor.Out, Limit, HasRead;
      pair := Read();
      LimitIff(left.Out(), right.Out(), i, j);
      if pair.Some? {
        var crashed := Pull();
        if crashed {
          return None;
        }
      }
    }

    /** The loop shared by `beginTuple` and `nextTuple`: looks at pairs up to and including
        the next match. */
    method Advance(ghost n: nat) returns (crashed: bool)
      requires Tree() && (!isLast ==> At() && !isEnd && |FoundHere()| == n)
      modifies repr
      ensures old(isLast) ==> !crashed && unchanged(repr)
      ensures !old(isLast) ==> (crashed <==> n == |Out().rows| && Out().crashes)
      ensures !old(isLast) && !crashed ==> (isEnd <==> n == |Out().rows|)
      ensures !old(isLast) && !crashed && isEnd ==>
                isLast && record == old(record) && !Out().crashes && left.Spent() && right.Spent()
      ensures !old(isLast) && !crashed && !isEnd ==> Standing() && k == n && record.Some?
      decreases height, 3
    {
      hide Executor.On, Executor.Fresh, Executor.Spent, Executor.Out, Found, Limit, JoinOut, Upto, Records, Prefix, Out;
      ghost var l, r := left.Out(), right.Out();
      while !isLast
        invariant old(isLast) ==> unchanged(repr)
        invariant !old(isLast) ==> At() && (isLast <==> isEnd) && |FoundHere()| == n && record == old(record)
        decreases if isLast then 0 else 1, |l.rows| - i, |r.rows| - j
      {
        OutHere();
        FoundNext(l.rows, r.rows, test, i, j);
        var pair := Look();
        if pair.None? {
          return true;
        }
        if test(pair.value.0, pair.value.1) {
          Keep(pair.value, n);
          return false;
        }
      }
      if !old(isLast) {
        OutHere();
        LastPair();
      }
      crashed := false;
    }

    method Keep(pair: (T, T), ghost n: nat)
      requires Tree() && At() && |FoundHere()| == n + 1 && FoundHere()[n] == pair && (isEnd ==> isLast)
      modifies this`record, this`k, this`isEnd
      ensures Standing() && !isEnd && k == n && record.Some? && n < |Out().rows|
    {
      hide Executor.On, Executor.Fresh, Executor.Spent, Executor.Out, Found, Limit, JoinOut, Upto, Records, Prefix, Out;
      OutHere();
      record, k := Some(make(pair.0, pair.1)), n;
      if isLast {
        isEnd := false;
      }
      assert old(At()) ==> At();
    }

    /** What has been found so far is where the stream begins. */
    lemma OutHere()
      requires Tree() && At()
      ensures var l, r := left.Out(), right.Out();
              var found := Found(l.rows, r.rows, test, Limit(l, r).0, Limit(l, r).1);
              && Out() == Stream(Records(found, make), Limit(l, r).0 < |l.rows|, true) && Prefix(FoundHere(), found)
              && |FoundHere()| <= |Out().rows|
              && forall n :: 0 <= n < |FoundHere()| ==> Out().rows[n] == make(FoundHere()[n].0, FoundHere()[n].1)
    {
      hide Executor.On, Executor.Fresh, Executor.Spent, Executor.Out, Found, Limit;
      var l, r := left.Out(), right.Out();
      FoundUpto(l.rows, r.rows, test, i, j, Limit(l, r));
    }

    /** After the last pair both children have been pulled to their ends. */
    lemma LastPair()
      requires Tree() && At() && isLast
      ensures left.Spent() && right.Spent() && !Out().crashes && |FoundHere()| == |Out().rows|
    {
      hide Executor.On, Executor.Fresh, Executor.Spent, Executor.Out, Found, Limit, JoinOut;
      OutHere();
      ScanSpent(right);
    }

    lemma FirstPair()
      requires Tree() && left.Out().rows != [] && right.Out().rows != [] && i == 0 && j == 0 && !isLast
      requires left.On(0) && left.Fresh() && right.On(0) && right.Fresh()
      ensures At() && |FoundHere()| == 0
    {
      hide Executor.On, Executor.Fresh, Executor.Spent, Executor.Out, Found, Limit;
      NothingFound(left.Out().rows, right.Out().rows, test);
    }

    method BeginChildren() returns (crashed: bool)
      requires Tree() && Restartable()
      modifies left.Repr(), right.Repr()
      ensures unchanged(this) && (crashed <==> old(New()) && (BeginFails(left.Out()) || BeginFails(right.Out())))
      ensures old(New()) && !crashed ==>
                && (left.IsEnd() <==> left.Out().rows == []) && (!left.IsEnd() ==> left.On(0) && left.Fresh())
                && (right.IsEnd() <==> right.Out().rows == []) && (!right.IsEnd() ==> right.On(0) && right.Fresh())
      ensures old(left.Spent()) ==> left.Spent() && (left.IsEnd() <==> left.JoinExecutor?)
      ensures !crashed && old(right.Spent()) ==> right.Spent() && (right.IsEnd() <==> right.JoinExecutor?)
      decreases height, 0
    {
      hide Executor.On, Executor.Fresh, Executor.Spent, Executor.New, Executor.Restartable, Executor.Out, Standing, Out,
        Spent;
      NewRestarts(left);
      NewRestarts(right);
      crashed := left.BeginTuple();
      if !crashed {
        crashed := right.BeginTuple();
      }
    }

    /** `beginTuple` does not reset `isLast`: a join that has looked at its last pair does
        not start again. */
    method BeginTuple() returns (crashed: bool)
      requires Tree() && Restartable()
      modifies repr
      ensures crashed <==> old(New()) && BeginFails(Out())
      ensures old(New()) && !crashed ==>
                Valid() && (isEnd <==> Out().rows == []) && (!isEnd ==> k == 0 && record.Some?)
      ensures !old(New()) ==> isLast && record == old(record)
      ensures !old(New()) ==> (isEnd <==> old(isEnd) || left.IsEnd() || right.IsEnd())
      ensures !old(New()) && old(left.Spent() && right.Spent()) ==>
                (isEnd <==> old(isEnd) || left.JoinExecutor? || right.JoinExecutor?)
      ensures old(Spent()) ==> Spent()
      decreases height, 4
    {
      hide Executor.On, Executor.Fresh, Executor.Spent, Executor.New, Executor.Restartable, Executor.Out, Found, Limit,
        At, Standing, FoundHere;
      crashed := BeginChildren();
      if crashed {
        return;
      }
      if left.IsEnd() || right.IsEnd() {
        isLast, isEnd := true, true;
        return;
      }
      i, j := if isLast then i else 0, if isLast then j else 0;
      if !isLast { FirstPair(); }
      crashed := Advance(0);
    }

    method NextTuple() returns (crashed: bool)
      requires Tree() && !isEnd && (isLast || Standing())
      modifies repr
      ensures old(isLast) ==> !crashed && isLast && isEnd && record == old(record)
      ensures old(Standing()) ==> (crashed <==> old(k) + 1 == |Out().rows| && Out().crashes)
      ensures old(Standing()) && !crashed ==> Valid() && (isEnd <==> old(k) + 1 == |Out().rows|)
      ensures old(Standing()) && !crashed && !isEnd ==> k == old(k) + 1 && record.Some?
      ensures old(Standing()) && !crashed && isEnd && old(record).None? ==> Spent()
      decreases height, 4
    {
      hide Executor.On, Executor.Fresh, Executor.Spent, Executor.Out, Found, Limit;
      if isLast && !isEnd {
        if Standing() { LastPair(); }
        isEnd := true;
      }
      crashed := Advance(k + 1);
    }

    /** `Next` moves the record out: a second call for the same row finds nothing. */
    method Next() returns (r: Option<T>)
      requires Tree()
      modifies this`record
      ensures r == old(record) && record == None
      ensures (old(Standing()) ==> Standing()) && (old(Spent()) ==> Spent())
    {
      hide Executor.On, Executor.Fresh, Executor.Spent, Executor.Out, Found, Limit;
      r, record := record, None;
      assert old(At()) ==> At();
    }
  }

  lemma ScanSpent<T>(e: Executor<T>)
    requires e.Tree()
    ensures forall k: nat :: e.ScanExecutor? && e.On(k) ==> e.Spent()
  {
  }

  lemma NewRestarts<T>(e: Executor<T>)
    requires e.Tree()
    ensures e.New() ==> e.Restartable()
  {
  }

  lemma {:induction false} SpentRestarts<T>(e: Executor<T>)
    requires e.Tree() && e.Spent()
    ensures e.Restartable()
    decreases e.Height()
  {
    if e.JoinExecutor? {
      SpentRestarts(e.join.left);
      SpentRestarts(e.join.right);
    }
  }

  /** From begin to end the join delivers its stream. */
  method Run<T>(join: NestedLoopJoinExecutor<T>) returns (out: seq<T>, crashed: bool)
    requires join.Tree() && join.New()
    modifies join.repr
    ensures out == join.Out().rows && crashed == join.Out().crashes
    ensures !crashed ==> join.isEnd && join.isLast
  {
    hide Executor.On, Executor.Fresh, Executor.Restartable, Executor.New, Executor.Spent, Executor.Out, Found, Limit,
      JoinOut, NestedLoopJoinExecutor.At, NestedLoopJoinExecutor.FoundHere;
    ghost var rows := join.Out().rows;
    out := [];
    crashed := join.BeginTuple();
    while !crashed && !join.isEnd
      invariant !crashed ==> join.Valid() && out == if join.isEnd then rows else rows[..join.k]
      invariant !crashed && !join.isEnd ==> join.record.Some?
      invariant crashed || join.isEnd ==> out == rows && crashed == join.Out().crashes
      decreases !crashed && !join.isEnd, |rows| - join.k
    {
      var r := join.Next();
      out := out + [r.value];
      crashed := join.NextTuple();
    }
  }

  /** Begun again after its last pair a join returns nothing, or only its last row if both
      children are scans and it had not moved on, which is missing when it has been moved out
      before. */
  method RunAgain<T>(join: NestedLoopJoinExecutor<T>) returns (out: seq<T>, missing: bool)
    requires join.Tree() && join.isLast && join.Restartable() && join.Valid()
    modifies join.repr
    ensures old(join.isEnd) || join.left.JoinExecutor? || join.right.JoinExecutor? ==> out == [] && !missing
    ensures !old(join.isEnd) && join.left.ScanExecutor? && join.right.ScanExecutor? ==>
              && join.Out().rows != [] && (missing <==> old(join.record).None?)
              && out == if missing then [] else [join.Out().rows[|join.Out().rows| - 1]]
    ensures !missing ==> join.isEnd && join.isLast
  {
    hide Executor.On, Executor.Fresh, Executor.Restartable, Executor.New, Executor.Spent, Executor.Out, Found, Limit,
      JoinOut, NestedLoopJoinExecutor.At, NestedLoopJoinExecutor.FoundHere;
    if !join.isEnd { join.LastPair(); }
    ghost var record, last := join.record, join.isEnd || join.left.JoinExecutor? || join.right.JoinExecutor?;
    out, missing := [], false;
    var crashed := join.BeginTuple();
    while !join.isEnd
      invariant join.isLast && (last ==> join.isEnd && out == [])
      invariant !last && join.isEnd ==> record.Some? && out == [record.value]
      invariant !last && !join.isEnd ==> join.record == record && out == []
      decreases !join.isEnd
    {
      var r := join.Next();
      if r.None? {
        missing := true;
        return;
      }
      out := out + [r.value];
      crashed := join.NextTuple();
    }
  }
}
