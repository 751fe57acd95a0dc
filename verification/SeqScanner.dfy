/** The sequential scan executor: finds the last matching record first, so that it can
    tell when it stands on it. */
module SeqScanner {
  import opened Defs
  import opened RmFile
  import opened RmHandle
  import opened RmScanner

  type Test = Bytes -> bool

  /** The records among the first `n` that pass. */
  ghost function Kept(list: seq<Rid>, records: map<Rid, Bytes>, pass: Test, n: nat): seq<Rid>
    requires n <= |list|
  {
    if n == 0 then []
    else
      var r := list[n - 1];
      Kept(list, records, pass, n - 1) + if r in records && pass(records[r]) then [r] else []
  }

  lemma {:induction false} KeptGrows(list: seq<Rid>, records: map<Rid, Bytes>, pass: Test, m: nat, n: nat)
    requires m <= n <= |list|
    ensures |Kept(list, records, pass, m)| <= |Kept(list, records, pass, n)|
    ensures Kept(list, records, pass, n)[..|Kept(list, records, pass, m)|] == Kept(list, records, pass, m)
  {
    if m < n { KeptGrows(list, records, pass, m, n - 1); }
  }

  /** Passing records are found in list order, without repetition. */
  lemma {:induction false} KeptOrdered(list: seq<Rid>, records: map<Rid, Bytes>, pass: Test, n: nat)
    requires n <= |list| && Ordered(list)
    ensures Ordered(Kept(list, records, pass, n))
    ensures forall r :: r in Kept(list, records, pass, n) <==> r in list[..n] && r in records && pass(records[r])
  {
    if n > 0 {
      KeptOrdered(list, records, pass, n - 1);
      assert list[..n] == list[..n - 1] + [list[n - 1]];
      var found, last := Kept(list, records, pass, n - 1), list[n - 1];
      forall r | r in found
        ensures Before(r, last)
      {
        var i :| 0 <= i < n - 1 && list[..n - 1][i] == r;
        assert r == list[i];
      }
    }
  }

  /** All records of the file that pass, in order. */
  ghost function Matches(f: File, pass: Test): seq<Rid>
    requires Ok(f)
  {
    var list := LiveList(f);
    Kept(list, f.records, pass, |list|)
  }

  class SeqScan {
    const fh: RmFileHandle
    const pass: Test
    var scan: RmScan?
    var rid: Rid
    var lastRid: Rid
    var isEnd: bool
    /** The number of the current match. */
    ghost var k: nat

    constructor (fh: RmFileHandle, pass: Test, uninitialised: Rid)
      ensures this.fh == fh && this.pass == pass
    {
      this.fh, this.pass := fh, pass;
      scan, rid, lastRid, isEnd, k := null, uninitialised, uninitialised, false, 0;
    }

    ghost predicate Valid()
      reads this, fh, scan
    {
      && fh.Valid() && scan != null && scan.fh == fh && scan.Valid()
      && (!isEnd ==>
            && k < |Matches(fh.View(), pass)| && rid == Matches(fh.View(), pass)[k]
            && lastRid == Matches(fh.View(), pass)[|Matches(fh.View(), pass)| - 1]
            && |Kept(scan.list, fh.records, pass, scan.x)| == k + 1)
    }

    /** The first loop of `beginTuple`: remembers the last match. */
    method FindLast()
      requires fh.Valid()
      modifies this`rid, this`lastRid
      ensures Matches(fh.View(), pass) != [] ==> lastRid == Matches(fh.View(), pass)[|Matches(fh.View(), pass)| - 1]
    {
      hide LiveList, Ok, Kept;
      var sc := new RmScan(fh, rid);
      rid := sc.rid;
      KeptNone(sc.list, fh.records, pass);
      while !sc.IsEnd()
        invariant sc.fh == fh && sc.Valid() && rid == sc.rid && fresh(sc)
        invariant EndsWith(Kept(sc.list, fh.records, pass, sc.x), lastRid)
        decreases |sc.list| - sc.x
      {
        InList(fh.View(), sc.list, sc.x);
        KeptNext(sc.list, fh.records, pass, sc.x);
        RecordInPage(fh.View(), rid);
        var tuple := fh.GetRecord(rid);
        if pass(tuple) {
          lastRid := sc.rid;
        }
        sc.Next();
        rid := sc.rid;
      }
    }

    method Begin()
      requires fh.Valid()
      modifies this`scan, this`rid, this`lastRid, this`isEnd, this`k
      ensures Valid() && fresh(scan)
      ensures isEnd <==> Matches(fh.View(), pass) == []
      ensures !isEnd ==> k == 0
    {
      hide LiveList, Ok, Kept, Ordered;
      FindLast();
      var sc := new RmScan(fh, rid);
      scan, isEnd, rid, k := sc, false, sc.rid, 0;
      FindFirst();
    }

    /** The second loop of `beginTuple`: stops just behind the first match. */
    method FindFirst()
      requires fh.Valid() && scan != null && scan.fh == fh && scan.Valid() && scan.x == 0
      requires rid == scan.rid && !isEnd && k == 0 && EndsWith(Matches(fh.View(), pass), lastRid)
      modifies this`rid, this`isEnd, scan
      ensures Valid() && (isEnd <==> Matches(fh.View(), pass) == [])
    {
      hide LiveList, Ok, Kept, Ordered;
      var sc := scan;
      KeptNone(sc.list, fh.records, pass);
      while !sc.IsEnd()
        invariant sc.fh == fh && sc.Valid() && rid == sc.rid && !isEnd
        invariant Kept(sc.list, fh.records, pass, sc.x) == []
        decreases |sc.list| - sc.x
      {
        InList(fh.View(), sc.list, sc.x);
        KeptNext(sc.list, fh.records, pass, sc.x);
        KeptGrows(sc.list, fh.records, pass, sc.x + 1, |sc.list|);
        RecordInPage(fh.View(), rid);
        var tuple := fh.GetRecord(rid);
        sc.Next();
        if pass(tuple) {
          return;
        }
        rid := sc.rid;
      }
      isEnd := true;
    }

    method NextTuple()
      requires Valid() && !isEnd
      modifies this`rid, this`isEnd, this`k, scan
      ensures Valid()
      ensures isEnd <==> old(k) + 1 == |Matches(fh.View(), pass)|
      ensures !isEnd ==> k == old(k) + 1
    {
      hide LiveList, Ok, Kept;
      var sc := scan;
      LastOnce(fh.View(), sc.list, pass, k);
      if lastRid == rid {
        isEnd := true;
        return;
      }
      while !sc.IsEnd()
        invariant sc.fh == fh && sc.Valid() && !isEnd && k == old(k) && fh.Valid()
        invariant |Kept(sc.list, fh.records, pass, sc.x)| == k + 1 < |Matches(fh.View(), pass)|
        decreases |sc.list| - sc.x
      {
        rid := sc.rid;
        InList(fh.View(), sc.list, sc.x);
        KeptNext(sc.list, fh.records, pass, sc.x);
        KeptGrows(sc.list, fh.records, pass, sc.x + 1, |sc.list|);
        RecordInPage(fh.View(), rid);
        var tuple := fh.GetRecord(rid);
        sc.Next();
        if pass(tuple) {
          k := k + 1;
          return;
        }
      }
    }
  }

  ghost predicate EndsWith(found: seq<Rid>, r: Rid) {
    found != [] ==> found[|found| - 1] == r
  }

  lemma KeptNone(list: seq<Rid>, records: map<Rid, Bytes>, pass: Test)
    ensures Kept(list, records, pass, 0) == []
  {
  }

  lemma KeptNext(list: seq<Rid>, records: map<Rid, Bytes>, pass: Test, n: nat)
    requires n < |list| && list[n] in records
    ensures Kept(list, records, pass, n + 1)
         == Kept(list, records, pass, n) + if pass(records[list[n]]) then [list[n]] else []
  {
  }

  /** The current record is the last match exactly when no match is left. */
  lemma LastOnce(f: File, list: seq<Rid>, pass: Test, k: nat)
    requires Ok(f) && list == LiveList(f) && k < |Kept(list, f.records, pass, |list|)|
    ensures var m := Kept(list, f.records, pass, |list|); m[k] == m[|m| - 1] <==> k + 1 == |m|
  {
    hide LiveList, Ok, Kept;
    LiveListOk(f);
    KeptOrdered(list, f.records, pass, |list|);
    var m := Kept(list, f.records, pass, |list|);
    assert k < |m| - 1 ==> Before(m[k], m[|m| - 1]);
  }

  lemma InList(f: File, list: seq<Rid>, x: nat)
    requires Ok(f) && list == LiveList(f) && x < |list|
    ensures list[x] in f.records
  {
    hide LiveList, Ok;
    LiveListOk(f);
    assert list[x] in list;
  }

  /** Running the executor from begin to end returns every passing record once, in order. */
  method Run(s: SeqScan) returns (out: seq<Rid>)
    requires s.fh.Valid()
    modifies s
    ensures s.fh.Valid() && out == Matches(s.fh.View(), s.pass)
  {
    hide LiveList, Ok, Kept, Matches;
    s.Begin();
    out := [];
    while !s.isEnd
      invariant s.Valid() && s.fh.Valid() && fresh(s.scan)
      invariant !s.isEnd ==> out == Matches(s.fh.View(), s.pass)[..s.k]
      invariant s.isEnd ==> out == Matches(s.fh.View(), s.pass)
      decreases if s.isEnd then 0 else 1 + |Matches(s.fh.View(), s.pass)| - s.k
    {
      out := out + [s.rid];
      s.NextTuple();
    }
  }
}
