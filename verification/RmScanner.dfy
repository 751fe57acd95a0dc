/** Scanning a record file: `RmScan` and the sequential scan executor on top of it. */
module RmScanner {
  import opened Bitmap
  import opened RmFile
  import opened RmHandle

  predicate Before(a: Rid, b: Rid) {
    a.pageNo < b.pageNo || (a.pageNo == b.pageNo && a.slotNo < b.slotNo)
  }

  // The live records in order

  /** The used slots of a page below `n`. */
  ghost function InPage(f: File, p: int, n: nat): seq<Rid>
    requires PagesOk(f) && p in f.pages && n <= f.perPage
  {
    if n == 0 then []
    else InPage(f, p, n - 1) + if IsSet(f.pages[p].bitmap, n - 1) then [IxNode.Rid(p, n - 1)] else []
  }

  /** The live records in the pages below `p`, in page and slot order. */
  ghost function UpTo(f: File, p: int): seq<Rid>
    requires PagesOk(f) && 1 <= p <= f.numPages
    decreases p
  {
    if p == 1 then [] else UpTo(f, p - 1) + InPage(f, p - 1, f.perPage)
  }

  ghost function LiveList(f: File): seq<Rid>
    requires PagesOk(f)
  {
    UpTo(f, f.numPages)
  }

  ghost predicate Ordered(s: seq<Rid>) {
    forall i, j :: 0 <= i < j < |s| ==> Before(s[i], s[j])
  }

  lemma {:induction false} InPageOk(f: File, p: int, n: nat)
    requires PagesOk(f) && p in f.pages && n <= f.perPage
    ensures Ordered(InPage(f, p, n))
    ensures forall r :: r in InPage(f, p, n) <==> Live(f, r) && r.pageNo == p && r.slotNo < n
  {
    hide IsSet;
    if n > 0 { InPageOk(f, p, n - 1); }
  }

  lemma {:induction false} UpToOk(f: File, p: int)
    requires PagesOk(f) && 1 <= p <= f.numPages
    ensures Ordered(UpTo(f, p))
    ensures forall r :: r in UpTo(f, p) <==> Live(f, r) && r.pageNo < p
    decreases p
  {
    hide IsSet;
    if p > 1 {
      UpToOk(f, p - 1);
      InPageOk(f, p - 1, f.perPage);
    }
  }

  /** The list holds every live record once, in order. */
  lemma LiveListOk(f: File)
    requires Ok(f)
    ensures Ordered(LiveList(f)) && forall r :: r in LiveList(f) <==> r in f.records
  {
    hide IsSet;
    UpToOk(f, f.numPages);
  }

  /** `rid` is record number `x` of the list. */
  ghost predicate At(list: seq<Rid>, x: nat, rid: Rid) {
    x < |list| && list[x] == rid
  }

  lemma FirstIs(list: seq<Rid>, r: Rid)
    requires Ordered(list) && r in list && forall q :: q in list ==> !Before(q, r)
    ensures At(list, 0, r)
  {
    assert list[0] in list;
  }

  lemma IndexOrder(list: seq<Rid>, i: nat, j: nat)
    requires Ordered(list) && i < |list| && j < |list|
    ensures Before(list[i], list[j]) <==> i < j
  {
    if j < i { assert Before(list[j], list[i]); }
  }

  lemma NextIs(list: seq<Rid>, x: nat, r: Rid)
    requires Ordered(list) && x < |list| && r in list && Before(list[x], r)
    requires forall q :: q in list ==> !(Before(list[x], q) && Before(q, r))
    ensures At(list, x + 1, r)
  {
    var y :| 0 <= y < |list| && list[y] == r;
    IndexOrder(list, x, y);
    var z := if x + 1 < |list| then list[x + 1] else r;
    assert z in list;
  }

  lemma LastIs(list: seq<Rid>, x: nat)
    requires Ordered(list) && x < |list| && forall q :: q in list ==> !Before(list[x], q)
    ensures x + 1 == |list|
  {
    var z := if x + 1 < |list| then list[x + 1] else list[x];
    assert z in list;
  }

  class RmScan {
    const fh: RmFileHandle
    var rid: Rid
    var endPage: int
    /** The records and the number of the current one. */
    ghost const list: seq<Rid>
    ghost var x: nat

    ghost predicate Valid()
      reads this, fh
    {
      && fh.Valid() && list == LiveList(fh.View())
      && EndPageOk(fh.View(), endPage)
      && x <= |list| && (IsEnd() <==> x == |list|)
      && (!IsEnd() ==> list[x] == rid)
    }

    predicate IsEnd()
      reads this
    {
      endPage == NO_PAGE || rid.pageNo > endPage
    }

    constructor (fh: RmFileHandle, uninitialised: Rid)
      requires fh.Valid()
      ensures Valid() && this.fh == fh && x == 0
    {
      hide ChainOk, IsSet, LiveList;
      this.fh := fh;
      this.list := LiveList(fh.View());
      x := 0;
      LiveListOk(fh.View());
      var start := FirstRecord(fh, uninitialised);
      var last := LastPage(fh);
      rid, endPage := start, last;
      Started(fh.View(), start, last);
    }

    /** `next`: the following live record, or one past the last page with records. */
    method Next()
      requires Valid() && !IsEnd()
      modifies this`rid, this`x
      ensures Valid() && x == old(x) + 1
    {
      hide ChainOk, IsSet, LiveList;
      ghost var f := fh.View();
      LiveListOk(f);
      ghost var from := rid;
      var i := rid.pageNo;
      CurrentOk(f, list, x, rid);
      while i <= endPage
        invariant x == old(x) && 1 <= i <= endPage + 1 && rid.pageNo == i && -1 <= rid.slotNo < fh.perPage
        invariant rid == from || (rid.slotNo == -1 && from.pageNo < i)
        invariant forall r :: r in f.records && Before(from, r) ==> i <= r.pageNo
        decreases endPage - i
      {
        PageReady(f, i);
        var bit := NextBit(true, fh.pages[i].bitmap, fh.perPage, rid.slotNo);
        if bit != fh.perPage {
          Advance(f, list, x, from, rid, IxNode.Rid(i, bit));
          rid := IxNode.Rid(i, bit);
          x := x + 1;
          return;
        }
        Exhausted(f, from, rid);
        rid := IxNode.Rid(rid.pageNo + 1, -1);
        i := i + 1;
      }
      Finished(f, list, x, from, endPage);
      x := x + 1;
    }
  }

  /** No live record lies beyond the end page; without one there are no records. */
  ghost predicate EndPageOk(f: File, endPage: int) {
    && (endPage == NO_PAGE ==> f.records == map[])
    && (endPage != NO_PAGE ==> endPage in f.pages && exists r :: r in f.records && r.pageNo == endPage)
    && forall r :: r in f.records ==> r.pageNo <= endPage
  }

  lemma PageReady(f: File, i: int)
    requires Ok(f) && 1 <= i < f.numPages
    ensures i in f.pages && PageOk(f.pages[i], f.perPage)
  {
  }

  /** The used slots of a page are its live records. */
  lemma LiveInPage(f: File, i: int)
    requires Ok(f) && i in f.pages && PageOk(f.pages[i], f.perPage)
    ensures forall q :: 0 <= q < f.perPage && IsSet(f.pages[i].bitmap, q) ==> IxNode.Rid(i, q) in f.records
    ensures forall r :: r in f.records && r.pageNo == i ==>
              0 <= r.slotNo < f.perPage && IsSet(f.pages[i].bitmap, r.slotNo)
    ensures forall r :: r in f.records ==> 1 <= r.pageNo < f.numPages
  {
    hide IsSet;
    assert forall q :: Live(f, IxNode.Rid(i, q)) <==> IxNode.Rid(i, q) in f.records;
  }

  lemma RecordPages(f: File)
    requires Ok(f)
    ensures forall r :: r in f.records ==> 1 <= r.pageNo < f.numPages && r.pageNo in f.pages
  {
    hide IsSet;
    forall r | r in f.records
      ensures r.pageNo in f.pages
    {
      assert Live(f, r);
    }
  }

  /** The first loop of the constructor: the first live record, if there is one. */
  method FirstRecord(fh: RmFileHandle, uninitialised: Rid) returns (start: Rid)
    requires fh.Valid()
    ensures fh.records != map[] ==> start in fh.records && forall r :: r in fh.records ==> !Before(r, start)
  {
    hide Ok, IsSet;
    ghost var f := fh.View();
    RecordPages(f);
    start := uninitialised;
    var i := 1;
    while i < fh.numPages
      invariant 1 <= i
      invariant forall r :: r in f.records ==> i <= r.pageNo
    {
      PageReady(f, i);
      LiveInPage(f, i);
      var j := NextBit(true, fh.pages[i].bitmap, fh.perPage, -1);
      if j != fh.perPage {
        start := IxNode.Rid(i, j);
        return;
      }
      if i == fh.numPages - 1 {
        start := IxNode.Rid(i, j);
      }
      start := IxNode.Rid(start.pageNo + 1, -1);
      i := i + 1;
    }
    assert forall r :: r !in f.records;
  }

  /** The second loop of the constructor: the last page with a live record. */
  method LastPage(fh: RmFileHandle) returns (endPage: int)
    requires fh.Valid()
    ensures EndPageOk(fh.View(), endPage)
  {
    hide Ok, IsSet;
    ghost var f := fh.View();
    RecordPages(f);
    endPage := NO_PAGE;
    var i := fh.numPages - 1;
    while i > 0
      invariant i < fh.numPages && endPage == NO_PAGE
      invariant forall r :: r in f.records ==> r.pageNo <= i
    {
      PageReady(f, i);
      LiveInPage(f, i);
      var j := NextBit(true, fh.pages[i].bitmap, fh.perPage, -1);
      if j != fh.perPage {
        endPage := i;
        assert IxNode.Rid(i, j) in f.records;
        return;
      }
      if i == 1 {
        endPage := NO_PAGE;
      }
      i := i - 1;
    }
    assert forall r :: r !in f.records;
  }

  lemma Started(f: File, start: Rid, endPage: int)
    requires Ok(f) && EndPageOk(f, endPage)
    requires f.records != map[] ==> start in f.records && forall r :: r in f.records ==> !Before(r, start)
    ensures (endPage == NO_PAGE || start.pageNo > endPage) <==> LiveList(f) == []
    ensures LiveList(f) != [] ==> LiveList(f)[0] == start
  {
    hide PagesOk, ChainOk, RecordsOk, LiveList;
    LiveListOk(f);
    var list := LiveList(f);
    if f.records != map[] {
      FirstIs(list, start);
    } else {
      var r := if list == [] then start else list[0];
      assert list != [] ==> r in list;
    }
  }

  lemma CurrentOk(f: File, list: seq<Rid>, x: nat, rid: Rid)
    requires Ok(f) && list == LiveList(f) && x < |list| && list[x] == rid
    ensures rid in f.records && 1 <= rid.pageNo < f.numPages && 0 <= rid.slotNo < f.perPage
  {
    hide IsSet, ChainOk;
    LiveListOk(f);
    assert rid in list;
    assert Live(f, rid);
  }

  /** The next used slot of the page is the next record. */
  lemma Advance(f: File, list: seq<Rid>, x: nat, from: Rid, cur: Rid, to: Rid)
    requires Ok(f) && list == LiveList(f) && x < |list| && list[x] == from && to.pageNo == cur.pageNo
    requires to.pageNo in f.pages
    requires PageOk(f.pages[to.pageNo], f.perPage) && -1 <= cur.slotNo < to.slotNo < f.perPage
    requires IsSet(f.pages[to.pageNo].bitmap, to.slotNo)
    requires forall q :: cur.slotNo < q < to.slotNo ==> !IsSet(f.pages[to.pageNo].bitmap, q)
    requires cur == from || (cur.slotNo == -1 && from.pageNo < cur.pageNo)
    requires forall r :: r in f.records && Before(from, r) ==> cur.pageNo <= r.pageNo
    ensures At(list, x + 1, to)
  {
    hide IsSet, Ok, LiveList, Ordered;
    LiveListOk(f);
    LiveInPage(f, to.pageNo);
    assert to in list;
    NextIs(list, x, to);
  }

  lemma Exhausted(f: File, from: Rid, cur: Rid)
    requires Ok(f) && cur.pageNo in f.pages && PageOk(f.pages[cur.pageNo], f.perPage) && -1 <= cur.slotNo
    requires forall q :: cur.slotNo < q < f.perPage ==> !IsSet(f.pages[cur.pageNo].bitmap, q)
    requires cur == from || (cur.slotNo == -1 && from.pageNo < cur.pageNo)
    requires forall r :: r in f.records && Before(from, r) ==> cur.pageNo <= r.pageNo
    ensures forall r :: r in f.records && Before(from, r) ==> cur.pageNo + 1 <= r.pageNo
  {
    hide IsSet, Ok;
    LiveInPage(f, cur.pageNo);
  }

  lemma Finished(f: File, list: seq<Rid>, x: nat, from: Rid, endPage: int)
    requires Ok(f) && EndPageOk(f, endPage) && list == LiveList(f) && x < |list| && list[x] == from
    requires forall r :: r in f.records && Before(from, r) ==> endPage < r.pageNo
    ensures x + 1 == |list|
  {
    hide Ok, LiveList, Ordered;
    LiveListOk(f);
    LastIs(list, x);
  }
}
