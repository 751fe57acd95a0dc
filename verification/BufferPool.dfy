/** The buffer pool as a cache over the disk. The specification is a plain map from page
    ids to page contents, `Contents`, which no caching operation changes. */
module BufferPool {
  import opened Defs
  import opened PageIds
  import opened Replacer

  datatype PageData = PageData(lsn: int, body: seq<bv8>)

  function Zeros(n: nat): (r: seq<bv8>)
    ensures |r| == n && forall i :: 0 <= i < n ==> r[i] == 0
  {
    if n == 0 then [] else Zeros(n - 1) + [0]
  }

  /** A page of zero bytes; the first four are the page LSN. */
  const ZERO_PAGE: PageData := PageData(0, Zeros(PAGE_SIZE - 4))

  datatype Frame = Frame(id: PageId, data: PageData, pin: nat, dirty: bool)

  /** `written` marks the frames that a client has changed and not yet reported dirty. */
  datatype Pool = Pool(frames: seq<Frame>, table: map<PageId, int>, free: seq<int>, lru: seq<int>,
                       disk: map<PageId, PageData>, written: set<int>)

  ghost predicate IsFrame(p: Pool, f: int) {
    0 <= f < |p.frames|
  }

  ghost predicate TableOk(p: Pool) {
    && INVALID_PAGE !in p.disk
    && (forall id :: id in p.table ==>
        id in p.disk && IsFrame(p, p.table[id]) && p.frames[p.table[id]].id == id && p.table[id] !in p.free)
    && (forall f :: IsFrame(p, f) && f !in p.free ==> p.frames[f].id in p.table && p.table[p.frames[f].id] == f)
  }

  /** A frame is unpinned exactly when it is in one of the lists; it may be in both. */
  ghost predicate ListsOk(p: Pool) {
    && Distinct(p.free) && Distinct(p.lru)
    && (forall f :: f in p.free ==> IsFrame(p, f) && p.frames[f].id == INVALID_PAGE && !p.frames[f].dirty)
    && (forall f :: f in p.lru ==> IsFrame(p, f))
    && (forall f :: IsFrame(p, f) ==> (p.frames[f].pin == 0 <==> f in p.free || f in p.lru))
  }

  /** A frame that is neither dirty nor written since agrees with the disk. */
  ghost predicate CopyOk(p: Pool, f: int)
    requires IsFrame(p, f)
  {
    && (f in p.written ==> p.frames[f].pin > 0 || p.frames[f].dirty)
    && (f !in p.free && f !in p.written && !p.frames[f].dirty ==>
        p.frames[f].id in p.disk && p.frames[f].data == p.disk[p.frames[f].id])
  }

  ghost predicate Ok(p: Pool) {
    && TableOk(p) && ListsOk(p)
    && (forall f :: IsFrame(p, f) ==> CopyOk(p, f))
    && (forall f :: f in p.written ==> IsFrame(p, f))
  }

  ghost function Contents(p: Pool): map<PageId, PageData>
    requires TableOk(p)
  {
    map id | id in p.disk :: if id in p.table then p.frames[p.table[id]].data else p.disk[id]
  }

  ghost function WrittenBack(p: Pool, f: int): map<PageId, PageData>
    requires IsFrame(p, f)
  {
    if p.frames[f].dirty then p.disk[p.frames[f].id := p.frames[f].data] else p.disk
  }

  /** The frame comes from the head of the free list, or else is the LRU victim. */
  ghost predicate Taken(p: Pool, f: int, free: seq<int>, lru: seq<int>) {
    if p.free != [] then f == p.free[0] && free == p.free[1..] && lru == p.lru
    else free == [] && p.lru == lru + [f]
  }

  ghost function Loaded(p: Pool, f: int, id: PageId, data: PageData, free: seq<int>, lru: seq<int>, disk: map<PageId,
                        PageData>): Pool
    requires IsFrame(p, f)
  {
    Pool(p.frames[f := Frame(id, data, 1, false)], (p.table - {p.frames[f].id})[id := f], free, Without(lru, f), disk,
         p.written - {f})
  }

  /** Which frame is taken: the head of the free list, else the least recently unpinned. */
  ghost function VictimOf(p: Pool): int {
    if p.free != [] then p.free[0] else if p.lru != [] then p.lru[|p.lru| - 1] else -1
  }

  lemma TakenIsVictim(p: Pool, f: int, free: seq<int>, lru: seq<int>)
    requires Ok(p) && Taken(p, f, free, lru)
    ensures f == VictimOf(p) && free == (if p.free == [] then [] else p.free[1..])
    ensures Without(lru, f) == Without(p.lru, f)
  {
    if p.free == [] {
      assert forall i :: 0 <= i < |lru| ==> p.lru[i] == lru[i];
      assert p.lru[|lru|] == f;
      WithoutLast(lru, f);
    }
  }

  lemma {:induction false} WithoutLast(s: seq<int>, x: int)
    requires x !in s
    ensures Without(s + [x], x) == s == Without(s, x)
  {
    if s != [] {
      assert (s + [x])[1..] == s[1..] + [x];
      WithoutLast(s[1..], x);
    }
  }

  lemma TakenIsUnpinned(p: Pool, f: int, free: seq<int>, lru: seq<int>)
    requires Ok(p) && Taken(p, f, free, lru)
    ensures IsFrame(p, f) && p.frames[f].pin == 0 && f !in free
    ensures Distinct(free) && (forall g :: g in free <==> g in p.free && g != f)
    ensures Distinct(Without(lru, f)) && (forall g :: g in Without(lru, f) <==> g in p.lru && g != f)
    ensures f !in p.free ==> p.free == []
  {
    assert p.free == [] ==> forall i :: 0 <= i < |lru| ==> lru[i] == p.lru[i];
    WithoutElements(lru, f);
    if p.free != [] {
      assert p.free == [f] + free;
    } else {
      assert f in p.lru;
    }
  }

  /** Moving a page into an unpinned frame keeps the pool consistent and changes the
      contents of no other page; what was dirty in the frame is on disk. */
  lemma LoadOk(p: Pool, f: int, id: PageId, data: PageData, free: seq<int>, lru: seq<int>, disk: map<PageId, PageData>)
    requires Ok(p) && Taken(p, f, free, lru) && IsFrame(p, f)
    requires id !in p.table && id != INVALID_PAGE
    requires disk == WrittenBack(p, f)[id := data]
    ensures Ok(Loaded(p, f, id, data, free, lru, disk))
    ensures Contents(Loaded(p, f, id, data, free, lru, disk)) == Contents(p)[id := data]
  {
    hide Without, Distinct, TableOk, CopyOk, Taken, WrittenBack;
    TakenIsUnpinned(p, f, free, lru);
    var q := Loaded(p, f, id, data, free, lru, disk);
    forall g | IsFrame(q, g)
      ensures CopyOk(q, g)
    {
      LoadCopy(p, f, id, data, free, lru, disk, g);
    }
    LoadTable(p, f, id, data, free, lru, disk);
    LoadContents(p, f, id, data, free, lru, disk);
  }

  lemma LoadCopy(p: Pool, f: int, id: PageId, data: PageData, free: seq<int>, lru: seq<int>, disk: map<PageId,
                 PageData>, g: int)
    requires TableOk(p) && IsFrame(p, f) && IsFrame(p, g) && CopyOk(p, g) && id !in p.table
    requires forall g :: g in free <==> g in p.free && g != f
    requires f in p.free ==> !p.frames[f].dirty
    requires disk == WrittenBack(p, f)[id := data]
    ensures CopyOk(Loaded(p, f, id, data, free, lru, disk), g)
  {
    hide Without;
    if g != f && g !in p.free {
      assert p.frames[g].id in p.table && p.table[p.frames[g].id] == g;
      assert f !in p.free ==> p.table[p.frames[f].id] == f;
    }
  }

  lemma LoadTable(p: Pool, f: int, id: PageId, data: PageData, free: seq<int>, lru: seq<int>, disk: map<PageId,
                  PageData>)
    requires TableOk(p) && IsFrame(p, f) && id !in p.table && id != INVALID_PAGE && f !in free
    requires forall g :: g in free <==> g in p.free && g != f
    requires f in p.free ==> p.frames[f].id == INVALID_PAGE && !p.frames[f].dirty
    requires disk == WrittenBack(p, f)[id := data]
    ensures TableOk(Loaded(p, f, id, data, free, lru, disk))
  {
    hide Without;
    var q := Loaded(p, f, id, data, free, lru, disk);
    forall g | IsFrame(q, g) && g !in q.free
      ensures q.frames[g].id in q.table && q.table[q.frames[g].id] == g
    {
      assert g != f ==> p.frames[g].id in p.table && p.table[p.frames[g].id] == g;
    }
  }

  lemma LoadContents(p: Pool, f: int, id: PageId, data: PageData, free: seq<int>, lru: seq<int>, disk: map<PageId,
                     PageData>)
    requires TableOk(p) && IsFrame(p, f) && CopyOk(p, f) && id !in p.table && p.frames[f].pin == 0
    requires f in p.free ==> p.frames[f].id == INVALID_PAGE && !p.frames[f].dirty
    requires disk == WrittenBack(p, f)[id := data]
    requires TableOk(Loaded(p, f, id, data, free, lru, disk))
    ensures Contents(Loaded(p, f, id, data, free, lru, disk)) == Contents(p)[id := data]
  {
    hide Without;
    var q := Loaded(p, f, id, data, free, lru, disk);
    forall x | x in q.disk
      ensures x in Contents(p)[id := data] && Contents(q)[x] == Contents(p)[id := data][x]
    {
      if x != id && x in p.table && p.table[x] == f {
        assert p.frames[f].id == x;
      }
    }
  }

  /** A change of one resident frame that keeps its page and agrees with the lists. */
  lemma FrameOk(p: Pool, q: Pool, f: int)
    requires Ok(p) && IsFrame(p, f) && f !in p.free && q.table == p.table && q.free == p.free
    requires |q.frames| == |p.frames|
    requires forall g :: IsFrame(p, g) && g != f ==> q.frames[g] == p.frames[g] && (g in q.written <==> g in p.written)
    requires q.frames[f].id == p.frames[f].id && (forall g :: g in q.written ==> IsFrame(q, g))
    requires Distinct(q.lru) && (forall g :: g != f ==> (g in q.lru <==> g in p.lru))
    requires (q.frames[f].pin == 0 <==> f in q.lru)
    requires q.disk == p.disk || q.disk == p.disk[p.frames[f].id := p.frames[f].data]
    requires CopyOk(q, f)
    ensures Ok(q) && Contents(q) == Contents(p)[p.frames[f].id := q.frames[f].data]
  {
    hide Distinct;
    forall g | IsFrame(q, g)
      ensures CopyOk(q, g)
    {
      assert CopyOk(p, g) && CopyOk(p, f);
      assert g != f && g !in p.free ==> p.frames[g].id != p.frames[f].id;
    }
    FrameTable(p, q, f);
  }

  lemma FrameTable(p: Pool, q: Pool, f: int)
    requires TableOk(p) && IsFrame(p, f) && f !in p.free && q.table == p.table && q.free == p.free
    requires |q.frames| == |p.frames| && (forall g :: IsFrame(p, g) && g != f ==> q.frames[g] == p.frames[g])
    requires q.frames[f].id == p.frames[f].id
    requires q.disk == p.disk || q.disk == p.disk[p.frames[f].id := p.frames[f].data]
    ensures TableOk(q) && Contents(q) == Contents(p)[p.frames[f].id := q.frames[f].data]
  {
    assert forall g :: IsFrame(p, g) ==> q.frames[g].id == p.frames[g].id;
    assert p.frames[f].id in p.table && p.table[p.frames[f].id] == f;
  }

  lemma PinOk(p: Pool, f: int)
    requires Ok(p) && IsFrame(p, f) && f !in p.free
    ensures var q := p.(frames := p.frames[f := p.frames[f].(pin := p.frames[f].pin + 1)], lru := Without(p.lru, f));
            Ok(q) && Contents(q) == Contents(p)
  {
    hide TableOk, Without, Distinct;
    WithoutElements(p.lru, f);
    var q := p.(frames := p.frames[f := p.frames[f].(pin := p.frames[f].pin + 1)], lru := Without(p.lru, f));
    assert CopyOk(p, f);
    FrameOk(p, q, f);
    Resident(p, f);
  }

  lemma Resident(p: Pool, f: int)
    requires TableOk(p) && IsFrame(p, f) && f !in p.free
    ensures p.frames[f].id in p.table && p.table[p.frames[f].id] == f && p.frames[f].id in p.disk
    ensures Contents(p)[p.frames[f].id := p.frames[f].data] == Contents(p)
  {
  }

  function Unpinned(frame: Frame, dirty: bool): Frame
    requires frame.pin > 0
  {
    Frame(frame.id, frame.data, frame.pin - 1, frame.dirty || dirty)
  }

  function Pushed(lru: seq<int>, f: int): seq<int> {
    if f in lru then lru else [f] + lru
  }

  lemma UnpinOk(p: Pool, f: int, dirty: bool)
    requires Ok(p) && IsFrame(p, f) && f !in p.free && p.frames[f].pin > 0
    ensures var q := p.(frames := p.frames[f := Unpinned(p.frames[f], dirty)],
                        lru := if p.frames[f].pin == 1 then Pushed(p.lru, f) else p.lru);
            && (Ok(q) <==> (p.frames[f].pin == 1 && f in p.written ==> dirty || p.frames[f].dirty))
            && TableOk(q) && Contents(q) == Contents(p)
  {
    hide TableOk;
    var q := p.(frames := p.frames[f := Unpinned(p.frames[f], dirty)],
                lru := if p.frames[f].pin == 1 then Pushed(p.lru, f) else p.lru);
    assert CopyOk(p, f);
    assert f !in p.lru;
    Resident(p, f);
    FrameTable(p, q, f);
    if CopyOk(q, f) { FrameOk(p, q, f); }
  }

  lemma WriteOk(p: Pool, f: int, data: PageData)
    requires Ok(p) && IsFrame(p, f) && f !in p.free && p.frames[f].pin > 0
    ensures var q := p.(frames := p.frames[f := p.frames[f].(data := data)], written := p.written + {f});
            Ok(q) && Contents(q) == Contents(p)[p.frames[f].id := data]
  {
    hide TableOk, Distinct;
    FrameOk(p, p.(frames := p.frames[f := p.frames[f].(data := data)], written := p.written + {f}), f);
  }

  lemma FlushOk(p: Pool, f: int)
    requires Ok(p) && IsFrame(p, f) && f !in p.free
    ensures var q := p.(frames := p.frames[f := p.frames[f].(dirty := false)], written := p.written - {f},
                        disk := p.disk[p.frames[f].id := p.frames[f].data]);
            Ok(q) && Contents(q) == Contents(p)
  {
    hide TableOk, Distinct;
    var q := p.(frames := p.frames[f := p.frames[f].(dirty := false)], written := p.written - {f},
                disk := p.disk[p.frames[f].id := p.frames[f].data]);
    FrameOk(p, q, f);
    Resident(p, f);
  }

  ghost function Deleted(p: Pool, f: int): Pool
    requires IsFrame(p, f)
  {
    Pool(p.frames[f := Frame(INVALID_PAGE, ZERO_PAGE, 0, false)], p.table - {p.frames[f].id}, p.free + [f], p.lru,
         WrittenBack(p, f), p.written - {f})
  }

  lemma DeleteOk(p: Pool, f: int)
    requires Ok(p) && IsFrame(p, f) && f !in p.free && p.frames[f].pin == 0
    ensures Ok(Deleted(p, f)) && Contents(Deleted(p, f)) == Contents(p)
  {
    var q := Deleted(p, f);
    Resident(p, f);
    assert CopyOk(p, f);
    assert q.free[|p.free|] == f;
    assert forall g :: g in q.free <==> g in p.free || g == f;
    forall g | IsFrame(q, g)
      ensures CopyOk(q, g)
    {
      assert CopyOk(p, g);
    }
    DeleteTable(p, f);
  }

  lemma DeleteTable(p: Pool, f: int)
    requires TableOk(p) && IsFrame(p, f) && f !in p.free && CopyOk(p, f) && p.frames[f].pin == 0
    requires forall g :: g in p.free + [f] <==> g in p.free || g == f
    ensures TableOk(Deleted(p, f)) && Contents(Deleted(p, f)) == Contents(p)
  {
    Resident(p, f);
    var q := Deleted(p, f);
    forall g | IsFrame(q, g) && g !in q.free
      ensures q.frames[g].id in q.table && q.table[q.frames[g].id] == g
    {
      assert p.frames[g].id in p.table && p.table[p.frames[g].id] == g;
    }
  }
}
