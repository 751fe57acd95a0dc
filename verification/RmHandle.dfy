/** The operations of a record file and the scan over it. */
module RmHandle {
  import opened Defs
  import opened Bitmap
  import opened RmFile

  /** `create_file`: how many records a page holds and how long its bitmap is. One record
      more would leave nothing of the page, counting the header of the file for that of the
      page. */
  method CreateFile(recordSize: int) returns (ok: bool, perPage: nat, bitmapSize: nat)
    ensures ok <==> 1 <= recordSize <= RM_MAX_RECORD_SIZE
    ensures ok ==> 1 <= perPage <= BITMAP_WIDTH * bitmapSize < perPage + BITMAP_WIDTH
    ensures ok ==> forall i, j :: 0 <= i < j < perPage ==>
              SlotEnd(bitmapSize, recordSize, i) <= SlotStart(bitmapSize, recordSize, j)
    ensures ok ==> forall i :: 0 <= i < perPage ==>
                     && BITMAP_OFFSET + bitmapSize <= SlotStart(bitmapSize, recordSize, i)
                     && SlotEnd(bitmapSize, recordSize, i) <= PAGE_SIZE
    ensures ok ==> var more := perPage + 1;
              PAGE_SIZE <= FILE_HDR_SIZE + (more + BITMAP_WIDTH - 1) / BITMAP_WIDTH + more * recordSize
  {
    hide SlotStart, SlotEnd;
    if recordSize < 1 || recordSize > RM_MAX_RECORD_SIZE {
      return false, 0, 0;
    }
    perPage := (BITMAP_WIDTH * (PAGE_SIZE - 1 - FILE_HDR_SIZE) + 1) / (1 + recordSize * BITMAP_WIDTH);
    bitmapSize := (perPage + BITMAP_WIDTH - 1) / BITMAP_WIDTH;
    ok := true;
    SlotsFit(recordSize, perPage, bitmapSize);
    NoneMore(recordSize, perPage);
  }

  lemma SlotsFit(recordSize: int, n: nat, bitmapSize: nat)
    requires 1 <= recordSize <= RM_MAX_RECORD_SIZE
    requires n == (BITMAP_WIDTH * (PAGE_SIZE - 1 - FILE_HDR_SIZE) + 1) / (1 + recordSize * BITMAP_WIDTH)
    requires bitmapSize == (n + BITMAP_WIDTH - 1) / BITMAP_WIDTH
    ensures 1 <= n <= BITMAP_WIDTH * bitmapSize < n + BITMAP_WIDTH
    ensures forall i, j :: 0 <= i < j < n ==> SlotEnd(bitmapSize, recordSize, i) <= SlotStart(bitmapSize, recordSize, j)
    ensures forall i :: 0 <= i < n ==>
              && BITMAP_OFFSET + bitmapSize <= SlotStart(bitmapSize, recordSize, i)
              && SlotEnd(bitmapSize, recordSize, i) <= PAGE_SIZE
  {
    PageFits(recordSize, n, bitmapSize);
    forall i, j | 0 <= i < j < n
      ensures SlotEnd(bitmapSize, recordSize, i) <= SlotStart(bitmapSize, recordSize, j)
    {
      Multiples(recordSize, i + 1, j);
    }
    forall i | 0 <= i < n
      ensures BITMAP_OFFSET + bitmapSize <= SlotStart(bitmapSize, recordSize, i)
      ensures SlotEnd(bitmapSize, recordSize, i) <= PAGE_SIZE
    {
      Multiples(recordSize, 0, i);
      Multiples(recordSize, i + 1, n);
    }
  }

  lemma NoneMore(recordSize: int, n: nat)
    requires 1 <= recordSize
    requires n == (BITMAP_WIDTH * (PAGE_SIZE - 1 - FILE_HDR_SIZE) + 1) / (1 + recordSize * BITMAP_WIDTH)
    ensures var more := n + 1;
            PAGE_SIZE <= FILE_HDR_SIZE + (more + BITMAP_WIDTH - 1) / BITMAP_WIDTH + more * recordSize
  {
    var m, d := BITMAP_WIDTH * (PAGE_SIZE - 1 - FILE_HDR_SIZE) + 1, 1 + recordSize * BITMAP_WIDTH;
    assert m == n * d + m % d && m % d < d;
    assert m < (n + 1) * d;
    assert (n + 1) * d == (n + 1) + BITMAP_WIDTH * ((n + 1) * recordSize);
  }

  lemma Multiples(d: int, i: int, j: int)
    requires 0 <= d && i <= j
    ensures i * d <= j * d
  {
  }

  /** `get_slot`: where the bytes of a slot are within the page. */
  function SlotStart(bitmapSize: nat, recordSize: int, slot: int): int {
    BITMAP_OFFSET + bitmapSize + slot * recordSize
  }

  function SlotEnd(bitmapSize: nat, recordSize: int, slot: int): int {
    SlotStart(bitmapSize, recordSize, slot) + recordSize
  }

  lemma PageFits(recordSize: int, n: nat, bitmapSize: nat)
    requires 1 <= recordSize <= RM_MAX_RECORD_SIZE
    requires n == (BITMAP_WIDTH * (PAGE_SIZE - 1 - FILE_HDR_SIZE) + 1) / (1 + recordSize * BITMAP_WIDTH)
    requires bitmapSize == (n + BITMAP_WIDTH - 1) / BITMAP_WIDTH
    ensures 1 <= n <= BITMAP_WIDTH * bitmapSize < n + BITMAP_WIDTH
    ensures BITMAP_OFFSET + bitmapSize + n * recordSize <= PAGE_SIZE
  {
    var m, d := BITMAP_WIDTH * (PAGE_SIZE - 1 - FILE_HDR_SIZE) + 1, 1 + recordSize * BITMAP_WIDTH;
    assert n * d + m % d == m;
    assert n * d == n + 8 * (n * recordSize);
    assert d <= m;
  }

  lemma InsertOk(f: File, g: File, slot: nat, buf: Bytes)
    requires Ok(f) && f.chain != [] && slot < f.perPage && f.chain[0] in f.pages
    requires !IsSet(f.pages[f.chain[0]].bitmap, slot)
    requires var p := f.chain[0]; var page := Filled(f.pages[p], slot, buf);
             if page.numRecords >= f.perPage
             then g == f.(firstFree := page.nextFree, pages := f.pages[p := page.(nextFree := NO_PAGE)],
                          chain := f.chain[1..],
                          records := f.records[IxNode.Rid(p, slot) := buf])
             else g == f.(pages := f.pages[p := page], records := f.records[IxNode.Rid(p, slot) := buf])
    ensures Ok(g)
  {
    hide IsSet, Set, RecordsOk;
    var p := f.chain[0];
    FilledOk(f.pages[p], f.perPage, slot, buf);
    assert PagesOk(g);
    InsertChain(f, g);
    RecordsChange(f, g, p, slot, true, buf);
  }

  lemma InsertChain(f: File, g: File)
    requires PagesOk(f) && PagesOk(g) && ChainOk(f) && f.chain != [] && f.perPage == g.perPage
    requires g.pages.Keys == f.pages.Keys
    requires var p := f.chain[0];
             && p in f.pages && g.pages[p].numRecords == f.pages[p].numRecords + 1
             && (forall q :: q in f.pages && q != p ==> g.pages[q] == f.pages[q])
             && (if Full(g, p) then g.firstFree == f.pages[p].nextFree && g.chain == f.chain[1..]
                 else g.firstFree == f.firstFree && g.chain == f.chain && g.pages[p].nextFree == f.pages[p].nextFree)
    ensures ChainOk(g)
  {
    hide PageOk;
    var p := f.chain[0];
    assert Link(f, 0);
    forall i | 0 <= i < |g.chain|
      ensures Link(g, i)
    {
      var k := |f.chain| - |g.chain|;
      assert g.chain[i] == f.chain[i + k] && Link(f, i + k);
    }
    assert forall q :: q in f.chain <==> q == p || q in f.chain[1..];
  }

  /** The file with an empty page at its end, which heads the free list. */
  ghost function Extended(f: File, page: RmPage): File {
    File(f.perPage, f.numPages + 1, f.numPages, f.pages[f.numPages := page], [f.numPages], f.records)
  }

  lemma NewPageOk(f: File, page: RmPage)
    requires Ok(f) && f.chain == [] && page.nextFree == NO_PAGE && page.numRecords == 0 && |page.slots| == f.perPage
    requires f.perPage <= BITMAP_WIDTH * |page.bitmap| && forall q :: 0 <= q < f.perPage ==> !IsSet(page.bitmap, q)
    ensures Ok(Extended(f, page))
  {
    hide IsSet;
    CountBounds(page.bitmap, f.perPage);
    var g := Extended(f, page);
    forall p | p in g.pages
      ensures p in g.chain <==> !Full(g, p)
    {
      assert p != f.numPages ==> p in f.pages && Full(f, p);
    }
    forall r: Rid
      ensures Live(g, r) <==> Live(f, r)
    {
    }
  }

  /** A page of the free list has a free slot. */
  lemma HasFreeSlot(f: File)
    requires Ok(f) && f.chain != []
    ensures f.firstFree == f.chain[0] && f.firstFree in f.pages && f.firstFree != NO_PAGE
    ensures var page := f.pages[f.firstFree];
            PageOk(page, f.perPage) && exists q :: 0 <= q < f.perPage && !IsSet(page.bitmap, q)
  {
    hide IsSet;
    assert Link(f, 0);
    assert !Full(f, f.chain[0]);
    CountBounds(f.pages[f.chain[0]].bitmap, f.perPage);
  }

  lemma DeleteOk(f: File, g: File, r: Rid)
    requires Ok(f) && r in f.records && Live(f, r)
    requires var p := r.pageNo; var page := Emptied(f.pages[p], r.slotNo);
             if page.numRecords == f.perPage - 1 && p != f.firstFree
             then g == f.(firstFree := p, pages := f.pages[p := page.(nextFree := f.firstFree)], chain := [p] + f.chain,
                          records := f.records - {r})
             else g == f.(pages := f.pages[p := page], records := f.records - {r})
    ensures Ok(g)
  {
    hide IsSet, Reset, RecordsOk;
    EmptiedOk(f.pages[r.pageNo], f.perPage, r.slotNo);
    CountBounds(f.pages[r.pageNo].bitmap, f.perPage);
    assert PagesOk(g);
    DeleteChain(f, g, r.pageNo);
    RecordsChange(f, g, r.pageNo, r.slotNo, false, []);
  }

  lemma DeleteChain(f: File, g: File, p: int)
    requires PagesOk(f) && PagesOk(g) && ChainOk(f) && f.perPage == g.perPage && g.pages.Keys == f.pages.Keys
    requires p in f.pages
    requires g.pages[p].numRecords == f.pages[p].numRecords - 1 && f.pages[p].numRecords <= f.perPage
    requires forall q :: q in f.pages && q != p ==> g.pages[q] == f.pages[q]
    requires if g.pages[p].numRecords == f.perPage - 1 && p != f.firstFree
             then g.firstFree == p && g.pages[p].nextFree == f.firstFree && g.chain == [p] + f.chain
             else g.firstFree == f.firstFree && g.pages[p].nextFree == f.pages[p].nextFree && g.chain == f.chain
    ensures ChainOk(g)
  {
    hide PageOk;
    if Full(f, p) {
      assert p !in f.chain;
      assert p != f.firstFree;
    }
    forall i | 0 <= i < |g.chain|
      ensures Link(g, i)
    {
      var k := |g.chain| - |f.chain|;
      if i >= k { assert g.chain[i] == f.chain[i - k] && Link(f, i - k); }
    }
    assert forall q :: q in [p] + f.chain <==> q == p || q in f.chain;
  }

  lemma UpdateOk(f: File, g: File, r: Rid, buf: Bytes)
    requires Ok(f) && r.pageNo in f.pages && 0 <= r.slotNo < f.perPage && |f.pages[r.pageNo].slots| == f.perPage
    requires var page := f.pages[r.pageNo];
             g == f.(pages := f.pages[r.pageNo := page.(slots := page.slots[r.slotNo := buf])],
                     records := if r in f.records then f.records[r := buf] else f.records)
    ensures Ok(g)
  {
    hide IsSet;
    assert PagesOk(g);
    assert ChainOk(g) by {
      forall i | 0 <= i < |g.chain|
        ensures Link(g, i)
      {
        assert Link(f, i);
      }
    }
    forall x: Rid
      ensures Live(g, x) <==> Live(f, x)
    {
    }
  }

  class RmFileHandle {
    const perPage: nat
    const bitmapSize: nat
    var numPages: int
    var firstFree: int
    var pages: map<int, RmPage>
    ghost var chain: seq<int>
    /** The records of the file by position. */
    ghost var records: map<Rid, Bytes>

    ghost function View(): File
      reads this
    {
      File(perPage, numPages, firstFree, pages, chain, records)
    }

    ghost predicate Valid()
      reads this
    {
      Ok(View()) && perPage <= BITMAP_WIDTH * bitmapSize
    }

    constructor (perPage: nat, bitmapSize: nat)
      requires 1 <= perPage <= BITMAP_WIDTH * bitmapSize
      ensures Valid() && records == map[] && this.perPage == perPage
    {
      this.perPage, this.bitmapSize := perPage, bitmapSize;
      numPages, firstFree, pages, chain, records := 1, NO_PAGE, map[], [], map[];
    }

    /** `create_page_handle`: the first page of the free list, or a new page. */
    method CreatePageHandle() returns (p: int)
      requires Valid()
      modifies this`numPages, this`firstFree, this`pages, this`chain
      ensures Valid() && chain != [] && p == chain[0] == firstFree
      ensures old(firstFree) != NO_PAGE ==> View() == old(View())
      ensures old(firstFree) == NO_PAGE ==> p == old(numPages) && numPages == p + 1
    {
      hide PagesOk, ChainOk, RecordsOk;
      if firstFree != NO_PAGE {
        p := firstFree;
        NotEmpty(View());
      } else {
        p := numPages;
        var zeros := seq(bitmapSize, i => 0 as bv8);
        var page := RmPage(NO_PAGE, 0, zeros, seq(perPage, _ => []));
        NothingSet(zeros, perPage);
        EmptyChain(View());
        NewPageOk(View(), page);
        pages := pages[numPages := page];
        firstFree, chain := numPages, [numPages];
        numPages := numPages + 1;
      }
    }

    /** `insert_record` always finds a free slot, which was not live before. */
    method InsertRecord(buf: Bytes) returns (rid: Rid)
      requires Valid()
      modifies this
      ensures Valid() && rid !in old(records) && records == old(records)[rid := buf]
      ensures rid.pageNo == (if old(firstFree) == NO_PAGE then old(numPages) else old(firstFree))
      ensures numPages == old(numPages) + if old(firstFree) == NO_PAGE then 1 else 0
      ensures forall q :: 0 <= q < rid.slotNo ==> IxNode.Rid(rid.pageNo, q) in old(records)
    {
      hide PagesOk, ChainOk, RecordsOk, IsSet, Set;
      var p := CreatePageHandle();
      ghost var f := View();
      HasFreeSlot(f);
      var slot := NextBit(false, pages[p].bitmap, perPage, -1);
      rid := IxNode.Rid(p, slot);
      NotLive(f, rid);
      LiveBelow(f, rid);
      var page := Filled(pages[p], slot, buf);
      records := records[rid := buf];
      if page.numRecords >= perPage {
        firstFree := page.nextFree;
        page := page.(nextFree := NO_PAGE);
        chain := chain[1..];
      }
      pages := pages[p := page];
      InsertOk(f, View(), slot, buf);
    }

    /** `delete_record`. It does not look at the bitmap: the file stays consistent exactly
        when the record was live. */
    method DeleteRecord(rid: Rid)
      requires Valid() && rid.pageNo in pages && 0 <= rid.slotNo < perPage
      modifies this`pages, this`firstFree, this`chain, this`records
      ensures Valid() <==> rid in old(records)
      ensures records == old(records) - {rid}
      ensures pages.Keys == old(pages).Keys && pages[rid.pageNo].numRecords == old(pages)[rid.pageNo].numRecords - 1
    {
      hide PagesOk, ChainOk, IsSet, Reset, RecordsOk;
      ghost var f := View();
      SlotInBitmap(f, rid);
      var page := Emptied(pages[rid.pageNo], rid.slotNo);
      if page.numRecords == perPage - 1 && rid.pageNo != firstFree {
        page := page.(nextFree := firstFree);
        firstFree := rid.pageNo;
        chain := [rid.pageNo] + chain;
      }
      pages := pages[rid.pageNo := page];
      records := records - {rid};
      if rid in f.records {
        IsLive(f, rid);
        DeleteOk(f, View(), rid);
      } else {
        DeleteDead(f, View(), rid);
      }
    }

    /** `update_record` writes the slot and leaves the bitmap alone. */
    method UpdateRecord(rid: Rid, buf: Bytes)
      requires Valid() && rid.pageNo in pages && 0 <= rid.slotNo < perPage
      modifies this`pages, this`records
      ensures Valid() && records == if rid in old(records) then old(records)[rid := buf] else old(records)
      ensures var page := old(pages)[rid.pageNo];
              && rid.slotNo < |page.slots|
              && pages == old(pages)[rid.pageNo := page.(slots := page.slots[rid.slotNo := buf])]
    {
      hide ChainOk, RecordsOk;
      ghost var f := View();
      var page := pages[rid.pageNo];
      assert PageOk(page, perPage);
      pages := pages[rid.pageNo := page.(slots := page.slots[rid.slotNo := buf])];
      records := if rid in records then records[rid := buf] else records;
      UpdateOk(f, View(), rid, buf);
    }

    /** `get_record` does not look at the bitmap either. */
    method GetRecord(rid: Rid) returns (buf: Bytes)
      requires Valid() && rid.pageNo in pages && 0 <= rid.slotNo < perPage
      ensures rid in records ==> buf == records[rid]
      ensures rid.slotNo < |pages[rid.pageNo].slots| && buf == pages[rid.pageNo].slots[rid.slotNo]
    {
      hide ChainOk, IsSet;
      assert PageOk(pages[rid.pageNo], perPage);
      buf := pages[rid.pageNo].slots[rid.slotNo];
    }
  }

  lemma NotEmpty(f: File)
    requires Ok(f) && f.firstFree != NO_PAGE
    ensures f.chain != [] && f.chain[0] == f.firstFree
  {
  }

  lemma EmptyChain(f: File)
    requires Ok(f) && f.firstFree == NO_PAGE
    ensures f.chain == []
  {
    assert f.chain != [] ==> Link(f, 0);
  }

  lemma NothingSet(zeros: seq<bv8>, n: nat)
    requires n <= BITMAP_WIDTH * |zeros| && forall i :: 0 <= i < |zeros| ==> zeros[i] == 0
    ensures forall q :: 0 <= q < n ==> !IsSet(zeros, q)
  {
  }

  lemma NotLive(f: File, r: Rid)
    requires Ok(f) && r.pageNo in f.pages && 0 <= r.slotNo < f.perPage && PageOk(f.pages[r.pageNo], f.perPage)
    requires !IsSet(f.pages[r.pageNo].bitmap, r.slotNo)
    ensures r !in f.records
  {
  }

  /** Slots that are set are live. */
  lemma LiveBelow(f: File, r: Rid)
    requires Ok(f) && r.pageNo in f.pages && 0 <= r.slotNo < f.perPage && PageOk(f.pages[r.pageNo], f.perPage)
    requires forall q :: 0 <= q < r.slotNo ==> IsSet(f.pages[r.pageNo].bitmap, q)
    ensures forall q :: 0 <= q < r.slotNo ==> IxNode.Rid(r.pageNo, q) in f.records
  {
    hide IsSet;
    forall q | 0 <= q < r.slotNo
      ensures IxNode.Rid(r.pageNo, q) in f.records
    {
      assert Live(f, IxNode.Rid(r.pageNo, q));
    }
  }

  lemma IsLive(f: File, r: Rid)
    requires Ok(f) && r in f.records
    ensures Live(f, r) && PageOk(f.pages[r.pageNo], f.perPage)
  {
  }

  lemma RecordInPage(f: File, r: Rid)
    requires Ok(f) && r in f.records
    ensures r.pageNo in f.pages && 0 <= r.slotNo < f.perPage
  {
  }

  lemma SlotInBitmap(f: File, r: Rid)
    requires Ok(f) && r.pageNo in f.pages && 0 <= r.slotNo < f.perPage
    ensures PageOk(f.pages[r.pageNo], f.perPage) && InBitmap(f.pages[r.pageNo].bitmap, r.slotNo)
  {
  }

  /** Deleting what is not there makes the page's count wrong. */
  lemma DeleteDead(f: File, g: File, r: Rid)
    requires Ok(f) && r.pageNo in f.pages && 0 <= r.slotNo < f.perPage && r !in f.records
    requires PageOk(f.pages[r.pageNo], f.perPage) && InBitmap(f.pages[r.pageNo].bitmap, r.slotNo)
    requires g.perPage == f.perPage && g.pages.Keys == f.pages.Keys && g.records == f.records - {r}
    requires var page := Emptied(f.pages[r.pageNo], r.slotNo);
             g.pages[r.pageNo].bitmap == page.bitmap && g.pages[r.pageNo].numRecords == page.numRecords
    ensures !Ok(g)
  {
    hide ChainOk, IsSet, Reset;
    var page := f.pages[r.pageNo];
    assert !Live(f, r);
    ResetDead(page.bitmap, f.perPage, r.slotNo);
    assert !PageOk(g.pages[r.pageNo], g.perPage);
  }

  lemma ResetDead(bitmap: seq<bv8>, n: nat, slot: nat)
    requires slot < n <= BITMAP_WIDTH * |bitmap| && InBitmap(bitmap, slot) && !IsSet(bitmap, slot)
    ensures |Reset(bitmap, slot)| == |bitmap| && Count(Reset(bitmap, slot), n) == Count(bitmap, n)
  {
    hide IsSet, Reset;
    SetSize(bitmap, slot);
    forall q | 0 <= q < n
      ensures IsSet(Reset(bitmap, slot), q) <==> IsSet(bitmap, q)
    {
      SetOne(bitmap, slot, q);
    }
    CountSame(bitmap, Reset(bitmap, slot), n);
  }

  lemma {:induction false} CountSame(a: seq<bv8>, b: seq<bv8>, n: nat)
    requires |a| == |b| && n <= BITMAP_WIDTH * |a| && forall q :: 0 <= q < n ==> (IsSet(a, q) <==> IsSet(b, q))
    ensures Count(a, n) == Count(b, n)
  {
    hide IsSet;
    if n > 0 { CountSame(a, b, n - 1); }
  }
}
