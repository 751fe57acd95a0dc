/** A record file: pages of slots with a bitmap and a counter each, and a list of the
    pages with free slots that runs through the page headers. */
module RmFile {
  import opened Defs
  import opened Bitmap
  import IxNode

  type Rid = IxNode.Rid

  const NO_PAGE: int := -1
  const RM_MAX_RECORD_SIZE: nat := 512
  const FILE_HDR_SIZE: nat := 20
  /** The page LSN and the page header come before the bitmap. */
  const BITMAP_OFFSET: nat := 12

  datatype RmPage = RmPage(nextFree: int, numRecords: int, bitmap: seq<bv8>, slots: seq<Bytes>)

  /** `chain` lists the pages with free slots in the order of the list; `records` is the
      map that the file stands for. */
  datatype File = File(perPage: nat, numPages: int, firstFree: int, pages: map<int, RmPage>, chain: seq<int>,
                       records: map<Rid, Bytes>)

  ghost predicate PageOk(page: RmPage, perPage: nat) {
    && |page.slots| == perPage <= BITMAP_WIDTH * |page.bitmap|
    && page.numRecords == Count(page.bitmap, perPage)
  }

  ghost predicate PagesOk(f: File) {
    && 1 <= f.perPage && 1 <= f.numPages
    && (forall p :: p in f.pages <==> 1 <= p < f.numPages)
    && (forall p :: p in f.pages ==> PageOk(f.pages[p], f.perPage))
  }

  ghost predicate Full(f: File, p: int)
    requires p in f.pages
  {
    f.pages[p].numRecords >= f.perPage
  }

  ghost predicate Link(f: File, i: nat)
    requires i < |f.chain|
  {
    && f.chain[i] in f.pages
    && f.pages[f.chain[i]].nextFree == if i + 1 < |f.chain| then f.chain[i + 1] else NO_PAGE
  }

  /** The free list is acyclic and lists exactly the pages that are not full. */
  ghost predicate ChainOk(f: File) {
    && f.firstFree == (if f.chain == [] then NO_PAGE else f.chain[0])
    && (forall i :: 0 <= i < |f.chain| ==> Link(f, i))
    && (forall i, j :: 0 <= i < j < |f.chain| ==> f.chain[i] != f.chain[j])
    && (forall p :: p in f.pages ==> (p in f.chain <==> !Full(f, p)))
  }

  ghost predicate Live(f: File, r: Rid)
    requires PagesOk(f)
  {
    r.pageNo in f.pages && 0 <= r.slotNo < f.perPage && IsSet(f.pages[r.pageNo].bitmap, r.slotNo)
  }

  ghost predicate RecordsOk(f: File)
    requires PagesOk(f)
  {
    && (forall r :: r in f.records <==> Live(f, r))
    && (forall r :: r in f.records ==> f.records[r] == f.pages[r.pageNo].slots[r.slotNo])
  }

  ghost predicate Ok(f: File) {
    PagesOk(f) && ChainOk(f) && RecordsOk(f)
  }

  function Filled(page: RmPage, slot: int, buf: Bytes): RmPage
    requires 0 <= slot < |page.slots| && InBitmap(page.bitmap, slot)
  {
    RmPage(page.nextFree, page.numRecords + 1, Set(page.bitmap, slot), page.slots[slot := buf])
  }

  function Emptied(page: RmPage, slot: int): RmPage
    requires InBitmap(page.bitmap, slot)
  {
    RmPage(page.nextFree, page.numRecords - 1, Reset(page.bitmap, slot), page.slots)
  }

  lemma FilledOk(page: RmPage, perPage: nat, slot: nat, buf: Bytes)
    requires PageOk(page, perPage) && slot < perPage && !IsSet(page.bitmap, slot)
    ensures PageOk(Filled(page, slot, buf), perPage)
    ensures forall q :: 0 <= q < perPage ==>
              (IsSet(Filled(page, slot, buf).bitmap, q) <==> q == slot || IsSet(page.bitmap, q))
  {
    hide IsSet, Set;
    var bm := Set(page.bitmap, slot);
    SetSize(page.bitmap, slot);
    forall q | 0 <= q < perPage
      ensures IsSet(bm, q) <==> q == slot || IsSet(page.bitmap, q)
    {
      SetOne(page.bitmap, slot, q);
    }
    CountChange(page.bitmap, bm, perPage, slot);
  }

  lemma EmptiedOk(page: RmPage, perPage: nat, slot: nat)
    requires PageOk(page, perPage) && slot < perPage && IsSet(page.bitmap, slot)
    ensures PageOk(Emptied(page, slot), perPage)
    ensures forall q :: 0 <= q < perPage ==>
              (IsSet(Emptied(page, slot).bitmap, q) <==> q != slot && IsSet(page.bitmap, q))
  {
    hide IsSet, Reset;
    var bm := Reset(page.bitmap, slot);
    SetSize(page.bitmap, slot);
    forall q | 0 <= q < perPage
      ensures IsSet(bm, q) <==> q != slot && IsSet(page.bitmap, q)
    {
      SetOne(page.bitmap, slot, q);
    }
    CountChange(bm, page.bitmap, perPage, slot);
  }

  lemma SetSize(bm: seq<bv8>, pos: nat)
    requires InBitmap(bm, pos)
    ensures |Set(bm, pos)| == |bm| == |Reset(bm, pos)|
  {
  }

  /** One slot of one page changes from free to used or back. */
  lemma RecordsChange(f: File, g: File, p: int, slot: int, used: bool, buf: Bytes)
    requires PagesOk(f) && PagesOk(g) && RecordsOk(f) && p in f.pages && 0 <= slot < f.perPage == g.perPage
    requires g.pages.Keys == f.pages.Keys
    requires forall q :: q in f.pages && q != p ==>
               g.pages[q].bitmap == f.pages[q].bitmap && g.pages[q].slots == f.pages[q].slots
    requires forall q :: 0 <= q < f.perPage && q != slot ==>
               && (IsSet(g.pages[p].bitmap, q) <==> IsSet(f.pages[p].bitmap, q))
               && g.pages[p].slots[q] == f.pages[p].slots[q]
    requires IsSet(g.pages[p].bitmap, slot) == used && (used ==> g.pages[p].slots[slot] == buf)
    requires g.records == if used then f.records[IxNode.Rid(p, slot) := buf] else f.records - {IxNode.Rid(p, slot)}
    ensures RecordsOk(g)
  {
    hide IsSet;
    forall r: Rid
      ensures r in g.records <==> Live(g, r)
      ensures r in g.records ==> g.records[r] == g.pages[r.pageNo].slots[r.slotNo]
    {
      if r != IxNode.Rid(p, slot) {
        assert r in g.records <==> r in f.records;
        assert Live(g, r) <==> Live(f, r);
      }
    }
  }
}
