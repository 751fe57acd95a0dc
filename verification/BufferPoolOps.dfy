/** The operations of the buffer pool, and the write-ahead rule of its evictions. */
module BufferPoolOps {
  import opened PageIds
  import opened Replacer
  import opened LogBuffer
  import opened BufferPool

  datatype FetchResult = Fetched(frame: int) | NoFrame | ReadError

  /** Page LSNs in memory never exceed the next LSN; those on disk never exceed the
      number of durable records: all records below them are durable. */
  ghost predicate LsnsOk(frames: seq<Frame>, disk: map<PageId, PageData>, files: set<int>, next: nat, durable: nat) {
    && (forall f :: 0 <= f < |frames| && frames[f].id.fd in files ==> frames[f].data.lsn <= next)
    && (forall id :: id in disk && id.fd in files ==> disk[id].lsn <= durable)
  }

  lemma LoadLsns(p: Pool, f: int, id: PageId, data: PageData, files: set<int>, next: nat, durable: nat, durable': nat)
    requires LsnsOk(p.frames, p.disk, files, next, durable) && IsFrame(p, f) && durable <= durable' <= next
    requires p.frames[f].data.lsn <= next ==> p.frames[f].data.lsn <= durable'
    requires data.lsn <= durable' || (id in p.disk && data == p.disk[id])
    ensures LsnsOk(p.frames[f := Frame(id, data, 1, false)], WrittenBack(p, f)[id := data], files, next, durable')
  {
  }

  function NextPageNo(next: map<int, int>, fd: int): int {
    if fd in next then next[fd] else 0
  }

  lemma NextIs(next: map<int, int>, fd: int)
    ensures NextPageNo(next, fd) == if fd in next then next[fd] else 0
  {
  }

  /** Page numbers are given out in increasing order within a file. */
  ghost predicate Allocated(ids: set<PageId>, next: map<int, int>) {
    && (forall id :: id in ids ==> id.pageNo < NextPageNo(next, id.fd))
    && (forall fd :: fd in next ==> 0 <= next[fd])
  }

  lemma AllocateOk(ids: set<PageId>, next: map<int, int>, fd: int)
    requires Allocated(ids, next)
    ensures 0 <= NextPageNo(next, fd) && PageId(fd, NextPageNo(next, fd)) !in ids
    ensures Allocated(ids + {PageId(fd, NextPageNo(next, fd))}, next[fd := NextPageNo(next, fd) + 1])
  {
  }

  lemma LoadedPool(p: Pool, f: int, id: PageId, free: seq<int>, lru: seq<int>, disk: map<PageId,
                   PageData>) returns (q: Pool)
    requires Ok(p) && Taken(p, f, free, lru) && IsFrame(p, f)
    requires id !in p.disk && id != INVALID_PAGE && WrittenBack(p, f).Keys == p.disk.Keys
    requires disk == WrittenBack(p, f)[id := ZERO_PAGE]
    ensures Ok(q) && Contents(q) == Contents(p)[id := ZERO_PAGE]
    ensures q == Loaded(p, f, id, ZERO_PAGE, free, lru, disk)
    ensures disk.Keys == p.disk.Keys + {id}
  {
    hide Without, CopyOk, ListsOk, Taken;
    LoadOk(p, f, id, ZERO_PAGE, free, lru, disk);
    q := Loaded(p, f, id, ZERO_PAGE, free, lru, disk);
  }

  class BufferPoolManager {
    const lru: LruReplacer
    const log: LogManager
    /** The files whose pages carry a page LSN. */
    ghost const recordFiles: set<int>
    var frames: seq<Frame>
    var pageTable: map<PageId, int>
    var freeList: seq<int>
    var disk: map<PageId, PageData>
    var nextPageNo: map<int, int>
    ghost var written: set<int>
    /** The frames whose page some client has reported dirty since it was last written back. */
    ghost var reported: set<int>

    ghost function View(): Pool
      reads this, lru
    {
      Pool(frames, pageTable, freeList, lru.list, disk, written)
    }

    ghost predicate Valid()
      reads this, lru, log
    {
      && lru.Valid() && log.Valid() && Ok(View())
      && Allocated(disk.Keys, nextPageNo)
      && forall f :: 0 <= f < |frames| ==> (frames[f].dirty <==> f in reported)
    }

    ghost predicate AllPinned()
      reads this
    {
      forall f :: 0 <= f < |frames| ==> frames[f].pin > 0
    }

    ghost predicate WriteAhead()
      reads this, log
    {
      log.Tracking() && LsnsOk(frames, disk, recordFiles, log.globalLsn, |log.durable|)
    }

    constructor (poolSize: nat, log: LogManager, ghost recordFiles: set<int>)
      requires log.Valid()
      ensures Valid() && fresh(lru) && this.log == log && |frames| == poolSize && disk == map[]
      ensures forall f :: 0 <= f < poolSize ==> frames[f].pin == 0
      ensures log.Tracking() ==> WriteAhead()
    {
      lru := new LruReplacer();
      this.log, this.recordFiles := log, recordFiles;
      frames := seq(poolSize, _ => Frame(INVALID_PAGE, ZERO_PAGE, 0, false));
      pageTable, disk, nextPageNo, written, reported := map[], map[], map[], {}, {};
      freeList := seq(poolSize, i => i);
      new;
      EmptyPoolOk(View());
    }

    method FindVictimPage() returns (ok: bool, f: int)
      requires Valid()
      modifies this`freeList, lru
      ensures lru.Valid()
      ensures ok ==> Taken(old(View()), f, freeList, lru.list)
      ensures ok && old(freeList) == [] ==> f !in lru.list
      ensures ok ==> !AllPinned()
      ensures !ok ==> freeList == old(freeList) && lru.list == old(lru.list) && AllPinned()
    {
      if freeList == [] {
        ok, f := lru.Victim();
      } else {
        ok, f := true, freeList[0];
        freeList := freeList[1..];
      }
      if ok {
        TakenIsUnpinned(old(View()), f, freeList, lru.list);
      }
    }

    /** `update_page`: flushes the log if the page LSN is above the persistent LSN, writes
        a dirty page back and hands the frame to the new page. */
    method UpdatePage(f: int, id: PageId)
      requires 0 <= f < |frames| && log.Valid()
      modifies this`frames, this`pageTable, this`disk, this`reported, log
      ensures log.Valid() && log.globalLsn == old(log.globalLsn) && |log.durable| >= old(|log.durable|)
      ensures frames == old(frames)[f := Frame(id, ZERO_PAGE, 0, false)] && reported == old(reported) - {f}
      ensures pageTable == (old(pageTable) - {old(frames[f].id)})[id := f]
      ensures disk == if old(frames[f].dirty) then old(disk)[old(frames[f].id) := old(frames[f].data)] else old(disk)
      ensures old(log.Tracking()) ==> log.Tracking()
      ensures old(log.Tracking()) && old(frames[f].data.lsn) <= log.globalLsn ==>
                old(frames[f].data.lsn) <= |log.durable|
      ensures var l := old(frames[f].data.lsn);
              old(log.Tracking()) && 0 <= l ==> (l < |log.durable| <==> l < log.globalLsn && l != old(log.persistLsn))
    {
      var page := frames[f];
      if page.data.lsn > log.persistLsn {
        log.FlushLogToDisk();
      }
      if page.dirty {
        disk := disk[page.id := page.data];
      }
      pageTable := pageTable - {page.id};
      pageTable := pageTable[id := f];
      frames := frames[f := Frame(id, ZERO_PAGE, 0, false)];
      reported := reported - {f};
    }

    /** `find_victim_page` and `update_page`, as `fetch_page` and `new_page` call them. */
    method Claim(id: PageId) returns (ok: bool, f: int)
      requires Valid() && id !in pageTable
      modifies this`frames, this`pageTable, this`freeList, this`disk, this`reported, lru, log
      ensures lru.Valid() && log.Valid() && log.globalLsn == old(log.globalLsn)
      ensures old(|log.durable|) <= |log.durable| <= log.globalLsn
      ensures ok <==> !old(AllPinned())
      ensures !ok ==> View() == old(View()) && |log.durable| == old(|log.durable|) && reported == old(reported)
      ensures ok ==> 0 <= f < |old(frames)| && old(frames)[f].pin == 0 && f !in freeList
      ensures ok ==> f == VictimOf(old(View())) && Without(lru.list, f) == Without(old(lru.list), f)
      ensures ok ==> Taken(old(View()), f, freeList, lru.list)
      ensures ok ==> (f in lru.list <==> old(freeList) != [] && old(freeList)[0] in old(lru.list))
      ensures ok ==> frames == old(frames)[f := Frame(id, ZERO_PAGE, 0, false)] && reported == old(reported) - {f}
      ensures ok ==> pageTable == (old(pageTable) - {old(frames)[f].id})[id := f]
      ensures ok ==> disk == WrittenBack(old(View()), f) && disk.Keys == old(disk).Keys
      ensures old(log.Tracking()) ==> log.Tracking()
      ensures ok && old(log.Tracking()) && old(frames)[f].data.lsn <= log.globalLsn ==>
                old(frames)[f].data.lsn <= |log.durable|
    {
      hide LruReplacer.Valid, Ok, Contents, Distinct, LsnsOk, Without;
      ghost var p := View();
      ok, f := FindVictimPage();
      if ok {
        TakenIsUnpinned(p, f, freeList, lru.list);
        Evicted(p, f, id);
        TakenIsVictim(p, f, freeList, lru.list);
        UpdatePage(f, id);
      }
    }

    /** The pool hands out the page with its latest contents. It fails exactly when the
        page is not resident and every frame is pinned. A page that is not on disk makes
        the read throw after the frame has been given to it. The frame is then unpinned and
        no longer free, and it can be a victim again exactly when the free list had it
        while the replacer listed it too, as after a deletion. */
    method FetchPage(id: PageId) returns (r: FetchResult)
      requires Valid()
      modifies this`frames, this`pageTable, this`freeList, this`disk, this`written, this`reported, lru, log
      ensures r.NoFrame? <==> id !in old(pageTable) && old(AllPinned())
      ensures r.ReadError? <==> id !in old(disk) && !old(AllPinned())
      ensures r.NoFrame? ==> Valid() && View() == old(View())
      ensures r.Fetched? ==> Valid() && Contents(View()) == old(Contents(View()))
      ensures |frames| == old(|frames|) && (r.Fetched? ==> 0 <= r.frame < |frames|)
      ensures r.Fetched? ==> id in pageTable && pageTable[id] == r.frame && id in disk
      ensures r.Fetched? ==> frames[r.frame].data == old(Contents(View()))[id]
      ensures r.Fetched? ==>
                frames[r.frame].pin == if id in old(pageTable) then old(frames[pageTable[id]].pin) + 1 else 1
      ensures r.Fetched? && id !in old(pageTable) ==> old(frames)[r.frame].pin == 0 && r.frame == VictimOf(old(View()))
      ensures r.Fetched? ==> lru.list == Without(old(lru.list), r.frame)
      ensures r.Fetched? ==> reported == if id in old(pageTable) then old(reported) else old(reported) - {r.frame}
      ensures forall g :: 0 <= g < |frames| && old(frames[g].pin) > 0 ==>
                frames[g] == old(frames[g]) || (r.Fetched? && g == r.frame)
      ensures r.ReadError? ==> Leaked(id, old(View()))
      ensures old(WriteAhead()) && !r.ReadError? ==> WriteAhead()
    {
      hide LruReplacer.Valid, Ok, Contents, Distinct, Allocated;
      InTable(View(), id);
      if id in pageTable {
        ghost var p := View();
        var f := pageTable[id];
        PinOk(p, f);
        frames := frames[f := frames[f].(pin := frames[f].pin + 1)];
        lru.Pin(f);
        return Fetched(f);
      }
      r := FetchMiss(id);
    }

    /** What a failed read leaves of the pool `p`. */
    ghost predicate Leaked(id: PageId, p: Pool)
      reads this, lru
    {
      && id in pageTable && pageTable[id] == VictimOf(p) && 0 <= pageTable[id] < |frames|
      && frames[pageTable[id]] == Frame(id, ZERO_PAGE, 0, false) && pageTable[id] !in freeList
      && (pageTable[id] in lru.list <==> p.free != [] && p.free[0] in p.lru)
    }

    method FetchMiss(id: PageId) returns (r: FetchResult)
      requires Valid() && id !in pageTable
      modifies this`frames, this`pageTable, this`freeList, this`disk, this`written, this`reported, lru, log
      ensures r.NoFrame? <==> old(AllPinned())
      ensures r.ReadError? <==> id !in old(disk) && !old(AllPinned())
      ensures r.NoFrame? ==> Valid() && View() == old(View())
      ensures r.Fetched? ==> Valid() && Contents(View()) == old(Contents(View()))
      ensures |frames| == old(|frames|)
      ensures r.Fetched? ==>
                0 <= r.frame < |frames| && old(frames)[r.frame].pin == 0 && r.frame == VictimOf(old(View()))
      ensures r.Fetched? ==> lru.list == Without(old(lru.list), r.frame)
      ensures r.Fetched? ==> id in pageTable && pageTable[id] == r.frame && id in disk
      ensures r.Fetched? ==>
                && frames[r.frame] == Frame(id, old(Contents(View()))[id], 1, false)
                && reported == old(reported) - {r.frame}
      ensures |frames| == old(|frames|)
      ensures forall g :: 0 <= g < |frames| && old(frames[g].pin) > 0 ==> frames[g] == old(frames[g])
      ensures r.ReadError? ==> Leaked(id, old(View()))
      ensures old(WriteAhead()) && !r.ReadError? ==> WriteAhead()
    {
      hide LruReplacer.Valid, Ok, Contents, Distinct, LsnsOk, Without, Taken, Allocated, WrittenBack, VictimOf;
      ghost var p := View();
      ghost var durable, wal := |log.durable|, WriteAhead();
      var ok, f := Claim(id);
      if !ok {
        return NoFrame;
      }
      if id !in disk {
        return ReadError;
      }
      Evicted(p, f, id);
      LoadOk(p, f, id, disk[id], freeList, lru.list, disk);
      if wal { LoadLsns(p, f, id, disk[id], recordFiles, log.globalLsn, durable, |log.durable|); }
      ghost var q := Loaded(p, f, id, disk[id], freeList, lru.list, disk);
      Install(f, Frame(id, disk[id], 1, false));
      assert View() == q;
      r := Fetched(f);
    }

    /** The client writes to a page it has pinned. */
    method WritePage(id: PageId, data: PageData)
      requires Valid() && id in pageTable && frames[pageTable[id]].pin > 0
      modifies this`frames, this`written
      ensures Valid() && Contents(View()) == old(Contents(View()))[id := data]
      ensures pageTable == old(pageTable)
      ensures frames == old(frames)[pageTable[id] := old(frames[pageTable[id]]).(data := data)]
      ensures old(WriteAhead()) && (id.fd in recordFiles ==> data.lsn <= log.globalLsn) ==> WriteAhead()
    {
      hide LruReplacer.Valid, Ok, Contents, Distinct, Allocated;
      ghost var p := View();
      var f := pageTable[id];
      InTable(p, id);
      WriteOk(p, f, data);
      frames := frames[f := frames[f].(data := data)];
      written := written + {f};
    }

    /** Logging a record under the next LSN keeps the write-ahead rule. */
    method LogWrite(len: nat) returns (lsn: nat)
      requires Valid() && 0 < len <= LOG_BUFFER_SIZE
      modifies log
      ensures Valid() && lsn == old(log.globalLsn) && log.globalLsn == lsn + 1
      ensures old(WriteAhead()) ==> WriteAhead()
    {
      hide LruReplacer.Valid, Ok, Contents, Distinct, Allocated;
      lsn := log.AddLogToBuffer(len);
    }

    /** A client that has written the page reports it dirty, at the latest with the last pin. */
    ghost predicate Disciplined(id: PageId, dirty: bool)
      reads this
    {
      id in pageTable && 0 <= pageTable[id] < |frames| && frames[pageTable[id]].pin == 1 && pageTable[id] in written ==>
        dirty || pageTable[id] in reported
    }

    /** `unpin_page`. The pool stays consistent exactly when the client is disciplined. */
    method UnpinPage(id: PageId, dirty: bool) returns (ok: bool)
      requires Valid()
      modifies this`frames, this`reported, lru
      ensures Valid() <==> old(Disciplined(id, dirty))
      ensures TableOk(View()) && Contents(View()) == old(Contents(View())) && pageTable == old(pageTable)
      ensures |frames| == old(|frames|) && (ok <==> id in pageTable && old(frames[pageTable[id]].pin) > 0)
      ensures forall f :: 0 <= f < |frames| && !(ok && f == pageTable[id]) ==> frames[f] == old(frames[f])
      ensures ok ==>
                && 0 <= pageTable[id] < |frames| && frames[pageTable[id]].id == id
                && frames[pageTable[id]].data == old(frames[pageTable[id]].data)
                && frames[pageTable[id]].pin + 1 == old(frames[pageTable[id]].pin)
                && (frames[pageTable[id]].dirty <==> dirty || old(pageTable[id] in reported))
      ensures reported == if ok && dirty then old(reported) + {pageTable[id]} else old(reported)
      ensures !ok ==> lru.list == old(lru.list)
      ensures ok && old(frames[pageTable[id]].pin) == 1 ==> lru.list == Pushed(old(lru.list), pageTable[id])
      ensures ok && old(frames[pageTable[id]].pin) > 1 ==> lru.list == old(lru.list)
      ensures old(WriteAhead()) ==> WriteAhead()
    {
      hide LruReplacer.Valid, Ok, Contents, Distinct, Allocated, TableOk;
      TableOf(View());
      if id !in pageTable {
        return false;
      }
      ghost var p := View();
      var f := pageTable[id];
      InTable(p, id);
      if frames[f].pin == 0 {
        return false;
      }
      UnpinOk(p, f, dirty);
      if frames[f].pin == 1 {
        lru.Unpin(f);
      }
      frames := frames[f := Unpinned(frames[f], dirty)];
      if dirty { reported := reported + {f}; }
      ok := true;
    }

    /** `flush_page` writes the page back without looking at the log: the write-ahead rule
        survives exactly when the records below its LSN are already durable. */
    method FlushPage(id: PageId) returns (ok: bool)
      requires Valid()
      modifies this`frames, this`disk, this`written, this`reported
      ensures Valid() && Contents(View()) == old(Contents(View())) && pageTable == old(pageTable)
      ensures ok <==> id in pageTable
      ensures ok ==> id in disk && disk[id] == Contents(View())[id] && !frames[pageTable[id]].dirty
      ensures forall x :: x in disk && x != id ==> x in old(disk) && disk[x] == old(disk)[x]
      ensures reported == if ok then old(reported) - {pageTable[id]} else old(reported)
      ensures |frames| == old(|frames|) && (ok ==> 0 <= pageTable[id] < |frames|)
      ensures forall f :: 0 <= f < |frames| ==>
                frames[f] == if ok && f == pageTable[id] then old(frames[f]).(dirty := false) else old(frames[f])
      ensures old(WriteAhead()) ==>
                (WriteAhead() <==> (ok && id.fd in recordFiles ==>
                                    old(frames[pageTable[id]].data.lsn) <= |log.durable|))
      ensures old(WriteAhead()) && (id.fd in recordFiles ==> log.buffer == []) ==> WriteAhead()
    {
      hide LruReplacer.Valid, Ok, Contents, Distinct, Allocated;
      if id !in pageTable {
        return false;
      }
      ghost var p := View();
      var f := pageTable[id];
      InTable(p, id);
      FlushOk(p, f);
      disk := disk[id := frames[f].data];
      assert disk.Keys == p.disk.Keys;
      frames := frames[f := frames[f].(dirty := false)];
      written, reported := written - {f}, reported - {f};
      InTable(View(), id);
      ok := true;
    }

    /** The page is in its frame, pinned once. */
    method Install(f: int, frame: Frame)
      requires lru.Valid() && 0 <= f < |frames| && !frame.dirty
      modifies this`frames, this`written, this`reported, lru
      ensures lru.Valid() && lru.list == Without(old(lru.list), f)
      ensures frames == old(frames)[f := frame] && written == old(written) - {f} && reported == old(reported) - {f}
    {
      frames := frames[f := frame];
      lru.Pin(f);
      written, reported := written - {f}, reported - {f};
    }

    /** A new page is in its frame, and with zero contents on disk. */
    method InstallNew(f: int, id: PageId)
      requires lru.Valid() && 0 <= f < |frames|
      modifies this`frames, this`nextPageNo, this`disk, this`written, this`reported, lru
      ensures lru.Valid() && lru.list == Without(old(lru.list), f)
      ensures frames == old(frames)[f := Frame(id, ZERO_PAGE, 1, false)]
      ensures written == old(written) - {f} && reported == old(reported) - {f}
      ensures nextPageNo == old(nextPageNo)[id.fd := id.pageNo + 1] && disk == old(disk)[id := ZERO_PAGE]
    {
      hide LruReplacer.Valid;
      nextPageNo := nextPageNo[id.fd := id.pageNo + 1];
      Install(f, Frame(id, ZERO_PAGE, 1, false));
      disk := disk[id := ZERO_PAGE];
    }

    /** `new_page`: a page number never used before, with zero contents, also on disk. */
    method NewPage(fd: int) returns (r: FetchResult, id: PageId)
      requires Valid() && 0 <= fd
      modifies this`frames, this`pageTable, this`freeList, this`disk, this`nextPageNo, this`written, this`reported,
               lru, log
      ensures Valid() && |frames| == old(|frames|)
      ensures r.NoFrame? || r.Fetched?
      ensures r.NoFrame? <==> old(AllPinned())
      ensures r.NoFrame? ==> View() == old(View())
      ensures r.Fetched? ==> id !in old(disk) && Contents(View()) == old(Contents(View()))[id := ZERO_PAGE]
      ensures r.Fetched? ==> id in disk && disk[id] == ZERO_PAGE
      ensures id == PageId(fd, if fd in old(nextPageNo) then old(nextPageNo)[fd] else 0)
      ensures nextPageNo == if r.Fetched? then old(nextPageNo)[fd := id.pageNo + 1] else old(nextPageNo)
      ensures r.Fetched? ==>
                0 <= r.frame < |frames| && old(frames)[r.frame].pin == 0 && r.frame == VictimOf(old(View()))
      ensures r.Fetched? ==>
                id in pageTable && pageTable[id] == r.frame && frames[r.frame] == Frame(id, ZERO_PAGE, 1, false)
      ensures reported == if r.Fetched? then old(reported) - {r.frame} else old(reported)
      ensures forall g :: 0 <= g < |frames| && old(frames[g].pin) > 0 ==> frames[g] == old(frames[g])
      ensures old(WriteAhead()) ==> WriteAhead()
    {
      hide LruReplacer.Valid, Ok, Contents, Distinct, LsnsOk, Without, Taken, Allocated, WrittenBack, VictimOf,
        NextPageNo;
      ghost var p := View();
      ghost var durable, wal := |log.durable|, WriteAhead();
      id := PageId(fd, NextPageNo(nextPageNo, fd));
      NextIs(nextPageNo, fd);
      AllocateOk(disk.Keys, nextPageNo, fd);
      NotInTable(p, id);
      var ok, f := Claim(id);
      if !ok {
        return NoFrame, id;
      }
      ghost var free, list := freeList, lru.list;
      InstallNew(f, id);
      ghost var q := LoadedPool(p, f, id, free, list, disk);
      assert View() == q;
      if wal { LoadLsns(p, f, id, ZERO_PAGE, recordFiles, log.globalLsn, durable, |log.durable|); }
      r := Fetched(f);
    }

    /** `delete_page`: an unpinned page leaves the pool; its frame goes to the free list
        although it also stays in the replacer. */
    method DeletePage(id: PageId) returns (ok: bool)
      requires Valid()
      modifies this`frames, this`pageTable, this`freeList, this`disk, this`written, this`reported
      ensures Valid() && Contents(View()) == old(Contents(View()))
      ensures ok <==> id in old(pageTable) ==> old(frames[pageTable[id]].pin) == 0
      ensures ok ==> id !in pageTable
      ensures ok && id in old(pageTable) ==> freeList == old(freeList) + [old(pageTable[id])]
      ensures reported == if ok && id in old(pageTable) then old(reported) - {old(pageTable[id])} else old(reported)
      ensures ok && id in old(pageTable) ==> old(pageTable[id]) in lru.list
      ensures !ok ==> View() == old(View())
      ensures |frames| == old(|frames|)
      ensures forall g :: 0 <= g < |frames| && old(frames[g].pin) > 0 ==> frames[g] == old(frames[g])
      ensures old(WriteAhead()) ==>
                (WriteAhead() <==> (ok && id in old(pageTable) && old(frames[pageTable[id]].dirty)
                                    && id.fd in recordFiles ==>
                                      old(frames[pageTable[id]].data.lsn) <= |log.durable|))
    {
      hide LruReplacer.Valid, Ok, Contents, Distinct, Allocated;
      InTable(View(), id);
      if id !in pageTable {
        return true;
      }
      ghost var p := View();
      var f := pageTable[id];
      if frames[f].pin > 0 {
        return false;
      }
      DeleteOk(p, f);
      Evictable(p, f);
      if frames[f].dirty {
        disk := disk[frames[f].id := frames[f].data];
      }
      pageTable := pageTable - {id};
      freeList := freeList + [f];
      frames := frames[f := Frame(INVALID_PAGE, ZERO_PAGE, 0, false)];
      written, reported := written - {f}, reported - {f};
      assert freeList[|freeList| - 1] == f;
      ok := true;
    }

    /** `flush_all_pages`: afterwards the file's resident pages agree with the disk. */
    method FlushAllPages(fd: int)
      requires Valid()
      modifies this`frames, this`disk, this`written, this`reported
      ensures Valid() && Contents(View()) == old(Contents(View())) && pageTable == old(pageTable)
      ensures forall id :: id in disk && id.fd == fd ==> disk[id] == Contents(View())[id]
      ensures forall id :: id in disk && id.fd != fd ==> id in old(disk) && disk[id] == old(disk)[id]
      ensures |frames| == old(|frames|) && forall f :: 0 <= f < |frames| ==>
                frames[f] == old(frames[f]).(dirty := old(frames[f].dirty) && old(frames[f].id.fd) != fd)
      ensures old(WriteAhead()) ==>
                (WriteAhead() <==> (fd in recordFiles ==>
                                    BelowDurable(pageTable.Keys, old(Contents(View())), fd, |log.durable|)))
      ensures old(WriteAhead()) && (fd in recordFiles ==> log.buffer == []) ==> WriteAhead()
    {
      hide LruReplacer.Valid, TableOk, ListsOk, CopyOk, Distinct, Allocated, Contents, Swept, Flushing,
        LsnsOk;
      ghost var contents := Contents(View());
      KeysOf(View());
      SweepStarts(View(), contents, fd);
      var rest := pageTable.Keys;
      while rest != {}
        invariant Valid() && Contents(View()) == contents && pageTable == old(pageTable) && rest <= pageTable.Keys
        invariant Flushing(old(disk), disk, contents, fd, rest) && Swept(old(frames), frames, fd, rest)
        invariant old(WriteAhead()) && (fd in recordFiles ==> log.buffer == []) ==> WriteAhead()
        invariant old(WriteAhead()) && (fd in recordFiles ==> BelowDurable(pageTable.Keys, contents, fd, |log.durable|))
                  ==> WriteAhead()
      {
        var id :| id in rest;
        if id.fd == fd {
          InTable(View(), id);
          ghost var p := View();
          var ok := FlushPage(id);
          KeysOf(View());
          SweepOne(old(frames), p, frames, fd, rest, id);
          FlushingOne(old(disk), p.disk, disk, contents, fd, rest, id);
        } else {
          Past(old(frames), frames, old(disk), disk, contents, fd, rest, id);
        }
        rest := rest - {id};
      }
      KeysOf(View());
      TableOnDisk(View());
      AllSwept(old(frames), frames, old(disk), disk, contents, fd);
      if WriteAhead() && fd in recordFiles {
        AheadBelow(View(), fd, recordFiles, log.globalLsn, |log.durable|);
      }
    }
  }

  /** Giving back all pins of a page: the pool is consistent exactly when one of the reports,
      whichever it is, tells of the client's writes. */
  method UnpinAll(pool: BufferPoolManager, id: PageId, reports: seq<bool>)
    requires pool.Valid() && id in pool.pageTable && 0 <= pool.pageTable[id] < |pool.frames|
    requires pool.frames[pool.pageTable[id]].pin == |reports| > 0
    modifies pool`frames, pool`reported, pool.lru
    ensures var f := pool.pageTable[id];
            pool.Valid() <==> (f in pool.written ==> true in reports || f in old(pool.reported))
    ensures |pool.frames| == old(|pool.frames|) && pool.frames[pool.pageTable[id]].pin == 0
    ensures pool.frames[pool.pageTable[id]].dirty <==> true in reports || pool.pageTable[id] in old(pool.reported)
    ensures pool.frames[pool.pageTable[id]].data == old(pool.frames[pool.pageTable[id]].data)
  {
    hide LruReplacer.Valid, Ok, Contents, Allocated, TableOk;
    var f := pool.pageTable[id];
    for i := 0 to |reports|
      invariant pool.pageTable == old(pool.pageTable) && |pool.frames| == old(|pool.frames|)
      invariant pool.frames[f].pin == |reports| - i && pool.frames[f].data == old(pool.frames[f].data)
      invariant f in pool.reported <==> true in reports[..i] || f in old(pool.reported)
      invariant i < |reports| ==> pool.Valid()
      invariant i == |reports| ==>
                  && (pool.Valid() <==> (f in pool.written ==> f in pool.reported))
                  && (pool.frames[f].dirty <==> f in pool.reported)
    {
      var ok := pool.UnpinPage(id, reports[i]);
      assert reports[..i + 1] == reports[..i] + [reports[i]];
    }
    assert reports[..|reports|] == reports;
  }

  /** The resident pages of the file carry no LSN above the durable records. */
  ghost predicate BelowDurable(ids: set<PageId>, contents: map<PageId, PageData>, fd: int, durable: nat) {
    forall id :: id in ids && id in contents && id.fd == fd ==> contents[id].lsn <= durable
  }

  lemma AheadBelow(p: Pool, fd: int, files: set<int>, next: nat, durable: nat)
    requires Ok(p) && LsnsOk(p.frames, p.disk, files, next, durable) && fd in files
    requires forall id :: id in p.disk && id.fd == fd ==> id in Contents(p) && p.disk[id] == Contents(p)[id]
    ensures BelowDurable(p.table.Keys, Contents(p), fd, durable)
  {
  }

  /** The pages of the file have been written back, but for those that are still to come. */
  ghost predicate Swept(was: seq<Frame>, now: seq<Frame>, fd: int, rest: set<PageId>) {
    |now| == |was| && forall f :: 0 <= f < |was| ==>
        now[f] == was[f].(dirty := was[f].dirty && (was[f].id.fd != fd || was[f].id in rest))
  }

  ghost predicate Flushing(was: map<PageId, PageData>, now: map<PageId, PageData>, contents: map<PageId, PageData>,
                           fd: int, rest: set<PageId>) {
    forall id :: id in now ==>
      && (id.fd == fd && id !in rest ==> id in contents && now[id] == contents[id])
      && (id.fd != fd ==> id in was && now[id] == was[id])
  }

  lemma SweepStarts(p: Pool, contents: map<PageId, PageData>, fd: int)
    requires Ok(p) && contents == Contents(p)
    ensures Swept(p.frames, p.frames, fd, p.table.Keys) && Flushing(p.disk, p.disk, contents, fd, p.table.Keys)
  {
  }

  lemma FlushingOne(was: map<PageId, PageData>, disk: map<PageId, PageData>, now: map<PageId, PageData>,
                    contents: map<PageId, PageData>, fd: int, rest: set<PageId>, id: PageId)
    requires Flushing(was, disk, contents, fd, rest) && id.fd == fd
    requires id in now && id in contents && now[id] == contents[id]
    requires forall x :: x in now && x != id ==> x in disk && now[x] == disk[x]
    ensures Flushing(was, now, contents, fd, rest - {id})
  {
  }

  lemma SweepOne(was: seq<Frame>, p: Pool, now: seq<Frame>, fd: int, rest: set<PageId>, id: PageId)
    requires Ok(p) && id in p.table && id.fd == fd && Swept(was, p.frames, fd, rest) && |now| == |p.frames|
    requires forall f :: 0 <= f < |now| ==>
               now[f] == if f == p.table[id] then p.frames[f].(dirty := false) else p.frames[f]
    ensures Swept(was, now, fd, rest - {id})
  {
    hide ListsOk, CopyOk;
    assert forall f :: 0 <= f < |p.frames| && p.frames[f].id == id && p.frames[f].dirty ==> f == p.table[id] by {
      DirtyInTable(p);
    }
  }

  lemma DirtyInTable(p: Pool)
    requires Ok(p)
    ensures forall f :: 0 <= f < |p.frames| && p.frames[f].dirty ==>
              p.frames[f].id in p.table && p.table[p.frames[f].id] == f
  {
  }

  lemma AllSwept(was: seq<Frame>, now: seq<Frame>, before: map<PageId, PageData>, disk: map<PageId, PageData>,
                 contents: map<PageId, PageData>, fd: int)
    requires Swept(was, now, fd, {}) && Flushing(before, disk, contents, fd, {})
    ensures forall id :: id in disk && id.fd == fd ==> id in contents && disk[id] == contents[id]
    ensures forall id :: id in disk && id.fd != fd ==> id in before && disk[id] == before[id]
    ensures |now| == |was| && forall f :: 0 <= f < |was| ==>
              now[f] == was[f].(dirty := was[f].dirty && was[f].id.fd != fd)
  {
  }

  lemma Past(was: seq<Frame>, now: seq<Frame>, before: map<PageId, PageData>, disk: map<PageId, PageData>,
             contents: map<PageId, PageData>, fd: int, rest: set<PageId>, id: PageId)
    requires Swept(was, now, fd, rest) && Flushing(before, disk, contents, fd, rest) && id.fd != fd
    ensures Swept(was, now, fd, rest - {id}) && Flushing(before, disk, contents, fd, rest - {id})
  {
  }

  lemma TableOnDisk(p: Pool)
    requires Ok(p)
    ensures p.table.Keys <= p.disk.Keys
  {
  }

  lemma EmptyPoolOk(p: Pool)
    requires forall f :: 0 <= f < |p.frames| ==> p.frames[f] == Frame(INVALID_PAGE, ZERO_PAGE, 0, false)
    requires |p.free| == |p.frames| && (forall i :: 0 <= i < |p.free| ==> p.free[i] == i)
    requires p.table == map[] && p.disk == map[] && p.lru == [] && p.written == {}
    ensures Ok(p)
  {
    assert forall f :: IsFrame(p, f) ==> p.free[f] == f;
  }

  lemma Evictable(p: Pool, f: int)
    requires Ok(p) && IsFrame(p, f) && f !in p.free && p.frames[f].pin == 0
    ensures f in p.lru
    ensures WrittenBack(p, f).Keys == p.disk.Keys
  {
    Resident(p, f);
  }

  lemma KeysOf(p: Pool)
    requires Ok(p)
    ensures Contents(p).Keys == p.disk.Keys
    ensures forall id :: id in p.disk && id !in p.table ==> Contents(p)[id] == p.disk[id]
  {
  }

  lemma InTable(p: Pool, id: PageId)
    requires Ok(p)
    ensures id in p.table ==>
              IsFrame(p, p.table[id]) && p.frames[p.table[id]].id == id && p.table[id] !in p.free && id in p.disk
    ensures id in p.table ==> id in Contents(p) && Contents(p)[id] == p.frames[p.table[id]].data
  {
  }

  lemma TableOf(p: Pool)
    requires Ok(p)
    ensures TableOk(p)
  {
  }

  lemma NotInTable(p: Pool, id: PageId)
    requires Ok(p) && id !in p.disk
    ensures id !in p.table
  {
  }

  /** Writing a dirty page back touches no page outside the table. */
  lemma Evicted(p: Pool, f: int, id: PageId)
    requires Ok(p) && IsFrame(p, f) && id !in p.table
    ensures WrittenBack(p, f).Keys == p.disk.Keys
    ensures id in p.disk ==> WrittenBack(p, f)[id] == p.disk[id] == Contents(p)[id]
    ensures id in p.disk ==> WrittenBack(p, f)[id := p.disk[id]] == WrittenBack(p, f) && id != INVALID_PAGE
    ensures Contents(p).Keys == p.disk.Keys
    ensures id in p.disk ==> Contents(p)[id := p.disk[id]] == Contents(p)
  {
  }
}
