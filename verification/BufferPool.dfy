/** LRUReplacer: the frames that may be evicted, most recently released first. */
module Replacer {
  import opened Seqs

  /** s without the frame f. */
  function Without(s: seq<int>, f: int): seq<int> {
    if s == [] then [] else (if s[0] == f then [] else [s[0]]) + Without(s[1..], f)
  }

  lemma {:induction false} WithoutMembers(s: seq<int>, f: int)
    requires NoDup(s)
    ensures forall x :: x in Without(s, f) <==> x in s && x != f
    ensures NoDup(Without(s, f))
    ensures f !in s ==> Without(s, f) == s
  {
    if s != [] {
      assert NoDup(s[1..]);
      WithoutMembers(s[1..], f);
      assert s == [s[0]] + s[1..];
      assert s[0] !in s[1..];
    }
  }

  lemma {:induction false} WithoutAt(s: seq<int>, i: nat)
    requires NoDup(s) && i < |s|
    ensures Without(s, s[i]) == s[..i] + s[i + 1..]
  {
    if i == 0 {
      assert s[0] !in s[1..];
      assert NoDup(s[1..]);
      WithoutMembers(s[1..], s[0]);
      assert s[..0] + s[1..] == s[1..];
    } else {
      assert NoDup(s[1..]) && s[0] != s[i];
      WithoutAt(s[1..], i - 1);
      assert s[..i] + s[i + 1..] == [s[0]] + (s[1..][..i - 1] + s[1..][i..]);
    }
  }

  class LRUReplacer {
    /** LRUlist_, front first. */
    var list: seq<int>
    /** The keys of LRUhash_. */
    var hash: set<int>

    ghost predicate Valid()
      reads this
    {
      NoDup(list) && hash == set x | x in list
    }

    constructor ()
      ensures Valid() && list == []
    {
      list, hash := [], {};
    }

    /** LRUReplacer::victim: the frame at the back, which entered the list before all others. */
    method Victim() returns (found: bool, frame: int)
      requires Valid()
      modifies this
      ensures Valid()
      ensures found <==> old(list) != []
      ensures !found ==> list == old(list)
      ensures found ==> old(list) == list + [frame] && frame !in list
    {
      if list == [] { return false, -1; }
      frame := list[|list| - 1];
      list := list[..|list| - 1];
      hash := hash - {frame};
      found := true;
    }

    /** LRUReplacer::pin: the frame leaves the list wherever it is; the others keep their order. */
    method Pin(frame: int)
      requires Valid()
      modifies this
      ensures Valid() && list == Without(old(list), frame)
    {
      WithoutMembers(list, frame);
      if frame !in hash { return; }
      var i := 0;
      while list[i] != frame
        invariant 0 <= i < |list| && frame !in list[..i]
        invariant Valid() && frame in list && list == old(list) && hash == old(hash)
        decreases |list| - i
      {
        i := i + 1;
      }
      WithoutAt(list, i);
      list := list[..i] + list[i + 1..];
      hash := hash - {frame};
    }

    /** LRUReplacer::unpin: a frame that is not yet in the list enters at the front. */
    method Unpin(frame: int)
      requires Valid()
      modifies this
      ensures Valid()
      ensures list == if frame in old(list) then old(list) else [frame] + old(list)
    {
      if frame in hash { return; }
      list := [frame] + list;
      hash := hash + {frame};
    }
  }
}

/** BufferPoolManager: a write-back cache of pages over the disk. */
module BufferPool {
  import opened Seqs
  import opened Replacer

  datatype PageId = PageId(fd: int, pageNo: int)

  type Data = seq<int>

  const NO_PAGE_ID: PageId := PageId(-1, -1)

  /** A zero-filled page, and the same with its log sequence number set to -1. */
  function ZeroPage(): Data { seq(4096, i => 0) }
  function FreshPage(): Data { seq(4096, i => if i < 4 then 255 else 0) }

  datatype Frame = Frame(id: PageId, data: Data, dirty: bool, pin: nat)

  type Disk = map<PageId, Data>

  ghost function ReadDisk(disk: Disk, id: PageId): Data { if id in disk then disk[id] else ZeroPage() }

  function NextPage(next: map<int, nat>, fd: int): nat { if fd in next then next[fd] else 0 }

  /** The disk after a frame has been given up: a dirty one is written back. */
  ghost function Evicted(disk: Disk, frame: Frame): Disk { if frame.dirty then disk[frame.id := frame.data] else disk }

  /** What a reader of page id sees: the cached frame if there is one, otherwise the disk. */
  ghost function View(frames: seq<Frame>, table: map<PageId, nat>, disk: Disk, id: PageId): Data {
    if id in table && table[id] < |frames| then frames[table[id]].data else ReadDisk(disk, id)
  }

  /** Page table and frames agree with each other. */
  ghost predicate Mapped(frames: seq<Frame>, table: map<PageId, nat>) {
    && (forall f :: 0 <= f < |frames| && frames[f].id != NO_PAGE_ID ==> frames[f].id in table && table[frames[f].id] == f)
    && (forall id :: id in table ==> table[id] < |frames| && frames[table[id]].id == id && id != NO_PAGE_ID)
  }

  /** Which frames are free, evictable or pinned.  A deleted page's frame may be in both lists. */
  ghost predicate Lists(frames: seq<Frame>, free: seq<int>, lru: seq<int>, except: int) {
    && NoDup(free)
    && (forall f :: f in free ==> 0 <= f < |frames| && frames[f].id == NO_PAGE_ID && frames[f].pin == 0)
    && (forall f :: f in lru ==> 0 <= f < |frames| && frames[f].pin == 0)
    && (forall f :: 0 <= f < |frames| && frames[f].pin == 0 && f != except ==> f in free || f in lru)
    && (forall f :: 0 <= f < |frames| && frames[f].pin > 0 ==> frames[f].id != NO_PAGE_ID)
  }

  /** A clean unpinned frame holds what the disk holds. */
  ghost predicate Clean(frames: seq<Frame>, disk: Disk) {
    forall f :: 0 <= f < |frames| ==>
      && (frames[f].id == NO_PAGE_ID ==> !frames[f].dirty)
      && (frames[f].id != NO_PAGE_ID && frames[f].pin == 0 && !frames[f].dirty ==> frames[f].data == ReadDisk(disk, frames[f].id))
  }

  ghost predicate Allocated(table: map<PageId, nat>, next: map<int, nat>) {
    forall id :: id in table ==> 0 <= id.pageNo < NextPage(next, id.fd)
  }

  /** A frame was taken: the first free one, or, when none is free, the one at the back of the LRU list. */
  ghost predicate Took(free: seq<int>, lru: seq<int>, free': seq<int>, lru': seq<int>, f: int) {
    if free != [] then f == free[0] && free' == free[1..] && lru' == Without(lru, f)
    else free' == [] && lru != [] && f == lru[|lru| - 1] && lru' == lru[..|lru| - 1]
  }

  /** Page table after frame f, which held another page, has taken page id. */
  ghost function Remapped(table: map<PageId, nat>, frame: Frame, id: PageId, f: nat): map<PageId, nat> {
    (table - {frame.id})[id := f]
  }

  /** A frame after flush_all_pages. */
  ghost function FlushedFrame(frame: Frame, fd: int): Frame {
    if frame.id.fd != fd || frame.id.pageNo == -1 then frame
    else if frame.pin > 0 then frame.(dirty := false)
    else Frame(NO_PAGE_ID, ZeroPage(), false, 0)
  }

  /** The disk after the first n frames were flushed. */
  ghost function FlushedDisk(disk: Disk, frames: seq<Frame>, fd: int, n: nat): Disk
    requires n <= |frames|
  {
    if n == 0 then disk
    else
      var d, frame := FlushedDisk(disk, frames, fd, n - 1), frames[n - 1];
      if frame.id.fd != fd || frame.id.pageNo == -1 then d else d[frame.id := frame.data]
  }

  ghost predicate AllPinned(frames: seq<Frame>) {
    forall f :: 0 <= f < |frames| ==> frames[f].pin > 0
  }

  class BufferPoolManager {
    var frames: seq<Frame>
    var pageTable: map<PageId, nat>
    var freeList: seq<int>
    const replacer: LRUReplacer
    var disk: Disk
    var next: map<int, nat>

    ghost predicate ValidExcept(except: int)
      reads this, replacer
    {
      && replacer.Valid()
      && Mapped(frames, pageTable)
      && Lists(frames, freeList, replacer.list, except)
      && Clean(frames, disk)
      && Allocated(pageTable, next)
    }

    ghost predicate Valid()
      reads this, replacer
    {
      ValidExcept(-1)
    }

    ghost function Sees(id: PageId): Data
      reads this
    {
      View(frames, pageTable, disk, id)
    }

    constructor (poolSize: nat, onDisk: Disk, pageCounts: map<int, nat>)
      ensures Valid() && fresh(replacer)
      ensures |frames| == poolSize && disk == onDisk && next == pageCounts && pageTable == map[]
      ensures forall f :: 0 <= f < poolSize ==> frames[f] == Frame(NO_PAGE_ID, ZeroPage(), false, 0)
      ensures forall id :: Sees(id) == ReadDisk(onDisk, id)
    {
      frames := seq(poolSize, i => Frame(NO_PAGE_ID, ZeroPage(), false, 0));
      pageTable := map[];
      freeList := seq(poolSize, i => i);
      replacer := new LRUReplacer();
      disk := onDisk;
      next := pageCounts;
      new;
      forall f | 0 <= f < poolSize ensures f in freeList { assert freeList[f] == f; }
    }

    /** BufferPoolManager::find_victim_page: a free frame, else the least recently released one. */
    method FindVictimPage() returns (found: bool, f: int)
      requires Valid()
      modifies this`freeList, replacer
      ensures found <==> !AllPinned(frames)
      ensures !found ==> Valid() && freeList == old(freeList) && replacer.list == old(replacer.list)
      ensures found ==> ValidExcept(f) && 0 <= f < |frames| && frames[f].pin == 0 && f !in freeList
      ensures found && old(freeList) == [] ==> freeList == [] && old(replacer.list) == replacer.list + [f]
      ensures found && old(freeList) != [] ==> old(freeList) == [f] + freeList && replacer.list == old(replacer.list)
    {
      if freeList == [] {
        found, f := replacer.Victim();
        VictimLists(frames, old(replacer.list), replacer.list, f, found);
        return;
      }
      f := freeList[0];
      freeList := freeList[1..];
      found := true;
      assert f in old(freeList);
      assert forall x :: x in old(freeList) <==> x == f || x in freeList;
    }

    /** BufferPoolManager::update_page: write back, forget the old page, read the new one. */
    method UpdatePage(f: nat, newId: PageId)
      requires ValidExcept(f) && f < |frames| && frames[f].pin == 0 && f !in freeList
      requires newId !in pageTable && newId != NO_PAGE_ID && 0 <= newId.pageNo < NextPage(next, newId.fd)
      modifies this`frames, this`pageTable, this`disk
      ensures ValidExcept(f) && |frames| == |old(frames)|
      ensures frames[f] == Frame(newId, old(Sees(newId)), false, 0)
      ensures forall x :: 0 <= x < |frames| && x != f ==> frames[x] == old(frames)[x]
      ensures pageTable == Remapped(old(pageTable), old(frames)[f], newId, f)
      ensures disk == Evicted(old(disk), old(frames)[f])
      ensures forall id :: Sees(id) == old(Sees(id))
    {
      UpdateMapped(frames, pageTable, disk, next, f, newId);
      UpdateView(frames, pageTable, disk, f, newId);
      UpdateLists(frames, freeList, replacer.list, f, newId, disk);
      Retabled(pageTable, frames[f], newId, f);
      hide Mapped, Lists, Clean, Allocated, View, ReadDisk;
      var page := frames[f];
      if page.dirty {
        disk := disk[page.id := page.data];
        page := page.(dirty := false);
      }
      pageTable := pageTable - {page.id};
      page := page.(data := ReadPage(disk, newId), id := newId);
      pageTable := pageTable[newId := f];
      frames := frames[f := page];
    }

    /** BufferPoolManager::fetch_page: pin a page, loading it if need be.  It fails exactly when the page
        is not cached and every frame is pinned. */
    method FetchPage(id: PageId) returns (ok: bool, f: int)
      requires Valid() && id != NO_PAGE_ID && 0 <= id.pageNo < NextPage(next, id.fd)
      modifies this`frames, this`pageTable, this`disk, this`freeList, replacer
      ensures Valid()
      ensures ok <==> id in old(pageTable) || !AllPinned(old(frames))
      ensures forall i :: Sees(i) == old(Sees(i))
      ensures ok ==> id in pageTable && pageTable[id] == f && 0 <= f < |frames| && frames[f].id == id && frames[f].data == old(Sees(id))
      ensures ok ==> frames[f].pin == 1 + if id in old(pageTable) && f < |old(frames)| then old(frames)[f].pin else 0
      ensures |frames| == |old(frames)| && forall x :: 0 <= x < |frames| && !(ok && x == f) ==> frames[x] == old(frames)[x]
      ensures !ok ==> pageTable == old(pageTable) && disk == old(disk) && freeList == old(freeList) && replacer.list == old(replacer.list)
      ensures id in old(pageTable) ==>
                && pageTable == old(pageTable) && disk == old(disk) && freeList == old(freeList)
                && replacer.list == Without(old(replacer.list), f)
                && frames == old(frames)[f := old(frames)[f].(pin := old(frames)[f].pin + 1)]
      ensures ok && id !in old(pageTable) ==>
                && Took(old(freeList), old(replacer.list), freeList, replacer.list, f)
                && pageTable == Remapped(old(pageTable), old(frames)[f], id, f)
                && disk == Evicted(old(disk), old(frames)[f])
                && frames == old(frames)[f := Frame(id, old(Sees(id)), false, 1)]
    {
      hide Mapped, Lists, Clean, Allocated, View, Without, Remapped, Evicted, Took;
      if id in pageTable {
        MappedAt(frames, pageTable, id, disk);
        f := pageTable[id];
        PinFrame(frames, pageTable, freeList, replacer.list, disk, f, -1);
        replacer.Pin(f);
        frames := frames[f := frames[f].(pin := frames[f].pin + 1)];
        return true, f;
      }
      ok, f := FindVictimPage();
      if !ok { return; }
      TakenFrame(old(freeList), old(replacer.list), freeList, replacer.list, f);
      Retabled(pageTable, frames[f], id, f);
      UpdatePage(f, id);
      PinFrame(frames, pageTable, freeList, replacer.list, disk, f, f);
      ghost var loaded := frames;
      assert forall i :: View(loaded, pageTable, disk, i) == old(Sees(i)) by { assert forall i :: Sees(i) == old(Sees(i)); }
      replacer.Pin(f);
      frames := frames[f := frames[f].(pin := frames[f].pin + 1)];
      forall i ensures Sees(i) == old(Sees(i)) { assert View(frames, pageTable, disk, i) == View(loaded, pageTable, disk, i); }
    }

    /** A holder of a pin changes the page in place. */
    method WritePage(id: PageId, data: Data)
      requires Valid() && id in pageTable && pageTable[id] < |frames| && frames[pageTable[id]].pin > 0
      modifies this`frames
      ensures Valid() && Sees(id) == data
      ensures forall i :: i != id ==> Sees(i) == old(Sees(i))
      ensures frames == old(frames)[pageTable[id] := old(frames)[pageTable[id]].(data := data)]
    {
      var f := pageTable[id];
      frames := frames[f := frames[f].(data := data)];
    }

    /** BufferPoolManager::unpin_page.  Whoever gives up the last pin must report changes that are not
        yet marked or written. */
    method UnpinPage(id: PageId, isDirty: bool) returns (r: bool)
      requires Valid()
      requires id in pageTable && pageTable[id] < |frames| && frames[pageTable[id]].pin == 1 && !isDirty
               ==> frames[pageTable[id]].dirty || frames[pageTable[id]].data == ReadDisk(disk, id)
      modifies this`frames, replacer
      ensures Valid()
      ensures r <==> id in pageTable && pageTable[id] < |frames| && old(frames[pageTable[id]].pin > 0)
      ensures forall i :: Sees(i) == old(Sees(i))
      ensures |frames| == |old(frames)| && forall x :: 0 <= x < |frames| && !(r && x == pageTable[id]) ==> frames[x] == old(frames)[x]
      ensures r ==> var o := old(frames[pageTable[id]]);
                    frames[pageTable[id]] == o.(pin := o.pin - 1, dirty := o.dirty || isDirty)
      ensures replacer.list == if r && frames[pageTable[id]].pin == 0 && pageTable[id] !in old(replacer.list)
                               then [pageTable[id] as int] + old(replacer.list) else old(replacer.list)
    {
      hide Mapped, Lists, Clean, Allocated, View, NoDup;
      if id !in pageTable { return false; }
      MappedAt(frames, pageTable, id, disk);
      var f := pageTable[id];
      if frames[f].pin == 0 { return false; }
      UnpinFrame(frames, pageTable, freeList, replacer.list, disk, f, isDirty);
      frames := frames[f := frames[f].(pin := frames[f].pin - 1)];
      if frames[f].pin == 0 { replacer.Unpin(f); }
      frames := frames[f := frames[f].(dirty := frames[f].dirty || isDirty)];
      assert frames == old(frames)[f := old(frames)[f].(pin := old(frames)[f].pin - 1, dirty := old(frames)[f].dirty || isDirty)];
      return true;
    }

    /** BufferPoolManager::flush_page. */
    method FlushPage(id: PageId) returns (r: bool)
      requires Valid()
      modifies this`frames, this`disk
      ensures Valid() && (r <==> id in pageTable)
      ensures forall i :: Sees(i) == old(Sees(i))
      ensures r ==> ReadDisk(disk, id) == old(Sees(id))
      ensures !r ==> frames == old(frames) && disk == old(disk)
      ensures r ==> var f := pageTable[id];
                    && f < |old(frames)| && frames == old(frames)[f := old(frames)[f].(dirty := false)]
                    && disk == old(disk)[id := old(Sees(id))]
    {
      hide Mapped, Lists, Clean, Allocated, View, NoDup, ReadDisk;
      if id !in pageTable { return false; }
      MappedAt(frames, pageTable, id, disk);
      var f := pageTable[id];
      FlushFrame(frames, pageTable, freeList, replacer.list, disk, f);
      disk := disk[id := frames[f].data];
      frames := frames[f := frames[f].(dirty := false)];
      return true;
    }

    /** BufferPoolManager::new_page: a fresh page number, zeroed and already on disk. */
    method NewPage(fd: int) returns (ok: bool, f: int, id: PageId)
      requires Valid() && fd != -1
      modifies this`frames, this`pageTable, this`disk, this`freeList, this`next, replacer
      ensures Valid()
      ensures ok <==> !AllPinned(old(frames))
      ensures !ok ==> forall i :: Sees(i) == old(Sees(i))
      ensures ok ==> id == PageId(fd, old(NextPage(next, fd))) && next == old(next)[fd := id.pageNo + 1]
      ensures ok ==> id in pageTable && pageTable[id] == f && 0 <= f < |frames| && frames[f] == Frame(id, FreshPage(), false, 1)
      ensures ok ==> Sees(id) == FreshPage() && forall i :: i != id ==> Sees(i) == old(Sees(i))
      ensures !ok ==> frames == old(frames) && pageTable == old(pageTable) && disk == old(disk) && next == old(next)
                      && freeList == old(freeList) && replacer.list == old(replacer.list)
      ensures ok ==>
                && f < |old(frames)|
                && Took(old(freeList), old(replacer.list), freeList, replacer.list, f)
                && pageTable == Remapped(old(pageTable), old(frames)[f], id, f)
                && disk == Evicted(old(disk), old(frames)[f])[id := FreshPage()]
                && frames == old(frames)[f := Frame(id, FreshPage(), false, 1)]
    {
      hide Mapped, Lists, Clean, Allocated, View, Without, NoDup, ReadDisk, Took;
      id := PageId(fd, -1);
      ok, f := FindVictimPage();
      if !ok { return; }
      TakenFrame(old(freeList), old(replacer.list), freeList, replacer.list, f);
      NewFrame(frames, pageTable, freeList, replacer.list, disk, next, f, fd);
      var page := frames[f];
      if page.dirty { disk := disk[page.id := page.data]; }
      pageTable := pageTable - {page.id};
      id := PageId(fd, NextPage(next, fd));
      next := next[fd := NextPage(next, fd) + 1];
      replacer.Pin(f);
      page := Frame(id, FreshPage(), false, page.pin + 1);
      frames := frames[f := page];
      disk := disk[id := page.data];
      pageTable := pageTable[id := f];
    }

    /** BufferPoolManager::delete_page: the frame goes to the free list, the page stays on disk. */
    method DeletePage(id: PageId) returns (r: bool)
      requires Valid()
      modifies this`frames, this`pageTable, this`disk, this`freeList
      ensures Valid()
      ensures !r <==> id in old(pageTable) && old(pageTable[id] < |frames| && frames[pageTable[id]].pin > 0)
      ensures forall i :: Sees(i) == old(Sees(i))
      ensures r ==> id !in pageTable
      ensures !r || id !in old(pageTable) ==>
                frames == old(frames) && pageTable == old(pageTable) && disk == old(disk) && freeList == old(freeList)
      ensures r && id in old(pageTable) ==>
                var f := old(pageTable[id]);
                && f < |old(frames)| && frames == old(frames)[f := Frame(NO_PAGE_ID, ZeroPage(), false, 0)]
                && pageTable == old(pageTable) - {id} && freeList == old(freeList) + [f]
                && disk == old(disk)[id := old(Sees(id))]
    {
      hide Mapped, Lists, Clean, Allocated, View, NoDup, ReadDisk;
      if id !in pageTable { return true; }
      MappedAt(frames, pageTable, id, disk);
      var f := pageTable[id];
      if frames[f].pin > 0 { return false; }
      DropFrame(frames, pageTable, freeList, replacer.list, disk, next, f);
      FreeFrame(frames, pageTable, freeList, replacer.list, f);
      disk := disk[id := frames[f].data];
      pageTable := pageTable - {id};
      frames := frames[f := Frame(NO_PAGE_ID, ZeroPage(), false, 0)];
      freeList := freeList + [f];
      return true;
    }

    /** BufferPoolManager::flush_all_pages: write every page of a file, and drop the unpinned ones. */
    method FlushAllPages(fd: int)
      requires Valid() && fd != -1
      modifies this`frames, this`pageTable, this`disk, replacer
      ensures Valid()
      ensures forall i :: Sees(i) == old(Sees(i))
      ensures forall i :: i in pageTable && i.fd == fd ==> ReadDisk(disk, i) == Sees(i)
      ensures |frames| == |old(frames)| && forall x :: 0 <= x < |frames| ==> frames[x] == FlushedFrame(old(frames)[x], fd)
      ensures disk == FlushedDisk(old(disk), old(frames), fd, |old(frames)|)
      ensures replacer.list == old(replacer.list)
    {
      hide Mapped, Lists, Clean, Allocated, View, NoDup, ReadDisk;
      var f := 0;
      while f < |frames|
        invariant Valid() && 0 <= f <= |frames| && |frames| == |old(frames)|
        invariant forall i :: Sees(i) == old(Sees(i))
        invariant Flushed(frames, disk, fd, f)
        invariant forall x :: 0 <= x < |frames| ==> frames[x] == if x < f then FlushedFrame(old(frames)[x], fd) else old(frames)[x]
        invariant disk == FlushedDisk(old(disk), old(frames), fd, f)
        invariant replacer.list == old(replacer.list)
      {
        var page := frames[f];
        ghost var before := frames;
        FlushedNext(frames, pageTable, disk, next, fd, f);
        if page.id.fd == fd && page.id.pageNo != -1 {
          FrameMapped(frames, pageTable, f);
          if page.pin == 0 {
            DropFrame(frames, pageTable, freeList, replacer.list, disk, next, f);
            InLru(frames, freeList, replacer.list, f);
          } else {
            FlushFrame(frames, pageTable, freeList, replacer.list, disk, f);
          }
          disk := disk[page.id := page.data];
          frames := frames[f := page.(dirty := false)];
          if page.pin == 0 {
            pageTable := pageTable - {page.id};
            frames := frames[f := Frame(NO_PAGE_ID, ZeroPage(), false, 0)];
            assert frames == before[f := Frame(NO_PAGE_ID, ZeroPage(), false, 0)];
            replacer.Unpin(f);
          }
        }
        f := f + 1;
      }
      AllFlushed(frames, pageTable, disk, fd);
    }
  }

  // ---------- taking a frame ----------

  lemma {:induction false} TakenFrame(free: seq<int>, lru: seq<int>, free': seq<int>, lru': seq<int>, f: int)
    requires NoDup(lru)
    requires if free == [] then free' == [] && lru == lru' + [f] else free == [f] + free' && lru' == lru
    ensures Took(free, lru, free', Without(lru', f), f)
  {
    if free == [] {
      assert lru[|lru'|] == f;
      forall i | 0 <= i < |lru'| ensures lru'[i] == lru[i] != f {}
      WithoutMembers(lru', f);
    }
  }

  lemma {:induction false} Retabled(table: map<PageId, nat>, frame: Frame, id: PageId, f: nat)
    ensures var t := Remapped(table, frame, id, f); id in t && t[id] == f
  {}

  // ---------- pins ----------

  lemma {:induction false} MappedAt(frames: seq<Frame>, table: map<PageId, nat>, id: PageId, disk: Disk)
    requires Mapped(frames, table) && id in table
    ensures table[id] < |frames| && frames[table[id]].id == id && id != NO_PAGE_ID
    ensures View(frames, table, disk, id) == frames[table[id]].data
  {}

  lemma {:induction false} FrameMapped(frames: seq<Frame>, table: map<PageId, nat>, f: nat)
    requires Mapped(frames, table) && f < |frames| && frames[f].id != NO_PAGE_ID
    ensures frames[f].id in table && table[frames[f].id] == f
  {}

  lemma {:induction false} PinFrame(frames: seq<Frame>, table: map<PageId, nat>, free: seq<int>, lru: seq<int>, disk: Disk, f: nat, except: int)
    requires f < |frames| && frames[f].id != NO_PAGE_ID && (except == -1 || except == f)
    requires Mapped(frames, table) && Lists(frames, free, lru, except) && Clean(frames, disk) && NoDup(lru)
    ensures var frames' := frames[f := frames[f].(pin := frames[f].pin + 1)];
            && Mapped(frames', table) && Lists(frames', free, Without(lru, f), -1) && Clean(frames', disk)
            && forall id :: View(frames', table, disk, id) == View(frames, table, disk, id)
  {
    WithoutMembers(lru, f);
  }

  lemma {:induction false} UnpinFrame(frames: seq<Frame>, table: map<PageId, nat>, free: seq<int>, lru: seq<int>, disk: Disk, f: nat, isDirty: bool)
    requires f < |frames| && frames[f].pin > 0
    requires Mapped(frames, table) && Lists(frames, free, lru, -1) && Clean(frames, disk)
    requires frames[f].pin == 1 && !isDirty ==> frames[f].dirty || frames[f].data == ReadDisk(disk, frames[f].id)
    ensures var frames' := frames[f := frames[f].(pin := frames[f].pin - 1, dirty := frames[f].dirty || isDirty)];
            && Mapped(frames', table) && Clean(frames', disk)
            && Lists(frames', free, if frames[f].pin == 1 && f !in lru then [f] + lru else lru, -1)
            && (frames[f].pin > 1 ==> Lists(frames', free, lru, -1))
            && forall id :: View(frames', table, disk, id) == View(frames, table, disk, id)
  {}

  // ---------- writing to disk ----------

  lemma {:induction false} FlushFrame(frames: seq<Frame>, table: map<PageId, nat>, free: seq<int>, lru: seq<int>, disk: Disk, f: nat)
    requires f < |frames| && frames[f].id != NO_PAGE_ID
    requires Mapped(frames, table) && Lists(frames, free, lru, -1) && Clean(frames, disk)
    ensures var frames' := frames[f := frames[f].(dirty := false)];
            var disk' := disk[frames[f].id := frames[f].data];
            && Mapped(frames', table) && Lists(frames', free, lru, -1) && Clean(frames', disk')
            && (forall id :: View(frames', table, disk', id) == View(frames, table, disk, id))
            && ReadDisk(disk', frames[f].id) == frames[f].data
  {}

  lemma {:induction false} NewFrame(frames: seq<Frame>, table: map<PageId, nat>, free: seq<int>, lru: seq<int>, disk: Disk,
                                    next: map<int, nat>, f: nat, fd: int)
    requires f < |frames| && frames[f].pin == 0 && f !in free && fd != -1
    requires Mapped(frames, table) && Lists(frames, free, lru, f) && Clean(frames, disk) && Allocated(table, next) && NoDup(lru)
    ensures var id := PageId(fd, NextPage(next, fd));
            var disk' := Evicted(disk, frames[f])[id := FreshPage()];
            var frames' := frames[f := Frame(id, FreshPage(), false, 1)];
            var table' := Remapped(table, frames[f], id, f);
            && Mapped(frames', table') && Lists(frames', free, Without(lru, f), -1) && Clean(frames', disk')
            && Allocated(table', next[fd := id.pageNo + 1])
            && View(frames', table', disk', id) == FreshPage()
            && (forall i :: i != id ==> View(frames', table', disk', i) == View(frames, table, disk, i))
  {
    WithoutMembers(lru, f);
    NewFrameMapped(frames, table, disk, next, f, fd);
    NewFrameView(frames, table, disk, next, f, fd);
  }

  lemma {:induction false} NewFrameMapped(frames: seq<Frame>, table: map<PageId, nat>, disk: Disk, next: map<int, nat>, f: nat, fd: int)
    requires f < |frames| && fd != -1 && Mapped(frames, table) && Allocated(table, next)
    ensures var id := PageId(fd, NextPage(next, fd));
            var frames' := frames[f := Frame(id, FreshPage(), false, 1)];
            var table' := Remapped(table, frames[f], id, f);
            id !in table && Mapped(frames', table') && Allocated(table', next[fd := id.pageNo + 1])
  {}

  lemma {:induction false} NewFrameView(frames: seq<Frame>, table: map<PageId, nat>, disk: Disk, next: map<int, nat>, f: nat, fd: int)
    requires f < |frames| && frames[f].pin == 0 && fd != -1
    requires Mapped(frames, table) && Clean(frames, disk) && Allocated(table, next)
    ensures var id := PageId(fd, NextPage(next, fd));
            var disk' := Evicted(disk, frames[f])[id := FreshPage()];
            var frames' := frames[f := Frame(id, FreshPage(), false, 1)];
            var table' := Remapped(table, frames[f], id, f);
            && Clean(frames', disk')
            && View(frames', table', disk', id) == FreshPage()
            && (forall i :: i != id ==> View(frames', table', disk', i) == View(frames, table, disk, i))
  {}

  /** Writing an unpinned page out and forgetting it. */
  lemma {:induction false} DropFrame(frames: seq<Frame>, table: map<PageId, nat>, free: seq<int>, lru: seq<int>, disk: Disk,
                                     next: map<int, nat>, f: nat)
    requires f < |frames| && frames[f].pin == 0 && frames[f].id != NO_PAGE_ID
    requires Mapped(frames, table) && Lists(frames, free, lru, -1) && Clean(frames, disk) && Allocated(table, next)
    ensures var frames' := frames[f := Frame(NO_PAGE_ID, ZeroPage(), false, 0)];
            var table' := table - {frames[f].id};
            var disk' := disk[frames[f].id := frames[f].data];
            && Mapped(frames', table') && Lists(frames', free, lru, -1) && Clean(frames', disk') && Allocated(table', next)
            && (forall i :: View(frames', table', disk', i) == View(frames, table, disk, i))
            && frames[f].id !in table'
  {}

  lemma {:induction false} FreeFrame(frames: seq<Frame>, table: map<PageId, nat>, free: seq<int>, lru: seq<int>, f: nat)
    requires f < |frames| && frames[f].pin == 0 && frames[f].id != NO_PAGE_ID
    requires Lists(frames, free, lru, -1)
    ensures Lists(frames[f := Frame(NO_PAGE_ID, ZeroPage(), false, 0)], free + [f], lru, -1)
  {
    assert f !in free;
    assert forall x :: x in free + [f] <==> x in free || x == f;
  }

  // ---------- flushing a whole file ----------

  /** Every frame before n that caches a page of the file agrees with the disk. */
  ghost predicate Flushed(frames: seq<Frame>, disk: Disk, fd: int, n: nat) {
    forall f :: 0 <= f < n && f < |frames| && frames[f].id != NO_PAGE_ID && frames[f].id.fd == fd
      ==> frames[f].data == ReadDisk(disk, frames[f].id)
  }

  /** An unpinned cached page is in the LRU list. */
  lemma {:induction false} InLru(frames: seq<Frame>, free: seq<int>, lru: seq<int>, f: nat)
    requires Lists(frames, free, lru, -1) && f < |frames| && frames[f].pin == 0 && frames[f].id != NO_PAGE_ID
    ensures f in lru
  {}

  lemma {:induction false} FlushedNext(frames: seq<Frame>, table: map<PageId, nat>, disk: Disk, next: map<int, nat>, fd: int, f: nat)
    requires Mapped(frames, table) && Allocated(table, next) && f < |frames| && Flushed(frames, disk, fd, f) && fd != -1
    ensures var page := frames[f];
            if page.id.fd == fd && page.id.pageNo != -1
            then && page.id != NO_PAGE_ID
                 && Flushed(frames[f := page.(dirty := false)], disk[page.id := page.data], fd, f + 1)
                 && Flushed(frames[f := Frame(NO_PAGE_ID, ZeroPage(), false, 0)], disk[page.id := page.data], fd, f + 1)
            else Flushed(frames, disk, fd, f + 1)
  {
    if frames[f].id != NO_PAGE_ID { assert frames[f].id in table; }
    forall x | 0 <= x < |frames| && x != f && frames[x].id == frames[f].id ensures frames[x].id == NO_PAGE_ID {}
  }

  lemma {:induction false} AllFlushed(frames: seq<Frame>, table: map<PageId, nat>, disk: Disk, fd: int)
    requires Mapped(frames, table) && Flushed(frames, disk, fd, |frames|)
    ensures forall i :: i in table && i.fd == fd ==> ReadDisk(disk, i) == View(frames, table, disk, i)
  {}

  /** DiskManager::read_page into a zeroed frame. */
  function ReadPage(disk: Disk, id: PageId): (d: Data)
    ensures d == ReadDisk(disk, id)
  {
    if id in disk then disk[id] else ZeroPage()
  }

  lemma {:induction false} VictimLists(frames: seq<Frame>, before: seq<int>, after: seq<int>, f: int, found: bool)
    requires Lists(frames, [], before, -1)
    requires found <==> before != []
    requires if found then before == after + [f] else after == before
    ensures found <==> !AllPinned(frames)
    ensures found ==> 0 <= f < |frames| && frames[f].pin == 0 && Lists(frames, [], after, f)
  {
    if found {
      assert before[|before| - 1] == f && f in before;
      assert forall x :: x in before <==> x in after || x == f;
    }
  }

  // ---------- replacing the page in a frame ----------

  lemma {:induction false} UpdateMapped(frames: seq<Frame>, table: map<PageId, nat>, disk: Disk, next: map<int, nat>, f: nat, newId: PageId)
    requires Mapped(frames, table) && Clean(frames, disk) && Allocated(table, next)
    requires f < |frames| && newId !in table && newId != NO_PAGE_ID && 0 <= newId.pageNo < NextPage(next, newId.fd)
    ensures var disk' := Evicted(disk, frames[f]);
            var frames' := frames[f := Frame(newId, ReadDisk(disk', newId), false, frames[f].pin)];
            var table' := Remapped(table, frames[f], newId, f);
            && Mapped(frames', table') && Allocated(table', next)
  {}

  lemma {:induction false} UpdateView(frames: seq<Frame>, table: map<PageId, nat>, disk: Disk, f: nat, newId: PageId)
    requires Mapped(frames, table) && Clean(frames, disk)
    requires f < |frames| && frames[f].pin == 0 && newId !in table && newId != NO_PAGE_ID
    ensures var disk' := Evicted(disk, frames[f]);
            var frames' := frames[f := Frame(newId, ReadDisk(disk', newId), false, 0)];
            var table' := Remapped(table, frames[f], newId, f);
            && ReadDisk(disk', newId) == View(frames, table, disk, newId)
            && (forall id :: View(frames', table', disk', id) == View(frames, table, disk, id))
            && Clean(frames', disk')
  {}

  lemma {:induction false} UpdateLists(frames: seq<Frame>, free: seq<int>, lru: seq<int>, f: nat, newId: PageId, disk: Disk)
    requires Lists(frames, free, lru, f) && f < |frames| && frames[f].pin == 0 && f !in free && newId != NO_PAGE_ID
    ensures var disk' := Evicted(disk, frames[f]);
            Lists(frames[f := Frame(newId, ReadDisk(disk', newId), false, 0)], free, lru, f)
  {}
}
