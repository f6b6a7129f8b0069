/** The slotted heap file: pages with a bitmap, and a linked list of the pages with room. */
module HeapFile {
  import opened Bitmap
  import opened Defs

  const RM_NO_PAGE: int := -1
  const RM_FIRST_RECORD_PAGE: int := 1

  type Record = seq<int>

  datatype RmPage = RmPage(nextFree: int, numRecords: int, bitmap: seq<bv8>, slots: seq<Record>)

  /** n slots, a bitmap that covers them, and a count that matches it. */
  ghost predicate PageOK(p: RmPage, n: nat) {
    n <= 8 * |p.bitmap| && |p.slots| == n && p.numRecords == Count(p.bitmap, n)
  }

  ghost predicate Full(p: RmPage, n: nat) { p.numRecords == n }

  ghost predicate PagesOK(pages: map<int, RmPage>, numPages: int, n: nat) {
    && (forall p :: p in pages <==> RM_FIRST_RECORD_PAGE <= p < numPages)
    && (forall p :: p in pages ==> PageOK(pages[p], n))
  }

  ghost predicate ChainLink(pages: map<int, RmPage>, chain: seq<int>, i: int)
    requires 0 <= i < |chain|
  {
    && chain[i] in pages && chain[i] != RM_NO_PAGE
    && pages[chain[i]].nextFree == if i + 1 < |chain| then chain[i + 1] else RM_NO_PAGE
  }

  /** chain lists the pages from firstFree along next_free_page_no: no page twice, and exactly those with room. */
  ghost predicate ChainOK(pages: map<int, RmPage>, n: nat, firstFree: int, chain: seq<int>) {
    && firstFree == (if chain == [] then RM_NO_PAGE else chain[0])
    && (forall i :: 0 <= i < |chain| ==> ChainLink(pages, chain, i))
    && (forall i, j :: 0 <= i < j < |chain| ==> chain[i] != chain[j])
    && (forall p :: p in pages ==> (p in chain <==> !Full(pages[p], n)))
  }

  /** The slot exists. */
  ghost predicate IsSlot(pages: map<int, RmPage>, n: nat, rid: Rid) {
    rid.pageNo in pages && 0 <= rid.slotNo < n
  }

  ghost predicate Occupied(pages: map<int, RmPage>, n: nat, rid: Rid) {
    && IsSlot(pages, n, rid)
    && InBitmap(pages[rid.pageNo].bitmap, rid.slotNo)
    && IsSet(pages[rid.pageNo].bitmap, rid.slotNo)
  }

  ghost function AllRids(numPages: int, n: nat): set<Rid> {
    set p, s | RM_FIRST_RECORD_PAGE <= p < numPages && 0 <= s < n :: Rid(p, s)
  }

  /** The finite map from record ids to records that the file stands for. */
  ghost function Contents(pages: map<int, RmPage>, numPages: int, n: nat): map<Rid, Record>
    requires PagesOK(pages, numPages, n)
  {
    map rid | rid in AllRids(numPages, n) && Occupied(pages, n, rid) :: pages[rid.pageNo].slots[rid.slotNo]
  }

  lemma {:induction false} ContentsHas(pages: map<int, RmPage>, numPages: int, n: nat, rid: Rid)
    requires PagesOK(pages, numPages, n)
    ensures rid in Contents(pages, numPages, n) <==> Occupied(pages, n, rid)
    ensures Occupied(pages, n, rid) ==> Contents(pages, numPages, n)[rid] == pages[rid.pageNo].slots[rid.slotNo]
  {
    if Occupied(pages, n, rid) {
      assert rid == Rid(rid.pageNo, rid.slotNo);
      assert rid in AllRids(numPages, n);
    }
  }

  // ---------- page edits ----------

  function PutSlot(p: RmPage, s: nat, rec: Record): RmPage
    requires s < |p.slots| && InBitmap(p.bitmap, s)
  {
    p.(slots := p.slots[s := rec], numRecords := p.numRecords + 1, bitmap := Set(p.bitmap, s))
  }

  function ClearSlot(p: RmPage, s: nat, zero: Record): RmPage
    requires s < |p.slots| && InBitmap(p.bitmap, s)
  {
    p.(slots := p.slots[s := zero], numRecords := p.numRecords - 1, bitmap := Reset(p.bitmap, s))
  }

  /** create_new_page_handle: an empty page at the end of the list. */
  function FreshPage(n: nat, bitmapSize: nat): RmPage {
    RmPage(RM_NO_PAGE, 0, seq(bitmapSize, i => 0 as bv8), seq(n, i => []))
  }

  /** The pages an insert works on: with a fresh one when no page has room. */
  function Roomy(pages: map<int, RmPage>, numPages: int, firstFree: int, n: nat, bitmapSize: nat): map<int, RmPage> {
    if firstFree == RM_NO_PAGE then pages[numPages := FreshPage(n, bitmapSize)] else pages
  }

  /** A file: its pages and the two numbers of its header that change. */
  datatype FileState = FileState(pages: map<int, RmPage>, numPages: int, firstFree: int)

  /** Where the next record goes: the lowest free slot of the first page with room. */
  ghost predicate NextSlot(st: FileState, n: nat, bitmapSize: nat, rid: Rid) {
    var base := Roomy(st.pages, st.numPages, st.firstFree, n, bitmapSize);
    && rid.pageNo == (if st.firstFree == RM_NO_PAGE then st.numPages else st.firstFree)
    && rid.pageNo in base && 0 <= rid.slotNo < n <= 8 * |base[rid.pageNo].bitmap|
    && !IsSet(base[rid.pageNo].bitmap, rid.slotNo)
    && forall s :: 0 <= s < rid.slotNo ==> IsSet(base[rid.pageNo].bitmap, s)
  }

  /** The file after a record went there; a page that is full now leaves the list. */
  ghost function Filled(st: FileState, n: nat, bitmapSize: nat, rid: Rid, buf: Record): FileState {
    var base := Roomy(st.pages, st.numPages, st.firstFree, n, bitmapSize);
    if rid.pageNo !in base || !(0 <= rid.slotNo < |base[rid.pageNo].slots|) || !InBitmap(base[rid.pageNo].bitmap, rid.slotNo) then st
    else
      var page := PutSlot(base[rid.pageNo], rid.slotNo, buf);
      FileState(base[rid.pageNo := page], if st.firstFree == RM_NO_PAGE then st.numPages + 1 else st.numPages,
                if page.numRecords >= n then page.nextFree else rid.pageNo)
  }

  /** The file after a slot was cleared; a page that was full goes to the front of the list. */
  ghost function Cleared(st: FileState, n: nat, rid: Rid, zero: Record): FileState {
    if rid.pageNo !in st.pages || !(0 <= rid.slotNo < |st.pages[rid.pageNo].slots|) || !InBitmap(st.pages[rid.pageNo].bitmap, rid.slotNo) then st
    else
      var page := st.pages[rid.pageNo];
      var cleared := ClearSlot(page, rid.slotNo, zero);
      if page.numRecords == n then st.(pages := st.pages[rid.pageNo := cleared.(nextFree := st.firstFree)], firstFree := rid.pageNo)
      else st.(pages := st.pages[rid.pageNo := cleared])
  }

  ghost function Overwritten(st: FileState, rid: Rid, buf: Record): FileState {
    if rid.pageNo !in st.pages || !(0 <= rid.slotNo < |st.pages[rid.pageNo].slots|) then st
    else
      var page := st.pages[rid.pageNo];
      st.(pages := st.pages[rid.pageNo := page.(slots := page.slots[rid.slotNo := buf])])
  }

  lemma {:induction false} PutSlotOK(p: RmPage, n: nat, s: nat, rec: Record)
    requires PageOK(p, n) && s < n && !IsSet(p.bitmap, s)
    ensures PageOK(PutSlot(p, s, rec), n)
    ensures p.numRecords < n
  {
    CountSet(p.bitmap, s, n);
    CountBounds(Set(p.bitmap, s), n);
  }

  lemma {:induction false} ClearSlotOK(p: RmPage, n: nat, s: nat, zero: Record)
    requires PageOK(p, n) && s < n && IsSet(p.bitmap, s)
    ensures PageOK(ClearSlot(p, s, zero), n)
    ensures p.numRecords - 1 < n
  {
    CountReset(p.bitmap, s, n);
    CountBounds(p.bitmap, n);
  }

  /** Clearing an empty slot puts the count one below the bits. */
  lemma {:induction false} Miscounts(p: RmPage, n: nat, s: nat, zero: Record)
    requires PageOK(p, n) && s < n && !IsSet(p.bitmap, s)
    ensures !PageOK(ClearSlot(p, s, zero), n)
  {
    CountResetClear(p.bitmap, s, n);
  }

  lemma {:induction false} FullMeansSet(p: RmPage, n: nat, s: nat)
    requires PageOK(p, n) && s < n
    ensures Full(p, n) ==> IsSet(p.bitmap, s)
  {
    CountBounds(p.bitmap, n);
  }

  /** m says of every rid what the pages say. */
  ghost predicate Describes(pages: map<int, RmPage>, n: nat, m: map<Rid, Record>, rid: Rid) {
    && (rid in m <==> Occupied(pages, n, rid))
    && (rid in m ==> rid.slotNo < |pages[rid.pageNo].slots| && m[rid] == pages[rid.pageNo].slots[rid.slotNo])
  }

  lemma {:induction false} ContentsIs(pages: map<int, RmPage>, numPages: int, n: nat, m: map<Rid, Record>)
    requires PagesOK(pages, numPages, n) && forall rid :: Describes(pages, n, m, rid)
    ensures Contents(pages, numPages, n) == m
  {
    var a := Contents(pages, numPages, n);
    forall rid ensures (rid in a <==> rid in m) && (rid in a ==> a[rid] == m[rid]) {
      ContentsHas(pages, numPages, n, rid);
      assert Describes(pages, n, m, rid);
    }
  }

  lemma {:induction false} ContentsDescribe(pages: map<int, RmPage>, numPages: int, n: nat, rid: Rid)
    requires PagesOK(pages, numPages, n)
    ensures Describes(pages, n, Contents(pages, numPages, n), rid)
  {
    ContentsHas(pages, numPages, n, rid);
  }

  lemma {:induction false} PutAt(pages: map<int, RmPage>, n: nat, m: map<Rid, Record>, rid: Rid, rec: Record, nextFree: int, r: Rid)
    requires IsSlot(pages, n, rid) && PageOK(pages[rid.pageNo], n) && (r.pageNo in pages ==> PageOK(pages[r.pageNo], n))
    requires Describes(pages, n, m, r)
    ensures Describes(pages[rid.pageNo := PutSlot(pages[rid.pageNo], rid.slotNo, rec).(nextFree := nextFree)], n, m[rid := rec], r)
  {
    hide IsSet, Mask;
    if r.pageNo == rid.pageNo && 0 <= r.slotNo < n { SetBit(pages[rid.pageNo].bitmap, rid.slotNo, r.slotNo); }
  }

  lemma {:induction false} ClearAt(pages: map<int, RmPage>, n: nat, m: map<Rid, Record>, rid: Rid, zero: Record, nextFree: int, r: Rid)
    requires IsSlot(pages, n, rid) && PageOK(pages[rid.pageNo], n) && (r.pageNo in pages ==> PageOK(pages[r.pageNo], n))
    requires Describes(pages, n, m, r)
    ensures Describes(pages[rid.pageNo := ClearSlot(pages[rid.pageNo], rid.slotNo, zero).(nextFree := nextFree)], n, m - {rid}, r)
  {
    hide IsSet, Mask;
    if r.pageNo == rid.pageNo && 0 <= r.slotNo < n { ResetBit(pages[rid.pageNo].bitmap, rid.slotNo, r.slotNo); }
  }

  /** Inserting a record into a free slot of one page adds exactly that record. */
  lemma {:induction false} PutContents(pages: map<int, RmPage>, numPages: int, n: nat, rid: Rid, rec: Record, nextFree: int)
    requires PagesOK(pages, numPages, n) && IsSlot(pages, n, rid) && !IsSet(pages[rid.pageNo].bitmap, rid.slotNo)
    ensures var pages' := pages[rid.pageNo := PutSlot(pages[rid.pageNo], rid.slotNo, rec).(nextFree := nextFree)];
            && PagesOK(pages', numPages, n)
            && rid !in Contents(pages, numPages, n)
            && Contents(pages', numPages, n) == Contents(pages, numPages, n)[rid := rec]
  {
    PutSlotOK(pages[rid.pageNo], n, rid.slotNo, rec);
    var pages' := pages[rid.pageNo := PutSlot(pages[rid.pageNo], rid.slotNo, rec).(nextFree := nextFree)];
    ContentsHas(pages, numPages, n, rid);
    assert PagesOK(pages', numPages, n);
    hide Contents, IsSet, Describes;
    var m' := Contents(pages, numPages, n)[rid := rec];
    forall r ensures Describes(pages', n, m', r) {
      ContentsDescribe(pages, numPages, n, r);
      PutAt(pages, n, Contents(pages, numPages, n), rid, rec, nextFree, r);
    }
    ContentsIs(pages', numPages, n, m');
  }

  /** Clearing an occupied slot removes exactly that record. */
  lemma {:induction false} ClearContents(pages: map<int, RmPage>, numPages: int, n: nat, rid: Rid, zero: Record, nextFree: int)
    requires PagesOK(pages, numPages, n) && Occupied(pages, n, rid)
    ensures var pages' := pages[rid.pageNo := ClearSlot(pages[rid.pageNo], rid.slotNo, zero).(nextFree := nextFree)];
            && PagesOK(pages', numPages, n)
            && Contents(pages', numPages, n) == Contents(pages, numPages, n) - {rid}
  {
    ClearSlotOK(pages[rid.pageNo], n, rid.slotNo, zero);
    var pages' := pages[rid.pageNo := ClearSlot(pages[rid.pageNo], rid.slotNo, zero).(nextFree := nextFree)];
    assert PagesOK(pages', numPages, n);
    hide Contents, IsSet, Describes;
    var m' := Contents(pages, numPages, n) - {rid};
    forall r ensures Describes(pages', n, m', r) {
      ContentsDescribe(pages, numPages, n, r);
      ClearAt(pages, n, Contents(pages, numPages, n), rid, zero, nextFree, r);
    }
    ContentsIs(pages', numPages, n, m');
  }

  /** Writing a slot changes the record there, if there is one. */
  lemma {:induction false} UpdateContents(pages: map<int, RmPage>, numPages: int, n: nat, rid: Rid, rec: Record)
    requires PagesOK(pages, numPages, n) && IsSlot(pages, n, rid)
    ensures var p := pages[rid.pageNo];
            var pages' := pages[rid.pageNo := p.(slots := p.slots[rid.slotNo := rec])];
            && PagesOK(pages', numPages, n)
            && Contents(pages', numPages, n) ==
               if rid in Contents(pages, numPages, n) then Contents(pages, numPages, n)[rid := rec] else Contents(pages, numPages, n)
  {
    var p := pages[rid.pageNo];
    var pages' := pages[rid.pageNo := p.(slots := p.slots[rid.slotNo := rec])];
    var m := Contents(pages, numPages, n);
    var m' := if rid in m then m[rid := rec] else m;
    assert PagesOK(pages', numPages, n);
    ContentsDescribe(pages, numPages, n, rid);
    hide Contents, IsSet;
    forall r ensures Describes(pages', n, m', r) {
      ContentsDescribe(pages, numPages, n, r);
    }
    ContentsIs(pages', numPages, n, m');
  }

  /** An empty new page changes nothing. */
  lemma {:induction false} GrowContents(pages: map<int, RmPage>, numPages: int, n: nat, p: RmPage)
    requires PagesOK(pages, numPages, n) && numPages >= RM_FIRST_RECORD_PAGE && PageOK(p, n)
    requires n <= 8 * |p.bitmap| && forall s :: 0 <= s < n ==> !IsSet(p.bitmap, s)
    ensures PagesOK(pages[numPages := p], numPages + 1, n)
    ensures Contents(pages[numPages := p], numPages + 1, n) == Contents(pages, numPages, n)
  {
    hide Contents, AllRids, PageOK;
    var pages' := pages[numPages := p];
    var a, b := Contents(pages', numPages + 1, n), Contents(pages, numPages, n);
    forall r ensures (r in a <==> r in b) && (r in a ==> a[r] == b[r]) {
      ContentsHas(pages', numPages + 1, n, r);
      ContentsHas(pages, numPages, n, r);
      GrowOccupied(pages, numPages, n, p, r);
    }
  }

  lemma {:induction false} GrowOccupied(pages: map<int, RmPage>, numPages: int, n: nat, p: RmPage, r: Rid)
    requires PagesOK(pages, numPages, n) && n <= 8 * |p.bitmap| && forall s :: 0 <= s < n ==> !IsSet(p.bitmap, s)
    ensures Occupied(pages[numPages := p], n, r) <==> Occupied(pages, n, r)
    ensures Occupied(pages, n, r) ==> pages[numPages := p][r.pageNo] == pages[r.pageNo]
  {
    hide IsSet;
  }

  // ---------- the chain of pages with room ----------

  /** A page of the chain changes but keeps its link and stays non-full. */
  lemma {:induction false} ChainSame(pages: map<int, RmPage>, n: nat, firstFree: int, chain: seq<int>, p: int, page: RmPage)
    requires ChainOK(pages, n, firstFree, chain) && p in pages
    requires page.nextFree == pages[p].nextFree && (Full(page, n) <==> Full(pages[p], n))
    ensures ChainOK(pages[p := page], n, firstFree, chain)
  {
    var pages' := pages[p := page];
    forall i | 0 <= i < |chain| ensures ChainLink(pages', chain, i) { assert ChainLink(pages, chain, i); }
  }

  /** The first page of the chain becomes full. */
  lemma {:induction false} ChainPop(pages: map<int, RmPage>, n: nat, firstFree: int, chain: seq<int>, page: RmPage)
    requires ChainOK(pages, n, firstFree, chain) && chain != [] && firstFree in pages
    requires page.nextFree == pages[firstFree].nextFree && Full(page, n)
    ensures ChainOK(pages[firstFree := page], n, page.nextFree, chain[1..])
  {
    var pages', c := pages[firstFree := page], chain[1..];
    assert chain == [firstFree] + c;
    assert ChainLink(pages, chain, 0);
    forall i | 0 <= i < |c| ensures ChainLink(pages', c, i) {
      assert ChainLink(pages, chain, i + 1);
      assert chain[0] != chain[i + 1];
    }
    forall i | 0 <= i < |c| ensures c[i] != firstFree { assert chain[0] != chain[i + 1]; }
    forall p | p in pages' ensures p in c <==> !Full(pages'[p], n) {
      assert p in chain <==> p == firstFree || p in c;
    }
  }

  /** A full page gets room: it goes to the front. */
  lemma {:induction false} ChainPush(pages: map<int, RmPage>, n: nat, firstFree: int, chain: seq<int>, p: int, page: RmPage)
    requires ChainOK(pages, n, firstFree, chain) && p != RM_NO_PAGE
    requires p in pages ==> Full(pages[p], n)
    requires page.nextFree == firstFree && !Full(page, n)
    ensures ChainOK(pages[p := page], n, p, [p] + chain)
  {
    var pages', c := pages[p := page], [p] + chain;
    forall i | 0 <= i < |chain| ensures chain[i] != p && chain[i] in pages { assert ChainLink(pages, chain, i); }
    forall i | 0 <= i < |c| ensures ChainLink(pages', c, i) {
      if i > 0 { assert ChainLink(pages, chain, i - 1); }
    }
    forall x | x in pages' ensures x in c <==> !Full(pages'[x], n) {
      assert x in c <==> x == p || x in chain;
    }
  }

  // ---------- the file handle ----------

  class RmFileHandle {
    const recordsPerPage: nat
    const bitmapSize: nat
    var pages: map<int, RmPage>
    var numPages: int
    var firstFree: int
    ghost var chain: seq<int>

    ghost predicate Valid()
      reads this
    {
      && 1 <= recordsPerPage <= 8 * bitmapSize
      && numPages >= RM_FIRST_RECORD_PAGE
      && PagesOK(pages, numPages, recordsPerPage)
      && ChainOK(pages, recordsPerPage, firstFree, chain)
    }

    ghost function State(): FileState
      reads this
    {
      FileState(pages, numPages, firstFree)
    }

    ghost function Records(): map<Rid, Record>
      requires Valid()
      reads this
    {
      Contents(pages, numPages, recordsPerPage)
    }

    /** RmManager::create_file: a header page and no record pages. */
    constructor (perPage: nat, mapBytes: nat)
      requires 1 <= perPage <= 8 * mapBytes
      ensures Valid() && Records() == map[] && recordsPerPage == perPage && bitmapSize == mapBytes
      ensures numPages == 1 && firstFree == RM_NO_PAGE
    {
      recordsPerPage, bitmapSize := perPage, mapBytes;
      pages, numPages, firstFree, chain := map[], 1, RM_NO_PAGE, [];
      new;
      assert Records().Keys == {};
    }

    /** RmFileHandle::get_record reads the slot, whether or not its bit is set. */
    method GetRecord(rid: Rid) returns (rec: Record)
      requires Valid() && IsSlot(pages, recordsPerPage, rid)
      ensures rid in Records() ==> rec == Records()[rid]
      ensures rec == pages[rid.pageNo].slots[rid.slotNo]
    {
      ContentsHas(pages, numPages, recordsPerPage, rid);
      rec := pages[rid.pageNo].slots[rid.slotNo];
    }

    /** RmFileHandle::is_record. */
    method IsRecord(rid: Rid) returns (b: bool)
      requires Valid() && IsSlot(pages, recordsPerPage, rid)
      ensures b <==> rid in Records()
    {
      ContentsHas(pages, numPages, recordsPerPage, rid);
      b := IsSet(pages[rid.pageNo].bitmap, rid.slotNo);
    }

    /** RmFileHandle::create_page_handle: the first page with room, or a new page. */
    method CreatePageHandle() returns (p: int)
      requires Valid()
      modifies this`pages, this`numPages, this`firstFree, this`chain
      ensures Valid() && Records() == old(Records())
      ensures p == (if old(firstFree) == RM_NO_PAGE then old(numPages) else old(firstFree))
      ensures numPages == if old(firstFree) == RM_NO_PAGE then old(numPages) + 1 else old(numPages)
      ensures chain != [] && p == firstFree == chain[0] && p in pages && !Full(pages[p], recordsPerPage)
      ensures pages == Roomy(old(pages), old(numPages), old(firstFree), recordsPerPage, bitmapSize)
      ensures chain == if old(chain) == [] then [p] else old(chain)
    {
      hide Contents, ChainLink;
      if firstFree == RM_NO_PAGE {
        ChainEmpty(pages, recordsPerPage, firstFree, chain);
        var page := FreshPage(recordsPerPage, bitmapSize);
        EmptyBitmap(page.bitmap, recordsPerPage);
        GrowContents(pages, numPages, recordsPerPage, page);
        ChainPush(pages, recordsPerPage, firstFree, chain, numPages, page);
        p := numPages;
        pages := pages[p := page];
        firstFree := p;
        numPages := numPages + 1;
        assert [p] + chain == [p];
        chain := [p];
      } else {
        ChainHead(pages, recordsPerPage, firstFree, chain);
        p := firstFree;
      }
    }

    /** RmFileHandle::insert_record: the record goes to a slot that was not occupied. */
    method InsertRecord(buf: Record) returns (rid: Rid)
      requires Valid()
      modifies this`pages, this`numPages, this`firstFree, this`chain
      ensures Valid()
      ensures rid !in old(Records()) && Records() == old(Records())[rid := buf]
      ensures rid.pageNo == (if old(firstFree) == RM_NO_PAGE then old(numPages) else old(firstFree))
      ensures numPages == if old(firstFree) == RM_NO_PAGE then old(numPages) + 1 else old(numPages)
      ensures 0 <= rid.slotNo < recordsPerPage && forall s :: 0 <= s < rid.slotNo ==> Rid(rid.pageNo, s) in Records()
      ensures NextSlot(old(State()), recordsPerPage, bitmapSize, rid)
      ensures State() == Filled(old(State()), recordsPerPage, bitmapSize, rid, buf)
      ensures var rest := if old(chain) == [] then [] else old(chain)[1..];
              chain == if Full(pages[rid.pageNo], recordsPerPage) then rest else [rid.pageNo] + rest
    {
      hide Contents, ChainLink, IsSet, Set, ChainOK, Roomy;
      var p := CreatePageHandle();
      var page := pages[p];
      RoomMeansFreeBit(page, recordsPerPage);
      var pos := NextBit(false, page.bitmap, recordsPerPage, -1);
      rid := Rid(p, pos);
      PutContents(pages, numPages, recordsPerPage, rid, buf, page.nextFree);
      PutSlotOK(page, recordsPerPage, pos, buf);
      forall s | 0 <= s < pos ensures Rid(p, s) in Records() {
        ContentsHas(pages, numPages, recordsPerPage, Rid(p, s));
      }
      ghost var after := PutSlot(page, pos, buf);
      page := page.(slots := page.slots[pos := buf]);
      page := page.(numRecords := page.numRecords + 1);
      if page.numRecords >= recordsPerPage {
        ChainPop(pages, recordsPerPage, firstFree, chain, after);
        firstFree := page.nextFree;
        chain := chain[1..];
      } else {
        ChainSame(pages, recordsPerPage, firstFree, chain, p, after);
      }
      page := page.(bitmap := Set(page.bitmap, pos));
      pages := pages[p := page];
    }

    /** RmFileHandle::delete_record; zero is the zero-filled record left in the slot.  The bit is not looked at:
        on an empty slot the page's count drops below its number of records. */
    method DeleteRecord(rid: Rid, zero: Record)
      requires Valid() && IsSlot(pages, recordsPerPage, rid)
      modifies this`pages, this`firstFree, this`chain
      ensures rid in old(Records()) ==> Valid() && Records() == old(Records()) - {rid}
      ensures rid !in old(Records()) ==>
                && !Valid() && firstFree == old(firstFree)
                && pages == old(pages)[rid.pageNo := ClearSlot(old(pages)[rid.pageNo], rid.slotNo, zero)]
      ensures State() == Cleared(old(State()), recordsPerPage, rid, zero)
      ensures chain == if Full(old(pages)[rid.pageNo], recordsPerPage) then [rid.pageNo] + old(chain) else old(chain)
    {
      hide Contents, ChainLink, IsSet, Reset, ChainOK;
      ghost var there := rid in Records();
      ContentsHas(pages, numPages, recordsPerPage, rid);
      var page := pages[rid.pageNo];
      FullMeansSet(page, recordsPerPage, rid.slotNo);
      if there { ClearSlotOK(page, recordsPerPage, rid.slotNo, zero); } else { Miscounts(page, recordsPerPage, rid.slotNo, zero); }
      ghost var after := ClearSlot(page, rid.slotNo, zero);
      var slot := rid.slotNo;
      page := page.(slots := page.slots[slot := zero]);
      page := page.(bitmap := Reset(page.bitmap, slot));
      if page.numRecords == recordsPerPage {
        // release_page_handle
        ClearContents(pages, numPages, recordsPerPage, rid, zero, firstFree);
        ChainPush(pages, recordsPerPage, firstFree, chain, rid.pageNo, after.(nextFree := firstFree));
        page := page.(nextFree := firstFree);
        firstFree := rid.pageNo;
        chain := [rid.pageNo] + chain;
      } else if there {
        ClearContents(pages, numPages, recordsPerPage, rid, zero, page.nextFree);
        ChainSame(pages, recordsPerPage, firstFree, chain, rid.pageNo, after);
      }
      page := page.(numRecords := page.numRecords - 1);
      pages := pages[rid.pageNo := page];
      if !there { assert pages[rid.pageNo] == after; }
    }

    /** RmFileHandle::update_record overwrites the slot; an unoccupied slot stays unoccupied. */
    method UpdateRecord(rid: Rid, buf: Record)
      requires Valid() && IsSlot(pages, recordsPerPage, rid)
      modifies this`pages
      ensures Valid()
      ensures Records() == if rid in old(Records()) then old(Records())[rid := buf] else old(Records())
      ensures State() == Overwritten(old(State()), rid, buf)
    {
      hide Contents, ChainLink, ChainOK;
      UpdateContents(pages, numPages, recordsPerPage, rid, buf);
      var page := pages[rid.pageNo];
      var slot := rid.slotNo;
      ChainSame(pages, recordsPerPage, firstFree, chain, rid.pageNo, page.(slots := page.slots[slot := buf]));
      pages := pages[rid.pageNo := page.(slots := page.slots[slot := buf])];
    }
  }

  lemma {:induction false} ChainEmpty(pages: map<int, RmPage>, n: nat, firstFree: int, chain: seq<int>)
    requires ChainOK(pages, n, firstFree, chain) && firstFree == RM_NO_PAGE
    ensures chain == []
  {
    assert chain != [] ==> ChainLink(pages, chain, 0);
  }

  lemma {:induction false} ChainHead(pages: map<int, RmPage>, n: nat, firstFree: int, chain: seq<int>)
    requires ChainOK(pages, n, firstFree, chain) && firstFree != RM_NO_PAGE
    ensures chain != [] && firstFree == chain[0] && firstFree in pages && !Full(pages[firstFree], n)
  {
    assert ChainLink(pages, chain, 0);
    assert chain[0] in chain;
  }

  lemma {:induction false} RoomMeansFreeBit(p: RmPage, n: nat)
    requires PageOK(p, n) && !Full(p, n)
    ensures exists s :: 0 <= s < n && !IsSet(p.bitmap, s)
  {
    CountBounds(p.bitmap, n);
  }

  /** The list of pages with room is empty exactly when every slot is occupied. */
  lemma {:induction false} NoRoomIff(file: RmFileHandle)
    requires file.Valid()
    ensures file.firstFree != RM_NO_PAGE ==>
              (file.firstFree in file.pages
               && exists s :: 0 <= s < file.recordsPerPage && Rid(file.firstFree, s) !in file.Records())
    ensures file.firstFree == RM_NO_PAGE ==>
              forall r :: IsSlot(file.pages, file.recordsPerPage, r) ==> r in file.Records()
  {
    hide Contents;
    var n := file.recordsPerPage;
    if file.firstFree != RM_NO_PAGE {
      ChainHead(file.pages, n, file.firstFree, file.chain);
      RoomMeansFreeBit(file.pages[file.firstFree], n);
      var s :| 0 <= s < n && !IsSet(file.pages[file.firstFree].bitmap, s);
      ContentsHas(file.pages, file.numPages, n, Rid(file.firstFree, s));
    } else {
      ChainEmpty(file.pages, n, file.firstFree, file.chain);
      forall r | IsSlot(file.pages, n, r) ensures r in file.Records() {
        CountBounds(file.pages[r.pageNo].bitmap, n);
        ContentsHas(file.pages, file.numPages, n, r);
      }
    }
  }

  // ---------- RmScan ----------

  /** Reading order of record ids. */
  ghost predicate Before(a: Rid, b: Rid) {
    a.pageNo < b.pageNo || (a.pageNo == b.pageNo && a.slotNo < b.slotNo)
  }

  class RmScan {
    const file: RmFileHandle
    var rid: Rid

    /** The cursor is past the end. */
    predicate IsEnd()
      reads this
    {
      rid.pageNo == RM_NO_PAGE
    }

    ghost predicate Valid()
      reads this, file
    {
      file.Valid() && (IsEnd() || rid in file.Records())
    }

    constructor (handle: RmFileHandle)
      requires handle.Valid()
      ensures Valid() && file == handle
      ensures IsEnd() ==> file.Records() == map[]
      ensures !IsEnd() ==> forall r :: r in file.Records() ==> !Before(r, rid)
    {
      file := handle;
      rid := Rid(RM_FIRST_RECORD_PAGE, -1);
      new;
      AllAfterStart(handle);
      Advance();
      if IsEnd() { assert file.Records().Keys == {}; }
    }

    /** RmScan::next: the next occupied record id in reading order, or the end. */
    method Next()
      requires Valid() && !IsEnd()
      modifies this
      ensures Valid()
      ensures IsEnd() ==> forall r :: r in file.Records() ==> !Before(old(rid), r)
      ensures !IsEnd() ==> Before(old(rid), rid) && forall r :: r in file.Records() && Before(old(rid), r) ==> !Before(r, rid)
    {
      ContentsHas(file.pages, file.numPages, file.recordsPerPage, rid);
      Advance();
    }

    /** The loop shared by the constructor and next. */
    method Advance()
      requires file.Valid() && rid.pageNo >= RM_FIRST_RECORD_PAGE && rid.slotNo >= -1
      modifies this
      ensures IsEnd() || rid in file.Records()
      ensures IsEnd() ==> forall r :: r in file.Records() ==> !Before(old(rid), r)
      ensures !IsEnd() ==> Before(old(rid), rid) && forall r :: r in file.Records() && Before(old(rid), r) ==> !Before(r, rid)
    {
      ghost var start := rid;
      while rid.pageNo < file.numPages
        invariant rid.pageNo >= RM_FIRST_RECORD_PAGE && rid.slotNo >= -1
        invariant start == rid || Before(start, rid) || (start.pageNo < rid.pageNo && rid.slotNo == -1)
        invariant forall r :: r in file.Records() && Before(start, r) ==> Before(rid, r)
        decreases file.numPages - rid.pageNo
      {
        var bm := file.pages[rid.pageNo].bitmap;
        var pos := NextBit(true, bm, file.recordsPerPage, rid.slotNo);
        ghost var from := rid;
        PageScanned(file.pages, file.numPages, file.recordsPerPage, from, pos);
        rid := Rid(rid.pageNo, pos);
        if rid.slotNo < file.recordsPerPage {
          return;
        }
        rid := Rid(rid.pageNo + 1, -1);
      }
      NothingBehind(file.pages, file.numPages, file.recordsPerPage, rid);
      rid := Rid(RM_NO_PAGE, rid.slotNo);
    }
  }

  lemma {:induction false} AllAfterStart(file: RmFileHandle)
    requires file.Valid()
    ensures forall r :: r in file.Records() ==> Before(Rid(RM_FIRST_RECORD_PAGE, -1), r)
  {
    forall r | r in file.Records() ensures Before(Rid(RM_FIRST_RECORD_PAGE, -1), r) {
      ContentsHas(file.pages, file.numPages, file.recordsPerPage, r);
    }
  }

  /** What one search in one page says about the records behind the cursor. */
  lemma {:induction false} PageScanned(pages: map<int, RmPage>, numPages: int, n: nat, from: Rid, pos: int)
    requires PagesOK(pages, numPages, n) && from.pageNo in pages && from.slotNo >= -1
    requires pos <= n && (from.slotNo < pos || pos == n)
    requires pos < n ==> 0 <= pos && IsSet(pages[from.pageNo].bitmap, pos)
    requires forall i :: from.slotNo < i < pos && i < n ==> !IsSet(pages[from.pageNo].bitmap, i)
    ensures pos < n ==> Rid(from.pageNo, pos) in Contents(pages, numPages, n)
    ensures pos < n ==> forall r :: r in Contents(pages, numPages, n) && Before(from, r) ==> !Before(r, Rid(from.pageNo, pos))
    ensures pos == n ==> forall r :: r in Contents(pages, numPages, n) && Before(from, r) ==> Before(Rid(from.pageNo + 1, -1), r)
  {
    hide Contents;
    ContentsHas(pages, numPages, n, Rid(from.pageNo, pos));
    forall r | r in Contents(pages, numPages, n) && Before(from, r)
      ensures if pos < n then !Before(r, Rid(from.pageNo, pos)) else Before(Rid(from.pageNo + 1, -1), r)
    {
      ContentsHas(pages, numPages, n, r);
    }
  }

  lemma {:induction false} NothingBehind(pages: map<int, RmPage>, numPages: int, n: nat, from: Rid)
    requires PagesOK(pages, numPages, n) && from.pageNo >= numPages
    ensures forall r :: r in Contents(pages, numPages, n) ==> !Before(from, r)
  {
    forall r | r in Contents(pages, numPages, n) ensures !Before(from, r) { ContentsHas(pages, numPages, n, r); }
  }

  ghost predicate Ascending(s: seq<Rid>) {
    forall i, j :: 0 <= i < j < |s| ==> Before(s[i], s[j])
  }

  /** The visited ids and the ids still ahead of the cursor split the file. */
  ghost predicate Progress(all: set<Rid>, rids: seq<Rid>, left: set<Rid>) {
    && Ascending(rids)
    && (forall r :: r in all <==> r in rids || r in left)
    && (forall r, l :: r in rids && l in left ==> Before(r, l))
  }

  lemma {:induction false} ScanStep(all: set<Rid>, rids: seq<Rid>, left: set<Rid>, cur: Rid)
    requires Progress(all, rids, left) && cur in left && forall r :: r in left ==> !Before(r, cur)
    ensures Progress(all, rids + [cur], left - {cur})
  {
    var rids', left' := rids + [cur], left - {cur};
    forall i, j | 0 <= i < j < |rids'| ensures Before(rids'[i], rids'[j]) {
      assert rids'[i] == rids[i] && rids[i] in rids;
    }
    forall r, l | r in rids' && l in left' ensures Before(r, l) { assert r in rids || r == cur; }
  }

  /** A whole scan visits exactly the occupied record ids, once each, in reading order. */
  method ScanAll(file: RmFileHandle) returns (rids: seq<Rid>)
    requires file.Valid()
    ensures Ascending(rids)
    ensures forall r :: r in rids <==> r in file.Records()
  {
    hide Contents, PagesOK, ChainOK;
    var scan := new RmScan(file);
    rids := [];
    ghost var all := file.Records().Keys;
    ghost var left := all;
    while !scan.IsEnd()
      invariant scan.Valid() && scan.file == file && fresh(scan) && all == file.Records().Keys
      invariant Progress(all, rids, left)
      invariant scan.IsEnd() ==> left == {}
      invariant !scan.IsEnd() ==> scan.rid in left && forall r :: r in left ==> !Before(r, scan.rid)
      decreases |left|
    {
      var cur := scan.rid;
      ScanStep(all, rids, left, cur);
      rids := rids + [cur];
      left := left - {cur};
      scan.Next();
      assert cur in rids;
      assert scan.IsEnd() ==> left == {};
    }
  }
}
