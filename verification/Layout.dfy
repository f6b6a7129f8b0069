/** Byte layout of record pages and index nodes. */
module Layout {
  import opened Defs
  import opened Arith
  import opened LogRecords
  import HeapFile
  import Tower
  import opened IxIndex

  const OFFSET_PAGE_HDR: nat := 4
  const BITMAP_WIDTH: nat := 8
  const RM_MAX_RECORD_SIZE: nat := 512
  const RM_FILE_HDR_SIZE: nat := 24
  const RM_PAGE_HDR_SIZE: nat := 8
  const IX_PAGE_HDR_SIZE: nat := 24
  const IX_MAX_COL_LEN: nat := 512
  const RID_SIZE: nat := 8

  /** The bytes from start on, len of them. */
  datatype Region = Region(start: int, len: int)

  predicate InPage(r: Region) { 0 <= r.start && 0 <= r.len && r.start + r.len <= PAGE_SIZE }

  predicate Apart(a: Region, b: Region) { a.start + a.len <= b.start || b.start + b.len <= a.start }

  // ---------- record pages ----------

  /** num_records_per_page. */
  function RecordsPerPage(size: nat): nat {
    (BITMAP_WIDTH * (PAGE_SIZE - 1 - RM_FILE_HDR_SIZE) + 1) / (1 + size * BITMAP_WIDTH)
  }

  function BitmapSize(size: nat): nat { (RecordsPerPage(size) + BITMAP_WIDTH - 1) / BITMAP_WIDTH }

  function PageHeader(): Region { Region(OFFSET_PAGE_HDR, RM_PAGE_HDR_SIZE) }

  function BitmapRegion(size: nat): Region { Region(RM_PAGE_HDR_SIZE + OFFSET_PAGE_HDR, BitmapSize(size)) }

  /** RmPageHandle::get_slot. */
  function Slot(size: nat, i: nat): Region {
    Region(RM_PAGE_HDR_SIZE + OFFSET_PAGE_HDR + BitmapSize(size) + i * size, size)
  }

  /** The bits there are for records: those of the page but for one byte and the size of the file header, and one more. */
  const PAGE_BITS: nat := BITMAP_WIDTH * (PAGE_SIZE - 1 - RM_FILE_HDR_SIZE) + 1

  /** The bits of n records of this many bytes, each with its bit in the bitmap. */
  function RecordBits(size: nat, n: nat): nat { n * (1 + size * BITMAP_WIDTH) }

  /** As many records as the budget allows and not one more, a bit for every slot and no byte of the bitmap
      without one; all of it lies in the page. */
  lemma {:induction false} PageBudget(size: nat)
    requires 1 <= size <= RM_MAX_RECORD_SIZE
    ensures var n := RecordsPerPage(size);
            && RecordBits(size, n) <= PAGE_BITS < RecordBits(size, n + 1)
            && 1 <= n <= BITMAP_WIDTH * BitmapSize(size) < n + BITMAP_WIDTH
            && RM_PAGE_HDR_SIZE + OFFSET_PAGE_HDR + BitmapSize(size) + n * size <= PAGE_SIZE
  {
    var n, d := RecordsPerPage(size), 1 + size * BITMAP_WIDTH;
    var total := BITMAP_WIDTH * (PAGE_SIZE - 1 - RM_FILE_HDR_SIZE) + 1;
    assert n * d <= total < n * d + d;
    assert n * d == n + (n * size) * BITMAP_WIDTH;
    assert n == 0 ==> n * d == 0;
  }

  /** Header, bitmap and slots lie in the page and do not overlap. */
  lemma {:induction false} PageLayout(size: nat, i: nat, j: nat)
    requires 1 <= size <= RM_MAX_RECORD_SIZE && i < RecordsPerPage(size) && j < RecordsPerPage(size)
    ensures InPage(PageHeader()) && InPage(BitmapRegion(size)) && InPage(Slot(size, i))
    ensures Apart(PageHeader(), BitmapRegion(size))
    ensures Apart(Slot(size, i), PageHeader()) && Apart(Slot(size, i), BitmapRegion(size))
    ensures i != j ==> Apart(Slot(size, i), Slot(size, j))
  {
    hide RecordsPerPage, BitmapSize, InPage, Apart;
    PageBudget(size);
    MulLess(i, RecordsPerPage(size), size);
    MulLess(i, j, size);
    MulLess(j, i, size);
    PageRegions(size, BitmapSize(size), RecordsPerPage(size) * size, i * size, j * size);
  }

  predicate Follows(a: Region, b: Region) { b.start == a.start + a.len }

  /** Log number, header, bitmap and slots follow each other without gaps. */
  lemma {:induction false} PageContiguous(size: nat, i: nat)
    ensures Follows(Region(0, OFFSET_PAGE_HDR), PageHeader()) && Follows(PageHeader(), BitmapRegion(size))
    ensures Follows(BitmapRegion(size), Slot(size, 0)) && Follows(Slot(size, i), Slot(size, i + 1))
  {
    hide BitmapSize;
    MulStep(i, size);
  }

  /** The same with the products as numbers of their own. */
  lemma {:induction false} PageRegions(size: nat, bits: nat, all: nat, si: nat, sj: nat)
    requires RM_PAGE_HDR_SIZE + OFFSET_PAGE_HDR + bits + all <= PAGE_SIZE && si + size <= all
    ensures var base := RM_PAGE_HDR_SIZE + OFFSET_PAGE_HDR;
            var (bitmap, slot) := (Region(base, bits), Region(base + bits + si, size));
            && InPage(PageHeader()) && InPage(bitmap) && InPage(slot) && Apart(PageHeader(), bitmap)
            && Apart(slot, PageHeader()) && Apart(slot, bitmap)
            && (si + size <= sj || sj + size <= si ==> Apart(slot, Region(base + bits + sj, size)))
  {}

  function ReadRegion(page: seq<Byte>, r: Region): seq<Byte>
    requires |page| == PAGE_SIZE && InPage(r)
  {
    page[r.start..r.start + r.len]
  }

  /** memmove of buf into the region. */
  function WriteRegion(page: seq<Byte>, r: Region, buf: seq<Byte>): (page': seq<Byte>)
    requires |page| == PAGE_SIZE && InPage(r) && |buf| == r.len
    ensures |page'| == PAGE_SIZE
  {
    page[..r.start] + buf + page[r.start + r.len..]
  }

  lemma {:induction false} WriteApart(page: seq<Byte>, r: Region, buf: seq<Byte>, q: Region)
    requires |page| == PAGE_SIZE && InPage(r) && InPage(q) && |buf| == r.len
    ensures ReadRegion(WriteRegion(page, r, buf), r) == buf
    ensures Apart(r, q) ==> ReadRegion(WriteRegion(page, r, buf), q) == ReadRegion(page, q)
  {}

  /** Writing a record changes its own slot and no other slot, bit or header field. */
  lemma {:induction false} SlotWrite(page: seq<Byte>, size: nat, i: nat, j: nat, buf: seq<Byte>)
    requires |page| == PAGE_SIZE && 1 <= size <= RM_MAX_RECORD_SIZE && |buf| == size
    requires i < RecordsPerPage(size) && j < RecordsPerPage(size)
    ensures InPage(Slot(size, i)) && InPage(Slot(size, j)) && InPage(BitmapRegion(size)) && InPage(PageHeader())
    ensures var page' := WriteRegion(page, Slot(size, i), buf);
            && ReadRegion(page', Slot(size, j)) == (if i == j then buf else ReadRegion(page, Slot(size, j)))
            && ReadRegion(page', BitmapRegion(size)) == ReadRegion(page, BitmapRegion(size))
            && ReadRegion(page', PageHeader()) == ReadRegion(page, PageHeader())
  {
    PageLayout(size, i, j);
    PageLayout(size, j, i);
    hide ReadRegion, WriteRegion, Slot, BitmapRegion, PageHeader;
    WriteApart(page, Slot(size, i), buf, Slot(size, j));
    WriteApart(page, Slot(size, i), buf, BitmapRegion(size));
    WriteApart(page, Slot(size, i), buf, PageHeader());
  }

  /** RmManager::create_file: sizes outside 1..512 are refused; any other gives a file whose bitmap covers its slots. */
  method CreateFile(size: int) returns (file: Option<HeapFile.RmFileHandle>)
    ensures file.None? <==> size < 1 || size > RM_MAX_RECORD_SIZE
    ensures file.Some? ==> fresh(file.value) && file.value.Valid() && file.value.Records() == map[]
    ensures file.Some? ==> file.value.recordsPerPage == RecordsPerPage(size) && file.value.bitmapSize == BitmapSize(size)
  {
    if size < 1 || size > RM_MAX_RECORD_SIZE { return None; }
    PageBudget(size);
    var f := new HeapFile.RmFileHandle(RecordsPerPage(size), BitmapSize(size));
    return Some(f);
  }

  // ---------- index nodes ----------

  /** btree_order_. */
  function Order(len: nat): int { (PAGE_SIZE - IX_PAGE_HDR_SIZE - OFFSET_PAGE_HDR) / (len + RID_SIZE) - 1 }

  function NodeHeader(): Region { Region(OFFSET_PAGE_HDR, IX_PAGE_HDR_SIZE) }

  /** IxNodeHandle::get_key. */
  function KeyRegion(len: nat, i: nat): Region { Region(OFFSET_PAGE_HDR + IX_PAGE_HDR_SIZE + i * len, len) }

  /** IxNodeHandle::get_rid, behind keys_size_ bytes of keys. */
  function RidRegion(len: nat, i: nat): Region {
    Region(OFFSET_PAGE_HDR + IX_PAGE_HDR_SIZE + (Order(len) + 1) * len + i * RID_SIZE, RID_SIZE)
  }

  /** Room for one entry more than the order, and not for two. */
  lemma {:induction false} NodeBudget(len: nat)
    requires len <= IX_MAX_COL_LEN
    ensures Order(len) >= 6
    ensures var all := OFFSET_PAGE_HDR + IX_PAGE_HDR_SIZE;
            all + (Order(len) + 1) * (len + RID_SIZE) <= PAGE_SIZE < all + (Order(len) + 2) * (len + RID_SIZE)
    ensures OFFSET_PAGE_HDR + IX_PAGE_HDR_SIZE + (Order(len) + 1) * len + (Order(len) + 1) * RID_SIZE <= PAGE_SIZE
  {
    var d := len + RID_SIZE;
    var q := (PAGE_SIZE - IX_PAGE_HDR_SIZE - OFFSET_PAGE_HDR) / d;
    assert q * d <= PAGE_SIZE - IX_PAGE_HDR_SIZE - OFFSET_PAGE_HDR < q * d + d;
    assert q * d == q * len + q * RID_SIZE;
    MulLess(q, 7, d);
  }

  /** order + 1 keys and order + 1 rids lie in the page and do not overlap: a node may hold one entry past its order. */
  lemma {:induction false} NodeLayout(len: nat, i: nat, j: nat)
    requires len <= IX_MAX_COL_LEN && i <= Order(len) && j <= Order(len)
    ensures Order(len) > 2
    ensures InPage(NodeHeader()) && InPage(KeyRegion(len, i)) && InPage(RidRegion(len, i))
    ensures Apart(NodeHeader(), KeyRegion(len, i)) && Apart(NodeHeader(), RidRegion(len, i))
    ensures Apart(KeyRegion(len, i), RidRegion(len, j))
    ensures i != j ==> Apart(KeyRegion(len, i), KeyRegion(len, j)) && Apart(RidRegion(len, i), RidRegion(len, j))
  {
    hide Order, InPage, Apart;
    NodeBudget(len);
    MulLess(i, Order(len) + 1, len);
    MulLess(i, j, len);
    MulLess(j, i, len);
    NodeRegions(len, Order(len) + 1, (Order(len) + 1) * len, i, i * len, j, j * len);
  }

  /** Log number, header, the keys of a full node with one entry more, and the record ids follow each other. */
  lemma {:induction false} NodeContiguous(len: nat, i: nat)
    requires len <= IX_MAX_COL_LEN
    ensures Follows(Region(0, OFFSET_PAGE_HDR), NodeHeader()) && Follows(NodeHeader(), KeyRegion(len, 0))
    ensures Follows(KeyRegion(len, i), KeyRegion(len, i + 1)) && Follows(RidRegion(len, i), RidRegion(len, i + 1))
    ensures Order(len) >= 0 && Follows(KeyRegion(len, Order(len)), RidRegion(len, 0))
  {
    NodeBudget(len);
    hide Order;
    MulStep(i, len);
    MulStep(Order(len), len);
  }

  /** The same with the products as numbers of their own. */
  lemma {:induction false} NodeRegions(len: nat, n: nat, keys: nat, i: nat, ki: nat, j: nat, kj: nat)
    requires OFFSET_PAGE_HDR + IX_PAGE_HDR_SIZE + keys + n * RID_SIZE <= PAGE_SIZE
    requires i < n && j < n && ki + len <= keys && (i < j ==> ki + len <= kj) && (j < i ==> kj + len <= ki)
    ensures var base := OFFSET_PAGE_HDR + IX_PAGE_HDR_SIZE;
            var (key, rid) := (Region(base + ki, len), Region(base + keys + i * RID_SIZE, RID_SIZE));
            && InPage(NodeHeader()) && InPage(key) && InPage(rid) && Apart(NodeHeader(), key) && Apart(NodeHeader(), rid)
            && Apart(key, Region(base + keys + j * RID_SIZE, RID_SIZE))
            && (i != j ==> Apart(key, Region(base + kj, len)) && Apart(rid, Region(base + keys + j * RID_SIZE, RID_SIZE)))
  {}

  /** In every valid index each node's next free entry lies in its page, so no insert before a split overruns it. */
  lemma {:induction false} NodesFit(ix: IxIndexHandle, len: nat, i: nat, q: nat)
    requires ix.Valid() && len <= IX_MAX_COL_LEN && ix.order == Order(len)
    requires i < |ix.tower| && q < |ix.tower[i]|
    ensures var size := |ix.tower[i][q].es|;
            size < Order(len) && InPage(KeyRegion(len, size)) && InPage(RidRegion(len, size))
  {
    var size := |ix.tower[i][q].es|;
    assert Tower.SizeOK(ix.order, ix.tower, i, ix.tower[i][q]);
    NodeLayout(len, size, size);
  }
}
