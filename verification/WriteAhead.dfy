/** The write-ahead rule over the buffer pool and the log. */
module WriteAhead {
  import opened LogRecords
  import opened LogManager
  import opened BufferPool

  /** The log number in the first four bytes of a page. */
  ghost function PageLsn(data: Data): int {
    if |data| >= 4 && forall i :: 0 <= i < 4 ==> 0 <= data[i] < 256 then UnI32([data[0], data[1], data[2], data[3]]) else 0
  }

  /** The rule: the record of the last change to a page is on disk before the page is. */
  ghost predicate LogFirst(disk: Disk, persistLsn: nat) {
    forall id :: id in disk ==> PageLsn(disk[id]) < persistLsn
  }

  /** Giving up a frame, as update_page does it, keeps the rule exactly when the frame is clean or its last
      record is durable; update_page asks for neither. */
  lemma {:induction false} EvictionIff(disk: Disk, frame: Frame, persistLsn: nat)
    requires LogFirst(disk, persistLsn)
    ensures LogFirst(Evicted(disk, frame), persistLsn) <==> frame.dirty ==> PageLsn(frame.data) < persistLsn
  {
    hide PageLsn;
    var disk' := Evicted(disk, frame);
    assert frame.dirty ==> frame.id in disk' && disk'[frame.id] == frame.data;
  }

  /** A pool of one frame: a page is changed and unpinned, and fetching another page writes it to disk. */
  method ChangeAndEvict(fd: int, data: Data) returns (pool: BufferPoolManager)
    requires fd >= 0 && data != ZeroPage()
    ensures pool.Valid() && PageId(fd, 0) in pool.disk && pool.disk[PageId(fd, 0)] == data
  {
    hide Clean, Allocated, Lists;
    var a, b := PageId(fd, 0), PageId(fd, 1);
    pool := new BufferPoolManager(1, map[], map[fd := 2]);
    assert pool.frames[0].pin == 0;
    var ok, f := pool.FetchPage(a);
    pool.WritePage(a, data);
    var unpinned := pool.UnpinPage(a, true);
    var ok2, f2 := pool.FetchPage(b);
    assert a !in pool.pageTable;
    assert pool.Sees(a) == ReadDisk(pool.disk, a) == data;
  }

  /** The change is logged first, but nothing flushes the log: the page is on disk and the log file is empty. */
  method PageBeforeLog(fd: int, rec: LogRecord, data: Data) returns (pool: BufferPoolManager, log: LogManager)
    requires fd >= 0 && Fits(rec.(lsn := 0)) && TotLen(rec.payload) <= LOG_BUFFER_SIZE
    requires data != ZeroPage() && PageLsn(data) == 0
    ensures pool.Valid() && log.Valid() && log.appended == [rec.(lsn := 0)] && log.disk == []
    ensures PageId(fd, 0) in pool.disk && pool.disk[PageId(fd, 0)] == data
    ensures LogFirst(map[], log.persistLsn) && !LogFirst(pool.disk, log.persistLsn)
  {
    hide Fits, PageLsn;
    log := new LogManager();
    var lsn := log.AddLogToBuffer(rec);
    pool := ChangeAndEvict(fd, data);
  }
}
