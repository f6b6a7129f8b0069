/** The log buffer and the durable log behind it. */
module LogManager {
  import opened Defs
  import opened LogRecords
  import Locks

  const LOG_BUFFER_SIZE: nat := 1024 * PAGE_SIZE

  ghost predicate AllFit(recs: seq<LogRecord>) {
    forall i :: 0 <= i < |recs| ==> Fits(recs[i])
  }

  /** The byte form of a sequence of records. */
  ghost function Concat(recs: seq<LogRecord>): seq<Byte>
    requires AllFit(recs)
  {
    if recs == [] then [] else Concat(recs[..|recs| - 1]) + Encode(recs[|recs| - 1])
  }

  /** Records carry the numbers 0, 1, 2, ... */
  ghost predicate Numbered(recs: seq<LogRecord>) {
    forall i :: 0 <= i < |recs| ==> recs[i].lsn == i
  }

  ghost function Off(recs: seq<LogRecord>, i: nat): nat
    requires AllFit(recs) && i <= |recs|
  {
    |Concat(recs[..i])|
  }

  lemma {:induction false} ConcatAdd(recs: seq<LogRecord>, rec: LogRecord)
    requires AllFit(recs) && Fits(rec)
    ensures AllFit(recs + [rec]) && Concat(recs + [rec]) == Concat(recs) + Encode(rec)
  {
    assert (recs + [rec])[..|recs|] == recs;
  }

  /** Each record stands at its offset, and the next offset is its end. */
  lemma {:induction false} RecordAt(recs: seq<LogRecord>, i: nat)
    requires AllFit(recs) && i < |recs|
    ensures Off(recs, i + 1) == Off(recs, i) + TotLen(recs[i].payload) <= |Concat(recs)|
    ensures Holds(Concat(recs), Off(recs, i), Encode(recs[i]))
    decreases |recs|
  {
    hide Encode;
    var n := |recs| - 1;
    var front := recs[..n];
    assert recs == front + [recs[n]];
    if i == n {
      assert recs[..i + 1] == recs;
      assert recs[..i] == front;
    } else {
      RecordAt(front, i);
      assert front[..i] == recs[..i] && front[..i + 1] == recs[..i + 1];
      var a, b, e := Concat(front), Concat(recs), Encode(recs[i]);
      assert b == a + Encode(recs[n]);
      assert b[Off(recs, i)..Off(recs, i) + |e|] == a[Off(recs, i)..Off(recs, i) + |e|];
    }
  }

  /** What is on disk is a whole number of records, and the buffer's first offset bytes continue it. */
  class LogManager {
    const buffer: array<Byte>
    var offset: nat
    var disk: seq<Byte>
    var globalLsn: nat
    var persistLsn: nat
    ghost var appended: seq<LogRecord>

    ghost predicate Valid()
      reads this, buffer
    {
      && buffer.Length == LOG_BUFFER_SIZE + 4 && offset <= LOG_BUFFER_SIZE
      && AllFit(appended) && Numbered(appended) && globalLsn == |appended| && persistLsn <= globalLsn
      && disk + buffer[..offset] == Concat(appended)
      && disk == Concat(appended[..persistLsn])
    }

    constructor ()
      ensures Valid() && fresh(buffer) && appended == [] && disk == [] && offset == 0 && persistLsn == 0
    {
      buffer := new Byte[LOG_BUFFER_SIZE + 4](_ => 0);
      offset, disk, globalLsn, persistLsn, appended := 0, [], 0, 0, [];
    }

    /** LogBuffer::is_full. */
    predicate IsFull(size: nat)
      reads this
    {
      offset + size > LOG_BUFFER_SIZE
    }

    /** LogManager::add_log_to_buffer: the record gets the next number; nothing else is lost or moved. */
    method AddLogToBuffer(rec: LogRecord) returns (lsn: int)
      requires Valid() && Fits(rec.(lsn := globalLsn)) && TotLen(rec.payload) <= LOG_BUFFER_SIZE
      modifies this, buffer
      ensures Valid() && lsn == old(globalLsn)
      ensures appended == old(appended) + [rec.(lsn := lsn)]
      ensures old(disk) <= disk && old(persistLsn) <= persistLsn
      ensures if old(IsFull(TotLen(rec.payload))) then disk == Concat(old(appended)) && persistLsn == old(globalLsn)
              else disk == old(disk) && persistLsn == old(persistLsn)
    {
      hide Concat, Fits, Encode;
      if IsFull(TotLen(rec.payload)) {
        FlushLogToDisk();
      }
      lsn := globalLsn;
      var numbered := rec.(lsn := lsn);
      ghost var before := buffer[..offset];
      Serialize(numbered, buffer, offset);
      ConcatAdd(appended, numbered);
      var end := offset + TotLen(rec.payload);
      assert buffer[..end] == before + Encode(numbered) by {
        assert buffer[..end] == buffer[..offset] + buffer[offset..end];
        assert buffer[..][offset..end] == buffer[offset..end];
      }
      assert disk + (before + Encode(numbered)) == (disk + before) + Encode(numbered);
      assert (appended + [numbered])[..persistLsn] == appended[..persistLsn];
      offset := end;
      globalLsn := globalLsn + 1;
      appended := appended + [numbered];
    }

    /** LogManager::flush_log_to_disk: every record appended so far becomes durable. */
    method FlushLogToDisk()
      requires Valid()
      modifies this, buffer
      ensures Valid() && appended == old(appended) && globalLsn == old(globalLsn) && offset == 0
      ensures disk == Concat(appended) && persistLsn == globalLsn && old(disk) <= disk
    {
      hide Concat, Fits;
      disk := disk + buffer[..offset];
      forall i | 0 <= i < buffer.Length { buffer[i] := 0; }
      offset := 0;
      persistLsn := globalLsn;
      assert buffer[..0] == [] && appended[..persistLsn] == appended;
    }

    /** Every record of the transaction is on disk. */
    ghost predicate Durable(tid: int)
      reads this
    {
      persistLsn <= |appended| && forall i :: 0 <= i < |appended| && appended[i].tid == tid ==> i < persistLsn
    }
  }

  /** A lock given back, and what was on disk at that moment. */
  datatype Release = Release(fd: int, disk: seq<Byte>)

  /** The release loop of commit, with a trace of what was durable at each unlock. */
  method ReleaseLocks(log: LogManager, locks: Locks.LockManager, txn: Locks.Transaction, ghost holders: map<int, set<int>>)
    returns (ghost trace: seq<Release>)
    requires forall fd :: fd in holders ==> Locks.EntryOK(locks.lockTable, fd, holders[fd])
    requires forall fd :: fd in txn.lockSet ==> fd in holders && txn.id in holders[fd]
    modifies locks`lockTable, txn`state, txn`lockSet
    ensures txn.lockSet == {} && txn.state == Locks.Committed
    ensures forall fd :: fd in holders ==>
              Locks.EntryOK(locks.lockTable, fd, if fd in old(txn.lockSet) then holders[fd] - {txn.id} else holders[fd])
    ensures forall fd :: fd !in old(txn.lockSet) ==> Locks.SameEntry(old(locks.lockTable), locks.lockTable, fd)
    ensures forall fd :: fd in old(txn.lockSet) <==> exists i :: 0 <= i < |trace| && trace[i].fd == fd
    ensures forall i :: 0 <= i < |trace| ==> trace[i].disk == log.disk
  {
    ghost var now := log.disk;
    ghost var order := locks.ReleaseAll(txn, true, holders);
    trace := seq(|order|, i requires 0 <= i < |order| => Release(order[i], now));
    forall fd ensures fd in order <==> exists i :: 0 <= i < |trace| && trace[i].fd == fd {
      if fd in order {
        var i :| 0 <= i < |order| && order[i] == fd;
        assert trace[i].fd == fd;
      }
    }
  }

  /** TransactionManager::commit: commit and end records, one flush, and only then the locks.  At every unlock
      the disk holds all records appended so far, those of the transaction among them. */
  method Commit(log: LogManager, locks: Locks.LockManager, txn: Locks.Transaction, prevLsn: int, ghost holders: map<int, set<int>>)
    returns (lsn: int, ghost trace: seq<Release>)
    requires log.Valid() && IsI32(txn.id) && IsI32(prevLsn) && log.globalLsn + 1 < 0x8000_0000
    requires forall fd :: fd in holders ==> Locks.EntryOK(locks.lockTable, fd, holders[fd])
    requires forall fd :: fd in txn.lockSet ==> fd in holders && txn.id in holders[fd]
    modifies log, log.buffer, locks`lockTable, txn`state, txn`lockSet
    ensures log.Valid() && lsn == old(log.globalLsn) && log.Durable(txn.id)
    ensures log.appended == old(log.appended) + [LogRecord(lsn, txn.id, prevLsn, LogRecords.Commit), LogRecord(lsn + 1, txn.id, lsn, End)]
    ensures forall i :: 0 <= i < |trace| ==> trace[i].disk == Concat(log.appended)
    ensures forall fd :: fd in old(txn.lockSet) <==> exists i :: 0 <= i < |trace| && trace[i].fd == fd
    ensures txn.lockSet == {} && txn.state == Locks.Committed
    ensures forall fd :: fd in holders ==>
              Locks.EntryOK(locks.lockTable, fd, if fd in old(txn.lockSet) then holders[fd] - {txn.id} else holders[fd])
    ensures forall fd :: fd !in old(txn.lockSet) ==> Locks.SameEntry(old(locks.lockTable), locks.lockTable, fd)
  {
    hide Concat;
    lsn := log.AddLogToBuffer(LogRecord(INVALID_LSN, txn.id, prevLsn, LogRecords.Commit));
    var _ := log.AddLogToBuffer(LogRecord(INVALID_LSN, txn.id, lsn, End));
    log.FlushLogToDisk();
    trace := ReleaseLocks(log, locks, txn, holders);
  }
}
