/** What undo after a crash does to one table. */
module TableRecovery {
  import opened Defs
  import opened LogRecords
  import opened LogManager
  import opened LogChain
  import opened Recovery
  import opened HeapFile
  import A = Abort

  predicate OnTable(rec: LogRecord, table: seq<Byte>) { rec.payload.IsTuple() && rec.payload.table == table }

  /** The rollback that undo calls for a tuple record. */
  function AsWrite(p: Payload): A.WriteRecord
    requires p.IsTuple()
  {
    match p
    case Update(before, _, rid, _) => A.UpdateTuple(rid, before)
    case Insert(_, rid, _) => A.InsertTuple(rid)
    case Delete(value, rid, _) => A.DeleteTuple(rid, value)
  }

  /** What t wrote to the table, in log order. */
  ghost function Writes(recs: seq<LogRecord>, n: nat, t: int, table: seq<Byte>): seq<A.WriteRecord>
    requires n <= |recs|
  {
    if n == 0 then []
    else Writes(recs, n - 1, t, table)
         + if recs[n - 1].tid == t && OnTable(recs[n - 1], table) then [AsWrite(recs[n - 1].payload)] else []
  }

  /** The rollbacks of a list that reach the table; the first rollback is the last write. */
  ghost function Reaching(undone: seq<LogRecord>, table: seq<Byte>): seq<A.WriteRecord> {
    if undone == [] then []
    else Reaching(undone[1..], table) + if OnTable(undone[0], table) then [AsWrite(undone[0].payload)] else []
  }

  ghost predicate OnlyBy(undone: seq<LogRecord>, table: seq<Byte>, t: int) {
    forall i :: 0 <= i < |undone| && OnTable(undone[i], table) ==> undone[i].tid == t
  }

  lemma {:induction false} ReachingTxn(undone: seq<LogRecord>, table: seq<Byte>, t: int)
    requires OnlyBy(undone, table, t)
    ensures Reaching(OfTxn(undone, t), table) == Reaching(undone, table)
  {
    if undone != [] {
      var x, tail := undone[0], undone[1..];
      ReachingTxn(tail, table, t);
      if x.tid == t { assert ([x] + OfTxn(tail, t))[1..] == OfTxn(tail, t); }
      assert [] + OfTxn(tail, t) == OfTxn(tail, t);
    }
  }

  lemma {:induction false} ReachingDown(recs: seq<LogRecord>, n: nat, t: int, table: seq<Byte>)
    requires n <= |recs|
    ensures Reaching(TuplesDown(recs, n, t), table) == Writes(recs, n, t, table)
  {
    if n > 0 {
      ReachingDown(recs, n - 1, t, table);
      var x, tail := recs[n - 1], TuplesDown(recs, n - 1, t);
      if x.tid == t && x.payload.IsTuple() { assert ([x] + tail)[1..] == tail; }
      assert [] + tail == tail;
    }
  }

  lemma {:induction false} InOfTxn(undone: seq<LogRecord>, i: nat)
    requires i < |undone|
    ensures undone[i] in OfTxn(undone, undone[i].tid)
  {
    if i > 0 { InOfTxn(undone[1..], i - 1); }
  }

  lemma {:induction false} DownWrites(recs: seq<LogRecord>, n: nat, u: int, table: seq<Byte>, x: LogRecord)
    requires n <= |recs| && x in TuplesDown(recs, n, u) && OnTable(x, table)
    ensures Writes(recs, n, u, table) != []
  {
    if !(recs[n - 1].tid == u && recs[n - 1].payload.IsTuple() && x == recs[n - 1]) { DownWrites(recs, n - 1, u, table, x); }
  }

  /** No other unended transaction has written the table: the exclusive table lock sees to that. */
  ghost predicate OneWriter(s: LogState, t: int, table: seq<Byte>) {
    forall u :: u in s.txns && u != t && s.txns[u].phase != Ended ==> Writes(s.log, |s.log|, u, table) == []
  }

  lemma {:induction false} ReachedWrites(s: LogState, t: int, table: seq<Byte>, undone: seq<LogRecord>)
    requires OneWriter(s, t, table) && t in s.txns && s.txns[t].phase != Ended
    requires forall u :: OfTxn(undone, u) == if u in s.txns && s.txns[u].phase != Ended then TuplesDown(s.log, |s.log|, u) else []
    ensures Reaching(undone, table) == Writes(s.log, |s.log|, t, table)
  {
    hide Writes, TuplesDown, OfTxn;
    forall i | 0 <= i < |undone| && OnTable(undone[i], table) ensures undone[i].tid == t {
      var u := undone[i].tid;
      InOfTxn(undone, i);
      assert OfTxn(undone, u) != [];
      assert u in s.txns && s.txns[u].phase != Ended;
      DownWrites(s.log, |s.log|, u, table, undone[i]);
    }
    ReachingTxn(undone, table, t);
    ReachingDown(s.log, |s.log|, t, table);
  }

  /** The rollbacks that reach one table, collected and carried out. */
  method UndoTable(file: RmFileHandle, undone: seq<LogRecord>, table: seq<Byte>, zero: Record)
    returns (o: A.UndoOutcome, ghost run: A.UndoRun)
    requires file.Valid() && A.SlotsOf(file, Reaching(undone, table))
    modifies file
    ensures A.RunFrom(Reaching(undone, table), run, old(file.Records())) && (o == A.Undone <==> run.stop == 0)
    ensures A.FilesFrom(Reaching(undone, table), run, file.recordsPerPage, file.bitmapSize, zero, old(file.State()))
    ensures o == A.Undone ==> 0 in run.files && file.State() == run.files[0]
    ensures if o == A.Undone then file.Valid() && 0 in run.states && file.Records() == run.states[0] else !file.Valid()
  {
    hide Contents, PagesOK, ChainOK, A.RunFrom, A.FilesFrom;
    var ws: seq<A.WriteRecord> := [];
    var i := |undone|;
    assert undone[i..] == [];
    while i > 0
      invariant 0 <= i <= |undone| && ws == Reaching(undone[i..], table)
    {
      i := i - 1;
      assert undone[i..][0] == undone[i] && undone[i..][1..] == undone[i + 1..];
      if OnTable(undone[i], table) { ws := ws + [AsWrite(undone[i].payload)]; }
    }
    assert undone[0..] == undone;
    o, run := A.UndoAll(file, ws, zero);
  }

  /**
   * Recovery and one table.  t is running when the log breaks off and is the only unended writer of the table;
   * the file holds exactly the writes that are in the durable log.  If undo ends, the table is back to what it
   * was before t, as a multiset of rows, under the condition that abort needs too.
   */
  method RecoverTable(disk: seq<Byte>, file: RmFileHandle, table: seq<Byte>, zero: Record,
                      ghost steps: seq<Step>, ghost t: int, ghost heaps: seq<A.Heap>)
    returns (r: UndoResult, o: A.UndoOutcome, ghost run: A.UndoRun)
    requires CanRun(Init(), steps) && AllFit(Run(Init(), steps).log) && disk == Concat(Run(Init(), steps).log)
    requires var s := Run(Init(), steps); t in s.txns && s.txns[t].phase == Running && OneWriter(s, t, table)
    requires var s := Run(Init(), steps); var ws := Writes(s.log, |s.log|, t, table);
             file.Valid() && A.Trace(ws, heaps) && file.Records() == heaps[|ws|] && A.SlotsOf(file, ws)
    modifies file
    ensures var s := Run(Init(), steps);
            r.Spins? <==> exists u :: u in s.txns && s.txns[u].phase == Committing
    ensures var s := Run(Init(), steps); var ws := Writes(s.log, |s.log|, t, table);
            r.Done? ==>
              && A.RunFrom(ws, run, heaps[|ws|]) && (o == A.Undone <==> run.stop == 0)
              && A.FilesFrom(ws, run, file.recordsPerPage, file.bitmapSize, zero, old(file.State()))
              && (o == A.Undone ==> 0 in run.files && file.State() == run.files[0])
    ensures r.Spins? ==> unchanged(file)
    ensures var s := Run(Init(), steps); var ws := Writes(s.log, |s.log|, t, table);
            r.Done? && (A.DeletesUntouched(ws) || A.Homed(ws, run)) ==>
              o == A.Undone && file.Valid() && A.SameRows(file.Records(), heaps[0])
  {
    hide Contents, PagesOK, ChainOK, A.SameRows, A.Wrote, A.DeletesUntouched, A.Homed, A.RunFrom, A.FilesFrom, Writes, Concat, OfTxn, TuplesDown, OneWriter, Fits, CanRun, Run;
    r := Recover(disk, steps);
    o, run := A.Undone, A.UndoRun(0, map[], map[], map[]);
    if r.Done? {
      ghost var s := Run(Init(), steps);
      ghost var ws := Writes(s.log, |s.log|, t, table);
      ReachedWrites(s, t, table, r.undone);
      o, run := UndoTable(file, r.undone, table, zero);
      if A.DeletesUntouched(ws) { A.UntouchedHomed(ws, run); }
      if A.Homed(ws, run) { A.Restores(ws, heaps, run); }
    }
  }

  // ---------- a transaction that had begun to abort ----------

  /** A delete is logged, abort begins and puts the row back, and the log breaks off before the END record. */
  function AbortingSteps(row: Payload, page: Payload): seq<Step> {
    [BeginTxn(0), SlotPage(0, page), HeaderPage(0, page), TupleWrite(0, row), AbortTxn(0), SlotPage(0, page), HeaderPage(0, page)]
  }

  lemma {:induction false} RunOne(s: LogState, steps: seq<Step>)
    requires steps != [] && Enabled(s, steps[0]) && CanRun(Apply(s, steps[0]), steps[1..])
    ensures CanRun(s, steps) && Run(s, steps) == Run(Apply(s, steps[0]), steps[1..])
  {}

  /** The delete is in the log of a transaction that is aborting, so undo takes it up again. */
  lemma {:induction false} AbortingLog(row: Payload, page: Payload)
    requires row.Delete? && page.PageSet?
    ensures var steps := AbortingSteps(row, page);
            && CanRun(Init(), steps)
            && var s := Run(Init(), steps);
               && s.txns.Keys == {0} && s.txns[0].phase == Aborting
               && Writes(s.log, |s.log|, 0, row.table) == [AsWrite(row)]
  {
    hide CanRun, Run, Writes, RecordOf;
    var steps := AbortingSteps(row, page);
    var s0 := Init();
    var s1 := Apply(s0, steps[0]);
    var s2 := Apply(s1, steps[1]);
    var s3 := Apply(s2, steps[2]);
    var s4 := Apply(s3, steps[3]);
    var s5 := Apply(s4, steps[4]);
    var s6 := Apply(s5, steps[5]);
    var s7 := Apply(s6, steps[6]);
    RunNone(s7);
    assert steps[7..] == [];
    RunOne(s6, steps[6..]);
    RunOne(s5, steps[5..]);
    RunOne(s4, steps[4..]);
    RunOne(s3, steps[3..]);
    RunOne(s2, steps[2..]);
    RunOne(s1, steps[1..]);
    RunOne(s0, steps);
    AppendWrites(s0, steps[0], 0, row.table);
    AppendWrites(s1, steps[1], 0, row.table);
    AppendWrites(s2, steps[2], 0, row.table);
    AppendWrites(s3, steps[3], 0, row.table);
    AppendWrites(s4, steps[4], 0, row.table);
    AppendWrites(s5, steps[5], 0, row.table);
    AppendWrites(s6, steps[6], 0, row.table);
    NoWrites(0, row.table);
  }

  lemma {:induction false} NoWrites(t: int, table: seq<Byte>)
    ensures Writes(Init().log, |Init().log|, t, table) == []
  {}

  lemma {:induction false} WritesPrefix(recs: seq<LogRecord>, rec: LogRecord, n: nat, t: int, table: seq<Byte>)
    requires n <= |recs|
    ensures Writes(recs + [rec], n, t, table) == Writes(recs, n, t, table)
  {
    if n > 0 { WritesPrefix(recs, rec, n - 1, t, table); }
  }

  /** A step adds to the writes exactly its own tuple record. */
  lemma {:induction false} AppendWrites(s: LogState, step: Step, t: int, table: seq<Byte>)
    requires Enabled(s, step)
    ensures var p := PayloadOf(step);
            var log := Apply(s, step).log;
            Writes(log, |log|, t, table) == Writes(s.log, |s.log|, t, table)
              + if step.tid == t && p.IsTuple() && p.table == table then [AsWrite(p)] else []
  {
    hide Enabled;
    WritesPrefix(s.log, RecordOf(s, step), |s.log|, t, table);
  }

  lemma {:induction false} RunNone(s: LogState)
    ensures CanRun(s, []) && Run(s, []) == s
  {}

  /** The log after abort has put the row back, but without an END record. */
  ghost predicate AbortingDisk(disk: seq<Byte>, row: Payload, page: Payload) {
    && CanRun(Init(), AbortingSteps(row, page))
    && AllFit(Run(Init(), AbortingSteps(row, page)).log)
    && disk == Concat(Run(Init(), AbortingSteps(row, page)).log)
  }

  /** Abort puts the deleted row back; after a crash before its END record, undo puts it back a second time. */
  method UndoneTwice(a: seq<Byte>, b: Record, zero: Record, table: seq<Byte>, page: Payload, disk: seq<Byte>)
    returns (file: RmFileHandle)
    requires a != b && page.PageSet? && AbortingDisk(disk, Delete(a, Rid(1, 0), table), page)
    ensures file.Valid() && !A.SameRows(file.Records(), map[Rid(1, 0) := a, Rid(1, 1) := b])
  {
    hide Contents, PagesOK, ChainOK, A.Trace, A.SameRows, A.SlotsOf, A.DeletesUntouched, A.Homed, Run, CanRun, Concat, OfTxn, TuplesDown, Writes;
    hide Filled, Cleared, Overwritten, NextSlot, A.Filed, A.FilesFrom, A.FiledAt, LatestFirst, UndoneIn;
    file := A.TwoRows(a, b);
    var txn := new A.TableTxn(file);
    txn.Delete(Rid(1, 0), zero);
    ghost var left := file.Records();
    assert txn.writeSet == [A.DeleteTuple(Rid(1, 0), a)];
    var aborted, run := txn.Abort(zero);
    ghost var row := Delete(a, Rid(1, 0), table);
    AbortingLog(row, page);
    ghost var s := Run(Init(), AbortingSteps(row, page));
    assert A.RolledAt([A.DeleteTuple(Rid(1, 0), a)], run, 0);
    ghost var at := run.landed[0];
    assert file.Records() == left[at := a];
    var r := Recover(disk, AbortingSteps(row, page));
    ReachedWrites(s, 0, table, r.undone);
    A.InPages(file, Rid(1, 1));
    FirstSlot(file, a);
    var o, again := UndoTable(file, r.undone, table, zero);
    assert A.RolledAt([A.DeleteTuple(Rid(1, 0), a)], again, 0);
    RowTooMany(left, at, again.landed[0], a, b);
  }

  lemma {:induction false} FirstSlot(file: RmFileHandle, a: Record)
    requires file.numPages >= 2 && file.recordsPerPage >= 1
    ensures A.SlotsOf(file, [A.DeleteTuple(Rid(1, 0), a)])
  {}

  lemma {:induction false} RowTooMany(left: A.Heap, at: Rid, again: Rid, a: Record, b: Record)
    requires a != b && left == map[Rid(1, 1) := b] && at !in left && again !in left && again != at
    ensures !A.SameRows(left[at := a][again := a], map[Rid(1, 0) := a, Rid(1, 1) := b])
  {
    var m := map[Rid(1, 0) := a, Rid(1, 1) := b];
    assert A.RidsOf(left[at := a][again := a], a) == {at, again};
    assert A.RidsOf(m, a) == {Rid(1, 0)};
    assert |{at, again}| == 2;
  }
}
