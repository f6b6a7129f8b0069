/** Rolling a transaction back on one heap file: the write set is undone from its end. */
module Abort {
  import opened Defs
  import opened HeapFile
  import opened Bitmap

  /** A write-set entry: what was done where, and the row image that undoing it needs. */
  datatype WriteRecord =
    | InsertTuple(rid: Rid)
    | UpdateTuple(rid: Rid, image: Record)
    | DeleteTuple(rid: Rid, image: Record)

  type Heap = map<Rid, Record>

  /** The entry w describes the change from before to after. */
  ghost predicate Wrote(before: Heap, w: WriteRecord, after: Heap) {
    match w
    case InsertTuple(r) => r !in before && r in after && after == before[r := after[r]]
    case UpdateTuple(r, image) => r in before && before[r] == image && r in after && after == before[r := after[r]]
    case DeleteTuple(r, image) => r in before && before[r] == image && after == before - {r}
  }

  /** heaps[i] is the table after the first i writes. */
  ghost predicate Trace(ws: seq<WriteRecord>, heaps: seq<Heap>) {
    |heaps| == |ws| + 1 && forall i :: 0 <= i < |ws| ==> Wrote(heaps[i], ws[i], heaps[i + 1])
  }

  /** Record ids inserted or updated by the first i writes. */
  function Written(ws: seq<WriteRecord>, i: nat): set<Rid>
    requires i <= |ws|
  {
    set k | 0 <= k < i && !ws[k].DeleteTuple? :: ws[k].rid
  }

  /** No delete targets a record id that the same transaction wrote before. */
  predicate DeletesUntouched(ws: seq<WriteRecord>) {
    forall j :: 0 <= j < |ws| && ws[j].DeleteTuple? ==> ws[j].rid !in Written(ws, j)
  }

  // ---------- multisets of rows ----------

  ghost function RidsOf(m: Heap, v: Record): set<Rid> { set r | r in m && m[r] == v }

  /** The tables hold the same rows equally often, at whatever record ids. */
  ghost predicate SameRows(a: Heap, b: Heap) {
    forall v :: |RidsOf(a, v)| == |RidsOf(b, v)|
  }

  lemma {:induction false} PutCount(m: Heap, r: Rid, x: Record, v: Record)
    requires r !in m
    ensures |RidsOf(m[r := x], v)| == |RidsOf(m, v)| + if v == x then 1 else 0
  {
    assert RidsOf(m[r := x], v) == if v == x then RidsOf(m, v) + {r} else RidsOf(m, v);
  }

  lemma {:induction false} DropCount(m: Heap, r: Rid, v: Record)
    requires r in m
    ensures |RidsOf(m - {r}, v)| == |RidsOf(m, v)| - if v == m[r] then 1 else 0
  {
    assert RidsOf(m - {r}, v) == RidsOf(m, v) - {r};
    assert r in RidsOf(m, v) <==> v == m[r];
  }

  /** g is as good as h for undoing: the same rows, and the written ids hold what h holds there. */
  ghost predicate Stands(g: Heap, h: Heap, written: set<Rid>) {
    SameRows(g, h) && forall r :: r in written && r in h ==> r in g && g[r] == h[r]
  }

  lemma {:induction false} UndoInsertStep(g: Heap, h: Heap, h': Heap, ws: seq<WriteRecord>, i: nat)
    requires i < |ws| && ws[i].InsertTuple? && Wrote(h, ws[i], h') && Stands(g, h', Written(ws, i + 1))
    ensures ws[i].rid in g && Stands(g - {ws[i].rid}, h, Written(ws, i))
  {
    var r := ws[i].rid;
    assert r in Written(ws, i + 1);
    assert h == h' - {r};
    forall v ensures |RidsOf(g - {r}, v)| == |RidsOf(h, v)| { DropCount(g, r, v); DropCount(h', r, v); }
    assert Written(ws, i) <= Written(ws, i + 1);
  }

  lemma {:induction false} UndoUpdateStep(g: Heap, h: Heap, h': Heap, ws: seq<WriteRecord>, i: nat)
    requires i < |ws| && ws[i].UpdateTuple? && Wrote(h, ws[i], h') && Stands(g, h', Written(ws, i + 1))
    ensures ws[i].rid in g && Stands(g[ws[i].rid := ws[i].image], h, Written(ws, i))
  {
    var r, x := ws[i].rid, ws[i].image;
    assert r in Written(ws, i + 1);
    var g1, h1 := g - {r}, h' - {r};
    assert g[r := x] == g1[r := x] && h == h1[r := x];
    forall v ensures |RidsOf(g[r := x], v)| == |RidsOf(h, v)| {
      DropCount(g, r, v); DropCount(h', r, v); PutCount(g1, r, x, v); PutCount(h1, r, x, v);
    }
    assert Written(ws, i) <= Written(ws, i + 1);
  }

  /** A deleted row may come back anywhere that is free, if its own id is not still needed; otherwise at home. */
  lemma {:induction false} UndoDeleteStep(g: Heap, h: Heap, h': Heap, ws: seq<WriteRecord>, i: nat, at: Rid)
    requires i < |ws| && ws[i].DeleteTuple? && Wrote(h, ws[i], h') && Stands(g, h', Written(ws, i + 1))
    requires at !in g && (at == ws[i].rid || ws[i].rid !in Written(ws, i))
    ensures Stands(g[at := ws[i].image], h, Written(ws, i))
  {
    var r, x := ws[i].rid, ws[i].image;
    assert h == h'[r := x];
    forall v ensures |RidsOf(g[at := x], v)| == |RidsOf(h, v)| { PutCount(g, at, x, v); PutCount(h', r, x, v); }
    assert Written(ws, i) <= Written(ws, i + 1);
  }

  /** Every id in the write set is a slot of the file. */
  ghost predicate SlotsOf(file: RmFileHandle, ws: seq<WriteRecord>)
    reads file
  {
    forall i :: 0 <= i < |ws| ==> RM_FIRST_RECORD_PAGE <= ws[i].rid.pageNo < file.numPages && 0 <= ws[i].rid.slotNo < file.recordsPerPage
  }

  // ---------- undoing a write set ----------

  /** Miscounted: an undone insert found its slot empty, and its page's count is now wrong. */
  datatype UndoOutcome = Undone | Miscounted

  /** A run of the undo loop: states[i] is the table with i writes left to undo, landed[i] where the row of
      an undone delete i came back, files[i] the file behind states[i], stop the number of writes left when the run ends. */
  datatype UndoRun = UndoRun(stop: nat, states: map<nat, Heap>, landed: map<nat, Rid>, files: map<nat, FileState>)

  /** What undoing a write does to the table; an undone delete puts its row at `at`. */
  ghost predicate Rolled(w: WriteRecord, at: Rid, g: Heap, g': Heap) {
    match w
    case InsertTuple(r) => r in g && g' == g - {r}
    case UpdateTuple(r, image) => g' == if r in g then g[r := image] else g
    case DeleteTuple(_, image) => at !in g && g' == g[at := image]
  }

  ghost predicate RolledAt(ws: seq<WriteRecord>, run: UndoRun, i: nat)
    requires i < |ws|
  {
    i in run.states && i + 1 in run.states && i in run.landed && Rolled(ws[i], run.landed[i], run.states[i + 1], run.states[i])
  }

  /** The run starts from the given table, undoes the writes from the last on, and only stops early at an
      insert whose slot is empty. */
  ghost predicate RunFrom(ws: seq<WriteRecord>, run: UndoRun, start: Heap) {
    && run.stop <= |ws| && |ws| in run.states && run.states[|ws|] == start
    && (forall i :: run.stop <= i < |ws| ==> RolledAt(ws, run, i))
    && (run.stop > 0 ==> run.stop in run.states && ws[run.stop - 1].InsertTuple? && ws[run.stop - 1].rid !in run.states[run.stop])
  }

  /** What undoing a write does to the file: an undone delete takes the slot that the next insert would take. */
  ghost predicate Filed(w: WriteRecord, at: Rid, n: nat, bitmapSize: nat, zero: Record, st: FileState, st': FileState) {
    match w
    case InsertTuple(r) => st' == Cleared(st, n, r, zero)
    case UpdateTuple(r, image) => st' == Overwritten(st, r, image)
    case DeleteTuple(_, image) => NextSlot(st, n, bitmapSize, at) && st' == Filled(st, n, bitmapSize, at, image)
  }

  ghost predicate FiledAt(ws: seq<WriteRecord>, run: UndoRun, n: nat, bitmapSize: nat, zero: Record, i: nat)
    requires i < |ws|
  {
    && i in run.files && i + 1 in run.files && i in run.landed
    && Filed(ws[i], run.landed[i], n, bitmapSize, zero, run.files[i + 1], run.files[i])
  }

  ghost predicate FilesFrom(ws: seq<WriteRecord>, run: UndoRun, n: nat, bitmapSize: nat, zero: Record, start: FileState) {
    && |ws| in run.files && run.files[|ws|] == start
    && forall i :: run.stop <= i < |ws| ==> FiledAt(ws, run, n, bitmapSize, zero, i)
  }

  /** Wherever an undone delete put the row of an id that the transaction wrote before, it is that id. */
  ghost predicate Homed(ws: seq<WriteRecord>, run: UndoRun) {
    forall i :: run.stop <= i < |ws| && ws[i].DeleteTuple? && ws[i].rid in Written(ws, i)
      ==> i in run.landed && run.landed[i] == ws[i].rid
  }

  lemma {:induction false} UntouchedHomed(ws: seq<WriteRecord>, run: UndoRun)
    requires DeletesUntouched(ws)
    ensures Homed(ws, run)
  {}

  lemma {:induction false} StandsAt(ws: seq<WriteRecord>, heaps: seq<Heap>, run: UndoRun, n: nat)
    requires Trace(ws, heaps) && RunFrom(ws, run, heaps[|ws|]) && Homed(ws, run) && run.stop <= n <= |ws|
    ensures n in run.states && Stands(run.states[n], heaps[n], Written(ws, n))
    decreases |ws| - n
  {
    hide SameRows, Wrote, Written, RidsOf, Stands;
    if n == |ws| {
      StandsSelf(heaps[n], Written(ws, n));
    } else {
      StandsAt(ws, heaps, run, n + 1);
      assert RolledAt(ws, run, n) && Wrote(heaps[n], ws[n], heaps[n + 1]);
      match ws[n] {
        case InsertTuple(_) => UndoInsertStep(run.states[n + 1], heaps[n], heaps[n + 1], ws, n);
        case UpdateTuple(_, _) => UndoUpdateStep(run.states[n + 1], heaps[n], heaps[n + 1], ws, n);
        case DeleteTuple(_, _) => UndoDeleteStep(run.states[n + 1], heaps[n], heaps[n + 1], ws, n, run.landed[n]);
      }
    }
  }

  lemma {:induction false} StandsSelf(h: Heap, written: set<Rid>)
    ensures Stands(h, h, written)
  {}

  /** If the rows of ids written before come home, the run reaches the first write and all rows are restored. */
  lemma {:induction false} Restores(ws: seq<WriteRecord>, heaps: seq<Heap>, run: UndoRun)
    requires Trace(ws, heaps) && RunFrom(ws, run, heaps[|ws|]) && Homed(ws, run)
    ensures run.stop == 0 && 0 in run.states && SameRows(run.states[0], heaps[0])
  {
    hide SameRows, Wrote, Written, RidsOf;
    StandsAt(ws, heaps, run, run.stop);
    if run.stop > 0 {
      var n := run.stop - 1;
      assert Wrote(heaps[n], ws[n], heaps[n + 1]);
      UndoInsertStep(run.states[n + 1], heaps[n], heaps[n + 1], ws, n);
    }
  }

  /** One round of the undo loop; not `there` when an insert is undone whose slot is empty. */
  method UndoOne(file: RmFileHandle, w: WriteRecord, zero: Record) returns (there: bool, ghost at: Rid)
    requires file.Valid() && IsSlot(file.pages, file.recordsPerPage, w.rid)
    modifies file
    ensures there <==> w.InsertTuple? ==> w.rid in old(file.Records())
    ensures if there then file.Valid() && Rolled(w, at, old(file.Records()), file.Records()) else !file.Valid()
    ensures Filed(w, at, file.recordsPerPage, file.bitmapSize, zero, old(file.State()), file.State())
    ensures file.numPages >= old(file.numPages)
  {
    hide Contents, PagesOK, ChainOK, Filled, Cleared, Overwritten, NextSlot;
    there, at := true, w.rid;
    match w {
      case InsertTuple(rid) =>
        there := file.IsRecord(rid);
        RollbackInsert(file, rid, zero);
      case UpdateTuple(rid, image) =>
        RollbackUpdate(file, rid, image);
      case DeleteTuple(rid, image) =>
        at := RollbackDelete(file, image);
    }
  }

  /** The undo loop of TransactionManager::abort on any write set and any table, from the last write to the first. */
  method UndoAll(file: RmFileHandle, ws: seq<WriteRecord>, zero: Record) returns (r: UndoOutcome, ghost run: UndoRun)
    requires file.Valid() && SlotsOf(file, ws)
    modifies file
    ensures RunFrom(ws, run, old(file.Records()))
    ensures FilesFrom(ws, run, file.recordsPerPage, file.bitmapSize, zero, old(file.State()))
    ensures r == Undone <==> run.stop == 0
    ensures r == Undone ==> 0 in run.files && file.State() == run.files[0]
    ensures if r == Undone then file.Valid() && 0 in run.states && file.Records() == run.states[0] else !file.Valid()
  {
    hide Contents, PagesOK, ChainOK, Filed, Rolled;
    var n := |ws|;
    run := UndoRun(n, map[n := file.Records()], map[], map[n := file.State()]);
    while n > 0
      invariant 0 <= n <= |ws| && run.stop == n && file.Valid() && SlotsOf(file, ws)
      invariant |ws| in run.states && run.states[|ws|] == old(file.Records())
      invariant n in run.states && run.states[n] == file.Records()
      invariant n in run.files && run.files[n] == file.State()
      invariant forall i :: n <= i < |ws| ==> RolledAt(ws, run, i)
      invariant FilesFrom(ws, run, file.recordsPerPage, file.bitmapSize, zero, old(file.State()))
    {
      n := n - 1;
      ghost var before := run;
      SlotExists(file, ws[n].rid);
      ghost var at;
      var there;
      there, at := UndoOne(file, ws[n], zero);
      if !there { return Miscounted, run; }
      run := UndoRun(n, run.states[n := file.Records()], run.landed[n := at], run.files[n := file.State()]);
      forall i | n <= i < |ws| ensures RolledAt(ws, run, i) { assert i > n ==> RolledAt(ws, before, i); }
      forall i | n <= i < |ws| ensures FiledAt(ws, run, file.recordsPerPage, file.bitmapSize, zero, i) {
        assert i > n ==> FiledAt(ws, before, file.recordsPerPage, file.bitmapSize, zero, i);
      }
    }
    return Undone, run;
  }

  lemma {:induction false} SlotExists(file: RmFileHandle, rid: Rid)
    requires file.Valid() && RM_FIRST_RECORD_PAGE <= rid.pageNo < file.numPages && 0 <= rid.slotNo < file.recordsPerPage
    ensures IsSlot(file.pages, file.recordsPerPage, rid)
  {}

  // ---------- a transaction on one table ----------

  class TableTxn {
    const file: RmFileHandle
    var writeSet: seq<WriteRecord>
    ghost var heaps: seq<Heap>

    ghost predicate Valid()
      reads this, file
    {
      && file.Valid() && Trace(writeSet, heaps) && file.Records() == heaps[|writeSet|]
      && SlotsOf(file, writeSet)
    }

    constructor (handle: RmFileHandle)
      requires handle.Valid()
      ensures Valid() && file == handle && writeSet == [] && heaps == [handle.Records()]
    {
      file, writeSet, heaps := handle, [], [handle.Records()];
    }

    /** InsertExecutor::Next on the heap. */
    method Insert(row: Record) returns (rid: Rid)
      requires Valid()
      modifies this, file
      ensures Valid() && heaps[0] == old(heaps[0]) && writeSet == old(writeSet) + [InsertTuple(rid)]
      ensures rid !in old(file.Records()) && file.Records() == old(file.Records())[rid := row]
      ensures NextSlot(old(file.State()), file.recordsPerPage, file.bitmapSize, rid)
      ensures file.State() == Filled(old(file.State()), file.recordsPerPage, file.bitmapSize, rid, row)
    {
      hide Contents, PagesOK, ChainOK, Filled, NextSlot;
      rid := file.InsertRecord(row);
      InPages(file, rid);
      writeSet := writeSet + [InsertTuple(rid)];
      heaps := heaps + [file.Records()];
    }

    /** UpdateExecutor::Next for one record id. */
    method Update(rid: Rid, row: Record)
      requires Valid() && rid in file.Records()
      modifies this, file
      ensures Valid() && heaps[0] == old(heaps[0])
      ensures writeSet == old(writeSet) + [UpdateTuple(rid, old(file.Records()[rid]))]
      ensures file.Records() == old(file.Records())[rid := row] && file.numPages == old(file.numPages)
      ensures file.State() == Overwritten(old(file.State()), rid, row)
    {
      hide Contents, PagesOK, ChainOK, IsSet, Overwritten;
      ContentsHas(file.pages, file.numPages, file.recordsPerPage, rid);
      InPages(file, rid);
      var image := file.GetRecord(rid);
      file.UpdateRecord(rid, row);
      writeSet := writeSet + [UpdateTuple(rid, image)];
      heaps := heaps + [file.Records()];
    }

    /** DeleteExecutor::Next for one record id. */
    method Delete(rid: Rid, zero: Record)
      requires Valid() && rid in file.Records()
      modifies this, file
      ensures Valid() && heaps[0] == old(heaps[0])
      ensures writeSet == old(writeSet) + [DeleteTuple(rid, old(file.Records()[rid]))]
      ensures file.Records() == old(file.Records()) - {rid} && file.numPages == old(file.numPages)
      ensures file.State() == Cleared(old(file.State()), file.recordsPerPage, rid, zero)
    {
      hide Contents, PagesOK, ChainOK, IsSet, Cleared;
      ContentsHas(file.pages, file.numPages, file.recordsPerPage, rid);
      InPages(file, rid);
      var image := file.GetRecord(rid);
      file.DeleteRecord(rid, zero);
      writeSet := writeSet + [DeleteTuple(rid, image)];
      heaps := heaps + [file.Records()];
    }

    /** TransactionManager::abort on the heap.  That no delete targets an id written before can be read off the
        write set; it is enough that such rows come home. */
    method Abort(zero: Record) returns (r: UndoOutcome, ghost run: UndoRun)
      requires Valid()
      modifies this, file
      ensures RunFrom(old(writeSet), run, old(file.Records())) && (r == Undone <==> run.stop == 0)
      ensures FilesFrom(old(writeSet), run, file.recordsPerPage, file.bitmapSize, zero, old(file.State()))
      ensures r == Undone ==> 0 in run.files && file.State() == run.files[0]
      ensures if r == Undone then file.Valid() && writeSet == [] && 0 in run.states && file.Records() == run.states[0] else !file.Valid()
      ensures DeletesUntouched(old(writeSet)) || Homed(old(writeSet), run) ==>
                r == Undone && SameRows(file.Records(), old(heaps[0]))
    {
      hide Contents, PagesOK, ChainOK, SameRows, Wrote, Written, DeletesUntouched, Homed, RunFrom, FilesFrom;
      r, run := UndoAll(file, writeSet, zero);
      if DeletesUntouched(writeSet) { UntouchedHomed(writeSet, run); }
      if Homed(writeSet, run) { Restores(writeSet, heaps, run); }
      writeSet := [];
    }
  }

  lemma {:induction false} InPages(file: RmFileHandle, rid: Rid)
    requires file.Valid() && rid in file.Records()
    ensures RM_FIRST_RECORD_PAGE <= rid.pageNo < file.numPages && 0 <= rid.slotNo < file.recordsPerPage
    ensures IsSlot(file.pages, file.recordsPerPage, rid)
  {
    ContentsHas(file.pages, file.numPages, file.recordsPerPage, rid);
  }

  /** SmManager::rollback_insert on the heap: on an empty slot the page's count goes wrong. */
  method RollbackInsert(file: RmFileHandle, rid: Rid, zero: Record)
    requires file.Valid() && IsSlot(file.pages, file.recordsPerPage, rid)
    modifies file
    ensures file.numPages == old(file.numPages)
    ensures rid in old(file.Records()) ==> file.Valid() && file.Records() == old(file.Records()) - {rid}
    ensures rid !in old(file.Records()) ==> !file.Valid()
    ensures file.State() == Cleared(old(file.State()), file.recordsPerPage, rid, zero)
  {
    file.DeleteRecord(rid, zero);
  }

  /** SmManager::rollback_update on the heap: an emptied slot is written in vain. */
  method RollbackUpdate(file: RmFileHandle, rid: Rid, image: Record)
    requires file.Valid() && (rid in file.Records() || IsSlot(file.pages, file.recordsPerPage, rid))
    modifies file
    ensures file.Valid() && file.numPages == old(file.numPages)
    ensures file.Records() == if rid in old(file.Records()) then old(file.Records())[rid := image] else old(file.Records())
    ensures file.State() == Overwritten(old(file.State()), rid, image)
  {
    hide Contents, PagesOK, ChainOK, IsSet;
    ContentsHas(file.pages, file.numPages, file.recordsPerPage, rid);
    file.UpdateRecord(rid, image);
  }

  /** SmManager::rollback_delete on the heap: the row goes to the first free slot, not to its old place. */
  method RollbackDelete(file: RmFileHandle, image: Record) returns (at: Rid)
    requires file.Valid()
    modifies file
    ensures file.Valid() && at !in old(file.Records()) && file.Records() == old(file.Records())[at := image]
    ensures at.pageNo == (if old(file.firstFree) == RM_NO_PAGE then old(file.numPages) else old(file.firstFree))
    ensures file.numPages == if old(file.firstFree) == RM_NO_PAGE then old(file.numPages) + 1 else old(file.numPages)
    ensures 0 <= at.slotNo < file.recordsPerPage && forall s :: 0 <= s < at.slotNo ==> Rid(at.pageNo, s) in file.Records()
    ensures NextSlot(old(file.State()), file.recordsPerPage, file.bitmapSize, at)
    ensures file.State() == Filled(old(file.State()), file.recordsPerPage, file.bitmapSize, at, image)
  {
    at := file.InsertRecord(image);
  }

  // ---------- without the condition ----------

  /** In a file of one page, an insert goes to the lowest free slot. */
  lemma {:induction false} OnePageRoom(file: RmFileHandle, free: Rid)
    requires file.Valid() && file.numPages == 2 && file.recordsPerPage == 2
    requires free.pageNo == 1 && 0 <= free.slotNo < 2 && free !in file.Records()
    ensures file.firstFree == 1 && IsSlot(file.pages, 2, free)
  {
    hide Contents, ChainOK, IsSet, PageOK;
    NoRoomIff(file);
    assert IsSlot(file.pages, 2, free);
  }

  /** A file of one full page with two rows. */
  method TwoRows(a: Record, b: Record) returns (file: RmFileHandle)
    ensures fresh(file) && file.Valid() && file.numPages == 2 && file.recordsPerPage == 2
    ensures file.Records() == map[Rid(1, 0) := a, Rid(1, 1) := b]
  {
    hide Contents, PagesOK, ChainOK;
    file := new RmFileHandle(2, 1);
    var r1 := file.InsertRecord(a);
    assert Rid(1, 0) in file.Records();
    OnePageRoom(file, Rid(1, 1));
    var r2 := file.InsertRecord(b);
    assert r1 == Rid(1, 0) && r2 == Rid(1, 1);
  }

  /**
   * Deleting the first row, then updating and deleting the second, and undoing the three writes
   * as abort does: the second row comes back in the first slot, so undoing its update misses it.
   */
  method StrayedUndo(a: Record, b: Record, c: Record, zero: Record) returns (file: RmFileHandle, ws: seq<WriteRecord>)
    requires a != b && b != c && a != c
    ensures ws == [DeleteTuple(Rid(1, 0), a), UpdateTuple(Rid(1, 1), b), DeleteTuple(Rid(1, 1), c)]
    ensures file.Valid() && file.Records() == map[Rid(1, 0) := c, Rid(1, 1) := a]
    ensures !DeletesUntouched(ws) && !SameRows(file.Records(), map[Rid(1, 0) := a, Rid(1, 1) := b])
  {
    hide Contents, PagesOK, ChainOK, Trace, SameRows;
    file := TwoRows(a, b);
    var txn := new TableTxn(file);
    txn.Delete(Rid(1, 0), zero);
    txn.Update(Rid(1, 1), c);
    txn.Delete(Rid(1, 1), zero);
    ws := txn.writeSet;
    UndoThree(file, ws);
    Strayed(a, b, c);
  }

  /** The three undo steps on the emptied page. */
  method UndoThree(file: RmFileHandle, ws: seq<WriteRecord>)
    requires file.Valid() && file.numPages == 2 && file.recordsPerPage == 2 && file.Records() == map[]
    requires |ws| == 3 && ws[0].DeleteTuple? && ws[1].UpdateTuple? && ws[1].rid == Rid(1, 1) && ws[2].DeleteTuple?
    modifies file
    ensures file.Valid() && file.Records() == map[Rid(1, 0) := ws[2].image, Rid(1, 1) := ws[0].image]
  {
    hide Contents, PagesOK, ChainOK;
    OnePageRoom(file, Rid(1, 0));
    var at := RollbackDelete(file, ws[2].image);
    assert Rid(1, 0) in file.Records();
    OnePageRoom(file, Rid(1, 1));
    RollbackUpdate(file, ws[1].rid, ws[1].image);
    OnePageRoom(file, Rid(1, 1));
    at := RollbackDelete(file, ws[0].image);
    assert at == Rid(1, 1);
  }

  lemma {:induction false} Strayed(a: Record, b: Record, c: Record)
    requires a != b && b != c && a != c
    ensures !SameRows(map[Rid(1, 0) := c, Rid(1, 1) := a], map[Rid(1, 0) := a, Rid(1, 1) := b])
    ensures Rid(1, 1) in Written([DeleteTuple(Rid(1, 0), a), UpdateTuple(Rid(1, 1), b), DeleteTuple(Rid(1, 1), c)], 2)
  {
    assert RidsOf(map[Rid(1, 0) := c, Rid(1, 1) := a], b) == {};
    assert RidsOf(map[Rid(1, 0) := a, Rid(1, 1) := b], b) == {Rid(1, 1)};
    var ws := [DeleteTuple(Rid(1, 0), a), UpdateTuple(Rid(1, 1), b), DeleteTuple(Rid(1, 1), c)];
    assert ws[1].rid == Rid(1, 1) && !ws[1].DeleteTuple?;
  }
}
