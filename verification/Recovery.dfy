/** The analyze and undo passes of recovery, on the bytes of the durable log. */
module Recovery {
  import opened Defs
  import opened LogRecords
  import opened LogManager
  import opened LogChain
  import opened Sets

  datatype TxnStatus = UndoCandidate | CommittedTxn | AbortingTxn

  ghost predicate ActiveAt(recs: seq<LogRecord>, n: nat, active: map<int, int>, t: int)
    requires n <= |recs|
  {
    var i := LastActive(recs, n, t);
    && (t in active <==> i >= 0 && !recs[i].payload.End?)
    && (t in active ==> active[t] == i)
  }

  /** active_txn_ after the first n records: the unended transactions and their last active record. */
  ghost predicate ActiveIs(recs: seq<LogRecord>, n: nat, active: map<int, int>)
    requires n <= |recs|
  {
    forall t :: ActiveAt(recs, n, active, t)
  }

  function StatusFor(p: Payload): TxnStatus {
    if p.Begin? then UndoCandidate else if p.Abort? then AbortingTxn else CommittedTxn
  }

  ghost predicate StatusAt(recs: seq<LogRecord>, n: nat, status: map<int, TxnStatus>, t: int)
    requires n <= |recs|
  {
    var i := LastMarker(recs, n, t);
    && (t in status <==> i >= 0 && !recs[i].payload.End?)
    && (t in status ==> status[t] == StatusFor(recs[i].payload))
  }

  /** txn_status after the first n records. */
  ghost predicate StatusIs(recs: seq<LogRecord>, n: nat, status: map<int, TxnStatus>)
    requires n <= |recs|
  {
    forall t :: StatusAt(recs, n, status, t)
  }

  /** lsn_mapping_ after the first n records: each number to its record's start. */
  ghost predicate MappingIs(recs: seq<LogRecord>, n: nat, mapping: map<int, nat>)
    requires AllFit(recs) && n <= |recs|
  {
    && (forall i :: i in mapping <==> 0 <= i < n)
    && (forall i :: i in mapping ==> mapping[i] == Off(recs, i))
  }

  /** DiskManager::read_log: how many bytes are there to read. */
  function ReadLogSize(fileSize: nat, size: nat, offset: nat): int {
    if offset > fileSize then -1 else if size < fileSize - offset then size else fileSize - offset
  }

  lemma {:induction false} NextMapping(recs: seq<LogRecord>, n: nat, mapping: map<int, nat>)
    requires AllFit(recs) && n < |recs| && MappingIs(recs, n, mapping)
    ensures MappingIs(recs, n + 1, mapping[n := Off(recs, n)])
  {}

  lemma {:induction false} AtRecord(recs: seq<LogRecord>, i: nat)
    requires AllFit(recs) && i <= |recs|
    ensures i == |recs| ==> Off(recs, i) == |Concat(recs)|
    ensures i < |recs| ==> Off(recs, i) + LOG_HEADER_SIZE <= |Concat(recs)|
    ensures i < |recs| ==> ReadHeader(Concat(recs), Off(recs, i)).totLen == TotLen(recs[i].payload)
    ensures i < |recs| ==> Decode(Concat(recs), Off(recs, i)) == Some(recs[i])
    ensures i < |recs| ==> Off(recs, i + 1) == Off(recs, i) + TotLen(recs[i].payload)
  {
    hide Decode, Encode, ReadHeader;
    if i < |recs| {
      RecordAt(recs, i);
      DecodeBack(Concat(recs), Off(recs, i), recs[i]);
    } else {
      assert recs[..i] == recs;
    }
  }

  /** One record's effect on the transaction table. */
  method NoteRecord(rec: LogRecord, active: map<int, int>, status: map<int, TxnStatus>, ghost recs: seq<LogRecord>, ghost n: nat)
    returns (active': map<int, int>, status': map<int, TxnStatus>)
    requires n < |recs| && rec == recs[n] && rec.lsn == n && ActiveIs(recs, n, active) && StatusIs(recs, n, status)
    ensures ActiveIs(recs, n + 1, active') && StatusIs(recs, n + 1, status')
  {
    active', status' := active, status;
    var p := rec.payload;
    if p.Begin? || p.Commit? || p.Abort? {
      active' := active[rec.tid := rec.lsn];
      if p.Begin? { status' := status[rec.tid := UndoCandidate]; }
      else if p.Abort? { status' := status[rec.tid := AbortingTxn]; }
      else { status' := status[rec.tid := CommittedTxn]; }
    } else if p.End? {
      status' := status - {rec.tid};
      active' := active - {rec.tid};
    } else if p.IsTuple() || p.PageSet? {
      active' := active[rec.tid := rec.lsn];
    }
    ghost var next := n + 1;
    forall t ensures ActiveAt(recs, next, active', t) && StatusAt(recs, next, status', t) {
      assert ActiveAt(recs, n, active, t) && StatusAt(recs, n, status, t);
    }
  }

  /** RecoveryManager::analyze: walking by log_tot_len_ meets exactly the appended records, with their payloads. */
  method Analyze(disk: seq<Byte>, ghost recs: seq<LogRecord>)
    returns (seen: seq<LogRecord>, active: map<int, int>, status: map<int, TxnStatus>, mapping: map<int, nat>)
    requires AllFit(recs) && Numbered(recs) && disk == Concat(recs)
    ensures seen == recs && MappingIs(recs, |recs|, mapping)
    ensures ActiveIs(recs, |recs|, active) && StatusIs(recs, |recs|, status)
  {
    hide Concat, Decode, ReadHeader, MappingIs, ActiveIs, StatusIs, Fits;
    var offset := 0;
    seen, active, status, mapping := [], map[], map[], map[];
    StartTables(recs);
    AtRecord(recs, 0);
    while ReadLogSize(|disk|, LOG_HEADER_SIZE, offset) > 0
      invariant |seen| <= |recs| && seen == recs[..|seen|] && offset == Off(recs, |seen|)
      invariant |seen| == |recs| ==> offset == |disk|
      invariant MappingIs(recs, |seen|, mapping) && ActiveIs(recs, |seen|, active) && StatusIs(recs, |seen|, status)
      decreases |recs| - |seen|
    {
      ghost var n := |seen|;
      AtRecord(recs, n);
      AtRecord(recs, n + 1);
      NextMapping(recs, n, mapping);
      var header := ReadHeader(disk, offset);
      var rec := Decode(disk, offset).value;
      active, status := NoteRecord(rec, active, status, recs, n);
      mapping := mapping[rec.lsn := offset];
      seen := seen + [rec];
      offset := offset + header.totLen;
    }
    AtRecord(recs, |seen|);
  }

  lemma {:induction false} StartTables(recs: seq<LogRecord>)
    requires AllFit(recs)
    ensures ActiveIs(recs, 0, map[]) && StatusIs(recs, 0, map[]) && MappingIs(recs, 0, map[]) && Off(recs, 0) == 0
  {}

  // ---------- undo ----------

  /** The tuple records of t among the first n, latest first. */
  ghost function TuplesDown(recs: seq<LogRecord>, n: nat, t: int): seq<LogRecord>
    requires n <= |recs|
  {
    if n == 0 then []
    else (if recs[n - 1].tid == t && recs[n - 1].payload.IsTuple() then [recs[n - 1]] else []) + TuplesDown(recs, n - 1, t)
  }

  /** Records that are no tuple records of t do not matter. */
  lemma {:induction false} SkipDown(recs: seq<LogRecord>, m: nat, n: nat, t: int)
    requires m <= n <= |recs| && forall j :: m <= j < n && recs[j].tid == t ==> !recs[j].payload.IsTuple()
    ensures TuplesDown(recs, n, t) == TuplesDown(recs, m, t)
  {
    if m < n { SkipDown(recs, m, n - 1, t); }
  }

  lemma {:induction false} MappingAt(recs: seq<LogRecord>, mapping: map<int, nat>, i: int)
    requires AllFit(recs) && MappingIs(recs, |recs|, mapping) && 0 <= i < |recs|
    ensures i in mapping && mapping[i] == Off(recs, i)
  {}

  /** From one record of a transaction to its previous one no tuple record is missed. */
  lemma {:induction false} UndoAt(recs: seq<LogRecord>, cur: nat)
    requires Chained(recs) && cur < |recs|
    ensures var (t, prev) := (recs[cur].tid, recs[cur].prevLsn);
            && -1 <= prev < cur && (prev >= 0 ==> recs[prev].tid == t)
            && TuplesDown(recs, cur + 1, t) ==
               (if recs[cur].payload.IsTuple() then [recs[cur]] else []) + TuplesDown(recs, prev + 1, t)
            && (prev < 0 ==> TuplesDown(recs, prev + 1, t) == [])
  {
    assert LinkedAt(recs, cur);
    SkipDown(recs, recs[cur].prevLsn + 1, cur, recs[cur].tid);
  }

  /** What is undone so far, on the way from record start down to record cur, which is next. */
  ghost predicate UndoPos(recs: seq<LogRecord>, start: nat, cur: nat, undone: seq<LogRecord>) {
    && cur <= start < |recs| && recs[cur].tid == recs[start].tid
    && undone + TuplesDown(recs, cur + 1, recs[start].tid) == TuplesDown(recs, start + 1, recs[start].tid)
  }

  lemma {:induction false} UndoStart(recs: seq<LogRecord>, start: nat)
    requires start < |recs|
    ensures UndoPos(recs, start, start, [])
  {}

  lemma {:induction false} UndoNextStep(recs: seq<LogRecord>, start: nat, cur: nat, undone: seq<LogRecord>)
    requires Chained(recs) && cur < |recs| && UndoPos(recs, start, cur, undone)
    ensures var (prev, undone') := (recs[cur].prevLsn, if recs[cur].payload.IsTuple() then undone + [recs[cur]] else undone);
            && -1 <= prev < cur
            && (prev >= 0 ==> UndoPos(recs, start, prev, undone'))
            && (prev < 0 ==> undone' == TuplesDown(recs, start + 1, recs[start].tid))
  {
    hide TuplesDown, Chained;
    UndoAt(recs, cur);
    var prev, t := recs[cur].prevLsn, recs[cur].tid;
    var head := if recs[cur].payload.IsTuple() then [recs[cur]] else [];
    var tail := TuplesDown(recs, prev + 1, t);
    assert undone + (head + tail) == (undone + head) + tail;
    assert undone + [] == undone;
  }

  /** The inner loop of RecoveryManager::undo, as the list of records it rolls back. */
  method UndoTxn(disk: seq<Byte>, mapping: map<int, nat>, start: int, status: TxnStatus, ghost recs: seq<LogRecord>)
    returns (undone: seq<LogRecord>)
    requires AllFit(recs) && Chained(recs) && disk == Concat(recs) && MappingIs(recs, |recs|, mapping)
    requires 0 <= start < |recs| && !recs[start].payload.UndoNext?
    ensures undone == TuplesDown(recs, start + 1, recs[start].tid)
  {
    hide Concat, Decode, Fits, Chained, TuplesDown, MappingIs, AllFit, Off, UndoPos;
    UndoStart(recs, start);
    undone := [];
    ghost var cur: nat := start;
    var st := status;
    MappingAt(recs, mapping, start);
    var offset := mapping[start];
    while true
      invariant cur < |recs| && offset == Off(recs, cur) && UndoPos(recs, start, cur, undone)
      invariant st == AbortingTxn ==> cur == start
      decreases cur
    {
      AtRecord(recs, cur);
      UndoNextStep(recs, start, cur, undone);
      var rec := Decode(disk, offset).value;
      if st == AbortingTxn {
        // The jump along undo_next is guarded by this test, and the test is never true.
        assert !rec.payload.UndoNext?;
        st := UndoCandidate;
      }
      if rec.payload.IsTuple() {
        undone := undone + [rec];
      }
      if rec.prevLsn == INVALID_LSN { break; }
      MappingAt(recs, mapping, rec.prevLsn);
      offset := mapping[rec.prevLsn];
      cur := rec.prevLsn;
    }
  }

  /** get_max_lsn: the transaction with the latest record. */
  method GetMaxLsn(active: map<int, int>) returns (txn: int, lsn: int)
    requires active != map[] && forall t :: t in active ==> active[t] >= 0
    ensures txn in active && lsn == active[txn] && forall t :: t in active ==> active[t] <= lsn
  {
    var rest := active.Keys;
    lsn := -1;
    txn := 0;
    while rest != {}
      invariant rest <= active.Keys
      invariant lsn == -1 ==> rest == active.Keys
      invariant lsn != -1 ==> txn in active && lsn == active[txn]
      invariant lsn >= -1 && forall t :: t in active && t !in rest ==> active[t] <= lsn
      decreases |rest|
    {
      ghost var some := Pick(rest);
      var t :| t in rest;
      if active[t] > lsn { txn, lsn := t, active[t]; }
      rest := rest - {t};
    }
    assert exists t :: t in active by { ghost var some := Pick(active.Keys); }
  }

  /** Records of one transaction in a list. */
  ghost function OfTxn(recs: seq<LogRecord>, t: int): seq<LogRecord> {
    if recs == [] then [] else (if recs[0].tid == t then [recs[0]] else []) + OfTxn(recs[1..], t)
  }

  lemma {:induction false} OfTxnAppend(a: seq<LogRecord>, b: seq<LogRecord>, t: int)
    ensures OfTxn(a + b, t) == OfTxn(a, t) + OfTxn(b, t)
  {
    if a == [] {
      assert a + b == b;
    } else {
      var x, tail := a[0], a[1..];
      OfTxnAppend(tail, b, t);
      assert (a + b)[1..] == tail + b;
      var head := if x.tid == t then [x] else [];
      assert head + (OfTxn(tail, t) + OfTxn(b, t)) == head + OfTxn(tail, t) + OfTxn(b, t);
    }
  }

  lemma {:induction false} OfTxnDown(recs: seq<LogRecord>, n: nat, u: int, t: int)
    requires n <= |recs|
    ensures OfTxn(TuplesDown(recs, n, u), t) == if t == u then TuplesDown(recs, n, u) else []
  {
    hide OfTxn;
    if n == 0 {
      OfTxnNone(t);
    } else {
      OfTxnDown(recs, n - 1, u, t);
      OfTxnHead(recs[n - 1], u, t);
      var head := if recs[n - 1].tid == u && recs[n - 1].payload.IsTuple() then [recs[n - 1]] else [];
      OfTxnAppend(head, TuplesDown(recs, n - 1, u), t);
    }
  }

  lemma {:induction false} OfTxnNone(t: int)
    ensures OfTxn([], t) == []
  {}

  lemma {:induction false} OfTxnHead(rec: LogRecord, u: int, t: int)
    ensures var head := if rec.tid == u && rec.payload.IsTuple() then [rec] else [];
            OfTxn(head, t) == if t == u then head else []
  {
    assert [rec][1..] == [];
  }

  /** An active transaction's entry is its last record but for UNDO_NEXT records. */
  ghost predicate FromLast(recs: seq<LogRecord>, active: map<int, int>, t: int) {
    && t in active && 0 <= active[t] < |recs| && recs[active[t]].tid == t && !recs[active[t]].payload.UndoNext?
    && forall j :: active[t] < j < |recs| && recs[j].tid == t ==> !recs[j].payload.IsTuple()
  }

  lemma {:induction false} ActiveFact(recs: seq<LogRecord>, active: map<int, int>, t: int)
    requires ActiveIs(recs, |recs|, active) && t in active
    ensures FromLast(recs, active, t)
    ensures 0 <= active[t] < |recs| && recs[active[t]].tid == t && !recs[active[t]].payload.UndoNext?
  {
    assert ActiveAt(recs, |recs|, active, t);
  }

  /** The tuple records of the transactions of the list, one transaction after the other. */
  ghost function UndoneIn(recs: seq<LogRecord>, order: seq<int>): seq<LogRecord> {
    if order == [] then []
    else UndoneIn(recs, order[..|order| - 1]) + TuplesDown(recs, |recs|, order[|order| - 1])
  }

  /** The list has these transactions, the one with the latest record first. */
  ghost predicate LatestFirst(recs: seq<LogRecord>, txns: set<int>, order: seq<int>) {
    && (forall t :: t in order <==> t in txns)
    && (forall i, j :: 0 <= i < j < |order| ==> LastActive(recs, |recs|, order[i]) > LastActive(recs, |recs|, order[j]))
  }

  lemma {:induction false} OrderMore(recs: seq<LogRecord>, txns: set<int>, order: seq<int>, t: int)
    requires LatestFirst(recs, txns, order) && forall x :: x in txns ==> LastActive(recs, |recs|, x) > LastActive(recs, |recs|, t)
    ensures LatestFirst(recs, txns + {t}, order + [t])
    ensures UndoneIn(recs, order + [t]) == UndoneIn(recs, order) + TuplesDown(recs, |recs|, t)
  {
    var longer := order + [t];
    assert longer[..|order|] == order;
    forall i, j | 0 <= i < j < |longer| ensures LastActive(recs, |recs|, longer[i]) > LastActive(recs, |recs|, longer[j]) {
      assert longer[i] == order[i] && order[i] in order;
      assert j < |order| ==> longer[j] == order[j];
    }
  }

  /** The transactions in `order` are done, in that order, and the rest has earlier last records. */
  ghost predicate Progress(recs: seq<LogRecord>, done: set<int>, rest: set<int>, order: seq<int>, undone: seq<LogRecord>) {
    && UndoneIs(recs, undone, done)
    && LatestFirst(recs, done, order) && undone == UndoneIn(recs, order)
    && forall x, t :: x in done && t in rest ==> LastActive(recs, |recs|, x) > LastActive(recs, |recs|, t)
  }

  lemma {:induction false} ProgressStart(recs: seq<LogRecord>, rest: set<int>)
    ensures Progress(recs, {}, rest, [], [])
  {}

  lemma {:induction false} ProgressMore(recs: seq<LogRecord>, done: set<int>, active: map<int, int>, order: seq<int>, undone: seq<LogRecord>,
                                        all: map<int, int>, txn: int)
    requires ActiveIs(recs, |recs|, all) && Progress(recs, done, active.Keys, order, undone)
    requires txn in active && txn !in done && forall t :: t in active ==> t in all && active[t] == all[t] && active[t] <= active[txn]
    ensures 0 <= active[txn] < |recs| && TuplesDown(recs, active[txn] + 1, txn) == TuplesDown(recs, |recs|, txn)
    ensures Progress(recs, done + {txn}, active.Keys - {txn}, order + [txn], undone + TuplesDown(recs, |recs|, txn))
  {
    hide UndoneIs, LatestFirst, UndoneIn, TuplesDown, ActiveIs, LastActive;
    ActiveFact(recs, all, txn);
    UndoneMore(recs, undone, done, all, txn);
    OrderMore(recs, done, order, txn);
    forall t | t in active.Keys - {txn} ensures LastActive(recs, |recs|, txn) > LastActive(recs, |recs|, t) {
      TakeLatest(recs, all, txn, t);
    }
  }

  /** All others have an earlier last record. */
  lemma {:induction false} TakeLatest(recs: seq<LogRecord>, active: map<int, int>, txn: int, t: int)
    requires ActiveIs(recs, |recs|, active) && txn in active && t in active && t != txn && active[t] <= active[txn]
    ensures LastActive(recs, |recs|, txn) > LastActive(recs, |recs|, t)
  {
    assert ActiveAt(recs, |recs|, active, t) && ActiveAt(recs, |recs|, active, txn);
    ActiveFact(recs, active, t);
    ActiveFact(recs, active, txn);
  }

  lemma {:induction false} ProgressEnd(recs: seq<LogRecord>, done: set<int>, order: seq<int>, undone: seq<LogRecord>)
    requires Progress(recs, done, {}, order, undone)
    ensures forall t :: OfTxn(undone, t) == if t in done then TuplesDown(recs, |recs|, t) else []
    ensures LatestFirst(recs, done, order) && undone == UndoneIn(recs, order)
  {}

  /** Spins stands for the loop that meets a committed transaction and goes round for ever. */
  datatype UndoResult = Done(undone: seq<LogRecord>) | Spins

  /**
   * RecoveryManager::undo: it ends exactly when no unended transaction is committed, and has then
   * rolled back every tuple record of every unended transaction once, latest first.  It takes the
   * transactions one by one, each time the one with the latest record.
   */
  method Undo(disk: seq<Byte>, mapping: map<int, nat>, activeTxn: map<int, int>, txnStatus: map<int, TxnStatus>, ghost recs: seq<LogRecord>)
    returns (r: UndoResult)
    requires AllFit(recs) && Chained(recs) && disk == Concat(recs)
    requires MappingIs(recs, |recs|, mapping) && ActiveIs(recs, |recs|, activeTxn)
    ensures r.Spins? <==> exists t :: t in activeTxn && t in txnStatus && txnStatus[t] == CommittedTxn
    ensures r.Done? ==> forall t :: OfTxn(r.undone, t) == if t in activeTxn then TuplesDown(recs, |recs|, t) else []
    ensures r.Done? ==> exists order :: LatestFirst(recs, activeTxn.Keys, order) && r.undone == UndoneIn(recs, order)
  {
    hide Concat, Fits, MappingIs, Chained, TuplesDown, ActiveIs, AllFit, FromLast, LatestFirst, UndoneIn, Progress;
    var active, status := activeTxn, txnStatus;
    var undone: seq<LogRecord> := [];
    ghost var finished: set<int>, order: seq<int> := {}, [];
    ProgressStart(recs, active.Keys);
    while active != map[]
      invariant forall t :: t in active ==> t in activeTxn && active[t] == activeTxn[t]
      invariant forall t :: t in activeTxn <==> t in active || t in finished
      invariant forall t :: t in finished ==> t !in active
      invariant forall t :: t in active ==> (t in status <==> t in txnStatus) && (t in status ==> status[t] == txnStatus[t])
      invariant forall t :: t in finished ==> !(t in txnStatus && txnStatus[t] == CommittedTxn)
      invariant Progress(recs, finished, active.Keys, order, undone)
      decreases |active|
    {
      forall t | t in active ensures active[t] >= 0 { ActiveFact(recs, activeTxn, t); }
      var txn, lsn := GetMaxLsn(active);
      var st := if txn in status then status[txn] else UndoCandidate;
      if st == CommittedTxn { return Spins; }
      ActiveFact(recs, activeTxn, txn);
      var more := UndoTxn(disk, mapping, lsn, st, recs);
      ProgressMore(recs, finished, active, order, undone, activeTxn, txn);
      order := order + [txn];
      undone := undone + more;
      finished := finished + {txn};
      assert (active - {txn}).Keys == active.Keys - {txn};
      active := active - {txn};
      status := status - {txn};
    }
    assert active.Keys == {};
    assert finished == activeTxn.Keys by { assert forall t :: t in activeTxn <==> t in finished; }
    ProgressEnd(recs, finished, order, undone);
    return Done(undone);
  }

  /** Exactly the transactions in the set have been undone. */
  ghost predicate UndoneIs(recs: seq<LogRecord>, undone: seq<LogRecord>, finished: set<int>) {
    forall t :: OfTxn(undone, t) == if t in finished then TuplesDown(recs, |recs|, t) else []
  }

  lemma {:induction false} UndoneMore(recs: seq<LogRecord>, undone: seq<LogRecord>, finished: set<int>, active: map<int, int>, txn: int)
    requires UndoneIs(recs, undone, finished) && txn !in finished && FromLast(recs, active, txn)
    ensures UndoneIs(recs, undone + TuplesDown(recs, active[txn] + 1, txn), finished + {txn})
    ensures TuplesDown(recs, active[txn] + 1, txn) == TuplesDown(recs, |recs|, txn)
  {
    hide TuplesDown, OfTxn;
    SkipDown(recs, active[txn] + 1, |recs|, txn);
    var more := TuplesDown(recs, |recs|, txn);
    forall t ensures OfTxn(undone + more, t) == if t in finished + {txn} then TuplesDown(recs, |recs|, t) else [] {
      OfTxnAppend(undone, more, t);
      OfTxnDown(recs, |recs|, txn, t);
    }
  }

  /**
   * Recovery over the log of any interleaving, with a crash after any record: undo ends exactly when
   * no transaction stands between its COMMIT and its END, and then rolls back the unended transactions.
   */
  method Recover(disk: seq<Byte>, ghost steps: seq<Step>) returns (r: UndoResult)
    requires CanRun(Init(), steps) && AllFit(Run(Init(), steps).log) && disk == Concat(Run(Init(), steps).log)
    ensures var s := Run(Init(), steps);
            r.Spins? <==> exists t :: t in s.txns && s.txns[t].phase == Committing
    ensures var s := Run(Init(), steps);
            r.Done? ==> forall t ::
              OfTxn(r.undone, t) == if t in s.txns && s.txns[t].phase != Ended then TuplesDown(s.log, |s.log|, t) else []
    ensures var s := Run(Init(), steps);
            r.Done? ==> exists order :: LatestFirst(s.log, Unended(s), order) && r.undone == UndoneIn(s.log, order)
  {
    hide Concat, Fits, MappingIs, TuplesDown, OfTxn, LatestFirst, UndoneIn;
    EveryLogChained(steps);
    ghost var s := Run(Init(), steps);
    assert Numbered(s.log) by {
      forall i | 0 <= i < |s.log| ensures s.log[i].lsn == i { assert LinkedAt(s.log, i); }
    }
    var seen, active, status, mapping := Analyze(disk, s.log);
    forall t ensures t in active <==> t in s.txns && s.txns[t].phase != Ended { assert TxnOK(s, t) && ActiveAt(s.log, |s.log|, active, t); }
    forall t ensures t in status && status[t] == CommittedTxn <==> t in s.txns && s.txns[t].phase == Committing {
      assert TxnOK(s, t) && StatusAt(s.log, |s.log|, status, t);
    }
    assert active.Keys == Unended(s);
    r := Undo(disk, mapping, active, status, s.log);
  }

  ghost function Unended(s: LogState): set<int> { set t | t in s.txns && s.txns[t].phase != Ended }

  /** A protocol step through the log manager appends the protocol's record. */
  method WriteStep(log: LogManager, s: LogState, step: Step)
    requires log.Valid() && log.appended == s.log && Enabled(s, step)
    requires Fits(RecordOf(s, step)) && TotLen(PayloadOf(step)) <= LOG_BUFFER_SIZE
    modifies log, log.buffer
    ensures log.Valid() && log.appended == Apply(s, step).log
  {
    hide Concat, Fits, Enabled;
    var rec := RecordOf(s, step);
    var lsn := log.AddLogToBuffer(rec.(lsn := INVALID_LSN));
    assert rec.(lsn := INVALID_LSN).(lsn := lsn) == rec;
  }

  /** After a crash at any moment, the disk holds the log of a shorter run. */
  lemma {:induction false} CrashLog(log: LogManager, steps: seq<Step>)
    requires log.Valid() && CanRun(Init(), steps) && log.appended == Run(Init(), steps).log
    ensures var n := log.persistLsn;
            && n <= |steps| && CanRun(Init(), steps[..n]) && AllFit(Run(Init(), steps[..n]).log)
            && log.disk == Concat(Run(Init(), steps[..n]).log)
  {
    hide Concat, CanRun, Run, Fits;
    PrefixRun(Init(), steps, |steps|);
    PrefixRun(Init(), steps, log.persistLsn);
  }
}
