/** The backward links of the log, for every interleaving of transactions. */
module LogChain {
  import opened LogRecords

  /** The latest of the first n records that belongs to t, or -1. */
  ghost function LastBefore(recs: seq<LogRecord>, n: nat, t: int): (i: int)
    requires n <= |recs|
    ensures -1 <= i < n && (i >= 0 ==> recs[i].tid == t)
    ensures forall j :: i < j < n ==> recs[j].tid != t
  {
    if n == 0 then -1 else if recs[n - 1].tid == t then n - 1 else LastBefore(recs, n - 1, t)
  }

  /** Numbers count up; each record links to its transaction's previous record; a first record is a BEGIN. */
  ghost predicate LinkedAt(recs: seq<LogRecord>, i: nat)
    requires i < |recs|
  {
    && recs[i].lsn == i
    && recs[i].prevLsn == LastBefore(recs, i, recs[i].tid)
    && (recs[i].payload.Begin? <==> recs[i].prevLsn == INVALID_LSN)
  }

  ghost predicate Chained(recs: seq<LogRecord>) {
    forall i :: 0 <= i < |recs| ==> LinkedAt(recs, i)
  }

  // ---------- following the links ----------

  /** The records met from record i backwards. */
  ghost function Walk(recs: seq<LogRecord>, i: nat): seq<nat>
    requires Chained(recs) && i < |recs|
  {
    assert LinkedAt(recs, i);
    [i] + if recs[i].prevLsn == INVALID_LSN then [] else Walk(recs, recs[i].prevLsn)
  }

  /**
   * Following prev_lsn_ from record i stays in its transaction, goes strictly down,
   * reaches every earlier record of the transaction and ends at its BEGIN.
   */
  lemma {:induction false} WalkExact(recs: seq<LogRecord>, i: nat)
    requires Chained(recs) && i < |recs|
    ensures forall j :: j in Walk(recs, i) <==> 0 <= j <= i && recs[j].tid == recs[i].tid
    ensures forall a, b :: 0 <= a < b < |Walk(recs, i)| ==> Walk(recs, i)[b] < Walk(recs, i)[a]
    ensures var w := Walk(recs, i); recs[w[|w| - 1]].payload.Begin?
    decreases i
  {
    hide Walk, LastBefore;
    assert LinkedAt(recs, i);
    WalkStep(recs, i);
    var w, p := Walk(recs, i), recs[i].prevLsn;
    if p != INVALID_LSN {
      WalkExact(recs, p);
      var tail := Walk(recs, p);
      forall a, b | 0 <= a < b < |w| ensures w[b] < w[a] { assert w[b] == tail[b - 1] && tail[b - 1] in tail; }
      forall j ensures j in w <==> 0 <= j <= i && recs[j].tid == recs[i].tid { assert j in w <==> j == i || j in tail; }
    }
  }

  lemma {:induction false} WalkStep(recs: seq<LogRecord>, i: nat)
    requires Chained(recs) && i < |recs|
    ensures LinkedAt(recs, i)
    ensures Walk(recs, i) == [i] + if recs[i].prevLsn == INVALID_LSN then [] else Walk(recs, recs[i].prevLsn)
  {}

  // ---------- the protocol that writes the log ----------

  datatype Phase = Running | Committing | Aborting | Ended

  /** prevLsn as the transaction object has it; pending is the local number between two page records. */
  datatype TxnLog = TxnLog(prevLsn: int, pending: int, phase: Phase)

  datatype LogState = LogState(log: seq<LogRecord>, txns: map<int, TxnLog>)

  datatype Step =
    | BeginTxn(tid: int)
    | UpdatePage(tid: int, page: Payload)
    | SlotPage(tid: int, page: Payload)
    | HeaderPage(tid: int, page: Payload)
    | TupleWrite(tid: int, row: Payload)
    | CommitTxn(tid: int)
    | AbortTxn(tid: int)
    | UndoneWrite(tid: int, undoNext: int)
    | EndTxn(tid: int)

  function Init(): LogState { LogState([], map[]) }

  /** When a transaction can write the record: after its BEGIN, not between its two page records, not after its END. */
  predicate Enabled(s: LogState, step: Step) {
    if step.BeginTxn? then step.tid !in s.txns
    else
      && step.tid in s.txns
      && (step.HeaderPage? <==> s.txns[step.tid].pending != INVALID_LSN)
      && var phase := s.txns[step.tid].phase;
      match step
      case UpdatePage(_, page) => page.PageSet? && (phase == Running || phase == Aborting)
      case SlotPage(_, page) => page.PageSet? && (phase == Running || phase == Aborting)
      case HeaderPage(_, page) => page.PageSet? && (phase == Running || phase == Aborting)
      case TupleWrite(_, row) => row.IsTuple() && phase == Running
      case CommitTxn(_) => phase == Running
      case AbortTxn(_) => phase == Running
      case UndoneWrite(_, _) => phase == Aborting
      case EndTxn(_) => phase == Committing || phase == Aborting
  }

  function PayloadOf(step: Step): Payload {
    match step
    case BeginTxn(_) => Begin
    case UpdatePage(_, page) => page
    case SlotPage(_, page) => page
    case HeaderPage(_, page) => page
    case TupleWrite(_, row) => row
    case CommitTxn(_) => Commit
    case AbortTxn(_) => Abort
    case UndoneWrite(_, undoNext) => UndoNext(undoNext)
    case EndTxn(_) => End
  }

  /** The record a step appends: linked through pending for the header page, through prevLsn otherwise. */
  function RecordOf(s: LogState, step: Step): LogRecord
    requires Enabled(s, step)
  {
    var prev := if step.BeginTxn? then INVALID_LSN
                else if step.HeaderPage? then s.txns[step.tid].pending
                else s.txns[step.tid].prevLsn;
    LogRecord(|s.log|, step.tid, prev, PayloadOf(step))
  }

  /** What the step leaves in the transaction object. */
  function TxnAfter(s: LogState, step: Step): TxnLog
    requires Enabled(s, step)
  {
    var lsn := |s.log|;
    match step
    case BeginTxn(_) => TxnLog(lsn, INVALID_LSN, Running)
    case SlotPage(t, _) => s.txns[t].(pending := lsn)
    case HeaderPage(t, _) => s.txns[t].(prevLsn := lsn, pending := INVALID_LSN)
    case CommitTxn(t) => s.txns[t].(prevLsn := lsn, phase := Committing)
    case AbortTxn(t) => s.txns[t].(prevLsn := lsn, phase := Aborting)
    case EndTxn(t) => s.txns[t].(phase := Ended)
    case _ => s.txns[step.tid].(prevLsn := lsn)
  }

  function Apply(s: LogState, step: Step): LogState
    requires Enabled(s, step)
  {
    LogState(s.log + [RecordOf(s, step)], s.txns[step.tid := TxnAfter(s, step)])
  }

  ghost predicate CanRun(s: LogState, steps: seq<Step>)
    decreases |steps|
  {
    steps == [] || (Enabled(s, steps[0]) && CanRun(Apply(s, steps[0]), steps[1..]))
  }

  ghost function Run(s: LogState, steps: seq<Step>): LogState
    requires CanRun(s, steps)
    decreases |steps|
  {
    if steps == [] then s else Run(Apply(s, steps[0]), steps[1..])
  }

  // ---------- what recovery reads off the log ----------

  /** The latest of the first n records of t that is not an UNDO_NEXT, or -1. */
  ghost function LastActive(recs: seq<LogRecord>, n: nat, t: int): (i: int)
    requires n <= |recs|
    ensures -1 <= i < n && (i >= 0 ==> recs[i].tid == t && !recs[i].payload.UndoNext?)
    ensures forall j :: i < j < n && recs[j].tid == t ==> recs[j].payload.UndoNext?
  {
    if n == 0 then -1 else if recs[n - 1].tid == t && !recs[n - 1].payload.UndoNext? then n - 1 else LastActive(recs, n - 1, t)
  }

  predicate IsMarker(p: Payload) { p.Begin? || p.Commit? || p.Abort? || p.End? }

  /** The latest of the first n records of t that is a BEGIN, COMMIT, ABORT or END, or -1. */
  ghost function LastMarker(recs: seq<LogRecord>, n: nat, t: int): (i: int)
    requires n <= |recs|
    ensures -1 <= i < n && (i >= 0 ==> recs[i].tid == t && IsMarker(recs[i].payload))
  {
    if n == 0 then -1 else if recs[n - 1].tid == t && IsMarker(recs[n - 1].payload) then n - 1 else LastMarker(recs, n - 1, t)
  }

  function MarkOf(phase: Phase): Payload {
    match phase
    case Running => Begin
    case Committing => Commit
    case Aborting => Abort
    case Ended => End
  }

  // ---------- the invariant ----------

  /** What the log says of a transaction agrees with its state. */
  ghost predicate TxnOK(s: LogState, t: int) {
    var n := |s.log|;
    if t !in s.txns then LastBefore(s.log, n, t) == -1 && LastActive(s.log, n, t) == -1 && LastMarker(s.log, n, t) == -1
    else
      var x := s.txns[t];
      && LastMarker(s.log, n, t) >= 0 && s.log[LastMarker(s.log, n, t)].payload == MarkOf(x.phase)
      && LastActive(s.log, n, t) >= 0 && (s.log[LastActive(s.log, n, t)].payload.End? <==> x.phase == Ended)
      && LastBefore(s.log, n, t) >= 0
      && x.prevLsn >= 0 && x.pending >= -1
      && (x.phase != Ended ==> LastBefore(s.log, n, t) == if x.pending != INVALID_LSN then x.pending else x.prevLsn)
  }

  ghost predicate Inv(s: LogState) {
    Chained(s.log) && forall t :: TxnOK(s, t)
  }

  lemma {:induction false} PrefixBefore(recs: seq<LogRecord>, rec: LogRecord, n: nat, t: int)
    requires n <= |recs|
    ensures LastBefore(recs + [rec], n, t) == LastBefore(recs, n, t)
  {
    if n > 0 {
      assert (recs + [rec])[n - 1] == recs[n - 1];
      PrefixBefore(recs, rec, n - 1, t);
    }
  }

  lemma {:induction false} PrefixActive(recs: seq<LogRecord>, rec: LogRecord, n: nat, t: int)
    requires n <= |recs|
    ensures LastActive(recs + [rec], n, t) == LastActive(recs, n, t)
  {
    if n > 0 {
      assert (recs + [rec])[n - 1] == recs[n - 1];
      PrefixActive(recs, rec, n - 1, t);
    }
  }

  lemma {:induction false} PrefixMarker(recs: seq<LogRecord>, rec: LogRecord, n: nat, t: int)
    requires n <= |recs|
    ensures LastMarker(recs + [rec], n, t) == LastMarker(recs, n, t)
  {
    if n > 0 {
      assert (recs + [rec])[n - 1] == recs[n - 1];
      PrefixMarker(recs, rec, n - 1, t);
    }
  }

  lemma {:induction false} AppendChained(recs: seq<LogRecord>, rec: LogRecord)
    requires Chained(recs) && rec.lsn == |recs| && rec.prevLsn == LastBefore(recs, |recs|, rec.tid)
    requires rec.payload.Begin? <==> rec.prevLsn == INVALID_LSN
    ensures Chained(recs + [rec])
  {
    var recs' := recs + [rec];
    forall i | 0 <= i < |recs'| ensures LinkedAt(recs', i) {
      PrefixBefore(recs, rec, i, recs'[i].tid);
      assert i < |recs| ==> LinkedAt(recs, i);
    }
  }

  /** What one more record does to the three lookups. */
  lemma {:induction false} Grown(recs: seq<LogRecord>, rec: LogRecord, t: int)
    ensures var (n, recs') := (|recs|, recs + [rec]);
            && LastBefore(recs', n + 1, t) == (if rec.tid == t then n else LastBefore(recs, n, t))
            && LastActive(recs', n + 1, t) == (if rec.tid == t && !rec.payload.UndoNext? then n else LastActive(recs, n, t))
            && LastMarker(recs', n + 1, t) == (if rec.tid == t && IsMarker(rec.payload) then n else LastMarker(recs, n, t))
  {
    PrefixBefore(recs, rec, |recs|, t);
    PrefixActive(recs, rec, |recs|, t);
    PrefixMarker(recs, rec, |recs|, t);
  }

  lemma {:induction false} StepOther(s: LogState, step: Step, t: int)
    requires Enabled(s, step) && TxnOK(s, t) && t != step.tid
    ensures TxnOK(Apply(s, step), t)
  {
    hide LastBefore, LastActive, LastMarker, TxnAfter;
    Grown(s.log, RecordOf(s, step), t);
  }

  lemma {:induction false} StepOwn(s: LogState, step: Step)
    requires Enabled(s, step) && TxnOK(s, step.tid)
    ensures TxnOK(Apply(s, step), step.tid)
  {
    hide LastBefore, LastActive, LastMarker;
    Grown(s.log, RecordOf(s, step), step.tid);
  }

  lemma {:induction false} StepKeeps(s: LogState, step: Step)
    requires Inv(s) && Enabled(s, step)
    ensures Inv(Apply(s, step))
  {
    assert TxnOK(s, step.tid);
    AppendChained(s.log, RecordOf(s, step));
    var s' := Apply(s, step);
    forall t ensures TxnOK(s', t) {
      assert TxnOK(s, t);
      if t == step.tid { StepOwn(s, step); } else { StepOther(s, step, t); }
    }
  }

  /** In every interleaving, every log is linked and agrees with the transactions. */
  lemma {:induction false} RunInv(s: LogState, steps: seq<Step>)
    requires Inv(s) && CanRun(s, steps)
    ensures Inv(Run(s, steps)) && |Run(s, steps).log| == |s.log| + |steps|
    decreases |steps|
  {
    if steps != [] { StepKeeps(s, steps[0]); RunInv(Apply(s, steps[0]), steps[1..]); }
  }

  lemma {:induction false} EveryLogChained(steps: seq<Step>)
    requires CanRun(Init(), steps)
    ensures Inv(Run(Init(), steps)) && |Run(Init(), steps).log| == |steps|
  {
    RunInv(Init(), steps);
  }

  /** Each step writes one record, so the first n records are the log of the first n steps. */
  lemma {:induction false} PrefixRun(s: LogState, steps: seq<Step>, n: nat)
    requires CanRun(s, steps) && n <= |steps|
    ensures CanRun(s, steps[..n]) && |Run(s, steps).log| == |s.log| + |steps|
    ensures Run(s, steps[..n]).log == Run(s, steps).log[..|s.log| + n]
    decreases |steps|
  {
    if steps == [] {
      assert s.log[..|s.log|] == s.log;
    } else {
      var s' := Apply(s, steps[0]);
      PrefixRun(s', steps[1..], if n == 0 then 0 else n - 1);
      if n == 0 {
        PrefixKept(s', steps[1..]);
        assert steps[..0] == [];
        assert Run(s, steps).log[..|s.log|] == s'.log[..|s.log|] == s.log;
      } else {
        assert steps[..n][0] == steps[0] && steps[..n][1..] == steps[1..][..n - 1];
      }
    }
  }

  lemma {:induction false} PrefixKept(s: LogState, steps: seq<Step>)
    requires CanRun(s, steps)
    ensures s.log <= Run(s, steps).log
    decreases |steps|
  {
    if steps != [] { PrefixKept(Apply(s, steps[0]), steps[1..]); }
  }
}
