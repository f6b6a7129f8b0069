/**
  The log protocol under the table locks: tuple records are written under the exclusive lock of their table,
  and locks are given back only after the END record.
*/
module LockedLog {
  import opened Defs
  import opened LogRecords
  import opened LogManager
  import opened LogChain
  import opened Recovery
  import opened HeapFile
  import opened TableRecovery
  import Locks
  import L = Serializability
  import A = Abort

  datatype Both = Both(locks: L.State, log: LogState)

  datatype Act = OnLocks(lockStep: L.Step) | OnLog(logStep: Step)

  /** The file descriptor of a table's data file, which is what is locked. */
  type FdOf = seq<Byte> -> int

  ghost predicate CanDo(s: Both, act: Act, fd: FdOf) {
    match act
    case OnLocks(step) =>
      && L.Enabled(s.locks, step)
      && (step.StartRelease? ==> step.t in s.log.txns && s.log.txns[step.t].phase == Ended)
    case OnLog(step) =>
      && Enabled(s.log, step)
      && (step.TupleWrite? ==> step.tid in s.locks.txns && fd(step.row.table) in s.locks.txns[step.tid].xheld)
  }

  ghost function Do(s: Both, act: Act, fd: FdOf): Both
    requires CanDo(s, act, fd)
  {
    match act
    case OnLocks(step) => s.(locks := L.Apply(s.locks, step))
    case OnLog(step) => s.(log := Apply(s.log, step))
  }

  // ---------- the invariant ----------

  ghost predicate Unended(s: LogState, t: int) { t in s.txns && s.txns[t].phase != Ended }

  /** A transaction that gives locks back has ended its log. */
  ghost predicate EndedFirst(s: Both, t: int) {
    t in s.locks.txns && s.locks.txns[t].phase != L.Running ==> t in s.log.txns && s.log.txns[t].phase == Ended
  }

  /** What an unended transaction has written is exclusively locked by it. */
  ghost predicate WrittenLocked(s: Both, fd: FdOf, t: int, table: seq<Byte>) {
    Unended(s.log, t) && Writes(s.log.log, |s.log.log|, t, table) != [] ==> t in s.locks.txns && fd(table) in s.locks.txns[t].xheld
  }

  ghost predicate Coupled(s: Both, fd: FdOf) {
    && L.Inv(s.locks) && Inv(s.log)
    && (forall t :: EndedFirst(s, t))
    && (forall t, table :: WrittenLocked(s, fd, t, table))
  }

  lemma {:induction false} NoRecordsNoWrites(recs: seq<LogRecord>, n: nat, t: int, table: seq<Byte>)
    requires n <= |recs| && LastBefore(recs, n, t) == -1
    ensures Writes(recs, n, t, table) == []
  {
    if n > 0 { NoRecordsNoWrites(recs, n - 1, t, table); }
  }

  /** A lock step takes an exclusive lock away only from a transaction that is releasing. */
  lemma {:induction false} LocksStay(s: L.State, step: L.Step, t: int, f: int)
    requires L.Enabled(s, step) && t in s.txns && f in s.txns[t].xheld && s.txns[t].phase == L.Running
    ensures t in L.Apply(s, step).txns && f in L.Apply(s, step).txns[t].xheld
  {}

  /** Only StartRelease ends the running phase. */
  lemma {:induction false} PhaseStays(s: L.State, step: L.Step, t: int)
    requires L.Enabled(s, step) && t in L.Apply(s, step).txns && L.Apply(s, step).txns[t].phase != L.Running
    ensures step == L.StartRelease(t) || (t in s.txns && s.txns[t].phase != L.Running)
  {}

  lemma {:induction false} LockStepKeeps(s: Both, step: L.Step, fd: FdOf)
    requires Coupled(s, fd) && CanDo(s, OnLocks(step), fd)
    ensures Coupled(Do(s, OnLocks(step), fd), fd)
  {
    hide L.Inv, Inv, L.Apply, L.Enabled, Writes;
    L.StepKeeps(s.locks, step);
    var s' := Do(s, OnLocks(step), fd);
    forall t ensures EndedFirst(s', t) {
      assert EndedFirst(s, t);
      if t in s'.locks.txns && s'.locks.txns[t].phase != L.Running { PhaseStays(s.locks, step, t); }
    }
    forall t, table ensures WrittenLocked(s', fd, t, table) {
      assert WrittenLocked(s, fd, t, table) && EndedFirst(s, t);
      if Unended(s.log, t) && Writes(s.log.log, |s.log.log|, t, table) != [] { LocksStay(s.locks, step, t, fd(table)); }
    }
  }

  lemma {:induction false} LogStepKeeps(s: Both, step: Step, fd: FdOf)
    requires Coupled(s, fd) && CanDo(s, OnLog(step), fd)
    ensures Coupled(Do(s, OnLog(step), fd), fd)
  {
    hide L.Inv, Inv, Writes;
    StepKeeps(s.log, step);
    var s' := Do(s, OnLog(step), fd);
    forall t ensures EndedFirst(s', t) { assert EndedFirst(s, t); }
    forall t, table ensures WrittenLocked(s', fd, t, table) {
      assert WrittenLocked(s, fd, t, table);
      AppendWrites(s.log, step, t, table);
      if t !in s.log.txns {
        NewTxnClean(s.log, t);
        NoRecordsNoWrites(s.log.log, |s.log.log|, t, table);
      }
    }
  }

  lemma {:induction false} NewTxnClean(s: LogState, t: int)
    requires Inv(s) && t !in s.txns
    ensures LastBefore(s.log, |s.log|, t) == -1
  {
    assert TxnOK(s, t);
  }

  // ---------- runs ----------

  ghost predicate IsRun(acts: seq<Act>, states: seq<Both>, fd: FdOf) {
    && |states| == |acts| + 1
    && states[0] == Both(L.Init(), Init())
    && (forall i :: 0 <= i < |acts| ==> CanDo(states[i], acts[i], fd) && states[i + 1] == Do(states[i], acts[i], fd))
  }

  /** The log steps of a run. */
  ghost function LogSteps(acts: seq<Act>): seq<Step> {
    if acts == [] then []
    else
      var n := |acts| - 1;
      LogSteps(acts[..n]) + if acts[n].OnLog? then [acts[n].logStep] else []
  }

  lemma {:induction false} RunCoupled(acts: seq<Act>, states: seq<Both>, fd: FdOf, n: nat)
    requires IsRun(acts, states, fd) && n <= |acts|
    ensures Coupled(states[n], fd)
  {
    if n == 0 {
      forall f ensures Locks.EntryOK(L.Init().table, f, L.Holders(L.Init(), f)) {}
      EmptyInv();
    } else {
      RunCoupled(acts, states, fd, n - 1);
      hide Coupled;
      match acts[n - 1]
      case OnLocks(step) => LockStepKeeps(states[n - 1], step, fd);
      case OnLog(step) => LogStepKeeps(states[n - 1], step, fd);
    }
  }

  lemma {:induction false} EmptyInv()
    ensures Inv(Init())
  {}

  lemma {:induction false} RunSnoc(s: LogState, steps: seq<Step>, step: Step)
    requires CanRun(s, steps) && Enabled(Run(s, steps), step)
    ensures CanRun(s, steps + [step]) && Run(s, steps + [step]) == Apply(Run(s, steps), step)
    decreases |steps|
  {
    var all := steps + [step];
    if steps == [] {
      assert all[1..] == [];
    } else {
      RunSnoc(Apply(s, steps[0]), steps[1..], step);
      assert all[0] == steps[0] && all[1..] == steps[1..] + [step];
    }
  }

  /** The log of a run is the log of its log steps. */
  lemma {:induction false} LogOfRun(acts: seq<Act>, states: seq<Both>, fd: FdOf, n: nat)
    requires IsRun(acts, states, fd) && n <= |acts|
    ensures CanRun(Init(), LogSteps(acts[..n])) && states[n].log == Run(Init(), LogSteps(acts[..n]))
  {
    if n > 0 {
      LogOfRun(acts, states, fd, n - 1);
      assert acts[..n][..n - 1] == acts[..n - 1] && acts[..n][n - 1] == acts[n - 1];
      var before := LogSteps(acts[..n - 1]);
      if acts[n - 1].OnLog? {
        RunSnoc(Init(), before, acts[n - 1].logStep);
      } else {
        assert before + [] == before;
      }
    }
  }

  /** Every prefix of the log steps belongs to a prefix of the run. */
  lemma {:induction false} PrefixOfRun(acts: seq<Act>, k: nat) returns (n: nat)
    requires k <= |LogSteps(acts)|
    ensures n <= |acts| && LogSteps(acts[..n]) == LogSteps(acts)[..k]
  {
    if k == |LogSteps(acts)| {
      n := |acts|;
      assert acts[..n] == acts && LogSteps(acts)[..k] == LogSteps(acts);
    } else {
      var m := |acts| - 1;
      n := PrefixOfRun(acts[..m], k);
      assert acts[..m][..n] == acts[..n] && LogSteps(acts)[..k] == LogSteps(acts[..m])[..k];
    }
  }

  /** In a coupled state, an unended writer of a table is its only unended writer. */
  lemma {:induction false} CoupledOneWriter(s: Both, fd: FdOf, t: int, table: seq<Byte>)
    requires Coupled(s, fd) && Unended(s.log, t) && Writes(s.log.log, |s.log.log|, t, table) != []
    ensures OneWriter(s.log, t, table)
  {
    hide Writes;
    assert WrittenLocked(s, fd, t, table);
    forall u | u in s.log.txns && u != t && s.log.txns[u].phase != Ended
      ensures Writes(s.log.log, |s.log.log|, u, table) == []
    {
      assert WrittenLocked(s, fd, u, table);
      if Writes(s.log.log, |s.log.log|, u, table) != [] { SameHolder(s.locks, fd(table), t, u); }
    }
  }

  lemma {:induction false} SameHolder(s: L.State, f: int, t: int, u: int)
    requires L.Inv(s) && t in s.txns && u in s.txns && f in s.txns[t].xheld && f in s.txns[u].xheld
    ensures t == u
  {
    assert L.TxnOK(s, t);
    L.ExclusiveAlone(s, t, f, u);
  }

  /** At every crash point of every interleaving, an unended writer of a table is its only unended writer. */
  lemma {:induction false} AlwaysOneWriter(acts: seq<Act>, states: seq<Both>, fd: FdOf, k: nat, t: int, table: seq<Byte>)
    requires IsRun(acts, states, fd) && k <= |LogSteps(acts)|
    ensures CanRun(Init(), LogSteps(acts)[..k])
    ensures var s := Run(Init(), LogSteps(acts)[..k]);
            Unended(s, t) && Writes(s.log, |s.log|, t, table) != [] ==> OneWriter(s, t, table)
  {
    hide Coupled, Writes, OneWriter, Unended, CanRun, Run;
    var n := PrefixOfRun(acts, k);
    LogOfRun(acts, states, fd, n);
    RunCoupled(acts, states, fd, n);
    var s := states[n];
    if Unended(s.log, t) && Writes(s.log.log, |s.log.log|, t, table) != [] { CoupledOneWriter(s, fd, t, table); }
  }

  /** Recovery of a table after a crash at any point of any interleaving that keeps to the locks. */
  method RecoverCrashed(disk: seq<Byte>, file: RmFileHandle, table: seq<Byte>, zero: Record, ghost acts: seq<Act>, ghost states: seq<Both>,
                        ghost fd: FdOf, ghost k: nat, ghost t: int, ghost heaps: seq<A.Heap>)
    returns (r: UndoResult, o: A.UndoOutcome, ghost run: A.UndoRun)
    requires IsRun(acts, states, fd) && k <= |LogSteps(acts)| && CanRun(Init(), LogSteps(acts)[..k])
    requires var s := Run(Init(), LogSteps(acts)[..k]);
             AllFit(s.log) && disk == Concat(s.log) && t in s.txns && s.txns[t].phase == Running
    requires var s := Run(Init(), LogSteps(acts)[..k]); var ws := Writes(s.log, |s.log|, t, table);
             ws != [] && file.Valid() && A.Trace(ws, heaps) && file.Records() == heaps[|ws|] && A.SlotsOf(file, ws)
    modifies file
    ensures var s := Run(Init(), LogSteps(acts)[..k]);
            r.Spins? <==> exists u :: u in s.txns && s.txns[u].phase == Committing
    ensures var s := Run(Init(), LogSteps(acts)[..k]); var ws := Writes(s.log, |s.log|, t, table);
            r.Done? ==>
              && A.RunFrom(ws, run, heaps[|ws|]) && (o == A.Undone <==> run.stop == 0)
              && A.FilesFrom(ws, run, file.recordsPerPage, file.bitmapSize, zero, old(file.State()))
              && (o == A.Undone ==> 0 in run.files && file.State() == run.files[0])
    ensures var s := Run(Init(), LogSteps(acts)[..k]); var ws := Writes(s.log, |s.log|, t, table);
            r.Done? && (A.DeletesUntouched(ws) || A.Homed(ws, run)) ==>
              o == A.Undone && file.Valid() && A.SameRows(file.Records(), heaps[0])
  {
    hide Contents, PagesOK, ChainOK, A.SameRows, A.Wrote, A.DeletesUntouched, A.Homed, A.RunFrom, A.FilesFrom, Writes, Concat, OneWriter, CanRun, Run, IsRun;
    AlwaysOneWriter(acts, states, fd, k, t, table);
    r, o, run := RecoverTable(disk, file, table, zero, LogSteps(acts)[..k], t, heaps);
  }
}
