/**
  Any number of transactions over the lock manager, one atomic step at a time.

  A transaction locks tables, reads under S or X, writes under X, and gives its locks back one by one
  when it commits or aborts.  `held` are the locks it really holds; `locks` is its own lock set, which
  `unlock` does not shrink.
*/
module Serializability {
  import opened Seqs
  import opened Locks

  /** One table access; id is its place in the history. */
  datatype Event = Event(id: nat, txn: int, fd: int, write: bool)

  datatype Phase = Running | Releasing | Done

  datatype Txn = Txn(locks: set<int>, held: set<int>, xheld: set<int>, phase: Phase)

  /** order lists the transactions that began to release, earliest first. */
  datatype State = State(table: LockTable, txns: map<int, Txn>, order: seq<int>, history: seq<Event>)

  datatype Step =
    | Begin(t: int)
    | LockS(t: int, fd: int)
    | LockX(t: int, fd: int)
    | Access(t: int, fd: int, write: bool)
    | StartRelease(t: int)
    | Release(t: int, fd: int)
    | Finish(t: int)

  ghost predicate IsRunning(s: State, t: int) { t in s.txns && s.txns[t].phase == Running }

  /** When a step can happen: what the callers of the lock manager keep to. */
  ghost predicate Enabled(s: State, step: Step) {
    match step
    case Begin(t) => t !in s.txns
    case LockS(t, _) => IsRunning(s, t)
    case LockX(t, fd) => IsRunning(s, t) && (fd in s.txns[t].locks ==> fd in s.table)
    case Access(t, fd, write) => IsRunning(s, t) && (if write then fd in s.txns[t].xheld else fd in s.txns[t].locks)
    case StartRelease(t) => IsRunning(s, t)
    case Release(t, fd) => t in s.txns && s.txns[t].phase == Releasing && fd in s.txns[t].held
    case Finish(t) => t in s.txns && s.txns[t].phase == Releasing && s.txns[t].held == {}
  }

  ghost function Apply(s: State, step: Step): State
    requires Enabled(s, step)
  {
    match step
    case Begin(t) => s.(txns := s.txns[t := Txn({}, {}, {}, Running)])
    case LockS(t, fd) =>
      var x := s.txns[t];
      var r := SharedRequest(s.table, x.locks, fd);
      s.(table := r.table, txns := s.txns[t := x.(locks := r.locks, held := if r.granted then x.held + {fd} else x.held)])
    case LockX(t, fd) =>
      var x := s.txns[t];
      var r := ExclusiveRequest(s.table, x.locks, fd);
      s.(table := r.table,
         txns := s.txns[t := x.(locks := r.locks, held := if r.granted then x.held + {fd} else x.held,
                                xheld := if r.granted then x.xheld + {fd} else x.xheld)])
    case Access(t, fd, write) => s.(history := s.history + [Event(|s.history|, t, fd, write)])
    case StartRelease(t) => s.(txns := s.txns[t := s.txns[t].(phase := Releasing)], order := s.order + [t])
    case Release(t, fd) =>
      var x := s.txns[t];
      s.(table := Unlocked(s.table, fd), txns := s.txns[t := x.(held := x.held - {fd}, xheld := x.xheld - {fd})])
    case Finish(t) => s.(txns := s.txns[t := s.txns[t].(locks := {}, phase := Done)])
  }

  ghost function Init(): State { State(map[], map[], [], []) }

  // ---------- the invariant ----------

  ghost function Holders(s: State, fd: int): set<int> {
    set t | t in s.txns && fd in s.txns[t].held
  }

  /** Mode X: exactly one holder; mode S: shared_num holders, at least one; no entry: no holder. */
  ghost predicate TableOK(s: State) {
    forall fd :: EntryOK(s.table, fd, Holders(s, fd))
  }

  ghost predicate TxnOK(s: State, t: int)
    requires t in s.txns
  {
    var x := s.txns[t];
    && x.xheld <= x.held <= x.locks
    && (x.phase == Running ==> x.locks == x.held)
    && (x.phase == Done ==> x.held == {})
    && (forall fd :: fd in x.xheld ==> fd in s.table && s.table[fd].mode == X)
    && (t in s.order <==> x.phase != Running)
  }

  ghost predicate TxnsOK(s: State) {
    && (forall t :: t in s.txns ==> TxnOK(s, t))
    && (forall t :: t in s.order ==> t in s.txns)
    && (forall i, j :: 0 <= i < j < |s.order| ==> s.order[i] != s.order[j])
  }

  /** A transaction that is still running still holds the lock of everything it accessed. */
  ghost predicate EventsOK(s: State) {
    forall i :: 0 <= i < |s.history| ==> EventOK(s, s.history[i], i)
  }

  ghost predicate EventOK(s: State, e: Event, i: int) {
    && e.id == i
    && e.txn in s.txns
    && (s.txns[e.txn].phase == Running ==> e.fd in s.txns[e.txn].held && (e.write ==> e.fd in s.txns[e.txn].xheld))
  }

  ghost predicate Conflict(a: Event, b: Event) {
    a.txn != b.txn && a.fd == b.fd && (a.write || b.write)
  }

  /** Place of a transaction in the release order; behind everyone while it has not released. */
  ghost function Rank(order: seq<int>, t: int): nat {
    if order == [] then 0 else if order[0] == t then 0 else 1 + Rank(order[1..], t)
  }

  /** Every conflict edge goes from an earlier releaser to a later one. */
  ghost predicate EdgesUp(order: seq<int>, h: seq<Event>) {
    forall i, j :: 0 <= i < j < |h| && Conflict(h[i], h[j]) ==>
      h[i].txn in order && Rank(order, h[i].txn) < Rank(order, h[j].txn)
  }

  ghost predicate Inv(s: State) {
    TableOK(s) && TxnsOK(s) && EventsOK(s) && EdgesUp(s.order, s.history)
  }

  // ---------- every step keeps the table ----------

  /** One request against one entry. */
  lemma {:induction false} SharedEntry(table: LockTable, locks: set<int>, fd: int, g: int, h: set<int>, t: int)
    requires EntryOK(table, g, h) && (g in locks <==> t in h)
    ensures var r := SharedRequest(table, locks, fd);
            EntryOK(r.table, g, if g == fd && r.granted then h + {t} else h)
  {
    if t in h { assert h + {t} == h; }
  }

  lemma {:induction false} ExclusiveEntry(table: LockTable, locks: set<int>, fd: int, g: int, h: set<int>, t: int)
    requires EntryOK(table, g, h) && (g in locks <==> t in h) && (fd in locks ==> fd in table)
    ensures var r := ExclusiveRequest(table, locks, fd);
            && EntryOK(r.table, g, if g == fd && r.granted then h + {t} else h)
            && (g == fd && r.granted ==> h <= {t} && g in r.table && r.table[g].mode == X)
            && (g != fd ==> (g in r.table <==> g in table) && (g in table ==> r.table[g] == table[g]))
  {
    if t in h {
      assert h + {t} == h;
      if |h| == 1 { SoleHolder(h, t); }
    }
  }

  lemma {:induction false} UnlockEntry(table: LockTable, fd: int, g: int, h: set<int>, t: int)
    requires EntryOK(table, g, h) && (g == fd ==> t in h)
    ensures EntryOK(Unlocked(table, fd), g, if g == fd then h - {t} else h)
  {
    if g == fd { SoleHolderIf(h, t); }
  }

  /** Replacing one transaction's record: who holds what afterwards. */
  lemma {:induction false} HeldBy(s: State, s': State, t: int, g: int)
    requires t in s.txns && t in s'.txns && s'.txns == s.txns[t := s'.txns[t]]
    ensures Holders(s', g) == if g in s'.txns[t].held then Holders(s, g) + {t} else Holders(s, g) - {t}
    ensures t in Holders(s, g) <==> g in s.txns[t].held
    ensures g in s.txns[t].held ==> Holders(s, g) + {t} == Holders(s, g)
    ensures g !in s.txns[t].held ==> Holders(s, g) - {t} == Holders(s, g)
  {}

  lemma {:induction false} SharedKeeps(s: State, t: int, fd: int)
    requires Inv(s) && Enabled(s, LockS(t, fd))
    ensures TableOK(Apply(s, LockS(t, fd)))
  {
    var s' := Apply(s, LockS(t, fd));
    assert TxnOK(s, t);
    forall g ensures EntryOK(s'.table, g, Holders(s', g)) {
      hide SharedRequest, EntryOK, Holders, EventsOK, EdgesUp;
      HeldBy(s, s', t, g);
      EntryOf(s, g);
      SharedEntry(s.table, s.txns[t].locks, fd, g, Holders(s, g), t);
    }
  }

  lemma {:induction false} EntryOf(s: State, g: int)
    requires TableOK(s)
    ensures EntryOK(s.table, g, Holders(s, g))
  {}

  lemma {:induction false} ExclusiveKeeps(s: State, t: int, fd: int)
    requires Inv(s) && Enabled(s, LockX(t, fd))
    ensures TableOK(Apply(s, LockX(t, fd)))
  {
    var s' := Apply(s, LockX(t, fd));
    assert TxnOK(s, t);
    forall g ensures EntryOK(s'.table, g, Holders(s', g)) {
      hide ExclusiveRequest, EntryOK, Holders, EventsOK, EdgesUp;
      HeldBy(s, s', t, g);
      EntryOf(s, g);
      ExclusiveEntry(s.table, s.txns[t].locks, fd, g, Holders(s, g), t);
    }
  }

  lemma {:induction false} ReleaseKeeps(s: State, t: int, fd: int)
    requires Inv(s) && Enabled(s, Release(t, fd))
    ensures TableOK(Apply(s, Release(t, fd)))
  {
    var s' := Apply(s, Release(t, fd));
    forall g ensures EntryOK(s'.table, g, Holders(s', g)) {
      hide Unlocked, EntryOK, Holders, EventsOK, EdgesUp;
      HeldBy(s, s', t, g);
      EntryOf(s, g);
      UnlockEntry(s.table, fd, g, Holders(s, g), t);
    }
  }

  lemma {:induction false} SameHeldKeeps(s: State, s': State)
    requires TableOK(s) && s'.table == s.table
    requires forall fd :: Holders(s', fd) == Holders(s, fd)
    ensures TableOK(s')
  {
    forall fd ensures EntryOK(s'.table, fd, Holders(s', fd)) {
      assert EntryOK(s.table, fd, Holders(s, fd));
    }
  }

  lemma {:induction false} TableKept(s: State, step: Step)
    requires Inv(s) && Enabled(s, step)
    ensures TableOK(Apply(s, step))
  {
    var s' := Apply(s, step);
    match step
    case LockS(t, fd) => SharedKeeps(s, t, fd);
    case LockX(t, fd) => ExclusiveKeeps(s, t, fd);
    case Release(t, fd) => ReleaseKeeps(s, t, fd);
    case _ =>
      forall fd ensures Holders(s', fd) == Holders(s, fd) {}
      SameHeldKeeps(s, s');
  }

  // ---------- every step keeps the transactions ----------

  /** An exclusive lock has no second holder. */
  lemma {:induction false} ExclusiveAlone(s: State, t: int, fd: int, u: int)
    requires TableOK(s) && TxnsOK(s) && t in s.txns && u in s.txns
    requires fd in s.txns[u].xheld && fd in s.txns[t].held
    ensures t == u
  {
    assert TxnOK(s, u) && TxnOK(s, t);
    EntryOf(s, fd);
    assert t in Holders(s, fd) && u in Holders(s, fd);
    SoleHolder(Holders(s, fd), t);
  }

  /** Exclusive entries of other transactions survive a step of t. */
  lemma {:induction false} ModesKept(s: State, step: Step, u: int, fd: int)
    requires Inv(s) && Enabled(s, step) && u in s.txns && fd in s.txns[u].xheld
    requires step.Begin? || u != step.t || !step.Release? || step.fd != fd
    ensures fd in Apply(s, step).table && Apply(s, step).table[fd].mode == X
  {
    assert TxnOK(s, u);
    if step.Release? && step.fd == fd { ExclusiveAlone(s, step.t, fd, u); }
    if step.LockX? && step.fd == fd { assert TxnOK(s, step.t); }
    if step.LockS? && step.fd == fd { assert TxnOK(s, step.t); }
  }

  lemma {:induction false} TxnKept(s: State, step: Step, u: int)
    requires Inv(s) && Enabled(s, step) && u in Apply(s, step).txns
    ensures TxnOK(Apply(s, step), u)
  {
    hide TableOK, EventsOK, EdgesUp;
    var s' := Apply(s, step);
    assert u in s.txns ==> TxnOK(s, u);
    forall fd | fd in s'.txns[u].xheld ensures fd in s'.table && s'.table[fd].mode == X {
      if u in s.txns && fd in s.txns[u].xheld {
        ModesKept(s, step, u, fd);
      } else {
        EntryOf(s, fd);
        ExclusiveEntry(s.table, s.txns[u].locks, fd, fd, Holders(s, fd), u);
      }
    }
    OrderKept(s, step, u);
  }

  lemma {:induction false} OrderKept(s: State, step: Step, u: int)
    requires Inv(s) && Enabled(s, step) && u in Apply(s, step).txns
    ensures u in Apply(s, step).order <==> Apply(s, step).txns[u].phase != Running
  {
    if u in s.txns { assert TxnOK(s, u); } else { assert u !in s.order; }
  }

  lemma {:induction false} TxnsKept(s: State, step: Step)
    requires Inv(s) && Enabled(s, step)
    ensures TxnsOK(Apply(s, step))
  {
    var s' := Apply(s, step);
    forall u | u in s'.txns ensures TxnOK(s', u) { TxnKept(s, step, u); }
    if step.StartRelease? { assert TxnOK(s, step.t); }
  }

  // ---------- every step keeps the history ----------

  lemma {:induction false} EventsKept(s: State, step: Step)
    requires Inv(s) && Enabled(s, step)
    ensures EventsOK(Apply(s, step))
  {
    var s' := Apply(s, step);
    forall i | 0 <= i < |s'.history| ensures EventOK(s', s'.history[i], i) {
      if i < |s.history| {
        assert EventOK(s, s.history[i], i) && s'.history[i] == s.history[i];
        assert TxnOK(s, s.history[i].txn);
      } else {
        assert TxnOK(s, step.t);
      }
    }
  }

  lemma {:induction false} RankAppend(order: seq<int>, x: int, t: int)
    ensures t in order ==> Rank(order + [x], t) == Rank(order, t) < |order|
    ensures t !in order ==> Rank(order, t) == |order|
    ensures t !in order ==> Rank(order + [x], t) == if x == t then |order| else |order| + 1
  {
    if order != [] {
      RankAppend(order[1..], x, t);
      assert (order + [x])[1..] == order[1..] + [x];
    }
  }

  lemma {:induction false} EdgesKept(s: State, step: Step)
    requires Inv(s) && Enabled(s, step)
    ensures EdgesUp(Apply(s, step).order, Apply(s, step).history)
  {
    var s' := Apply(s, step);
    var h := s'.history;
    forall i, j | 0 <= i < j < |h| && Conflict(h[i], h[j])
      ensures h[i].txn in s'.order && Rank(s'.order, h[i].txn) < Rank(s'.order, h[j].txn)
    {
      var a, b := h[i].txn, h[j].txn;
      assert EventOK(s, s.history[i], i) && h[i] == s.history[i];
      if j < |s.history| {
        assert h[j] == s.history[j];
        if step.StartRelease? {
          RankAppend(s.order, step.t, a);
          RankAppend(s.order, step.t, b);
        }
      } else {
        NewEdge(s, step, s.history[i]);
      }
    }
  }

  /** A conflicting earlier access belongs to a transaction that has already begun to release. */
  lemma {:induction false} NewEdge(s: State, step: Step, e: Event)
    requires Inv(s) && Enabled(s, step) && step.Access?
    requires e in s.history && e.fd == step.fd && e.txn != step.t && (e.write || step.write)
    ensures e.txn in s.order && Rank(s.order, e.txn) < Rank(s.order, step.t)
  {
    var i :| 0 <= i < |s.history| && s.history[i] == e;
    assert EventOK(s, s.history[i], i);
    assert TxnOK(s, e.txn) && TxnOK(s, step.t);
    if s.txns[e.txn].phase == Running {
      if e.write { ExclusiveAlone(s, step.t, e.fd, e.txn); } else { ExclusiveAlone(s, e.txn, e.fd, step.t); }
    }
    RankAppend(s.order, 0, e.txn);
    RankAppend(s.order, 0, step.t);
  }

  lemma {:induction false} StepKeeps(s: State, step: Step)
    requires Inv(s) && Enabled(s, step)
    ensures Inv(Apply(s, step))
  {
    hide TableOK, TxnsOK, EventsOK, EdgesUp;
    TableKept(s, step);
    TxnsKept(s, step);
    EventsKept(s, step);
    EdgesKept(s, step);
  }

  // ---------- whole runs ----------

  ghost predicate IsRun(steps: seq<Step>, states: seq<State>) {
    && |states| == |steps| + 1
    && states[0] == Init()
    && forall i :: 0 <= i < |steps| ==> Enabled(states[i], steps[i]) && states[i + 1] == Apply(states[i], steps[i])
  }

  /** The invariant holds at every point of every run. */
  lemma {:induction false} RunInv(steps: seq<Step>, states: seq<State>, n: nat)
    requires IsRun(steps, states) && n < |states|
    ensures Inv(states[n])
  {
    if n == 0 {
      forall fd ensures EntryOK(Init().table, fd, Holders(Init(), fd)) {}
    } else {
      RunInv(steps, states, n - 1);
      StepKeeps(states[n - 1], steps[n - 1]);
    }
  }

  /** A lock request is never blocked by the model itself: its only side condition always holds. */
  lemma {:induction false} RequestsNeverStuck(s: State, t: int, fd: int)
    requires Inv(s) && IsRunning(s, t)
    ensures Enabled(s, LockS(t, fd)) && Enabled(s, LockX(t, fd))
  {
    assert TxnOK(s, t);
    EntryOf(s, fd);
    if fd in s.txns[t].locks { assert t in Holders(s, fd); }
  }

  // ---------- an equivalent serial history ----------

  /** The accesses of one transaction, in order. */
  ghost function TxnPart(h: seq<Event>, t: int): seq<Event> {
    if h == [] then [] else
      var r := TxnPart(h[..|h| - 1], t);
      if h[|h| - 1].txn == t then r + [h[|h| - 1]] else r
  }

  /** The transactions of ts run one after the other, each with its own accesses in their order. */
  ghost function SerialHistory(h: seq<Event>, ts: seq<int>): seq<Event> {
    if ts == [] then [] else SerialHistory(h, ts[..|ts| - 1]) + TxnPart(h, ts[|ts| - 1])
  }

  /** e together with all writes to its table. */
  ghost function View(h: seq<Event>, e: Event): seq<Event> {
    if h == [] then [] else
      var r := View(h[..|h| - 1], e);
      var x := h[|h| - 1];
      if x == e || (x.write && x.fd == e.fd) then r + [x] else r
  }

  lemma {:induction false} ViewAppend(a: seq<Event>, b: seq<Event>, e: Event)
    ensures View(a + b, e) == View(a, e) + View(b, e)
  {
    if b == [] { assert a + b == a; }
    else {
      ViewAppend(a, b[..|b| - 1], e);
      assert (a + b)[..|a + b| - 1] == a + b[..|b| - 1];
    }
  }

  lemma {:induction false} TxnPartAppend(a: seq<Event>, b: seq<Event>, t: int)
    ensures TxnPart(a + b, t) == TxnPart(a, t) + TxnPart(b, t)
  {
    if b == [] { assert a + b == a; }
    else {
      TxnPartAppend(a, b[..|b| - 1], t);
      assert (a + b)[..|a + b| - 1] == a + b[..|b| - 1];
    }
  }

  lemma {:induction false} ViewOfPart(h: seq<Event>, t: int, e: Event)
    ensures View(TxnPart(h, t), e) == TxnPart(View(h, e), t)
  {
    if h != [] {
      var init, x := h[..|h| - 1], h[|h| - 1];
      ViewOfPart(init, t, e);
      ViewAppend(TxnPart(init, t), [x], e);
      TxnPartAppend(View(init, e), [x], t);
      assert [x][..0] == [];
    }
  }

  lemma {:induction false} ViewOfSerial(h: seq<Event>, ts: seq<int>, e: Event)
    ensures View(SerialHistory(h, ts), e) == SerialHistory(View(h, e), ts)
  {
    if ts != [] {
      ViewOfSerial(h, ts[..|ts| - 1], e);
      ViewAppend(SerialHistory(h, ts[..|ts| - 1]), TxnPart(h, ts[|ts| - 1]), e);
      ViewOfPart(h, ts[|ts| - 1], e);
    }
  }

  /** g visits the transactions of ts in the order of ts. */
  ghost predicate Ascending(g: seq<Event>, ts: seq<int>) {
    && (forall i :: 0 <= i < |g| ==> g[i].txn in ts)
    && (forall i, j :: 0 <= i < j < |g| ==> Rank(ts, g[i].txn) <= Rank(ts, g[j].txn))
  }

  lemma {:induction false} PartAll(g: seq<Event>, t: int)
    requires forall i :: 0 <= i < |g| ==> g[i].txn == t
    ensures TxnPart(g, t) == g
  {
    if g != [] { PartAll(g[..|g| - 1], t); }
  }

  lemma {:induction false} PartNone(g: seq<Event>, t: int)
    requires forall i :: 0 <= i < |g| ==> g[i].txn != t
    ensures TxnPart(g, t) == []
  {
    if g != [] { PartNone(g[..|g| - 1], t); }
  }

  lemma {:induction false} SerialDrop(a: seq<Event>, b: seq<Event>, ts: seq<int>)
    requires forall i :: 0 <= i < |b| ==> b[i].txn !in ts
    ensures SerialHistory(a + b, ts) == SerialHistory(a, ts)
  {
    if ts != [] {
      SerialDrop(a, b, ts[..|ts| - 1]);
      TxnPartAppend(a, b, ts[|ts| - 1]);
      PartNone(b, ts[|ts| - 1]);
    }
  }

  /** An ascending sequence is its own serial history. */
  lemma {:induction false} AscendingIsSerial(g: seq<Event>, ts: seq<int>)
    requires Ascending(g, ts) && NoDup(ts)
    ensures SerialHistory(g, ts) == g
    decreases |ts|
  {
    hide TxnPart, Rank, Ascending, NoDup;
    if ts == [] {
      AscendingNone(g, ts);
    } else {
      var ts', t := ts[..|ts| - 1], ts[|ts| - 1];
      assert ts == ts' + [t];
      var n := SplitPoint(g, ts', t);
      var a, b := g[..n], g[n..];
      assert g == a + b;
      AscendingFront(g, ts', t, n);
      AscendingIsSerial(a, ts');
      SerialDrop(a, b, ts');
      TxnPartAppend(a, b, t);
      PartNone(a, t);
      PartAll(b, t);
    }
  }

  lemma {:induction false} AscendingNone(g: seq<Event>, ts: seq<int>)
    requires Ascending(g, ts)
    ensures ts == [] ==> g == []
  {
    if g != [] { assert g[0].txn in ts; }
  }

  lemma {:induction false} AscendingFront(g: seq<Event>, ts: seq<int>, t: int, n: nat)
    requires Ascending(g, ts + [t]) && NoDup(ts + [t]) && n <= |g| && forall i :: 0 <= i < n ==> g[i].txn in ts
    ensures Ascending(g[..n], ts) && NoDup(ts) && forall i :: 0 <= i < n ==> g[i].txn != t
  {
    hide Rank;
    forall k, l | 0 <= k < l < |ts| ensures ts[k] != ts[l] { assert (ts + [t])[k] != (ts + [t])[l]; }
    forall k | 0 <= k < |ts| ensures ts[k] != t { assert (ts + [t])[k] != (ts + [t])[|ts|]; }
    forall i, j | 0 <= i < j < n ensures Rank(ts, g[i].txn) <= Rank(ts, g[j].txn) {
      RankAppend(ts, t, g[i].txn);
      RankAppend(ts, t, g[j].txn);
    }
  }

  /** The accesses of the last transaction form a suffix. */
  lemma {:induction false} SplitPoint(g: seq<Event>, ts: seq<int>, t: int) returns (n: nat)
    requires Ascending(g, ts + [t]) && NoDup(ts + [t])
    ensures n <= |g|
    ensures forall i :: 0 <= i < n ==> g[i].txn in ts
    ensures forall i :: n <= i < |g| ==> g[i].txn == t && g[i].txn !in ts
  {
    n := |g|;
    forall k | 0 <= k < |ts| ensures ts[k] != t {
      assert (ts + [t])[k] != (ts + [t])[|ts|];
    }
    while n > 0 && g[n - 1].txn == t
      invariant 0 <= n <= |g|
      invariant forall i :: n <= i < |g| ==> g[i].txn == t
    {
      n := n - 1;
    }
    if n > 0 {
      assert g[n - 1].txn in ts;
      forall i | 0 <= i < n ensures g[i].txn in ts {
        RankAppend(ts, t, g[i].txn);
        RankAppend(ts, t, g[n - 1].txn);
        if i < n - 1 { assert Rank(ts + [t], g[i].txn) <= Rank(ts + [t], g[n - 1].txn); }
      }
    }
  }

  lemma {:induction false} RankPrefix(order: seq<int>, ts: seq<int>, a: int, b: int)
    requires order <= ts && a in order && Rank(order, a) < Rank(order, b)
    ensures Rank(ts, a) < Rank(ts, b)
    decreases |ts|
  {
    if order[0] == a {
      assert ts[0] == a;
    } else {
      assert order[0] != b;
      RankPrefix(order[1..], ts[1..], a, b);
    }
  }

  /** The members of a view: the access itself, and writes to its table, in history order. */
  lemma {:induction false} ViewMembers(h: seq<Event>, e: Event)
    ensures forall i :: 0 <= i < |View(h, e)| ==>
              && View(h, e)[i] in h
              && (View(h, e)[i] == e || (View(h, e)[i].write && View(h, e)[i].fd == e.fd))
  {
    if h != [] {
      ViewMembers(h[..|h| - 1], e);
      assert h == h[..|h| - 1] + [h[|h| - 1]];
    }
  }

  lemma {:induction false} ViewOrdered(h: seq<Event>, e: Event)
    requires forall i :: 0 <= i < |h| ==> h[i].id == i
    ensures forall i, j :: 0 <= i < j < |View(h, e)| ==> View(h, e)[i].id < View(h, e)[j].id
  {
    if h != [] {
      var init := h[..|h| - 1];
      ViewOrdered(init, e);
      ViewMembers(init, e);
    }
  }

  lemma {:induction false} ViewAscending(h: seq<Event>, order: seq<int>, ts: seq<int>, e: Event)
    requires forall i :: 0 <= i < |h| ==> h[i].id == i && h[i].txn in ts
    requires EdgesUp(order, h) && order <= ts && e in h
    ensures Ascending(View(h, e), ts)
  {
    var v := View(h, e);
    ViewMembers(h, e);
    ViewOrdered(h, e);
    forall i, j | 0 <= i < j < |v| ensures Rank(ts, v[i].txn) <= Rank(ts, v[j].txn) {
      var a, b := v[i], v[j];
      assert h[a.id] == a && h[b.id] == b;
      if a.txn != b.txn {
        assert Conflict(h[a.id], h[b.id]);
        RankPrefix(order, ts, a.txn, b.txn);
      }
    }
  }

  /** Conflict serializability of every run.  For any completion ts of the release order, running the
      transactions one after the other in that order shows every access exactly the same writes to its
      table, in the same order, before and after it. */
  lemma {:induction false} EveryRunSerializable(steps: seq<Step>, states: seq<State>, n: nat, ts: seq<int>, e: Event)
    requires IsRun(steps, states) && n < |states|
    requires states[n].order <= ts && NoDup(ts)
    requires forall i :: 0 <= i < |states[n].history| ==> states[n].history[i].txn in ts
    requires e in states[n].history
    ensures View(SerialHistory(states[n].history, ts), e) == View(states[n].history, e)
  {
    var s := states[n];
    RunInv(steps, states, n);
    forall i | 0 <= i < |s.history| ensures s.history[i].id == i { assert EventOK(s, s.history[i], i); }
    ViewAscending(s.history, s.order, ts, e);
    AscendingIsSerial(View(s.history, e), ts);
    ViewOfSerial(s.history, ts, e);
  }

  /** The serial history keeps each transaction's own accesses, in its own order. */
  lemma {:induction false} SerialKeepsPrograms(h: seq<Event>, ts: seq<int>, t: int)
    requires NoDup(ts)
    ensures TxnPart(SerialHistory(h, ts), t) == if t in ts then TxnPart(h, t) else []
  {
    if ts != [] {
      var ts', u := ts[..|ts| - 1], ts[|ts| - 1];
      assert ts == ts' + [u];
      SerialKeepsPrograms(h, ts', t);
      TxnPartAppend(SerialHistory(h, ts'), TxnPart(h, u), t);
      PartOfPart(h, u, t);
    }
  }

  lemma {:induction false} PartOfPart(h: seq<Event>, u: int, t: int)
    ensures TxnPart(TxnPart(h, u), t) == if u == t then TxnPart(h, t) else []
  {
    if h != [] {
      var init, x := h[..|h| - 1], h[|h| - 1];
      PartOfPart(init, u, t);
      TxnPartAppend(TxnPart(init, u), [x], t);
      assert [x][..0] == [];
    }
  }
}
