/** What the executors of a plan return, as opposed to what the plan means. */
module PlanExecution {
  import opened Defs
  import opened Seqs
  import opened Arith
  import opened Values
  import opened Plans
  import opened PlanShapes
  import opened Planner
  import opened PlanMeaning
  import opened NestedLoopJoin

  /** The buffer_size of a join whose left records have this length: as many as fill four pages, but at least 64. */
  function BlockSize(len: nat): (b: nat)
    requires len > 0
    ensures b >= 64 && (b > 64 ==> b * len <= 4 * PAGE_SIZE) && 4 * PAGE_SIZE < (b + 1) * len
  {
    DivBounds(4 * PAGE_SIZE, len);
    MulMonotone(4 * PAGE_SIZE / len + 1, 65, len);
    if 4 * PAGE_SIZE / len > 64 then 4 * PAGE_SIZE / len else 64
  }

  function TupleLen(db: Database, p: Plan): (n: nat)
    requires ValidDb(db) && PlanTyped(db, p)
    ensures n > 0
  {
    match p
    case Scan(t, _) => db[t].len
    case Join(l, r, _) => TupleLen(db, l) + TupleLen(db, r)
  }

  function Block(db: Database, p: Plan): (b: nat)
    requires ValidDb(db) && PlanTyped(db, p)
    ensures b >= 64
  {
    BlockSize(TupleLen(db, p))
  }

  function How(db: Database, cs: seq<Condition>): Match<Tuple>
    requires ValidDb(db) && AllTyped(db, cs)
  {
    Match((x: Tuple, y: Tuple) => x + y, (a: Tuple) => AllHold(db, cs, a))
  }

  /** The rows that the executor tree of a plan emits, in its order. */
  ghost function Emit(db: Database, p: Plan): seq<Tuple>
    requires ValidDb(db) && PlanTyped(db, p)
  {
    match p
    case Scan(t, cs) => ScanRows(db, t, cs, |db[t].rows|)
    case Join(l, r, cs) => Emitted(Emit(db, l), Emit(db, r), Block(db, l), How(db, cs), r.Join?)
  }

  // ---------- building and running the tree ----------

  /** A sequential scan with its filter. */
  method ScanTable(db: Database, t: string, cs: seq<Condition>) returns (rows: seq<Tuple>)
    requires ValidDb(db) && t in db && AllTyped(db, cs)
    ensures rows == ScanRows(db, t, cs, |db[t].rows|)
  {
    rows := [];
    var i := 0;
    while i < |db[t].rows|
      invariant i <= |db[t].rows| && rows == ScanRows(db, t, cs, i)
    {
      var a := map[t := i];
      if AllHold(db, cs, a) { rows := rows + [a]; }
      i := i + 1;
    }
  }

  method Build(db: Database, p: Plan) returns (e: Executor<Tuple>)
    requires ValidDb(db) && PlanTyped(db, p)
    ensures e.Valid() && fresh(e.Repr) && !e.begun && e.all == Emit(db, p) && (e.IsJoin() <==> p.Join?)
    decreases p
  {
    if p.Scan? {
      var rows := ScanTable(db, p.tab, p.conds);
      e := new Executor<Tuple>.Scan(rows);
    } else {
      var left := Build(db, p.left);
      var right := Build(db, p.right);
      e := new Executor<Tuple>.Join(left, right, How(db, p.conds), Block(db, p.left));
    }
  }

  /** Running the executors of a plan emits the rows described above. */
  method RunPlan(db: Database, p: Plan) returns (out: seq<Tuple>)
    requires ValidDb(db) && PlanTyped(db, p)
    ensures out == Emit(db, p)
  {
    var e := Build(db, p);
    out := RunAll(e);
  }

  // ---------- emitted rows against the plan's meaning ----------

  lemma {:induction false} RowSplit(x: Tuple, a: seq<Tuple>, b: seq<Tuple>, how: Match<Tuple>)
    ensures RowJoin(x, a + b, how) == RowJoin(x, a, how) + RowJoin(x, b, how)
  {
    hide Kept;
    if a == [] {
      assert a + b == b;
    } else {
      var y, tail := a[0], a[1..];
      RowSplit(x, tail, b, how);
      RowAssoc(x, y, tail, b, how);
      assert a == [y] + tail;
    }
  }

  lemma {:induction false} RowAssoc(x: Tuple, y: Tuple, a: seq<Tuple>, b: seq<Tuple>, how: Match<Tuple>)
    requires RowJoin(x, a + b, how) == RowJoin(x, a, how) + RowJoin(x, b, how)
    ensures RowJoin(x, [y] + a + b, how) == RowJoin(x, [y] + a, how) + RowJoin(x, b, how)
  {
    hide RowJoin, Kept;
    assert [y] + a + b == [y] + (a + b);
    RowCons(x, y, a + b, how);
    RowCons(x, y, a, how);
  }

  lemma {:induction false} RowCons(x: Tuple, y: Tuple, rs: seq<Tuple>, how: Match<Tuple>)
    ensures RowJoin(x, [y] + rs, how) == Kept(x, y, how) + RowJoin(x, rs, how)
  {
    hide Kept;
    assert ([y] + rs)[1..] == rs;
  }

  lemma {:induction false} RowNone(x: Tuple, how: Match<Tuple>)
    ensures RowJoin(x, [], how) == multiset{}
  {}

  lemma {:induction false} JoinOneRows(db: Database, x: Tuple, rs: seq<Tuple>, cs: seq<Condition>)
    requires ValidDb(db) && AllTyped(db, cs)
    ensures multiset(JoinOne(db, x, rs, cs)) == RowJoin(x, rs, How(db, cs))
  {
    hide ValidDb, AllTyped, AllHold, RowJoin;
    if rs == [] {
      RowNone(x, How(db, cs));
    } else {
      var n := |rs| - 1;
      JoinOneRows(db, x, rs[..n], cs);
      RowSplit(x, rs[..n], [rs[n]], How(db, cs));
      assert rs == rs[..n] + [rs[n]];
      RowOne(x, rs[n], How(db, cs));
    }
  }

  /** The join of rows, as multiset and as nested loop. */
  lemma {:induction false} JoinAllRows(db: Database, ls: seq<Tuple>, rs: seq<Tuple>, cs: seq<Condition>)
    requires ValidDb(db) && AllTyped(db, cs)
    ensures multiset(JoinAll(db, ls, rs, cs)) == JoinRows(ls, rs, How(db, cs))
  {
    hide ValidDb, AllTyped, JoinOne, RowJoin, JoinRows, How;
    JoinNone(rs, How(db, cs));
    if ls != [] {
      var n := |ls| - 1;
      JoinAllRows(db, ls[..n], rs, cs);
      JoinOneRows(db, ls[n], rs, cs);
      JoinLeftSplit(ls[..n], [ls[n]], rs, How(db, cs));
      assert ls == ls[..n] + [ls[n]];
      JoinCons(ls[n], [], rs, How(db, cs));
      assert [ls[n]] == [ls[n]] + [];
    }
  }

  /** The left rows that meet all right rows. */
  ghost function Used(db: Database, l: Plan, r: Plan): seq<Tuple>
    requires ValidDb(db) && PlanTyped(db, l)
  {
    if r.Join? then First(Emit(db, l), Block(db, l)) else Emit(db, l)
  }

  /** a is not lost in the tree: its left part is in the first block wherever the right child is a join. */
  ghost predicate Survives(db: Database, p: Plan, a: Tuple)
    requires ValidDb(db) && PlanTyped(db, p)
  {
    match p
    case Scan(_, _) => true
    case Join(l, r, _) =>
      && Survives(db, l, Restrict(a, Tabs(l))) && Survives(db, r, Restrict(a, Tabs(r)))
      && (r.Join? ==> Restrict(a, Tabs(l)) in First(Emit(db, l), Block(db, l)))
  }

  lemma {:induction false} EmitJoin(db: Database, l: Plan, r: Plan, cs: seq<Condition>)
    requires ValidDb(db) && PlanTyped(db, l) && PlanTyped(db, r) && AllTyped(db, cs)
    ensures multiset(Emit(db, Join(l, r, cs))) == multiset(JoinAll(db, Used(db, l, r), Emit(db, r), cs))
  {
    hide ValidDb, AllTyped, JoinAll, JoinRows, RowJoin, How, Emitted, Block;
    EmittedRows(Emit(db, l), Emit(db, r), Block(db, l), How(db, cs), r.Join?);
    JoinAllRows(db, Used(db, l, r), Emit(db, r), cs);
  }

  /** Emitted rows have one row for each table of the plan, and none is emitted twice. */
  lemma {:induction false} EmitShape(db: Database, p: Plan)
    requires ValidDb(db) && PlanTyped(db, p) && WellPlaced(p)
    ensures NoDup(Emit(db, p)) && OverTabs(Emit(db, p), Tabs(p))
    decreases p
  {
    hide ValidDb, AllTyped, AllHold, CondsIn, JoinAll, Emitted;
    match p
    case Scan(t, cs) =>
      EvalNoDup(db, p);
      EvalKeys(db, p);
    case Join(l, r, cs) =>
      EmitShape(db, l);
      EmitShape(db, r);
      var ls, rs := Used(db, l, r), Emit(db, r);
      EmitJoin(db, l, r, cs);
      JoinAllNoDup(db, ls, rs, cs, Tabs(l), Tabs(r));
      NoDupSame(JoinAll(db, ls, rs, cs), Emit(db, p));
      var out := Emit(db, p);
      forall i | 0 <= i < |out| ensures out[i].Keys == Tabs(p) {
        assert out[i] in JoinAll(db, ls, rs, cs);
        JoinAllIff(db, ls, rs, cs, out[i]);
      }
  }

  /** Exactly the results of the plan that survive in the tree are emitted. */
  lemma {:induction false} EmitIff(db: Database, p: Plan, a: Tuple)
    requires ValidDb(db) && PlanTyped(db, p) && WellPlaced(p)
    ensures a in Emit(db, p) <==> a in Eval(db, p) && Survives(db, p, a)
    decreases p
  {
    match p
    case Scan(t, cs) =>
    case Join(l, r, cs) =>
      if a in Emit(db, p) { EmitSound(db, l, r, cs, a); }
      if a in Eval(db, p) && Survives(db, p, a) { EmitComplete(db, l, r, cs, a); }
  }

  /** An emitted row is the sum of a used left row and an emitted right row. */
  lemma {:induction false} EmitParts(db: Database, l: Plan, r: Plan, cs: seq<Condition>, a: Tuple) returns (x: Tuple, y: Tuple)
    requires ValidDb(db) && PlanTyped(db, l) && PlanTyped(db, r) && AllTyped(db, cs) && WellPlaced(Join(l, r, cs))
    requires a in Emit(db, Join(l, r, cs))
    ensures x in Used(db, l, r) && x in Emit(db, l) && y in Emit(db, r) && a == x + y && AllHold(db, cs, a)
    ensures x == Restrict(a, Tabs(l)) && y == Restrict(a, Tabs(r))
  {
    hide ValidDb, AllTyped, AllHold, CondsIn, JoinAll, Emit, Restrict, Block;
    var ls, rs := Used(db, l, r), Emit(db, r);
    EmitJoin(db, l, r, cs);
    assert a in multiset(JoinAll(db, ls, rs, cs)) <==> a in JoinAll(db, ls, rs, cs);
    assert a in multiset(Emit(db, Join(l, r, cs)));
    JoinAllIff(db, ls, rs, cs, a);
    var i, j :| 0 <= i < |ls| && 0 <= j < |rs| && a == ls[i] + rs[j] && AllHold(db, cs, a);
    x, y := ls[i], rs[j];
    UsedEmitted(db, l, r, x);
    EmitShape(db, l);
    EmitShape(db, r);
    RestrictSum(x, y, Tabs(l), Tabs(r));
  }

  lemma {:induction false} UsedEmitted(db: Database, l: Plan, r: Plan, x: Tuple)
    requires ValidDb(db) && PlanTyped(db, l) && x in Used(db, l, r)
    ensures x in Emit(db, l)
  {
    hide Emit, ValidDb;
  }

  lemma {:induction false} EmitSound(db: Database, l: Plan, r: Plan, cs: seq<Condition>, a: Tuple)
    requires ValidDb(db) && PlanTyped(db, Join(l, r, cs)) && WellPlaced(Join(l, r, cs)) && a in Emit(db, Join(l, r, cs))
    ensures a in Eval(db, Join(l, r, cs)) && Survives(db, Join(l, r, cs), a)
    decreases Join(l, r, cs), 0
  {
    hide ValidDb, AllTyped, AllHold, CondsIn, JoinAll, Emit, Restrict, Block;
    var x, y := EmitParts(db, l, r, cs, a);
    EmitIff(db, l, x);
    EmitIff(db, r, y);
    var ls, rs := Eval(db, l), Eval(db, r);
    var i :| 0 <= i < |ls| && ls[i] == x;
    var j :| 0 <= j < |rs| && rs[j] == y;
    JoinAllIff(db, ls, rs, cs, a);
    assert a == ls[i] + rs[j];
  }

  lemma {:induction false} EmitComplete(db: Database, l: Plan, r: Plan, cs: seq<Condition>, a: Tuple)
    requires ValidDb(db) && PlanTyped(db, Join(l, r, cs)) && WellPlaced(Join(l, r, cs))
    requires a in Eval(db, Join(l, r, cs)) && Survives(db, Join(l, r, cs), a)
    ensures a in Emit(db, Join(l, r, cs))
    decreases Join(l, r, cs), 0
  {
    hide ValidDb, AllTyped, AllHold, CondsIn, JoinAll, Emit, Restrict, Block;
    EvalParts(db, l, r, cs, a);
    var x, y := Restrict(a, Tabs(l)), Restrict(a, Tabs(r));
    EmitIff(db, l, x);
    EmitIff(db, r, y);
    SumEmitted(db, l, r, cs, x, y);
  }

  /** A used left row and an emitted right row that fit together are emitted. */
  lemma {:induction false} SumEmitted(db: Database, l: Plan, r: Plan, cs: seq<Condition>, x: Tuple, y: Tuple)
    requires ValidDb(db) && PlanTyped(db, Join(l, r, cs))
    requires x in Used(db, l, r) && y in Emit(db, r) && AllHold(db, cs, x + y)
    ensures x + y in Emit(db, Join(l, r, cs))
  {
    hide ValidDb, AllTyped, AllHold, JoinAll, Emit, Block, Used;
    var ls, rs := Used(db, l, r), Emit(db, r);
    var i :| 0 <= i < |ls| && ls[i] == x;
    var j :| 0 <= j < |rs| && rs[j] == y;
    var a := x + y;
    JoinAllIff(db, ls, rs, cs, a);
    assert a == ls[i] + rs[j];
    EmitJoin(db, l, r, cs);
    assert a in multiset(JoinAll(db, ls, rs, cs));
    assert a in multiset(Emit(db, Join(l, r, cs))) <==> a in Emit(db, Join(l, r, cs));
  }

  /** A result of a join is the sum of its parts, which are results of the inputs. */
  lemma {:induction false} EvalParts(db: Database, l: Plan, r: Plan, cs: seq<Condition>, a: Tuple)
    requires ValidDb(db) && PlanTyped(db, Join(l, r, cs)) && WellPlaced(Join(l, r, cs))
    requires a in Eval(db, Join(l, r, cs))
    ensures var (x, y) := (Restrict(a, Tabs(l)), Restrict(a, Tabs(r)));
            x in Eval(db, l) && y in Eval(db, r) && a == x + y && AllHold(db, cs, a)
  {
    hide ValidDb, AllTyped, AllHold, CondsIn, JoinAll, Restrict;
    var ls, rs := Eval(db, l), Eval(db, r);
    JoinAllIff(db, ls, rs, cs, a);
    var i, j :| 0 <= i < |ls| && 0 <= j < |rs| && a == ls[i] + rs[j] && AllHold(db, cs, a);
    EvalKeys(db, l);
    EvalKeys(db, r);
    RestrictSum(ls[i], rs[j], Tabs(l), Tabs(r));
  }

  // ---------- when nothing is lost ----------

  /** The tree emits every result of the plan. */
  ghost predicate Complete(db: Database, p: Plan)
    requires ValidDb(db) && PlanTyped(db, p)
  {
    forall a :: a in Eval(db, p) ==> a in Emit(db, p)
  }

  /** Every left input over a join fits in a block. */
  ghost predicate LeftsFit(db: Database, p: Plan)
    requires ValidDb(db) && PlanTyped(db, p)
  {
    match p
    case Scan(_, _) => true
    case Join(l, r, _) =>
      LeftsFit(db, l) && LeftsFit(db, r) && (r.Join? ==> |Emit(db, l)| <= Block(db, l))
  }

  lemma {:induction false} FittingSurvives(db: Database, p: Plan, a: Tuple)
    requires ValidDb(db) && PlanTyped(db, p) && WellPlaced(p) && LeftsFit(db, p) && a in Eval(db, p)
    ensures Survives(db, p, a)
    decreases p
  {
    hide ValidDb, AllTyped, AllHold, CondsIn, Emit, Restrict, Block;
    match p
    case Scan(_, _) =>
    case Join(l, r, cs) =>
      EvalParts(db, l, r, cs, a);
      FittingSurvives(db, l, Restrict(a, Tabs(l)));
      FittingSurvives(db, r, Restrict(a, Tabs(r)));
      EmitIff(db, l, Restrict(a, Tabs(l)));
  }

  lemma {:induction false} FittingComplete(db: Database, p: Plan)
    requires ValidDb(db) && PlanTyped(db, p) && WellPlaced(p) && LeftsFit(db, p)
    ensures Complete(db, p)
  {
    hide ValidDb, Emit, Eval, Survives, LeftsFit, WellPlaced, PlanTyped;
    forall a | a in Eval(db, p) ensures a in Emit(db, p) {
      FittingSurvives(db, p, a);
      EmitIff(db, p, a);
    }
  }

  /**
   * At a join over a join, with complete inputs: nothing is lost exactly when the left rows fit in a block,
   * or none of the others has a partner.
   */
  lemma {:induction false} TopJoinIff(db: Database, l: Plan, r: Plan, cs: seq<Condition>)
    requires ValidDb(db) && PlanTyped(db, Join(l, r, cs)) && WellPlaced(Join(l, r, cs))
    requires r.Join? && Complete(db, l) && Complete(db, r)
    ensures Complete(db, Join(l, r, cs)) <==>
            forall x, y :: x in Behind(Emit(db, l), Block(db, l)) && y in Emit(db, r) ==> !AllHold(db, cs, x + y)
  {
    hide ValidDb, AllTyped, AllHold, CondsIn, Emit, Restrict, Block, Eval, WellPlaced;
    var p := Join(l, r, cs);
    WellPlacedParts(p);
    var es, b := Emit(db, l), Block(db, l);
    if Complete(db, p) {
      forall x, y | x in Behind(es, b) && y in Emit(db, r) ensures !AllHold(db, cs, x + y) {
        if AllHold(db, cs, x + y) { LateRow(db, l, r, cs, x, y); }
      }
    }
    if forall x, y :: x in Behind(es, b) && y in Emit(db, r) ==> !AllHold(db, cs, x + y) {
      forall a | a in Eval(db, p) ensures a in Emit(db, p) {
        EvalParts(db, l, r, cs, a);
        var x, y := Restrict(a, Tabs(l)), Restrict(a, Tabs(r));
        assert x in es && y in Emit(db, r) && x !in Behind(es, b);
        SplitMember(es, b, x);
        SumEmitted(db, l, r, cs, x, y);
      }
    }
  }

  lemma {:induction false} WellPlacedParts(p: Plan)
    requires WellPlaced(p) && p.Join?
    ensures WellPlaced(p.left) && WellPlaced(p.right) && Tabs(p.left) !! Tabs(p.right)
  {}

  lemma {:induction false} SplitMember(s: seq<Tuple>, b: nat, x: Tuple)
    ensures x in s <==> x in First(s, b) || x in Behind(s, b)
    ensures NoDup(s) ==> !(x in First(s, b) && x in Behind(s, b))
  {
    assert s == First(s, b) + Behind(s, b);
    if x in First(s, b) && x in Behind(s, b) {
      var i :| 0 <= i < |First(s, b)| && First(s, b)[i] == x;
      var j :| 0 <= j < |Behind(s, b)| && Behind(s, b)[j] == x;
      assert s[i] == s[b + j];
    }
  }

  /** A result with a left row behind the first block is not emitted. */
  lemma {:induction false} LateRow(db: Database, l: Plan, r: Plan, cs: seq<Condition>, x: Tuple, y: Tuple)
    requires ValidDb(db) && PlanTyped(db, Join(l, r, cs)) && WellPlaced(Join(l, r, cs)) && r.Join?
    requires x in Behind(Emit(db, l), Block(db, l)) && y in Emit(db, r) && AllHold(db, cs, x + y)
    ensures x + y in Eval(db, Join(l, r, cs)) && x + y !in Emit(db, Join(l, r, cs))
  {
    hide ValidDb, AllTyped, AllHold, CondsIn, Emit, Restrict, Block, JoinAll;
    var p, a, es, b := Join(l, r, cs), x + y, Emit(db, l), Block(db, l);
    SplitMember(es, b, x);
    EmitIff(db, l, x);
    EmitIff(db, r, y);
    EmitShape(db, l);
    EmitShape(db, r);
    RestrictSum(x, y, Tabs(l), Tabs(r));
    var ls, rs := Eval(db, l), Eval(db, r);
    var i :| 0 <= i < |ls| && ls[i] == x;
    var j :| 0 <= j < |rs| && rs[j] == y;
    JoinAllIff(db, ls, rs, cs, a);
    assert a == ls[i] + rs[j];
    EmitIff(db, p, a);
  }

  // ---------- the planner's own plans ----------

  lemma {:induction false} TabsCount(p: Plan)
    requires DisjointTabs(p)
    ensures |Tabs(p)| >= if p.Join? then 2 else 1
    ensures p.Join? ==> |Tabs(p)| == |Tabs(p.left)| + |Tabs(p.right)|
  {
    if p.Join? {
      TabsCount(p.left);
      TabsCount(p.right);
    }
  }

  lemma {:induction false} ListSize(tables: seq<string>)
    requires NoDup(tables)
    ensures |set t | t in tables| == |tables|
  {
    if tables != [] {
      var n := |tables| - 1;
      ListSize(tables[..n]);
      assert (set t | t in tables) == (set t | t in tables[..n]) + {tables[n]};
      assert tables[n] !in tables[..n];
    } else {
      assert (set t | t in tables) == {};
    }
  }

  /** With at most two tables no join has a join on its right. */
  lemma {:induction false} TwoTablesFit(db: Database, tables: seq<string>, p: Plan)
    requires ValidDb(db) && PlanTyped(db, p) && NoDup(tables) && |tables| <= 2
    requires Tabs(p) == (set t | t in tables) && DisjointTabs(p)
    ensures LeftsFit(db, p)
  {
    hide ValidDb, Emit, Block;
    ListSize(tables);
    TabsCount(p);
    if p.Join? {
      TabsCount(p.left);
      TabsCount(p.right);
    }
  }

  /** a is a combination of one row per table that meets all conditions. */
  ghost predicate Answers(db: Database, tables: seq<string>, conds: seq<Condition>, a: Tuple)
    requires ValidDb(db) && AllTyped(db, conds)
  {
    a.Keys == (set t | t in tables) && InRange(db, a) && AllHold(db, conds, a)
  }

  /**
   * Plan a query, build its executors and run them.  If the conditions are well placed, the answers that
   * survive in the tree are returned, each once and nothing else: all of them for one or two tables, and
   * for more tables whenever every left input over a join fits in a block.
   */
  method RunQuery(tables: seq<string>, conds: seq<Condition>, db: Database) returns (p: Plan, out: seq<Tuple>)
    requires ValidQuery(tables, conds) && ValidDb(db) && AllTyped(db, conds) && forall t :: t in tables ==> t in db
    ensures PlanTyped(db, p) && (WellPlaced(p) <==> FirstScanFits(tables, conds))
    ensures p == PlanOf(tables, conds)
    ensures WellPlaced(p) ==> NoDup(out) && forall a :: a in out <==> Answers(db, tables, conds, a) && Survives(db, p, a)
    ensures WellPlaced(p) && (|tables| <= 2 || LeftsFit(db, p)) ==> forall a :: a in out <==> Answers(db, tables, conds, a)
  {
    hide ValidDb, AllTyped, AllHold, Emit, Eval, Survives, LeftsFit, WellPlaced, FirstScanFits, Bag, PlanBag, PlanTyped, DisjointTabs, InRange, PlanOf;
    p := MakeOneRel(tables, conds);
    MadeTyped(db, tables, conds, p);
    out := RunPlan(db, p);
    if WellPlaced(p) {
      EmitShape(db, p);
      forall a ensures a in out <==> Answers(db, tables, conds, a) && Survives(db, p, a) {
        EmitIff(db, p, a);
        PlanIsQuery(db, tables, conds, p, a);
      }
      if |tables| <= 2 { TwoTablesFit(db, tables, p); }
      if LeftsFit(db, p) {
        forall a | Answers(db, tables, conds, a) ensures Survives(db, p, a) {
          PlanIsQuery(db, tables, conds, p, a);
          FittingSurvives(db, p, a);
        }
      }
    }
  }

  lemma {:induction false} MadeTyped(db: Database, tables: seq<string>, conds: seq<Condition>, p: Plan)
    requires ValidDb(db) && AllTyped(db, conds) && Tabs(p) == (set t | t in tables) && PlanBag(p) == Bag(conds)
    requires forall t :: t in tables ==> t in db
    ensures PlanTyped(db, p)
  {
    hide ValidDb, AllTyped, Bag, PlanBag, PlanTyped;
    BagTyped(db, conds);
    PlanBagTyped(db, p);
  }

  // ---------- lost rows ----------

  lemma {:induction false} ScanPlain(db: Database, t: string, n: nat)
    requires ValidDb(db) && t in db && n <= |db[t].rows|
    ensures |ScanRows(db, t, [], n)| == n && forall i :: 0 <= i < n ==> ScanRows(db, t, [], n)[i] == map[t := i]
  {
    if n > 0 { ScanPlain(db, t, n - 1); }
  }

  /** A scan without conditions over a join: rows behind the first block are lost. */
  lemma {:induction false} BehindBlock(db: Database, t: string, r: Plan, cs: seq<Condition>, a: Tuple)
    requires ValidDb(db) && PlanTyped(db, Join(Scan(t, []), r, cs)) && r.Join?
    requires t in db && t in a && BlockSize(db[t].len) <= a[t] < |db[t].rows|
    ensures !Survives(db, Join(Scan(t, []), r, cs), a)
  {
    hide ValidDb;
    var l := Scan(t, []);
    var x := Restrict(a, Tabs(l));
    assert x == map[t := a[t]];
    ScanPlain(db, t, |db[t].rows|);
    var first := First(Emit(db, l), Block(db, l));
    forall y | 0 <= y < |first| ensures first[y] != x { assert map[t := y][t] != map[t := a[t]][t]; }
  }

  lemma {:induction false} CrossPlan(tables: seq<string>)
    requires |tables| == 3 && NoDup(tables)
    ensures PlanOf(tables, []) == Join(Scan(tables[2], []), Join(Scan(tables[1], []), Scan(tables[0], []), []), [])
  {
    var p := Scan(tables[0], []);
    assert WithRest(tables, [], p, 0) == WithRest(tables, [], p, 1) == p;
    assert WithRest(tables, [], p, 2) == Join(Scan(tables[1], []), p, []);
  }

  /** In the cross product of three tables, every row of the third behind the first block is lost. */
  lemma {:induction false} CrossLoses(db: Database, tables: seq<string>, a: Tuple)
    requires ValidDb(db) && |tables| == 3 && NoDup(tables) && forall t :: t in tables ==> t in db
    requires Answers(db, tables, [], a) && tables[2] in a && BlockSize(db[tables[2]].len) <= a[tables[2]]
    ensures PlanTyped(db, PlanOf(tables, [])) && !Survives(db, PlanOf(tables, []), a)
  {
    hide ValidDb, PlanOf, Survives;
    assert tables[0] in tables && tables[1] in tables && tables[2] in tables;
    CrossPlan(tables);
    var r := Join(Scan(tables[1], []), Scan(tables[0], []), []);
    assert PlanTyped(db, r);
    BehindBlock(db, tables[2], r, [], a);
  }

  /** Three tables in a row: the first condition joins the first two, the second one the last two. */
  ghost predicate Chained(tables: seq<string>, c: Condition, d: Condition) {
    && |tables| == 3 && NoDup(tables)
    && c.rhs.ColRef? && c.lhs.tab == tables[0] && c.rhs.c.tab == tables[1]
    && d.rhs.ColRef? && d.lhs.tab == tables[1] && d.rhs.c.tab == tables[2]
  }

  lemma {:induction false} ChainConds(tables: seq<string>, c: Condition, d: Condition)
    requires Chained(tables, c, d)
    ensures JoinConds([c, d]) == [c, d] && forall t :: ScanOf(tables, [c, d], t) == Scan(t, [])
  {
    assert tables[0] != tables[1] && tables[1] != tables[2];
    FilteredAll([c, d], x => CrossTab(x));
    forall t ensures ScanOf(tables, [c, d], t) == Scan(t, []) { NoneFilters(tables, c, d, t); }
  }

  lemma {:induction false} NoneFilters(tables: seq<string>, c: Condition, d: Condition, t: string)
    requires tables != [] && CrossTab(c) && CrossTab(d)
    ensures ScanOf(tables, [c, d], t) == Scan(t, [])
  {
    var p: Condition -> bool := x => FiltersBy(tables[0], t, x);
    FilteredMeets([c, d], p);
    var r := Filtered([c, d], p);
    assert r != [] ==> r[0] in r;
  }

  /** The third table joins from the left, with the sides of its condition exchanged. */
  lemma {:induction false} ChainPlan(tables: seq<string>, c: Condition, d: Condition)
    requires Chained(tables, c, d)
    ensures PlanOf(tables, [c, d]) ==
              Join(Scan(tables[2], []), Join(Scan(tables[0], []), Scan(tables[1], []), [c]), [Swapped(d)])
  {
    var cs, t := [c, d], tables;
    assert t[0] != t[1] && t[1] != t[2] && t[0] != t[2];
    ChainConds(tables, c, d);
    hide ScanOf, JoinConds;
    var r := Join(Scan(t[0], []), Scan(t[1], []), [c]);
    assert cs[..1] == [c];
    assert ByConds(tables, cs, cs[..1]) == r;
    assert Tabs(r) == {t[0], t[1]};
    assert ByConds(tables, cs, cs) == Joined(tables, cs, r, d);
    var p := Join(Scan(t[2], []), r, [Swapped(d)]);
    assert Tabs(p) == {t[0], t[1], t[2]};
    assert WithRest(tables, cs, p, 0) == WithRest(tables, cs, p, 1) == WithRest(tables, cs, p, 2) == WithRest(tables, cs, p, 3) == p;
  }

  /** With join conditions as well: answers with a row of the third table behind the first block are lost. */
  lemma {:induction false} ChainLoses(db: Database, tables: seq<string>, c: Condition, d: Condition, a: Tuple)
    requires ValidDb(db) && Chained(tables, c, d) && AllTyped(db, [c, d]) && forall t :: t in tables ==> t in db
    requires Answers(db, tables, [c, d], a) && tables[2] in a && BlockSize(db[tables[2]].len) <= a[tables[2]]
    ensures PlanTyped(db, PlanOf(tables, [c, d])) && !Survives(db, PlanOf(tables, [c, d]), a)
  {
    hide ValidDb, PlanOf, Survives, AllHold;
    assert tables[0] in tables && tables[1] in tables && tables[2] in tables;
    ChainPlan(tables, c, d);
    assert Typed(db, [c, d][0]) && Typed(db, [c, d][1]);
    SwapTyped(db, d);
    var r := Join(Scan(tables[0], []), Scan(tables[1], []), [c]);
    assert PlanTyped(db, r);
    BehindBlock(db, tables[2], r, [Swapped(d)], a);
  }

  /** Three tables with one, one and sixty-five rows of 256 bytes: the cross product has sixty-five rows, one is lost. */
  method LostRow() returns (tables: seq<string>, db: Database, out: seq<Tuple>, lost: Tuple)
    ensures ValidQuery(tables, []) && ValidDb(db) && forall t :: t in tables ==> t in db
    ensures Answers(db, tables, [], lost) && lost !in out
    ensures tables == ["a", "b", "c"] && lost == map["a" := 0, "b" := 0, "c" := 64]
  {
    tables := ["a", "b", "c"];
    ThreeNames();
    var one, many := Table(map[], 256, [map[]]), Table(map[], 256, seq(65, i => map[]));
    db := map["a" := one, "b" := one, "c" := many];
    lost := map["a" := 0, "b" := 0, "c" := 64];
    assert db["a"] == one && db["b"] == one && db["c"] == many;
    ThreeKeys(lost);
    CrossLoses(db, tables, lost);
    var p;
    p, out := RunQuery(tables, [], db);
  }

  /** n rows of 256 bytes with the number 7 in column x. */
  function Sevens(n: nat): Table { Table(map["x" := IntCol], 256, seq(n, i => map["x" := Num(7)])) }

  function SameX(s: string, t: string): Condition { Condition(TabCol(s, "x"), OpEq, ColRef(TabCol(t, "x"))) }

  lemma {:induction false} SevensMeet(db: Database, s: string, t: string, m: nat, n: nat, a: Tuple)
    requires s in db && t in db && db[s] == Sevens(m) && db[t] == Sevens(n)
    requires ValidDb(db) && s in a && t in a && a[s] < m && a[t] < n
    ensures Typed(db, SameX(s, t)) && Holds(db, SameX(s, t), a)
  {}

  lemma {:induction false} SevensValid(db: Database)
    requires forall t :: t in db ==> exists n :: db[t] == Sevens(n)
    ensures ValidDb(db)
  {}

  lemma {:induction false} SevensQuery(s: string, t: string, u: string, conds: seq<Condition>)
    requires NoDup([s, t, u]) && "" !in [s, t, u] && conds == [SameX(s, t), SameX(t, u)]
    ensures ValidQuery([s, t, u], conds) && Chained([s, t, u], conds[0], conds[1])
  {
    var tables := [s, t, u];
    assert tables[0] in tables && tables[1] in tables && tables[2] in tables;
    forall c | c in conds ensures forall x :: x in CondTabs(c) ==> x in tables {
      assert c == conds[0] || c == conds[1];
    }
  }

  lemma {:induction false} SevensAnswer(s: string, t: string, u: string, db: Database, conds: seq<Condition>, a: Tuple)
    requires NoDup([s, t, u]) && db == map[s := Sevens(1), t := Sevens(1), u := Sevens(65)]
    requires conds == [SameX(s, t), SameX(t, u)] && a == map[s := 0, t := 0, u := 64]
    requires a.Keys == set x | x in [s, t, u]
    ensures ValidDb(db) && AllTyped(db, conds) && Answers(db, [s, t, u], conds, a)
  {
    var tables := [s, t, u];
    assert tables[0] != tables[1] && tables[0] != tables[2] && tables[1] != tables[2];
    hide Typed, Holds, Sevens, NoDup;
    SevensValid(db);
    hide ValidDb;
    SevensMeet(db, s, t, 1, 1, a);
    SevensMeet(db, t, u, 1, 65, a);
    SevensSize(1);
    SevensSize(65);
  }

  lemma {:induction false} SevensSize(n: nat)
    ensures |Sevens(n).rows| == n && Sevens(n).len == 256
  {}

  /** The same with join conditions that every combination of rows meets: a.x = b.x and b.x = c.x. */
  method LostJoinRow() returns (tables: seq<string>, conds: seq<Condition>, db: Database, out: seq<Tuple>, lost: Tuple)
    ensures ValidQuery(tables, conds) && ValidDb(db) && AllTyped(db, conds) && forall t :: t in tables ==> t in db
    ensures Answers(db, tables, conds, lost) && lost !in out
    ensures tables == ["a", "b", "c"] && lost == map["a" := 0, "b" := 0, "c" := 64]
    ensures conds == [SameX("a", "b"), SameX("b", "c")]
  {
    ThreeNames();
    hide ValidDb, ValidQuery, AllTyped, AllHold, Sevens, Answers, NoDup, PlanOf, Survives, SameX, Chained;
    tables := ["a", "b", "c"];
    conds := [SameX("a", "b"), SameX("b", "c")];
    db := map["a" := Sevens(1), "b" := Sevens(1), "c" := Sevens(65)];
    lost := map["a" := 0, "b" := 0, "c" := 64];
    ThreeKeys(lost);
    SevensQuery("a", "b", "c", conds);
    SevensAnswer("a", "b", "c", db, conds, lost);
    SevensSize(65);
    ChainLoses(db, tables, conds[0], conds[1], lost);
    var p;
    p, out := RunQuery(tables, conds, db);
  }

  lemma {:induction false} ThreeNames()
    ensures "a" != "b" && "a" != "c" && "b" != "c" && NoDup(["a", "b", "c"]) && "" !in ["a", "b", "c"]
  {
    assert "a"[0] != "b"[0] && "a"[0] != "c"[0] && "b"[0] != "c"[0];
  }

  lemma {:induction false} ThreeKeys(a: Tuple)
    requires a.Keys == {"a", "b", "c"}
    ensures a.Keys == set t | t in ["a", "b", "c"]
  {
    var tables := ["a", "b", "c"];
    assert tables[0] == "a" && tables[1] == "b" && tables[2] == "c";
    forall t | t in tables ensures t in a { var x :| 0 <= x < 3 && tables[x] == t; }
    forall t | t in a ensures t in tables { assert t == tables[0] || t == tables[1] || t == tables[2]; }
  }
}
