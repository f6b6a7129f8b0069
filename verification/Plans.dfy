/** Conjunctive queries, scan/join plans and their meaning. */
module Plans {
  import opened Seqs
  import opened Values

  datatype TabCol = TabCol(tab: string, col: string)

  datatype Operand = ColRef(c: TabCol) | Const(v: Val)

  /** lhs op rhs, where rhs is a column or a constant. */
  datatype Condition = Condition(lhs: TabCol, op: CompOp, rhs: Operand)

  datatype Plan =
    | Scan(tab: string, conds: seq<Condition>)
    | Join(left: Plan, right: Plan, conds: seq<Condition>)

  /** len is the length of a record in bytes. */
  datatype Table = Table(cols: map<string, ColType>, len: nat, rows: seq<map<string, Val>>)

  type Database = map<string, Table>

  /** One row chosen from each of some tables, by its position. */
  type Tuple = map<string, nat>

  ghost predicate ValidDb(db: Database) {
    && (forall t :: t in db ==> db[t].len > 0)
    && (forall t, i, c :: t in db && 0 <= i < |db[t].rows| && c in db[t].cols
          ==> c in db[t].rows[i] && ValidVal(db[t].cols[c], db[t].rows[i][c]))
  }

  predicate HasCol(db: Database, c: TabCol) {
    c.tab in db && c.col in db[c.tab].cols
  }

  function TypeOf(db: Database, c: TabCol): ColType
    requires HasCol(db, c)
  {
    db[c.tab].cols[c.col]
  }

  /** Columns exist and both sides have the same type. */
  ghost predicate Typed(db: Database, c: Condition) {
    && HasCol(db, c.lhs)
    && match c.rhs
       case ColRef(r) => HasCol(db, r) && TypeOf(db, r) == TypeOf(db, c.lhs)
       case Const(v) => ValidVal(TypeOf(db, c.lhs), v)
  }

  predicate Bound(db: Database, c: TabCol, a: Tuple) {
    HasCol(db, c) && c.tab in a && a[c.tab] < |db[c.tab].rows|
  }

  function ColValue(db: Database, c: TabCol, a: Tuple): Val
    requires ValidDb(db) && Bound(db, c, a)
    ensures ValidVal(TypeOf(db, c), ColValue(db, c, a))
  {
    db[c.tab].rows[a[c.tab]][c.col]
  }

  /** The condition is true of the chosen rows. */
  predicate Holds(db: Database, c: Condition, a: Tuple)
    requires ValidDb(db) && Typed(db, c)
  {
    && Bound(db, c.lhs, a)
    && match c.rhs
       case ColRef(r) => Bound(db, r, a) && Judge(Compare(TypeOf(db, c.lhs), ColValue(db, c.lhs, a), ColValue(db, r, a)), c.op)
       case Const(v) => Judge(Compare(TypeOf(db, c.lhs), ColValue(db, c.lhs, a), v), c.op)
  }

  /** A condition is true when its columns are there and their values compare as its operator says. */
  lemma {:induction false} HoldsMeans(db: Database, c: Condition, a: Tuple)
    requires ValidDb(db) && Typed(db, c)
    ensures Holds(db, c, a) <==>
              && Bound(db, c.lhs, a)
              && (c.rhs.ColRef? ==> Bound(db, c.rhs.c, a))
              && Meets(TypeOf(db, c.lhs), ColValue(db, c.lhs, a), c.op, if c.rhs.ColRef? then ColValue(db, c.rhs.c, a) else c.rhs.v)
  {
    hide Judge, Compare, Meets, ValidDb;
    if Bound(db, c.lhs, a) && (c.rhs.ColRef? ==> Bound(db, c.rhs.c, a)) {
      OperatorMeaning(TypeOf(db, c.lhs), ColValue(db, c.lhs, a), if c.rhs.ColRef? then ColValue(db, c.rhs.c, a) else c.rhs.v, c.op);
    }
  }

  ghost predicate AllTyped(db: Database, cs: seq<Condition>) {
    forall i :: 0 <= i < |cs| ==> Typed(db, cs[i])
  }

  predicate AllHold(db: Database, cs: seq<Condition>, a: Tuple)
    requires ValidDb(db) && AllTyped(db, cs)
  {
    forall i :: 0 <= i < |cs| ==> Holds(db, cs[i], a)
  }

  /** The tables a condition mentions. */
  ghost function CondTabs(c: Condition): set<string> {
    {c.lhs.tab} + if c.rhs.ColRef? then {c.rhs.c.tab} else {}
  }

  ghost predicate CondsIn(cs: seq<Condition>, ts: set<string>) {
    forall i :: 0 <= i < |cs| ==> CondTabs(cs[i]) <= ts
  }

  ghost function Tabs(p: Plan): set<string> {
    match p
    case Scan(t, _) => {t}
    case Join(l, r, _) => Tabs(l) + Tabs(r)
  }

  /** Every condition only mentions columns of the records it is applied to; otherwise the filter
      throws ColumnNotFoundError.  No table is scanned twice. */
  ghost predicate WellPlaced(p: Plan) {
    match p
    case Scan(t, cs) => CondsIn(cs, {t})
    case Join(l, r, cs) => WellPlaced(l) && WellPlaced(r) && Tabs(l) !! Tabs(r) && CondsIn(cs, Tabs(p))
  }

  ghost predicate PlanTyped(db: Database, p: Plan) {
    match p
    case Scan(t, cs) => t in db && AllTyped(db, cs)
    case Join(l, r, cs) => PlanTyped(db, l) && PlanTyped(db, r) && AllTyped(db, cs)
  }

  ghost function Restrict(a: Tuple, ts: set<string>): Tuple {
    map t | t in a && t in ts :: a[t]
  }

  ghost predicate InRange(db: Database, a: Tuple) {
    forall t :: t in a ==> t in db && a[t] < |db[t].rows|
  }

  /** The combination of rows a belongs to the relational meaning of the plan. */
  ghost predicate Means(db: Database, p: Plan, a: Tuple)
    requires ValidDb(db) && PlanTyped(db, p)
  {
    match p
    case Scan(t, cs) => a.Keys == {t} && a[t] < |db[t].rows| && AllHold(db, cs, a)
    case Join(l, r, cs) =>
      && a.Keys == Tabs(l) + Tabs(r)
      && Means(db, l, Restrict(a, Tabs(l)))
      && Means(db, r, Restrict(a, Tabs(r)))
      && AllHold(db, cs, a)
  }

  // ---------- evaluating a plan, and what it returns ----------

  ghost function ScanRows(db: Database, t: string, cs: seq<Condition>, n: nat): seq<Tuple>
    requires ValidDb(db) && t in db && AllTyped(db, cs) && n <= |db[t].rows|
  {
    if n == 0 then []
    else ScanRows(db, t, cs, n - 1) + if AllHold(db, cs, map[t := n - 1]) then [map[t := n - 1]] else []
  }

  /** One left tuple against a list of right tuples. */
  ghost function JoinOne(db: Database, x: Tuple, rs: seq<Tuple>, cs: seq<Condition>): seq<Tuple>
    requires ValidDb(db) && AllTyped(db, cs)
  {
    if rs == [] then []
    else JoinOne(db, x, rs[..|rs| - 1], cs) + if AllHold(db, cs, x + rs[|rs| - 1]) then [x + rs[|rs| - 1]] else []
  }

  ghost function JoinAll(db: Database, ls: seq<Tuple>, rs: seq<Tuple>, cs: seq<Condition>): seq<Tuple>
    requires ValidDb(db) && AllTyped(db, cs)
  {
    if ls == [] then [] else JoinAll(db, ls[..|ls| - 1], rs, cs) + JoinOne(db, ls[|ls| - 1], rs, cs)
  }

  /** The meaning of a plan as a list, by nested loops over its inputs. */
  ghost function Eval(db: Database, p: Plan): seq<Tuple>
    requires ValidDb(db) && PlanTyped(db, p)
  {
    match p
    case Scan(t, cs) => ScanRows(db, t, cs, |db[t].rows|)
    case Join(l, r, cs) => JoinAll(db, Eval(db, l), Eval(db, r), cs)
  }

  lemma {:induction false} ScanRowsIff(db: Database, t: string, cs: seq<Condition>, n: nat, a: Tuple)
    requires ValidDb(db) && t in db && AllTyped(db, cs) && n <= |db[t].rows|
    ensures a in ScanRows(db, t, cs, n) <==> a.Keys == {t} && a[t] < n && AllHold(db, cs, a)
  {
    if n > 0 {
      ScanRowsIff(db, t, cs, n - 1, a);
      if a.Keys == {t} && a[t] == n - 1 { assert a == map[t := n - 1]; }
    }
  }

  lemma {:induction false} JoinOneIff(db: Database, x: Tuple, rs: seq<Tuple>, cs: seq<Condition>, a: Tuple)
    requires ValidDb(db) && AllTyped(db, cs)
    ensures a in JoinOne(db, x, rs, cs) <==> exists j :: 0 <= j < |rs| && a == x + rs[j] && AllHold(db, cs, a)
  {
    hide AllHold, ValidDb, AllTyped;
    if rs != [] {
      var n, front := |rs| - 1, rs[..|rs| - 1];
      JoinOneIff(db, x, front, cs, a);
      assert rs == front + [rs[n]];
      if a in JoinOne(db, x, front, cs) {
        var j :| 0 <= j < |front| && a == x + front[j] && AllHold(db, cs, a);
        assert a == x + rs[j];
      }
    }
  }

  lemma {:induction false} JoinAllIff(db: Database, ls: seq<Tuple>, rs: seq<Tuple>, cs: seq<Condition>, a: Tuple)
    requires ValidDb(db) && AllTyped(db, cs)
    ensures a in JoinAll(db, ls, rs, cs) <==>
            exists i, j :: 0 <= i < |ls| && 0 <= j < |rs| && a == ls[i] + rs[j] && AllHold(db, cs, a)
  {
    hide AllHold, ValidDb, AllTyped, JoinOne;
    if ls != [] {
      JoinAllIff(db, ls[..|ls| - 1], rs, cs, a);
      JoinOneIff(db, ls[|ls| - 1], rs, cs, a);
    }
  }

  lemma {:induction false} RestrictSum(x: Tuple, y: Tuple, lt: set<string>, rt: set<string>)
    requires lt !! rt && x.Keys == lt && y.Keys == rt
    ensures Restrict(x + y, lt) == x && Restrict(x + y, rt) == y && (x + y).Keys == lt + rt
  {}

  lemma {:induction false} SumRestrict(a: Tuple, lt: set<string>, rt: set<string>)
    requires a.Keys == lt + rt && lt !! rt
    ensures Restrict(a, lt) + Restrict(a, rt) == a
  {}

  lemma {:induction false} MeansKeys(db: Database, p: Plan, a: Tuple)
    requires ValidDb(db) && PlanTyped(db, p) && Means(db, p, a)
    ensures a.Keys == Tabs(p)
  {}

  lemma {:induction false} EvalSound(db: Database, p: Plan, a: Tuple)
    requires ValidDb(db) && PlanTyped(db, p) && WellPlaced(p) && a in Eval(db, p)
    ensures Means(db, p, a) && a.Keys == Tabs(p)
    decreases p
  {
    hide AllHold, ValidDb, AllTyped, CondsIn, Restrict;
    match p
    case Scan(t, cs) => ScanRowsIff(db, t, cs, |db[t].rows|, a);
    case Join(l, r, cs) =>
      var ls, rs := Eval(db, l), Eval(db, r);
      JoinAllIff(db, ls, rs, cs, a);
      var i, j :| 0 <= i < |ls| && 0 <= j < |rs| && a == ls[i] + rs[j] && AllHold(db, cs, a);
      EvalSound(db, l, ls[i]);
      EvalSound(db, r, rs[j]);
      RestrictSum(ls[i], rs[j], Tabs(l), Tabs(r));
  }

  lemma {:induction false} EvalComplete(db: Database, p: Plan, a: Tuple)
    requires ValidDb(db) && PlanTyped(db, p) && WellPlaced(p) && Means(db, p, a)
    ensures a in Eval(db, p)
    decreases p
  {
    hide AllHold, ValidDb, AllTyped, CondsIn, Restrict;
    match p
    case Scan(t, cs) => ScanRowsIff(db, t, cs, |db[t].rows|, a);
    case Join(l, r, cs) =>
      var x, y := Restrict(a, Tabs(l)), Restrict(a, Tabs(r));
      EvalComplete(db, l, x);
      EvalComplete(db, r, y);
      SumRestrict(a, Tabs(l), Tabs(r));
      var ls, rs := Eval(db, l), Eval(db, r);
      var i :| 0 <= i < |ls| && ls[i] == x;
      var j :| 0 <= j < |rs| && rs[j] == y;
      JoinAllIff(db, ls, rs, cs, a);
      assert a == ls[i] + rs[j];
  }

  /** The list holds exactly what the plan means. */
  lemma {:induction false} EvalIff(db: Database, p: Plan, a: Tuple)
    requires ValidDb(db) && PlanTyped(db, p) && WellPlaced(p)
    ensures a in Eval(db, p) <==> Means(db, p, a)
    ensures Means(db, p, a) ==> a.Keys == Tabs(p)
  {
    if a in Eval(db, p) { EvalSound(db, p, a); }
    if Means(db, p, a) { EvalComplete(db, p, a); MeansKeys(db, p, a); }
  }

  lemma {:induction false} ScanRowsNoDup(db: Database, t: string, cs: seq<Condition>, n: nat)
    requires ValidDb(db) && t in db && AllTyped(db, cs) && n <= |db[t].rows|
    ensures NoDup(ScanRows(db, t, cs, n))
  {
    if n > 0 {
      ScanRowsNoDup(db, t, cs, n - 1);
      ScanRowsIff(db, t, cs, n - 1, map[t := n - 1]);
    }
  }

  ghost predicate OverTabs(s: seq<Tuple>, ts: set<string>) {
    forall i :: 0 <= i < |s| ==> s[i].Keys == ts
  }

  lemma {:induction false} SumsDiffer(x: Tuple, y: Tuple, u: Tuple, v: Tuple, ls: set<string>, rs: set<string>)
    requires ls !! rs && x.Keys == ls && y.Keys == ls && u.Keys == rs && v.Keys == rs && x + u == y + v
    ensures x == y && u == v
  {
    assert Restrict(x + u, ls) == x && Restrict(y + v, ls) == y;
    assert Restrict(x + u, rs) == u && Restrict(y + v, rs) == v;
  }

  lemma {:induction false} JoinOneNoDup(db: Database, x: Tuple, rs: seq<Tuple>, cs: seq<Condition>, lt: set<string>, rt: set<string>)
    requires ValidDb(db) && AllTyped(db, cs) && lt !! rt
    requires x.Keys == lt && OverTabs(rs, rt) && NoDup(rs)
    ensures NoDup(JoinOne(db, x, rs, cs))
  {
    if rs != [] {
      var init, y := rs[..|rs| - 1], rs[|rs| - 1];
      JoinOneNoDup(db, x, init, cs, lt, rt);
      JoinOneIff(db, x, init, cs, x + y);
      forall j | 0 <= j < |init| ensures x + y != x + init[j] {
        if x + y == x + init[j] { SumsDiffer(x, x, y, init[j], lt, rt); }
      }
    }
  }

  lemma {:induction false} JoinAllNoDup(db: Database, ls: seq<Tuple>, rs: seq<Tuple>, cs: seq<Condition>, lt: set<string>, rt: set<string>)
    requires ValidDb(db) && AllTyped(db, cs) && lt !! rt
    requires OverTabs(ls, lt) && OverTabs(rs, rt) && NoDup(ls) && NoDup(rs)
    ensures NoDup(JoinAll(db, ls, rs, cs))
  {
    if ls != [] {
      var init, x := ls[..|ls| - 1], ls[|ls| - 1];
      JoinAllNoDup(db, init, rs, cs, lt, rt);
      JoinOneNoDup(db, x, rs, cs, lt, rt);
      forall a | a in JoinAll(db, init, rs, cs) ensures a !in JoinOne(db, x, rs, cs) {
        JoinAllIff(db, init, rs, cs, a);
        JoinOneIff(db, x, rs, cs, a);
        var i, j :| 0 <= i < |init| && 0 <= j < |rs| && a == init[i] + rs[j];
        forall k | 0 <= k < |rs| ensures a != x + rs[k] {
          if a == x + rs[k] { SumsDiffer(init[i], x, rs[j], rs[k], lt, rt); }
        }
      }
      NoDupAppend(JoinAll(db, init, rs, cs), JoinOne(db, x, rs, cs));
    }
  }

  /** No combination of rows is listed twice. */
  lemma {:induction false} EvalNoDup(db: Database, p: Plan)
    requires ValidDb(db) && PlanTyped(db, p) && WellPlaced(p)
    ensures NoDup(Eval(db, p))
  {
    match p
    case Scan(t, cs) => ScanRowsNoDup(db, t, cs, |db[t].rows|);
    case Join(l, r, cs) =>
      EvalNoDup(db, l);
      EvalNoDup(db, r);
      EvalKeys(db, l);
      EvalKeys(db, r);
      JoinAllNoDup(db, Eval(db, l), Eval(db, r), cs, Tabs(l), Tabs(r));
  }

  lemma {:induction false} EvalKeys(db: Database, p: Plan)
    requires ValidDb(db) && PlanTyped(db, p) && WellPlaced(p)
    ensures OverTabs(Eval(db, p), Tabs(p))
  {
    forall i | 0 <= i < |Eval(db, p)| ensures Eval(db, p)[i].Keys == Tabs(p) {
      EvalIff(db, p, Eval(db, p)[i]);
    }
  }
}
