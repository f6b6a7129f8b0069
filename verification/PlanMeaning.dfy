/** The plan made for a query means exactly the row combinations that satisfy the query. */
module PlanMeaning {
  import opened Seqs
  import opened Values
  import opened Plans
  import opened PlanShapes
  import opened Planner

  // ---------- exchanging the sides of a condition ----------

  lemma {:induction false} SwapTyped(db: Database, c: Condition)
    ensures Typed(db, Swapped(c)) <==> Typed(db, c)
  {}

  lemma {:induction false} SwapHolds(db: Database, c: Condition, a: Tuple)
    requires ValidDb(db) && Typed(db, c)
    ensures Typed(db, Swapped(c)) && (Holds(db, Swapped(c), a) <==> Holds(db, c, a))
  {
    SwapTyped(db, c);
    if c.rhs.ColRef? && Bound(db, c.lhs, a) && Bound(db, c.rhs.c, a) {
      SwapKeepsMeaning(TypeOf(db, c.lhs), ColValue(db, c.lhs, a), ColValue(db, c.rhs.c, a), c.op);
    }
  }

  /** All members of a class are typed, and true. */
  ghost predicate ClassTyped(db: Database, k: set<Condition>) { forall c :: c in k ==> Typed(db, c) }

  ghost predicate ClassHolds(db: Database, k: set<Condition>, a: Tuple)
    requires ValidDb(db)
  {
    forall c :: c in k ==> Typed(db, c) && Holds(db, c, a)
  }

  lemma {:induction false} ClassIff(db: Database, c: Condition, a: Tuple)
    requires ValidDb(db)
    ensures ClassTyped(db, Class(c)) <==> Typed(db, c)
    ensures Typed(db, c) ==> (ClassHolds(db, Class(c), a) <==> Holds(db, c, a))
  {
    SwapTyped(db, c);
    assert c in Class(c) && Swapped(c) in Class(c);
    if Typed(db, c) { SwapHolds(db, c, a); }
  }

  lemma {:induction false} BagTyped(db: Database, cs: seq<Condition>)
    requires ValidDb(db)
    ensures AllTyped(db, cs) <==> forall k :: k in Bag(cs) ==> ClassTyped(db, k)
  {
    hide ClassTyped, Typed, Bag, ValidDb, Class;
    forall k ensures k in Bag(cs) <==> exists i :: 0 <= i < |cs| && Class(cs[i]) == k { BagHas(cs, k); }
    forall i | 0 <= i < |cs| ensures ClassTyped(db, Class(cs[i])) <==> Typed(db, cs[i]) { ClassIff(db, cs[i], map[]); }
    if forall k :: k in Bag(cs) ==> ClassTyped(db, k) {
      forall i | 0 <= i < |cs| ensures Typed(db, cs[i]) { assert Class(cs[i]) in Bag(cs); }
    }
  }

  lemma {:induction false} BagHolds(db: Database, cs: seq<Condition>, a: Tuple)
    requires ValidDb(db) && AllTyped(db, cs)
    ensures AllHold(db, cs, a) <==> forall k :: k in Bag(cs) ==> ClassHolds(db, k, a)
  {
    hide ClassHolds, ClassTyped, Holds, Bag, ValidDb, Class;
    forall k ensures k in Bag(cs) <==> exists i :: 0 <= i < |cs| && Class(cs[i]) == k { BagHas(cs, k); }
    forall i | 0 <= i < |cs| ensures ClassHolds(db, Class(cs[i]), a) <==> Holds(db, cs[i], a) { ClassIff(db, cs[i], a); }
    if forall k :: k in Bag(cs) ==> ClassHolds(db, k, a) {
      forall i | 0 <= i < |cs| ensures Holds(db, cs[i], a) { assert Class(cs[i]) in Bag(cs); }
    }
  }

  // ---------- all conditions of a plan, on one tuple ----------

  ghost predicate PlanHolds(db: Database, p: Plan, a: Tuple)
    requires ValidDb(db) && PlanTyped(db, p)
  {
    match p
    case Scan(_, cs) => AllHold(db, cs, a)
    case Join(l, r, cs) => PlanHolds(db, l, a) && PlanHolds(db, r, a) && AllHold(db, cs, a)
  }

  lemma {:induction false} PlanBagTyped(db: Database, p: Plan)
    requires ValidDb(db) && forall t :: t in Tabs(p) ==> t in db
    ensures PlanTyped(db, p) <==> forall k :: k in PlanBag(p) ==> ClassTyped(db, k)
  {
    BagTyped(db, p.conds);
    hide ClassTyped, ValidDb, Bag, AllTyped;
    if p.Join? {
      PlanBagTyped(db, p.left);
      PlanBagTyped(db, p.right);
      assert forall k :: k in PlanBag(p) <==> k in PlanBag(p.left) || k in PlanBag(p.right) || k in Bag(p.conds);
    }
  }

  lemma {:induction false} PlanBagHolds(db: Database, p: Plan, a: Tuple)
    requires ValidDb(db) && PlanTyped(db, p)
    ensures PlanHolds(db, p, a) <==> forall k :: k in PlanBag(p) ==> ClassHolds(db, k, a)
  {
    BagHolds(db, p.conds, a);
    hide ClassHolds, ValidDb, Bag, AllHold;
    if p.Join? {
      PlanBagHolds(db, p.left, a);
      PlanBagHolds(db, p.right, a);
      assert forall k :: k in PlanBag(p) <==> k in PlanBag(p.left) || k in PlanBag(p.right) || k in Bag(p.conds);
    }
  }

  /** A condition only looks at the rows of its own tables. */
  lemma {:induction false} RestrictHolds(db: Database, cs: seq<Condition>, a: Tuple, ts: set<string>)
    requires ValidDb(db) && AllTyped(db, cs) && CondsIn(cs, ts)
    ensures AllHold(db, cs, Restrict(a, ts)) <==> AllHold(db, cs, a)
  {
    forall i | 0 <= i < |cs| ensures Holds(db, cs[i], Restrict(a, ts)) <==> Holds(db, cs[i], a) {
      assert CondTabs(cs[i]) <= ts && cs[i].lhs.tab in CondTabs(cs[i]);
      if cs[i].rhs.ColRef? { assert cs[i].rhs.c.tab in CondTabs(cs[i]); }
    }
  }

  lemma {:induction false} CondsInWider(cs: seq<Condition>, ts: set<string>, us: set<string>)
    requires CondsIn(cs, ts) && ts <= us
    ensures CondsIn(cs, us)
  {
    forall i | 0 <= i < |cs| ensures CondTabs(cs[i]) <= us { assert CondTabs(cs[i]) <= ts; }
  }

  lemma {:induction false} PlanRestrict(db: Database, p: Plan, a: Tuple, ts: set<string>)
    requires ValidDb(db) && PlanTyped(db, p) && WellPlaced(p) && Tabs(p) <= ts
    ensures PlanHolds(db, p, Restrict(a, ts)) <==> PlanHolds(db, p, a)
  {
    CondsInWider(p.conds, Tabs(p), ts);
    RestrictHolds(db, p.conds, a, ts);
    hide AllHold, ValidDb, CondsIn;
    if p.Join? {
      PlanRestrict(db, p.left, a, ts);
      PlanRestrict(db, p.right, a, ts);
    }
  }

  /** A well-placed plan means the in-range combinations that satisfy all its conditions. */
  lemma {:induction false} MeansFlat(db: Database, p: Plan, a: Tuple)
    requires ValidDb(db) && PlanTyped(db, p) && WellPlaced(p)
    ensures Means(db, p, a) <==> a.Keys == Tabs(p) && InRange(db, a) && PlanHolds(db, p, a)
  {
    match p
    case Scan(t, cs) =>
    case Join(l, r, cs) =>
      if a.Keys == Tabs(l) + Tabs(r) {
        var x, y := Restrict(a, Tabs(l)), Restrict(a, Tabs(r));
        assert x.Keys == Tabs(l) && y.Keys == Tabs(r);
        MeansFlat(db, l, x);
        MeansFlat(db, r, y);
        PlanRestrict(db, l, a, Tabs(l));
        PlanRestrict(db, r, a, Tabs(r));
        RangeParts(db, a, Tabs(l), Tabs(r));
      }
  }

  lemma {:induction false} RangeParts(db: Database, a: Tuple, ls: set<string>, rs: set<string>)
    requires a.Keys == ls + rs
    ensures InRange(db, a) <==> InRange(db, Restrict(a, ls)) && InRange(db, Restrict(a, rs))
  {
    var x, y := Restrict(a, ls), Restrict(a, rs);
    if InRange(db, x) && InRange(db, y) {
      forall t | t in a ensures t in db && a[t] < |db[t].rows| {
        assert t in x || t in y;
      }
    }
  }

  /** make_one_rel preserves meaning: for every database, the plan means each combination of one row
      per table that satisfies all conditions of the query, exactly once, and nothing else. */
  lemma {:induction false} PlanIsQuery(db: Database, tables: seq<string>, conds: seq<Condition>, p: Plan, a: Tuple)
    requires ValidDb(db) && AllTyped(db, conds) && forall t :: t in tables ==> t in db
    requires Tabs(p) == (set t | t in tables) && PlanBag(p) == Bag(conds) && WellPlaced(p)
    ensures PlanTyped(db, p)
    ensures NoDup(Eval(db, p))
    ensures a in Eval(db, p) <==> (a.Keys == set t | t in tables) && InRange(db, a) && AllHold(db, conds, a)
  {
    BagTyped(db, conds);
    PlanBagTyped(db, p);
    hide Bag, PlanBag, ValidDb, Eval, Tabs, WellPlaced, PlanTyped, AllTyped;
    EvalNoDup(db, p);
    EvalIff(db, p, a);
    MeansFlat(db, p, a);
    PlanBagHolds(db, p, a);
    BagHolds(db, conds, a);
  }

  /** Plan a query: the statement above for the planner's own output. */
  method PlanQuery(tables: seq<string>, conds: seq<Condition>, ghost db: Database) returns (p: Plan)
    requires ValidQuery(tables, conds) && ValidDb(db) && AllTyped(db, conds) && forall t :: t in tables ==> t in db
    ensures p == PlanOf(tables, conds) && (WellPlaced(p) <==> FirstScanFits(tables, conds))
    ensures FirstScanFits(tables, conds) ==>
              && PlanTyped(db, p) && NoDup(Eval(db, p))
              && forall a :: a in Eval(db, p) <==> (a.Keys == set t | t in tables) && InRange(db, a) && AllHold(db, conds, a)
  {
    hide PlanOf;
    p := MakeOneRel(tables, conds);
    if WellPlaced(p) {
      PlanIsQuery(db, tables, conds, p, map[]);
      hide WellPlaced, Bag, PlanBag, ValidDb, Eval, AllHold, InRange, PlanTyped, AllTyped;
      forall a ensures a in Eval(db, p) <==> (a.Keys == set t | t in tables) && InRange(db, a) && AllHold(db, conds, a) {
        PlanIsQuery(db, tables, conds, p, a);
      }
    }
  }

  /** A query on which the plan cannot run: two tables, and a condition inside the second one.  Its
      condition lands on the scan of the first table. */
  method MisplacedCondition() returns (tables: seq<string>, conds: seq<Condition>, p: Plan)
    ensures ValidQuery(tables, conds) && !FirstScanFits(tables, conds) && !WellPlaced(p)
    ensures conds == [Condition(TabCol("b", "x"), OpEq, ColRef(TabCol("b", "y")))] && tables == ["a", "b"]
  {
    tables := ["a", "b"];
    conds := [Condition(TabCol("b", "x"), OpEq, ColRef(TabCol("b", "y")))];
    assert conds[0] in conds && SameTab(conds[0]);
    assert "b" != "a" by { assert "b"[0] != "a"[0]; }
    p := MakeOneRel(tables, conds);
  }
}
