/** Planner::make_one_rel: from a list of tables and conditions to a join tree. */
module Planner {
  import opened Seqs
  import opened Values
  import opened Plans
  import opened PlanShapes

  // ---------- conditions up to exchanging their two sides ----------

  ghost function Class(c: Condition): set<Condition> { {c, Swapped(c)} }

  ghost function Bag(cs: seq<Condition>): multiset<set<Condition>> {
    if cs == [] then multiset{} else Bag(cs[..|cs| - 1]) + multiset{Class(cs[|cs| - 1])}
  }

  ghost function PlanBag(p: Plan): multiset<set<Condition>> {
    match p
    case Scan(_, cs) => Bag(cs)
    case Join(l, r, cs) => PlanBag(l) + PlanBag(r) + Bag(cs)
  }

  lemma {:induction false} SumAssoc<T>(x: multiset<T>, y: multiset<T>, z: multiset<T>)
    ensures x + (y + z) == (x + y) + z
  {}

  lemma {:induction false} SumSwap<T>(x: multiset<T>, y: multiset<T>, z: multiset<T>)
    ensures (x + y) + z == (x + z) + y
  {}

  lemma {:induction false} BagAppend(a: seq<Condition>, b: seq<Condition>)
    ensures Bag(a + b) == Bag(a) + Bag(b)
  {
    hide Bag;
    EmptyBag();
    if b == [] {
      assert a + b == a;
    } else {
      var c, x := b[..|b| - 1], b[|b| - 1];
      assert b == c + [x] && a + b == (a + c) + [x];
      BagSnoc(c, x);
      BagSnoc(a + c, x);
      BagAppend(a, c);
      SumAssoc(Bag(a), Bag(c), multiset{Class(x)});
    }
  }

  lemma {:induction false} EmptyBag()
    ensures Bag([]) == multiset{}
  {}

  lemma {:induction false} BagSnoc(cs: seq<Condition>, c: Condition)
    ensures Bag(cs + [c]) == Bag(cs) + multiset{Class(c)}
  {
    assert (cs + [c])[..|cs|] == cs;
  }

  lemma {:induction false} BagOne(c: Condition)
    ensures Bag([c]) == multiset{Class(c)}
    ensures Class(Swapped(c)) == Class(c)
  {
    assert [c][..0] == [];
  }

  lemma {:induction false} BagHas(cs: seq<Condition>, k: set<Condition>)
    ensures k in Bag(cs) <==> exists i :: 0 <= i < |cs| && Class(cs[i]) == k
  {
    if cs != [] { BagHas(cs[..|cs| - 1], k); }
  }

  // ---------- shape of plans ----------

  ghost predicate DisjointTabs(p: Plan) {
    match p
    case Scan(_, _) => true
    case Join(l, r, _) => DisjointTabs(l) && DisjointTabs(r) && Tabs(l) !! Tabs(r)
  }

  // ---------- pop_conds ----------

  /** pop_conds: move the conditions for one table out of the list. */
  method PopConds(conds: seq<Condition>, tab: string) returns (solved: seq<Condition>, rest: seq<Condition>)
    ensures forall c :: c in solved <==> c in conds && Takes(c, tab)
    ensures forall c :: c in rest <==> c in conds && !Takes(c, tab)
    ensures Bag(solved) + Bag(rest) == Bag(conds)
    ensures solved == Popped(conds, tab) && rest == Spared(conds, tab)
  {
    hide Class, Takes, Bag, Popped, Spared;
    solved, rest := [], conds;
    PopNone(tab);
    var it := 0;
    ghost var k := 0;
    assert conds[..0] == [] && conds[0..] == conds;
    while it < |rest|
      invariant 0 <= it <= |rest| && 0 <= k <= |conds|
      invariant solved == Popped(conds[..k], tab) && rest == Spared(conds[..k], tab) + conds[k..] && it == |Spared(conds[..k], tab)|
      decreases |rest| - it
    {
      PopStep(conds, k, Spared(conds[..k], tab));
      PopSnoc(conds[..k], conds[k], tab);
      k := k + 1;
      if Takes(rest[it], tab) {
        solved := solved + [rest[it]];
        rest := rest[..it] + rest[it + 1..];
      } else {
        it := it + 1;
      }
    }
    PopEnd(conds, k, Spared(conds[..k], tab));
    PoppedBag(conds, tab);
    PoppedMeets(conds, tab);
  }

  /** Erasing at the cursor, or stepping over it. */
  lemma {:induction false} PopStep(conds: seq<Condition>, k: nat, kept: seq<Condition>)
    requires k <= |conds| && |kept| < |kept + conds[k..]|
    ensures var rest := kept + conds[k..];
            && k < |conds| && rest[|kept|] == conds[k] && conds[..k + 1] == conds[..k] + [conds[k]]
            && rest[..|kept|] + rest[|kept| + 1..] == kept + conds[k + 1..]
            && (kept + [conds[k]]) + conds[k + 1..] == rest
  {}

  lemma {:induction false} PopEnd(conds: seq<Condition>, k: nat, kept: seq<Condition>)
    requires k <= |conds| && |kept| >= |kept + conds[k..]|
    ensures kept + conds[k..] == kept && conds[..k] == conds
  {}

  lemma {:induction false} PoppedBag(cs: seq<Condition>, tab: string)
    ensures Bag(Popped(cs, tab)) + Bag(Spared(cs, tab)) == Bag(cs)
  {
    hide Class, Takes, Bag, Popped, Spared;
    PopNone(tab);
    EmptyBag();
    if cs != [] {
      var front, c := cs[..|cs| - 1], cs[|cs| - 1];
      assert cs == front + [c];
      PoppedBag(front, tab);
      PopSnoc(front, c, tab);
      BagSnoc(front, c);
      BagSnoc(Popped(front, tab), c);
      BagSnoc(Spared(front, tab), c);
      SumSwap(Bag(Popped(front, tab)), Bag(Spared(front, tab)), multiset{Class(c)});
      SumAssoc(Bag(Popped(front, tab)), Bag(Spared(front, tab)), multiset{Class(c)});
    }
  }

  // ---------- push_conds ----------

  function Code(lhsIn: bool, rhsIn: bool): int {
    (if lhsIn then 1 else 0) + (if rhsIn then 2 else 0)
  }

  /** push_conds: attach a condition to the lowest join that covers both its tables.  The result is
      1 or 2 when the plan only covers the left or right column, 0 for neither, 3 when attached. */
  method PushConds(cond: Condition, plan: Plan) returns (res: int, plan': Plan)
    requires CrossTab(cond) && DisjointTabs(plan)
    ensures res == Code(cond.lhs.tab in Tabs(plan), cond.rhs.c.tab in Tabs(plan))
    ensures res != 3 ==> plan' == plan
    ensures plan' == Pushed(cond, plan)
    ensures Tabs(plan') == Tabs(plan) && DisjointTabs(plan')
    ensures res == 3 ==> PlanBag(plan') == PlanBag(plan) + multiset{Class(cond)}
    ensures WellPlaced(plan') <==> WellPlaced(plan)
    decreases plan
  {
    PushedAt(cond, plan);
    PushedTabs(cond, plan);
    PushedBag(cond, plan);
    PushedPlaced(cond, plan);
    DisjointAt(cond, plan);
    hide Class, Bag, PlanBag, WellPlaced, Tabs, DisjointTabs, Pushed;
    match plan
    case Scan(t, _) =>
      plan' := plan;
      if t == cond.lhs.tab { res := 1; } else if t == cond.rhs.c.tab { res := 2; } else { res := 0; }
    case Join(l, r, cs) =>
      var leftRes, l' := PushConds(cond, l);
      if leftRes == 3 {
        return 3, Join(l', r, cs);
      }
      var rightRes, r' := PushConds(cond, r);
      if rightRes == 3 {
        return 3, Join(l, r', cs);
      }
      if leftRes == 0 || rightRes == 0 {
        return leftRes + rightRes, plan;
      }
      var c := cond;
      if leftRes == 2 {
        c := Condition(cond.rhs.c, SwapOp(cond.op), ColRef(cond.lhs));
      }
      res, plan' := 3, Join(l, r, cs + [c]);
  }

  /** Which inputs of a join have the tables of a condition. */
  lemma {:induction false} DisjointAt(c: Condition, p: Plan)
    requires CrossTab(c) && DisjointTabs(p)
    ensures p.Scan? ==> (c.lhs.tab in Tabs(p) <==> c.lhs.tab == p.tab) && (c.rhs.c.tab in Tabs(p) <==> c.rhs.c.tab == p.tab)
    ensures p.Join? ==>
              && DisjointTabs(p.left) && DisjointTabs(p.right)
              && (forall t :: t in Tabs(p) <==> t in Tabs(p.left) || t in Tabs(p.right))
              && (forall t :: t in Tabs(p.left) ==> t !in Tabs(p.right))
  {}

  lemma {:induction false} PushedTabs(c: Condition, p: Plan)
    requires CrossTab(c) && DisjointTabs(p)
    ensures Tabs(Pushed(c, p)) == Tabs(p) && DisjointTabs(Pushed(c, p))
    ensures !(c.lhs.tab in Tabs(p) && c.rhs.c.tab in Tabs(p)) ==> Pushed(c, p) == p
    decreases p
  {
    PushedAt(c, p);
    hide Pushed;
    if p.Join? {
      PushedTabs(c, p.left);
      PushedTabs(c, p.right);
    }
  }

  /** A condition whose tables the plan covers is attached once. */
  lemma {:induction false} PushedBag(c: Condition, p: Plan)
    requires CrossTab(c) && DisjointTabs(p)
    ensures c.lhs.tab in Tabs(p) && c.rhs.c.tab in Tabs(p) ==> PlanBag(Pushed(c, p)) == PlanBag(p) + multiset{Class(c)}
    decreases p
  {
    PushedAt(c, p);
    DisjointAt(c, p);
    PushedTabs(c, p);
    hide Pushed, Tabs, DisjointTabs, Class, Bag, PlanBag;
    if p.Join? {
      PushedBag(c, p.left);
      PushedBag(c, p.right);
      BagSnoc(p.conds, c);
      BagSnoc(p.conds, Swapped(c));
      BagOne(c);
      JoinBag(p);
      JoinBag(Pushed(c, p));
      SumInto(PlanBag(p.left), PlanBag(p.right), Bag(p.conds), multiset{Class(c)});
    }
  }

  lemma {:induction false} JoinBag(p: Plan)
    ensures p.Join? ==> PlanBag(p) == PlanBag(p.left) + PlanBag(p.right) + Bag(p.conds)
  {}

  lemma {:induction false} SumInto<T>(x: multiset<T>, y: multiset<T>, z: multiset<T>, k: multiset<T>)
    ensures (x + k) + y + z == x + y + z + k
    ensures x + (y + k) + z == x + y + z + k
    ensures x + y + (z + k) == x + y + z + k
  {}

  lemma {:induction false} PushedPlaced(c: Condition, p: Plan)
    requires CrossTab(c) && DisjointTabs(p)
    ensures WellPlaced(Pushed(c, p)) <==> WellPlaced(p)
    decreases p
  {
    PushedAt(c, p);
    DisjointAt(c, p);
    PushedTabs(c, p);
    if p.Join? {
      PushedTabs(c, p.left);
      PushedTabs(c, p.right);
      PushedPlaced(c, p.left);
      PushedPlaced(c, p.right);
      if c.lhs.tab in Tabs(p) && c.rhs.c.tab in Tabs(p) {
        CondsInSnoc(p.conds, c, Tabs(p));
        CondsInSnoc(p.conds, Swapped(c), Tabs(p));
      }
    }
    hide Pushed, CondsIn;
  }

  lemma {:induction false} CondsInSnoc(cs: seq<Condition>, c: Condition, ts: set<string>)
    requires CondTabs(c) <= ts
    ensures CondsIn(cs + [c], ts) <==> CondsIn(cs, ts)
  {
    if CondsIn(cs + [c], ts) {
      forall i | 0 <= i < |cs| ensures CondTabs(cs[i]) <= ts { assert (cs + [c])[i] == cs[i]; }
    }
  }

  // ---------- the scans ----------

  /** What the analyzer has checked: the tables differ, and every column belongs to a listed table. */
  ghost predicate ValidQuery(tables: seq<string>, conds: seq<Condition>) {
    && |tables| > 0
    && NoDup(tables)
    && "" !in tables
    && forall c :: c in conds ==> forall t :: t in CondTabs(c) ==> t in tables
  }

  ghost predicate ScansFor(tables: seq<string>, scans: seq<Plan>) {
    && |scans| == |tables|
    && forall i :: 0 <= i < |scans| ==> scans[i].Scan? && scans[i].tab == tables[i]
  }

  /** Each scan carries the conditions it should. */
  ghost predicate Made(tables: seq<string>, conds: seq<Condition>, scans: seq<Plan>) {
    tables != [] && |scans| == |tables| && forall i :: 0 <= i < |scans| ==> scans[i] == ScanOf(tables, conds, tables[i])
  }

  /** The conditions of the scans that are not in `done`, among the first n. */
  ghost function PendingBag(scans: seq<Plan>, done: set<string>, n: nat): multiset<set<Condition>>
    requires n <= |scans|
  {
    if n == 0 then multiset{}
    else PendingBag(scans, done, n - 1) + OneBag(scans[n - 1], done)
  }

  ghost function OneBag(p: Plan, done: set<string>): multiset<set<Condition>> {
    if Tabs(p) <= done then multiset{} else PlanBag(p)
  }

  lemma {:induction false} OneBagIs(p: Plan, done: set<string>)
    requires p.Scan?
    ensures OneBag(p, done) == if p.tab in done then multiset{} else PlanBag(p)
  {
    assert Tabs(p) == {p.tab};
  }

  /** Joining scan i moves its conditions from pending to the plan. */
  lemma {:induction false} PendingJoin(tables: seq<string>, scans: seq<Plan>, done: set<string>, n: nat, i: nat)
    requires ScansFor(tables, scans) && NoDup(tables) && n <= |scans| && i < |scans| && tables[i] !in done
    ensures PendingBag(scans, done, n) ==
            PendingBag(scans, done + {tables[i]}, n) + if i < n then PlanBag(scans[i]) else multiset{}
  {
    hide OneBag, PlanBag;
    if n > 0 {
      var d' := done + {tables[i]};
      PendingJoin(tables, scans, done, n - 1, i);
      OneBagIs(scans[n - 1], done);
      OneBagIs(scans[n - 1], d');
      if i < n - 1 {
        assert tables[n - 1] != tables[i];
        SumSwap(PendingBag(scans, d', n - 1), PlanBag(scans[i]), OneBag(scans[n - 1], done));
      } else if i > n - 1 {
        assert tables[n - 1] != tables[i];
      }
    }
  }

  lemma {:induction false} PendingNone(tables: seq<string>, scans: seq<Plan>, done: set<string>, n: nat)
    requires ScansFor(tables, scans) && n <= |scans| && forall i :: 0 <= i < n ==> tables[i] in done
    ensures PendingBag(scans, done, n) == multiset{}
  {
    hide OneBag;
    if n > 0 {
      PendingNone(tables, scans, done, n - 1);
      OneBagIs(scans[n - 1], done);
    }
  }

  /** The first scan carries every same-table condition; it can only filter on its own columns. */
  ghost predicate FirstScanFits(tables: seq<string>, conds: seq<Condition>)
    requires |tables| > 0
  {
    forall c :: c in conds && SameTab(c) ==> c.lhs.tab == tables[0]
  }

  ghost predicate ScanPlaced(tables: seq<string>, conds: seq<Condition>, p: Plan, i: nat)
    requires |tables| > 0
  {
    WellPlaced(p) <==> (i == 0 ==> FirstScanFits(tables, conds))
  }

  /** The first loop of make_one_rel: one scan per table, each with the conditions popped for it. */
  method MakeScans(tables: seq<string>, conds: seq<Condition>) returns (scans: seq<Plan>, rest: seq<Condition>)
    requires ValidQuery(tables, conds)
    ensures ScansFor(tables, scans)
    ensures forall c :: c in rest ==> c in conds && CrossTab(c)
    ensures PendingBag(scans, {}, |scans|) + Bag(rest) == Bag(conds)
    ensures forall i :: 0 <= i < |scans| ==> ScanPlaced(tables, conds, scans[i], i)
    ensures Made(tables, conds, scans) && rest == JoinConds(conds)
  {
    hide Bag, PendingBag, Takes, ScanPlaced, CondTabs, Left, ScanOf, Popped, Spared;
    scans, rest := [], conds;
    PendingEmpty(scans);
    LeftNone(tables, conds);
    var i := 0;
    while i < |tables|
      invariant 0 <= i <= |tables| && |scans| == i
      invariant forall x :: 0 <= x < i ==> scans[x].Scan? && scans[x].tab == tables[x]
      invariant forall c :: c in rest ==> c in conds
      invariant forall c :: c in rest ==> forall x :: 0 <= x < i ==> !Takes(c, tables[x])
      invariant i == 0 ==> rest == conds
      invariant PendingBag(scans, {}, i) + Bag(rest) == Bag(conds)
      invariant forall x :: 0 <= x < i ==> ScanPlaced(tables, conds, scans[x], x)
      invariant rest == Left(tables, conds, i) && forall x :: 0 <= x < i ==> scans[x] == ScanOf(tables, conds, tables[x])
    {
      LeftPopped(tables, conds, i);
      var curr, left := PopConds(rest, tables[i]);
      assert curr != [] ==> curr[0] in conds;
      PlaceScan(tables, conds, rest, curr, i);
      PendingAdd(scans, Scan(tables[i], curr), Bag(left), Bag(rest));
      scans := scans + [Scan(tables[i], curr)];
      rest := left;
      i := i + 1;
    }
    LhsListed(tables, conds);
    LeftAll(tables, conds);
  }

  lemma {:induction false} LhsListed(tables: seq<string>, conds: seq<Condition>)
    requires ValidQuery(tables, conds)
    ensures forall c :: c in conds ==> c.lhs.tab in tables
  {
    forall c | c in conds ensures c.lhs.tab in tables { assert c.lhs.tab in CondTabs(c); }
  }

  lemma {:induction false} PendingEmpty(scans: seq<Plan>)
    ensures PendingBag(scans, {}, 0) == multiset{}
  {}

  lemma {:induction false} PendingAdd(scans: seq<Plan>, p: Plan, left: multiset<set<Condition>>, rest: multiset<set<Condition>>)
    requires p.Scan? && Bag(p.conds) + left == rest
    ensures PendingBag(scans + [p], {}, |scans| + 1) + left == PendingBag(scans, {}, |scans|) + rest
  {
    var all := scans + [p];
    PendingPrefix(scans, all, {}, |scans|);
    assert Tabs(p) == {p.tab};
    assert p.tab in Tabs(p) && !(Tabs(p) <= {});
    assert all[|scans|] == p;
    hide Bag, Tabs;
    SumAssoc(PendingBag(scans, {}, |scans|), Bag(p.conds), left);
  }

  lemma {:induction false} PendingPrefix(a: seq<Plan>, b: seq<Plan>, done: set<string>, n: nat)
    requires n <= |a| <= |b| && b[..|a|] == a
    ensures PendingBag(a, done, n) == PendingBag(b, done, n)
  {
    hide OneBag;
    if n > 0 {
      PendingPrefix(a, b, done, n - 1);
      assert a[n - 1] == b[n - 1];
    }
  }

  lemma {:induction false} PlaceScan(tables: seq<string>, conds: seq<Condition>, rest: seq<Condition>, curr: seq<Condition>, i: nat)
    requires i < |tables|
    requires forall c :: c in curr <==> c in rest && Takes(c, tables[i])
    requires forall c :: c in rest ==> c in conds
    requires i == 0 ==> rest == conds
    requires forall c :: c in rest ==> forall x :: 0 <= x < i ==> !Takes(c, tables[x])
    ensures ScanPlaced(tables, conds, Scan(tables[i], curr), i)
  {
    var ts := {tables[i]};
    if i > 0 {
      forall j | 0 <= j < |curr| ensures CondTabs(curr[j]) <= ts {
        assert curr[j] in curr;
        assert !Takes(curr[j], tables[0]);
      }
    } else {
      if FirstScanFits(tables, conds) {
        forall j | 0 <= j < |curr| ensures CondTabs(curr[j]) <= ts { assert curr[j] in curr; }
      }
      if CondsIn(curr, ts) {
        forall c | c in conds && SameTab(c) ensures c.lhs.tab == tables[0] {
          assert c in curr;
          var j :| 0 <= j < |curr| && curr[j] == c;
          assert c.lhs.tab in CondTabs(curr[j]);
        }
      }
    }
  }

  // ---------- joining ----------

  /** pop_scan: mark the scan of a table as used.  i < 0 stands for a null plan. */
  method PopScan(scantbl: seq<int>, table: string, joined: seq<string>, scans: seq<Plan>, ghost tables: seq<string>)
      returns (scantbl': seq<int>, joined': seq<string>, i: int)
    requires ScansFor(tables, scans) && |scantbl| == |scans| && NoDup(tables)
    ensures table in tables <==> i >= 0
    ensures i < 0 ==> scantbl' == scantbl && joined' == joined
    ensures i >= 0 ==> i < |scans| && tables[i] == table && scantbl' == scantbl[i := 1] && joined' == joined + [table]
  {
    var k := 0;
    while k < |scans|
      invariant 0 <= k <= |scans|
      invariant forall x :: 0 <= x < k ==> tables[x] != table
    {
      if scans[k].tab == table {
        return scantbl[k := 1], joined + [scans[k].tab], k;
      }
      k := k + 1;
    }
    return scantbl, joined, -1;
  }

  /** Conditions are neither lost nor doubled: attached + still in unused scans + still to do = all. */
  ghost predicate Balanced(scans: seq<Plan>, plan: Plan, rest: seq<Condition>, conds: seq<Condition>) {
    PlanBag(plan) + PendingBag(scans, Tabs(plan), |scans|) + Bag(rest) == Bag(conds)
  }

  /** The plan built so far. */
  ghost predicate Shape(tables: seq<string>, conds: seq<Condition>, scans: seq<Plan>, plan: Plan) {
    && |tables| > 0
    && ScansFor(tables, scans)
    && DisjointTabs(plan)
    && (forall t :: t in Tabs(plan) ==> t in tables)
    && (WellPlaced(plan) <==> (tables[0] in Tabs(plan) ==> FirstScanFits(tables, conds)))
    && (forall i :: 0 <= i < |scans| ==> ScanPlaced(tables, conds, scans[i], i))
  }

  ghost predicate Marks(tables: seq<string>, plan: Plan, scantbl: seq<int>) {
    |scantbl| == |tables| && forall i :: 0 <= i < |tables| ==> scantbl[i] == if tables[i] in Tabs(plan) then 1 else -1
  }

  ghost predicate Names(tables: seq<string>, plan: Plan, joined: seq<string>) {
    forall t :: t in tables ==> (t in joined <==> t in Tabs(plan))
  }

  lemma {:induction false} SumMove<T>(p: multiset<T>, q: multiset<T>, r: multiset<T>, s: multiset<T>, c: multiset<T>)
    ensures (q + p + c) + r + s == p + (r + q) + (c + s)
  {}

  lemma {:induction false} BalancedJoin(tables: seq<string>, scans: seq<Plan>, plan: Plan, i: nat, cs: seq<Condition>,
                                        rest: seq<Condition>, rest': seq<Condition>, conds: seq<Condition>)
    requires ScansFor(tables, scans) && NoDup(tables) && i < |scans| && tables[i] !in Tabs(plan)
    requires Balanced(scans, plan, rest, conds) && Bag(cs) + Bag(rest') == Bag(rest)
    ensures Balanced(scans, Join(scans[i], plan, cs), rest', conds)
  {
    hide Bag, PendingBag;
    PendingJoin(tables, scans, Tabs(plan), |scans|, i);
    var p := Join(scans[i], plan, cs);
    assert Tabs(p) == Tabs(plan) + {tables[i]};
    SumMove(PlanBag(plan), PlanBag(scans[i]), PendingBag(scans, Tabs(p), |scans|), Bag(rest'), Bag(cs));
  }

  lemma {:induction false} ShapeJoin(tables: seq<string>, conds: seq<Condition>, scans: seq<Plan>, plan: Plan, i: nat, cs: seq<Condition>)
    requires Shape(tables, conds, scans, plan) && NoDup(tables) && i < |scans| && tables[i] !in Tabs(plan)
    requires CondsIn(cs, {tables[i]} + Tabs(plan))
    ensures Shape(tables, conds, scans, Join(scans[i], plan, cs))
    ensures Tabs(Join(scans[i], plan, cs)) == {tables[i]} + Tabs(plan)
  {
    assert ScanPlaced(tables, conds, scans[i], i);
    var p := Join(scans[i], plan, cs);
    assert Tabs(p) == {tables[i]} + Tabs(plan);
    assert tables[i] in tables;
    hide FirstScanFits, CondsIn;
    if i > 0 { assert tables[0] != tables[i]; }
    assert CondsIn(cs, Tabs(p));
    assert DisjointTabs(p);
    assert forall t :: t in Tabs(p) ==> t in tables;
    assert WellPlaced(p) <==> WellPlaced(scans[i]) && WellPlaced(plan);
    assert WellPlaced(p) <==> (tables[0] in Tabs(p) ==> FirstScanFits(tables, conds));
  }

  /** A single scan as a plan. */
  lemma {:induction false} ShapeScan(tables: seq<string>, conds: seq<Condition>, scans: seq<Plan>, i: nat)
    requires |tables| > 0 && ScansFor(tables, scans) && NoDup(tables) && i < |scans|
    requires forall i :: 0 <= i < |scans| ==> ScanPlaced(tables, conds, scans[i], i)
    ensures Shape(tables, conds, scans, scans[i])
  {
    assert ScanPlaced(tables, conds, scans[i], i);
    if i > 0 { assert tables[0] != tables[i]; }
  }

  lemma {:induction false} BalancedScan(tables: seq<string>, scans: seq<Plan>, i: nat, rest: seq<Condition>, conds: seq<Condition>)
    requires ScansFor(tables, scans) && NoDup(tables) && i < |scans|
    requires PendingBag(scans, {}, |scans|) + Bag(rest) == Bag(conds)
    ensures Balanced(scans, scans[i], rest, conds)
  {
    PendingJoin(tables, scans, {}, |scans|, i);
    assert {} + {tables[i]} == Tabs(scans[i]);
    hide PendingBag, Bag;
  }

  /** Two joins in a row: a join of two fresh scans, put in front of the plan. */
  lemma {:induction false} JoinBoth(tables: seq<string>, conds: seq<Condition>, scans: seq<Plan>, plan: Plan, i: nat, j: nat, c: Condition,
                                    rest: seq<Condition>, rest': seq<Condition>)
    requires Shape(tables, conds, scans, plan) && NoDup(tables) && i < |scans| && j < |scans| && i != j
    requires tables[i] !in Tabs(plan) && tables[j] !in Tabs(plan) && CondTabs(c) <= {tables[i], tables[j]}
    requires Balanced(scans, plan, rest, conds) && Bag([c]) + Bag(rest') == Bag(rest)
    ensures var p := Join(Join(scans[i], scans[j], [c]), plan, []);
            && Shape(tables, conds, scans, p) && Balanced(scans, p, rest', conds)
            && Tabs(p) == {tables[i], tables[j]} + Tabs(plan)
  {
    assert tables[i] != tables[j];
    BothShape(tables, conds, scans, plan, i, j, c);
    BothBalanced(tables, scans, plan, i, j, c, rest, rest', conds);
  }

  lemma {:induction false} BothShape(tables: seq<string>, conds: seq<Condition>, scans: seq<Plan>, plan: Plan, i: nat, j: nat, c: Condition)
    requires Shape(tables, conds, scans, plan) && NoDup(tables) && i < |scans| && j < |scans| && tables[i] != tables[j]
    requires tables[i] !in Tabs(plan) && tables[j] !in Tabs(plan) && CondTabs(c) <= {tables[i], tables[j]}
    ensures var p := Join(Join(scans[i], scans[j], [c]), plan, []);
            Shape(tables, conds, scans, p) && Tabs(p) == {tables[i], tables[j]} + Tabs(plan)
  {
    assert ScanPlaced(tables, conds, scans[i], i) && ScanPlaced(tables, conds, scans[j], j);
    var inner := Join(scans[i], scans[j], [c]);
    assert Tabs(inner) == {tables[i], tables[j]};
    assert CondsIn([c], Tabs(inner));
    assert tables[i] in tables && tables[j] in tables;
    hide FirstScanFits, CondsIn;
    var p := Join(inner, plan, []);
    assert WellPlaced(inner) <==> WellPlaced(scans[i]) && WellPlaced(scans[j]);
    assert Tabs(p) == Tabs(inner) + Tabs(plan);
    if i > 0 { assert tables[0] != tables[i]; }
    if j > 0 { assert tables[0] != tables[j]; }
    EmptyCondsIn(Tabs(p));
    assert DisjointTabs(p) by { assert DisjointTabs(inner); }
    assert WellPlaced(p) <==> WellPlaced(inner) && WellPlaced(plan);
    assert WellPlaced(p) <==> (tables[0] in Tabs(p) ==> FirstScanFits(tables, conds));
  }

  lemma {:induction false} EmptyCondsIn(ts: set<string>)
    ensures CondsIn([], ts)
  {}

  lemma {:induction false} SumMove2<T>(p: multiset<T>, q: multiset<T>, u: multiset<T>, r: multiset<T>, s: multiset<T>, c: multiset<T>)
    ensures ((q + u + c) + p) + r + s == p + ((r + u) + q) + (c + s)
  {}

  lemma {:induction false} SumNothing<T>(x: multiset<T>)
    ensures x + multiset{} == x
  {}

  lemma {:induction false} BothBalanced(tables: seq<string>, scans: seq<Plan>, plan: Plan, i: nat, j: nat, c: Condition,
                                        rest: seq<Condition>, rest': seq<Condition>, conds: seq<Condition>)
    requires ScansFor(tables, scans) && NoDup(tables) && i < |scans| && j < |scans| && tables[i] != tables[j]
    requires tables[i] !in Tabs(plan) && tables[j] !in Tabs(plan)
    requires Balanced(scans, plan, rest, conds) && Bag([c]) + Bag(rest') == Bag(rest)
    ensures Balanced(scans, Join(Join(scans[i], scans[j], [c]), plan, []), rest', conds)
  {
    EmptyBag();
    hide Bag, PendingBag;
    var t0 := Tabs(plan);
    PendingJoin(tables, scans, t0, |scans|, i);
    PendingJoin(tables, scans, t0 + {tables[i]}, |scans|, j);
    var inner := Join(scans[i], scans[j], [c]);
    var p := Join(inner, plan, []);
    assert Tabs(inner) == {tables[i]} + {tables[j]};
    assert Tabs(p) == Tabs(inner) + t0;
    assert Tabs(p) == t0 + {tables[i]} + {tables[j]};
    assert PlanBag(inner) == PlanBag(scans[i]) + PlanBag(scans[j]) + Bag([c]);
    assert PlanBag(p) == PlanBag(inner) + PlanBag(plan) + Bag([]);
    SumMove2(PlanBag(plan), PlanBag(scans[i]), PlanBag(scans[j]), PendingBag(scans, Tabs(p), |scans|), Bag(rest'), Bag([c]));
    SumNothing(PlanBag(inner) + PlanBag(plan));
  }

  lemma {:induction false} FirstOut(rest: seq<Condition>)
    requires rest != []
    ensures Bag([rest[0]]) + Bag(rest[1..]) == Bag(rest)
    ensures Bag([Swapped(rest[0])]) + Bag(rest[1..]) == Bag(rest)
  {
    assert rest == [rest[0]] + rest[1..];
    BagAppend([rest[0]], rest[1..]);
    BagOne(rest[0]);
    BagOne(Swapped(rest[0]));
  }

  lemma {:induction false} BalancedPush(scans: seq<Plan>, plan: Plan, plan': Plan, rest: seq<Condition>, conds: seq<Condition>)
    requires rest != [] && Balanced(scans, plan, rest, conds)
    requires Tabs(plan') == Tabs(plan) && PlanBag(plan') == PlanBag(plan) + multiset{Class(rest[0])}
    ensures Balanced(scans, plan', rest[1..], conds)
  {
    FirstOut(rest);
    BagOne(rest[0]);
    hide Bag, PendingBag, Class, PlanBag, Tabs;
    SumPush(PlanBag(plan), PendingBag(scans, Tabs(plan), |scans|), Bag([rest[0]]), Bag(rest[1..]));
  }

  lemma {:induction false} SumPush<T>(p: multiset<T>, r: multiset<T>, c: multiset<T>, s: multiset<T>)
    ensures p + r + (c + s) == (p + c) + r + s
  {}

  lemma {:induction false} MarksJoin(tables: seq<string>, plan: Plan, plan': Plan, scantbl: seq<int>, joined: seq<string>, i: nat)
    requires NoDup(tables) && i < |tables| && Marks(tables, plan, scantbl) && Names(tables, plan, joined)
    requires Tabs(plan') == {tables[i]} + Tabs(plan)
    ensures Marks(tables, plan', scantbl[i := 1]) && Names(tables, plan', joined + [tables[i]])
  {
    forall x | 0 <= x < |tables| ensures scantbl[i := 1][x] == if tables[x] in Tabs(plan') then 1 else -1 {
      if x != i { assert tables[x] != tables[i]; }
    }
  }

  lemma {:induction false} MarksBoth(tables: seq<string>, plan: Plan, plan': Plan, scantbl: seq<int>, joined: seq<string>, i: nat, j: nat)
    requires NoDup(tables) && i < |tables| && j < |tables| && Marks(tables, plan, scantbl) && Names(tables, plan, joined)
    requires Tabs(plan') == {tables[i], tables[j]} + Tabs(plan)
    ensures Marks(tables, plan', scantbl[i := 1][j := 1]) && Names(tables, plan', joined + [tables[i]] + [tables[j]])
  {
    var s' := scantbl[i := 1][j := 1];
    forall x | 0 <= x < |tables| ensures s'[x] == if tables[x] in Tabs(plan') then 1 else -1 {
      if x != i { assert tables[x] != tables[i]; }
      if x != j { assert tables[x] != tables[j]; }
    }
  }

  lemma {:induction false} OneCondIn(c: Condition, ts: set<string>)
    requires CondTabs(c) <= ts
    ensures CondsIn([c], ts) && CondsIn([Swapped(c)], ts)
  {}

  /** One round of the second loop of make_one_rel, for the condition rest[0]. */
  method JoinNext(tables: seq<string>, scans: seq<Plan>, plan: Plan, scantbl: seq<int>, joined: seq<string>, rest: seq<Condition>,
                  ghost conds: seq<Condition>)
      returns (plan': Plan, scantbl': seq<int>, joined': seq<string>)
    requires NoDup(tables) && Shape(tables, conds, scans, plan) && Marks(tables, plan, scantbl) && Names(tables, plan, joined)
    requires rest != [] && CrossTab(rest[0]) && rest[0].lhs.tab in tables && rest[0].rhs.c.tab in tables
    requires Balanced(scans, plan, rest, conds) && Made(tables, conds, scans)
    ensures Shape(tables, conds, scans, plan') && Marks(tables, plan', scantbl') && Names(tables, plan', joined')
    ensures Balanced(scans, plan', rest[1..], conds)
    ensures plan' == Joined(tables, conds, plan, rest[0])
  {
    var c := rest[0];
    FirstOut(rest);
    ShapeParts(tables, conds, scans, plan);
    NamesAt(tables, plan, joined, c.lhs.tab);
    NamesAt(tables, plan, joined, c.rhs.c.tab);
    MarksLength(tables, plan, scantbl);
    JoinedCases(tables, conds, plan, c);
    hide Balanced, Marks, Bag, PlanBag, WellPlaced, Shape, Names, NoDup, ScansFor, DisjointTabs, Tabs, Class, ScanOf, Pushed, Joined;
    scantbl', joined' := scantbl, joined;
    var li, ri, reverse := -1, -1, false;
    if c.lhs.tab !in joined' {
      scantbl', joined', li := PopScan(scantbl', c.lhs.tab, joined', scans, tables);
    }
    if c.rhs.c.tab !in joined' {
      scantbl', joined', ri := PopScan(scantbl', c.rhs.c.tab, joined', scans, tables);
      reverse := true;
    }
    if li >= 0 && ri >= 0 {
      plan' := Join(Join(scans[li], scans[ri], [c]), plan, []);
      JoinBoth(tables, conds, scans, plan, li, ri, c, rest, rest[1..]);
      MarksBoth(tables, plan, plan', scantbl, joined, li, ri);
    } else if li >= 0 || ri >= 0 {
      if reverse {
        c := Condition(c.rhs.c, SwapOp(c.op), ColRef(c.lhs));
        li := ri;
      }
      plan' := Join(scans[li], plan, [c]);
      OneCondIn(rest[0], {tables[li]} + Tabs(plan));
      ShapeJoin(tables, conds, scans, plan, li, [c]);
      BalancedJoin(tables, scans, plan, li, [c], rest, rest[1..], conds);
      MarksJoin(tables, plan, plan', scantbl, joined, li);
    } else {
      var res;
      res, plan' := PushConds(c, plan);
      ShapePush(tables, conds, scans, plan, plan');
      BalancedPush(scans, plan, plan', rest, conds);
      MarksSame(tables, plan, plan', scantbl, joined);
    }
  }

  lemma {:induction false} ShapeParts(tables: seq<string>, conds: seq<Condition>, scans: seq<Plan>, plan: Plan)
    requires Shape(tables, conds, scans, plan)
    ensures ScansFor(tables, scans) && |scans| == |tables| && DisjointTabs(plan)
  {}

  lemma {:induction false} NamesAt(tables: seq<string>, plan: Plan, joined: seq<string>, t: string)
    requires Names(tables, plan, joined) && t in tables
    ensures t in joined <==> t in Tabs(plan)
  {}

  lemma {:induction false} ShapePush(tables: seq<string>, conds: seq<Condition>, scans: seq<Plan>, plan: Plan, plan': Plan)
    requires Shape(tables, conds, scans, plan) && Tabs(plan') == Tabs(plan) && DisjointTabs(plan')
    requires WellPlaced(plan') <==> WellPlaced(plan)
    ensures Shape(tables, conds, scans, plan')
  {}

  lemma {:induction false} MarksLength(tables: seq<string>, plan: Plan, scantbl: seq<int>)
    requires Marks(tables, plan, scantbl)
    ensures |scantbl| == |tables|
  {}

  lemma {:induction false} MarksSame(tables: seq<string>, plan: Plan, plan': Plan, scantbl: seq<int>, joined: seq<string>)
    requires Marks(tables, plan, scantbl) && Names(tables, plan, joined) && Tabs(plan') == Tabs(plan)
    ensures Marks(tables, plan', scantbl) && Names(tables, plan', joined)
  {}

  /** Planner::make_one_rel.  Each table is scanned once, each condition is attached once, possibly with
      its sides exchanged, and the conditions are well placed exactly when none compares two columns of a
      table other than the first. */
  method MakeOneRel(tables: seq<string>, conds: seq<Condition>) returns (plan: Plan)
    requires ValidQuery(tables, conds)
    ensures Tabs(plan) == set t | t in tables
    ensures DisjointTabs(plan)
    ensures PlanBag(plan) == Bag(conds)
    ensures WellPlaced(plan) <==> FirstScanFits(tables, conds)
    ensures plan == PlanOf(tables, conds)
  {
    hide Balanced, Marks, Bag, PlanBag, WellPlaced, Shape, Names, DisjointTabs, Tabs, Class, PendingBag, FirstScanFits, ScanPlaced;
    hide ScanOf, JoinConds, ByConds, WithRest;
    var scans, rest := MakeScans(tables, conds);
    assert rest != [] ==> rest[0] in conds;
    if |tables| == 1 {
      plan := scans[0];
      NothingLeft(tables, conds, rest);
      ShapeScan(tables, conds, scans, 0);
      BalancedScan(tables, scans, 0, rest, conds);
      ScanTabs(scans[0]);
      OneTable(tables, conds);
      Finished(tables, conds, scans, plan);
      return;
    }
    var scantbl := seq(|tables|, i => -1);
    if |rest| >= 1 {
      plan, scantbl := JoinByConds(tables, scans, scantbl, rest, conds);
    } else {
      plan := scans[0];
      scantbl := scantbl[0 := 1];
      ShapeScan(tables, conds, scans, 0);
      BalancedScan(tables, scans, 0, rest, conds);
      StartMarks(tables, scans[0], scantbl);
    }
    plan := JoinRemaining(tables, scans, plan, scantbl, conds);
    Finished(tables, conds, scans, plan);
  }

  lemma {:induction false} OneTable(tables: seq<string>, conds: seq<Condition>)
    requires |tables| == 1 && JoinConds(conds) == []
    ensures PlanOf(tables, conds) == ScanOf(tables, conds, tables[0])
  {
    var p := ScanOf(tables, conds, tables[0]);
    assert tables[0] in Tabs(p);
    assert WithRest(tables, conds, p, 0) == p;
  }

  lemma {:induction false} ScanTabs(p: Plan)
    requires p.Scan?
    ensures Tabs(p) == {p.tab}
  {}

  lemma {:induction false} NothingLeft(tables: seq<string>, conds: seq<Condition>, rest: seq<Condition>)
    requires ValidQuery(tables, conds) && |tables| == 1 && forall c :: c in rest ==> c in conds && CrossTab(c)
    ensures rest == []
  {
    assert rest != [] ==> rest[0] in rest;
    forall c | c in conds ensures !CrossTab(c) {
      if c.rhs.ColRef? { assert c.lhs.tab in CondTabs(c) && c.rhs.c.tab in CondTabs(c); }
    }
  }

  lemma {:induction false} StartMarks(tables: seq<string>, p: Plan, scantbl: seq<int>)
    requires NoDup(tables) && |tables| > 0 && p.Scan? && p.tab == tables[0]
    requires |scantbl| == |tables| && forall i :: 0 <= i < |tables| ==> scantbl[i] == if i == 0 then 1 else -1
    ensures Marks(tables, p, scantbl)
  {
    forall i | 0 <= i < |tables| ensures scantbl[i] == if tables[i] in Tabs(p) then 1 else -1 {
      if i > 0 { assert tables[0] != tables[i]; }
    }
  }

  /** The part of make_one_rel that follows the join conditions. */
  method JoinByConds(tables: seq<string>, scans: seq<Plan>, scantbl0: seq<int>, rest0: seq<Condition>, ghost conds: seq<Condition>)
      returns (plan: Plan, scantbl: seq<int>)
    requires ValidQuery(tables, conds) && ScansFor(tables, scans)
    requires forall i :: 0 <= i < |scans| ==> ScanPlaced(tables, conds, scans[i], i)
    requires |scantbl0| == |tables| && forall i :: 0 <= i < |tables| ==> scantbl0[i] == -1
    requires rest0 != [] && forall c :: c in rest0 ==> c in conds && CrossTab(c)
    requires PendingBag(scans, {}, |scans|) + Bag(rest0) == Bag(conds)
    requires Made(tables, conds, scans) && AllCross(rest0)
    ensures Shape(tables, conds, scans, plan) && Marks(tables, plan, scantbl) && Balanced(scans, plan, [], conds)
    ensures plan == ByConds(tables, conds, rest0)
  {
    hide Balanced, Marks, Bag, PlanBag, WellPlaced, Shape, Names, DisjointTabs, Tabs, Class, PendingBag, ScanPlaced, ScanOf, Joined;
    var c := rest0[0];
    CondTablesListed(tables, conds, c);
    var joined := seq(|tables|, i => "");
    var li, ri;
    scantbl, joined, li := PopScan(scantbl0, c.lhs.tab, joined, scans, tables);
    scantbl, joined, ri := PopScan(scantbl, c.rhs.c.tab, joined, scans, tables);
    plan := Join(scans[li], scans[ri], [c]);
    FirstJoin(tables, conds, scans, li, ri, rest0);
    FirstMarks(tables, conds, scans, plan, li, ri, scantbl, joined);
    var rest := rest0[1..];
    ghost var n := 1;
    FirstPlan(tables, conds, rest0);
    while rest != []
      invariant forall c :: c in rest ==> c in rest0
      invariant 1 <= n <= |rest0| && rest == rest0[n..] && plan == ByConds(tables, conds, rest0[..n])
      invariant Shape(tables, conds, scans, plan) && Marks(tables, plan, scantbl) && Names(tables, plan, joined)
      invariant Balanced(scans, plan, rest, conds)
      decreases |rest|
    {
      CondTablesListed(tables, conds, rest[0]);
      NextPlan(tables, conds, rest0, n);
      plan, scantbl, joined := JoinNext(tables, scans, plan, scantbl, joined, rest, conds);
      rest, n := rest[1..], n + 1;
    }
    assert rest0[..n] == rest0;
  }

  lemma {:induction false} FirstPlan(tables: seq<string>, conds: seq<Condition>, js: seq<Condition>)
    requires tables != [] && js != [] && AllCross(js)
    ensures ByConds(tables, conds, js[..1]) == Join(ScanOf(tables, conds, js[0].lhs.tab), ScanOf(tables, conds, js[0].rhs.c.tab), [js[0]])
  {
    assert js[..1] == [js[0]];
  }

  lemma {:induction false} NextPlan(tables: seq<string>, conds: seq<Condition>, js: seq<Condition>, n: nat)
    requires tables != [] && 1 <= n < |js| && AllCross(js)
    ensures ByConds(tables, conds, js[..n + 1]) == Joined(tables, conds, ByConds(tables, conds, js[..n]), js[n])
  {
    hide Joined;
    assert js[..n + 1][..n] == js[..n];
  }

  lemma {:induction false} CondTablesListed(tables: seq<string>, conds: seq<Condition>, c: Condition)
    requires ValidQuery(tables, conds) && c in conds && CrossTab(c)
    ensures c.lhs.tab in tables && c.rhs.c.tab in tables
  {
    assert c.lhs.tab in CondTabs(c) && c.rhs.c.tab in CondTabs(c);
  }

  lemma {:induction false} FirstJoin(tables: seq<string>, conds: seq<Condition>, scans: seq<Plan>, i: nat, j: nat, rest: seq<Condition>)
    requires ValidQuery(tables, conds) && ScansFor(tables, scans) && i < |scans| && j < |scans|
    requires forall i :: 0 <= i < |scans| ==> ScanPlaced(tables, conds, scans[i], i)
    requires rest != [] && CrossTab(rest[0]) && tables[i] == rest[0].lhs.tab && tables[j] == rest[0].rhs.c.tab
    requires PendingBag(scans, {}, |scans|) + Bag(rest) == Bag(conds)
    ensures var p := Join(scans[i], scans[j], [rest[0]]);
            && Shape(tables, conds, scans, p) && Balanced(scans, p, rest[1..], conds)
            && Tabs(p) == {tables[i]} + {tables[j]}
  {
    hide Bag, PendingBag, PlanBag, FirstScanFits;
    var c := rest[0];
    FirstOut(rest);
    ShapeScan(tables, conds, scans, j);
    BalancedScan(tables, scans, j, rest, conds);
    ScanTabs(scans[j]);
    OneCondIn(c, {tables[i]} + Tabs(scans[j]));
    hide Shape, Balanced;
    ShapeJoin(tables, conds, scans, scans[j], i, [c]);
    BalancedJoin(tables, scans, scans[j], i, [c], rest, rest[1..], conds);
  }

  lemma {:induction false} FirstMarks(tables: seq<string>, conds: seq<Condition>, scans: seq<Plan>, p: Plan, i: nat, j: nat,
                                      scantbl: seq<int>, joined: seq<string>)
    requires ValidQuery(tables, conds) && i < |tables| && j < |tables| && Tabs(p) == {tables[i]} + {tables[j]}
    requires |scantbl| == |tables| && forall x :: 0 <= x < |tables| ==> scantbl[x] == if x == i || x == j then 1 else -1
    requires tables[i] in joined && tables[j] in joined && forall t :: t in joined ==> t == "" || t == tables[i] || t == tables[j]
    ensures Marks(tables, p, scantbl) && Names(tables, p, joined)
  {
    forall x | 0 <= x < |tables| ensures scantbl[x] == if tables[x] in Tabs(p) then 1 else -1 {
      if x != i { assert tables[x] != tables[i]; }
      if x != j { assert tables[x] != tables[j]; }
    }
  }

  /** The last loop of make_one_rel: cross-join the tables no condition mentioned. */
  method JoinRemaining(tables: seq<string>, scans: seq<Plan>, plan0: Plan, scantbl: seq<int>, ghost conds: seq<Condition>) returns (plan: Plan)
    requires NoDup(tables) && Shape(tables, conds, scans, plan0) && Marks(tables, plan0, scantbl) && Balanced(scans, plan0, [], conds)
    requires Made(tables, conds, scans)
    ensures Shape(tables, conds, scans, plan) && Balanced(scans, plan, [], conds)
    ensures forall i :: 0 <= i < |tables| ==> tables[i] in Tabs(plan)
    ensures plan == WithRest(tables, conds, plan0, |tables|)
  {
    hide Balanced, Bag, PlanBag, WellPlaced, Shape, DisjointTabs, Class, PendingBag, ScanPlaced, CondsIn, ScanOf;
    ShapeParts(tables, conds, scans, plan0);
    plan := plan0;
    var i := 0;
    while i < |tables|
      invariant 0 <= i <= |tables|
      invariant Shape(tables, conds, scans, plan) && Balanced(scans, plan, [], conds)
      invariant forall x :: 0 <= x < i ==> tables[x] in Tabs(plan)
      invariant forall x :: i <= x < |tables| ==> (tables[x] in Tabs(plan) <==> tables[x] in Tabs(plan0))
      invariant plan == WithRest(tables, conds, plan0, i)
    {
      if scantbl[i] == -1 {
        EmptyCondsIn({tables[i]} + Tabs(plan));
        EmptyBag();
        ShapeJoin(tables, conds, scans, plan, i, []);
        BalancedJoin(tables, scans, plan, i, [], [], [], conds);
        plan := Join(scans[i], plan, []);
      }
      i := i + 1;
    }
  }

  lemma {:induction false} Finished(tables: seq<string>, conds: seq<Condition>, scans: seq<Plan>, plan: Plan)
    requires |tables| > 0 && Shape(tables, conds, scans, plan) && Balanced(scans, plan, [], conds)
    requires forall i :: 0 <= i < |tables| ==> tables[i] in Tabs(plan)
    ensures Tabs(plan) == set t | t in tables
    ensures DisjointTabs(plan) && PlanBag(plan) == Bag(conds)
    ensures WellPlaced(plan) <==> FirstScanFits(tables, conds)
  {
    PendingNone(tables, scans, Tabs(plan), |scans|);
    EmptyBag();
    forall t | t in tables ensures t in Tabs(plan) { var i :| 0 <= i < |tables| && tables[i] == t; }
    SumNothing(PlanBag(plan));
  }
}
