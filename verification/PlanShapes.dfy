/** The plan that make_one_rel builds, condition by condition and table by table. */
module PlanShapes {
  import opened Seqs
  import opened Values
  import opened Plans

  function Swapped(c: Condition): Condition {
    match c.rhs
    case ColRef(r) => Condition(r, SwapOp(c.op), ColRef(c.lhs))
    case Const(_) => c
  }

  predicate SameTab(c: Condition) { c.rhs.ColRef? && c.rhs.c.tab == c.lhs.tab }

  predicate CrossTab(c: Condition) { c.rhs.ColRef? && c.rhs.c.tab != c.lhs.tab }

  /** The test in pop_conds.  A condition between two columns of one table is taken by whichever
      table asks first. */
  predicate Takes(c: Condition, tab: string) {
    (c.lhs.tab == tab && c.rhs.Const?) || SameTab(c)
  }

  // ---------- which conditions go where ----------

  /** The conditions of the list that meet p, in their order. */
  function Filtered(cs: seq<Condition>, p: Condition -> bool): seq<Condition> {
    if cs == [] then []
    else Filtered(cs[..|cs| - 1], p) + if p(cs[|cs| - 1]) then [cs[|cs| - 1]] else []
  }

  function Popped(cs: seq<Condition>, tab: string): seq<Condition> { Filtered(cs, c => Takes(c, tab)) }

  function Spared(cs: seq<Condition>, tab: string): seq<Condition> { Filtered(cs, c => !Takes(c, tab)) }

  /** Of the tables of a query, starting with `first`, the scan of t filters by this condition. */
  predicate FiltersBy(first: string, t: string, c: Condition) {
    if SameTab(c) then t == first else c.rhs.Const? && c.lhs.tab == t
  }

  /** The scan of a table: its comparisons with constants, on the first table also all comparisons inside one table. */
  function ScanOf(tables: seq<string>, conds: seq<Condition>, t: string): (p: Plan)
    requires tables != []
    ensures p.Scan? && p.tab == t
  {
    Scan(t, Filtered(conds, c => FiltersBy(tables[0], t, c)))
  }

  ghost predicate AllCross(cs: seq<Condition>) { forall i :: 0 <= i < |cs| ==> CrossTab(cs[i]) }

  /** What is left for the joins. */
  function JoinConds(conds: seq<Condition>): (r: seq<Condition>)
    ensures AllCross(r) && forall c :: c in r <==> c in conds && CrossTab(c)
  {
    var p := c => CrossTab(c);
    FilteredMeets(conds, p);
    var r := Filtered(conds, p);
    assert forall i :: 0 <= i < |r| ==> r[i] in r;
    r
  }

  lemma {:induction false} FilteredSnoc(cs: seq<Condition>, c: Condition, p: Condition -> bool)
    ensures Filtered(cs + [c], p) == Filtered(cs, p) + if p(c) then [c] else []
  {
    assert (cs + [c])[..|cs|] == cs;
  }

  lemma {:induction false} FilteredSame(cs: seq<Condition>, p: Condition -> bool, q: Condition -> bool)
    requires forall c :: c in cs ==> p(c) == q(c)
    ensures Filtered(cs, p) == Filtered(cs, q)
  {
    if cs != [] { FilteredSame(cs[..|cs| - 1], p, q); }
  }

  lemma {:induction false} FilteredMeets(cs: seq<Condition>, p: Condition -> bool)
    ensures forall c :: c in Filtered(cs, p) <==> c in cs && p(c)
  {
    if cs != [] {
      var front, c := cs[..|cs| - 1], cs[|cs| - 1];
      assert cs == front + [c];
      FilteredMeets(front, p);
      hide Filtered;
      FilteredSnoc(front, c, p);
    }
  }

  lemma {:induction false} FilteredTwice(cs: seq<Condition>, p: Condition -> bool, q: Condition -> bool, r: Condition -> bool)
    requires forall c :: c in cs ==> r(c) == (p(c) && q(c))
    ensures Filtered(Filtered(cs, p), q) == Filtered(cs, r)
  {
    if cs != [] {
      var front, c := cs[..|cs| - 1], cs[|cs| - 1];
      assert cs == front + [c];
      FilteredTwice(front, p, q, r);
      hide Filtered;
      FilteredSnoc(front, c, p);
      FilteredSnoc(front, c, r);
      FilteredSnoc(Filtered(front, p), c, q);
      assert c in cs;
      assert Filtered(cs, p) == if p(c) then Filtered(front, p) + [c] else Filtered(front, p);
      assert Filtered(cs, r) == if r(c) then Filtered(front, r) + [c] else Filtered(front, r);
    }
  }

  lemma {:induction false} PopSnoc(cs: seq<Condition>, c: Condition, tab: string)
    ensures Popped(cs + [c], tab) == if Takes(c, tab) then Popped(cs, tab) + [c] else Popped(cs, tab)
    ensures Spared(cs + [c], tab) == if Takes(c, tab) then Spared(cs, tab) else Spared(cs, tab) + [c]
  {
    FilteredSnoc(cs, c, c => Takes(c, tab));
    FilteredSnoc(cs, c, c => !Takes(c, tab));
  }

  lemma {:induction false} PoppedMeets(cs: seq<Condition>, tab: string)
    ensures forall c :: c in Popped(cs, tab) <==> c in cs && Takes(c, tab)
    ensures forall c :: c in Spared(cs, tab) <==> c in cs && !Takes(c, tab)
  {
    FilteredMeets(cs, c => Takes(c, tab));
    FilteredMeets(cs, c => !Takes(c, tab));
  }

  lemma {:induction false} PopNone(tab: string)
    ensures Popped([], tab) == [] && Spared([], tab) == []
  {}

  /** None of the first n tables takes the condition. */
  predicate FreeOf(tables: seq<string>, n: nat, c: Condition)
    requires n <= |tables|
  {
    forall i :: 0 <= i < n ==> !Takes(c, tables[i])
  }

  /** What the first n tables leave over. */
  function Left(tables: seq<string>, conds: seq<Condition>, n: nat): seq<Condition>
    requires n <= |tables|
  {
    Filtered(conds, c => FreeOf(tables, n, c))
  }

  lemma {:induction false} LeftNone(tables: seq<string>, conds: seq<Condition>)
    ensures Left(tables, conds, 0) == conds
  {
    FilteredAll(conds, c => FreeOf(tables, 0, c));
  }

  lemma {:induction false} FilteredAll(cs: seq<Condition>, p: Condition -> bool)
    requires forall c :: c in cs ==> p(c)
    ensures Filtered(cs, p) == cs
  {
    if cs != [] {
      assert cs == cs[..|cs| - 1] + [cs[|cs| - 1]];
      FilteredAll(cs[..|cs| - 1], p);
    }
  }

  /** Table n takes exactly the conditions its scan filters by. */
  lemma {:induction false} LeftPopped(tables: seq<string>, conds: seq<Condition>, n: nat)
    requires n < |tables| && NoDup(tables)
    ensures Scan(tables[n], Popped(Left(tables, conds, n), tables[n])) == ScanOf(tables, conds, tables[n])
    ensures Spared(Left(tables, conds, n), tables[n]) == Left(tables, conds, n + 1)
  {
    var t := tables[n];
    var p: Condition -> bool := c => FreeOf(tables, n, c);
    assert n > 0 ==> tables[0] != t;
    forall c ensures FiltersBy(tables[0], t, c) <==> (p(c) && Takes(c, t)) {
      TakenOnce(tables, n, c);
    }
    FilteredTwice(conds, p, c => Takes(c, t), c => FiltersBy(tables[0], t, c));
    FilteredTwice(conds, p, c => !Takes(c, t), c => FreeOf(tables, n + 1, c));
  }

  lemma {:induction false} TakenOnce(tables: seq<string>, n: nat, c: Condition)
    requires n < |tables| && NoDup(tables)
    ensures FiltersBy(tables[0], tables[n], c) <==> FreeOf(tables, n, c) && Takes(c, tables[n])
  {
    if n > 0 {
      assert tables[0] != tables[n];
      assert SameTab(c) ==> Takes(c, tables[0]);
    }
  }

  lemma {:induction false} LeftAll(tables: seq<string>, conds: seq<Condition>)
    requires forall c :: c in conds ==> c.lhs.tab in tables
    ensures Left(tables, conds, |tables|) == JoinConds(conds)
  {
    var p: Condition -> bool := c => FreeOf(tables, |tables|, c);
    forall c | c in conds ensures p(c) == CrossTab(c) {
      var i :| 0 <= i < |tables| && tables[i] == c.lhs.tab;
      assert !CrossTab(c) ==> Takes(c, tables[i]);
    }
    FilteredSame(conds, p, c => CrossTab(c));
  }

  // ---------- the joins ----------

  /** push_conds on a plan that covers both tables: the condition goes to the lowest join that covers both, with
      its sides exchanged when the left input has the right column. */
  ghost function Pushed(cond: Condition, plan: Plan): Plan
    requires CrossTab(cond)
  {
    match plan
    case Scan(_, _) => plan
    case Join(l, r, cs) =>
      var (x, y) := (cond.lhs.tab, cond.rhs.c.tab);
      if {x, y} <= Tabs(l) then Join(Pushed(cond, l), r, cs)
      else if {x, y} <= Tabs(r) then Join(l, Pushed(cond, r), cs)
      else if x in Tabs(l) && y in Tabs(r) then Join(l, r, cs + [cond])
      else if y in Tabs(l) && x in Tabs(r) then Join(l, r, cs + [Swapped(cond)])
      else plan
  }

  lemma {:induction false} PushedAt(cond: Condition, p: Plan)
    requires CrossTab(cond)
    ensures p.Scan? ==> Pushed(cond, p) == p
    ensures p.Join? ==>
              var (x, y, q) := (cond.lhs.tab, cond.rhs.c.tab, Pushed(cond, p));
              && (x in Tabs(p.left) && y in Tabs(p.left) ==> q == Join(Pushed(cond, p.left), p.right, p.conds))
              && (!(x in Tabs(p.left) && y in Tabs(p.left)) ==>
                  && (x in Tabs(p.right) && y in Tabs(p.right) ==> q == Join(p.left, Pushed(cond, p.right), p.conds))
                  && (!(x in Tabs(p.right) && y in Tabs(p.right)) ==>
                        q == if x in Tabs(p.left) && y in Tabs(p.right) then p.(conds := p.conds + [cond])
                             else if y in Tabs(p.left) && x in Tabs(p.right) then p.(conds := p.conds + [Swapped(cond)])
                             else p))
  {
    hide Tabs;
  }

  /** One more join condition: the tables it brings in are joined from the left. */
  ghost function Joined(tables: seq<string>, conds: seq<Condition>, plan: Plan, c: Condition): Plan
    requires tables != [] && CrossTab(c)
  {
    var (x, y) := (c.lhs.tab, c.rhs.c.tab);
    if x !in Tabs(plan) && y !in Tabs(plan) then Join(Join(ScanOf(tables, conds, x), ScanOf(tables, conds, y), [c]), plan, [])
    else if x !in Tabs(plan) then Join(ScanOf(tables, conds, x), plan, [c])
    else if y !in Tabs(plan) then Join(ScanOf(tables, conds, y), plan, [Swapped(c)])
    else Pushed(c, plan)
  }

  lemma {:induction false} JoinedCases(tables: seq<string>, conds: seq<Condition>, plan: Plan, c: Condition)
    requires tables != [] && CrossTab(c)
    ensures var (x, y, p) := (c.lhs.tab, c.rhs.c.tab, Joined(tables, conds, plan, c));
            && (x !in Tabs(plan) && y !in Tabs(plan) ==>
                  p == Join(Join(ScanOf(tables, conds, x), ScanOf(tables, conds, y), [c]), plan, []))
            && (x !in Tabs(plan) && y in Tabs(plan) ==> p == Join(ScanOf(tables, conds, x), plan, [c]))
            && (x in Tabs(plan) && y !in Tabs(plan) ==> p == Join(ScanOf(tables, conds, y), plan, [Swapped(c)]))
            && (x in Tabs(plan) && y in Tabs(plan) ==> p == Pushed(c, plan))
  {
    hide Tabs, ScanOf, Pushed;
  }

  /** The plan after the join conditions js. */
  ghost function ByConds(tables: seq<string>, conds: seq<Condition>, js: seq<Condition>): Plan
    requires tables != [] && js != [] && AllCross(js)
  {
    var n := |js| - 1;
    if n == 0 then Join(ScanOf(tables, conds, js[0].lhs.tab), ScanOf(tables, conds, js[0].rhs.c.tab), [js[0]])
    else Joined(tables, conds, ByConds(tables, conds, js[..n]), js[n])
  }

  /** The first n tables, as far as they are not in the plan, join it from the left without a condition. */
  ghost function WithRest(tables: seq<string>, conds: seq<Condition>, plan: Plan, n: nat): Plan
    requires n <= |tables|
  {
    if n == 0 then plan
    else
      var p := WithRest(tables, conds, plan, n - 1);
      if tables[n - 1] in Tabs(plan) then p else Join(ScanOf(tables, conds, tables[n - 1]), p, [])
  }

  ghost function StartPlan(tables: seq<string>, conds: seq<Condition>): Plan
    requires tables != []
  {
    if JoinConds(conds) == [] then ScanOf(tables, conds, tables[0]) else ByConds(tables, conds, JoinConds(conds))
  }

  ghost function PlanOf(tables: seq<string>, conds: seq<Condition>): Plan
    requires tables != []
  {
    WithRest(tables, conds, StartPlan(tables, conds), |tables|)
  }

  // ---------- what these plans look like ----------

  /** The left input of every join is a scan, or a join of two scans with a condition; the right one is such a
      plan again. */
  ghost predicate FromLeft(p: Plan) {
    p.Join? ==>
      && FromLeft(p.right)
      && (p.left.Join? ==> p.left.left.Scan? && p.left.right.Scan? && p.left.conds != [])
  }

  lemma {:induction false} PushedFromLeft(cond: Condition, p: Plan)
    requires CrossTab(cond) && FromLeft(p)
    ensures FromLeft(Pushed(cond, p)) && (Pushed(cond, p).Scan? <==> p.Scan?)
    ensures p.Join? && p.left.Scan? && p.right.Scan? && p.conds != [] ==>
              var q := Pushed(cond, p); q.left.Scan? && q.right.Scan? && q.conds != []
    ensures Tabs(Pushed(cond, p)) == Tabs(p) && Leaves(Pushed(cond, p)) == Leaves(p)
  {
    if p.Join? {
      if p.left.Join? { PushedFromLeft(cond, p.left); }
      PushedFromLeft(cond, p.right);
      var q := Pushed(cond, p);
      assert q.left == p.left || q.left == Pushed(cond, p.left);
      assert q.right == p.right || q.right == Pushed(cond, p.right);
      if p.left.Scan? { assert Pushed(cond, p.left) == p.left; }
      assert Tabs(q.left) == Tabs(p.left) && Leaves(q.left) == Leaves(p.left);
      assert Tabs(q.right) == Tabs(p.right) && Leaves(q.right) == Leaves(p.right);
    }
  }

  /** The tables of a plan from left to right: the one scanned last by the nested loops comes first. */
  ghost function Leaves(p: Plan): seq<string> {
    match p
    case Scan(t, _) => [t]
    case Join(l, r, _) => Leaves(l) + Leaves(r)
  }

  /** The tables that join conditions bring in: those of a later condition stand further left. */
  ghost function Brought(js: seq<Condition>): seq<string>
    requires AllCross(js)
  {
    if js == [] then []
    else
      var n := |js| - 1;
      var (have, x, y) := (Brought(js[..n]), js[n].lhs.tab, js[n].rhs.c.tab);
      if x !in have && y !in have then [x, y] + have
      else if x !in have then [x] + have
      else if y !in have then [y] + have
      else have
  }

  /** The tables no condition mentions: the last one stands leftmost. */
  ghost function Others(tables: seq<string>, have: seq<string>, n: nat): seq<string>
    requires n <= |tables|
  {
    if n == 0 then []
    else if tables[n - 1] in have then Others(tables, have, n - 1)
    else [tables[n - 1]] + Others(tables, have, n - 1)
  }

  lemma {:induction false} LeavesAre(p: Plan, t: string)
    ensures t in Leaves(p) <==> t in Tabs(p)
  {
    if p.Join? {
      LeavesAre(p.left, t);
      LeavesAre(p.right, t);
    }
  }

  lemma {:induction false} ByCondsShape(tables: seq<string>, conds: seq<Condition>, js: seq<Condition>)
    requires tables != [] && js != [] && AllCross(js)
    ensures var p := ByConds(tables, conds, js); FromLeft(p) && Leaves(p) == Brought(js)
  {
    hide Pushed;
    var n := |js| - 1;
    if n == 0 {
      assert js[..n] == [];
      assert Brought(js[..n]) == [];
    } else {
      ByCondsShape(tables, conds, js[..n]);
      var p, c := ByConds(tables, conds, js[..n]), js[n];
      LeavesAre(p, c.lhs.tab);
      LeavesAre(p, c.rhs.c.tab);
      if c.lhs.tab in Tabs(p) && c.rhs.c.tab in Tabs(p) { PushedFromLeft(c, p); }
      assert Leaves(Join(ScanOf(tables, conds, c.lhs.tab), ScanOf(tables, conds, c.rhs.c.tab), [c])) == [c.lhs.tab, c.rhs.c.tab];
    }
  }

  lemma {:induction false} RestShape(tables: seq<string>, conds: seq<Condition>, plan: Plan, n: nat)
    requires n <= |tables| && FromLeft(plan)
    ensures var p := WithRest(tables, conds, plan, n); FromLeft(p) && Leaves(p) == Others(tables, Leaves(plan), n) + Leaves(plan)
  {
    hide ScanOf, Leaves, Tabs;
    if n == 0 {
      assert [] + Leaves(plan) == Leaves(plan);
    } else {
      RestShape(tables, conds, plan, n - 1);
      var t, p := tables[n - 1], WithRest(tables, conds, plan, n - 1);
      LeavesAre(plan, t);
      ScanInFront(ScanOf(tables, conds, t), p, Others(tables, Leaves(plan), n - 1), Leaves(plan));
    }
  }

  lemma {:induction false} ScanInFront(q: Plan, p: Plan, os: seq<string>, have: seq<string>)
    requires q.Scan? && Leaves(p) == os + have
    ensures Leaves(Join(q, p, [])) == ([q.tab] + os) + have
  {
    assert Leaves(q) == [q.tab];
  }

  /** Every further table joins from the left: first those the conditions bring in, in the order of the
      conditions, then the others in the order of the query. */
  lemma {:induction false} PlanShape(tables: seq<string>, conds: seq<Condition>)
    requires tables != []
    ensures FromLeft(PlanOf(tables, conds))
    ensures var js := JoinConds(conds);
            var have := if js == [] then [tables[0]] else Brought(js);
            Leaves(PlanOf(tables, conds)) == Others(tables, have, |tables|) + have
  {
    hide Pushed, ByConds, Brought, Others, WithRest;
    var js := JoinConds(conds);
    if js != [] { ByCondsShape(tables, conds, js); }
    RestShape(tables, conds, StartPlan(tables, conds), |tables|);
  }
}
