/**
  What insert_entry and delete_entry make of the whole tree, level by level and node by node.  The methods
  are proved to produce exactly these shapes.
*/
module IxShapes {
  import opened Defs
  import opened Tower
  import opened TowerInsert
  import opened TowerDelete
  import opened IxPages
  import opened IxDeleteSteps

  /** The node of lv that lists child m of the level below. */
  ghost function ParentOf(lv: Level, m: nat): (q: nat)
    requires m < |Flat(lv)|
    ensures q < |lv| && Off(lv, q) <= m < Off(lv, q) + |lv[q].es|
  {
    var init := lv[..|lv| - 1];
    if m < |Flat(init)| then
      var q := ParentOf(init, m);
      assert init[..q] == lv[..q];
      q
    else |lv| - 1
  }

  ghost function SlotOf(lv: Level, m: nat): nat
    requires m < |Flat(lv)|
  {
    m - Off(lv, ParentOf(lv, m))
  }

  lemma {:induction false} ParentIsOf(lv: Level, m: nat, q: nat, j: nat)
    requires q < |lv| && j < |lv[q].es| && Off(lv, q) + j == m
    ensures m < |Flat(lv)| && ParentOf(lv, m) == q && SlotOf(lv, m) == j
  {
    hide Flat, ParentOf;
    FlatIndex(lv, q, j);
    OffUnique(lv, q, j, ParentOf(lv, m), SlotOf(lv, m));
  }

  // ---------- maintain_parent ----------

  /** The first key of node m of level i is copied into its parent's slot, and so on upwards while that changes anything. */
  ghost function Refresh(tower: seq<Level>, i: nat, m: nat): seq<Level>
    decreases |tower| - i
  {
    if i + 1 >= |tower| || m >= |tower[i]| || tower[i][m].es == [] || m >= |Flat(tower[i + 1])| then tower
    else
      var q, j, k := ParentOf(tower[i + 1], m), SlotOf(tower[i + 1], m), tower[i][m].es[0].key;
      var es := tower[i + 1][q].es;
      if es[j].key == k then tower else Refresh(SetNode(tower, i + 1, q, es[j := Entry(k, es[j].rid)]), i + 1, q)
  }

  lemma {:induction false} RefreshStep(tower: seq<Level>, i: nat, m: nat, q: nat, j: nat)
    requires i + 1 < |tower| && m < |tower[i]| && tower[i][m].es != []
    requires q < |tower[i + 1]| && j < |tower[i + 1][q].es| && Off(tower[i + 1], q) + j == m
    ensures var es, k := tower[i + 1][q].es, tower[i][m].es[0].key;
            Refresh(tower, i, m) == if es[j].key == k then tower
                                    else Refresh(SetNode(tower, i + 1, q, es[j := Entry(k, es[j].rid)]), i + 1, q)
  {
    ParentIsOf(tower[i + 1], m, q, j);
    hide Flat, ParentOf, SetNode;
  }

  lemma {:induction false} RefreshTop(tower: seq<Level>, i: nat, m: nat)
    requires i + 1 == |tower|
    ensures Refresh(tower, i, m) == tower
  {}

  /** Levels up to i stay, the separator of node m is its first key, and no other separator of the level changes. */
  lemma {:induction false} RefreshExact(tower: seq<Level>, i: nat, m: nat)
    requires i + 1 < |tower| && m < |tower[i]| && tower[i][m].es != [] && m < |Flat(tower[i + 1])|
    ensures var (t, f) := (Refresh(tower, i, m), Flat(tower[i + 1]));
            && |t| == |tower| && t[..i + 1] == tower[..i + 1]
            && Flat(t[i + 1]) == f[m := Entry(tower[i][m].es[0].key, f[m].rid)]
  {
    hide Flat, ParentOf;
    var lv, k := tower[i + 1], tower[i][m].es[0].key;
    var q, j := ParentOf(lv, m), SlotOf(lv, m);
    FlatIndex(lv, q, j);
    FlatSet(lv, q, j, Entry(k, lv[q].es[j].rid));
    if lv[q].es[j].key == k {
      assert Flat(lv)[m := Entry(k, Flat(lv)[m].rid)] == Flat(lv);
    } else {
      var t := SetNode(tower, i + 1, q, lv[q].es[j := Entry(k, lv[q].es[j].rid)]);
      RefreshAbove(t, i + 1, q);
      assert t[..i + 2][..i + 1] == tower[..i + 1];
    }
  }

  /** Nothing up to level i changes. */
  lemma {:induction false} RefreshAbove(tower: seq<Level>, i: nat, m: nat)
    requires i < |tower|
    ensures var t := Refresh(tower, i, m); |t| == |tower| && t[..i + 1] == tower[..i + 1]
    decreases |tower| - i
  {
    hide Flat, ParentOf;
    if i + 1 < |tower| && m < |tower[i]| && tower[i][m].es != [] && m < |Flat(tower[i + 1])| {
      var lv, k := tower[i + 1], tower[i][m].es[0].key;
      var q, j := ParentOf(lv, m), SlotOf(lv, m);
      if lv[q].es[j].key != k {
        var t := SetNode(tower, i + 1, q, lv[q].es[j := Entry(k, lv[q].es[j].rid)]);
        RefreshAbove(t, i + 1, q);
        var r := Refresh(t, i + 1, q);
        assert r[..i + 1] == r[..i + 2][..i + 1] == t[..i + 2][..i + 1] == tower[..i + 1];
      }
    }
  }

  // ---------- delete_entry ----------

  datatype Fixed = Tree(tower: seq<Level>) | Gone | Stuck

  /** Leaf m, child j, takes one entry over from its sibling: the last of the left one, the first of the right one. */
  ghost function Shifted(tower: seq<Level>, m: nat, j: nat): seq<Level>
    requires |tower| > 0 && m < |tower[0]| && 0 <= Sibling(m, j) < |tower[0]| && tower[0][Sibling(m, j)].es != []
  {
    var es, ns := tower[0][m].es, tower[0][Sibling(m, j)].es;
    if j > 0 then SetPair(tower, m - 1, RemoveAt(ns, |ns| - 1), InsertAt(es, 0, ns[|ns| - 1]))
    else SetPair(tower, m, InsertAt(es, |es|, ns[0]), RemoveAt(ns, 0))
  }

  /** coalesce_or_redistribute on node m of level i. */
  ghost function FixUp(order: nat, tower: seq<Level>, i: nat, m: nat): Fixed
    decreases |tower| - i
  {
    if i >= |tower| || m >= |tower[i]| then Stuck
    else
      var es := tower[i][m].es;
      if i + 1 == |tower| then
        if es == [] then Gone else if i > 0 && |es| == 1 then Tree(tower[..i]) else Tree(tower)
      else if |es| >= order / 2 then Tree(Refresh(tower, i, m))
      else if i > 0 || m >= |Flat(tower[1])| then Stuck
      else
        var q, j := ParentOf(tower[1], m), SlotOf(tower[1], m);
        var s, l, slot := Sibling(m, j), if j > 0 then m - 1 else m, if j > 0 then j else 1;
        if s < 0 || s >= |tower[0]| || tower[0][s].es == [] || slot >= |tower[1][q].es| then Stuck
        else if |es| + |tower[0][s].es| >= 2 * (order / 2) then Tree(Refresh(Shifted(tower, m, j), 0, l + 1))
        else FixUp(order, MergeTower(tower, l, q, slot), 1, q)
  }

  lemma {:induction false} FixUpStep(order: nat, tower: seq<Level>, m: nat, q: nat, j: nat)
    requires LeafSlotIn(tower, m, q, j) && |tower[0][m].es| < order / 2
    requires |tower[1][q].es| >= 2 && tower[0][Sibling(m, j)].es != []
    ensures var es, s := tower[0][m].es, Sibling(m, j);
            var l, slot := if j > 0 then m - 1 else m, if j > 0 then j else 1;
            && l + 1 < |tower[0]| && slot < |tower[1][q].es|
            && FixUp(order, tower, 0, m) ==
                 if |es| + |tower[0][s].es| >= 2 * (order / 2) then Tree(Refresh(Shifted(tower, m, j), 0, l + 1))
                 else FixUp(order, MergeTower(tower, l, q, slot), 1, q)
  {
    ParentIsOf(tower[1], m, q, j);
    hide Flat, ParentOf, Shifted, Refresh, MergeTower;
  }

  lemma {:induction false} FixUpKeep(order: nat, tower: seq<Level>, i: nat, m: nat)
    requires i + 1 < |tower| && m < |tower[i]| && |tower[i][m].es| >= order / 2
    ensures FixUp(order, tower, i, m) == Tree(Refresh(tower, i, m))
  {
    hide Refresh;
  }

  lemma {:induction false} FixUpInner(order: nat, tower: seq<Level>, i: nat, m: nat)
    requires 0 < i && i + 1 < |tower| && m < |tower[i]| && |tower[i][m].es| < order / 2
    ensures FixUp(order, tower, i, m) == Stuck
  {}

  lemma {:induction false} FixUpRoot(order: nat, tower: seq<Level>, i: nat)
    requires i + 1 == |tower| && |tower[i]| > 0
    ensures var es := tower[i][0].es;
            FixUp(order, tower, i, 0) == if es == [] then Gone else if i > 0 && |es| == 1 then Tree(tower[..i]) else Tree(tower)
  {}

  // ---------- what that means for the leaves and their separators ----------

  /** What a delete of slot idx in leaf m leaves of the leaves, and of the separators that list them.  A leaf with
      enough entries left gets its first key as separator; a shift makes the moved border the separator of the
      right leaf; a merge drops the right leaf with its separator.  Nothing else changes. */
  ghost predicate LeavesAfter(order: nat, was: seq<Level>, now: seq<Level>, m: nat, idx: nat)
    requires |was| > 0 && m < |was[0]| && idx < |was[0][m].es|
  {
    var lv, es := was[0], RemoveAt(was[0][m].es, idx);
    var kept := lv[m := Node(lv[m].page, es)];
    if |was| == 1 then now == [kept]
    else
      var f := Flat(was[1]);
      && m < |f| && |now| > 0
      && if |es| >= order / 2 then es != [] && |now| > 1 && now[0] == kept && Flat(now[1]) == f[m := Entry(es[0].key, f[m].rid)]
         else
           var s := Sibling(m, SlotOf(was[1], m));
           && 0 <= s < |lv|
           && var ns := lv[s].es;
           && |ns| > 0
           && if |es| + |ns| < 2 * (order / 2) then
                var l, both := if s < m then s else m, if s < m then ns + es else es + ns;
                && now[0] == lv[..l] + [Node(lv[l].page, both)] + lv[l + 2..]
                && l + 1 < |f| && (|now| > 1 ==> Flat(now[1]) == RemoveAt(f, l + 1))
              else if s < m then
                var n := |ns| - 1;
                && now[0] == lv[s := Node(lv[s].page, ns[..n])][m := Node(lv[m].page, [ns[n]] + es)]
                && |now| > 1 && Flat(now[1]) == f[m := Entry(ns[n].key, f[m].rid)]
              else
                && now[0] == lv[m := Node(lv[m].page, es + [ns[0]])][s := Node(lv[s].page, ns[1..])]
                && s < |f| && 1 < |ns| && |now| > 1 && Flat(now[1]) == f[s := Entry(ns[1].key, f[s].rid)]
  }

  /** Repairs of an inner node leave the levels up to it alone, but for a root that goes. */
  lemma {:induction false} FixUpAbove(order: nat, tower: seq<Level>, q: nat)
    requires |tower| > 1 && FixUp(order, tower, 1, q).Tree?
    ensures var t := FixUp(order, tower, 1, q).tower;
            |t| > 0 && t[0] == tower[0] && (|t| > 1 ==> t[1] == tower[1])
  {
    hide Flat, ParentOf, Refresh, MergeTower;
    RefreshAbove(tower, 1, q);
    var t := Refresh(tower, 1, q);
    assert t[0] == t[..2][0] && t[1] == t[..2][1];
  }

  lemma {:induction false} ShiftLeaves(order: nat, was: seq<Level>, m: nat, idx: nat)
    requires |was| > 1 && m < |was[0]| && idx < |was[0][m].es| && m < |Flat(was[1])| && order >= 4
    requires var es, s := RemoveAt(was[0][m].es, idx), Sibling(m, SlotOf(was[1], m));
             && |es| < order / 2 && 0 <= s < |was[0]|
             && |es| + |was[0][s].es| >= 2 * (order / 2) && (s < |Flat(was[1])|)
    ensures var t := SetNode(was, 0, m, RemoveAt(was[0][m].es, idx));
            var j := SlotOf(was[1], m);
            t[0][Sibling(m, j)] == was[0][Sibling(m, j)] && LeavesAfter(order, was, Refresh(Shifted(t, m, j), 0, if j > 0 then m else m + 1), m, idx)
  {
    hide Flat, ParentOf, Refresh;
    var es, j := RemoveAt(was[0][m].es, idx), SlotOf(was[1], m);
    var s, lv := Sibling(m, j), was[0];
    var t := SetNode(was, 0, m, es);
    assert t[0][s] == lv[s];
    var ns := lv[s].es;
    var u := Shifted(t, m, j);
    var r := if j > 0 then m else m + 1;
    assert u[1] == was[1];
    RefreshExact(u, 0, r);
    var now := Refresh(u, 0, r);
    assert now[0] == now[..1][0] == u[0];
    if j > 0 {
      var n := |ns| - 1;
      assert RemoveAt(ns, n) == ns[..n] && InsertAt(es, 0, ns[n]) == [ns[n]] + es;
      assert u[0] == lv[s := Node(lv[s].page, ns[..n])][m := Node(lv[m].page, [ns[n]] + es)];
    } else {
      assert RemoveAt(ns, 0) == ns[1..] && InsertAt(es, |es|, ns[0]) == es + [ns[0]];
      assert u[0] == lv[m := Node(lv[m].page, es + [ns[0]])][s := Node(lv[s].page, ns[1..])];
    }
  }

  lemma {:induction false} MergeLeaves(order: nat, was: seq<Level>, now: seq<Level>, m: nat, idx: nat)
    requires |was| > 1 && m < |was[0]| && idx < |was[0][m].es| && m < |Flat(was[1])|
    requires var es, q, j := RemoveAt(was[0][m].es, idx), ParentOf(was[1], m), SlotOf(was[1], m);
             var s, l, slot := Sibling(m, j), if j > 0 then m - 1 else m, if j > 0 then j else 1;
             && |es| < order / 2 && 0 <= s < |was[0]| && was[0][s].es != [] && slot < |was[1][q].es|
             && |es| + |was[0][s].es| < 2 * (order / 2)
             && FixUp(order, MergeTower(SetNode(was, 0, m, es), l, q, slot), 1, q) == Tree(now)
    ensures LeavesAfter(order, was, now, m, idx)
  {
    hide Flat, ParentOf;
    var es, q, j := RemoveAt(was[0][m].es, idx), ParentOf(was[1], m), SlotOf(was[1], m);
    var s, l, slot := Sibling(m, j), if j > 0 then m - 1 else m, if j > 0 then j else 1;
    var t := SetNode(was, 0, m, es);
    var u := MergeTower(t, l, q, slot);
    FixUpAbove(order, u, q);
    FlatRemove(was[1], q, slot);
    assert u[1] == was[1][q := Node(was[1][q].page, RemoveAt(was[1][q].es, slot))];
    assert u[0] == MergeLevel(t[0], l);
    assert t[0][..l] == was[0][..l] && t[0][l + 2..] == was[0][l + 2..];
  }

  /** The meaning of FixUp after an entry left leaf m. */
  lemma {:induction false} FixUpLeaves(order: nat, was: seq<Level>, now: seq<Level>, m: nat, idx: nat)
    requires order >= 4 && |was| > 0 && m < |was[0]| && idx < |was[0][m].es|
    requires |was| == 1 ==> |was[0]| == 1
    requires |was| > 1 ==> |Flat(was[1])| == |was[0]|
    requires FixUp(order, SetNode(was, 0, m, RemoveAt(was[0][m].es, idx)), 0, m) == Tree(now)
    ensures LeavesAfter(order, was, now, m, idx)
  {
    hide Flat, ParentOf, Refresh, MergeTower, Shifted;
    var es := RemoveAt(was[0][m].es, idx);
    var t := SetNode(was, 0, m, es);
    if |was| == 1 {
      FixUpRoot(order, t, 0);
      assert t == [was[0][m := Node(was[0][m].page, es)]];
    } else if |es| >= order / 2 {
      FixUpKeep(order, t, 0, m);
      RefreshExact(t, 0, m);
      assert now[0] == now[..1][0] == t[0];
    } else {
      var s := Sibling(m, SlotOf(was[1], m));
      assert t[1] == was[1];
      assert 0 <= s < |was[0]| && t[0][s] == was[0][s];
      if |es| + |was[0][s].es| >= 2 * (order / 2) {
        ShiftLeaves(order, was, m, idx);
      } else {
        MergeLeaves(order, was, now, m, idx);
      }
    }
  }

  // ---------- insert_entry ----------

  datatype Grown = Grown(tower: seq<Level>, numPages: int)

  /** insert_into_parent: node m of level i was split and page is its right half, still to be listed above; the
      next new page gets number n. */
  ghost function PushUp(order: nat, tower: seq<Level>, i: nat, m: nat, sep: int, page: int, n: int): Grown
    decreases |tower| - i
  {
    if i >= |tower| || m >= |tower[i]| || tower[i][m].es == [] then Grown(tower, n)
    else if i + 1 == |tower| then
      Grown(tower + [[Node(n, [Entry(tower[i][m].es[0].key, ChildRid(tower[i][m].page)), Entry(sep, ChildRid(page))])]], n + 1)
    else if m >= |Flat(tower[i + 1])| then Grown(tower, n)
    else
      var q, j := ParentOf(tower[i + 1], m), SlotOf(tower[i + 1], m);
      var es := InsertAt(tower[i + 1][q].es, j + 1, Entry(sep, ChildRid(page)));
      var t := SetNode(tower, i + 1, q, es);
      if |es| != order then Grown(t, n)
      else PushUp(order, SplitNode(t, i + 1, q, order / 2, n), i + 1, q, es[order / 2].key, n, n + 1)
  }

  /** A leaf of order entries keeps the first order/2 of them; the rest moves to page n. */
  ghost function HalvedIfFull(order: nat, tower: seq<Level>, m: nat, n: int): Grown
    requires order > 0 && |tower| > 0 && m < |tower[0]|
  {
    var es := tower[0][m].es;
    if |es| != order then Grown(tower, n)
    else PushUp(order, SplitNode(tower, 0, m, order / 2, n), 0, m, es[order / 2].key, n, n + 1)
  }

  /** insert_entry into slot idx of leaf m. */
  ghost function InsertTower(order: nat, tower: seq<Level>, m: nat, idx: nat, e: Entry, n: int): Grown
    requires order > 0 && |tower| > 0 && m < |tower[0]| && idx <= |tower[0][m].es|
  {
    HalvedIfFull(order, SetNode(tower, 0, m, InsertAt(tower[0][m].es, idx, e)), m, n)
  }

  lemma {:induction false} PushUpStep(order: nat, tower: seq<Level>, i: nat, m: nat, sep: int, page: int, n: int, q: nat, j: nat)
    requires i + 1 < |tower| && m < |tower[i]| && tower[i][m].es != []
    requires q < |tower[i + 1]| && j < |tower[i + 1][q].es| && Off(tower[i + 1], q) + j == m
    ensures var es := InsertAt(tower[i + 1][q].es, j + 1, Entry(sep, ChildRid(page)));
            var t := SetNode(tower, i + 1, q, es);
            PushUp(order, tower, i, m, sep, page, n) ==
              if |es| != order then Grown(t, n)
              else PushUp(order, SplitNode(t, i + 1, q, order / 2, n), i + 1, q, es[order / 2].key, n, n + 1)
  {
    ParentIsOf(tower[i + 1], m, q, j);
    hide Flat, ParentOf, SetNode, SplitNode, InsertAt;
  }

  lemma {:induction false} PushUpTop(order: nat, tower: seq<Level>, i: nat, sep: int, n: int)
    requires i + 1 == |tower| && |tower[i]| == 2 && tower[i][0].es != []
    ensures PushUp(order, tower, i, 0, sep, tower[i][1].page, n) == Grown(AddRoot(tower, sep, tower[i][0].es[0].key, n), n + 1)
  {}

  /** Levels up to i stay, and the next one lists the new page right behind the old one, */
  lemma {:induction false} PushUpLists(order: nat, tower: seq<Level>, i: nat, m: nat, sep: int, page: int, n: int)
    requires i < |tower| && m < |tower[i]| && tower[i][m].es != [] && order >= 4
    requires i + 1 < |tower| ==> m < |Flat(tower[i + 1])|
    ensures var t := PushUp(order, tower, i, m, sep, page, n).tower;
            && |t| > i + 1 && t[..i + 1] == tower[..i + 1]
            && Flat(t[i + 1]) == if i + 1 < |tower| then InsertAt(Flat(tower[i + 1]), m + 1, Entry(sep, ChildRid(page)))
                                 else [Entry(tower[i][m].es[0].key, ChildRid(tower[i][m].page)), Entry(sep, ChildRid(page))]
  {
    hide Flat, ParentOf, InsertAt;
    if i + 1 == |tower| {
      FlatOne(Node(n, [Entry(tower[i][m].es[0].key, ChildRid(tower[i][m].page)), Entry(sep, ChildRid(page))]));
    } else {
      PushUpNext(order, tower, i, m, sep, page, n);
    }
  }

  lemma {:induction false} PushUpNext(order: nat, tower: seq<Level>, i: nat, m: nat, sep: int, page: int, n: int)
    requires i + 1 < |tower| && m < |tower[i]| && tower[i][m].es != [] && m < |Flat(tower[i + 1])| && order >= 4
    ensures var t := PushUp(order, tower, i, m, sep, page, n).tower;
            && |t| >= |tower| && t[..i + 1] == tower[..i + 1]
            && Flat(t[i + 1]) == InsertAt(Flat(tower[i + 1]), m + 1, Entry(sep, ChildRid(page)))
    decreases |tower| - i, 0
  {
    hide Flat, ParentOf, InsertAt, PushUp, SplitNode, Replace2;
    var lv, e := tower[i + 1], Entry(sep, ChildRid(page));
    var q, j := ParentOf(lv, m), SlotOf(lv, m);
    var es := InsertAt(lv[q].es, j + 1, e);
    var t := SetNode(tower, i + 1, q, es);
    PushUpStep(order, tower, i, m, sep, page, n, q, j);
    FlatInsert(lv, q, j + 1, e);
    if |es| == order {
      var u := SplitNode(t, i + 1, q, order / 2, n);
      SplitOnly(t, i + 1, q, order / 2, n);
      PushUpRest(order, u, i + 1, q, es[order / 2].key, n, n + 1);
      var r := PushUp(order, u, i + 1, q, es[order / 2].key, n, n + 1).tower;
      assert r[..i + 1] == r[..i + 2][..i + 1];
      assert u[..i + 2][..i + 1] == u[..i + 1];
      assert r[i + 1] == r[..i + 2][i + 1] == u[..i + 2][i + 1];
    }
  }

  lemma {:induction false} SplitOnly(t: seq<Level>, i: nat, q: nat, h: nat, n: int)
    requires 0 < i < |t| && q < |t[i]| && h <= |t[i][q].es|
    ensures var u := SplitNode(t, i, q, h, n); |u| == |t| && u[..i] == t[..i] && Flat(u[i]) == Flat(t[i])
  {
    hide Flat;
    SplitFlat(t[i], q, h, n);
  }

  /** Nothing up to level i changes. */
  lemma {:induction false} PushUpRest(order: nat, tower: seq<Level>, i: nat, m: nat, sep: int, page: int, n: int)
    requires i < |tower| && order >= 4
    ensures var t := PushUp(order, tower, i, m, sep, page, n).tower; |t| >= |tower| && t[..i + 1] == tower[..i + 1]
    decreases |tower| - i, 1
  {
    hide Flat, ParentOf, InsertAt;
    if i + 1 < |tower| && m < |tower[i]| && tower[i][m].es != [] && m < |Flat(tower[i + 1])| {
      PushUpNext(order, tower, i, m, sep, page, n);
    }
  }

  /** What an insert into slot idx of leaf m leaves of the leaves and of the separators that list them: a leaf
      that is full now is halved, and page n with its upper half is listed behind it under its first key. */
  ghost predicate LeavesGrown(order: nat, was: seq<Level>, now: seq<Level>, m: nat, idx: nat, e: Entry, n: int)
    requires |was| > 0 && m < |was[0]| && idx <= |was[0][m].es|
  {
    var lv, es, h := was[0], was[0][m].es[..idx] + [e] + was[0][m].es[idx..], order / 2;
    if |es| != order then now == was[0 := lv[m := Node(lv[m].page, es)]]
    else
      && 1 < |now| && h < |es|
      && now[0] == lv[..m] + [Node(lv[m].page, es[..h]), Node(n, es[h..])] + lv[m + 1..]
      && if |was| == 1 then Flat(now[1]) == [Entry(es[0].key, ChildRid(lv[m].page)), Entry(es[h].key, ChildRid(n))]
         else
           var f := Flat(was[1]);
           m < |f| && Flat(now[1]) == f[..m + 1] + [Entry(es[h].key, ChildRid(n))] + f[m + 1..]
  }

  /** The meaning of InsertTower. */
  lemma {:induction false} InsertLeaves(order: nat, was: seq<Level>, m: nat, idx: nat, e: Entry, n: int)
    requires order >= 4 && |was| > 0 && m < |was[0]| && idx <= |was[0][m].es|
    requires |was| > 1 ==> |Flat(was[1])| == |was[0]|
    ensures LeavesGrown(order, was, InsertTower(order, was, m, idx, e, n).tower, m, idx, e, n)
  {
    hide Flat, PushUp;
    var es := InsertAt(was[0][m].es, idx, e);
    if |es| == order {
      var lv := was[0];
      var t := SetNode(was, 0, m, es);
      var u := SplitNode(t, 0, m, order / 2, n);
      assert u[0] == lv[..m] + [Node(lv[m].page, es[..order / 2]), Node(n, es[order / 2..])] + lv[m + 1..];
      assert u[0][m] == Node(lv[m].page, es[..order / 2]) && es[..order / 2][0] == es[0];
      PushUpLists(order, u, 0, m, es[order / 2].key, n, n + 1);
      var now := PushUp(order, u, 0, m, es[order / 2].key, n, n + 1).tower;
      assert now[0] == now[..1][0] == u[0];
    }
  }
}
