/** State facts used by each step of delete_entry, stated on pages and shape together. */
module IxDeleteSteps {
  import opened Tower
  import opened TowerInsert
  import opened TowerDelete
  import opened IxPages

  /** f lists the pages of level lo, whatever its separators are. */
  ghost predicate Lists(lo: Level, f: seq<Entry>) {
    |f| == |lo| && forall x :: 0 <= x < |lo| ==> f[x].rid == ChildRid(lo[x].page)
  }

  /** The slot of a listed node in its parent. */
  lemma {:induction false} ListedParent(pages: Pages, tower: seq<Level>, numPages: int, i: nat, m: nat) returns (q: nat, j: nat)
    requires Rep(pages, tower, numPages)
    requires i + 1 < |tower| && m < |tower[i]|
    requires Lists(tower[i], Flat(tower[i + 1]))
    ensures q < |tower[i + 1]| && j < |tower[i + 1][q].es| && Off(tower[i + 1], q) + j == m
    ensures tower[i + 1][q].es[j].rid == ChildRid(tower[i][m].page)
    ensures ParentIs(pages, tower[i][m].page, tower[i + 1][q].page)
    ensures OnlyChildSlot(tower[i + 1][q].es, tower[i][m].page, j)
    ensures tower[i + 1][q].page != NO_PAGE && NodeStored(pages, tower[i + 1][q], false)
    ensures Flat(tower[i + 1])[m] == tower[i + 1][q].es[j]
  {
    var lv := tower[i + 1];
    q, j := Locate(lv, m);
    FlatIndex(lv, q, j);
    assert ParentIs(pages, lv[q].es[j].rid.pageNo, lv[q].page);
    assert NodeStored(pages, lv[q], false);
    forall x | 0 <= x < |lv[q].es| && lv[q].es[x].rid.pageNo == tower[i][m].page ensures x == j {
      FlatIndex(lv, q, x);
      assert tower[i][Off(lv, q) + x].page == tower[i][m].page;
    }
  }

  lemma {:induction false} TopHasNoParent(pages: Pages, tower: seq<Level>, numPages: int, m: nat)
    requires Rep(pages, tower, numPages) && m < |tower[|tower| - 1]|
    ensures ParentIs(pages, tower[|tower| - 1][m].page, NO_PAGE)
    ensures NodeStored(pages, tower[|tower| - 1][m], |tower| == 1)
  {
    assert NodeStored(pages, tower[|tower| - 1][m], |tower| == 1);
  }

  // ---------- maintain_parent ----------

  lemma {:induction false} PatchLists(tower: seq<Level>, i: nat, m: nat)
    requires PatchAt(tower, i, m) && i + 1 < |tower|
    ensures Lists(tower[i], Flat(tower[i + 1]))
  {
    var f := Flat(tower[i + 1]);
    var g := f[m := Entry(tower[i][m].es[0].key, f[m].rid)];
    forall x | 0 <= x < |f| ensures f[x].rid == ChildRid(tower[i][x].page) {
      assert g[x].rid == f[x].rid;
    }
  }

  lemma {:induction false} LinkLists(tower: seq<Level>, i: nat)
    requires LinksExcept(tower, -1) && i + 1 < |tower|
    ensures Lists(tower[i], Flat(tower[i + 1]))
  {
    assert LinkAt(tower, i);
  }

  /** Where maintain_parent finds the child, and whether there is a parent at all. */
  lemma {:induction false} PatchParent(pages: Pages, tower: seq<Level>, numPages: int, i: nat, m: nat) returns (q: nat, j: nat)
    requires PatchAt(tower, i, m) && Rep(pages, tower, numPages)
    ensures i < |tower| && m < |tower[i]| && NodeStored(pages, tower[i][m], i == 0) && |tower[i][m].es| > 0
    ensures pages[tower[i][m].page].parent == NO_PAGE <==> i + 1 == |tower|
    ensures i + 1 < |tower| ==>
              && q < |tower[i + 1]| && j < |tower[i + 1][q].es| && Off(tower[i + 1], q) + j == m
              && tower[i + 1][q].es[j].rid == ChildRid(tower[i][m].page)
              && ParentIs(pages, tower[i][m].page, tower[i + 1][q].page)
              && OnlyChildSlot(tower[i + 1][q].es, tower[i][m].page, j)
              && NodeStored(pages, tower[i + 1][q], false)
              && m < |Flat(tower[i + 1])| && Flat(tower[i + 1])[m] == tower[i + 1][q].es[j]
  {
    assert NodeStored(pages, tower[i][m], i == 0);
    q, j := 0, 0;
    if i + 1 < |tower| {
      PatchLists(tower, i, m);
      q, j := ListedParent(pages, tower, numPages, i, m);
    } else {
      TopHasNoParent(pages, tower, numPages, m);
    }
  }

  /** Writing a key into one slot keeps the page layout. */
  lemma {:induction false} SetKeyRep(pages: Pages, tower: seq<Level>, numPages: int, i: nat, q: nat, j: nat, k: int)
    requires Rep(pages, tower, numPages)
    requires 0 < i < |tower| && q < |tower[i]| && j < |tower[i][q].es|
    ensures var es := tower[i][q].es[j := Entry(k, tower[i][q].es[j].rid)];
            var p := tower[i][q].page;
            p in pages && Rep(pages[p := pages[p].(es := es)], SetNode(tower, i, q, es), numPages)
  {
    var es := tower[i][q].es[j := Entry(k, tower[i][q].es[j].rid)];
    forall x | 0 <= x < |es| ensures ParentIs(pages, es[x].rid.pageNo, tower[i][q].page) {
      assert ParentIs(pages, tower[i][q].es[x].rid.pageNo, tower[i][q].page);
    }
    RepSetNode(pages, tower, numPages, i, q, es);
  }

  // ---------- after an entry was removed ----------

  /** One node may be one entry short; everything else is in order. */
  ghost predicate Short(order: nat, tower: seq<Level>, i: nat, m: nat) {
    && order >= 4
    && i < |tower| && m < |tower[i]|
    && |tower[|tower| - 1]| == 1
    && StrictFrom(Flat(tower[0]), 0)
    && LinksExcept(tower, -1)
    && SizesExcept(order, tower, i, m)
    && |tower[i][m].es| < order
    && if i + 1 == |tower| then i > 0 ==> |tower[i][m].es| >= 1 else |tower[i][m].es| >= order / 2 - 1
  }

  /** The leaf-link sibling that coalesce_or_redistribute picks for leaf m, child j of its parent. */
  function Sibling(m: nat, j: nat): int { if j > 0 then m - 1 else m + 1 }

  lemma {:induction false} ShortFacts(order: nat, pages: Pages, tower: seq<Level>, numPages: int, i: nat, m: nat) returns (q: nat, j: nat)
    requires Short(order, tower, i, m) && Rep(pages, tower, numPages)
    ensures order >= 4 && i < |tower| && m < |tower[i]| && NodeStored(pages, tower[i][m], i == 0)
    ensures pages[tower[i][m].page].parent == NO_PAGE <==> i + 1 == |tower|
    ensures i + 1 < |tower| ==>
              && q < |tower[i + 1]| && j < |tower[i + 1][q].es| && Off(tower[i + 1], q) + j == m
              && tower[i + 1][q].es[j].rid == ChildRid(tower[i][m].page)
              && ParentIs(pages, tower[i][m].page, tower[i + 1][q].page)
              && OnlyChildSlot(tower[i + 1][q].es, tower[i][m].page, j)
              && NodeStored(pages, tower[i + 1][q], false)
              && |tower[i + 1][q].es| >= 2
  {
    assert NodeStored(pages, tower[i][m], i == 0);
    q, j := 0, 0;
    if i + 1 < |tower| {
      LinkLists(tower, i);
      q, j := ListedParent(pages, tower, numPages, i, m);
      assert SizeOK(order, tower, i + 1, tower[i + 1][q]);
    } else {
      TopHasNoParent(pages, tower, numPages, m);
    }
  }

  /** The sibling of a leaf is its neighbour under the same parent, and the leaf links reach it. */
  lemma {:induction false} SiblingFacts(order: nat, pages: Pages, tower: seq<Level>, numPages: int, m: nat, q: nat, j: nat)
    requires Short(order, tower, 0, m) && Rep(pages, tower, numPages) && |tower| > 1
    requires q < |tower[1]| && j < |tower[1][q].es| && Off(tower[1], q) + j == m && |tower[1][q].es| >= 2
    ensures 0 <= Sibling(m, j) < |tower[0]|
    ensures var s := Sibling(m, j);
            var page := tower[0][m].page;
            && page in pages
            && (if j > 0 then pages[page].prevLeaf else pages[page].nextLeaf) == tower[0][s].page
            && tower[0][s].page >= INIT_ROOT_PAGE
            && tower[0][s].page != page
            && NodeStored(pages, tower[0][s], true)
            && order / 2 <= |tower[0][s].es| < order
  {
    hide Flat, StrictFrom, SepOK, Parents, TopParents;
    LinkLists(tower, 0);
    FlatAt(tower[1], q);
    var s := Sibling(m, j);
    assert NodeStored(pages, tower[0][m], true) && NodeStored(pages, tower[0][s], true);
    assert RingLink(pages, tower[0], m + 1);
    assert SizeOK(order, tower, 0, tower[0][s]);
  }

  // ---------- redistribute ----------

  /** Leaves l and l+1 with new entries a and b. */
  ghost function SetPair(tower: seq<Level>, l: nat, a: seq<Entry>, b: seq<Entry>): seq<Level>
    requires |tower| > 0 && l + 1 < |tower[0]|
  {
    var lv := tower[0];
    tower[0 := lv[l := Node(lv[l].page, a)][l + 1 := Node(lv[l + 1].page, b)]]
  }

  lemma {:induction false} PairRep(pages: Pages, tower: seq<Level>, numPages: int, l: nat, a: seq<Entry>, b: seq<Entry>)
    requires Rep(pages, tower, numPages) && l + 1 < |tower[0]|
    ensures var pl, pr := tower[0][l].page, tower[0][l + 1].page;
            && pl in pages && pr in pages && pl != pr
            && Rep(pages[pl := pages[pl].(es := a)][pr := pages[pr].(es := b)], SetPair(tower, l, a, b), numPages)
  {
    var pl, pr := tower[0][l].page, tower[0][l + 1].page;
    RepSetNode(pages, tower, numPages, 0, l, a);
    var t1 := SetNode(tower, 0, l, a);
    RepSetNode(pages[pl := pages[pl].(es := a)], t1, numPages, 0, l + 1, b);
    assert SetNode(t1, 0, l + 1, b) == SetPair(tower, l, a, b);
    assert pl != pr;
  }

  lemma {:induction false} PairSizes(order: nat, tower: seq<Level>, l: nat, short: nat, a: seq<Entry>, b: seq<Entry>)
    requires order >= 4 && |tower| > 1 && l + 1 < |tower[0]| && (short == l || short == l + 1)
    requires SizesExcept(order, tower, 0, short)
    requires order / 2 <= |a| < order && order / 2 <= |b| < order
    ensures SizesExcept(order, SetPair(tower, l, a, b), -1, -1)
  {
    var t := SetPair(tower, l, a, b);
    forall x: nat, y: nat | x < |t| && y < |t[x]| ensures SizeOK(order, t, x, t[x][y]) {
      if x == 0 && (y == l || y == l + 1) {
      } else {
        assert SizeOK(order, tower, x, tower[x][y]);
      }
    }
  }

  /** After one entry moved between two sibling leaves, only the separator between them is stale. */
  lemma {:induction false} PairState(order: nat, pages: Pages, tower: seq<Level>, numPages: int,
                                     l: nat, short: nat, a: seq<Entry>, b: seq<Entry>)
    requires Short(order, tower, 0, short) && Rep(pages, tower, numPages) && |tower| > 1
    requires l + 1 < |tower[0]| && (short == l || short == l + 1)
    requires |tower[0][l].es| > 0 && |tower[0][l + 1].es| > 0
    requires a + b == tower[0][l].es + tower[0][l + 1].es
    requires order / 2 <= |a| < order && order / 2 <= |b| < order
    ensures var pl, pr := tower[0][l].page, tower[0][l + 1].page;
            var t := SetPair(tower, l, a, b);
            && pl in pages && pr in pages && pl != pr
            && Rep(pages[pl := pages[pl].(es := a)][pr := pages[pr].(es := b)], t, numPages)
            && PatchAt(t, 0, l + 1)
            && SizesExcept(order, t, -1, -1)
            && Flat(t[0]) == Flat(tower[0])
            && StrictFrom(Flat(t[0]), 0)
  {
    hide Rep, SizesExcept, LinksExcept, StrictFrom, Flat, PatchAt;
    PairRep(pages, tower, numPages, l, a, b);
    PairSizes(order, tower, l, short, a, b);
    PairPatch(tower, l, a, b);
  }

  // ---------- coalesce ----------

  /** After a merge the parent may be one entry short. */
  lemma {:induction false} MergeState(order: nat, pages: Pages, tower: seq<Level>, numPages: int,
                                      l: nat, short: nat, q: nat, j: nat)
    requires Short(order, tower, 0, short) && Rep(pages, tower, numPages) && |tower| > 1
    requires l + 1 < |tower[0]| && (short == l || short == l + 1)
    requires q < |tower[1]| && 0 < j < |tower[1][q].es| && Off(tower[1], q) + j == l + 1
    requires |tower[0][l].es| > 0 && |tower[0][l + 1].es| > 0
    requires order / 2 <= |tower[0][l].es| + |tower[0][l + 1].es| < 2 * (order / 2)
    ensures var lv := tower[0];
            var p := tower[1][q].page;
            && lv[l].page in pages && lv[l + 1].page in pages
            && var p1 := MergePages(pages, lv[l].page, lv[l + 1].page, lv[l].es + lv[l + 1].es);
            var t := MergeTower(tower, l, q, j);
            && 1 < |t| && q < |t[1]|
            && p in p1 && p1[p].es == tower[1][q].es
            && Rep(p1[p := p1[p].(es := RemoveAt(tower[1][q].es, j))], t, numPages)
            && Short(order, t, 1, q)
            && |t[1][q].es| == |tower[1][q].es| - 1 && t[1][q].page == p
            && Flat(t[0]) == Flat(lv)
  {
    MergeLinks(tower, l, q, j);
    MergeSizes(order, tower, l, q, j, short);
    MergeRep(pages, tower, numPages, l);
    MergeParentRep(pages, tower, numPages, l, q, j);
    assert SizeOK(order, tower, 1, tower[1][q]);
    hide Rep, SizesExcept, LinksExcept, StrictFrom, Flat;
  }

  lemma {:induction false} MergeParentRep(pages: Pages, tower: seq<Level>, numPages: int, l: nat, q: nat, j: nat)
    requires |tower| > 1 && l + 1 < |tower[0]| && q < |tower[1]| && j < |tower[1][q].es|
    requires tower[0][l].page in pages && tower[0][l + 1].page in pages
    requires var lv := tower[0];
             Rep(MergePages(pages, lv[l].page, lv[l + 1].page, lv[l].es + lv[l + 1].es), tower[0 := MergeLevel(lv, l)], numPages)
    ensures var lv := tower[0];
            var p := tower[1][q].page;
            var p1 := MergePages(pages, lv[l].page, lv[l + 1].page, lv[l].es + lv[l + 1].es);
            && p in p1 && p1[p].es == tower[1][q].es
            && Rep(p1[p := p1[p].(es := RemoveAt(tower[1][q].es, j))], MergeTower(tower, l, q, j), numPages)
  {
    var lv := tower[0];
    var p1 := MergePages(pages, lv[l].page, lv[l + 1].page, lv[l].es + lv[l + 1].es);
    var t: seq<Level> := tower[0 := MergeLevel(lv, l)];
    var es := RemoveAt(tower[1][q].es, j);
    forall x | 0 <= x < |es| ensures ParentIs(p1, es[x].rid.pageNo, tower[1][q].page) {
      var y := if x < j then x else x + 1;
      assert ParentIs(p1, t[1][q].es[y].rid.pageNo, t[1][q].page);
    }
    assert NodeStored(p1, t[1][q], false);
    RepSetNode(p1, t, numPages, 1, q, es);
    assert SetNode(t, 1, q, es) == MergeTower(tower, l, q, j);
  }

  // ---------- when a delete cannot be completed ----------

  /** Leaf m is child j of node q of level 1. */
  ghost predicate LeafSlotIn(tower: seq<Level>, m: nat, q: nat, j: nat) {
    && |tower| > 1 && m < |tower[0]| && q < |tower[1]| && j < |tower[1][q].es|
    && Off(tower[1], q) + j == m
    && 0 <= Sibling(m, j) < |tower[0]|
  }

  /** Leaf m and its sibling are too small for two leaves, and their parent, not the root, has no child to spare. */
  ghost predicate MergeStarvesParent(order: nat, tower: seq<Level>, m: nat) {
    exists q: nat, j: nat :: LeafSlotIn(tower, m, q, j) && |tower| > 2
      && |tower[1][q].es| == order / 2
      && |tower[0][m].es| + |tower[0][Sibling(m, j)].es| < 2 * (order / 2)
  }

  ghost predicate Underflows(order: nat, tower: seq<Level>, i: nat, m: nat) {
    && i + 1 < |tower| && m < |tower[i]| && |tower[i][m].es| < order / 2
    && (i > 0 || MergeStarvesParent(order, tower, m))
  }

  lemma {:induction false} StarvesAt(order: nat, tower: seq<Level>, m: nat, q: nat, j: nat)
    requires LeafSlotIn(tower, m, q, j)
    ensures MergeStarvesParent(order, tower, m) <==>
              |tower| > 2 && |tower[1][q].es| == order / 2
              && |tower[0][m].es| + |tower[0][Sibling(m, j)].es| < 2 * (order / 2)
  {
    forall q': nat, j': nat | LeafSlotIn(tower, m, q', j') ensures q' == q && j' == j {
      OffUnique(tower[1], q, j, q', j');
    }
  }

  /** What a caller can check before a delete: the key's leaf, its sibling and their parent, which is
      not the root, all sit at the minimum occupancy. */
  ghost predicate Starved(order: nat, tower: seq<Level>, key: int, m: nat, q: nat, j: nat) {
    && CoversAt(tower, 0, m, key)
    && LeafSlotIn(tower, m, q, j)
    && |tower| > 2
    && |tower[0][m].es| == order / 2
    && |tower[0][Sibling(m, j)].es| == order / 2
    && |tower[1][q].es| == order / 2
  }

  ghost predicate DeleteStarves(order: nat, tower: seq<Level>, key: int) {
    exists m: nat, q: nat, j: nat :: Starved(order, tower, key, m, q, j)
  }

  lemma {:induction false} CoverUnique(tower: seq<Level>, k: int, m: nat, m': nat)
    requires |tower| >= 1 && StrictFrom(Flat(tower[0]), 0) && LinksExcept(tower, -1) && NonEmpty(tower)
    requires CoversAt(tower, 0, m, k) && CoversAt(tower, 0, m', k)
    ensures m == m'
  {
    if |tower| > 1 { LevelStrict(tower, 1); }
  }

  /** The state after removing the entry underflows exactly when the state before was starved. */
  lemma {:induction false} StarvesBefore(order: nat, tower: seq<Level>, key: int, m: nat, idx: nat)
    requires Wf(order, tower) && CoversAt(tower, 0, m, key) && idx < |tower[0][m].es|
    ensures Underflows(order, SetNode(tower, 0, m, RemoveAt(tower[0][m].es, idx)), 0, m) <==> DeleteStarves(order, tower, key)
  {
    var es := RemoveAt(tower[0][m].es, idx);
    var t := SetNode(tower, 0, m, es);
    if DeleteStarves(order, tower, key) {
      var m', q, j :| Starved(order, tower, key, m', q, j);
      SizesPositive(order, tower);
      CoverUnique(tower, key, m, m');
      assert LeafSlotIn(t, m, q, j);
      StarvesAt(order, t, m, q, j);
    }
    if Underflows(order, t, 0, m) {
      var q: nat, j: nat :| LeafSlotIn(t, m, q, j) && |t| > 2
        && |t[1][q].es| == order / 2 && |t[0][m].es| + |t[0][Sibling(m, j)].es| < 2 * (order / 2);
      assert SizeOK(order, tower, 0, tower[0][m]) && SizeOK(order, tower, 0, tower[0][Sibling(m, j)]);
      assert Starved(order, tower, key, m, q, j);
    }
  }

  lemma {:induction false} SizesPositive(order: nat, tower: seq<Level>)
    requires order >= 4 && SizesExcept(order, tower, -1, -1)
    ensures NonEmpty(tower)
  {
    forall i: nat, q: nat | i < |tower| - 1 && q < |tower[i]| ensures |tower[i][q].es| > 0 {
      assert SizeOK(order, tower, i, tower[i][q]);
    }
  }

  /** The shape right after the entry left its leaf. */
  lemma {:induction false} RemoveState(order: nat, pages: Pages, tower: seq<Level>, numPages: int, m: nat, idx: nat)
    requires Wf(order, tower) && Rep(pages, tower, numPages)
    requires m < |tower[0]| && idx < |tower[0][m].es|
    ensures var es := RemoveAt(tower[0][m].es, idx);
            var t := SetNode(tower, 0, m, es);
            var p := tower[0][m].page;
            && p in pages
            && Rep(pages[p := pages[p].(es := es)], t, numPages)
            && Short(order, t, 0, m)
            && StrictFrom(Flat(t[0]), 0)
            && AsMap(Flat(t[0])) == AsMap(Flat(tower[0])) - {tower[0][m].es[idx].key}
  {
    LeafRemove(order, tower, m, idx);
    RepSetNode(pages, tower, numPages, 0, m, RemoveAt(tower[0][m].es, idx));
    assert SizeOK(order, tower, 0, tower[0][m]);
    hide Rep, StrictFrom, Flat, AsMap, LinksExcept, SizesExcept;
  }

  /** The tree holds a single key exactly when it is a root leaf with one entry. */
  lemma {:induction false} LastKey(order: nat, tower: seq<Level>, m: nat, idx: nat)
    requires Wf(order, tower) && m < |tower[0]| && idx < |tower[0][m].es|
    ensures AsMap(Flat(tower[0])).Keys == {tower[0][m].es[idx].key} <==> |tower| == 1 && |tower[0][m].es| == 1
  {
    var lv, f := tower[0], Flat(tower[0]);
    hide AsMap;
    FlatIndex(lv, m, idx);
    AsMapHas(f, Off(lv, m) + idx);
    var y := if idx == 0 then 1 else 0;
    if |lv[m].es| > 1 {
      FlatIndex(lv, m, y);
      AsMapHas(f, Off(lv, m) + y);
    } else {
      assert SizeOK(order, tower, 0, lv[m]);
      FlatAt(lv, 0);
      assert lv[..0] == [] && lv[1..] == [];
      forall k | k in AsMap(f) ensures k == lv[m].es[idx].key {
        var x := AsMapOnly(f, k);
      }
    }
  }
}
