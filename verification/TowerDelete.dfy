/**
  What the steps of a delete do to the shape of the tree: remove an entry from a leaf, move one entry
  between neighbouring leaves, merge two leaves, refresh separators upwards, drop a root with one child.
*/
module TowerDelete {
  import opened Tower
  import opened TowerInsert

  // ---------- removing an entry from a leaf ----------

  lemma {:induction false} RemoveStrict(f: seq<Entry>, x: nat)
    requires StrictFrom(f, 0) && x < |f|
    ensures StrictFrom(RemoveAt(f, x), 0)
    ensures AsMap(RemoveAt(f, x)) == AsMap(f) - {f[x].key}
  {
    var g := RemoveAt(f, x);
    forall i | 0 <= i < |g| ensures g[i] == f[if i < x then i else i + 1] {}
    RemoveMap(f, g, x);
  }

  lemma {:induction false} RemoveMap(f: seq<Entry>, g: seq<Entry>, x: nat)
    requires StrictFrom(f, 0) && StrictFrom(g, 0) && x < |f| && |g| == |f| - 1
    requires forall i :: 0 <= i < |g| ==> g[i] == f[if i < x then i else i + 1]
    ensures AsMap(g) == AsMap(f) - {f[x].key}
  {
    hide AsMap;
    var mg, mf := AsMap(g), AsMap(f) - {f[x].key};
    forall k | k in mg ensures k in mf && mg[k] == mf[k] {
      var i := AsMapOnly(g, k);
      AsMapHas(f, if i < x then i else i + 1);
    }
    forall k | k in mf ensures k in mg {
      var i := AsMapOnly(f, k);
      var y := if i < x then i else i - 1;
      assert g[y] == f[i];
      AsMapHas(g, y);
    }
  }

  lemma {:induction false} LeafRemove(order: nat, tower: seq<Level>, m: nat, idx: nat)
    requires Wf(order, tower)
    requires m < |tower[0]| && idx < |tower[0][m].es|
    ensures var t := SetNode(tower, 0, m, RemoveAt(tower[0][m].es, idx));
            && StrictFrom(Flat(t[0]), 0)
            && AsMap(Flat(t[0])) == AsMap(Flat(tower[0])) - {tower[0][m].es[idx].key}
            && LinksExcept(t, -1)
            && SizesExcept(order, t, 0, m)
  {
    hide StrictFrom, AsMap, SizesExcept, LinksExcept, Flat, RemoveAt;
    var lv, es := tower[0], tower[0][m].es;
    var es' := RemoveAt(es, idx);
    FlatRemove(lv, m, idx);
    FlatIndex(lv, m, idx);
    RemoveStrict(Flat(lv), Off(lv, m) + idx);
    SizesWeaken(order, tower, 0, m);
    SetNodeSizes(order, tower, 0, m, es');
    LeafRemoveLinks(order, tower, m, idx);
  }

  lemma {:induction false} SizesWeaken(order: nat, tower: seq<Level>, i: int, m: int)
    requires SizesExcept(order, tower, -1, -1)
    ensures SizesExcept(order, tower, i, m)
  {}

  lemma {:induction false} LeafRemoveLinks(order: nat, tower: seq<Level>, m: nat, idx: nat)
    requires Wf(order, tower)
    requires m < |tower[0]| && idx < |tower[0][m].es|
    ensures LinksExcept(SetNode(tower, 0, m, RemoveAt(tower[0][m].es, idx)), -1)
  {
    var lv, es := tower[0], tower[0][m].es;
    var t := SetNode(tower, 0, m, RemoveAt(es, idx));
    assert SizeOK(order, tower, 0, tower[0][m]);
    forall i: nat | i + 1 < |t| ensures LinkAt(t, i) {
      assert LinkAt(tower, i);
      if i == 0 {
        LeafNodeStrict(lv, m);
        var f := Flat(tower[1]);
        forall x | 1 <= x < |lv| ensures SepOK(t[0], f, x, true) {
          assert SepOK(lv, f, x, true);
        }
      }
    }
  }

  lemma {:induction false} LeafNodeStrict(lv: Level, m: nat)
    requires StrictFrom(Flat(lv), 0) && m < |lv|
    ensures StrictFrom(lv[m].es, 0)
  {
    forall x, y | 0 <= x < y < |lv[m].es| ensures lv[m].es[x].key < lv[m].es[y].key {
      FlatIndex(lv, m, x);
      FlatIndex(lv, m, y);
    }
  }

  // ---------- refreshing separators ----------

  /** Only the separator of node m of level i may be out of date; every other link holds. */
  ghost predicate PatchAt(tower: seq<Level>, i: nat, m: nat) {
    && i < |tower| && m < |tower[i]| && |tower[i][m].es| > 0
    && LinksExcept(tower, i)
    && (i + 1 < |tower| ==>
          var f := Flat(tower[i + 1]);
          && m < |f|
          && LinkedF(tower[i], f[m := Entry(tower[i][m].es[0].key, f[m].rid)], i == 0))
  }

  lemma {:induction false} PatchFromLinks(tower: seq<Level>, i: nat, m: nat)
    requires LinksExcept(tower, -1) && i < |tower| && m < |tower[i]| && |tower[i][m].es| > 0
    ensures PatchAt(tower, i, m)
  {
    if i + 1 < |tower| {
      var lv, f := tower[i], Flat(tower[i + 1]);
      assert LinkAt(tower, i);
      var g := f[m := Entry(lv[m].es[0].key, f[m].rid)];
      var leaf := i == 0;
      forall x | 1 <= x < |lv| ensures SepOK(lv, g, x, leaf) {
        assert SepOK(lv, f, x, leaf);
      }
    }
  }

  /** One round of maintain_parent: slot j of parent q takes the child's first key. */
  lemma {:induction false} PatchStep(order: nat, tower: seq<Level>, i: nat, m: nat, q: nat, j: nat)
    requires PatchAt(tower, i, m) && i + 1 < |tower|
    requires q < |tower[i + 1]| && j < |tower[i + 1][q].es| && Off(tower[i + 1], q) + j == m
    requires SizesExcept(order, tower, -1, -1)
    ensures var es := tower[i + 1][q].es;
            var t := SetNode(tower, i + 1, q, es[j := Entry(tower[i][m].es[0].key, es[j].rid)]);
            && PatchAt(t, i + 1, q)
            && SizesExcept(order, t, -1, -1)
  {
    hide SizesExcept, Flat, SepOK;
    var lv, k := tower[i + 1], tower[i][m].es[0].key;
    var es' := lv[q].es[j := Entry(k, lv[q].es[j].rid)];
    var t := SetNode(tower, i + 1, q, es');
    FlatSet(lv, q, j, Entry(k, lv[q].es[j].rid));
    FlatIndex(lv, q, j);
    forall x: nat | x + 1 < |t| && x != i + 1 ensures LinkAt(t, x) {
      if x != i { assert LinkAt(tower, x); }
    }
    if i + 2 < |t| {
      assert LinkAt(tower, i + 1);
      PatchHead(lv, q, es', Flat(tower[i + 2]));
    }
    SizesWeaken(order, tower, i + 1, q);
    SetNodeSizes(order, tower, i + 1, q, es');
    SameSize(order, tower, i + 1, q, es');
  }

  lemma {:induction false} SetInside(a: seq<Entry>, es: seq<Entry>, b: seq<Entry>, j: nat, e: Entry)
    requires j < |es|
    ensures a + es[j := e] + b == (a + es + b)[|a| + j := e]
  {}

  lemma {:induction false} FlatSet(lv: Level, q: nat, j: nat, e: Entry)
    requires q < |lv| && j < |lv[q].es|
    ensures Off(lv, q) + j < |Flat(lv)|
    ensures Flat(lv[q := Node(lv[q].page, lv[q].es[j := e])]) == Flat(lv)[Off(lv, q) + j := e]
  {
    hide Flat;
    FlatAt(lv, q);
    FlatUpdate(lv, q, Node(lv[q].page, lv[q].es[j := e]));
    SetInside(Flat(lv[..q]), lv[q].es, Flat(lv[q + 1..]), j, e);
  }

  lemma {:induction false} SameSize(order: nat, tower: seq<Level>, i: nat, m: nat, es: seq<Entry>)
    requires i < |tower| && m < |tower[i]| && |es| == |tower[i][m].es|
    requires SizesExcept(order, tower, -1, -1) && SizesExcept(order, SetNode(tower, i, m, es), i, m)
    ensures SizesExcept(order, SetNode(tower, i, m, es), -1, -1)
  {
    assert SizeOK(order, tower, i, tower[i][m]);
    var t := SetNode(tower, i, m, es);
    assert SizeOK(order, t, i, t[i][m]);
  }

  /** Changing an internal node's first key is repaired by one separator above. */
  lemma {:induction false} PatchHead(lv: Level, q: nat, es: seq<Entry>, f: seq<Entry>)
    requires q < |lv| && LinkedF(lv, f, false) && |es| > 0
    ensures LinkedF(lv[q := Node(lv[q].page, es)], f[q := Entry(es[0].key, f[q].rid)], false)
  {
    var lv', f' := lv[q := Node(lv[q].page, es)], f[q := Entry(es[0].key, f[q].rid)];
    forall x | 1 <= x < |lv| ensures SepOK(lv', f', x, false) {
      assert SepOK(lv, f, x, false);
    }
  }

  /** When the separator is already equal, or there is no parent, all links hold. */
  lemma {:induction false} PatchDone(tower: seq<Level>, i: nat, m: nat)
    requires PatchAt(tower, i, m)
    requires i + 1 < |tower| ==> Flat(tower[i + 1])[m].key == tower[i][m].es[0].key
    ensures LinksExcept(tower, -1)
  {
    forall x: nat | x + 1 < |tower| ensures LinkAt(tower, x) {
      if x == i {
        var f := Flat(tower[i + 1]);
        assert f[m := Entry(tower[i][m].es[0].key, f[m].rid)] == f;
      }
    }
  }

  // ---------- moving one entry between leaves ----------

  lemma {:induction false} FlatPair(lv: Level, l: nat, a: Node, b: Node)
    requires l + 1 < |lv|
    ensures Flat(lv[l := a][l + 1 := b]) == Flat(lv[..l]) + (a.es + b.es) + Flat(lv[l + 2..])
  {
    hide Flat;
    var lv' := lv[l := a][l + 1 := b];
    assert lv' == lv[..l] + [a] + [b] + lv[l + 2..];
    FlatAppend(lv[..l] + [a] + [b], lv[l + 2..]);
    FlatAppend(lv[..l] + [a], [b]);
    FlatAppend(lv[..l], [a]);
    FlatOne(a);
    FlatOne(b);
  }

  lemma {:induction false} PairFlatSame(lv: Level, l: nat, a: Node, b: Node)
    requires l + 1 < |lv| && a.es + b.es == lv[l].es + lv[l + 1].es
    ensures Flat(lv[l := a][l + 1 := b]) == Flat(lv)
  {
    FlatPair(lv, l, a, b);
    FlatPair(lv, l, lv[l], lv[l + 1]);
    assert lv[l := lv[l]][l + 1 := lv[l + 1]] == lv;
  }

  /** Both leaves keep entries and their joint contents: only the separator between them is stale. */
  lemma {:induction false} PairPatch(tower: seq<Level>, l: nat, a: seq<Entry>, b: seq<Entry>)
    requires |tower| > 1 && LinksExcept(tower, -1)
    requires StrictFrom(Flat(tower[0]), 0)
    requires l + 1 < |tower[0]| && |a| > 0 && |b| > 0
    requires |tower[0][l].es| > 0 && |tower[0][l + 1].es| > 0
    requires a + b == tower[0][l].es + tower[0][l + 1].es
    ensures var lv := tower[0];
            var t := tower[0 := lv[l := Node(lv[l].page, a)][l + 1 := Node(lv[l + 1].page, b)]];
            PatchAt(t, 0, l + 1) && Flat(t[0]) == Flat(lv)
  {
    var lv, f := tower[0], Flat(tower[1]);
    var t: seq<Level> := tower[0 := lv[l := Node(lv[l].page, a)][l + 1 := Node(lv[l + 1].page, b)]];
    PairFlatSame(lv, l, Node(lv[l].page, a), Node(lv[l + 1].page, b));
    forall x: nat | x + 1 < |t| && x != 0 ensures LinkAt(t, x) { assert LinkAt(tower, x); }
    assert LinkAt(tower, 0);
    var g := f[l + 1 := Entry(b[0].key, f[l + 1].rid)];
    PairSeps(lv, t[0], f, g, l, a, b);
  }

  lemma {:induction false} NextNodeAbove(lv: Level, l: nat)
    requires l + 1 < |lv| && |lv[l].es| > 0 && |lv[l + 1].es| > 0 && StrictFrom(Flat(lv), 0)
    ensures lv[l].es[|lv[l].es| - 1].key < lv[l + 1].es[0].key
  {
    hide Flat;
    FlatIndex(lv, l, |lv[l].es| - 1);
    FlatAt(lv, l);
    FlatIndex(lv, l + 1, 0);
  }

  lemma {:induction false} PairSeps(lv: Level, lv': Level, f: seq<Entry>, g: seq<Entry>, l: nat, a: seq<Entry>, b: seq<Entry>)
    requires l + 1 < |lv| && LinkedF(lv, f, true)
    requires |a| > 0 && |b| > 0 && |lv[l].es| > 0 && |lv[l + 1].es| > 0
    requires a + b == lv[l].es + lv[l + 1].es
    requires lv' == lv[l := Node(lv[l].page, a)][l + 1 := Node(lv[l + 1].page, b)]
    requires g == f[l + 1 := Entry(b[0].key, f[l + 1].rid)]
    requires StrictFrom(Flat(lv'), 0)
    ensures LinkedF(lv', g, true)
  {
    hide StrictFrom, Flat;
    var u := a + b;
    assert u[0] == a[0] == lv[l].es[0];
    assert u[|u| - 1] == b[|b| - 1] == lv[l + 1].es[|lv[l + 1].es| - 1];
    NextNodeAbove(lv', l);
    forall x | 1 <= x < |lv| ensures SepOK(lv', g, x, true) {
      assert SepOK(lv, f, x, true);
    }
  }

  // ---------- merging two leaves ----------

  /** Leaf l takes over the entries of leaf l+1, which goes away. */
  ghost function MergeLevel(lv: Level, l: nat): Level
    requires l + 1 < |lv|
  {
    lv[..l] + [Node(lv[l].page, lv[l].es + lv[l + 1].es)] + lv[l + 2..]
  }

  lemma {:induction false} MergeFlat(lv: Level, l: nat)
    requires l + 1 < |lv|
    ensures Flat(MergeLevel(lv, l)) == Flat(lv)
  {
    var n := Node(lv[l].page, lv[l].es + lv[l + 1].es);
    var lv' := MergeLevel(lv, l);
    FlatAt(lv', l);
    assert lv'[..l] == lv[..l] && lv'[l + 1..] == lv[l + 2..];
    FlatPair(lv, l, lv[l], lv[l + 1]);
    assert lv[l := lv[l]][l + 1 := lv[l + 1]] == lv;
  }

  lemma {:induction false} MergeSeps(lv: Level, l: nat, f: seq<Entry>)
    requires l + 1 < |lv| && LinkedF(lv, f, true)
    requires |lv[l].es| > 0 && |lv[l + 1].es| > 0
    ensures LinkedF(MergeLevel(lv, l), RemoveAt(f, l + 1), true)
  {
    var lv', g := MergeLevel(lv, l), RemoveAt(f, l + 1);
    forall x | 1 <= x < |lv'| ensures SepOK(lv', g, x, true) {
      if x <= l {
        assert SepOK(lv, f, x, true);
      } else {
        assert SepOK(lv, f, x + 1, true);
        assert lv'[x] == lv[x + 1] && g[x] == f[x + 1];
        if x > l + 1 { assert lv'[x - 1] == lv[x]; }
      }
    }
    forall x | 0 <= x < |lv'| ensures g[x].rid == ChildRid(lv'[x].page) {
      if x > l { assert lv'[x] == lv[x + 1] && g[x] == f[x + 1]; }
    }
  }

  lemma {:induction false} FlatRemove(lv: Level, q: nat, j: nat)
    requires q < |lv| && j < |lv[q].es|
    ensures Off(lv, q) + j < |Flat(lv)|
    ensures Flat(lv[q := Node(lv[q].page, RemoveAt(lv[q].es, j))]) == RemoveAt(Flat(lv), Off(lv, q) + j)
  {
    hide Flat, RemoveAt;
    FlatAt(lv, q);
    FlatUpdate(lv, q, Node(lv[q].page, RemoveAt(lv[q].es, j)));
    RemoveInside(Flat(lv[..q]), lv[q].es, Flat(lv[q + 1..]), j);
  }

  lemma {:induction false} RemoveInside(a: seq<Entry>, es: seq<Entry>, b: seq<Entry>, j: nat)
    requires j < |es|
    ensures a + RemoveAt(es, j) + b == RemoveAt(a + es + b, |a| + j)
  {
    var s := a + es + b;
    assert s[..|a| + j] == a + es[..j];
    assert s[|a| + j + 1..] == es[j + 1..] + b;
  }

  /** Leaves l and l+1 merged, and slot j of their parent q removed. */
  ghost function MergeTower(tower: seq<Level>, l: nat, q: nat, j: nat): seq<Level>
    requires |tower| > 1 && l + 1 < |tower[0]| && q < |tower[1]| && j < |tower[1][q].es|
  {
    SetNode(tower, 1, q, RemoveAt(tower[1][q].es, j))[0 := MergeLevel(tower[0], l)]
  }

  lemma {:induction false} MergeLinks(tower: seq<Level>, l: nat, q: nat, j: nat)
    requires |tower| > 1 && LinksExcept(tower, -1)
    requires l + 1 < |tower[0]| && q < |tower[1]| && 0 < j < |tower[1][q].es| && Off(tower[1], q) + j == l + 1
    requires |tower[0][l].es| > 0 && |tower[0][l + 1].es| > 0
    ensures LinksExcept(MergeTower(tower, l, q, j), -1)
    ensures Flat(MergeTower(tower, l, q, j)[0]) == Flat(tower[0])
  {
    hide Flat, LinkedF, MergeLevel;
    var t := MergeTower(tower, l, q, j);
    assert LinkAt(tower, 0);
    MergeFlat(tower[0], l);
    FlatRemove(tower[1], q, j);
    MergeSeps(tower[0], l, Flat(tower[1]));
    forall x: nat | x + 1 < |t| ensures LinkAt(t, x) {
      assert LinkAt(tower, x);
      if x == 1 { HeadKept(tower[1], q, RemoveAt(tower[1][q].es, j), Flat(tower[2])); }
    }
  }

  lemma {:induction false} MergeSizes(order: nat, tower: seq<Level>, l: nat, q: nat, j: nat, short: nat)
    requires |tower| > 1 && order >= 4
    requires l + 1 < |tower[0]| && q < |tower[1]| && j < |tower[1][q].es|
    requires short == l || short == l + 1
    requires SizesExcept(order, tower, 0, short)
    requires order / 2 <= |tower[0][l].es| + |tower[0][l + 1].es| < 2 * (order / 2)
    ensures SizesExcept(order, MergeTower(tower, l, q, j), 1, q)
  {
    var t := MergeTower(tower, l, q, j);
    forall x: nat, y: nat | x < |t| && y < |t[x]| && !(x == 1 && y == q) ensures SizeOK(order, t, x, t[x][y]) {
      if x == 0 && y > l {
        assert t[x][y] == tower[x][y + 1];
        assert SizeOK(order, tower, x, tower[x][y + 1]);
      } else if x == 0 && y == l {
      } else {
        assert t[x][y] == tower[x][y];
        assert SizeOK(order, tower, x, tower[x][y]);
      }
    }
  }

  // ---------- dropping the root ----------

  lemma {:induction false} CollapseWf(order: nat, tower: seq<Level>)
    requires order >= 4 && |tower| > 1 && |tower[|tower| - 1]| == 1 && |tower[|tower| - 1][0].es| == 1
    requires StrictFrom(Flat(tower[0]), 0)
    requires LinksExcept(tower, -1) && SizesExcept(order, tower, |tower| - 1, 0)
    ensures Wf(order, tower[..|tower| - 1])
    ensures |tower[|tower| - 2]| == 1
    ensures tower[|tower| - 1][0].es[0].rid == ChildRid(tower[|tower| - 2][0].page)
  {
    var top := |tower| - 1;
    var t := tower[..top];
    assert LinkAt(tower, top - 1);
    FlatAt(tower[top], 0);
    assert tower[top][..0] == [] && tower[top][1..] == [];
    forall x: nat | x + 1 < |t| ensures LinkAt(t, x) { assert LinkAt(tower, x); }
    forall x: nat, y: nat | x < |t| && y < |t[x]| ensures SizeOK(order, t, x, t[x][y]) {
      assert SizeOK(order, tower, x, tower[x][y]);
    }
  }
}
