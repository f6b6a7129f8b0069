/**
  What the steps of an insert do to the shape of the tree: put an entry into a leaf, split a node,
  put the separator of the new node into the parent, grow a new root.
*/
module TowerInsert {
  import opened Tower

  ghost function SetNode(tower: seq<Level>, i: nat, m: nat, es: seq<Entry>): seq<Level>
    requires i < |tower| && m < |tower[i]|
  {
    tower[i := tower[i][m := Node(tower[i][m].page, es)]]
  }

  ghost function SplitNode(tower: seq<Level>, i: nat, m: nat, h: nat, fresh': int): seq<Level>
    requires i < |tower| && m < |tower[i]| && h <= |tower[i][m].es|
  {
    var n := tower[i][m];
    tower[i := Replace2(tower[i], m, Node(n.page, n.es[..h]), Node(fresh', n.es[h..]))]
  }

  /** The entries that list level i: those of level i+1, or one entry for a lone root. */
  ghost function Lister(tower: seq<Level>, i: nat): seq<Entry>
    requires i < |tower| && tower[i] != []
  {
    if i + 1 < |tower| then Flat(tower[i + 1]) else [Entry(0, ChildRid(tower[i][0].page))]
  }

  /** Node m of level i has just been split; the entry for its new right half is still missing above. */
  ghost predicate InGap(order: nat, tower: seq<Level>, i: nat, m: nat, sep: int, fresh': int) {
    && order >= 4
    && i < |tower|
    && m + 1 < |tower[i]|
    && tower[i][m + 1].page == fresh'
    && (if i + 1 < |tower| then |tower[|tower| - 1]| == 1 else |tower[i]| == 2)
    && StrictFrom(Flat(tower[0]), 0)
    && LinksExcept(tower, i)
    && SizesExcept(order, tower, -1, -1)
    && m < |Lister(tower, i)|
    && LinkedF(tower[i], InsertAt(Lister(tower, i), m + 1, Entry(sep, ChildRid(fresh'))), i == 0)
  }

  // ---------- leaf insert ----------

  ghost predicate LowerBoundAt(es: seq<Entry>, k: int, idx: nat) {
    && idx <= |es|
    && (forall x :: 0 <= x < idx ==> es[x].key < k)
    && (forall x :: idx <= x < |es| ==> k <= es[x].key)
  }

  lemma {:induction false} SegKey(f: seq<Entry>, n: nat, es: seq<Entry>, k: int, idx: nat)
    requires StrictFrom(f, 0) && n + |es| <= |f|
    requires forall x :: 0 <= x < n ==> f[x].key < k
    requires forall x :: 0 <= x < |es| ==> f[n + x] == es[x]
    requires forall x :: n + |es| <= x < |f| ==> k < f[x].key
    requires LowerBoundAt(es, k, idx)
    ensures k in AsMap(f) <==> idx < |es| && es[idx].key == k
    ensures idx < |es| && es[idx].key == k ==> AsMap(f)[k] == es[idx].rid
  {
    hide AsMap;
    if k in AsMap(f) {
      var x := AsMapOnly(f, k);
      assert f[n + (x - n)] == es[x - n];
      assert f[n + idx] == es[idx];
    }
    if idx < |es| {
      assert f[n + idx] == es[idx];
      AsMapHas(f, n + idx);
    }
  }

  lemma {:induction false} MidKey(a: seq<Entry>, es: seq<Entry>, b: seq<Entry>, k: int, idx: nat)
    requires StrictFrom(a + es + b, 0)
    requires forall x :: x in a ==> x.key < k
    requires forall x :: x in b ==> k < x.key
    requires LowerBoundAt(es, k, idx)
    ensures k in AsMap(a + es + b) <==> idx < |es| && es[idx].key == k
    ensures idx < |es| && es[idx].key == k ==> AsMap(a + es + b)[k] == es[idx].rid
  {
    hide StrictFrom, AsMap;
    var f := a + es + b;
    forall x | 0 <= x < |a| ensures f[x].key < k { assert f[x] == a[x]; }
    forall x | 0 <= x < |es| ensures f[|a| + x] == es[x] {}
    forall x | |a| + |es| <= x < |f| ensures k < f[x].key { assert f[x] == b[x - |a| - |es|]; }
    SegKey(f, |a|, es, k, idx);
  }

  lemma {:induction false} LeafKeyIff(tower: seq<Level>, m: nat, k: int, idx: nat)
    requires |tower| >= 1
    requires StrictFrom(Flat(tower[0]), 0)
    requires LinksExcept(tower, -1)
    requires CoversAt(tower, 0, m, k)
    requires LowerBoundAt(tower[0][m].es, k, idx)
    ensures k in AsMap(Flat(tower[0])) <==> idx < |tower[0][m].es| && tower[0][m].es[idx].key == k
    ensures idx < |tower[0][m].es| && tower[0][m].es[idx].key == k
            ==> AsMap(Flat(tower[0]))[k] == tower[0][m].es[idx].rid
  {
    LeafBounds(tower, m, k);
    FlatAt(tower[0], m);
    MidKey(Flat(tower[0][..m]), tower[0][m].es, Flat(tower[0][m + 1..]), k, idx);
  }

  lemma {:induction false} InsertStrict(a: seq<Entry>, b: seq<Entry>, e: Entry)
    requires StrictFrom(a + b, 0)
    requires forall x :: x in a ==> x.key < e.key
    requires forall x :: x in b ==> e.key < x.key
    ensures StrictFrom(a + [e] + b, 0)
    ensures AsMap(a + [e] + b) == AsMap(a + b)[e.key := e.rid]
  {
    var f := a + [e] + b;
    forall i, j | 0 <= i < j < |f| ensures f[i].key < f[j].key {
      if i < |a| { assert f[i] == (a + b)[i] && f[i] in a; }
      if i > |a| { assert f[i] == (a + b)[i - 1] && f[i] in b; }
      if j < |a| { assert f[j] == (a + b)[j] && f[j] in a; }
      if j > |a| { assert f[j] == (a + b)[j - 1] && f[j] in b; }
    }
    forall x ensures x in f <==> x in a + b || x == e {
      assert x in f <==> x in a || x == e || x in b;
    }
    MapInsert(f, a + b, e);
  }

  lemma {:induction false} MapInsert(f: seq<Entry>, g: seq<Entry>, e: Entry)
    requires StrictFrom(f, 0) && StrictFrom(g, 0)
    requires forall x :: x in f <==> x in g || x == e
    requires forall x :: x in g ==> x.key != e.key
    ensures AsMap(f) == AsMap(g)[e.key := e.rid]
  {
    hide AsMap;
    var mf, mg := AsMap(f), AsMap(g)[e.key := e.rid];
    forall k | k in mf ensures k in mg && mf[k] == mg[k] {
      var x := AsMapOnly(f, k);
      if f[x] != e {
        assert f[x] in f;
        var y :| 0 <= y < |g| && g[y] == f[x];
        AsMapHas(g, y);
      }
    }
    forall k | k in mg ensures k in mf {
      if k == e.key {
        assert e in f;
        var y :| 0 <= y < |f| && f[y] == e;
        AsMapHas(f, y);
      } else {
        var x := AsMapOnly(g, k);
        assert g[x] in g && g[x] in f;
        var y :| 0 <= y < |f| && f[y] == g[x];
        AsMapHas(f, y);
      }
    }
  }

  lemma {:induction false} MidAbove(a: seq<Entry>, es: seq<Entry>, b: seq<Entry>, k: int, idx: nat)
    requires StrictFrom(a + es + b, 0)
    requires forall x :: x in b ==> k < x.key
    requires LowerBoundAt(es, k, idx)
    requires idx < |es| ==> es[idx].key != k
    ensures forall x :: x in es[idx..] + b ==> k < x.key
  {
    forall y | idx <= y < |es| ensures k < es[y].key {
      assert (a + es + b)[|a| + idx] == es[idx] && (a + es + b)[|a| + y] == es[y];
    }
  }

  lemma {:induction false} MidInsert(a: seq<Entry>, es: seq<Entry>, b: seq<Entry>, e: Entry, idx: nat)
    requires StrictFrom(a + es + b, 0)
    requires forall x :: x in a ==> x.key < e.key
    requires forall x :: x in b ==> e.key < x.key
    requires LowerBoundAt(es, e.key, idx)
    requires e.key !in AsMap(a + es + b)
    ensures StrictFrom(a + InsertAt(es, idx, e) + b, 0)
    ensures AsMap(a + InsertAt(es, idx, e) + b) == AsMap(a + es + b)[e.key := e.rid]
  {
    hide StrictFrom, AsMap;
    MidKey(a, es, b, e.key, idx);
    var l, r := a + es[..idx], es[idx..] + b;
    assert l + r == a + es + b by { assert es == es[..idx] + es[idx..]; }
    assert l + [e] + r == a + InsertAt(es, idx, e) + b;
    MidAbove(a, es, b, e.key, idx);
    InsertStrict(l, r, e);
  }

  lemma {:induction false} LeafInsert(order: nat, tower: seq<Level>, m: nat, e: Entry, idx: nat)
    requires Wf(order, tower)
    requires CoversAt(tower, 0, m, e.key)
    requires LowerBoundAt(tower[0][m].es, e.key, idx)
    requires e.key !in AsMap(Flat(tower[0]))
    ensures var t := SetNode(tower, 0, m, InsertAt(tower[0][m].es, idx, e));
            && StrictFrom(Flat(t[0]), 0)
            && AsMap(Flat(t[0])) == AsMap(Flat(tower[0]))[e.key := e.rid]
            && LinksExcept(t, -1)
            && SizesExcept(order, t, 0, m)
  {
    var lv, es := tower[0], tower[0][m].es;
    var es' := InsertAt(es, idx, e);
    LeafBounds(tower, m, e.key);
    FlatAt(lv, m);
    FlatUpdate(lv, m, Node(lv[m].page, es'));
    MidInsert(Flat(lv[..m]), es, Flat(lv[m + 1..]), e, idx);
    LeafInsertLinks(tower, m, e, idx);
    SetNodeSizes(order, tower, 0, m, es');
  }

  lemma {:induction false} SetNodeShape(tower: seq<Level>, i: nat, m: nat, es: seq<Entry>)
    requires i < |tower| && m < |tower[i]|
    ensures forall x :: 0 <= x < |tower| ==> |SetNode(tower, i, m, es)[x]| == |tower[x]|
    ensures forall x, y :: 0 <= x < |tower| && 0 <= y < |tower[x]| ==> SetNode(tower, i, m, es)[x][y].page == tower[x][y].page
  {}

  /** Changing one node leaves the occupancy of the others alone. */
  lemma {:induction false} SetNodeSizes(order: nat, tower: seq<Level>, i: nat, m: nat, es: seq<Entry>)
    requires i < |tower| && m < |tower[i]|
    requires SizesExcept(order, tower, i, m)
    ensures SizesExcept(order, SetNode(tower, i, m, es), i, m)
  {
    var t := SetNode(tower, i, m, es);
    forall x: nat, y: nat | x < |t| && y < |t[x]| && !(x == i && y == m) ensures SizeOK(order, t, x, t[x][y]) {
      assert SizeOK(order, tower, x, tower[x][y]);
    }
  }

  lemma {:induction false} LeafInsertLinks(tower: seq<Level>, m: nat, e: Entry, idx: nat)
    requires |tower| >= 1 && LinksExcept(tower, -1)
    requires CoversAt(tower, 0, m, e.key)
    requires LowerBoundAt(tower[0][m].es, e.key, idx)
    ensures LinksExcept(SetNode(tower, 0, m, InsertAt(tower[0][m].es, idx, e)), -1)
  {
    var lv, es := tower[0], tower[0][m].es;
    var t := SetNode(tower, 0, m, InsertAt(es, idx, e));
    forall i: nat | i + 1 < |t| ensures LinkAt(t, i) {
      assert LinkAt(tower, i);
      if i == 0 {
        var f := Flat(tower[1]);
        forall x | 1 <= x < |lv| ensures SepOK(t[0], f, x, true) {
          assert SepOK(lv, f, x, true);
        }
      }
    }
  }

  // ---------- split ----------

  lemma {:induction false} SplitGap(order: nat, tower: seq<Level>, i: nat, m: nat, fresh': int)
    requires order >= 4
    requires i < |tower| && m < |tower[i]| && |tower[i][m].es| == order
    requires |tower[|tower| - 1]| == 1
    requires StrictFrom(Flat(tower[0]), 0)
    requires LinksExcept(tower, -1) && SizesExcept(order, tower, i, m)
    ensures var h := order / 2;
            var t := SplitNode(tower, i, m, h, fresh');
            && InGap(order, t, i, m, tower[i][m].es[h].key, fresh')
            && Flat(t[0]) == Flat(tower[0])
  {
    hide Flat, SizesExcept, StrictFrom, LinkedF, Replace2;
    var h := order / 2;
    var t := SplitNode(tower, i, m, h, fresh');
    SplitFlat(tower[i], m, h, fresh');
    SplitLinks(tower, t, i);
    SplitSizes(order, tower, i, m, fresh');
    ListerLinked(tower, i);
    SplitLister(tower[i], m, h, fresh', Lister(tower, i), i == 0, order, Flat(tower[i]));
  }

  lemma {:induction false} SplitFlat(lv: Level, m: nat, h: nat, fresh': int)
    requires m < |lv| && h <= |lv[m].es|
    ensures var lv' := Replace2(lv, m, Node(lv[m].page, lv[m].es[..h]), Node(fresh', lv[m].es[h..]));
            && Flat(lv') == Flat(lv)
            && |lv'| == |lv| + 1 && lv'[m + 1].page == fresh' && lv'[0].page == lv[0].page
  {
    hide Flat;
    var n := lv[m];
    FlatReplace2(lv, m, Node(n.page, n.es[..h]), Node(fresh', n.es[h..]));
    FlatAt(lv, m);
    assert n.es[..h] + n.es[h..] == n.es;
  }

  lemma {:induction false} ListerLinked(tower: seq<Level>, i: nat)
    requires i < |tower| && tower[i] != [] && |tower[|tower| - 1]| == 1 && LinksExcept(tower, -1)
    ensures LinkedF(tower[i], Lister(tower, i), i == 0) && |Lister(tower, i)| == |tower[i]|
  {
    hide Flat;
    assert i + 1 < |tower| ==> LinkAt(tower, i);
  }

  /** Only level i changed, and its flat contents did not. */
  lemma {:induction false} SplitLinks(tower: seq<Level>, t: seq<Level>, i: nat)
    requires i < |tower| == |t| && LinksExcept(tower, -1)
    requires forall j :: 0 <= j < |t| && j != i ==> t[j] == tower[j]
    requires Flat(t[i]) == Flat(tower[i])
    ensures LinksExcept(t, i)
  {
    forall j: nat | j + 1 < |t| && j != i ensures LinkAt(t, j) {
      assert LinkAt(tower, j);
    }
  }

  lemma {:induction false} SplitSizes(order: nat, tower: seq<Level>, i: nat, m: nat, fresh': int)
    requires order >= 4
    requires i < |tower| && m < |tower[i]| && |tower[i][m].es| == order
    requires |tower[|tower| - 1]| == 1
    requires SizesExcept(order, tower, i, m)
    ensures SizesExcept(order, SplitNode(tower, i, m, order / 2, fresh'), -1, -1)
  {
    var t := SplitNode(tower, i, m, order / 2, fresh');
    forall x: nat, q: nat | x < |t| && q < |t[x]| ensures SizeOK(order, t, x, t[x][q]) {
      if x != i {
        assert t[x][q] == tower[x][q];
      } else if q < m {
        assert t[x][q] == tower[x][q];
      } else if q > m + 1 {
        assert t[x][q] == tower[x][q - 1];
      }
    }
  }

  lemma {:induction false} SplitLister(lv: Level, m: nat, h: nat, fresh': int, f: seq<Entry>, leaf: bool, order: nat, all: seq<Entry>)
    requires m < |lv| && order >= 4 && |lv[m].es| == order && h == order / 2
    requires LinkedF(lv, f, leaf)
    requires leaf ==> all == Flat(lv) && StrictFrom(all, 0)
    ensures var n := lv[m];
            LinkedF(Replace2(lv, m, Node(n.page, n.es[..h]), Node(fresh', n.es[h..])),
                    InsertAt(f, m + 1, Entry(n.es[h].key, ChildRid(fresh'))), leaf)
  {
    var n := lv[m];
    var t := Replace2(lv, m, Node(n.page, n.es[..h]), Node(fresh', n.es[h..]));
    var g := InsertAt(f, m + 1, Entry(n.es[h].key, ChildRid(fresh')));
    forall x | 1 <= x < |t| ensures SepOK(t, g, x, leaf) {
      if x <= m {
        assert SepOK(lv, f, x, leaf);
      } else if x == m + 1 {
        if leaf {
          FlatIndex(lv, m, h - 1);
          FlatIndex(lv, m, h);
        }
      } else {
        assert SepOK(lv, f, x - 1, leaf);
        assert t[x] == lv[x - 1] && g[x] == f[x - 1];
      }
    }
    forall x | 0 <= x < |t| ensures g[x].rid == ChildRid(t[x].page) {
      if x <= m { assert g[x] == f[x]; }
      if x > m + 1 { assert t[x] == lv[x - 1] && g[x] == f[x - 1]; }
    }
  }

  // ---------- the parent takes the new separator ----------

  lemma {:induction false} ParentInsert(order: nat, tower: seq<Level>, i: nat, m: nat, sep: int, fresh': int, q: nat, j: nat)
    requires InGap(order, tower, i, m, sep, fresh')
    requires i + 1 < |tower|
    requires q < |tower[i + 1]| && j < |tower[i + 1][q].es| && Off(tower[i + 1], q) + j == m
    ensures var es := tower[i + 1][q].es;
            var t := SetNode(tower, i + 1, q, InsertAt(es, j + 1, Entry(sep, ChildRid(fresh'))));
            && LinksExcept(t, -1)
            && SizesExcept(order, t, i + 1, q)
            && |es| < order
  {
    hide Flat, StrictFrom, LinkedF, LinksExcept;
    var es := tower[i + 1][q].es;
    assert SizeOK(order, tower, i + 1, tower[i + 1][q]);
    ParentLinks(order, tower, i, m, sep, fresh', q, j);
    SetNodeSizes(order, tower, i + 1, q, InsertAt(es, j + 1, Entry(sep, ChildRid(fresh'))));
  }

  lemma {:induction false} ParentLinks(order: nat, tower: seq<Level>, i: nat, m: nat, sep: int, fresh': int, q: nat, j: nat)
    requires InGap(order, tower, i, m, sep, fresh')
    requires i + 1 < |tower|
    requires q < |tower[i + 1]| && j < |tower[i + 1][q].es| && Off(tower[i + 1], q) + j == m
    ensures LinksExcept(SetNode(tower, i + 1, q, InsertAt(tower[i + 1][q].es, j + 1, Entry(sep, ChildRid(fresh')))), -1)
  {
    hide Flat, SizesExcept, StrictFrom, LinkedF;
    var lv, e := tower[i + 1], Entry(sep, ChildRid(fresh'));
    var es' := InsertAt(lv[q].es, j + 1, e);
    var t := SetNode(tower, i + 1, q, es');
    FlatInsert(lv, q, j + 1, e);
    assert LinkAt(t, i);
    forall x: nat | x + 1 < |t| ensures LinkAt(t, x) {
      if x != i { assert LinkAt(tower, x); }
      if x == i + 1 { HeadKept(lv, q, es', Flat(tower[x + 1])); }
    }
  }

  lemma {:induction false} InsertInside(a: seq<Entry>, es: seq<Entry>, b: seq<Entry>, j: nat, e: Entry)
    requires j <= |es|
    ensures a + InsertAt(es, j, e) + b == InsertAt(a + es + b, |a| + j, e)
  {
    var s := a + es + b;
    assert s[..|a| + j] == a + es[..j];
    assert s[|a| + j..] == es[j..] + b;
  }

  lemma {:induction false} FlatInsert(lv: Level, q: nat, j: nat, e: Entry)
    requires q < |lv| && j <= |lv[q].es|
    ensures Off(lv, q) + j <= |Flat(lv)|
    ensures Flat(lv[q := Node(lv[q].page, InsertAt(lv[q].es, j, e))]) == InsertAt(Flat(lv), Off(lv, q) + j, e)
  {
    hide Flat, InsertAt;
    FlatAt(lv, q);
    FlatUpdate(lv, q, Node(lv[q].page, InsertAt(lv[q].es, j, e)));
    InsertInside(Flat(lv[..q]), lv[q].es, Flat(lv[q + 1..]), j, e);
  }

  /** An internal node may change anything but its first key. */
  lemma {:induction false} HeadKept(lv: Level, q: nat, es: seq<Entry>, f: seq<Entry>)
    requires q < |lv| && LinkedF(lv, f, false)
    requires |lv[q].es| > 0 && |es| > 0 && es[0].key == lv[q].es[0].key
    ensures LinkedF(lv[q := Node(lv[q].page, es)], f, false)
  {
    var lv' := lv[q := Node(lv[q].page, es)];
    forall x | 1 <= x < |lv| ensures SepOK(lv', f, x, false) {
      assert SepOK(lv, f, x, false);
    }
  }

  // ---------- a new root ----------

  lemma {:induction false} GrowRoot(order: nat, tower: seq<Level>, i: nat, sep: int, fresh': int, rootPage: int, k0: int)
    requires InGap(order, tower, i, 0, sep, fresh') && i + 1 == |tower|
    ensures Wf(order, tower + [[Node(rootPage, [Entry(k0, ChildRid(tower[i][0].page)), Entry(sep, ChildRid(fresh'))])]])
  {
    hide Flat, StrictFrom, SizesExcept, LinksExcept;
    var root := Node(rootPage, [Entry(k0, ChildRid(tower[i][0].page)), Entry(sep, ChildRid(fresh'))]);
    GrowLinks(order, tower, i, sep, fresh', root);
    GrowSizes(order, tower, root);
  }

  lemma {:induction false} GrowLinks(order: nat, tower: seq<Level>, i: nat, sep: int, fresh': int, root: Node)
    requires InGap(order, tower, i, 0, sep, fresh') && i + 1 == |tower|
    requires |root.es| == 2 && root.es[0].rid == ChildRid(tower[i][0].page) && root.es[1] == Entry(sep, ChildRid(fresh'))
    ensures LinksExcept(tower + [[root]], -1)
  {
    hide Flat, StrictFrom, SizesExcept;
    var t := tower + [[root]];
    FlatOne(root);
    var g := InsertAt(Lister(tower, i), 1, Entry(sep, ChildRid(fresh')));
    forall x: nat | x + 1 < |t| ensures LinkAt(t, x) {
      if x == i {
        assert SepOK(tower[i], g, 1, i == 0);
        assert SepOK(t[i], root.es, 1, i == 0);
      } else {
        assert LinkAt(tower, x);
      }
    }
  }

  lemma {:induction false} GrowSizes(order: nat, tower: seq<Level>, root: Node)
    requires order >= 4 && tower != [] && |tower[|tower| - 1]| == 2 && |root.es| == 2 && SizesExcept(order, tower, -1, -1)
    ensures SizesExcept(order, tower + [[root]], -1, -1)
  {
    var t := tower + [[root]];
    forall x: nat, y: nat | x < |t| && y < |t[x]| ensures SizeOK(order, t, x, t[x][y]) {
      assert x < |tower| ==> SizeOK(order, tower, x, tower[x][y]);
    }
  }
}
