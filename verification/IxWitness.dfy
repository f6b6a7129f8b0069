/**
  A concrete three-level tree of order 6 on which deleting a key leaves an internal node below its
  minimum: two inner nodes with three leaves each, every leaf holding three keys.
*/
module IxWitness {
  import opened Defs
  import opened Tower
  import opened IxPages
  import opened IxDeleteSteps
  import opened IxIndex

  /** Page numbers as ascending inserts hand them out: 4 was the first root, 9 its right half, 10 the new root. */
  function LeafPage(m: nat): int { if m < 2 then 2 + m else 3 + m }

  function InnerPage(q: nat): int { if q == 0 then 4 else 9 }

  function LeafNode(m: nat): Node {
    Node(LeafPage(m), [Entry(10 * m, Rid(m, 0)), Entry(10 * m + 1, Rid(m, 1)), Entry(10 * m + 2, Rid(m, 2))])
  }

  function InnerNode(q: nat): Node {
    Node(InnerPage(q), [Entry(30 * q, ChildRid(LeafPage(3 * q))), Entry(30 * q + 10, ChildRid(LeafPage(3 * q + 1))),
                        Entry(30 * q + 20, ChildRid(LeafPage(3 * q + 2)))])
  }

  ghost function Leaves(): Level { seq(6, m requires 0 <= m => LeafNode(m)) }

  ghost function Inner(): Level { [InnerNode(0), InnerNode(1)] }

  ghost function Root(): Level { [Node(10, [Entry(0, ChildRid(4)), Entry(30, ChildRid(9))])] }

  ghost function Tree(): seq<Level> { [Leaves(), Inner(), Root()] }

  /** The flat contents of a level whose nodes all have three entries. */
  lemma {:induction false} OffThrees(lv: Level, m: nat)
    requires m <= |lv| && forall q :: 0 <= q < |lv| ==> |lv[q].es| == 3
    ensures Off(lv, m) == 3 * m
  {
    hide Flat;
    FlatNone();
    assert m == 0 ==> lv[..m] == [];
    if m > 0 {
      OffThrees(lv, m - 1);
      FlatAt(lv, m - 1);
    }
  }

  lemma {:induction false} FlatOfThrees(lv: Level, x: nat)
    requires x < 3 * |lv| && forall q :: 0 <= q < |lv| ==> |lv[q].es| == 3
    ensures |Flat(lv)| == 3 * |lv| && Flat(lv)[x] == lv[x / 3].es[x % 3]
  {
    hide Flat;
    OffThrees(lv, |lv|);
    assert lv[..|lv|] == lv;
    OffThrees(lv, x / 3);
    FlatIndex(lv, x / 3, x % 3);
    assert x == 3 * (x / 3) + x % 3;
  }

  lemma {:induction false} TreeFlats()
    ensures |Flat(Leaves())| == 18 && forall x :: 0 <= x < 18 ==> Flat(Leaves())[x] == LeafNode(x / 3).es[x % 3]
    ensures |Flat(Inner())| == 6 && forall x :: 0 <= x < 6 ==> Flat(Inner())[x] == InnerNode(x / 3).es[x % 3]
    ensures Flat(Root()) == Root()[0].es
  {
    hide Flat;
    FlatOfThrees(Leaves(), 0);
    FlatOfThrees(Inner(), 0);
    forall x | 0 <= x < 18 ensures Flat(Leaves())[x] == LeafNode(x / 3).es[x % 3] { FlatOfThrees(Leaves(), x); }
    forall x | 0 <= x < 6 ensures Flat(Inner())[x] == InnerNode(x / 3).es[x % 3] { FlatOfThrees(Inner(), x); }
    FlatOne(Root()[0]);
  }

  lemma {:induction false} LeafLink()
    ensures LinkedF(Leaves(), Flat(Inner()), true)
  {
    TreeFlats();
    var lo, f := Leaves(), Flat(Inner());
    forall m | 1 <= m < 6 ensures SepOK(lo, f, m, true) {
      assert f[m] == InnerNode(m / 3).es[m % 3];
      assert f[m].key == 10 * m;
    }
    forall m | 0 <= m < 6 ensures f[m].rid == ChildRid(lo[m].page) {
      assert f[m] == InnerNode(m / 3).es[m % 3];
    }
  }

  lemma {:induction false} LeavesStrict()
    ensures StrictFrom(Flat(Leaves()), 0)
  {
    TreeFlats();
    hide Flat, Leaves, StrictFrom;
    var f := Flat(Leaves());
    forall x | 0 <= x < |f| - 1 ensures f[x].key < f[x + 1].key {
      assert f[x] == LeafNode(x / 3).es[x % 3];
      assert f[x + 1] == LeafNode((x + 1) / 3).es[(x + 1) % 3];
    }
    AdjacentStrict(f, 0);
  }

  lemma {:induction false} TreeLinks()
    ensures LinksExcept(Tree(), -1)
  {
    hide Flat, Leaves, LinkedF;
    var t := Tree();
    LeafLink();
    RootLink();
    assert LinkAt(t, 0) && LinkAt(t, 1);
  }

  lemma {:induction false} RootLink()
    ensures LinkedF(Inner(), Flat(Root()), false)
  {
    hide Flat, Leaves;
    TreeFlats();
    assert SepOK(Inner(), Flat(Root()), 1, false);
  }

  lemma {:induction false} TreeSizes()
    ensures SizesExcept(6, Tree(), -1, -1)
  {
    var t := Tree();
    forall i: nat, q: nat | i < |t| && q < |t[i]| ensures SizeOK(6, t, i, t[i][q]) {
      if i == 0 { assert t[i][q] == LeafNode(q); }
      if i == 1 { assert t[i][q] == InnerNode(q); }
    }
  }

  lemma {:induction false} TreeWf()
    ensures Wf(6, Tree())
  {
    hide Flat, LinksExcept, SizesExcept, StrictFrom, Leaves, Inner;
    LeavesStrict();
    TreeLinks();
    TreeSizes();
  }

  /** The tree meets every invariant, and deleting key 0 from it is the failing case. */
  lemma {:induction false} StarvedTree()
    ensures Wf(6, Tree())
    ensures 0 in AsMap(Flat(Tree()[0])) && 1 in AsMap(Flat(Tree()[0]))
    ensures DeleteStarves(6, Tree(), 0)
  {
    TreeWf();
    hide Wf, StrictFrom, AsMap;
    var t := Tree();
    TreeFlats();
    LeavesStrict();
    AsMapHas(Flat(t[0]), 0);
    AsMapHas(Flat(t[0]), 1);
    assert t[1][..0] == [];
    assert Covers(Flat(t[1]), 0, 0) by { assert Flat(t[1])[1] == InnerNode(0).es[1]; }
    assert Starved(6, t, 0, 0, 0, 0);
  }

  // ---------- the same tree in pages ----------

  /** Which leaf a page holds. */
  function LeafAt(p: int): int { if p <= 3 then p - 2 else p - 3 }

  /** Header page 1, leaves 2, 3, 5, 6, 7 and 8, internal nodes 4 and 9, root 10. */
  function TreePage(p: int): IxPage
    requires 1 <= p <= 10
  {
    if p == 1 then IxPage(NO_PAGE, true, 8, 2, [])
    else if p == 4 then IxPage(10, false, 0, 0, InnerNode(0).es)
    else if p == 9 then IxPage(10, false, 0, 0, InnerNode(1).es)
    else if p == 10 then IxPage(NO_PAGE, false, 0, 0, [Entry(0, ChildRid(4)), Entry(30, ChildRid(9))])
    else
      var m := LeafAt(p);
      IxPage(InnerPage(m / 3), true, if m == 0 then 1 else LeafPage(m - 1), if m == 5 then 1 else LeafPage(m + 1), LeafNode(m).es)
  }

  function TreePages(): Pages { map p: int | 1 <= p <= 10 :: TreePage(p) }

  lemma {:induction false} TreeStored()
    ensures Stored(TreePages(), Tree()) && TopParents(TreePages(), Root())
  {
    var t: seq<Level> := Tree();
    forall i: nat, m: nat | i < |t| && m < |t[i]| ensures NodeStored(TreePages(), t[i][m], i == 0) {
      if i == 0 { assert t[i][m] == LeafNode(m); }
      if i == 1 { assert t[i][m] == InnerNode(m); }
    }
  }

  lemma {:induction false} TreeParents()
    ensures Parents(TreePages(), Tree())
  {
    var t: seq<Level> := Tree();
    var pages := TreePages();
    forall i: nat, q: nat, j: nat | 0 < i < |t| && q < |t[i]| && j < |t[i][q].es|
      ensures ParentIs(pages, t[i][q].es[j].rid.pageNo, t[i][q].page)
    {
      if i == 1 {
        assert t[i][q] == InnerNode(q);
        assert t[i][q].es[j].rid.pageNo == LeafPage(3 * q + j);
        assert (3 * q + j) / 3 == q;
      }
    }
  }

  lemma {:induction false} TreePageOf(i: nat, m: nat)
    requires i < |Tree()| && m < |Tree()[i]|
    ensures i < 3 && m < (if i == 0 then 6 else if i == 1 then 2 else 1)
    ensures Tree()[i][m].page == if i == 0 then LeafPage(m) else if i == 1 then InnerPage(m) else 10
  {
    if i == 0 { assert Tree()[i][m] == LeafNode(m); }
    if i == 1 { assert Tree()[i][m] == InnerNode(m); }
  }

  lemma {:induction false} TreeDistinct()
    ensures Distinct(Tree()) && InRange(Tree(), 11)
  {
    hide Tree, Distinct;
    var t: seq<Level> := Tree();
    forall i: nat, m: nat, x: nat, q: nat
      | i < |t| && m < |t[i]| && x < |t| && q < |t[x]| && t[i][m].page == t[x][q].page
      ensures i == x && m == q
    {
      TreePageOf(i, m);
      TreePageOf(x, q);
    }
    DistinctIs(t);
    forall i: nat, m: nat | i < |t| && m < |t[i]| ensures INIT_ROOT_PAGE <= t[i][m].page < 11 { TreePageOf(i, m); }
  }

  lemma {:induction false} TreeRing()
    ensures Ring(TreePages(), Leaves())
  {
    var lv: Level := Leaves();
    forall j: nat | j <= |lv| ensures RingLink(TreePages(), lv, j) {
      assert forall m :: 0 <= m < 6 ==> lv[m].page == LeafPage(m);
    }
  }

  /** The pages represent the tree: contents, parents, distinct pages, one ring. */
  lemma {:induction false} TreeRep()
    ensures Rep(TreePages(), Tree(), 11)
  {
    hide Stored, Parents, TopParents, Distinct, InRange, Ring, Leaves, Inner, TreePage;
    TreeStored();
    TreeParents();
    TreeDistinct();
    TreeRing();
  }

  /** A valid index of that shape. */
  method StarvedHandle() returns (ix: IxIndexHandle)
    ensures fresh(ix) && ix.Valid() && ix.order == 6 && ix.root == 10 && ix.firstLeaf == 2 && ix.lastLeaf == 8
    ensures 0 in ix.Contents() && 1 in ix.Contents() && DeleteStarves(6, ix.tower, 0)
  {
    hide Rep, Wf, AsMap, Flat, DeleteStarves, TreePage;
    ix := new IxIndexHandle(6);
    ix.pages := TreePages();
    ix.root, ix.numPages, ix.firstLeaf, ix.lastLeaf := 10, 11, 2, 8;
    ix.tower := Tree();
    TreeRep();
    StarvedTree();
  }

  /** delete_entry runs into a sibling that is not there, although other keys remain. */
  method FailedDelete() returns (r: DeleteResult)
    ensures r == SiblingFault
  {
    hide Rep, Wf, AsMap, Flat, DeleteStarves;
    var ix := StarvedHandle();
    RootIsPage(ix.pages, ix.tower, ix.numPages);
    r := ix.DeleteEntry(0);
  }
}
