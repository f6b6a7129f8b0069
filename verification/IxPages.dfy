/**
  How the shape of the tree lies in the pages of the index file: contents, parent pointers, and the
  ring of leaf links through the header page.
*/
module IxPages {
  import opened Tower
  import opened TowerInsert
  import opened TowerDelete

  const NO_PAGE: int := -1
  const FILE_HDR_PAGE: int := 0
  const LEAF_HEADER_PAGE: int := 1
  const INIT_ROOT_PAGE: int := 2

  /** One node page: header fields, and its key and rid arrays as one sequence of pairs. */
  datatype IxPage = IxPage(parent: int, isLeaf: bool, prevLeaf: int, nextLeaf: int, es: seq<Entry>)

  type Pages = map<int, IxPage>

  /** Internal pages are zero-filled when created and their leaf links are never set. */
  ghost predicate NodeStored(pages: Pages, n: Node, leaf: bool) {
    && n.page in pages && pages[n.page].es == n.es && pages[n.page].isLeaf == leaf
    && (!leaf ==> pages[n.page].prevLeaf == pages[n.page].nextLeaf == FILE_HDR_PAGE)
  }

  ghost predicate Stored(pages: Pages, tower: seq<Level>) {
    forall i: nat, m: nat :: i < |tower| && m < |tower[i]| ==> NodeStored(pages, tower[i][m], i == 0)
  }

  ghost predicate ParentIs(pages: Pages, child: int, parent: int) {
    child in pages && pages[child].parent == parent
  }

  ghost predicate Parents(pages: Pages, tower: seq<Level>) {
    forall i: nat, q: nat, j: nat :: 0 < i < |tower| && q < |tower[i]| && j < |tower[i][q].es|
      ==> ParentIs(pages, tower[i][q].es[j].rid.pageNo, tower[i][q].page)
  }

  ghost predicate TopParents(pages: Pages, top: Level) {
    forall m: nat :: m < |top| ==> ParentIs(pages, top[m].page, NO_PAGE)
  }

  ghost predicate Distinct(tower: seq<Level>) {
    forall i: nat, m: nat, x: nat, q: nat ::
      i < |tower| && m < |tower[i]| && x < |tower| && q < |tower[x]| && tower[i][m].page == tower[x][q].page
      ==> i == x && m == q
  }

  ghost predicate InRange(tower: seq<Level>, numPages: int) {
    forall i: nat, m: nat :: i < |tower| && m < |tower[i]| ==> INIT_ROOT_PAGE <= tower[i][m].page < numPages
  }

  /** The pages of the leaf ring: the header page, then the leaves from left to right. */
  ghost function RingPage(leaves: Level, j: nat): int
    requires j <= |leaves|
  {
    if j == 0 then LEAF_HEADER_PAGE else leaves[j - 1].page
  }

  ghost predicate RingLink(pages: Pages, leaves: Level, j: nat)
    requires j <= |leaves|
  {
    && RingPage(leaves, j) in pages
    && pages[RingPage(leaves, j)].nextLeaf == RingPage(leaves, if j == |leaves| then 0 else j + 1)
    && pages[RingPage(leaves, j)].prevLeaf == RingPage(leaves, if j == 0 then |leaves| else j - 1)
  }

  ghost predicate Ring(pages: Pages, leaves: Level) {
    forall j: nat :: j <= |leaves| ==> RingLink(pages, leaves, j)
  }

  ghost predicate Rep(pages: Pages, tower: seq<Level>, numPages: int) {
    && |tower| >= 1
    && Stored(pages, tower)
    && Parents(pages, tower)
    && TopParents(pages, tower[|tower| - 1])
    && Distinct(tower)
    && InRange(tower, numPages)
    && Ring(pages, tower[0])
    && (forall p :: p in pages ==> 0 < p < numPages)
  }

  // ---------- where a child sits ----------

  lemma {:induction false} OffWeak(lv: Level, m: nat, q: nat)
    requires m <= q <= |lv|
    ensures Off(lv, m) <= Off(lv, q)
  {
    assert lv[..q] == lv[..m] + lv[m..q];
    FlatAppend(lv[..m], lv[m..q]);
  }

  lemma {:induction false} OffUnique(lv: Level, q: nat, j: nat, q': nat, j': nat)
    requires q < |lv| && j < |lv[q].es| && q' < |lv| && j' < |lv[q'].es|
    requires Off(lv, q) + j == Off(lv, q') + j'
    ensures q == q' && j == j'
  {
    FlatAt(lv, q);
    FlatAt(lv, q');
    if q < q' { OffWeak(lv, q + 1, q'); }
    if q' < q { OffWeak(lv, q' + 1, q); }
  }

  /** The j-th child of node q of level x is the node of level x-1 at the same flat position. */
  lemma {:induction false} ChildPos(tower: seq<Level>, x: nat, q: nat, j: nat)
    requires 0 < x < |tower| && q < |tower[x]| && j < |tower[x][q].es|
    requires LinkAt(tower, x - 1)
    ensures Off(tower[x], q) + j < |tower[x - 1]|
    ensures tower[x][q].es[j].rid == ChildRid(tower[x - 1][Off(tower[x], q) + j].page)
  {
    FlatIndex(tower[x], q, j);
  }

  /** Two entries that point to the same page are the same entry. */
  lemma {:induction false} ChildUnique(tower: seq<Level>, x: nat, q: nat, j: nat, x': nat, q': nat, j': nat)
    requires LinksExcept(tower, -1) && Distinct(tower)
    requires 0 < x < |tower| && q < |tower[x]| && j < |tower[x][q].es|
    requires 0 < x' < |tower| && q' < |tower[x']| && j' < |tower[x'][q'].es|
    requires tower[x][q].es[j].rid.pageNo == tower[x'][q'].es[j'].rid.pageNo
    ensures x == x' && q == q' && j == j'
  {
    assert LinkAt(tower, x - 1) && LinkAt(tower, x' - 1);
    ChildPos(tower, x, q, j);
    ChildPos(tower, x', q', j');
    assert tower[x - 1][Off(tower[x], q) + j].page == tower[x' - 1][Off(tower[x'], q') + j'].page;
    OffUnique(tower[x], q, j, q', j');
  }

  /** A child lies exactly one level below. */
  lemma {:induction false} ChildBelow(tower: seq<Level>, x: nat, q: nat, j: nat, i: nat, m: nat)
    requires LinksExcept(tower, -1) && Distinct(tower)
    requires 0 < x < |tower| && q < |tower[x]| && j < |tower[x][q].es|
    requires i < |tower| && m < |tower[i]|
    ensures tower[x][q].es[j].rid.pageNo == tower[i][m].page ==> x == i + 1
  {
    assert LinkAt(tower, x - 1);
    ChildPos(tower, x, q, j);
  }

  /** A page listed among the children es can only be in slot j. */
  ghost predicate OnlyChildSlot(es: seq<Entry>, child: int, j: nat) {
    forall x :: 0 <= x < |es| && es[x].rid.pageNo == child ==> x == j
  }

  // ---------- page updates ----------

  /** Rewriting the entries of one node. */
  lemma {:induction false} RepSetNode(pages: Pages, tower: seq<Level>, numPages: int, i: nat, m: nat, es: seq<Entry>)
    requires Rep(pages, tower, numPages)
    requires i < |tower| && m < |tower[i]|
    requires i > 0 ==> forall j :: 0 <= j < |es| ==> ParentIs(pages, es[j].rid.pageNo, tower[i][m].page)
    ensures var p := tower[i][m].page;
            p in pages && Rep(pages[p := pages[p].(es := es)], SetNode(tower, i, m, es), numPages)
  {
    var p := tower[i][m].page;
    assert NodeStored(pages, tower[i][m], i == 0);
    var pages' := pages[p := pages[p].(es := es)];
    var t: seq<Level> := SetNode(tower, i, m, es);
    forall x: nat, q: nat | x < |t| && q < |t[x]|
      ensures NodeStored(pages', t[x][q], x == 0) && t[x][q].page == tower[x][q].page
    {
      assert NodeStored(pages, tower[x][q], x == 0);
    }
    assert Parents(pages', t) by { SetNodeParents(pages, tower, i, m, es); }
    assert Ring(pages', t[0]) by { RingOther(pages, pages', tower[0], t[0]); }
    assert TopParents(pages', t[|t| - 1]);
  }

  lemma {:induction false} SetNodeParents(pages: Pages, tower: seq<Level>, i: nat, m: nat, es: seq<Entry>)
    requires Parents(pages, tower)
    requires i < |tower| && m < |tower[i]| && tower[i][m].page in pages
    requires i > 0 ==> forall j :: 0 <= j < |es| ==> ParentIs(pages, es[j].rid.pageNo, tower[i][m].page)
    ensures var p := tower[i][m].page;
            Parents(pages[p := pages[p].(es := es)], SetNode(tower, i, m, es))
  {
    var p := tower[i][m].page;
    var pages' := pages[p := pages[p].(es := es)];
    var t: seq<Level> := SetNode(tower, i, m, es);
    forall x: nat, q: nat, j: nat | 0 < x < |t| && q < |t[x]| && j < |t[x][q].es|
      ensures ParentIs(pages', t[x][q].es[j].rid.pageNo, t[x][q].page)
    {
      if !(x == i && q == m) {
        assert t[x][q] == tower[x][q];
        assert ParentIs(pages, tower[x][q].es[j].rid.pageNo, tower[x][q].page);
      }
    }
  }

  /** The ring only depends on the page numbers of the leaves and on the leaf links. */
  lemma {:induction false} RingOther(pages: Pages, pages': Pages, leaves: Level, leaves': Level)
    requires Ring(pages, leaves) && |leaves| == |leaves'|
    requires forall j :: 0 <= j < |leaves| ==> leaves[j].page == leaves'[j].page
    requires forall p :: p in pages ==> p in pages' && pages'[p].prevLeaf == pages[p].prevLeaf
                                        && pages'[p].nextLeaf == pages[p].nextLeaf
    ensures Ring(pages', leaves')
  {
    forall j: nat | j <= |leaves'| ensures RingLink(pages', leaves', j) {
      assert RingLink(pages, leaves, j);
    }
  }

  // ---------- splitting ----------

  /** c is a child listed in es. */
  ghost predicate ListsChild(es: seq<Entry>, c: int) {
    exists j :: 0 <= j < |es| && es[j].rid.pageNo == c
  }

  /** The effect of `maintain_child` on every child listed in es. */
  ghost function Adopt(pages: Pages, es: seq<Entry>, parent: int): Pages {
    map c | c in pages :: if ListsChild(es, c) then pages[c].(parent := parent) else pages[c]
  }

  lemma {:induction false} SplitDistinct(tower: seq<Level>, numPages: int, i: nat, m: nat, h: nat)
    requires Distinct(tower) && InRange(tower, numPages)
    requires i < |tower| && m < |tower[i]| && h <= |tower[i][m].es|
    ensures Distinct(SplitNode(tower, i, m, h, numPages))
    ensures INIT_ROOT_PAGE <= numPages ==> InRange(SplitNode(tower, i, m, h, numPages), numPages + 1)
  {
    hide SplitNode, Distinct;
    var t: seq<Level> := SplitNode(tower, i, m, h, numPages);
    forall x: nat, q: nat, y: nat, r: nat
      | x < |t| && q < |t[x]| && y < |t| && r < |t[y]| && t[x][q].page == t[y][r].page
      ensures x == y && q == r
    {
      SplitPageAt(tower, i, m, h, numPages, x, q);
      SplitPageAt(tower, i, m, h, numPages, y, r);
      DistinctAt(tower, x, if x != i || q <= m then q else q - 1, y, if y != i || r <= m then r else r - 1);
    }
    DistinctIs(t);
    forall x: nat, q: nat | x < |t| && q < |t[x]| && INIT_ROOT_PAGE <= numPages
      ensures INIT_ROOT_PAGE <= t[x][q].page < numPages + 1
    {
      SplitPageAt(tower, i, m, h, numPages, x, q);
    }
  }

  lemma {:induction false} DistinctAt(tower: seq<Level>, i: nat, m: nat, x: nat, q: nat)
    requires Distinct(tower) && i < |tower| && m < |tower[i]| && x < |tower| && q < |tower[x]|
    ensures tower[i][m].page == tower[x][q].page ==> i == x && m == q
  {}

  lemma {:induction false} DistinctIs(tower: seq<Level>)
    requires forall i: nat, m: nat, x: nat, q: nat ::
               i < |tower| && m < |tower[i]| && x < |tower| && q < |tower[x]| && tower[i][m].page == tower[x][q].page
               ==> i == x && m == q
    ensures Distinct(tower)
  {}

  /** Which page a node of the split tower has. */
  lemma {:induction false} SplitPageAt(tower: seq<Level>, i: nat, m: nat, h: nat, numPages: int, x: nat, q: nat)
    requires InRange(tower, numPages) && i < |tower| && m < |tower[i]| && h <= |tower[i][m].es|
    requires var t: seq<Level> := SplitNode(tower, i, m, h, numPages); x < |t| && q < |t[x]|
    ensures x < |tower| && (if x != i || q <= m then q else q - 1) < |tower[x]|
    ensures INIT_ROOT_PAGE <= tower[x][if x != i || q <= m then q else q - 1].page < numPages
    ensures SplitNode(tower, i, m, h, numPages)[x][q].page ==
            if x == i && q == m + 1 then numPages else tower[x][if x != i || q <= m then q else q - 1].page
  {}

  lemma {:induction false} SplitInnerRep(pages: Pages, tower: seq<Level>, numPages: int, i: nat, m: nat, h: nat)
    requires Rep(pages, tower, numPages)
    requires 0 < i < |tower| && m < |tower[i]| && h <= |tower[i][m].es|
    requires LinksExcept(tower, -1)
    ensures var n := tower[i][m];
            var t: seq<Level> := SplitNode(tower, i, m, h, numPages);
            && n.page in pages
            && var p1 := pages[numPages := IxPage(pages[n.page].parent, false, 0, 0, n.es[h..])]
                              [n.page := pages[n.page].(es := n.es[..h])];
               Rep(Adopt(p1, n.es[h..], numPages), t, numPages + 1)
  {
    var n := tower[i][m];
    assert NodeStored(pages, n, false);
    var t: seq<Level> := SplitNode(tower, i, m, h, numPages);
    var p1 := pages[numPages := IxPage(pages[n.page].parent, false, 0, 0, n.es[h..])]
                   [n.page := pages[n.page].(es := n.es[..h])];
    var p2 := Adopt(p1, n.es[h..], numPages);
    SplitDistinct(tower, numPages, i, m, h);
    SplitInnerStored(pages, tower, numPages, i, m, h);
    SplitInnerParents(pages, tower, numPages, i, m, h);
    SplitInnerTop(pages, tower, numPages, i, m, h);
    RingOther(pages, p2, tower[0], t[0]);
  }

  lemma {:induction false} SplitInnerStored(pages: Pages, tower: seq<Level>, numPages: int, i: nat, m: nat, h: nat)
    requires Rep(pages, tower, numPages)
    requires 0 < i < |tower| && m < |tower[i]| && h <= |tower[i][m].es|
    ensures var n := tower[i][m];
            && n.page in pages
            && var p1 := pages[numPages := IxPage(pages[n.page].parent, false, 0, 0, n.es[h..])]
                              [n.page := pages[n.page].(es := n.es[..h])];
               Stored(Adopt(p1, n.es[h..], numPages), SplitNode(tower, i, m, h, numPages))
  {
    var n := tower[i][m];
    assert NodeStored(pages, n, false);
    var t: seq<Level> := SplitNode(tower, i, m, h, numPages);
    var p1 := pages[numPages := IxPage(pages[n.page].parent, false, 0, 0, n.es[h..])]
                   [n.page := pages[n.page].(es := n.es[..h])];
    var p2 := Adopt(p1, n.es[h..], numPages);
    forall x: nat, q: nat | x < |t| && q < |t[x]| ensures NodeStored(p2, t[x][q], x == 0) {
      if x != i || q < m {
        assert t[x][q] == tower[x][q];
        assert NodeStored(pages, tower[x][q], x == 0);
      } else if q > m + 1 {
        assert t[x][q] == tower[x][q - 1];
        assert NodeStored(pages, tower[x][q - 1], x == 0);
      }
    }
  }

  lemma {:induction false} SplitInnerParents(pages: Pages, tower: seq<Level>, numPages: int, i: nat, m: nat, h: nat)
    requires Rep(pages, tower, numPages)
    requires 0 < i < |tower| && m < |tower[i]| && h <= |tower[i][m].es|
    requires LinksExcept(tower, -1)
    ensures var n := tower[i][m];
            && n.page in pages
            && var p1 := pages[numPages := IxPage(pages[n.page].parent, false, 0, 0, n.es[h..])]
                              [n.page := pages[n.page].(es := n.es[..h])];
               Parents(Adopt(p1, n.es[h..], numPages), SplitNode(tower, i, m, h, numPages))
  {
    var n := tower[i][m];
    assert NodeStored(pages, n, false);
    var t: seq<Level> := SplitNode(tower, i, m, h, numPages);
    var p1 := pages[numPages := IxPage(pages[n.page].parent, false, 0, 0, n.es[h..])]
                   [n.page := pages[n.page].(es := n.es[..h])];
    var right := n.es[h..];
    var p2 := Adopt(p1, right, numPages);
    forall x: nat, q: nat, j: nat | 0 < x < |t| && q < |t[x]| && j < |t[x][q].es|
      ensures ParentIs(p2, t[x][q].es[j].rid.pageNo, t[x][q].page)
    {
      var q0 := if x == i && q > m then q - 1 else q;
      var j0 := if x == i && q == m + 1 then j + h else j;
      var c := tower[x][q0].es[j0].rid.pageNo;
      assert t[x][q].es[j].rid.pageNo == c;
      assert ParentIs(pages, c, tower[x][q0].page);
      if x == i && q == m + 1 {
        assert right[j].rid.pageNo == c;
      } else {
        forall y | 0 <= y < |right| ensures right[y].rid.pageNo != c {
          if right[y].rid.pageNo == c { ChildUnique(tower, x, q0, j0, i, m, y + h); }
        }
        assert !ListsChild(right, c);
      }
    }
  }

  lemma {:induction false} SplitInnerTop(pages: Pages, tower: seq<Level>, numPages: int, i: nat, m: nat, h: nat)
    requires Rep(pages, tower, numPages)
    requires 0 < i < |tower| && m < |tower[i]| && h <= |tower[i][m].es|
    requires LinksExcept(tower, -1)
    ensures var n := tower[i][m];
            var t: seq<Level> := SplitNode(tower, i, m, h, numPages);
            && n.page in pages
            && var p1 := pages[numPages := IxPage(pages[n.page].parent, false, 0, 0, n.es[h..])]
                              [n.page := pages[n.page].(es := n.es[..h])];
               var p2 := Adopt(p1, n.es[h..], numPages);
               && TopParents(p2, t[|t| - 1])
               && numPages in p2
               && p2[numPages].parent == p2[n.page].parent == pages[n.page].parent
  {
    var n := tower[i][m];
    assert NodeStored(pages, n, false);
    var t: seq<Level> := SplitNode(tower, i, m, h, numPages);
    var p1 := pages[numPages := IxPage(pages[n.page].parent, false, 0, 0, n.es[h..])]
                   [n.page := pages[n.page].(es := n.es[..h])];
    var right := n.es[h..];
    var p2 := Adopt(p1, right, numPages);
    NotAdopted(tower, numPages, i, m, h, i, m);
    var top := |t| - 1;
    forall y: nat | y < |t[top]| ensures ParentIs(p2, t[top][y].page, NO_PAGE) {
      var y0 := if top == i && y > m then y - 1 else y;
      NotAdopted(tower, numPages, i, m, h, top, y0);
      assert ParentIs(pages, tower[top][y0].page, NO_PAGE);
    }
  }

  /** Nodes at or above the split level keep their parent pointer, and so does the new node. */
  lemma {:induction false} NotAdopted(tower: seq<Level>, numPages: int, i: nat, m: nat, h: nat, x: nat, y: nat)
    requires LinksExcept(tower, -1) && Distinct(tower) && InRange(tower, numPages)
    requires 0 < i < |tower| && m < |tower[i]| && h <= |tower[i][m].es|
    requires i <= x < |tower| && y < |tower[x]|
    ensures !ListsChild(tower[i][m].es[h..], tower[x][y].page)
    ensures !ListsChild(tower[i][m].es[h..], numPages)
  {
    var es := tower[i][m].es;
    forall j | h <= j < |es| ensures es[j].rid.pageNo != tower[x][y].page && es[j].rid.pageNo < numPages {
      assert LinkAt(tower, i - 1);
      ChildPos(tower, i, m, j);
      ChildBelow(tower, i, m, j, x, y);
    }
  }

  /** A leaf split, with the new leaf linked in behind the old one. */
  ghost function SplitLeafPages(pages: Pages, n: Node, h: nat, fresh': int): Pages
    requires n.page in pages && h <= |n.es|
  {
    var next := pages[n.page].nextLeaf;
    var p1 := pages[fresh' := IxPage(pages[n.page].parent, true, n.page, next, n.es[h..])]
                   [n.page := pages[n.page].(nextLeaf := fresh', es := n.es[..h])];
    if next in p1 then p1[next := p1[next].(prevLeaf := fresh')] else p1
  }

  lemma {:induction false} SplitLeafRep(pages: Pages, tower: seq<Level>, numPages: int, m: nat, h: nat)
    requires Rep(pages, tower, numPages) && numPages > INIT_ROOT_PAGE
    requires m < |tower[0]| && h <= |tower[0][m].es|
    ensures var n := tower[0][m];
            && n.page in pages
            && Rep(SplitLeafPages(pages, n, h, numPages), SplitNode(tower, 0, m, h, numPages), numPages + 1)
  {
    var n := tower[0][m];
    assert NodeStored(pages, n, true);
    var t: seq<Level> := SplitNode(tower, 0, m, h, numPages);
    var p2 := SplitLeafPages(pages, n, h, numPages);
    SplitDistinct(tower, numPages, 0, m, h);
    SplitLeafStored(pages, tower, numPages, m, h);
    SplitLeafParents(pages, tower, numPages, m, h);
    SplitLeafRing(pages, tower, numPages, m, h);
    assert t[..] == t;
  }

  lemma {:induction false} SplitLeafStored(pages: Pages, tower: seq<Level>, numPages: int, m: nat, h: nat)
    requires Rep(pages, tower, numPages)
    requires m < |tower[0]| && h <= |tower[0][m].es|
    ensures var n := tower[0][m];
            && n.page in pages
            && Stored(SplitLeafPages(pages, n, h, numPages), SplitNode(tower, 0, m, h, numPages))
  {
    var n := tower[0][m];
    assert NodeStored(pages, n, true);
    var t: seq<Level> := SplitNode(tower, 0, m, h, numPages);
    var p2 := SplitLeafPages(pages, n, h, numPages);
    assert RingLink(pages, tower[0], m + 1);
    InnerOffRing(pages, tower, numPages);
    forall x: nat, q: nat | x < |t| && q < |t[x]| ensures NodeStored(p2, t[x][q], x == 0) {
      if x != 0 || q < m {
        assert t[x][q] == tower[x][q];
        assert NodeStored(pages, tower[x][q], x == 0);
      } else if q > m + 1 {
        assert t[x][q] == tower[x][q - 1];
        assert NodeStored(pages, tower[x][q - 1], x == 0);
      }
    }
  }

  lemma {:induction false} SplitLeafParents(pages: Pages, tower: seq<Level>, numPages: int, m: nat, h: nat)
    requires Rep(pages, tower, numPages)
    requires m < |tower[0]| && h <= |tower[0][m].es|
    ensures var n := tower[0][m];
            var t := SplitNode(tower, 0, m, h, numPages);
            && n.page in pages
            && Parents(SplitLeafPages(pages, n, h, numPages), t)
            && TopParents(SplitLeafPages(pages, n, h, numPages), t[|t| - 1])
  {
    var n := tower[0][m];
    assert NodeStored(pages, n, true);
    var t: seq<Level> := SplitNode(tower, 0, m, h, numPages);
    var p2 := SplitLeafPages(pages, n, h, numPages);
    forall x: nat, q: nat, j: nat | 0 < x < |t| && q < |t[x]| && j < |t[x][q].es|
      ensures ParentIs(p2, t[x][q].es[j].rid.pageNo, t[x][q].page)
    {
      assert ParentIs(pages, tower[x][q].es[j].rid.pageNo, tower[x][q].page);
    }
    var top := |t| - 1;
    forall y: nat | y < |t[top]| ensures ParentIs(p2, t[top][y].page, NO_PAGE) {
      var y0 := if top == 0 && y > m then y - 1 else y;
      assert ParentIs(pages, tower[top][y0].page, NO_PAGE);
    }
  }

  lemma {:induction false} SplitLeafRing(pages: Pages, tower: seq<Level>, numPages: int, m: nat, h: nat)
    requires Rep(pages, tower, numPages) && numPages > INIT_ROOT_PAGE
    requires m < |tower[0]| && h <= |tower[0][m].es|
    ensures var n := tower[0][m];
            && n.page in pages
            && Ring(SplitLeafPages(pages, n, h, numPages), SplitNode(tower, 0, m, h, numPages)[0])
  {
    var lv, n := tower[0], tower[0][m];
    assert NodeStored(pages, n, true);
    var lv': Level := SplitNode(tower, 0, m, h, numPages)[0];
    var p2 := SplitLeafPages(pages, n, h, numPages);
    forall j: nat | j <= |lv'| ensures RingLink(p2, lv', j) {
      SplitLeafRingAt(pages, tower, numPages, m, h, j);
    }
  }

  lemma {:induction false} SplitLeafRingAt(pages: Pages, tower: seq<Level>, numPages: int, m: nat, h: nat, j: nat)
    requires |tower| >= 1 && Ring(pages, tower[0]) && Distinct(tower) && InRange(tower, numPages) && numPages > INIT_ROOT_PAGE
    requires m < |tower[0]| && h <= |tower[0][m].es| && tower[0][m].page in pages
    requires j <= |tower[0]| + 1
    ensures RingLink(SplitLeafPages(pages, tower[0][m], h, numPages), SplitNode(tower, 0, m, h, numPages)[0], j)
  {
    hide Ring, Distinct, InRange;
    var lv: Level, n := tower[0], tower[0][m];
    var lv': Level := SplitNode(tower, 0, m, h, numPages)[0];
    var p2 := SplitLeafPages(pages, n, h, numPages);
    RingLinkOf(pages, lv, m + 1);
    RingDistinct(tower, numPages);
    var a, b := Node(n.page, n.es[..h]), Node(numPages, n.es[h..]);
    SplitRingPage(lv, lv', m, a, b, j);
    SplitRingPage(lv, lv', m, a, b, if j == 0 then |lv'| else j - 1);
    SplitRingPage(lv, lv', m, a, b, if j == |lv'| then 0 else j + 1);
    if j == m + 2 {
    } else {
      RingLinkOf(pages, lv, if j < m + 2 then j else j - 1);
    }
  }

  lemma {:induction false} RingLinkOf(pages: Pages, leaves: Level, j: nat)
    requires Ring(pages, leaves) && j <= |leaves|
    ensures RingLink(pages, leaves, j)
  {}

  lemma {:induction false} SplitRingPage(lv: Level, lv': Level, m: nat, a: Node, b: Node, x: nat)
    requires m < |lv| && lv' == Replace2(lv, m, a, b) && a.page == lv[m].page
    requires x <= |lv| + 1
    ensures RingPage(lv', x) == if x < m + 2 then RingPage(lv, x) else if x == m + 2 then b.page else RingPage(lv, x - 1)
  {}

  lemma {:induction false} RingDistinct(tower: seq<Level>, numPages: int)
    requires |tower| >= 1 && Distinct(tower) && InRange(tower, numPages)
    ensures forall x: nat, y: nat :: x <= |tower[0]| && y <= |tower[0]| && RingPage(tower[0], x) == RingPage(tower[0], y) ==> x == y
    ensures forall x: nat :: x <= |tower[0]| && numPages > INIT_ROOT_PAGE ==> RingPage(tower[0], x) < numPages
  {}

  // ---------- a new root ----------

  ghost function NewRootPages(pages: Pages, oldPage: int, newPage: int, k0: int, sep: int, rootPage: int): Pages
    requires oldPage in pages && newPage in pages
  {
    var p1 := pages[rootPage := IxPage(NO_PAGE, false, 0, 0, [Entry(k0, ChildRid(oldPage)), Entry(sep, ChildRid(newPage))])];
    var p2 := p1[newPage := p1[newPage].(parent := rootPage)];
    p2[oldPage := p2[oldPage].(parent := rootPage)]
  }

  ghost function AddRoot(tower: seq<Level>, sep: int, k0: int, rootPage: int): seq<Level>
    requires |tower| >= 1 && |tower[|tower| - 1]| == 2
  {
    var top := tower[|tower| - 1];
    tower + [[Node(rootPage, [Entry(k0, ChildRid(top[0].page)), Entry(sep, ChildRid(top[1].page))])]]
  }

  lemma {:induction false} NewRootRep(pages: Pages, tower: seq<Level>, numPages: int, k0: int, sep: int)
    requires Rep(pages, tower, numPages) && numPages >= INIT_ROOT_PAGE
    requires |tower[|tower| - 1]| == 2
    requires LinksExcept(tower, |tower| - 1)
    ensures var top := tower[|tower| - 1];
            && top[0].page in pages && top[1].page in pages
            && Rep(NewRootPages(pages, top[0].page, top[1].page, k0, sep, numPages),
                   AddRoot(tower, sep, k0, numPages), numPages + 1)
  {
    var i := |tower| - 1;
    var top := tower[i];
    assert NodeStored(pages, tower[i][0], i == 0) && NodeStored(pages, tower[i][1], i == 0);
    var p2 := NewRootPages(pages, top[0].page, top[1].page, k0, sep, numPages);
    var t: seq<Level> := AddRoot(tower, sep, k0, numPages);
    forall x: nat, q: nat | x < |t| && q < |t[x]| ensures NodeStored(p2, t[x][q], x == 0) {
      if x <= i { assert NodeStored(pages, tower[x][q], x == 0); }
    }
    RingOther(pages, p2, tower[0], t[0]);
    NewRootParents(pages, tower, numPages, k0, sep);
  }

  lemma {:induction false} NewRootParents(pages: Pages, tower: seq<Level>, numPages: int, k0: int, sep: int)
    requires Rep(pages, tower, numPages) && numPages >= INIT_ROOT_PAGE
    requires |tower[|tower| - 1]| == 2
    requires LinksExcept(tower, |tower| - 1)
    ensures var top := tower[|tower| - 1];
            && top[0].page in pages && top[1].page in pages
            && Parents(NewRootPages(pages, top[0].page, top[1].page, k0, sep, numPages), AddRoot(tower, sep, k0, numPages))
  {
    var i := |tower| - 1;
    var top := tower[i];
    assert NodeStored(pages, tower[i][0], i == 0) && NodeStored(pages, tower[i][1], i == 0);
    var p2 := NewRootPages(pages, top[0].page, top[1].page, k0, sep, numPages);
    var t: seq<Level> := AddRoot(tower, sep, k0, numPages);
    forall x: nat, q: nat, j: nat | 0 < x < |t| && q < |t[x]| && j < |t[x][q].es|
      ensures ParentIs(p2, t[x][q].es[j].rid.pageNo, t[x][q].page)
    {
      if x <= i {
        assert ParentIs(pages, tower[x][q].es[j].rid.pageNo, tower[x][q].page);
        assert LinkAt(tower, x - 1);
        ChildPos(tower, x, q, j);
      }
    }
  }

  // ---------- merging two leaves ----------

  /** The left leaf takes all entries; erase_leaf unlinks the right one. */
  ghost function MergePages(pages: Pages, left: int, right: int, es: seq<Entry>): Pages
    requires left in pages && right in pages
  {
    var p1 := pages[left := pages[left].(es := es)];
    var prev, next := p1[right].prevLeaf, p1[right].nextLeaf;
    var p2 := if prev in p1 then p1[prev := p1[prev].(nextLeaf := next)] else p1;
    if next in p2 then p2[next := p2[next].(prevLeaf := prev)] else p2
  }

  lemma {:induction false} MergeRep(pages: Pages, tower: seq<Level>, numPages: int, l: nat)
    requires Rep(pages, tower, numPages) && |tower| > 1 && l + 1 < |tower[0]|
    ensures var lv := tower[0];
            && lv[l].page in pages && lv[l + 1].page in pages
            && Rep(MergePages(pages, lv[l].page, lv[l + 1].page, lv[l].es + lv[l + 1].es),
                   tower[0 := MergeLevel(lv, l)], numPages)
  {
    var lv := tower[0];
    assert NodeStored(pages, tower[0][l], true) && NodeStored(pages, tower[0][l + 1], true);
    var p2 := MergePages(pages, lv[l].page, lv[l + 1].page, lv[l].es + lv[l + 1].es);
    var t: seq<Level> := tower[0 := MergeLevel(lv, l)];
    MergeStored(pages, tower, numPages, l);
    forall x: nat, q: nat, j: nat | 0 < x < |t| && q < |t[x]| && j < |t[x][q].es|
      ensures ParentIs(p2, t[x][q].es[j].rid.pageNo, t[x][q].page)
    {
      assert ParentIs(pages, tower[x][q].es[j].rid.pageNo, tower[x][q].page);
    }
    MergeDistinct(tower, numPages, l);
    forall j: nat | j <= |t[0]| ensures RingLink(p2, t[0], j) {
      MergeRingAt(pages, tower, numPages, l, j);
    }
  }

  lemma {:induction false} MergeDistinct(tower: seq<Level>, numPages: int, l: nat)
    requires Distinct(tower) && InRange(tower, numPages) && |tower| > 1 && l + 1 < |tower[0]|
    ensures Distinct(tower[0 := MergeLevel(tower[0], l)])
    ensures InRange(tower[0 := MergeLevel(tower[0], l)], numPages)
  {
    hide MergeLevel, Distinct;
    var t: seq<Level> := tower[0 := MergeLevel(tower[0], l)];
    forall x: nat, q: nat, y: nat, r: nat
      | x < |t| && q < |t[x]| && y < |t| && r < |t[y]| && t[x][q].page == t[y][r].page
      ensures x == y && q == r
    {
      MergePageAt(tower, l, x, q);
      MergePageAt(tower, l, y, r);
      DistinctAt(tower, x, if x == 0 && q > l then q + 1 else q, y, if y == 0 && r > l then r + 1 else r);
    }
    DistinctIs(t);
    forall x: nat, q: nat | x < |t| && q < |t[x]| ensures INIT_ROOT_PAGE <= t[x][q].page < numPages {
      MergePageAt(tower, l, x, q);
    }
  }

  lemma {:induction false} MergePageAt(tower: seq<Level>, l: nat, x: nat, q: nat)
    requires |tower| > 1 && l + 1 < |tower[0]|
    requires var t: seq<Level> := tower[0 := MergeLevel(tower[0], l)]; x < |t| && q < |t[x]|
    ensures (if x == 0 && q > l then q + 1 else q) < |tower[x]|
    ensures tower[0 := MergeLevel(tower[0], l)][x][q].page == tower[x][if x == 0 && q > l then q + 1 else q].page
  {}

  lemma {:induction false} MergeStored(pages: Pages, tower: seq<Level>, numPages: int, l: nat)
    requires Rep(pages, tower, numPages) && |tower| > 1 && l + 1 < |tower[0]|
    ensures var lv := tower[0];
            && lv[l].page in pages && lv[l + 1].page in pages
            && Stored(MergePages(pages, lv[l].page, lv[l + 1].page, lv[l].es + lv[l + 1].es), tower[0 := MergeLevel(lv, l)])
  {
    var lv := tower[0];
    assert NodeStored(pages, tower[0][l], true) && NodeStored(pages, tower[0][l + 1], true);
    var p2 := MergePages(pages, lv[l].page, lv[l + 1].page, lv[l].es + lv[l + 1].es);
    var t: seq<Level> := tower[0 := MergeLevel(lv, l)];
    assert RingLink(pages, lv, l + 2);
    InnerOffRing(pages, tower, numPages);
    forall x: nat, q: nat | x < |t| && q < |t[x]| ensures NodeStored(p2, t[x][q], x == 0) {
      if x == 0 && q > l {
        assert t[x][q] == tower[x][q + 1];
        assert NodeStored(pages, tower[x][q + 1], true);
      } else {
        assert NodeStored(pages, tower[x][q], x == 0);
      }
    }
  }

  /** Leaf links never lead to an internal page. */
  lemma {:induction false} InnerOffRing(pages: Pages, tower: seq<Level>, numPages: int)
    requires Rep(pages, tower, numPages)
    ensures forall j: nat, x: nat, q: nat :: j <= |tower[0]| && 0 < x < |tower| && q < |tower[x]|
              ==> RingPage(tower[0], j) != tower[x][q].page
  {}

  lemma {:induction false} MergeRingPage(lv: Level, l: nat, x: nat)
    requires l + 1 < |lv| && x <= |lv| - 1
    ensures |MergeLevel(lv, l)| == |lv| - 1
    ensures RingPage(MergeLevel(lv, l), x) == RingPage(lv, if x <= l + 1 then x else x + 1)
  {
    var lv' := MergeLevel(lv, l);
    if x > l + 1 { assert lv'[x - 1] == lv[x]; }
  }

  /** The links of a page after the merge: the right leaf is cut out of the ring. */
  lemma {:induction false} MergeLinkAt(pages: Pages, left: int, right: int, es: seq<Entry>, p: int)
    requires left in pages && right in pages && p in pages && pages[right].prevLeaf in pages && pages[right].nextLeaf in pages
    requires right != left && pages[right].prevLeaf != right && pages[right].nextLeaf != right && p != right
    ensures var (prev, next, p2) := (pages[right].prevLeaf, pages[right].nextLeaf, MergePages(pages, left, right, es));
            && p in p2
            && p2[p].nextLeaf == (if p == prev then next else pages[p].nextLeaf)
            && p2[p].prevLeaf == (if p == next then prev else pages[p].prevLeaf)
  {}

  /** The place in the old ring of place j of the merged ring. */
  ghost function OldPlace(l: nat, j: nat): nat { if j <= l + 1 then j else j + 1 }

  ghost function NextPlace(n: nat, j: nat): nat { if j == n then 0 else j + 1 }

  ghost function PrevPlace(n: nat, j: nat): nat { if j == 0 then n else j - 1 }

  /** Around the leaf that goes away: its two neighbours, and it is neither of them. */
  lemma {:induction false} MergeGap(pages: Pages, tower: seq<Level>, numPages: int, l: nat)
    requires |tower| > 1 && Ring(pages, tower[0]) && Distinct(tower) && InRange(tower, numPages) && l + 1 < |tower[0]|
    ensures var (lv, right) := (tower[0], RingPage(tower[0], l + 2));
            && right == lv[l + 1].page && right in pages && right != lv[l].page
            && pages[right].prevLeaf == RingPage(lv, l + 1) && RingPage(lv, l + 1) in pages && RingPage(lv, l + 1) != right
            && pages[right].nextLeaf == RingPage(lv, NextPlace(|lv|, l + 2))
            && RingPage(lv, NextPlace(|lv|, l + 2)) in pages && RingPage(lv, NextPlace(|lv|, l + 2)) != right
  {
    hide Ring, Distinct, InRange;
    var lv := tower[0];
    RingDistinct(tower, numPages);
    RingLinkOf(pages, lv, l + 2);
    RingLinkOf(pages, lv, l + 1);
    RingLinkOf(pages, lv, NextPlace(|lv|, l + 2));
  }

  lemma {:induction false} MergeRingAt(pages: Pages, tower: seq<Level>, numPages: int, l: nat, j: nat)
    requires |tower| > 1 && Ring(pages, tower[0]) && Distinct(tower) && InRange(tower, numPages)
    requires l + 1 < |tower[0]| && tower[0][l].page in pages && tower[0][l + 1].page in pages && j <= |tower[0]| - 1
    ensures var lv := tower[0];
            RingLink(MergePages(pages, lv[l].page, lv[l + 1].page, lv[l].es + lv[l + 1].es), MergeLevel(lv, l), j)
  {
    hide Ring, Distinct, InRange, MergeLevel, MergePages, RingPage;
    var lv, n := tower[0], |tower[0]| - 1;
    var x := OldPlace(l, j);
    MergeGap(pages, tower, numPages, l);
    RingDistinct(tower, numPages);
    RingLinkOf(pages, lv, x);
    MergeRingPage(lv, l, j);
    MergeRingPage(lv, l, PrevPlace(n, j));
    MergeRingPage(lv, l, NextPlace(n, j));
    MergeLinkAt(pages, lv[l].page, lv[l + 1].page, lv[l].es + lv[l + 1].es, RingPage(lv, x));
  }

  // ---------- dropping the root ----------

  lemma {:induction false} CollapseRep(pages: Pages, tower: seq<Level>, numPages: int)
    requires Rep(pages, tower, numPages) && |tower| > 1 && |tower[|tower| - 2]| == 1
    requires LinksExcept(tower, -1)
    ensures var p := tower[|tower| - 2][0].page;
            p in pages && Rep(pages[p := pages[p].(parent := NO_PAGE)], tower[..|tower| - 1], numPages)
  {
    var top := |tower| - 1;
    var p := tower[top - 1][0].page;
    assert NodeStored(pages, tower[top - 1][0], top - 1 == 0);
    var p2 := pages[p := pages[p].(parent := NO_PAGE)];
    var t: seq<Level> := tower[..top];
    forall x: nat, q: nat | x < |t| && q < |t[x]| ensures NodeStored(p2, t[x][q], x == 0) {
      assert NodeStored(pages, tower[x][q], x == 0);
    }
    forall x: nat, q: nat, j: nat | 0 < x < |t| && q < |t[x]| && j < |t[x][q].es|
      ensures ParentIs(p2, t[x][q].es[j].rid.pageNo, t[x][q].page)
    {
      assert ParentIs(pages, tower[x][q].es[j].rid.pageNo, tower[x][q].page);
      assert LinkAt(tower, x - 1);
      ChildPos(tower, x, q, j);
    }
    RingOther(pages, p2, tower[0], t[0]);
  }
}
