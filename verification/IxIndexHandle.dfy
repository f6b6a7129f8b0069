/** Searches inside one node (IxNodeHandle). */
module IxNode {
  import opened Tower
  import opened TowerInsert

  /** IxNodeHandle::lower_bound: the first index whose key is >= target. */
  method LowerBound(es: seq<Entry>, target: int) returns (l: nat)
    requires StrictFrom(es, 0)
    ensures LowerBoundAt(es, target, l)
  {
    var lo, hi := 0, |es|;
    while lo < hi
      invariant 0 <= lo <= hi <= |es|
      invariant forall x :: 0 <= x < lo ==> es[x].key < target
      invariant forall x :: hi <= x < |es| ==> target <= es[x].key
    {
      var mid := (lo + hi) / 2;
      if es[mid].key < target { lo := mid + 1; } else { hi := mid; }
    }
    l := lo;
  }

  /** IxNodeHandle::upper_bound: the first index >= 1 whose key is > target; key 0 is never read. */
  method UpperBound(es: seq<Entry>, target: int) returns (u: nat)
    requires StrictFrom(es, 1)
    ensures if es == [] then u == 1 else UpperBoundAt(es, target, u)
  {
    var lo, hi := 1, |es|;
    while lo < hi
      invariant 1 <= lo && (es != [] ==> lo <= hi <= |es|) && (es == [] ==> lo == 1 && hi == 0)
      invariant forall x :: 1 <= x < lo ==> es[x].key <= target
      invariant forall x :: hi <= x < |es| ==> target < es[x].key
    {
      var mid := (lo + hi) / 2;
      if es[mid].key > target { hi := mid; } else { lo := mid + 1; }
    }
    u := lo;
  }

  /** IxNodeHandle::find_child: the slot that points to the given page. */
  method FindChild(es: seq<Entry>, child: int) returns (idx: nat)
    requires exists j :: 0 <= j < |es| && es[j].rid.pageNo == child
    ensures idx < |es| && es[idx].rid.pageNo == child
    ensures forall j :: 0 <= j < idx ==> es[j].rid.pageNo != child
  {
    idx := 0;
    while es[idx].rid.pageNo != child
      invariant 0 <= idx < |es|
      invariant forall j :: 0 <= j < idx ==> es[j].rid.pageNo != child
      invariant exists j :: idx <= j < |es| && es[j].rid.pageNo == child
      decreases |es| - idx
    {
      idx := idx + 1;
    }
  }
}

module IxIndex {
  import opened Defs
  import opened Tower
  import opened TowerInsert
  import opened TowerDelete
  import opened IxPages
  import opened IxDeleteSteps
  import opened IxShapes
  import IxNode

  /** Outcome of an insert: the leaf page, a duplicate key, or a thrown InternalError. */
  datatype InsertResult = Inserted(page: int) | Duplicate | InsertThrown

  /** Outcome of a delete.  SiblingFault: an internal node fell below its minimum, and its sibling was
      looked up through leaf links, which internal pages do not have. */
  datatype DeleteResult = Deleted | Absent | DeleteThrown | SiblingFault

  datatype Repair = Repaired | RootGone | Fault

  /** A position in the index: a leaf page and a slot in it. */
  datatype Iid = Iid(pageNo: int, slotNo: int)

  datatype Lookup = Found(rid: Rid) | NotFound | LookupThrown

  // ---------- facts that the methods need at each step ----------

  lemma {:induction false} NodeStrict(order: nat, tower: seq<Level>, i: nat, p: nat)
    requires order >= 4 && |tower| >= 1 && StrictFrom(Flat(tower[0]), 0)
    requires LinksExcept(tower, -1) && NonEmpty(tower)
    requires i < |tower| && p < |tower[i]|
    ensures StrictFrom(tower[i][p].es, if i == 0 then 0 else 1)
  {
    LevelStrict(tower, i);
    var lv := tower[i];
    forall x, y | (if i == 0 then 0 else 1) <= x < y < |lv[p].es| ensures lv[p].es[x].key < lv[p].es[y].key {
      FlatIndex(lv, p, x);
      FlatIndex(lv, p, y);
    }
  }

  lemma {:induction false} SizesClose(order: nat, tower: seq<Level>, i: nat, m: nat)
    requires i < |tower| && m < |tower[i]|
    requires SizesExcept(order, tower, i, m) && SizeOK(order, tower, i, tower[i][m])
    ensures SizesExcept(order, tower, -1, -1)
  {}

  /** In a gap, the old node is still listed above, at exactly one place. */
  lemma {:induction false} GapParent(order: nat, pages: Pages, tower: seq<Level>, numPages: int,
                                     i: nat, m: nat, sep: int, fresh': int) returns (q: nat, j: nat)
    requires InGap(order, tower, i, m, sep, fresh') && Rep(pages, tower, numPages)
    requires i + 1 < |tower|
    ensures q < |tower[i + 1]| && j < |tower[i + 1][q].es| && Off(tower[i + 1], q) + j == m
    ensures tower[i + 1][q].es[j].rid == ChildRid(tower[i][m].page)
    ensures ParentIs(pages, tower[i][m].page, tower[i + 1][q].page)
    ensures OnlyChildSlot(tower[i + 1][q].es, tower[i][m].page, j)
    ensures tower[i + 1][q].page >= 0 && NodeStored(pages, tower[i + 1][q], false)
  {
    hide Flat, StrictFrom, SizesExcept, LinksExcept, SepOK, Ring;
    var lv := tower[i + 1];
    var f := Flat(lv);
    var g := InsertAt(f, m + 1, Entry(sep, ChildRid(fresh')));
    q, j := Locate(lv, m);
    FlatIndex(lv, q, j);
    assert g[m] == f[m];
    assert ParentIs(pages, lv[q].es[j].rid.pageNo, lv[q].page);
    assert NodeStored(pages, lv[q], false);
    forall x | 0 <= x < |lv[q].es| && lv[q].es[x].rid.pageNo == tower[i][m].page ensures x == j {
      FlatIndex(lv, q, x);
      var pos := Off(lv, q) + x;
      var y := if pos <= m then pos else pos + 1;
      assert g[y] == f[pos];
      assert tower[i][y].page == tower[i][m].page;
    }
  }

  lemma {:induction false} AdoptStep(pages: Pages, es: seq<Entry>, n: nat, parent: int)
    requires n < |es| && es[n].rid.pageNo in pages
    ensures var c := es[n].rid.pageNo;
            var a := Adopt(pages, es[..n], parent);
            Adopt(pages, es[..n + 1], parent) == a[c := a[c].(parent := parent)]
  {
    var c := es[n].rid.pageNo;
    var a, b := Adopt(pages, es[..n], parent), Adopt(pages, es[..n + 1], parent);
    forall p | p in pages ensures b[p] == a[c := a[c].(parent := parent)][p] {
      if ListsChild(es[..n], p) {
        var j :| 0 <= j < n && es[..n][j].rid.pageNo == p;
        assert es[..n + 1][j].rid.pageNo == p;
      } else if p == c {
        assert es[..n + 1][n].rid.pageNo == p;
      } else {
        var es1 := es[..n + 1];
        forall j | 0 <= j < n + 1 ensures es1[j].rid.pageNo != p {
          if j < n { assert es1[j] == es[..n][j]; }
        }
      }
    }
  }

  class IxIndexHandle {
    const order: nat
    var pages: Pages
    var root: int
    var numPages: int
    var firstLeaf: int
    var lastLeaf: int
    ghost var tower: seq<Level>

    /** The links and handles that every step keeps, whatever the state of the separators. */
    ghost predicate Stable()
      reads this
    {
      && Rep(pages, tower, numPages)
      && numPages > INIT_ROOT_PAGE
      && |tower[0]| > 0
      && |tower[|tower| - 1]| > 0
      && root == tower[|tower| - 1][0].page
      && firstLeaf == tower[0][0].page
    }

    ghost predicate Valid()
      reads this
    {
      && Stable()
      && Wf(order, tower)
      && lastLeaf == tower[0][|tower[0]| - 1].page
    }

    /** Deleting the last key leaves the handle without a root and its only leaf empty. */
    ghost predicate Dead()
      reads this
    {
      root == NO_PAGE && firstLeaf == lastLeaf && lastLeaf in pages && pages[lastLeaf].es == []
    }

    ghost function Contents(): map<int, Rid>
      requires Valid()
      reads this
    {
      AsMap(Flat(tower[0]))
    }

    /** IxManager::create_index: header page 1 and an empty root leaf, page 2, linked in a ring. */
    constructor (btreeOrder: nat)
      requires btreeOrder >= 4
      ensures Valid() && order == btreeOrder
      ensures Contents() == map[]
      ensures root == firstLeaf == lastLeaf == INIT_ROOT_PAGE && numPages == 3
      ensures pages == map[
        LEAF_HEADER_PAGE := IxPage(NO_PAGE, true, INIT_ROOT_PAGE, INIT_ROOT_PAGE, []),
        INIT_ROOT_PAGE := IxPage(NO_PAGE, true, LEAF_HEADER_PAGE, LEAF_HEADER_PAGE, [])]
    {
      order := btreeOrder;
      pages := map[
        LEAF_HEADER_PAGE := IxPage(NO_PAGE, true, INIT_ROOT_PAGE, INIT_ROOT_PAGE, []),
        INIT_ROOT_PAGE := IxPage(NO_PAGE, true, LEAF_HEADER_PAGE, LEAF_HEADER_PAGE, [])];
      root, numPages, firstLeaf, lastLeaf := INIT_ROOT_PAGE, 3, INIT_ROOT_PAGE, INIT_ROOT_PAGE;
      tower := [[Node(INIT_ROOT_PAGE, [])]];
      new;
      hide Rep, Wf;
      FreshRep(pages);
      FreshWf(order);
      assert Contents().Keys == {};
    }

    // ---------- search ----------

    /** IxIndexHandle::find_leaf_page on a tree that has a root. */
    method FindLeafPage(key: int) returns (leaf: int, ghost m: nat)
      requires Valid()
      ensures CoversAt(tower, 0, m, key)
      ensures leaf == tower[0][m].page && NodeStored(pages, tower[0][m], true)
    {
      SizesPositive(order, tower);
      var cur := root;
      ghost var i: nat, p: nat := |tower| - 1, 0;
      assert NodeStored(pages, tower[i][p], i == 0);
      while !pages[cur].isLeaf
        invariant CoversAt(tower, i, p, key)
        invariant cur == tower[i][p].page && NodeStored(pages, tower[i][p], i == 0)
        decreases i
      {
        NodeStrict(order, tower, i, p);
        assert SizeOK(order, tower, i, tower[i][p]);
        var j := IxNode.UpperBound(pages[cur].es, key);
        DescendStep(tower, i, p, key, j);
        cur := pages[cur].es[j - 1].rid.pageNo;
        i, p := i - 1, Off(tower[i], p) + j - 1;
        assert NodeStored(pages, tower[i][p], i == 0);
      }
      leaf, m := cur, p;
    }

    /** The leaf that may hold the key, and the slot where it is or belongs. */
    method LeafSlot(key: int) returns (leaf: int, idx: nat, ghost m: nat)
      requires Valid()
      ensures m < |tower[0]| && CoversAt(tower, 0, m, key)
      ensures leaf == tower[0][m].page && NodeStored(pages, tower[0][m], true)
      ensures idx <= |tower[0][m].es| && LowerBoundAt(tower[0][m].es, key, idx)
      ensures key in Contents() <==> idx < |tower[0][m].es| && tower[0][m].es[idx].key == key
      ensures key in Contents() ==> Contents()[key] == tower[0][m].es[idx].rid
    {
      leaf, m := FindLeafPage(key);
      SizesPositive(order, tower);
      NodeStrict(order, tower, 0, m);
      idx := IxNode.LowerBound(pages[leaf].es, key);
      LeafKeyIff(tower, m, key, idx);
    }

    /** IxIndexHandle::get_value. */
    method GetValue(key: int) returns (r: Lookup)
      requires Valid() || Dead()
      ensures Dead() ==> r == LookupThrown
      ensures !Dead() ==> r == if key in Contents() then Found(Contents()[key]) else NotFound
    {
      if root == NO_PAGE { return LookupThrown; }
      var leaf, idx, m := LeafSlot(key);
      var es := pages[leaf].es;
      if idx != |es| && es[idx].key == key {
        r := Found(es[idx].rid);
      } else {
        r := NotFound;
      }
    }

    // ---------- insert ----------

    method CreateNode() returns (page: int)
      requires numPages > INIT_ROOT_PAGE
      requires forall p :: p in pages ==> 0 < p < numPages
      modifies this`pages, this`numPages
      ensures page == old(numPages) && numPages == page + 1
      ensures pages == old(pages)[page := IxPage(0, false, 0, 0, [])]
    {
      page := numPages;
      numPages := numPages + 1;
      pages := pages[page := IxPage(0, false, 0, 0, [])];
    }

    /** IxIndexHandle::maintain_child. */
    method MaintainChild(node: int, idx: nat)
      requires node in pages && idx < |pages[node].es|
      requires !pages[node].isLeaf ==> pages[node].es[idx].rid.pageNo in pages
      modifies this`pages
      ensures pages == if old(pages)[node].isLeaf then old(pages) else
                var c := old(pages)[node].es[idx].rid.pageNo;
                old(pages)[c := old(pages)[c].(parent := node)]
    {
      if !pages[node].isLeaf {
        var c := pages[node].es[idx].rid.pageNo;
        pages := pages[c := pages[c].(parent := node)];
      }
    }

    /** The loop over `maintain_child` for the slots from..size of an internal node. */
    method MaintainChildren(node: int, from: nat)
      requires node in pages && from <= |pages[node].es|
      requires !pages[node].isLeaf ==> forall j :: from <= j < |pages[node].es| ==>
                 pages[node].es[j].rid.pageNo in pages && pages[node].es[j].rid.pageNo != node
      modifies this`pages
      ensures pages == if old(pages)[node].isLeaf then old(pages)
                       else Adopt(old(pages), old(pages)[node].es[from..], node)
    {
      var i := from;
      ghost var base := pages;
      ghost var es := pages[node].es[from..];
      assert !pages[node].isLeaf ==> Adopt(base, es[..0], node) == base;
      while i < |pages[node].es|
        invariant from <= i <= |base[node].es|
        invariant pages == if base[node].isLeaf then base else Adopt(base, es[..i - from], node)
        invariant node in pages && pages[node].es == base[node].es && pages[node].isLeaf == base[node].isLeaf
      {
        if !pages[node].isLeaf { AdoptStep(base, es, i - from, node); }
        MaintainChild(node, i);
        i := i + 1;
      }
      assert es[..|es|] == es;
    }

    ghost predicate CanSplit(node: int, i: nat, m: nat)
      reads this
    {
      && Stable()
      && order >= 4
      && i < |tower| && m < |tower[i]| && tower[i][m].page == node && |tower[i][m].es| == order
      && |tower[|tower| - 1]| == 1
      && StrictFrom(Flat(tower[0]), 0)
      && LinksExcept(tower, -1)
      && SizesExcept(order, tower, i, m)
    }

    /** Node m of level i was split and its right half still has to be entered above. */
    ghost predicate Pending(node: int, key: int, newNode: int, i: nat, m: nat)
      reads this
    {
      && Stable()
      && InGap(order, tower, i, m, key, newNode)
      && tower[i][m].page == node
      && node in pages && newNode in pages
      && pages[newNode].parent == pages[node].parent
    }

    /** IxIndexHandle::split: the right half of the entries moves to a new right neighbour. */
    method Split(node: int, ghost i: nat, ghost m: nat) returns (newNode: int)
      requires CanSplit(node, i, m)
      modifies this`pages, this`numPages, this`tower
      ensures newNode == old(numPages) && numPages == newNode + 1
      ensures tower == SplitNode(old(tower), i, m, order / 2, newNode)
      ensures newNode in pages && pages[newNode].es == old(tower[i][m].es)[order / 2..]
      ensures Flat(tower[0]) == old(Flat(tower[0]))
      ensures newNode in pages && |pages[newNode].es| > 0
      ensures Pending(node, pages[newNode].es[0].key, newNode, i, m)
    {
      hide Rep, InGap, LinksExcept, SizesExcept, StrictFrom, SplitNode, SplitLeafPages, Adopt, Flat;
      SplitReady(pages, tower, numPages, i, m);
      SplitState(order, pages, tower, numPages, i, m);
      SplitCorners(tower, i, m, order / 2, numPages);
      if pages[node].isLeaf {
        newNode := MoveHalfLeaf(node);
      } else {
        newNode := MoveHalfInner(node);
      }
      tower := SplitNode(tower, i, m, order / 2, newNode);
    }

    /** The page writes of `split` on a leaf, with the new leaf linked in on the right. */
    method MoveHalfLeaf(node: int) returns (newNode: int)
      requires numPages > INIT_ROOT_PAGE && forall p :: p in pages ==> 0 < p < numPages
      requires node in pages && pages[node].isLeaf && pages[node].nextLeaf in pages
      modifies this`pages, this`numPages
      ensures newNode == old(numPages) && numPages == newNode + 1
      ensures var es := old(pages)[node].es;
              pages == SplitLeafPages(old(pages), Node(node, es), |es| / 2, newNode)
    {
      hide SplitLeafPages, Adopt, LinkedPages;
      ghost var before := pages;
      newNode := LinkLeaf(node);
      LinkedFacts(before, node, newNode);
      var es := pages[node].es;
      var idx := |es| / 2;
      pages := pages[newNode := pages[newNode].(es := es[idx..])];
      pages := pages[node := pages[node].(es := es[..idx])];
      MaintainChildren(newNode, 0);
      LeafPagesAgree(before, Node(node, es), idx, newNode);
    }

    /** A new empty leaf enters the ring behind the node. */
    method LinkLeaf(node: int) returns (newNode: int)
      requires numPages > INIT_ROOT_PAGE && forall p :: p in pages ==> 0 < p < numPages
      requires node in pages && pages[node].isLeaf && pages[node].nextLeaf in pages
      modifies this`pages, this`numPages
      ensures newNode == old(numPages) && numPages == newNode + 1 && pages == LinkedPages(old(pages), node, newNode)
    {
      var p := pages[node];
      newNode := CreateNode();
      pages := pages[newNode := IxPage(p.parent, true, node, p.nextLeaf, [])];
      pages := pages[node := pages[node].(nextLeaf := newNode)];
      var next := p.nextLeaf;
      pages := pages[next := pages[next].(prevLeaf := newNode)];
    }

    /** The page writes of `split` on an internal node; the moved children change parent. */
    method MoveHalfInner(node: int) returns (newNode: int)
      requires numPages > INIT_ROOT_PAGE && forall p :: p in pages ==> 0 < p < numPages
      requires node in pages && !pages[node].isLeaf
      requires forall j :: 0 <= j < |pages[node].es| ==> pages[node].es[j].rid.pageNo in pages
      modifies this`pages, this`numPages
      ensures newNode == old(numPages) && numPages == newNode + 1
      ensures var o := old(pages)[node];
              var h := |o.es| / 2;
              pages == Adopt(old(pages)[newNode := IxPage(o.parent, false, 0, 0, o.es[h..])][node := o.(es := o.es[..h])],
                             o.es[h..], newNode)
    {
      var p := pages[node];
      newNode := CreateNode();
      var idx := |p.es| / 2;
      pages := pages[newNode := IxPage(p.parent, false, 0, 0, p.es[idx..])];
      pages := pages[node := pages[node].(es := p.es[..idx])];
      MaintainChildren(newNode, 0);
    }

    /** IxIndexHandle::insert_into_parent: enter the new node above, splitting upwards as needed. */
    method InsertIntoParent(node: int, key: int, newNode: int, ghost i: nat, ghost m: nat)
      requires Pending(node, key, newNode, i, m)
      modifies this`pages, this`numPages, this`tower, this`root
      ensures Stable() && Wf(order, tower)
      ensures tower[0] == old(tower[0])
      ensures Grown(tower, numPages) == PushUp(order, old(tower), i, m, key, newNode, old(numPages))
      decreases |tower| - i
    {
      hide Rep, InGap, LinksExcept, SizesExcept, StrictFrom, Flat, PushUp;
      PendingFacts(order, pages, tower, numPages, i, m, key, newNode);
      if pages[node].parent == NO_PAGE {
        ghost var oldTower := tower;
        ghost var k0 := pages[node].es[0].key;
        NewRootState(order, pages, tower, numPages, i, m, key, newNode, k0);
        PushUpTop(order, tower, i, key, numPages);
        GrowNewRoot(node, key, newNode);
        tower := AddRoot(tower, key, k0, root);
        assert tower[0] == oldTower[0];
      } else {
        var parentNode := pages[node].parent;
        ghost var q, j := GapParent(order, pages, tower, numPages, i, m, key, newNode);
        var es := pages[parentNode].es;
        var rank := IxNode.FindChild(es, node);
        assert rank == j;
        ghost var t := SetNode(tower, i + 1, q, InsertAt(es, rank + 1, Entry(key, ChildRid(newNode))));
        ParentState(order, pages, tower, numPages, i, m, key, newNode, q, j);
        PushUpStep(order, tower, i, m, key, newNode, numPages, q, j);
        SetNodeShape(tower, i + 1, q, InsertAt(es, rank + 1, Entry(key, ChildRid(newNode))));
        pages := pages[parentNode := pages[parentNode].(es := InsertAt(es, rank + 1, Entry(key, ChildRid(newNode))))];
        tower := t;
        if |pages[parentNode].es| == order {
          var newParent := Split(parentNode, i + 1, q);
          assert tower[0] == old(tower[0]);
          InsertIntoParent(parentNode, pages[newParent].es[0].key, newParent, i + 1, q);
        }
      }
    }

    /** The page writes for a new root over the two halves of the old one. */
    method GrowNewRoot(node: int, key: int, newNode: int)
      requires numPages > INIT_ROOT_PAGE && forall p :: p in pages ==> 0 < p < numPages
      requires node in pages && newNode in pages && node != newNode && |pages[node].es| > 0
      modifies this`pages, this`numPages, this`root
      ensures root == old(numPages) && numPages == root + 1
      ensures pages == NewRootPages(old(pages), node, newNode, old(pages)[node].es[0].key, key, root)
    {
      var p := CreateNode();
      pages := pages[p := IxPage(NO_PAGE, false, 0, 0, [])];
      pages := pages[p := pages[p].(es := InsertAt(pages[p].es, 0, Entry(pages[node].es[0].key, ChildRid(node))))];
      pages := pages[p := pages[p].(es := InsertAt(pages[p].es, 1, Entry(key, ChildRid(newNode))))];
      assert pages[p].es == [Entry(old(pages)[node].es[0].key, ChildRid(node)), Entry(key, ChildRid(newNode))];
      root := p;
      pages := pages[newNode := pages[newNode].(parent := p)];
      pages := pages[node := pages[node].(parent := p)];
    }

    /** The tree grew from the given one by an entry at its place in the leaf that covers the key. */
    ghost predicate InsertedAt(was: seq<Level>, m: nat, idx: nat, key: int, value: Rid, page: int, n: int)
      reads this
    {
      && order > 0
      && CoversAt(was, 0, m, key) && LowerBoundAt(was[0][m].es, key, idx)
      && page == was[0][m].page
      && Grown(tower, numPages) == InsertTower(order, was, m, idx, Entry(key, value), n)
      && LeavesGrown(order, was, tower, m, idx, Entry(key, value), n)
    }

    /** IxIndexHandle::insert_entry refines insertion into a map with unique keys. */
    method InsertEntry(key: int, value: Rid) returns (r: InsertResult)
      requires Valid() || Dead()
      modifies this`pages, this`numPages, this`tower, this`root, this`lastLeaf
      ensures old(Dead()) ==> Dead() && r == InsertThrown && unchanged(this)
      ensures !old(Dead()) ==> Valid()
      ensures !old(Dead()) && key in old(Contents()) ==> r == Duplicate && unchanged(this)
      ensures !old(Dead()) && key !in old(Contents()) ==> r.Inserted? && Contents() == old(Contents())[key := value]
      ensures r.Inserted? ==> exists m: nat, idx: nat :: InsertedAt(old(tower), m, idx, key, value, r.page, old(numPages))
    {
      hide Rep, LinksExcept, SizesExcept, StrictFrom, Flat, AsMap, LowerBoundAt, LeavesGrown, PushUp;
      if Valid() { HasRoot(); }
      if root == NO_PAGE { return InsertThrown; }
      var leaf, idx, m := LeafSlot(key);
      var es := pages[leaf].es;
      if idx != |es| && es[idx].key == key { return Duplicate; }
      ghost var e := Entry(key, value);
      LeafInsertState(order, pages, tower, numPages, m, e, idx);
      pages := pages[leaf := pages[leaf].(es := InsertAt(es, idx, Entry(key, value)))];
      tower := SetNode(tower, 0, m, InsertAt(es, idx, e));
      SplitIfFull(leaf, m);
      ListedLeaves(order, old(tower));
      InsertLeaves(order, old(tower), m, idx, e, old(numPages));
      r := Inserted(leaf);
      assert InsertedAt(old(tower), m, idx, key, value, leaf, old(numPages));
    }

    /** The second half of insert_entry: split a full leaf and tell its parent. */
    method SplitIfFull(leaf: int, ghost m: nat)
      requires Stable() && |tower| >= 1
      requires m < |tower[0]| && leaf == tower[0][m].page && NodeStored(pages, tower[0][m], true)
      requires lastLeaf == tower[0][|tower[0]| - 1].page
      requires order >= 4 && |tower[|tower| - 1]| == 1 && StrictFrom(Flat(tower[0]), 0)
      requires LinksExcept(tower, -1) && SizesExcept(order, tower, 0, m)
      requires |tower[0][m].es| != order ==> Wf(order, tower)
      modifies this`pages, this`numPages, this`tower, this`root, this`lastLeaf
      ensures Valid()
      ensures Flat(tower[0]) == old(Flat(tower[0]))
      ensures Grown(tower, numPages) == HalvedIfFull(order, old(tower), m, old(numPages))
    {
      hide Rep, LinksExcept, SizesExcept, StrictFrom, Flat, PushUp;
      if |pages[leaf].es| == order {
        LastLeafIff(pages, tower, numPages, m);
        ghost var before := tower;
        var newNode := Split(leaf, 0, m);
        SplitLast(before, m, order / 2, newNode);
        if leaf == lastLeaf { lastLeaf := newNode; }
        InsertIntoParent(leaf, pages[newNode].es[0].key, newNode, 0, m);
      }
    }

    // ---------- delete ----------

    /** IxIndexHandle::maintain_parent: copy first keys upwards until nothing changes. */
    method MaintainParent(node: int, ghost i: nat, ghost m: nat)
      requires Stable() && order >= 4 && |tower| >= 1 && |tower[|tower| - 1]| == 1
      requires StrictFrom(Flat(tower[0]), 0) && SizesExcept(order, tower, -1, -1)
      requires PatchAt(tower, i, m) && i < |tower| && m < |tower[i]| && tower[i][m].page == node
      modifies this`pages, this`tower
      ensures Stable() && Wf(order, tower)
      ensures tower[0] == old(tower[0])
      ensures tower == Refresh(old(tower), i, m)
    {
      hide Rep, LinksExcept, SizesExcept, StrictFrom, Flat, PatchAt, Refresh;
      var curr := node;
      ghost var x: nat, y: nat := i, m;
      ghost var q, j := PatchParent(pages, tower, numPages, x, y);
      while pages[curr].parent != NO_PAGE
        invariant Stable() && |tower| == |old(tower)| && |tower[|tower| - 1]| == 1
        invariant tower[0] == old(tower[0]) && SizesExcept(order, tower, -1, -1)
        invariant PatchAt(tower, x, y) && x < |tower| && y < |tower[x]| && tower[x][y].page == curr
        invariant curr in pages
        invariant Refresh(tower, x, y) == Refresh(old(tower), i, m)
        decreases |tower| - x
      {
        q, j := PatchParent(pages, tower, numPages, x, y);
        RefreshStep(tower, x, y, q, j);
        var parent := pages[curr].parent;
        var es := pages[parent].es;
        var rank := IxNode.FindChild(es, curr);
        var key := pages[curr].es[0].key;
        if es[rank].key == key {
          PatchDone(tower, x, y);
          return;
        }
        SetKeyRep(pages, tower, numPages, x + 1, q, j, key);
        PatchStep(order, tower, x, y, q, j);
        pages := pages[parent := pages[parent].(es := es[rank := Entry(key, es[rank].rid)])];
        tower := SetNode(tower, x + 1, q, es[rank := Entry(key, es[rank].rid)]);
        curr := parent;
        x, y := x + 1, q;
      }
      q, j := PatchParent(pages, tower, numPages, x, y);
      RefreshTop(tower, x, y);
      PatchDone(tower, x, y);
    }

    ghost predicate Shrunk(node: int, i: nat, m: nat)
      reads this
    {
      && Stable() && |tower| >= 1
      && Short(order, tower, i, m)
      && i < |tower| && m < |tower[i]| && tower[i][m].page == node
      && lastLeaf == tower[0][|tower[0]| - 1].page
    }

    /** IxIndexHandle::adjust_root: an empty root leaf ends the index, a root with one child is dropped. */
    method AdjustRoot(node: int, ghost i: nat) returns (r: Repair)
      requires Shrunk(node, i, 0) && i + 1 == |tower| && NodeStored(pages, tower[i][0], i == 0)
      modifies this`pages, this`tower, this`root
      ensures r == if old(tower[i][0].es) == [] then RootGone else Repaired
      ensures r == Repaired ==> Valid() && Flat(tower[0]) == old(Flat(tower[0]))
      ensures r == RootGone ==> Dead() && i == 0
      ensures Repairs(r, FixUp(order, old(tower), i, 0))
    {
      hide Rep, LinksExcept, SizesExcept, StrictFrom, Flat;
      FixUpRoot(order, tower, i);
      if pages[node].isLeaf {
        if |pages[node].es| == 0 {
          root := NO_PAGE;
          return RootGone;
        }
        RootFits(order, tower, i);
      } else if |pages[node].es| == 1 {
        CollapseWf(order, tower);
        CollapseRep(pages, tower, numPages);
        var newRoot := pages[node].es[0].rid.pageNo;
        pages := pages[newRoot := pages[newRoot].(parent := NO_PAGE)];
        root := newRoot;
        tower := tower[..|tower| - 1];
      } else {
        RootFits(order, tower, i);
      }
      r := Repaired;
    }

    /** The outcome is the foretold one; a repaired tree has exactly the foretold shape. */
    ghost predicate Repairs(r: Repair, f: Fixed)
      reads this
    {
      match r
      case Repaired => f == Tree(tower)
      case RootGone => f == Gone
      case Fault => f == Stuck
    }

    /** IxIndexHandle::coalesce_or_redistribute, called on a node that just lost an entry. */
    method CoalesceOrRedistribute(node: int, ghost i: nat, ghost m: nat) returns (r: Repair)
      requires Shrunk(node, i, m)
      modifies this`pages, this`tower, this`root, this`lastLeaf
      ensures r == Fault <==> Underflows(order, old(tower), i, m)
      ensures r == RootGone <==> old(i + 1 == |tower| && tower[i][m].es == [])
      ensures r == Repaired ==> Valid() && Flat(tower[0]) == old(Flat(tower[0]))
      ensures r == RootGone ==> Dead() && i == 0
      ensures Repairs(r, FixUp(order, old(tower), i, m))
      decreases |tower| - i, 1
    {
      hide Rep, LinksExcept, SizesExcept, StrictFrom, Flat, MergeStarvesParent, PatchAt, FixUp, Refresh, Shifted, MergeTower;
      ghost var q, j := ShortFacts(order, pages, tower, numPages, i, m);
      if pages[node].parent == NO_PAGE {
        r := AdjustRoot(node, i);
        return;
      }
      var size := |pages[node].es|;
      if size >= order / 2 {
        EnoughLeft(order, tower, i, m);
        FixUpKeep(order, tower, i, m);
        MaintainParent(node, i, m);
        return Repaired;
      }
      var parent := pages[node].parent;
      var idx := IxNode.FindChild(pages[parent].es, node);
      var brother := if idx != 0 then pages[node].prevLeaf else pages[node].nextLeaf;
      // the leaf links of an internal page still hold 0: the file header would be taken for a node
      RingFacts(pages, tower, numPages, i, m);
      if brother == FILE_HDR_PAGE { FixUpInner(order, tower, i, m); return Fault; }
      SiblingFacts(order, pages, tower, numPages, m, q, j);
      StarvesAt(order, tower, m, q, j);
      FixUpStep(order, tower, m, q, j);
      if size + |pages[brother].es| >= order / 2 * 2 {
        Redistribute(brother, node, idx, m);
        r := Repaired;
      } else {
        r := Coalesce(brother, node, parent, idx, m, q);
      }
    }

    /** IxIndexHandle::redistribute on two sibling leaves. */
    method Redistribute(neighbor: int, node: int, index: nat, ghost m: nat)
      requires Shrunk(node, 0, m) && |tower| > 1
      requires 0 <= Sibling(m, index) < |tower[0]| && neighbor == tower[0][Sibling(m, index)].page
      requires NodeStored(pages, tower[0][m], true) && NodeStored(pages, tower[0][Sibling(m, index)], true)
      requires |tower[0][m].es| == order / 2 - 1 && order / 2 < |tower[0][Sibling(m, index)].es| < order
      modifies this`pages, this`tower
      ensures Valid() && Flat(tower[0]) == old(Flat(tower[0]))
      ensures tower == Refresh(Shifted(old(tower), m, index), 0, if index > 0 then m else m + 1)
    {
      hide Rep, LinksExcept, SizesExcept, StrictFrom, Flat, PatchAt, Refresh;
      var es, ns := pages[node].es, pages[neighbor].es;
      if index != 0 {
        var pos := |ns| - 1;
        var a, b := RemoveAt(ns, pos), InsertAt(es, 0, ns[pos]);
        assert a + b == ns + es;
        PairState(order, pages, tower, numPages, m - 1, m, a, b);
        pages := pages[node := pages[node].(es := b)];
        pages := pages[neighbor := pages[neighbor].(es := a)];
        assert pages == old(pages)[neighbor := old(pages)[neighbor].(es := a)][node := old(pages)[node].(es := b)];
        tower := SetPair(tower, m - 1, a, b);
        MaintainChild(node, 0);
        MaintainParent(node, 0, m);
      } else {
        var a, b := InsertAt(es, |es|, ns[0]), RemoveAt(ns, 0);
        assert a + b == es + ns;
        PairState(order, pages, tower, numPages, m, m, a, b);
        pages := pages[node := pages[node].(es := a)];
        pages := pages[neighbor := pages[neighbor].(es := b)];
        tower := SetPair(tower, m, a, b);
        MaintainChild(node, |pages[node].es| - 1);
        MaintainParent(neighbor, 0, m + 1);
      }
    }

    /** IxIndexHandle::erase_leaf: take a leaf out of the ring. */
    method EraseLeaf(leaf: int)
      requires leaf in pages && pages[leaf].isLeaf
      requires pages[leaf].prevLeaf in pages && pages[leaf].nextLeaf in pages
      requires pages[leaf].prevLeaf != leaf
      modifies this`pages
      ensures var prev, next := old(pages)[leaf].prevLeaf, old(pages)[leaf].nextLeaf;
              var p1 := old(pages)[prev := old(pages)[prev].(nextLeaf := next)];
              pages == p1[next := p1[next].(prevLeaf := prev)]
    {
      var prev := pages[leaf].prevLeaf;
      pages := pages[prev := pages[prev].(nextLeaf := pages[leaf].nextLeaf)];
      var next := pages[leaf].nextLeaf;
      pages := pages[next := pages[next].(prevLeaf := pages[leaf].prevLeaf)];
    }

    /** IxIndexHandle::coalesce on two sibling leaves: the right one is merged into the left one. */
    method Coalesce(neighbor: int, node: int, parent: int, index: nat, ghost m: nat, ghost q: nat) returns (r: Repair)
      requires Shrunk(node, 0, m) && |tower| > 1
      requires LeafSlotIn(tower, m, q, index) && |tower[1][q].es| >= 2
      requires parent == tower[1][q].page && NodeStored(pages, tower[1][q], false)
      requires neighbor == tower[0][Sibling(m, index)].page && neighbor != node
      requires NodeStored(pages, tower[0][m], true) && NodeStored(pages, tower[0][Sibling(m, index)], true)
      requires 0 < |tower[0][m].es| && order / 2 <= |tower[0][Sibling(m, index)].es|
      requires |tower[0][m].es| + |tower[0][Sibling(m, index)].es| < 2 * (order / 2)
      modifies this`pages, this`tower, this`root, this`lastLeaf
      ensures r == Fault <==> old(|tower| > 2 && |tower[1][q].es| == order / 2)
      ensures r != RootGone
      ensures r == Repaired ==> Valid() && Flat(tower[0]) == old(Flat(tower[0]))
      ensures var l, slot := if index > 0 then m - 1 else m, if index > 0 then index else 1;
              Repairs(r, FixUp(order, MergeTower(old(tower), l, q, slot), 1, q))
      decreases |tower|, 0
    {
      hide Rep, LinksExcept, SizesExcept, StrictFrom, Flat, MergeStarvesParent, Short, MergeTower, MergePages, FixUp;
      var left, right, slot := neighbor, node, index;
      if index == 0 {
        left, right, slot := node, neighbor, 1;
      }
      ghost var l := if index == 0 then m else m - 1;
      MergeState(order, pages, tower, numPages, l, m, q, slot);
      MergeRing(pages, tower, numPages, l);
      ParentSize(order, tower, m, q);
      LastLeafIff(pages, tower, numPages, l + 1);
      MergeLast(tower, l, q, slot);
      MergeLeaves(left, right);
      pages := pages[parent := pages[parent].(es := RemoveAt(pages[parent].es, slot))];
      tower := MergeTower(tower, l, q, slot);
      r := CoalesceOrRedistribute(parent, 1, q);
    }

    /** The leaf part of coalesce: move all pairs to the left leaf, then unlink the right one. */
    method MergeLeaves(left: int, right: int)
      requires left in pages && right in pages && left != right && pages[right].isLeaf && pages[left].isLeaf
      requires pages[right].prevLeaf == left && pages[right].nextLeaf in pages
      modifies this`pages, this`lastLeaf
      ensures pages == MergePages(old(pages), left, right, old(pages)[left].es + old(pages)[right].es)
      ensures lastLeaf == if old(lastLeaf) == right then left else old(lastLeaf)
    {
      pages := pages[left := pages[left].(es := pages[left].es + pages[right].es)];
      if right == lastLeaf { lastLeaf := left; }
      EraseLeaf(right);
    }

    /** The tree is the given one after the key's entry left its leaf and the repairs that calls for. */
    ghost predicate DeletedAt(was: seq<Level>, m: nat, idx: nat, key: int)
      reads this
    {
      && |was| > 0 && m < |was[0]| && idx < |was[0][m].es| && was[0][m].es[idx].key == key
      && FixUp(order, SetNode(was, 0, m, RemoveAt(was[0][m].es, idx)), 0, m) == Tree(tower)
      && LeavesAfter(order, was, tower, m, idx)
    }

    /** IxIndexHandle::delete_entry refines removal from a map, except when a merge would leave a
        non-root internal node below its minimum, which a caller can tell beforehand. */
    method DeleteEntry(key: int) returns (r: DeleteResult)
      requires Valid() || Dead()
      modifies this`pages, this`tower, this`root, this`lastLeaf
      ensures old(Dead()) ==> r == DeleteThrown && unchanged(this)
      ensures !old(Dead()) && key !in old(Contents()) ==> r == Absent && unchanged(this)
      ensures !old(Dead()) && key in old(Contents()) ==>
                (r == SiblingFault <==> DeleteStarves(order, old(tower), key))
                && (r == SiblingFault || r == Deleted)
      ensures !old(Dead()) && r == Deleted ==> (Dead() <==> old(Contents()).Keys == {key})
      ensures !old(Dead()) && r == Deleted && !Dead() ==> Valid() && Contents() == old(Contents()) - {key}
      ensures !old(Dead()) && r == Deleted && !Dead() ==> exists m: nat, idx: nat :: DeletedAt(old(tower), m, idx, key)
    {
      hide Rep, LinksExcept, SizesExcept, StrictFrom, Flat, AsMap, LowerBoundAt, CoversAt, DeleteStarves, MergeStarvesParent, FixUp, LeavesAfter;
      if Valid() { HasRoot(); }
      if root == NO_PAGE { return DeleteThrown; }
      var leaf, idx, m := LeafSlot(key);
      var es := pages[leaf].es;
      if idx == |es| || es[idx].key != key { return Absent; }
      RemoveState(order, pages, tower, numPages, m, idx);
      StarvesBefore(order, tower, key, m, idx);
      LastKey(order, tower, m, idx);
      pages := pages[leaf := pages[leaf].(es := RemoveAt(es, idx))];
      tower := SetNode(tower, 0, m, RemoveAt(es, idx));
      var fix := CoalesceOrRedistribute(leaf, 0, m);
      if fix == Repaired {
        RootIsPage(pages, tower, numPages);
        ListedLeaves(order, old(tower));
        FixUpLeaves(order, old(tower), tower, m, idx);
        assert DeletedAt(old(tower), m, idx, key);
      }
      r := if fix == Fault then SiblingFault else Deleted;
    }

    // ---------- cursors ----------

    /** Flat position of slot `slot` in leaf m. */
    ghost function PosAt(m: nat, slot: nat): nat
      requires |tower| > 0 && m <= |tower[0]|
      reads this
    {
      Off(tower[0], m) + slot
    }

    /** iid is slot `slot` (possibly one past the last) of leaf m. */
    ghost predicate CursorAt(iid: Iid, m: nat)
      reads this
    {
      && |tower| > 0 && m < |tower[0]|
      && iid.pageNo == tower[0][m].page
      && 0 <= iid.slotNo <= |tower[0][m].es|
    }

    /** The cursor is on an entry, or at the very end. */
    ghost predicate Settled(iid: Iid, m: nat)
      requires CursorAt(iid, m)
      reads this
    {
      iid.slotNo < |tower[0][m].es| || m == |tower[0]| - 1
    }

    /** IxIndexHandle::leaf_begin. */
    method LeafBegin() returns (iid: Iid)
      requires Valid() || Dead()
      ensures iid == Iid(firstLeaf, 0)
      ensures Valid() ==> CursorAt(iid, 0) && Settled(iid, 0) && PosAt(0, iid.slotNo) == 0
    {
      hide Rep, LinksExcept, SizesExcept, StrictFrom;
      iid := Iid(firstLeaf, 0);
      if Valid() {
        FirstLeafFull(order, tower);
        assert tower[0][..0] == [];
      }
    }

    /** IxIndexHandle::leaf_end. */
    method LeafEnd() returns (iid: Iid)
      requires Valid() || Dead()
      ensures Dead() ==> iid == Iid(lastLeaf, 0)
      ensures Valid() ==> CursorAt(iid, |tower[0]| - 1) && Settled(iid, |tower[0]| - 1)
      ensures Valid() ==> PosAt(|tower[0]| - 1, iid.slotNo) == |Flat(tower[0])|
      ensures Valid() ==> iid.slotNo == |tower[0][|tower[0]| - 1].es|
    {
      if Valid() {
        assert NodeStored(pages, tower[0][|tower[0]| - 1], true);
        FlatAt(tower[0], |tower[0]| - 1);
        assert tower[0][|tower[0]|..] == [];
      }
      iid := Iid(lastLeaf, |pages[lastLeaf].es|);
    }

    /** IxIndexHandle::lower_bound: no entry before the cursor is >= key, every entry from it on is. */
    method LowerBound(key: int) returns (r: Option<Iid>, ghost m: nat)
      requires Valid() || Dead()
      ensures r.None? <==> Dead()
      ensures Valid() ==> r.Some? && CursorAt(r.value, m) && CoversAt(tower, 0, m, key)
      ensures Valid() ==> LowerBoundAt(Flat(tower[0]), key, PosAt(m, r.value.slotNo))
    {
      hide Rep, Wf;
      if Valid() { HasRoot(); }
      m := 0;
      if root == NO_PAGE { return None, m; }
      var leaf, idx, mm := LeafSlot(key);
      m := mm;
      r := Some(Iid(leaf, idx));
      WfParts(order, tower);
      LowerBoundFlat(tower, m, key, idx);
    }

    lemma {:induction false} HasRoot()
      requires Valid()
      ensures root >= INIT_ROOT_PAGE && !Dead()
    {
      RootIsPage(pages, tower, numPages);
    }

    /** IxIndexHandle::upper_bound.  In the leaf c that covers the key, slot j is the first from 1 on with a
        greater key; if there is none in that leaf the cursor goes to the very end of the index, not to the
        next leaf.  On an index without keys the result is slot 1 of an empty leaf; without a root it throws. */
    method UpperBound(key: int) returns (r: Option<Iid>, ghost m: nat, ghost c: nat, ghost j: nat)
      requires Valid() || Dead()
      ensures r.None? <==> Dead()
      ensures Valid() ==> r.Some? && UpperAt(r.value, key, m, c, j)
    {
      hide Rep, Wf, UpperAt;
      if Valid() { HasRoot(); }
      m, c, j := 0, 0, 0;
      if root == NO_PAGE { return None, m, c, j; }
      var iid;
      iid, m, c, j := UpperCursor(key);
      r := Some(iid);
    }

    /** Where upper_bound puts the cursor. */
    ghost predicate UpperAt(iid: Iid, key: int, m: nat, c: nat, j: nat)
      requires |tower| > 0
      reads this
    {
      && (Flat(tower[0]) == [] ==> m == 0 && |tower[0]| == 1 && tower[0][0].es == [] && iid == Iid(tower[0][0].page, 1))
      && (Flat(tower[0]) != [] ==>
            && CursorAt(iid, m) && Settled(iid, m)
            && CoversAt(tower, 0, c, key) && UpperBoundAt(tower[0][c].es, key, j)
            && (if j < |tower[0][c].es| then m == c && iid.slotNo == j
                else m == |tower[0]| - 1 && iid.slotNo == |tower[0][m].es|))
    }

    method UpperCursor(key: int) returns (iid: Iid, ghost m: nat, ghost c: nat, ghost j: nat)
      requires Valid()
      ensures UpperAt(iid, key, m, c, j)
    {
      var leaf;
      leaf, c := FindLeafPage(key);
      SizesPositive(order, tower);
      NodeStrict(order, tower, 0, c);
      if Flat(tower[0]) == [] { EmptyTree(order, tower); } else { LeafNotEmpty(order, tower, c); }
      var slot := IxNode.UpperBound(pages[leaf].es, key);
      j := slot;
      if slot == |pages[leaf].es| {
        iid := LeafEnd();
        m := |tower[0]| - 1;
      } else {
        iid, m := Iid(leaf, slot), c;
      }
    }

    /** IxIndexHandle::get_rid. */
    method GetRid(iid: Iid, ghost m: nat) returns (r: Lookup)
      requires iid.slotNo >= 0
      requires (Dead() && iid.pageNo == lastLeaf) || (Valid() && m < |tower[0]| && iid.pageNo == tower[0][m].page)
      ensures Dead() ==> r == LookupThrown
      ensures Valid() ==> r == if iid.slotNo < |tower[0][m].es| then Found(tower[0][m].es[iid.slotNo].rid) else LookupThrown
    {
      if Valid() {
        HasRoot();
        assert NodeStored(pages, tower[0][m], true);
      }
      if iid.slotNo >= |pages[iid.pageNo].es| { return LookupThrown; }
      r := Found(pages[iid.pageNo].es[iid.slotNo].rid);
    }
  }

  /** Every leaf has an entry above it, unless it is the root. */
  lemma {:induction false} ListedLeaves(order: nat, tower: seq<Level>)
    requires Wf(order, tower)
    ensures |tower| > 0
    ensures if |tower| == 1 then |tower[0]| == 1 else |Flat(tower[1])| == |tower[0]|
  {
    if |tower| > 1 { assert LinkAt(tower, 0); }
  }

  lemma {:induction false} WfParts(order: nat, tower: seq<Level>)
    requires Wf(order, tower)
    ensures |tower| >= 1 && StrictFrom(Flat(tower[0]), 0) && LinksExcept(tower, -1)
  {}

  lemma {:induction false} PendingFacts(order: nat, pages: Pages, tower: seq<Level>, numPages: int,
                                        i: nat, m: nat, sep: int, fresh': int)
    requires InGap(order, tower, i, m, sep, fresh') && Rep(pages, tower, numPages)
    ensures order >= 4 && i < |tower| && m + 1 < |tower[i]| && tower[i][m + 1].page == fresh' != tower[i][m].page
    ensures tower[i][m].page in pages && pages[tower[i][m].page].es == tower[i][m].es && |tower[i][m].es| > 0
    ensures pages[tower[i][m].page].parent == NO_PAGE <==> i + 1 == |tower|
    ensures i + 1 == |tower| ==> m == 0 && |tower[i]| == 2
    ensures forall p :: p in pages ==> 0 < p < numPages
  {
    assert NodeStored(pages, tower[i][m], i == 0);
    assert SizeOK(order, tower, i, tower[i][m]);
    if i + 1 < |tower| {
      var q, j := GapParent(order, pages, tower, numPages, i, m, sep, fresh');
    }
  }

  lemma {:induction false} NewRootState(order: nat, pages: Pages, tower: seq<Level>, numPages: int,
                                        i: nat, m: nat, sep: int, fresh': int, k0: int)
    requires InGap(order, tower, i, m, sep, fresh') && Rep(pages, tower, numPages) && numPages > INIT_ROOT_PAGE
    requires i + 1 == |tower| && m == 0 && |tower[i]| == 2
    ensures tower[i][0].page in pages && tower[i][1].page in pages
    ensures Rep(NewRootPages(pages, tower[i][0].page, tower[i][1].page, k0, sep, numPages),
                AddRoot(tower, sep, k0, numPages), numPages + 1)
    ensures Wf(order, AddRoot(tower, sep, k0, numPages))
  {
    NewRootRep(pages, tower, numPages, k0, sep);
    GrowRoot(order, tower, i, sep, fresh', numPages, k0);
  }

  /** The parent after taking the new entry: everything is in order, unless it is now full. */
  lemma {:induction false} ParentState(order: nat, pages: Pages, tower: seq<Level>, numPages: int,
                                       i: nat, m: nat, sep: int, fresh': int, q: nat, j: nat)
    requires InGap(order, tower, i, m, sep, fresh') && Rep(pages, tower, numPages)
    requires i + 1 < |tower|
    requires q < |tower[i + 1]| && j < |tower[i + 1][q].es| && Off(tower[i + 1], q) + j == m
    requires ParentIs(pages, fresh', tower[i + 1][q].page)
    ensures var es := InsertAt(tower[i + 1][q].es, j + 1, Entry(sep, ChildRid(fresh')));
            var t := SetNode(tower, i + 1, q, es);
            var p := tower[i + 1][q].page;
            && p in pages
            && Rep(pages[p := pages[p].(es := es)], t, numPages)
            && |t[|t| - 1]| == 1
            && LinksExcept(t, -1)
            && SizesExcept(order, t, i + 1, q)
            && (|es| != order ==> Wf(order, t))
            && StrictFrom(Flat(t[0]), 0)
            && t[0] == tower[0]
  {
    hide Rep, LinksExcept, StrictFrom, Flat, LinkedF, ParentIs;
    var lv := tower[i + 1];
    var es := InsertAt(lv[q].es, j + 1, Entry(sep, ChildRid(fresh')));
    ParentChildren(pages, tower, numPages, i, sep, fresh', q, j);
    RepSetNode(pages, tower, numPages, i + 1, q, es);
    ParentInsert(order, tower, i, m, sep, fresh', q, j);
    SetNodeShape(tower, i + 1, q, es);
    assert SizeOK(order, tower, i + 1, lv[q]);
    if |es| != order {
      var t := SetNode(tower, i + 1, q, es);
      SizesClose(order, t, i + 1, q);
    }
  }

  lemma {:induction false} ParentChildren(pages: Pages, tower: seq<Level>, numPages: int, i: nat, sep: int, fresh': int, q: nat, j: nat)
    requires Rep(pages, tower, numPages)
    requires i + 1 < |tower| && q < |tower[i + 1]| && j < |tower[i + 1][q].es|
    requires ParentIs(pages, fresh', tower[i + 1][q].page)
    ensures var es := InsertAt(tower[i + 1][q].es, j + 1, Entry(sep, ChildRid(fresh')));
            forall x :: 0 <= x < |es| ==> ParentIs(pages, es[x].rid.pageNo, tower[i + 1][q].page)
  {
    var lv := tower[i + 1];
    var es := InsertAt(lv[q].es, j + 1, Entry(sep, ChildRid(fresh')));
    forall x | 0 <= x < |es| ensures ParentIs(pages, es[x].rid.pageNo, lv[q].page) {
      if x <= j { assert ParentIs(pages, lv[q].es[x].rid.pageNo, lv[q].page); }
      if x > j + 1 { assert ParentIs(pages, lv[q].es[x - 1].rid.pageNo, lv[q].page); }
    }
  }

  lemma {:induction false} LeafInsertState(order: nat, pages: Pages, tower: seq<Level>, numPages: int, m: nat, e: Entry, idx: nat)
    requires Wf(order, tower) && Rep(pages, tower, numPages)
    requires CoversAt(tower, 0, m, e.key)
    requires LowerBoundAt(tower[0][m].es, e.key, idx)
    requires e.key !in AsMap(Flat(tower[0]))
    ensures var es := InsertAt(tower[0][m].es, idx, e);
            var t := SetNode(tower, 0, m, es);
            var p := tower[0][m].page;
            && p in pages
            && Rep(pages[p := pages[p].(es := es)], t, numPages)
            && StrictFrom(Flat(t[0]), 0)
            && AsMap(Flat(t[0])) == AsMap(Flat(tower[0]))[e.key := e.rid]
            && |t[|t| - 1]| == 1
            && LinksExcept(t, -1)
            && SizesExcept(order, t, 0, m)
            && (|es| != order ==> Wf(order, t))
            && |es| <= order
  {
    var es := InsertAt(tower[0][m].es, idx, e);
    LeafInsert(order, tower, m, e, idx);
    RepSetNode(pages, tower, numPages, 0, m, es);
    assert SizeOK(order, tower, 0, tower[0][m]);
    if |es| != order { SizesClose(order, SetNode(tower, 0, m, es), 0, m); }
  }

  lemma {:induction false} LastLeafIff(pages: Pages, tower: seq<Level>, numPages: int, m: nat)
    requires Rep(pages, tower, numPages) && m < |tower[0]|
    ensures tower[0][m].page == tower[0][|tower[0]| - 1].page ==> m == |tower[0]| - 1
  {}

  lemma {:induction false} SplitLast(tower: seq<Level>, m: nat, h: nat, fresh': int)
    requires |tower| >= 1 && m < |tower[0]| && h <= |tower[0][m].es|
    ensures var lv := SplitNode(tower, 0, m, h, fresh')[0];
            && |lv| == |tower[0]| + 1
            && lv[|lv| - 1].page == if m == |tower[0]| - 1 then fresh' else tower[0][|tower[0]| - 1].page
  {}

  ghost function LinkedPages(pages: Pages, node: int, newNode: int): Pages
    requires node in pages && pages[node].nextLeaf in pages
  {
    var next := pages[node].nextLeaf;
    var p1 := pages[newNode := IxPage(pages[node].parent, true, node, next, [])];
    var p2 := p1[node := p1[node].(nextLeaf := newNode)];
    p2[next := p2[next].(prevLeaf := newNode)]
  }

  lemma {:induction false} LinkedFacts(pages: Pages, node: int, newNode: int)
    requires node in pages && pages[node].nextLeaf in pages && newNode !in pages && pages[node].isLeaf
    ensures var p := LinkedPages(pages, node, newNode);
            && node in p && newNode in p && p[node].es == pages[node].es && p[newNode].isLeaf
  {}

  lemma {:induction false} LeafPagesAgree(before: Pages, n: Node, h: nat, newNode: int)
    requires n.page in before && before[n.page].es == n.es && h <= |n.es| && before[n.page].isLeaf
    requires newNode !in before && before[n.page].nextLeaf in before
    ensures var p := LinkedPages(before, n.page, newNode);
            && n.page in p && newNode in p
            && p[newNode := p[newNode].(es := n.es[h..])][n.page := p[n.page].(es := n.es[..h])] == SplitLeafPages(before, n, h, newNode)
  {}

  /** The two pages of a new index. */
  lemma {:induction false} FreshRep(pages: Pages)
    requires pages == map[
      LEAF_HEADER_PAGE := IxPage(NO_PAGE, true, INIT_ROOT_PAGE, INIT_ROOT_PAGE, []),
      INIT_ROOT_PAGE := IxPage(NO_PAGE, true, LEAF_HEADER_PAGE, LEAF_HEADER_PAGE, [])]
    ensures Rep(pages, [[Node(INIT_ROOT_PAGE, [])]], 3)
  {
    var n := Node(INIT_ROOT_PAGE, []);
    assert NodeStored(pages, n, true) && ParentIs(pages, n.page, NO_PAGE);
  }

  lemma {:induction false} FreshWf(order: nat)
    requires order >= 4
    ensures Wf(order, [[Node(INIT_ROOT_PAGE, [])]]) && Flat([Node(INIT_ROOT_PAGE, [])]) == []
  {
    FlatOne(Node(INIT_ROOT_PAGE, []));
  }

  /** The pages after a split of node m of level i. */
  ghost function SplitPages(pages: Pages, tower: seq<Level>, numPages: int, i: nat, m: nat): Pages
    requires i < |tower| && m < |tower[i]| && tower[i][m].page in pages
  {
    var n := tower[i][m];
    var h := |n.es| / 2;
    var o := pages[n.page];
    if i == 0 then SplitLeafPages(pages, n, h, numPages)
    else Adopt(pages[numPages := IxPage(o.parent, false, 0, 0, n.es[h..])][n.page := o.(es := n.es[..h])], n.es[h..], numPages)
  }

  lemma {:induction false} SplitState(order: nat, pages: Pages, tower: seq<Level>, numPages: int, i: nat, m: nat)
    requires Rep(pages, tower, numPages) && numPages > INIT_ROOT_PAGE
    requires order >= 4 && i < |tower| && m < |tower[i]| && |tower[i][m].es| == order
    requires |tower[|tower| - 1]| == 1
    requires StrictFrom(Flat(tower[0]), 0)
    requires LinksExcept(tower, -1) && SizesExcept(order, tower, i, m)
    ensures var n := tower[i][m];
            var t := SplitNode(tower, i, m, order / 2, numPages);
            && n.page in pages
            && var p2 := SplitPages(pages, tower, numPages, i, m);
            && Rep(p2, t, numPages + 1)
            && InGap(order, t, i, m, n.es[order / 2].key, numPages)
            && Flat(t[0]) == Flat(tower[0])
            && n.page in p2 && numPages in p2 && p2[numPages].parent == p2[n.page].parent
            && p2[numPages].es == n.es[order / 2..]
  {
    SplitGap(order, tower, i, m, numPages);
    SplitReady(pages, tower, numPages, i, m);
    if i == 0 {
      SplitLeafRep(pages, tower, numPages, m, order / 2);
    } else {
      SplitInnerRep(pages, tower, numPages, i, m, order / 2);
      SplitInnerTop(pages, tower, numPages, i, m, order / 2);
    }
    hide Rep, InGap, LinksExcept, SizesExcept, StrictFrom, SplitNode, Flat;
  }

  lemma {:induction false} SplitCorners(tower: seq<Level>, i: nat, m: nat, h: nat, fresh': int)
    requires i < |tower| && m < |tower[i]| && h <= |tower[i][m].es|
    requires |tower[|tower| - 1]| > 0 && |tower[0]| > 0
    ensures var t := SplitNode(tower, i, m, h, fresh');
            && |t| == |tower| && |t[0]| > 0 && |t[|t| - 1]| > 0 && m < |t[i]|
            && t[0][0].page == tower[0][0].page && t[|t| - 1][0].page == tower[|tower| - 1][0].page
            && t[i][m].page == tower[i][m].page
  {}

  lemma {:induction false} SplitReady(pages: Pages, tower: seq<Level>, numPages: int, i: nat, m: nat)
    requires Rep(pages, tower, numPages) && LinksExcept(tower, -1)
    requires i < |tower| && m < |tower[i]|
    ensures NodeStored(pages, tower[i][m], i == 0)
    ensures forall p :: p in pages ==> 0 < p < numPages
    ensures i == 0 ==> pages[tower[i][m].page].nextLeaf in pages
    ensures i > 0 ==> forall j :: 0 <= j < |tower[i][m].es| ==> tower[i][m].es[j].rid.pageNo in pages
  {
    assert NodeStored(pages, tower[i][m], i == 0);
    if i > 0 {
      SplitInnerChildren(pages, tower, numPages, i, m);
    } else {
      assert RingLink(pages, tower[0], m + 1);
      assert RingLink(pages, tower[0], if m + 1 == |tower[0]| then 0 else m + 2);
    }
  }

  /** The children of an internal node are stored pages. */
  lemma {:induction false} SplitInnerChildren(pages: Pages, tower: seq<Level>, numPages: int, i: nat, m: nat)
    requires Rep(pages, tower, numPages) && LinksExcept(tower, -1)
    requires 0 < i < |tower| && m < |tower[i]|
    ensures forall j :: 0 <= j < |tower[i][m].es| ==>
              tower[i][m].es[j].rid.pageNo in pages
  {
    forall j | 0 <= j < |tower[i][m].es|
      ensures tower[i][m].es[j].rid.pageNo in pages
    {
      assert ParentIs(pages, tower[i][m].es[j].rid.pageNo, tower[i][m].page);
    }
  }

  // ---------- delete ----------

  lemma {:induction false} RootIsPage(pages: Pages, tower: seq<Level>, numPages: int)
    requires Rep(pages, tower, numPages) && |tower[|tower| - 1]| > 0
    ensures tower[|tower| - 1][0].page >= INIT_ROOT_PAGE
  {}

  lemma {:induction false} RootFits(order: nat, tower: seq<Level>, i: nat)
    requires Short(order, tower, i, 0) && i + 1 == |tower|
    requires if i == 0 then |tower[i][0].es| > 0 else |tower[i][0].es| != 1
    ensures Wf(order, tower)
  {
    SizesClose(order, tower, i, 0);
  }

  lemma {:induction false} EnoughLeft(order: nat, tower: seq<Level>, i: nat, m: nat)
    requires Short(order, tower, i, m) && i + 1 < |tower| && |tower[i][m].es| >= order / 2
    ensures SizesExcept(order, tower, -1, -1) && PatchAt(tower, i, m)
  {
    SizesClose(order, tower, i, m);
    PatchFromLinks(tower, i, m);
  }

  /** A node has leaf links exactly when it is a leaf. */
  lemma {:induction false} RingFacts(pages: Pages, tower: seq<Level>, numPages: int, i: nat, m: nat)
    requires Rep(pages, tower, numPages) && i < |tower| && m < |tower[i]| && tower[i][m].page in pages
    ensures i > 0 ==> pages[tower[i][m].page].prevLeaf == pages[tower[i][m].page].nextLeaf == FILE_HDR_PAGE
    ensures i == 0 ==> pages[tower[i][m].page].prevLeaf != FILE_HDR_PAGE && pages[tower[i][m].page].nextLeaf != FILE_HDR_PAGE
  {
    assert NodeStored(pages, tower[i][m], i == 0);
    if i == 0 { assert RingLink(pages, tower[0], m + 1); }
  }

  lemma {:induction false} MergeRing(pages: Pages, tower: seq<Level>, numPages: int, l: nat)
    requires Rep(pages, tower, numPages) && l + 1 < |tower[0]|
    ensures var p := tower[0][l + 1].page;
            && p in pages && pages[p].prevLeaf == tower[0][l].page != p
            && pages[p].prevLeaf in pages && pages[p].nextLeaf in pages
  {
    assert NodeStored(pages, tower[0][l + 1], true) && NodeStored(pages, tower[0][l], true);
    assert RingLink(pages, tower[0], l + 2);
    assert RingLink(pages, tower[0], if l + 2 == |tower[0]| then 0 else l + 3);
  }

  lemma {:induction false} ParentSize(order: nat, tower: seq<Level>, m: nat, q: nat)
    requires Short(order, tower, 0, m) && |tower| > 1 && q < |tower[1]|
    ensures |tower| > 2 ==> |tower[1][q].es| >= order / 2
  {
    assert SizeOK(order, tower, 1, tower[1][q]);
  }

  lemma {:induction false} MergeLast(tower: seq<Level>, l: nat, q: nat, j: nat)
    requires |tower| > 1 && l + 1 < |tower[0]| && q < |tower[1]| && j < |tower[1][q].es|
    ensures var t := MergeTower(tower, l, q, j);
            && |t| == |tower| && |t[0]| == |tower[0]| - 1 && |t[|t| - 1]| == |tower[|tower| - 1]|
            && t[0][0].page == tower[0][0].page
            && (|tower[|tower| - 1]| > 0 ==> t[|t| - 1][0].page == tower[|tower| - 1][0].page)
            && t[0][|t[0]| - 1].page == if l + 2 == |tower[0]| then tower[0][l].page else tower[0][|tower[0]| - 1].page
  {}

  // ---------- cursors ----------

  lemma {:induction false} FirstLeafFull(order: nat, tower: seq<Level>)
    requires Wf(order, tower) && |tower[0]| > 0
    ensures |tower[0]| > 1 ==> |tower[0][0].es| > 0
  {
    assert SizeOK(order, tower, 0, tower[0][0]);
  }

  lemma {:induction false} LeafNotEmpty(order: nat, tower: seq<Level>, c: nat)
    requires Wf(order, tower) && c < |tower[0]| && Flat(tower[0]) != []
    ensures |tower[0][c].es| > 0
  {
    assert SizeOK(order, tower, 0, tower[0][c]);
    if |tower[0]| == 1 {
      FlatAt(tower[0], 0);
      assert tower[0][..0] == [] && tower[0][1..] == [];
    }
  }

  lemma {:induction false} EmptyTree(order: nat, tower: seq<Level>)
    requires Wf(order, tower) && |tower[0]| > 0 && Flat(tower[0]) == []
    ensures |tower[0]| == 1 && tower[0][0].es == []
  {
    FlatAt(tower[0], 0);
    FirstLeafFull(order, tower);
  }

  lemma {:induction false} LowerBoundFlat(tower: seq<Level>, m: nat, key: int, idx: nat)
    requires |tower| >= 1 && StrictFrom(Flat(tower[0]), 0) && LinksExcept(tower, -1)
    requires CoversAt(tower, 0, m, key) && LowerBoundAt(tower[0][m].es, key, idx)
    ensures LowerBoundAt(Flat(tower[0]), key, Off(tower[0], m) + idx)
  {
    LeafBounds(tower, m, key);
    FlatAt(tower[0], m);
    var f, a, es, b := Flat(tower[0]), Flat(tower[0][..m]), tower[0][m].es, Flat(tower[0][m + 1..]);
    hide StrictFrom, LinksExcept, Flat;
    forall x | 0 <= x < |f| ensures if x < |a| + idx then f[x].key < key else key <= f[x].key {
      if x < |a| { assert f[x] == a[x]; }
      else if x < |a| + |es| { assert f[x] == es[x - |a|]; }
      else { assert f[x] == b[x - |a| - |es|]; }
    }
  }
}
