/** The leaf cursor IxScan: next and rid, and a whole run from one cursor to another. */
module IxScans {
  import opened Defs
  import opened Tower
  import opened IxPages
  import opened IxIndex

  datatype ScanResult = Visited(rids: seq<Rid>) | NoSuchEntry

  ghost function RidsOf(f: seq<Entry>): seq<Rid> { seq(|f|, i requires 0 <= i < |f| => f[i].rid) }

  /** A run from `lower` to `upper` meets `upper` without leaving the entries. */
  ghost predicate Reaches(ih: IxIndexHandle, lower: Iid, ml: nat, upper: Iid, mu: nat)
    requires ih.CursorAt(lower, ml) && |ih.tower| > 0 && mu < |ih.tower[0]| && upper.slotNo >= 0
    reads ih
  {
    lower == upper ||
    (ih.Settled(lower, ml) && ih.CursorAt(upper, mu) && ih.Settled(upper, mu)
     && ih.PosAt(ml, lower.slotNo) <= ih.PosAt(mu, upper.slotNo))
  }

  class IxScan {
    const ih: IxIndexHandle
    var iid: Iid
    const end: Iid
    /** The leaf the cursor is in. */
    ghost var leaf: nat

    ghost predicate Valid()
      reads this, ih
    {
      ih.Valid() && ih.CursorAt(iid, leaf)
    }

    ghost function Pos(): nat
      requires Valid()
      reads this, ih
    {
      ih.PosAt(leaf, iid.slotNo)
    }

    constructor (handle: IxIndexHandle, lower: Iid, upper: Iid, ghost m: nat)
      requires handle.Valid() && handle.CursorAt(lower, m)
      ensures Valid() && ih == handle && iid == lower && end == upper && leaf == m
    {
      ih, iid, end, leaf := handle, lower, upper, m;
    }

    /** IxScan::next: step to the next entry, following the leaf ring. */
    method Next()
      requires Valid() && iid.slotNo < |ih.tower[0][leaf].es|
      modifies this
      ensures Valid() && ih.Settled(iid, leaf)
      ensures Pos() == old(Pos()) + 1
    {
      NextFacts(ih.order, ih.pages, ih.tower, ih.numPages, leaf);
      hide Rep, Wf;
      var size := |ih.pages[iid.pageNo].es|;
      var next := ih.pages[iid.pageNo].nextLeaf;
      iid := Iid(iid.pageNo, iid.slotNo + 1);
      if iid.pageNo != ih.lastLeaf && iid.slotNo == size {
        iid := Iid(next, 0);
        leaf := leaf + 1;
      }
    }
  }

  lemma {:induction false} NextFacts(order: nat, pages: Pages, tower: seq<Level>, numPages: int, m: nat)
    requires Rep(pages, tower, numPages) && Wf(order, tower) && m < |tower[0]|
    ensures NodeStored(pages, tower[0][m], true)
    ensures tower[0][m].page == tower[0][|tower[0]| - 1].page <==> m == |tower[0]| - 1
    ensures m + 1 < |tower[0]| ==> pages[tower[0][m].page].nextLeaf == tower[0][m + 1].page && |tower[0][m + 1].es| > 0
    ensures Off(tower[0], m + 1) == Off(tower[0], m) + |tower[0][m].es|
  {
    assert NodeStored(pages, tower[0][m], true);
    assert RingLink(pages, tower[0], m + 1);
    FlatAt(tower[0], m);
    if m + 1 < |tower[0]| { assert SizeOK(order, tower, 0, tower[0][m + 1]); }
  }

  /** Different settled cursors are at different positions. */
  lemma {:induction false} CursorUnique(order: nat, pages: Pages, tower: seq<Level>, numPages: int, m: nat, x: nat, m': nat, x': nat)
    requires Rep(pages, tower, numPages) && Wf(order, tower)
    requires m < |tower[0]| && m' < |tower[0]|
    requires x < |tower[0][m].es| || (x == |tower[0][m].es| && m == |tower[0]| - 1)
    requires x' < |tower[0][m'].es| || (x' == |tower[0][m'].es| && m' == |tower[0]| - 1)
    ensures Off(tower[0], m) + x == Off(tower[0], m') + x' <==> tower[0][m].page == tower[0][m'].page && x == x'
  {
    var lv := tower[0];
    FlatAt(lv, m);
    FlatAt(lv, m');
    if m < m' { OffWeak(lv, m + 1, m'); }
    if m' < m { OffWeak(lv, m' + 1, m); }
  }

  /** The loop every user of IxScan runs: read the rid, step, until the end cursor is met. */
  method Collect(ih: IxIndexHandle, lower: Iid, upper: Iid, ghost ml: nat, ghost mu: nat) returns (r: ScanResult)
    requires ih.Valid() && ih.CursorAt(lower, ml)
    requires mu < |ih.tower[0]| && upper.pageNo == ih.tower[0][mu].page && upper.slotNo >= 0
    ensures r.Visited? <==> Reaches(ih, lower, ml, upper, mu)
    ensures r.Visited? && lower == upper ==> r.rids == []
    ensures r.Visited? && lower != upper ==>
              ih.PosAt(ml, lower.slotNo) <= ih.PosAt(mu, upper.slotNo) <= |Flat(ih.tower[0])|
              && r.rids == RidsOf(Flat(ih.tower[0])[ih.PosAt(ml, lower.slotNo)..ih.PosAt(mu, upper.slotNo)])
  {
    hide Rep, Wf, NotPassed, Reaches, RidsOf, Flat;
    var scan := new IxScan(ih, lower, upper, ml);
    ghost var f := Flat(ih.tower[0]);
    ghost var pl := ih.PosAt(ml, lower.slotNo);
    var rids: seq<Rid> := [];
    CursorInside(ih, lower, ml);
    RidsOfEmpty(f, pl);
    while scan.iid != scan.end
      invariant scan.Valid() && scan.ih == ih && scan.end == upper && fresh(scan)
      invariant pl <= scan.Pos() <= |f|
      invariant rids == RidsOf(f[pl..scan.Pos()])
      invariant scan.Pos() == pl ==> scan.iid == lower && scan.leaf == ml
      invariant scan.Pos() > pl ==> ih.Settled(scan.iid, scan.leaf) && ih.Settled(lower, ml) && lower != upper
                                    && NotPassed(ih, upper, mu, pl, scan.Pos())
      decreases |f| - scan.Pos()
    {
      var rid := ih.GetRid(scan.iid, scan.leaf);
      if rid == LookupThrown {
        StuckMeansUnreachable(ih, lower, ml, upper, mu, scan.iid, scan.leaf, pl);
        return NoSuchEntry;
      }
      StepFacts(ih, upper, mu, pl, scan.iid, scan.leaf);
      ghost var before := scan.Pos();
      rids := rids + [rid.rid];
      scan.Next();
      CursorInside(ih, scan.iid, scan.leaf);
      RidsOfSnoc(f, pl, before);
    }
    r := Visited(rids);
    EndReached(ih, lower, ml, upper, mu, scan.iid, scan.leaf);
  }

  lemma {:induction false} RidsOfEmpty(f: seq<Entry>, p: nat)
    requires p <= |f|
    ensures RidsOf(f[p..p]) == []
  {}

  lemma {:induction false} RidsOfSnoc(f: seq<Entry>, p: nat, q: nat)
    requires p <= q < |f|
    ensures RidsOf(f[p..q + 1]) == RidsOf(f[p..q]) + [f[q].rid]
  {}

  /** No settled position in [from, to) is where `upper` sits. */
  ghost predicate NotPassed(ih: IxIndexHandle, upper: Iid, mu: nat, from: nat, to: nat)
    requires ih.Valid() && mu < |ih.tower[0]| && upper.slotNo >= 0
    reads ih
  {
    ih.CursorAt(upper, mu) && ih.Settled(upper, mu) ==>
      ih.PosAt(mu, upper.slotNo) < from || to <= ih.PosAt(mu, upper.slotNo)
  }

  lemma {:induction false} CursorInside(ih: IxIndexHandle, iid: Iid, m: nat)
    requires ih.Valid() && ih.CursorAt(iid, m)
    ensures ih.PosAt(m, iid.slotNo) <= |Flat(ih.tower[0])|
    ensures iid.slotNo < |ih.tower[0][m].es| ==>
              && ih.PosAt(m, iid.slotNo) < |Flat(ih.tower[0])|
              && Flat(ih.tower[0])[ih.PosAt(m, iid.slotNo)] == ih.tower[0][m].es[iid.slotNo]
  {
    FlatAt(ih.tower[0], m);
    if iid.slotNo < |ih.tower[0][m].es| { FlatIndex(ih.tower[0], m, iid.slotNo); }
  }

  lemma {:induction false} StepFacts(ih: IxIndexHandle, upper: Iid, mu: nat, pl: nat, iid: Iid, m: nat)
    requires ih.Valid() && ih.CursorAt(iid, m) && iid.slotNo < |ih.tower[0][m].es| && iid != upper
    requires mu < |ih.tower[0]| && upper.pageNo == ih.tower[0][mu].page && upper.slotNo >= 0
    requires pl <= ih.PosAt(m, iid.slotNo)
    requires ih.PosAt(m, iid.slotNo) > pl ==> NotPassed(ih, upper, mu, pl, ih.PosAt(m, iid.slotNo))
    ensures NotPassed(ih, upper, mu, pl, ih.PosAt(m, iid.slotNo) + 1)
    ensures ih.PosAt(m, iid.slotNo) < |Flat(ih.tower[0])|
    ensures Flat(ih.tower[0])[ih.PosAt(m, iid.slotNo)] == ih.tower[0][m].es[iid.slotNo]
  {
    CursorInside(ih, iid, m);
    if ih.CursorAt(upper, mu) && ih.Settled(upper, mu) {
      CursorUnique(ih.order, ih.pages, ih.tower, ih.numPages, m, iid.slotNo, mu, upper.slotNo);
    }
  }

  lemma {:induction false} StuckMeansUnreachable(ih: IxIndexHandle, lower: Iid, ml: nat, upper: Iid, mu: nat,
                                                 iid: Iid, m: nat, pl: nat)
    requires ih.Valid() && ih.CursorAt(lower, ml) && ih.CursorAt(iid, m) && pl == ih.PosAt(ml, lower.slotNo)
    requires mu < |ih.tower[0]| && upper.pageNo == ih.tower[0][mu].page && upper.slotNo >= 0
    requires iid != upper && iid.slotNo == |ih.tower[0][m].es|
    requires pl <= ih.PosAt(m, iid.slotNo)
    requires ih.PosAt(m, iid.slotNo) == pl ==> iid == lower && m == ml
    requires ih.PosAt(m, iid.slotNo) > pl ==>
               (ih.Settled(iid, m) && lower != upper && NotPassed(ih, upper, mu, pl, ih.PosAt(m, iid.slotNo)))
    ensures !Reaches(ih, lower, ml, upper, mu)
  {
    if ih.Settled(iid, m) && ih.CursorAt(upper, mu) && ih.Settled(upper, mu) {
      CursorUnique(ih.order, ih.pages, ih.tower, ih.numPages, m, iid.slotNo, mu, upper.slotNo);
      FlatAt(ih.tower[0], m);
      assert ih.tower[0][m + 1..] == [];
      CursorInside(ih, upper, mu);
    }
  }

  lemma {:induction false} EndReached(ih: IxIndexHandle, lower: Iid, ml: nat, upper: Iid, mu: nat, iid: Iid, m: nat)
    requires ih.Valid() && ih.CursorAt(lower, ml) && ih.CursorAt(iid, m) && iid == upper
    requires mu < |ih.tower[0]| && upper.pageNo == ih.tower[0][mu].page && upper.slotNo >= 0
    requires ih.PosAt(m, iid.slotNo) > ih.PosAt(ml, lower.slotNo) ==> ih.Settled(iid, m) && ih.Settled(lower, ml)
    requires ih.PosAt(m, iid.slotNo) == ih.PosAt(ml, lower.slotNo) ==> iid == lower
    requires ih.PosAt(m, iid.slotNo) >= ih.PosAt(ml, lower.slotNo)
    ensures m == mu && Reaches(ih, lower, ml, upper, mu)
    ensures ih.PosAt(ml, lower.slotNo) <= ih.PosAt(mu, upper.slotNo) <= |Flat(ih.tower[0])|
  {
    CursorInside(ih, iid, m);
  }

  /** A full scan visits every entry of the index exactly once, in ascending key order. */
  method ScanAll(ih: IxIndexHandle) returns (r: ScanResult)
    requires ih.Valid() || ih.Dead()
    ensures ih.Dead() ==> r == Visited([])
    ensures ih.Valid() ==> r == Visited(RidsOf(Flat(ih.tower[0])))
    ensures ih.Valid() ==> StrictFrom(Flat(ih.tower[0]), 0) && ih.Contents() == AsMap(Flat(ih.tower[0]))
  {
    var lower := ih.LeafBegin();
    var upper := ih.LeafEnd();
    if ih.Valid() { ih.HasRoot(); }
    if ih.root == NO_PAGE {
      // the scan is at its end from the start
      assert lower == upper;
      return Visited([]);
    }
    r := Collect(ih, lower, upper, 0, |ih.tower[0]| - 1);
    hide Rep, Wf;
    assert Flat(ih.tower[0])[0..|Flat(ih.tower[0])|] == Flat(ih.tower[0]);
  }
}
