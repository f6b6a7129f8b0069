/** Whole runs of inserts and deletes against the map they stand for. */
module IxRuns {
  import opened Defs
  import opened Arith
  import opened Tower
  import opened IxPages
  import opened IxDeleteSteps
  import opened IxIndex

  datatype Op = Put(key: int, rid: Rid) | Remove(key: int)

  /** A present key keeps its record id; removing an absent key does nothing. */
  function MapStep(m: map<int, Rid>, op: Op): map<int, Rid> {
    match op
    case Put(k, rid) => if k in m then m else m[k := rid]
    case Remove(k) => m - {k}
  }

  function MapRun(ops: seq<Op>): map<int, Rid> {
    if ops == [] then map[] else MapStep(MapRun(ops[..|ops| - 1]), ops[|ops| - 1])
  }

  lemma {:induction false} MapRunNext(ops: seq<Op>, i: nat)
    requires i < |ops|
    ensures MapRun(ops[..i + 1]) == MapStep(MapRun(ops[..i]), ops[i])
  {
    assert ops[..i + 1][..i] == ops[..i];
  }

  lemma {:induction false} MapRunNone()
    ensures MapRun([]) == map[]
  {}

  /** Fewer keys than this fit in a tree of two levels. */
  function Ample(order: nat): nat { 2 * (order / 2) * (order / 2) }

  // ---------- how many keys a starved index must hold ----------

  lemma {:induction false} AsMapSplit(f: seq<Entry>, k: int)
    requires StrictFrom(f, 0) && f != []
    ensures StrictFrom(f[..|f| - 1], 0)
    ensures k in AsMap(f) <==> k in AsMap(f[..|f| - 1]) || k == f[|f| - 1].key
    ensures f[|f| - 1].key !in AsMap(f[..|f| - 1])
  {
    hide AsMap;
    var n := |f| - 1;
    var front := f[..n];
    if k in AsMap(f) {
      var x := AsMapOnly(f, k);
      if x < n { AsMapHas(front, x); }
    }
    if k in AsMap(front) {
      var x := AsMapOnly(front, k);
      AsMapHas(f, x);
    }
    if f[n].key in AsMap(front) { var x := AsMapOnly(front, f[n].key); }
    AsMapHas(f, n);
  }

  lemma {:induction false} AsMapSize(f: seq<Entry>)
    requires StrictFrom(f, 0)
    ensures |AsMap(f).Keys| == |f|
  {
    if f == [] {
      assert AsMap(f).Keys == {};
    } else {
      AsMapSize(f[..|f| - 1]);
      AsMapGrow(f);
    }
  }

  lemma {:induction false} AsMapGrow(f: seq<Entry>)
    requires StrictFrom(f, 0) && f != []
    ensures |AsMap(f).Keys| == |AsMap(f[..|f| - 1]).Keys| + 1
  {
    hide AsMap, StrictFrom;
    AsMapSplit(f, 0);
    var n := |f| - 1;
    var a, b := AsMap(f).Keys, AsMap(f[..n]).Keys;
    forall k ensures k in a <==> k in b + {f[n].key} { AsMapSplit(f, k); }
    assert a == b + {f[n].key};
  }

  /** A level whose nodes hold at least k entries each. */
  lemma {:induction false} FlatMin(lv: Level, k: nat)
    requires forall m :: 0 <= m < |lv| ==> |lv[m].es| >= k
    ensures |Flat(lv)| >= |lv| * k
  {
    if lv != [] {
      FlatMin(lv[..|lv| - 1], k);
      assert (|lv| - 1) * k + k == |lv| * k;
    }
  }

  /** Below the root every level has at least two nodes. */
  lemma {:induction false} TwoNodes(order: nat, tower: seq<Level>, i: nat)
    requires Wf(order, tower) && i + 1 < |tower|
    ensures |tower[i]| >= 2
    decreases |tower| - i
  {
    assert LinkAt(tower, i);
    if i + 2 == |tower| {
      assert SizeOK(order, tower, i + 1, tower[i + 1][0]);
      assert tower[i + 1] == [tower[i + 1][0]];
      FlatAt(tower[i + 1], 0);
    } else {
      TwoNodes(order, tower, i + 1);
      LevelSize(order, tower, i + 1);
      assert 2 * (order / 2) <= |tower[i + 1]| * (order / 2) by { MulMonotone(2, |tower[i + 1]|, order / 2); }
    }
  }

  lemma {:induction false} LevelSize(order: nat, tower: seq<Level>, i: nat)
    requires Wf(order, tower) && i + 1 < |tower|
    ensures |Flat(tower[i])| >= |tower[i]| * (order / 2)
  {
    var lv := tower[i];
    forall m | 0 <= m < |lv| ensures |lv[m].es| >= order / 2 { assert SizeOK(order, tower, i, tower[i][m]); }
    FlatMin(lv, order / 2);
  }

  /** A tree of three levels holds at least twice the square of half the order. */
  lemma {:induction false} StarvedIsLarge(order: nat, tower: seq<Level>, key: int)
    requires Wf(order, tower) && DeleteStarves(order, tower, key)
    ensures |Flat(tower[0])| >= Ample(order)
  {
    var h := order / 2;
    assert |tower| > 2;
    TwoNodes(order, tower, 1);
    LevelSize(order, tower, 1);
    MulMonotone(2, |tower[1]|, h);
    assert LinkAt(tower, 0);
    LevelSize(order, tower, 0);
    MulMonotone(2 * h, |tower[0]|, h);
  }

  /** An index with fewer keys than that can always complete a delete. */
  lemma {:induction false} SmallIndexDeletes(ix: IxIndexHandle, key: int)
    requires ix.Valid() && |ix.Contents()| < Ample(ix.order)
    ensures !DeleteStarves(ix.order, ix.tower, key)
  {
    AsMapSize(Flat(ix.tower[0]));
    assert |ix.Contents()| == |ix.Contents().Keys|;
    if DeleteStarves(ix.order, ix.tower, key) { StarvedIsLarge(ix.order, ix.tower, key); }
  }

  // ---------- runs ----------

  /** One operation.  It is not completed when it deletes the only key, or from an index with many keys. */
  method Perform(ix: IxIndexHandle, op: Op) returns (ok: bool)
    requires ix.Valid()
    modifies ix
    ensures ok ==> ix.Valid() && ix.Contents() == MapStep(old(ix.Contents()), op)
    ensures !ok ==> op.Remove? && var m := old(ix.Contents()); op.key in m && (m.Keys == {op.key} || |m| >= Ample(ix.order))
  {
    hide Rep, Wf, AsMap, Flat, DeleteStarves, Ample, IxIndexHandle.InsertedAt, IxIndexHandle.DeletedAt;
    ix.HasRoot();
    match op {
      case Put(key, rid) =>
        var _ := ix.InsertEntry(key, rid);
      case Remove(key) =>
        ghost var m := ix.Contents();
        if |m| < Ample(ix.order) { SmallIndexDeletes(ix, key); }
        var r := ix.DeleteEntry(key);
        if r == SiblingFault { return false; }
        if ix.Valid() { ix.HasRoot(); }
        if ix.root == NO_PAGE { return false; }
        assert m - {key} == MapStep(m, op);
    }
    return true;
  }

  /**
   * A run from an empty index.  Either every operation completes and the index is the map of the run,
   * or it stops at a delete of the only key, or at a delete in an index with many keys.
   */
  method Replay(order: nat, ops: seq<Op>) returns (ix: IxIndexHandle, done: nat)
    requires order >= 4
    ensures done <= |ops|
    ensures done == |ops| ==> ix.Valid() && ix.Contents() == MapRun(ops)
    ensures done < |ops| ==> ops[done].Remove? && var m := MapRun(ops[..done]);
              ops[done].key in m && (m.Keys == {ops[done].key} || |m| >= Ample(order))
  {
    hide Rep, Wf, AsMap, Flat, DeleteStarves, MapRun, MapStep, Ample, IxIndexHandle.Stable;
    MapRunNone();
    ix := new IxIndexHandle(order);
    done := 0;
    assert ops[..0] == [];
    while done < |ops|
      invariant done <= |ops| && fresh(ix) && ix.order == order
      invariant ix.Valid() && ix.Contents() == MapRun(ops[..done])
    {
      MapRunNext(ops, done);
      var ok := Perform(ix, ops[done]);
      if !ok { return; }
      done := done + 1;
    }
    assert ops[..done] == ops;
  }
}
