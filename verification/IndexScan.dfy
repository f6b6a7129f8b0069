/**
  IndexScanExecutor: the conditions on a prefix of the index columns become a key range, the range is
  walked with IxScan, and every row met is filtered again.
*/
module IndexScan {
  import opened Values
  import opened IxKeys
  import opened Defs
  import opened Arith
  import opened Seqs
  import opened Tower
  import opened TowerInsert
  import opened IxPages
  import opened IxDeleteSteps
  import opened IxIndex
  import opened IxScans

  type Row = seq<Val>

  /** A condition on columns of one table, with both sides of the same type. */
  datatype Condition = ConstCond(col: nat, op: CompOp, val: Val) | ColCond(col: nat, op: CompOp, rhs: nat)

  ghost predicate ValidRow(schema: seq<ColType>, row: Row) {
    && |row| == |schema|
    && forall c :: 0 <= c < |schema| ==> ValidVal(schema[c], row[c]) && Ascii(row[c])
  }

  predicate Ascii(v: Val) {
    v.Bytes? ==> forall i :: 0 <= i < |v.b| ==> v.b[i] < 128
  }

  ghost predicate ValidCond(schema: seq<ColType>, c: Condition) {
    && c.col < |schema|
    && match c
       case ConstCond(_, _, val) => ValidVal(schema[c.col], val)
       case ColCond(_, _, rhs) => rhs < |schema| && schema[rhs] == schema[c.col]
  }

  ghost predicate ValidConds(schema: seq<ColType>, conds: seq<Condition>) {
    forall i :: 0 <= i < |conds| ==> ValidCond(schema, conds[i])
  }

  /** Filter::filter_single for operands of the same type. */
  function FilterSingle(schema: seq<ColType>, c: Condition, row: Row): bool
    requires ValidRow(schema, row) && ValidCond(schema, c)
  {
    var rhs := if c.ConstCond? then c.val else row[c.rhs];
    Judge(Compare(schema[c.col], row[c.col], rhs), c.op)
  }

  /** The meaning of a conjunction of conditions. */
  ghost predicate Satisfies(schema: seq<ColType>, conds: seq<Condition>, row: Row)
    requires ValidRow(schema, row) && ValidConds(schema, conds)
  {
    forall i :: 0 <= i < |conds| ==> FilterSingle(schema, conds[i], row)
  }

  /** The row's value compares with the constant or the other column as the operator says. */
  ghost predicate CondMet(schema: seq<ColType>, c: Condition, row: Row)
    requires ValidRow(schema, row) && ValidCond(schema, c)
  {
    Meets(schema[c.col], row[c.col], c.op, if c.ConstCond? then c.val else row[c.rhs])
  }

  lemma {:induction false} SatisfiesMeans(schema: seq<ColType>, conds: seq<Condition>, row: Row)
    requires ValidRow(schema, row) && ValidConds(schema, conds)
    ensures Satisfies(schema, conds, row) <==> forall i :: 0 <= i < |conds| ==> CondMet(schema, conds[i], row)
  {
    hide Judge, Compare, Meets;
    forall i | 0 <= i < |conds| ensures FilterSingle(schema, conds[i], row) <==> CondMet(schema, conds[i], row) {
      var c := conds[i];
      OperatorMeaning(schema[c.col], row[c.col], if c.ConstCond? then c.val else row[c.rhs], c.op);
    }
  }

  /** Filter::filter. */
  method Filter(schema: seq<ColType>, conds: seq<Condition>, row: Row) returns (ok: bool)
    requires ValidRow(schema, row) && ValidConds(schema, conds)
    ensures ok == Satisfies(schema, conds, row)
    ensures ok <==> forall i :: 0 <= i < |conds| ==> CondMet(schema, conds[i], row)
  {
    SatisfiesMeans(schema, conds, row);
    var i := 0;
    while i < |conds|
      invariant 0 <= i <= |conds|
      invariant forall j :: 0 <= j < i ==> FilterSingle(schema, conds[j], row)
    {
      if !FilterSingle(schema, conds[i], row) { return false; }
      i := i + 1;
    }
    return true;
  }

  // ---------- the key range ----------

  /** Operators that bound a column from below, or from above. */
  predicate Bounds(op: CompOp, lower: bool) {
    op == OpEq || (if lower then op == OpGt || op == OpGe else op == OpLt || op == OpLe)
  }

  /** An operator bounds from below exactly when nothing less than the constant meets it, and from above exactly
      when nothing greater does. */
  lemma {:induction false} BoundsMeaning(op: CompOp)
    ensures Bounds(op, true) <==>
              forall t, a, b :: ValidVal(t, a) && ValidVal(t, b) && Meets(t, a, op, b) ==> !Less(t, a, b)
    ensures Bounds(op, false) <==>
              forall t, a, b :: ValidVal(t, a) && ValidVal(t, b) && Meets(t, a, op, b) ==> !Less(t, b, a)
  {
    forall t, a, b | ValidVal(t, a) && ValidVal(t, b) && Bounds(op, true) && Meets(t, a, op, b) ensures !Less(t, a, b) {
      LessOneWay(t, a, b);
    }
    forall t, a, b | ValidVal(t, a) && ValidVal(t, b) && Bounds(op, false) && Meets(t, a, op, b) ensures !Less(t, b, a) {
      LessOneWay(t, a, b);
    }
    assert ValidVal(IntCol, Num(0)) && ValidVal(IntCol, Num(1));
    assert Less(IntCol, Num(0), Num(1));
    assert !Bounds(op, true) ==> Meets(IntCol, Num(0), op, Num(1));
    assert !Bounds(op, false) ==> Meets(IntCol, Num(1), op, Num(0));
  }

  lemma {:induction false} LessOneWay(t: ColType, a: Val, b: Val)
    requires ValidVal(t, a) && ValidVal(t, b)
    ensures !(Less(t, a, b) && Less(t, b, a)) && !Less(t, a, a)
  {
    OperatorMeaning(t, a, b, OpLt);
    OperatorMeaning(t, a, b, OpGt);
    OperatorMeaning(t, a, a, OpLt);
    OperatorMeaning(t, a, a, OpEq);
  }

  predicate Matches(c: Condition, col: nat, lower: bool) {
    c.ConstCond? && c.col == col && Bounds(c.op, lower)
  }

  /** No index column has two constant conditions that bound it from the same side. */
  ghost predicate OneBoundPerColumn(conds: seq<Condition>, cols: seq<nat>, lower: bool) {
    forall i, j, x :: 0 <= i < j < |conds| && 0 <= x < |cols|
      ==> !(Matches(conds[i], cols[x], lower) && Matches(conds[j], cols[x], lower))
  }

  /** v is the constant of a condition that bounds the column. */
  ghost predicate BoundBy(conds: seq<Condition>, col: nat, lower: bool, v: Val) {
    exists i :: 0 <= i < |conds| && Matches(conds[i], col, lower) && conds[i].val == v
  }

  ghost predicate Unbounded(conds: seq<Condition>, col: nat, lower: bool) {
    forall i :: 0 <= i < |conds| ==> !Matches(conds[i], col, lower)
  }

  /** All constants that bound the column, in the order of the conditions. */
  ghost function Matched(conds: seq<Condition>, col: nat, lower: bool): seq<Val> {
    if conds == [] then []
    else
      var n := |conds| - 1;
      Matched(conds[..n], col, lower) + if Matches(conds[n], col, lower) then [conds[n].val] else []
  }

  /** The inner loop of beginTuple over the conditions, for one column. */
  method MatchColumn(conds: seq<Condition>, col: nat, lower: bool) returns (vals: seq<Val>)
    ensures vals == Matched(conds, col, lower)
  {
    vals := [];
    var i := 0;
    while i < |conds|
      invariant 0 <= i <= |conds| && vals == Matched(conds[..i], col, lower)
    {
      assert conds[..i + 1][..i] == conds[..i];
      if Matches(conds[i], col, lower) {
        vals := vals + [conds[i].val];
      }
      i := i + 1;
    }
    assert conds[..i] == conds;
  }

  /** A constant in the key buffer, and the place in the index of the column it was written for. */
  datatype Part = Part(val: Val, col: nat)

  function Parts(vals: seq<Val>, col: nat): seq<Part> { seq(|vals|, i requires 0 <= i < |vals| => Part(vals[i], col)) }

  function PartVals(parts: seq<Part>): seq<Val> { seq(|parts|, i requires 0 <= i < |parts| => parts[i].val) }

  /** What the outer loop gathers: all constants of column x, then those of the column as many places on. */
  ghost function Gather(conds: seq<Condition>, cols: seq<nat>, lower: bool, x: nat): seq<Part>
    decreases |cols| - x
  {
    if x >= |cols| then []
    else
      var vals := Matched(conds, cols[x], lower);
      if vals == [] then [] else Parts(vals, x) + Gather(conds, cols, lower, x + |vals|)
  }

  /** The outer loop: a column only counts while the places before it are filled. */
  method GatherBounds(conds: seq<Condition>, cols: seq<nat>, lower: bool) returns (parts: seq<Part>)
    ensures parts == Gather(conds, cols, lower, 0)
  {
    hide Matched, Gather, Parts;
    parts := [];
    var unmatched := 0;
    var idx := 0;
    assert [] + Gather(conds, cols, lower, 0) == Gather(conds, cols, lower, 0);
    while idx < |cols|
      invariant 0 <= idx <= |cols| && unmatched >= 0
      invariant parts + Gather(conds, cols, lower, unmatched) == Gather(conds, cols, lower, 0)
      invariant unmatched < idx ==> Gather(conds, cols, lower, unmatched) == []
    {
      if unmatched == idx {
        var vals := MatchColumn(conds, cols[idx], lower);
        GatherStep(conds, cols, lower, idx, parts);
        parts := parts + Parts(vals, idx);
        unmatched := unmatched + |vals|;
      }
      idx := idx + 1;
    }
    GatherPast(conds, cols, lower, unmatched);
    assert parts + [] == parts;
  }

  lemma {:induction false} GatherStep(conds: seq<Condition>, cols: seq<nat>, lower: bool, x: nat, parts: seq<Part>)
    requires x < |cols|
    ensures var vals := Matched(conds, cols[x], lower);
            && parts + Gather(conds, cols, lower, x) == parts + Parts(vals, x) + Gather(conds, cols, lower, x + |vals|)
            && (vals == [] ==> Gather(conds, cols, lower, x) == [])
  {
    hide Matched;
    var vals := Matched(conds, cols[x], lower);
    var tail := Gather(conds, cols, lower, x + |vals|);
    assert parts + (Parts(vals, x) + tail) == parts + Parts(vals, x) + tail;
    assert vals == [] ==> Parts(vals, x) == [];
  }

  lemma {:induction false} GatherPast(conds: seq<Condition>, cols: seq<nat>, lower: bool, x: nat)
    ensures x >= |cols| ==> Gather(conds, cols, lower, x) == []
  {}

  /** The constants fit in the key buffer, each where a column of its own type is. */
  predicate Placed(schema: seq<ColType>, cols: seq<nat>, parts: seq<Part>) {
    && |parts| <= |cols|
    && forall x :: 0 <= x < |parts| ==>
         parts[x].col < |cols| && cols[parts[x].col] < |schema| && cols[x] < |schema|
         && schema[cols[parts[x].col]] == schema[cols[x]]
  }

  /** prefix holds, for a longest possible prefix of the index columns, the constants that bound them. */
  ghost predicate IsBoundPrefix(conds: seq<Condition>, cols: seq<nat>, lower: bool, prefix: seq<Val>) {
    && |prefix| <= |cols|
    && (forall x :: 0 <= x < |prefix| ==> BoundBy(conds, cols[x], lower, prefix[x]))
    && (|prefix| < |cols| ==> Unbounded(conds, cols[|prefix|], lower))
  }

  lemma {:induction false} MatchedBy(conds: seq<Condition>, col: nat, lower: bool)
    ensures forall i :: 0 <= i < |Matched(conds, col, lower)| ==> BoundBy(conds, col, lower, Matched(conds, col, lower)[i])
    ensures Matched(conds, col, lower) == [] <==> Unbounded(conds, col, lower)
  {
    if conds != [] {
      var n := |conds| - 1;
      var front := conds[..n];
      MatchedBy(front, col, lower);
      var vals := Matched(conds, col, lower);
      forall i | 0 <= i < |vals| ensures BoundBy(conds, col, lower, vals[i]) {
        if i < |Matched(front, col, lower)| {
          assert BoundBy(front, col, lower, vals[i]);
          var k :| 0 <= k < |front| && Matches(front[k], col, lower) && front[k].val == vals[i];
          assert conds[k] == front[k];
        } else {
          assert Matches(conds[n], col, lower);
        }
      }
      if vals == [] {
        forall i | 0 <= i < |conds| ensures !Matches(conds[i], col, lower) { assert i < n ==> conds[i] == front[i]; }
      }
    }
  }

  /** Every gathered constant bounds the column it was written for. */
  lemma {:induction false} GatherBy(conds: seq<Condition>, cols: seq<nat>, lower: bool, x: nat)
    ensures forall i :: 0 <= i < |Gather(conds, cols, lower, x)| ==>
              var part := Gather(conds, cols, lower, x)[i];
              part.col < |cols| && BoundBy(conds, cols[part.col], lower, part.val)
    decreases |cols| - x
  {
    hide Matched, BoundBy;
    if x < |cols| {
      MatchedBy(conds, cols[x], lower);
      var vals := Matched(conds, cols[x], lower);
      if vals != [] { GatherBy(conds, cols, lower, x + |vals|); }
    }
  }

  lemma {:induction false} MatchedOnce(conds: seq<Condition>, cols: seq<nat>, x: nat, lower: bool)
    requires x < |cols| && OneBoundPerColumn(conds, cols, lower)
    ensures |Matched(conds, cols[x], lower)| <= 1
  {
    if conds != [] {
      var n := |conds| - 1;
      var front := conds[..n];
      MatchedOnce(front, cols, x, lower);
      if Matches(conds[n], cols[x], lower) {
        forall i | 0 <= i < n ensures !Matches(front[i], cols[x], lower) { assert front[i] == conds[i]; }
        MatchedBy(front, cols[x], lower);
      }
    }
  }

  /** With one bound per column and side, the constants of a prefix of the columns stand in their own places. */
  lemma {:induction false} GatherOnce(conds: seq<Condition>, cols: seq<nat>, lower: bool, x: nat)
    requires x <= |cols| && OneBoundPerColumn(conds, cols, lower)
    ensures var parts := Gather(conds, cols, lower, x);
            && x + |parts| <= |cols|
            && (forall i :: 0 <= i < |parts| ==> parts[i].col == x + i && BoundBy(conds, cols[x + i], lower, parts[i].val))
            && (x + |parts| < |cols| ==> Unbounded(conds, cols[x + |parts|], lower))
    decreases |cols| - x
  {
    hide Matched, BoundBy, Unbounded, OneBoundPerColumn;
    if x < |cols| {
      MatchedOnce(conds, cols, x, lower);
      MatchedBy(conds, cols[x], lower);
      if Matched(conds, cols[x], lower) != [] { GatherOnce(conds, cols, lower, x + 1); }
    }
  }

  lemma {:induction false} OnceIsPrefix(schema: seq<ColType>, conds: seq<Condition>, cols: seq<nat>, lower: bool)
    requires ColsIn(schema, cols) && OneBoundPerColumn(conds, cols, lower)
    ensures Placed(schema, cols, Gather(conds, cols, lower, 0))
    ensures IsBoundPrefix(conds, cols, lower, PartVals(Gather(conds, cols, lower, 0)))
  {
    hide BoundBy, Unbounded, OneBoundPerColumn, Gather;
    GatherOnce(conds, cols, lower, 0);
    var parts := Gather(conds, cols, lower, 0);
    forall x | 0 <= x < |parts| ensures parts[x].col == x && BoundBy(conds, cols[x], lower, PartVals(parts)[x]) {
      assert 0 + x == x;
    }
  }

  function Zeros(n: nat, byte: nat): seq<nat> { seq(n, i => byte) }

  /** IndexScanExecutor::fill: the least or greatest value of a column type. */
  function Fill(t: ColType, min: bool): Val {
    match t
    case IntCol => Num(if min then -INT_LIMIT else INT_LIMIT - 1)
    case BigIntCol => Num(if min then -BIGINT_LIMIT else BIGINT_LIMIT - 1)
    case StringCol(len) => Bytes(Zeros(len, if min then 0 else 127))
  }

  function KeyTypes(schema: seq<ColType>, cols: seq<nat>): seq<ColType>
    requires forall x :: 0 <= x < |cols| ==> cols[x] < |schema|
  {
    seq(|cols|, x requires 0 <= x < |cols| => schema[cols[x]])
  }

  function KeyOf(row: Row, cols: seq<nat>): seq<Val>
    requires forall x :: 0 <= x < |cols| ==> cols[x] < |row|
  {
    seq(|cols|, x requires 0 <= x < |cols| => row[cols[x]])
  }

  /** The filled-up key. */
  ghost function FullKey(schema: seq<ColType>, cols: seq<nat>, prefix: seq<Val>, lower: bool): seq<Val>
    requires |prefix| <= |cols| && forall x :: 0 <= x < |cols| ==> cols[x] < |schema|
  {
    prefix + seq(|cols| - |prefix|, x requires 0 <= x < |cols| - |prefix| => Fill(schema[cols[|prefix| + x]], lower))
  }

  method FillUp(schema: seq<ColType>, cols: seq<nat>, prefix: seq<Val>, lower: bool) returns (key: seq<Val>)
    requires |prefix| <= |cols| && forall x :: 0 <= x < |cols| ==> cols[x] < |schema|
    ensures key == FullKey(schema, cols, prefix, lower)
  {
    key := prefix;
    var idx := |prefix|;
    while idx < |cols|
      invariant |prefix| <= idx <= |cols|
      invariant |key| == idx && key[..|prefix|] == prefix
      invariant forall x :: |prefix| <= x < idx ==> key[x] == Fill(schema[cols[x]], lower)
    {
      key := key + [Fill(schema[cols[idx]], lower)];
      idx := idx + 1;
    }
  }

  // ---------- rows that pass the filter lie in the range ----------

  lemma {:induction false} BytesPointwise(a: seq<nat>, b: seq<nat>)
    requires |a| == |b| && forall i :: 0 <= i < |a| ==> a[i] <= b[i]
    ensures BytesCode(a) <= BytesCode(b)
  {
    if a != [] {
      BytesPointwise(a[1..], b[1..]);
      MulMonotone(a[0], b[0], Pow256(|a| - 1));
    }
  }

  lemma {:induction false} FillBounds(t: ColType, v: Val, min: bool)
    requires ValidVal(t, v) && Ascii(v)
    ensures ValidVal(t, Fill(t, min))
    ensures if min then Digit(t, Fill(t, min)) <= Digit(t, v) else Digit(t, v) <= Digit(t, Fill(t, min))
  {
    if t.StringCol? {
      if min { BytesPointwise(Fill(t, min).b, v.b); } else { BytesPointwise(v.b, Fill(t, min).b); }
    }
  }

  ghost predicate ColsIn(schema: seq<ColType>, cols: seq<nat>) {
    forall x :: 0 <= x < |cols| ==> cols[x] < |schema|
  }

  lemma {:induction false} RowInRange(schema: seq<ColType>, conds: seq<Condition>, cols: seq<nat>, row: Row, prefix: seq<Val>, lower: bool)
    requires ColsIn(schema, cols) && ValidRow(schema, row) && ValidConds(schema, conds)
    requires IsBoundPrefix(conds, cols, lower, prefix)
    requires Satisfies(schema, conds, row)
    ensures var key := FullKey(schema, cols, prefix, lower);
            var types := KeyTypes(schema, cols);
            && ValidKey(types, key) && ValidKey(types, KeyOf(row, cols))
            && if lower then KeyCode(types, key) <= KeyCode(types, KeyOf(row, cols))
               else KeyCode(types, KeyOf(row, cols)) <= KeyCode(types, key)
  {
    var key, types, k := FullKey(schema, cols, prefix, lower), KeyTypes(schema, cols), KeyOf(row, cols);
    forall x | 0 <= x < |cols|
      ensures ValidVal(types[x], key[x]) && ValidVal(types[x], k[x])
      ensures if lower then Digit(types[x], key[x]) <= Digit(types[x], k[x]) else Digit(types[x], k[x]) <= Digit(types[x], key[x])
    {
      if x < |prefix| {
        assert BoundBy(conds, cols[x], lower, prefix[x]);
        var i :| 0 <= i < |conds| && Matches(conds[i], cols[x], lower) && conds[i].val == prefix[x];
        assert ValidCond(schema, conds[i]);
        assert FilterSingle(schema, conds[i], row);
        DigitOrder(types[x], k[x], key[x]);
      } else {
        FillBounds(types[x], k[x], lower);
      }
    }
    if lower { PointwiseOrder(types, key, k); } else { PointwiseOrder(types, k, key); }
  }

  lemma {:induction false} FullKeyValid(schema: seq<ColType>, conds: seq<Condition>, cols: seq<nat>, lower: bool)
    requires ColsIn(schema, cols) && ValidConds(schema, conds) && Placed(schema, cols, Gather(conds, cols, lower, 0))
    ensures ValidKey(KeyTypes(schema, cols), FullKey(schema, cols, PartVals(Gather(conds, cols, lower, 0)), lower))
  {
    hide Gather;
    var parts := Gather(conds, cols, lower, 0);
    var key, types := FullKey(schema, cols, PartVals(parts), lower), KeyTypes(schema, cols);
    GatherBy(conds, cols, lower, 0);
    forall x | 0 <= x < |cols| ensures ValidVal(types[x], key[x]) {
      if x < |parts| {
        var col := cols[parts[x].col];
        var i :| 0 <= i < |conds| && Matches(conds[i], col, lower) && conds[i].val == parts[x].val;
        assert ValidCond(schema, conds[i]);
      } else {
        assert key[x] == Fill(schema[cols[x]], lower);
      }
    }
  }

  // ---------- the executor ----------

  /** KeyGarbled stands for a key buffer that was overrun or filled across column boundaries. */
  datatype ScanRows = Rows(rids: seq<Rid>) | ScanThrown | KeyGarbled

  /** Index and heap hold the same rows. */
  ghost predicate Agree(entries: map<int, Rid>, heap: map<Rid, Row>, schema: seq<ColType>, cols: seq<nat>)
    requires ColsIn(schema, cols)
  {
    && (forall rid :: rid in heap ==> ValidRow(schema, heap[rid]) && ValidKey(KeyTypes(schema, cols), KeyOf(heap[rid], cols)))
    && (forall rid :: rid in heap ==>
          var k := KeyCode(KeyTypes(schema, cols), KeyOf(heap[rid], cols));
          k in entries && entries[k] == rid)
    && (forall k :: k in entries ==>
          entries[k] in heap && k == KeyCode(KeyTypes(schema, cols), KeyOf(heap[entries[k]], cols)))
  }

  /** The leaf that covers the key holds an entry >= key, or is the last leaf. */
  ghost predicate LowerOnSlot(ih: IxIndexHandle, key: int)
    requires ih.Valid()
    reads ih
  {
    exists m: nat :: CoversAt(ih.tower, 0, m, key)
      && (m == |ih.tower[0]| - 1 || exists x :: 0 <= x < |ih.tower[0][m].es| && key <= ih.tower[0][m].es[x].key)
  }

  /** The rids of f whose rows pass, in index order. */
  ghost function Passing(f: seq<Rid>, heap: map<Rid, Row>, schema: seq<ColType>, conds: seq<Condition>): seq<Rid>
    requires ValidConds(schema, conds)
    requires forall i :: 0 <= i < |f| ==> f[i] in heap && ValidRow(schema, heap[f[i]])
  {
    if f == [] then []
    else
      var init := Passing(f[..|f| - 1], heap, schema, conds);
      if Satisfies(schema, conds, heap[f[|f| - 1]]) then init + [f[|f| - 1]] else init
  }

  method FilterRows(rids: seq<Rid>, heap: map<Rid, Row>, schema: seq<ColType>, conds: seq<Condition>) returns (out: seq<Rid>)
    requires ValidConds(schema, conds)
    requires forall i :: 0 <= i < |rids| ==> rids[i] in heap && ValidRow(schema, heap[rids[i]])
    ensures out == Passing(rids, heap, schema, conds)
  {
    out := [];
    var i := 0;
    while i < |rids|
      invariant 0 <= i <= |rids|
      invariant out == Passing(rids[..i], heap, schema, conds)
    {
      var ok := Filter(schema, conds, heap[rids[i]]);
      assert rids[..i + 1][..i] == rids[..i];
      if ok { out := out + [rids[i]]; }
      i := i + 1;
    }
    assert rids[..|rids|] == rids;
  }

  lemma {:induction false} PassingIff(f: seq<Rid>, heap: map<Rid, Row>, schema: seq<ColType>, conds: seq<Condition>, rid: Rid)
    requires ValidConds(schema, conds)
    requires forall i :: 0 <= i < |f| ==> f[i] in heap && ValidRow(schema, heap[f[i]])
    ensures rid in Passing(f, heap, schema, conds) <==> rid in f && Satisfies(schema, conds, heap[rid])
  {
    if f != [] {
      PassingIff(f[..|f| - 1], heap, schema, conds, rid);
      assert f == f[..|f| - 1] + [f[|f| - 1]];
    }
  }

  lemma {:induction false} PassingNoDup(f: seq<Rid>, heap: map<Rid, Row>, schema: seq<ColType>, conds: seq<Condition>)
    requires ValidConds(schema, conds)
    requires forall i :: 0 <= i < |f| ==> f[i] in heap && ValidRow(schema, heap[f[i]])
    requires NoDup(f)
    ensures NoDup(Passing(f, heap, schema, conds))
  {
    if f != [] {
      var init, last := f[..|f| - 1], f[|f| - 1];
      PassingNoDup(init, heap, schema, conds);
      PassingIff(init, heap, schema, conds, last);
    }
  }

  /** Every index entry points to a row, under its own key, and no two entries to the same row. */
  lemma {:induction false} EntryRow(f: seq<Entry>, heap: map<Rid, Row>, schema: seq<ColType>, cols: seq<nat>, x: nat)
    requires ColsIn(schema, cols) && StrictFrom(f, 0) && Agree(AsMap(f), heap, schema, cols) && x < |f|
    ensures f[x].key in AsMap(f) && AsMap(f)[f[x].key] == f[x].rid
    ensures f[x].rid in heap && ValidRow(schema, heap[f[x].rid])
    ensures ValidKey(KeyTypes(schema, cols), KeyOf(heap[f[x].rid], cols))
    ensures f[x].key == KeyCode(KeyTypes(schema, cols), KeyOf(heap[f[x].rid], cols))
  {
    AsMapHas(f, x);
  }

  /** The entries at positions pl to pu: their rows are in the heap, no two alike. */
  lemma {:induction false} RangeRows(f: seq<Entry>, pl: nat, pu: nat, heap: map<Rid, Row>, schema: seq<ColType>, cols: seq<nat>)
    requires ColsIn(schema, cols) && StrictFrom(f, 0) && Agree(AsMap(f), heap, schema, cols) && pl <= pu <= |f|
    ensures var rids := RidsOf(f[pl..pu]);
            && (forall i :: 0 <= i < |rids| ==> rids[i] in heap && ValidRow(schema, heap[rids[i]]))
            && NoDup(rids)
  {
    hide AsMap, KeyCode, Agree;
    var rids := RidsOf(f[pl..pu]);
    forall i | 0 <= i < |rids| ensures rids[i] in heap && ValidRow(schema, heap[rids[i]]) {
      EntryRow(f, heap, schema, cols, pl + i);
    }
    forall i, j | 0 <= i < j < |rids| ensures rids[i] != rids[j] {
      EntryRow(f, heap, schema, cols, pl + i);
      EntryRow(f, heap, schema, cols, pl + j);
      assert f[pl + i].key < f[pl + j].key;
    }
  }

  /** A row of the heap is met exactly when its entry is at one of these positions. */
  lemma {:induction false} RowMet(f: seq<Entry>, pl: nat, pu: nat, heap: map<Rid, Row>, schema: seq<ColType>, cols: seq<nat>, x: nat)
    requires ColsIn(schema, cols) && StrictFrom(f, 0) && Agree(AsMap(f), heap, schema, cols) && pl <= pu <= |f| && x < |f|
    ensures f[x].rid in RidsOf(f[pl..pu]) <==> pl <= x < pu
  {
    hide AsMap, KeyCode, Agree;
    var rids := RidsOf(f[pl..pu]);
    if pl <= x < pu { assert rids[x - pl] == f[x].rid; }
    if f[x].rid in rids {
      var i :| 0 <= i < |rids| && rids[i] == f[x].rid;
      EntryRow(f, heap, schema, cols, x);
      EntryRow(f, heap, schema, cols, pl + i);
      assert f[pl + i].key == f[x].key;
    }
  }

  lemma {:induction false} HeapRowsValid(m: map<int, Rid>, heap: map<Rid, Row>, schema: seq<ColType>, cols: seq<nat>)
    requires ColsIn(schema, cols) && Agree(m, heap, schema, cols)
    ensures forall rid :: rid in heap ==> ValidRow(schema, heap[rid]) && ValidKey(KeyTypes(schema, cols), KeyOf(heap[rid], cols))
  {}

  lemma {:induction false} RowEntry(f: seq<Entry>, heap: map<Rid, Row>, schema: seq<ColType>, cols: seq<nat>, rid: Rid)
    requires ColsIn(schema, cols) && StrictFrom(f, 0) && Agree(AsMap(f), heap, schema, cols) && rid in heap
    ensures exists x :: 0 <= x < |f| && f[x].rid == rid && f[x].key in AsMap(f) && AsMap(f)[f[x].key] == rid
  {
    hide AsMap;
    var k := KeyCode(KeyTypes(schema, cols), KeyOf(heap[rid], cols));
    var x := AsMapOnly(f, k);
  }

  ghost function RangeCode(schema: seq<ColType>, cols: seq<nat>, prefix: seq<Val>, lower: bool): int
    requires ColsIn(schema, cols) && |prefix| <= |cols|
    requires ValidKey(KeyTypes(schema, cols), FullKey(schema, cols, prefix, lower))
  {
    KeyCode(KeyTypes(schema, cols), FullKey(schema, cols, prefix, lower))
  }

  /** The key of a row. */
  ghost function RowCode(schema: seq<ColType>, cols: seq<nat>, row: Row): int
    requires ColsIn(schema, cols) && ValidRow(schema, row) && ValidKey(KeyTypes(schema, cols), KeyOf(row, cols))
  {
    KeyCode(KeyTypes(schema, cols), KeyOf(row, cols))
  }

  /** In the leaf that covers hk, some slot from 1 on is above hk, and the first such key is at most key. */
  ghost predicate CutOff(ih: IxIndexHandle, hk: int, key: int)
    requires ih.Valid()
    reads ih
  {
    exists c: nat, j: nat :: CoversAt(ih.tower, 0, c, hk) && UpperBoundAt(ih.tower[0][c].es, hk, j)
      && j < |ih.tower[0][c].es| && ih.tower[0][c].es[j].key <= key
  }

  /** Nothing up to the bound is cut off. */
  lemma {:induction false} NotCutOff(ih: IxIndexHandle, hk: int, key: int)
    requires ih.Valid() && key <= hk
    ensures !CutOff(ih, hk, key)
  {}

  /** The key lies between the two cursors. */
  ghost predicate Between(ih: IxIndexHandle, schema: seq<ColType>, cols: seq<nat>, lo: seq<Val>, hi: seq<Val>, key: int)
    requires ih.Valid() && ColsIn(schema, cols) && |lo| <= |cols| && |hi| <= |cols|
    requires ValidKey(KeyTypes(schema, cols), FullKey(schema, cols, lo, true))
    requires ValidKey(KeyTypes(schema, cols), FullKey(schema, cols, hi, false))
    reads ih
  {
    && (lo != [] ==> RangeCode(schema, cols, lo, true) <= key)
    && (hi != [] ==> !CutOff(ih, RangeCode(schema, cols, hi, false), key))
  }

  /** Where upper_bound puts the cursor: right before the first entry that is cut off. */
  lemma {:induction false} CutPosition(ih: IxIndexHandle, hk: int, iid: Iid, m: nat, c: nat, j: nat, x: nat)
    requires ih.Valid() && Flat(ih.tower[0]) != [] && ih.CursorAt(iid, m)
    requires CoversAt(ih.tower, 0, c, hk) && UpperBoundAt(ih.tower[0][c].es, hk, j)
    requires if j < |ih.tower[0][c].es| then m == c && iid.slotNo == j else m == |ih.tower[0]| - 1 && iid.slotNo == |ih.tower[0][m].es|
    requires x < |Flat(ih.tower[0])|
    ensures CutOff(ih, hk, Flat(ih.tower[0])[x].key) <==> ih.PosAt(m, iid.slotNo) <= x
  {
    hide Rep, Flat;
    var lv, f := ih.tower[0], Flat(ih.tower[0]);
    var key := f[x].key;
    SizesPositive(ih.order, ih.tower);
    FlatAt(lv, m);
    if j < |lv[c].es| {
      FlatIndex(lv, c, j);
      assert f[Off(lv, c) + j] == lv[c].es[j];
    } else {
      assert lv[m + 1..] == [];
      FlatNone();
    }
    if CutOff(ih, hk, key) {
      var c': nat, j': nat :| CoversAt(ih.tower, 0, c', hk) && UpperBoundAt(lv[c'].es, hk, j')
        && j' < |lv[c'].es| && lv[c'].es[j'].key <= key;
      CoverUnique(ih.tower, hk, c, c');
      assert j' == j;
    }
  }

  /** What a caller can check beforehand: an upper bound needs a non-empty index, and the leaf reached
      with the lower bound must hold an entry at or above it. */
  ghost predicate Completes(ih: IxIndexHandle, schema: seq<ColType>, cols: seq<nat>, lo: seq<Val>, hi: seq<Val>)
    requires ih.Valid() && ColsIn(schema, cols) && |lo| <= |cols|
    requires ValidKey(KeyTypes(schema, cols), FullKey(schema, cols, lo, true))
    reads ih
  {
    && (Flat(ih.tower[0]) == [] ==> hi == [])
    && (lo != [] ==> LowerOnSlot(ih, RangeCode(schema, cols, lo, true)))
  }

  /** The lower cursor is on an entry exactly when its leaf has one. */
  lemma {:induction false} SettledIff(ih: IxIndexHandle, iid: Iid, m: nat, key: int)
    requires ih.Valid() && ih.CursorAt(iid, m) && CoversAt(ih.tower, 0, m, key)
    requires LowerBoundAt(Flat(ih.tower[0]), key, ih.PosAt(m, iid.slotNo))
    ensures ih.Settled(iid, m) <==> LowerOnSlot(ih, key)
  {
    var lv := ih.tower[0];
    forall x: nat | x < |lv[m].es| ensures key <= lv[m].es[x].key <==> iid.slotNo <= x {
      FlatIndex(lv, m, x);
    }
    if ih.Settled(iid, m) && m != |lv| - 1 { assert key <= lv[m].es[iid.slotNo].key; }
    if LowerOnSlot(ih, key) {
      var m': nat :| CoversAt(ih.tower, 0, m', key)
        && (m' == |lv| - 1 || exists x :: 0 <= x < |lv[m'].es| && key <= lv[m'].es[x].key);
      SizesPositive(ih.order, ih.tower);
      CoverUnique(ih.tower, key, m, m');
    }
  }

  /** Two cursors on the same page are in the same leaf. */
  lemma {:induction false} SamePageSameLeaf(ih: IxIndexHandle, m: nat, m': nat)
    requires ih.Valid() && m < |ih.tower[0]| && m' < |ih.tower[0]| && ih.tower[0][m].page == ih.tower[0][m'].page
    ensures m == m'
  {}

  /** The lower cursor never lies behind the upper one when the bounds are in order. */
  lemma {:induction false} CursorsInOrder(ih: IxIndexHandle, f: seq<Entry>, pl: nat, pu: nat, lkey: int, rkey: int)
    requires ih.Valid() && f == Flat(ih.tower[0]) && LowerBoundAt(f, lkey, pl) && lkey <= rkey && pu <= |f|
    requires forall x :: 0 <= x < |f| ==> (CutOff(ih, rkey, f[x].key) <==> pu <= x)
    ensures pl <= pu
  {
    hide CutOff, Flat;
    if pu < pl { NotCutOff(ih, rkey, f[pu].key); }
  }

  /** A complete begin/next run of the executor.  It returns, each once, the rows that meet the conditions and
      lie between the cursors.  With one bound per column and side these are all rows that meet the
      conditions, as for a sequential scan with the same filter.  It throws exactly when the range does not
      complete. */
  method Run(ih: IxIndexHandle, heap: map<Rid, Row>, schema: seq<ColType>, cols: seq<nat>, conds: seq<Condition>)
      returns (r: ScanRows, ghost lo: seq<Val>, ghost hi: seq<Val>)
    requires (ih.Valid() || ih.Dead()) && ColsIn(schema, cols) && ValidConds(schema, conds)
    requires ih.Valid() ==> Agree(ih.Contents(), heap, schema, cols)
    ensures var (l, u) := (Gather(conds, cols, true, 0), Gather(conds, cols, false, 0));
            lo == PartVals(l) && hi == PartVals(u)
            && (r.KeyGarbled? <==> !(Placed(schema, cols, l) && Placed(schema, cols, u)))
    ensures !r.KeyGarbled? ==> |lo| <= |cols| && |hi| <= |cols|
    ensures !r.KeyGarbled? ==> ValidKey(KeyTypes(schema, cols), FullKey(schema, cols, lo, true))
    ensures !r.KeyGarbled? ==> ValidKey(KeyTypes(schema, cols), FullKey(schema, cols, hi, false))
    ensures ih.Dead() && !r.KeyGarbled? ==> r == if lo == [] && hi == [] then Rows([]) else ScanThrown
    ensures r.Rows? ==> NoDup(r.rids)
    ensures ih.Valid() && r.Rows? ==> forall rid :: rid in r.rids <==>
              (rid in heap && Satisfies(schema, conds, heap[rid])
               && Between(ih, schema, cols, lo, hi, RowCode(schema, cols, heap[rid])))
    ensures OneBoundPerColumn(conds, cols, true) && OneBoundPerColumn(conds, cols, false) ==>
              !r.KeyGarbled?
              && (ih.Valid() && r.Rows? ==> forall rid :: rid in r.rids <==> rid in heap && Satisfies(schema, conds, heap[rid]))
    ensures ih.Valid() && !r.KeyGarbled? && (lo == [] || hi == [] || RangeCode(schema, cols, lo, true) <= RangeCode(schema, cols, hi, false))
            ==> (r.Rows? <==> Completes(ih, schema, cols, lo, hi))
  {
    hide Rep, Wf, AsMap, Agree, KeyCode, IsBoundPrefix, FullKey, Satisfies, Flat, StrictFrom, NoDup, LowerCursor, UpperCursor, Reaches, Completes, Passing, RidsOf, Between, Gather, Placed, OneBoundPerColumn;
    if ih.Valid() {
      ih.HasRoot();
      ContentsAre(ih);
      HeapRowsValid(ih.Contents(), heap, schema, cols);
    }
    var l := GatherBounds(conds, cols, true);
    var u := GatherBounds(conds, cols, false);
    lo, hi := PartVals(l), PartVals(u);
    OncePlaced(schema, conds, cols);
    if !Placed(schema, cols, l) || !Placed(schema, cols, u) { return KeyGarbled, lo, hi; }
    PlacedSize(schema, cols, l);
    PlacedSize(schema, cols, u);
    FullKeyValid(schema, conds, cols, true);
    FullKeyValid(schema, conds, cols, false);
    var ok, lower, upper;
    ghost var ml, mu;
    ok, lower, upper, ml, mu := Range(ih, schema, cols, PartVals(l), PartVals(u));
    if !ok { return ScanThrown, lo, hi; }
    if ih.root == NO_PAGE {
      // both cursors are at the start of the empty leaf
      assert lower == upper;
      NoDupNone<Rid>();
      return Rows([]), lo, hi;
    }
    r := WalkRange(ih, heap, schema, cols, conds, lower, upper, lo, hi, ml, mu);
    if OneBoundPerColumn(conds, cols, true) && OneBoundPerColumn(conds, cols, false) {
      forall rid | rid in heap && Satisfies(schema, conds, heap[rid])
        ensures Between(ih, schema, cols, lo, hi, RowCode(schema, cols, heap[rid]))
      {
        OnceBetween(ih, schema, cols, conds, heap[rid]);
      }
    }
  }

  /** The last part of beginTuple and all nextTuple calls: the walk between the cursors, with the filter. */
  method WalkRange(ih: IxIndexHandle, heap: map<Rid, Row>, schema: seq<ColType>, cols: seq<nat>, conds: seq<Condition>, lower: Iid, upper: Iid,
                   ghost lo: seq<Val>, ghost hi: seq<Val>, ghost ml: nat, ghost mu: nat) returns (r: ScanRows)
    requires ih.Valid() && ColsIn(schema, cols) && ValidConds(schema, conds) && Agree(ih.Contents(), heap, schema, cols)
    requires |lo| <= |cols| && |hi| <= |cols|
    requires ValidKey(KeyTypes(schema, cols), FullKey(schema, cols, lo, true))
    requires ValidKey(KeyTypes(schema, cols), FullKey(schema, cols, hi, false))
    requires LowerCursor(ih, schema, cols, lo, lower, ml) && UpperCursor(ih, schema, cols, hi, upper, mu)
    ensures !r.KeyGarbled?
    ensures forall rid :: rid in heap ==> ValidRow(schema, heap[rid]) && ValidKey(KeyTypes(schema, cols), KeyOf(heap[rid], cols))
    ensures r.Rows? ==> NoDup(r.rids)
    ensures r.Rows? ==> forall rid :: rid in r.rids <==>
              (rid in heap && Satisfies(schema, conds, heap[rid])
               && Between(ih, schema, cols, lo, hi, RowCode(schema, cols, heap[rid])))
    ensures lo == [] || hi == [] || RangeCode(schema, cols, lo, true) <= RangeCode(schema, cols, hi, false)
            ==> (r.Rows? <==> Completes(ih, schema, cols, lo, hi))
  {
    hide Rep, Wf, AsMap, Agree, KeyCode, FullKey, Satisfies, Flat, StrictFrom, NoDup, LowerCursor, UpperCursor, Reaches, Completes, Passing, RidsOf, Between;
    ContentsAre(ih);
    HeapRowsValid(ih.Contents(), heap, schema, cols);
    CursorParts(ih, schema, cols, lo, hi, lower, ml, upper, mu);
    var res := Collect(ih, lower, upper, ml, mu);
    if lo == [] || hi == [] || RangeCode(schema, cols, lo, true) <= RangeCode(schema, cols, hi, false) {
      CompletesIff(ih, schema, cols, lo, hi, lower, ml, upper, mu);
    }
    if res == NoSuchEntry { return ScanThrown; }
    VisitedRows(ih, heap, schema, cols, lo, hi, lower, ml, upper, mu, res.rids);
    var out := FilterRows(res.rids, heap, schema, conds);
    PassingNoDup(res.rids, heap, schema, conds);
    forall rid ensures rid in out <==> rid in res.rids && Satisfies(schema, conds, heap[rid]) {
      PassingIff(res.rids, heap, schema, conds, rid);
    }
    r := Rows(out);
  }

  lemma {:induction false} OncePlaced(schema: seq<ColType>, conds: seq<Condition>, cols: seq<nat>)
    requires ColsIn(schema, cols)
    ensures OneBoundPerColumn(conds, cols, true) ==> Placed(schema, cols, Gather(conds, cols, true, 0))
    ensures OneBoundPerColumn(conds, cols, false) ==> Placed(schema, cols, Gather(conds, cols, false, 0))
  {
    hide Placed, Gather, OneBoundPerColumn;
    if OneBoundPerColumn(conds, cols, true) { OnceIsPrefix(schema, conds, cols, true); }
    if OneBoundPerColumn(conds, cols, false) { OnceIsPrefix(schema, conds, cols, false); }
  }

  lemma {:induction false} PlacedSize(schema: seq<ColType>, cols: seq<nat>, parts: seq<Part>)
    requires Placed(schema, cols, parts)
    ensures |parts| <= |cols|
  {}

  /** With one bound per column and side, a row that meets the conditions lies between the cursors. */
  lemma {:induction false} OnceBetween(ih: IxIndexHandle, schema: seq<ColType>, cols: seq<nat>, conds: seq<Condition>, row: Row)
    requires ih.Valid() && ColsIn(schema, cols) && ValidConds(schema, conds) && ValidRow(schema, row)
    requires OneBoundPerColumn(conds, cols, true) && OneBoundPerColumn(conds, cols, false) && Satisfies(schema, conds, row)
    ensures var (lo, hi) := (PartVals(Gather(conds, cols, true, 0)), PartVals(Gather(conds, cols, false, 0)));
            && |lo| <= |cols| && |hi| <= |cols|
            && ValidKey(KeyTypes(schema, cols), FullKey(schema, cols, lo, true))
            && ValidKey(KeyTypes(schema, cols), FullKey(schema, cols, hi, false))
            && ValidKey(KeyTypes(schema, cols), KeyOf(row, cols))
            && Between(ih, schema, cols, lo, hi, RowCode(schema, cols, row))
  {
    hide Rep, Wf, KeyCode, FullKey, Satisfies, Gather, OneBoundPerColumn, Placed, CutOff, ValidKey;
    var lo, hi := PartVals(Gather(conds, cols, true, 0)), PartVals(Gather(conds, cols, false, 0));
    OnceIsPrefix(schema, conds, cols, true);
    OnceIsPrefix(schema, conds, cols, false);
    RowInRange(schema, conds, cols, row, lo, true);
    RowInRange(schema, conds, cols, row, hi, false);
    NotCutOff(ih, RangeCode(schema, cols, hi, false), RowCode(schema, cols, row));
  }

  lemma {:induction false} ContentsAre(ih: IxIndexHandle)
    requires ih.Valid()
    ensures StrictFrom(Flat(ih.tower[0]), 0) && ih.Contents() == AsMap(Flat(ih.tower[0]))
  {}

  /** Where the two cursors are, as positions. */
  ghost predicate LowerCursor(ih: IxIndexHandle, schema: seq<ColType>, cols: seq<nat>, lo: seq<Val>, lower: Iid, ml: nat)
    requires ih.Valid() && ColsIn(schema, cols) && |lo| <= |cols|
    requires ValidKey(KeyTypes(schema, cols), FullKey(schema, cols, lo, true))
    reads ih
  {
    && ih.CursorAt(lower, ml)
    && if lo == [] then ih.Settled(lower, ml) && ih.PosAt(ml, lower.slotNo) == 0
       else && LowerBoundAt(Flat(ih.tower[0]), RangeCode(schema, cols, lo, true), ih.PosAt(ml, lower.slotNo))
            && (ih.Settled(lower, ml) <==> LowerOnSlot(ih, RangeCode(schema, cols, lo, true)))
  }

  ghost predicate UpperCursor(ih: IxIndexHandle, schema: seq<ColType>, cols: seq<nat>, hi: seq<Val>, upper: Iid, mu: nat)
    requires ih.Valid() && ColsIn(schema, cols) && |hi| <= |cols|
    requires ValidKey(KeyTypes(schema, cols), FullKey(schema, cols, hi, false))
    reads ih
  {
    && mu < |ih.tower[0]| && upper.pageNo == ih.tower[0][mu].page && upper.slotNo >= 0
    && if hi == [] then ih.CursorAt(upper, mu) && ih.Settled(upper, mu) && ih.PosAt(mu, upper.slotNo) == |Flat(ih.tower[0])|
       else if Flat(ih.tower[0]) == [] then |ih.tower[0]| == 1 && ih.tower[0][0].es == [] && upper.slotNo == 1
       else && ih.CursorAt(upper, mu) && ih.Settled(upper, mu)
            && ih.PosAt(mu, upper.slotNo) <= |Flat(ih.tower[0])|
            && forall x :: 0 <= x < |Flat(ih.tower[0])| ==>
                 (CutOff(ih, RangeCode(schema, cols, hi, false), Flat(ih.tower[0])[x].key) <==> ih.PosAt(mu, upper.slotNo) <= x)
  }

  lemma {:induction false} CursorParts(ih: IxIndexHandle, schema: seq<ColType>, cols: seq<nat>,
                                       lo: seq<Val>, hi: seq<Val>, lower: Iid, ml: nat, upper: Iid, mu: nat)
    requires ih.Valid() && ColsIn(schema, cols) && |lo| <= |cols| && |hi| <= |cols|
    requires ValidKey(KeyTypes(schema, cols), FullKey(schema, cols, lo, true))
    requires ValidKey(KeyTypes(schema, cols), FullKey(schema, cols, hi, false))
    requires LowerCursor(ih, schema, cols, lo, lower, ml) && UpperCursor(ih, schema, cols, hi, upper, mu)
    ensures ih.CursorAt(lower, ml)
    ensures mu < |ih.tower[0]| && upper.pageNo == ih.tower[0][mu].page && upper.slotNo >= 0
  {}

  /** The middle part of beginTuple: from the gathered constants to cursors. */
  method Range(ih: IxIndexHandle, schema: seq<ColType>, cols: seq<nat>, lo: seq<Val>, hi: seq<Val>)
      returns (ok: bool, lower: Iid, upper: Iid, ghost ml: nat, ghost mu: nat)
    requires (ih.Valid() || ih.Dead()) && ColsIn(schema, cols) && |lo| <= |cols| && |hi| <= |cols|
    requires ValidKey(KeyTypes(schema, cols), FullKey(schema, cols, lo, true))
    requires ValidKey(KeyTypes(schema, cols), FullKey(schema, cols, hi, false))
    ensures ok <==> ih.Valid() || (lo == [] && hi == [])
    ensures ok && ih.Dead() ==> lower == upper
    ensures ih.Valid() ==> LowerCursor(ih, schema, cols, lo, lower, ml)
    ensures ih.Valid() ==> UpperCursor(ih, schema, cols, hi, upper, mu)
  {
    hide Rep, Wf, LowerCursor, UpperCursor, FullKey, ValidKey;
    if ih.Valid() { ih.HasRoot(); }
    var l, u;
    l, ml := LowerEnd(ih, schema, cols, lo);
    u, mu := UpperEnd(ih, schema, cols, hi);
    ok := l.Some? && u.Some?;
    lower, upper := if l.Some? then l.value else Iid(0, 0), if u.Some? then u.value else Iid(0, 0);
  }

  method LowerEnd(ih: IxIndexHandle, schema: seq<ColType>, cols: seq<nat>, lo: seq<Val>) returns (r: Option<Iid>, ghost ml: nat)
    requires (ih.Valid() || ih.Dead()) && ColsIn(schema, cols) && |lo| <= |cols|
    requires ValidKey(KeyTypes(schema, cols), FullKey(schema, cols, lo, true))
    ensures r.None? <==> ih.Dead() && lo != []
    ensures ih.Dead() && lo == [] ==> r == Some(Iid(ih.firstLeaf, 0))
    ensures ih.Valid() ==> LowerCursor(ih, schema, cols, lo, r.value, ml)
  {
    hide Rep, Wf, KeyCode, FullKey, Flat, LowerBoundAt, CoversAt, LowerOnSlot;
    if ih.Valid() { ih.HasRoot(); }
    if |lo| == 0 {
      var first := ih.LeafBegin();
      return Some(first), 0;
    }
    var lKey := FillUp(schema, cols, lo, true);
    var code := KeyCode(KeyTypes(schema, cols), lKey);
    r, ml := ih.LowerBound(code);
    if r.Some? { SettledIff(ih, r.value, ml, code); }
  }

  method UpperEnd(ih: IxIndexHandle, schema: seq<ColType>, cols: seq<nat>, hi: seq<Val>) returns (r: Option<Iid>, ghost mu: nat)
    requires (ih.Valid() || ih.Dead()) && ColsIn(schema, cols) && |hi| <= |cols|
    requires ValidKey(KeyTypes(schema, cols), FullKey(schema, cols, hi, false))
    ensures r.None? <==> ih.Dead() && hi != []
    ensures ih.Dead() && hi == [] ==> r == Some(Iid(ih.lastLeaf, 0))
    ensures ih.Valid() ==> UpperCursor(ih, schema, cols, hi, r.value, mu)
  {
    hide Rep, Wf, KeyCode, FullKey, Flat, CoversAt, CutOff, UpperBoundAt;
    if ih.Valid() {
      ih.HasRoot();
      WfParts(ih.order, ih.tower);
    }
    if |hi| == 0 {
      var last := ih.LeafEnd();
      return Some(last), if ih.Valid() then |ih.tower[0]| - 1 else 0;
    }
    var rKey := FillUp(schema, cols, hi, false);
    var code := KeyCode(KeyTypes(schema, cols), rKey);
    ghost var c, j;
    r, mu, c, j := ih.UpperBound(code);
    if r.Some? && Flat(ih.tower[0]) != [] {
      CursorInside(ih, r.value, mu);
      forall x | 0 <= x < |Flat(ih.tower[0])|
        ensures CutOff(ih, code, Flat(ih.tower[0])[x].key) <==> ih.PosAt(mu, r.value.slotNo) <= x
      {
        CutPosition(ih, code, r.value, mu, c, j, x);
      }
    }
  }

  /** With the bounds in order, the cursors meet exactly when the range completes. */
  lemma {:induction false} CompletesIff(ih: IxIndexHandle, schema: seq<ColType>, cols: seq<nat>,
                                        lo: seq<Val>, hi: seq<Val>, lower: Iid, ml: nat, upper: Iid, mu: nat)
    requires ih.Valid() && ColsIn(schema, cols) && |lo| <= |cols| && |hi| <= |cols|
    requires ValidKey(KeyTypes(schema, cols), FullKey(schema, cols, lo, true))
    requires ValidKey(KeyTypes(schema, cols), FullKey(schema, cols, hi, false))
    requires LowerCursor(ih, schema, cols, lo, lower, ml) && UpperCursor(ih, schema, cols, hi, upper, mu)
    requires lo == [] || hi == [] || RangeCode(schema, cols, lo, true) <= RangeCode(schema, cols, hi, false)
    ensures Reaches(ih, lower, ml, upper, mu) <==> Completes(ih, schema, cols, lo, hi)
  {
    hide Rep, Wf, KeyCode, FullKey, Flat, LowerOnSlot, ValidKey, CutOff;
    CursorInside(ih, lower, ml);
    var pl, pu := ih.PosAt(ml, lower.slotNo), ih.PosAt(mu, upper.slotNo);
    if hi != [] && Flat(ih.tower[0]) != [] && lo != [] {
      CursorsInOrder(ih, Flat(ih.tower[0]), pl, pu, RangeCode(schema, cols, lo, true), RangeCode(schema, cols, hi, false));
    }
    if lower == upper { SamePageSameLeaf(ih, ml, mu); }
  }

  /** A completed run has met exactly the rows between the cursors, and none twice. */
  lemma {:induction false} VisitedRows(ih: IxIndexHandle, heap: map<Rid, Row>, schema: seq<ColType>, cols: seq<nat>,
                                       lo: seq<Val>, hi: seq<Val>, lower: Iid, ml: nat, upper: Iid, mu: nat, rids: seq<Rid>)
    requires ih.Valid() && ColsIn(schema, cols) && |lo| <= |cols| && |hi| <= |cols|
    requires Agree(ih.Contents(), heap, schema, cols)
    requires ValidKey(KeyTypes(schema, cols), FullKey(schema, cols, lo, true))
    requires ValidKey(KeyTypes(schema, cols), FullKey(schema, cols, hi, false))
    requires LowerCursor(ih, schema, cols, lo, lower, ml) && UpperCursor(ih, schema, cols, hi, upper, mu)
    requires Reaches(ih, lower, ml, upper, mu)
    requires lower == upper ==> rids == []
    requires lower != upper ==>
               ih.PosAt(ml, lower.slotNo) <= ih.PosAt(mu, upper.slotNo) <= |Flat(ih.tower[0])|
               && rids == RidsOf(Flat(ih.tower[0])[ih.PosAt(ml, lower.slotNo)..ih.PosAt(mu, upper.slotNo)])
    ensures forall i :: 0 <= i < |rids| ==> rids[i] in heap && ValidRow(schema, heap[rids[i]])
    ensures NoDup(rids)
    ensures forall rid :: rid in heap ==> ValidRow(schema, heap[rid]) && ValidKey(KeyTypes(schema, cols), KeyOf(heap[rid], cols))
    ensures forall rid :: rid in heap ==> (rid in rids <==> Between(ih, schema, cols, lo, hi, RowCode(schema, cols, heap[rid])))
  {
    hide Rep, Wf, KeyCode, FullKey, Flat, LowerOnSlot, ValidKey, Agree, AsMap, StrictFrom, NoDup, RidsOf, CutOff, KeyOf;
    ContentsAre(ih);
    HeapRowsValid(ih.Contents(), heap, schema, cols);
    var f, pl, pu := Flat(ih.tower[0]), ih.PosAt(ml, lower.slotNo), ih.PosAt(mu, upper.slotNo);
    CursorInside(ih, lower, ml);
    if lower == upper {
      SamePageSameLeaf(ih, ml, mu);
      RidsOfEmpty(f, pl);
    }
    assert rids == RidsOf(f[pl..pu]);
    RangeRows(f, pl, pu, heap, schema, cols);
    forall rid | rid in heap ensures rid in rids <==> Between(ih, schema, cols, lo, hi, RowCode(schema, cols, heap[rid])) {
      RowEntry(f, heap, schema, cols, rid);
      var x :| 0 <= x < |f| && f[x].rid == rid && f[x].key in AsMap(f) && AsMap(f)[f[x].key] == rid;
      EntryRow(f, heap, schema, cols, x);
      RowMet(f, pl, pu, heap, schema, cols, x);
    }
  }

  // ---------- two bounds on one column ----------

  function TwoInts(): seq<ColType> { [IntCol, IntCol] }

  /** a >= 2 and a >= 1, on an index over (a, b). */
  function TwoBounds(): seq<Condition> { [ConstCond(0, OpGe, Num(2)), ConstCond(0, OpGe, Num(1))] }

  /** The second constant lands in the place of column b. */
  lemma {:induction false} TwoBoundsGathered()
    ensures Gather(TwoBounds(), [0, 1], true, 0) == [Part(Num(2), 0), Part(Num(1), 0)]
    ensures Gather(TwoBounds(), [0, 1], false, 0) == []
  {
    var c := TwoBounds();
    assert c[..1] == [c[0]] && c[..1][..0] == [];
    assert Matched(c[..1], 0, true) == Matched([], 0, true) + [Num(2)];
    assert Matched(c, 0, true) == [Num(2), Num(1)];
    assert Matched(c[..1], 0, false) == [] && Matched(c, 0, false) == [];
    assert Gather(c, [0, 1], true, 2) == [];
    assert Parts([Num(2), Num(1)], 0) == [Part(Num(2), 0), Part(Num(1), 0)];
  }

  lemma {:induction false} TwoIntsCode(a: Val, b: Val)
    requires ValidVal(IntCol, a) && ValidVal(IntCol, b)
    ensures ValidKey(TwoInts(), [a, b]) && KeyCode(TwoInts(), [a, b]) == (a.n + INT_LIMIT) * (2 * INT_LIMIT) + b.n + INT_LIMIT
  {
    assert TwoInts()[1..] == [IntCol] && [a, b][1..] == [b];
    assert [IntCol][1..] == [] && [b][1..] == [];
    assert Weight([]) == 1 && Weight([IntCol]) == 2 * INT_LIMIT;
    assert KeyCode([IntCol], [b]) == Digit(IntCol, b) * 1 + KeyCode([], []);
  }

  /** The row (2, 0) meets both conditions and is lost: the scan starts at (2, 1). */
  method LostByBounds(ih: IxIndexHandle, heap: map<Rid, Row>, rid: Rid) returns (r: ScanRows)
    requires ih.Valid() && Agree(ih.Contents(), heap, TwoInts(), [0, 1])
    requires rid in heap && heap[rid] == [Num(2), Num(0)]
    ensures ValidRow(TwoInts(), heap[rid]) && ValidConds(TwoInts(), TwoBounds()) && Satisfies(TwoInts(), TwoBounds(), heap[rid])
    ensures !r.KeyGarbled? && (r.Rows? ==> rid !in r.rids)
  {
    hide Rep, Wf, AsMap, KeyCode, Flat, Gather, Agree, FullKey, KeyOf, CutOff, Placed, OneBoundPerColumn, Completes, KeyTypes, ValidKey, StrictFrom, NoDup;
    ghost var lo, hi;
    TwoBoundsGathered();
    TwoBoundsPlaced();
    r, lo, hi := Run(ih, heap, TwoInts(), [0, 1], TwoBounds());
    assert lo == [Num(2), Num(1)];
    StartsBehind();
  }

  lemma {:induction false} TwoBoundsPlaced()
    ensures Placed(TwoInts(), [0, 1], [Part(Num(2), 0), Part(Num(1), 0)]) && Placed(TwoInts(), [0, 1], [])
  {}

  lemma {:induction false} StartsBehind()
    ensures ValidKey(KeyTypes(TwoInts(), [0, 1]), FullKey(TwoInts(), [0, 1], [Num(2), Num(1)], true))
    ensures ValidKey(KeyTypes(TwoInts(), [0, 1]), KeyOf([Num(2), Num(0)], [0, 1]))
    ensures RowCode(TwoInts(), [0, 1], [Num(2), Num(0)]) < RangeCode(TwoInts(), [0, 1], [Num(2), Num(1)], true)
  {
    hide KeyCode;
    assert KeyTypes(TwoInts(), [0, 1]) == TwoInts();
    assert KeyOf([Num(2), Num(0)], [0, 1]) == [Num(2), Num(0)];
    assert FullKey(TwoInts(), [0, 1], [Num(2), Num(1)], true) == [Num(2), Num(1)];
    TwoIntsCode(Num(2), Num(1));
    TwoIntsCode(Num(2), Num(0));
  }

  /** On an index without entries any scan with an upper bound throws: upper_bound answers slot 1. */
  method EmptyIndexThrows(order: nat, bound: Val) returns (r: ScanRows)
    requires order >= 4 && ValidVal(IntCol, bound)
    ensures r == ScanThrown
  {
    hide Rep, Wf, AsMap, KeyCode, FullKey, Between, Gather, Placed, KeyTypes, ValidKey, OneBoundPerColumn;
    var ih := new IxIndexHandle(order);
    var conds := [ConstCond(0, OpLe, bound)];
    OneUpper(bound);
    EmptyAgrees(ih);
    ghost var lo, hi;
    r, lo, hi := Run(ih, map[], [IntCol], [0], conds);
  }

  lemma {:induction false} OneUpper(bound: Val)
    ensures var conds := [ConstCond(0, OpLe, bound)];
            && OneBoundPerColumn(conds, [0], true) && OneBoundPerColumn(conds, [0], false)
            && Gather(conds, [0], true, 0) == [] && Gather(conds, [0], false, 0) == [Part(bound, 0)]
  {
    var conds := [ConstCond(0, OpLe, bound)];
    assert conds[..0] == [];
    assert |conds| - 1 == 0 && Matches(conds[0], 0, false) && !Matches(conds[0], 0, true);
    assert Matched(conds, 0, true) == Matched([], 0, true) + [];
    assert Matched(conds, 0, false) == Matched([], 0, false) + [bound];
    GatherPast(conds, [0], false, 1);
    assert Parts([bound], 0) == [Part(bound, 0)];
  }

  lemma {:induction false} EmptyAgrees(ih: IxIndexHandle)
    requires ih.Valid() && ih.Contents() == map[]
    ensures Flat(ih.tower[0]) == [] && ColsIn([IntCol], [0]) && Agree(ih.Contents(), map[], [IntCol], [0])
  {
    if Flat(ih.tower[0]) != [] { AsMapHas(Flat(ih.tower[0]), 0); }
  }
}
