/** Column values, their comparison, and comparison operators (filter.h, ix_index_handle.h, common.h). */
module Values {
  import opened Arith

  /** Column types whose comparison is exact: 32-bit and 64-bit integers and fixed-length byte strings. */
  datatype ColType = IntCol | BigIntCol | StringCol(len: nat)

  datatype Val = Num(n: int) | Bytes(b: seq<nat>)

  const INT_LIMIT: int := 0x8000_0000
  const BIGINT_LIMIT: int := 0x8000_0000_0000_0000

  predicate ValidVal(t: ColType, v: Val) {
    match t
    case IntCol => v.Num? && -INT_LIMIT <= v.n < INT_LIMIT
    case BigIntCol => v.Num? && -BIGINT_LIMIT <= v.n < BIGINT_LIMIT
    case StringCol(len) => v.Bytes? && |v.b| == len && forall i :: 0 <= i < len ==> v.b[i] < 256
  }

  function CompareNum(a: int, b: int): int {
    if a < b then -1 else if a > b then 1 else 0
  }

  /** memcmp of two byte strings of the same length. */
  function CompareBytes(a: seq<nat>, b: seq<nat>): int
    requires |a| == |b|
  {
    if a == [] then 0
    else if a[0] != b[0] then CompareNum(a[0], b[0])
    else CompareBytes(a[1..], b[1..])
  }

  /** Filter::compare and the single-column ix_compare, for one column type. */
  function Compare(t: ColType, a: Val, b: Val): int
    requires ValidVal(t, a) && ValidVal(t, b)
  {
    match t
    case StringCol(_) => CompareBytes(a.b, b.b)
    case _ => CompareNum(a.n, b.n)
  }

  datatype CompOp = OpEq | OpNe | OpLt | OpGt | OpLe | OpGe

  /** Filter::judge. */
  function Judge(cmp: int, op: CompOp): bool {
    match op
    case OpEq => cmp == 0
    case OpNe => cmp != 0
    case OpLt => cmp < 0
    case OpGt => cmp > 0
    case OpLe => cmp <= 0
    case OpGe => cmp >= 0
  }

  /** The table used wherever the two sides of a condition are exchanged. */
  function SwapOp(op: CompOp): CompOp {
    match op
    case OpEq => OpEq
    case OpNe => OpNe
    case OpLt => OpGt
    case OpGt => OpLt
    case OpLe => OpGe
    case OpGe => OpLe
  }

  // ---------- what the operators mean ----------

  /** a is less than b: as a number, or in the first byte in which two strings differ. */
  ghost predicate Less(t: ColType, a: Val, b: Val)
    requires ValidVal(t, a) && ValidVal(t, b)
  {
    match t
    case StringCol(len) => exists i :: 0 <= i < len && a.b[..i] == b.b[..i] && a.b[i] < b.b[i]
    case _ => a.n < b.n
  }

  /** The comparison a op b as SQL means it. */
  ghost predicate Meets(t: ColType, a: Val, op: CompOp, b: Val)
    requires ValidVal(t, a) && ValidVal(t, b)
  {
    match op
    case OpEq => a == b
    case OpNe => a != b
    case OpLt => Less(t, a, b)
    case OpGt => Less(t, b, a)
    case OpLe => Less(t, a, b) || a == b
    case OpGe => Less(t, b, a) || a == b
  }

  lemma {:induction false} BytesLess(a: seq<nat>, b: seq<nat>)
    requires |a| == |b|
    ensures CompareBytes(a, b) == 0 <==> a == b
    ensures CompareBytes(a, b) < 0 <==> exists i :: 0 <= i < |a| && a[..i] == b[..i] && a[i] < b[i]
  {
    if a != [] {
      var a', b' := a[1..], b[1..];
      assert a == [a[0]] + a' && b == [b[0]] + b';
      BytesLess(a', b');
      if a[0] == b[0] && CompareBytes(a', b') < 0 {
        var i :| 0 <= i < |a'| && a'[..i] == b'[..i] && a'[i] < b'[i];
        assert a[..i + 1] == [a[0]] + a'[..i] && b[..i + 1] == [b[0]] + b'[..i] && a[i + 1] < b[i + 1];
      }
      assert a[..0] == b[..0];
      forall i | 0 <= i < |a| && a[..i] == b[..i] && a[i] < b[i] ensures CompareBytes(a, b) < 0 { FirstDiffers(a, b, i); }
    }
  }

  lemma {:induction false} FirstDiffers(a: seq<nat>, b: seq<nat>, i: nat)
    requires i < |a| == |b| && a[..i] == b[..i] && a[i] < b[i]
    ensures CompareBytes(a, b) < 0
  {
    if i > 0 {
      assert a[0] == a[..i][0] == b[..i][0];
      assert a[1..][..i - 1] == a[..i][1..] && b[1..][..i - 1] == b[..i][1..];
      FirstDiffers(a[1..], b[1..], i - 1);
    }
  }

  lemma {:induction false} BytesOpposite(a: seq<nat>, b: seq<nat>)
    requires |a| == |b|
    ensures CompareBytes(b, a) == -CompareBytes(a, b)
  {
    if a != [] { BytesOpposite(a[1..], b[1..]); }
  }

  /** Each operator, judged on the result of a comparison, means what it says. */
  lemma {:induction false} OperatorMeaning(t: ColType, a: Val, b: Val, op: CompOp)
    requires ValidVal(t, a) && ValidVal(t, b)
    ensures Judge(Compare(t, a, b), op) <==> Meets(t, a, op, b)
  {
    if t.StringCol? {
      BytesLess(a.b, b.b);
      BytesLess(b.b, a.b);
      BytesOpposite(a.b, b.b);
    }
  }

  /** On numbers these are the six arithmetic comparisons. */
  lemma {:induction false} NumberOperators(t: ColType, a: int, b: int)
    requires !t.StringCol? && ValidVal(t, Num(a)) && ValidVal(t, Num(b))
    ensures var cmp := Compare(t, Num(a), Num(b));
            && (Judge(cmp, OpEq) <==> a == b) && (Judge(cmp, OpNe) <==> a != b)
            && (Judge(cmp, OpLt) <==> a < b) && (Judge(cmp, OpGt) <==> a > b)
            && (Judge(cmp, OpLe) <==> a <= b) && (Judge(cmp, OpGe) <==> a >= b)
  {}

  // ---------- the order behind the comparisons ----------

  function BytesCode(b: seq<nat>): nat {
    if b == [] then 0 else b[0] * Pow256(|b| - 1) + BytesCode(b[1..])
  }

  function Radix(t: ColType): nat {
    match t
    case IntCol => 2 * INT_LIMIT
    case BigIntCol => 2 * BIGINT_LIMIT
    case StringCol(len) => Pow256(len)
  }

  /** The place of a value in the order of its column type. */
  function Digit(t: ColType, v: Val): int
    requires ValidVal(t, v)
  {
    match t
    case IntCol => v.n + INT_LIMIT
    case BigIntCol => v.n + BIGINT_LIMIT
    case StringCol(_) => BytesCode(v.b)
  }

  lemma {:induction false} LeadingLess(d: int, e: int, w: nat, r: int, s: int)
    requires 0 <= r < w && 0 <= s < w && d < e
    ensures d * w + r < e * w + s
  {
    MulLess(d, e, w);
  }

  /** Leading digits decide. */
  lemma {:induction false} LeadingDigit(d: int, e: int, w: nat, r: int, s: int)
    requires 0 <= r < w && 0 <= s < w
    ensures d < e ==> d * w + r < e * w + s
    ensures d * w + r == e * w + s ==> d == e && r == s
  {
    if d < e { LeadingLess(d, e, w, r, s); }
    if e < d { LeadingLess(e, d, w, s, r); }
  }

  lemma {:induction false} BytesCodeRange(b: seq<nat>)
    requires forall i :: 0 <= i < |b| ==> b[i] < 256
    ensures BytesCode(b) < Pow256(|b|)
  {
    if b != [] {
      BytesCodeRange(b[1..]);
      MulMonotone(b[0], 255, Pow256(|b| - 1));
    }
  }

  lemma {:induction false} BytesOrder(a: seq<nat>, b: seq<nat>)
    requires |a| == |b|
    requires forall i :: 0 <= i < |a| ==> a[i] < 256 && b[i] < 256
    ensures CompareBytes(a, b) == CompareNum(BytesCode(a), BytesCode(b))
  {
    if a != [] {
      BytesOrder(a[1..], b[1..]);
      BytesCodeRange(a[1..]);
      BytesCodeRange(b[1..]);
      LeadingDigit(a[0], b[0], Pow256(|a| - 1), BytesCode(a[1..]), BytesCode(b[1..]));
      LeadingDigit(b[0], a[0], Pow256(|a| - 1), BytesCode(b[1..]), BytesCode(a[1..]));
    }
  }

  lemma {:induction false} BytesCodeInjective(a: seq<nat>, b: seq<nat>)
    requires |a| == |b| && BytesCode(a) == BytesCode(b)
    requires forall i :: 0 <= i < |a| ==> a[i] < 256 && b[i] < 256
    ensures a == b
  {
    if a != [] {
      BytesCodeRange(a[1..]);
      BytesCodeRange(b[1..]);
      LeadingDigit(a[0], b[0], Pow256(|a| - 1), BytesCode(a[1..]), BytesCode(b[1..]));
      BytesCodeInjective(a[1..], b[1..]);
      assert a == [a[0]] + a[1..] && b == [b[0]] + b[1..];
    }
  }

  /** Different values have different digits. */
  lemma {:induction false} DigitInjective(t: ColType, a: Val, b: Val)
    requires ValidVal(t, a) && ValidVal(t, b) && Digit(t, a) == Digit(t, b)
    ensures a == b
  {
    if t.StringCol? { BytesCodeInjective(a.b, b.b); }
  }

  /** Comparing two values is comparing their digits; so Compare is a total order on each column type. */
  lemma {:induction false} DigitOrder(t: ColType, a: Val, b: Val)
    requires ValidVal(t, a) && ValidVal(t, b)
    ensures Compare(t, a, b) == CompareNum(Digit(t, a), Digit(t, b))
    ensures 0 <= Digit(t, a) < Radix(t)
  {
    if t.StringCol? {
      BytesOrder(a.b, b.b);
      BytesCodeRange(a.b);
    }
  }

  /** Exchanging the two sides and swapping the operator keeps the verdict. */
  lemma {:induction false} SwapKeepsMeaning(t: ColType, a: Val, b: Val, op: CompOp)
    requires ValidVal(t, a) && ValidVal(t, b)
    ensures Judge(Compare(t, a, b), op) == Judge(Compare(t, b, a), SwapOp(op))
  {
    DigitOrder(t, a, b);
    DigitOrder(t, b, a);
  }
}

/** Multi-column index keys (ix_compare over all columns). */
module IxKeys {
  import opened Arith
  import opened Values

  ghost predicate ValidKey(cols: seq<ColType>, k: seq<Val>) {
    |k| == |cols| && forall i :: 0 <= i < |cols| ==> ValidVal(cols[i], k[i])
  }

  function CompareKey(cols: seq<ColType>, a: seq<Val>, b: seq<Val>): int
    requires ValidKey(cols, a) && ValidKey(cols, b)
  {
    if cols == [] then 0
    else
      var c := Compare(cols[0], a[0], b[0]);
      if c != 0 then c else CompareKey(cols[1..], a[1..], b[1..])
  }

  /** ix_compare over the columns of an index: the first column that differs decides. */
  method IxCompare(cols: seq<ColType>, a: seq<Val>, b: seq<Val>) returns (res: int)
    requires ValidKey(cols, a) && ValidKey(cols, b)
    ensures res == CompareNum(KeyCode(cols, a), KeyCode(cols, b))
  {
    KeyOrder(cols, a, b);
    var i := 0;
    while i < |cols|
      invariant 0 <= i <= |cols|
      invariant CompareKey(cols, a, b) == CompareKey(cols[i..], a[i..], b[i..])
    {
      res := Compare(cols[i], a[i], b[i]);
      if res != 0 { return; }
      assert cols[i..][1..] == cols[i + 1..] && a[i..][1..] == a[i + 1..] && b[i..][1..] == b[i + 1..];
      i := i + 1;
    }
    return 0;
  }

  function Weight(cols: seq<ColType>): nat {
    if cols == [] then 1 else Radix(cols[0]) * Weight(cols[1..])
  }

  /** The integer that stands for a key in the tree. */
  function KeyCode(cols: seq<ColType>, k: seq<Val>): int
    requires ValidKey(cols, k)
  {
    if cols == [] then 0 else Digit(cols[0], k[0]) * Weight(cols[1..]) + KeyCode(cols[1..], k[1..])
  }

  lemma {:induction false} RangeStep(d: int, r: nat, w: nat, rest: int)
    requires 0 <= d < r && 0 <= rest < w
    ensures 0 <= d * w + rest < r * w
  {
    MulMonotone(0, d, w);
    MulLess(d, r, w);
  }

  lemma {:induction false} KeyCodeRange(cols: seq<ColType>, k: seq<Val>)
    requires ValidKey(cols, k)
    ensures 0 <= KeyCode(cols, k) < Weight(cols)
  {
    if cols != [] {
      KeyCodeRange(cols[1..], k[1..]);
      DigitOrder(cols[0], k[0], k[0]);
      var d, w, r := Digit(cols[0], k[0]), Weight(cols[1..]), Radix(cols[0]);
      RangeStep(d, r, w, KeyCode(cols[1..], k[1..]));
    }
  }

  /** Comparing keys column by column is comparing their codes, so the tree may work on integers. */
  lemma {:induction false} KeyOrder(cols: seq<ColType>, a: seq<Val>, b: seq<Val>)
    requires ValidKey(cols, a) && ValidKey(cols, b)
    ensures CompareKey(cols, a, b) == CompareNum(KeyCode(cols, a), KeyCode(cols, b))
  {
    if cols != [] {
      KeyOrder(cols[1..], a[1..], b[1..]);
      KeyCodeRange(cols[1..], a[1..]);
      KeyCodeRange(cols[1..], b[1..]);
      DigitOrder(cols[0], a[0], b[0]);
      LeadingDigit(Digit(cols[0], a[0]), Digit(cols[0], b[0]), Weight(cols[1..]), KeyCode(cols[1..], a[1..]), KeyCode(cols[1..], b[1..]));
      LeadingDigit(Digit(cols[0], b[0]), Digit(cols[0], a[0]), Weight(cols[1..]), KeyCode(cols[1..], b[1..]), KeyCode(cols[1..], a[1..]));
    }
  }

  /** A key that is at least another one in every column is not before it. */
  lemma {:induction false} PointwiseOrder(cols: seq<ColType>, a: seq<Val>, b: seq<Val>)
    requires ValidKey(cols, a) && ValidKey(cols, b)
    requires forall i :: 0 <= i < |cols| ==> Digit(cols[i], a[i]) <= Digit(cols[i], b[i])
    ensures KeyCode(cols, a) <= KeyCode(cols, b)
  {
    if cols != [] {
      PointwiseOrder(cols[1..], a[1..], b[1..]);
      var d, e, w := Digit(cols[0], a[0]), Digit(cols[0], b[0]), Weight(cols[1..]);
      MulMonotone(d, e, w);
    }
  }

  /** Different keys have different codes. */
  lemma {:induction false} KeyCodeInjective(cols: seq<ColType>, a: seq<Val>, b: seq<Val>)
    requires ValidKey(cols, a) && ValidKey(cols, b) && KeyCode(cols, a) == KeyCode(cols, b)
    ensures a == b
  {
    if cols != [] {
      KeyCodeRange(cols[1..], a[1..]);
      KeyCodeRange(cols[1..], b[1..]);
      LeadingDigit(Digit(cols[0], a[0]), Digit(cols[0], b[0]), Weight(cols[1..]), KeyCode(cols[1..], a[1..]), KeyCode(cols[1..], b[1..]));
      DigitInjective(cols[0], a[0], b[0]);
      KeyCodeInjective(cols[1..], a[1..], b[1..]);
      assert a == [a[0]] + a[1..] && b == [b[0]] + b[1..];
    }
  }
}
