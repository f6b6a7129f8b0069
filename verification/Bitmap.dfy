/** Bitmap: one bit per slot, the highest bit of each byte first. */
module Bitmap {

  function Bucket(pos: nat): nat { pos / 8 }

  /** BITMAP_HIGHEST_BIT shifted right by pos mod 8. */
  function Mask(pos: nat): bv8 {
    var i := pos % 8;
    if i == 0 then 0x80 else if i == 1 then 0x40 else if i == 2 then 0x20 else if i == 3 then 0x10
    else if i == 4 then 0x08 else if i == 5 then 0x04 else if i == 6 then 0x02 else 0x01
  }

  predicate InBitmap(bm: seq<bv8>, pos: nat) { pos < 8 * |bm| }

  /** Bitmap::is_set. */
  predicate IsSet(bm: seq<bv8>, pos: nat)
    requires InBitmap(bm, pos)
  {
    (bm[Bucket(pos)] & Mask(pos)) != 0
  }

  /** Bitmap::set. */
  function Set(bm: seq<bv8>, pos: nat): seq<bv8>
    requires InBitmap(bm, pos)
  {
    bm[Bucket(pos) := bm[Bucket(pos)] | Mask(pos)]
  }

  /** Bitmap::reset. */
  function Reset(bm: seq<bv8>, pos: nat): seq<bv8>
    requires InBitmap(bm, pos)
  {
    bm[Bucket(pos) := bm[Bucket(pos)] & !Mask(pos)]
  }

  /** Masks are single bits, different for different positions in a byte. */
  predicate IsMask(m: bv8) {
    m == 0x80 || m == 0x40 || m == 0x20 || m == 0x10 || m == 0x08 || m == 0x04 || m == 0x02 || m == 0x01
  }

  lemma {:induction false} MaskFacts(p: nat, q: nat)
    ensures IsMask(Mask(p)) && IsMask(Mask(q))
    ensures p % 8 != q % 8 ==> Mask(p) != Mask(q)
  {}

  lemma {:induction false} MaskIsShift(pos: nat)
    ensures Mask(pos) == (0x80 as bv8) >> (pos % 8)
  {
    var i := pos % 8;
    assert i == 0 || i == 1 || i == 2 || i == 3 || i == 4 || i == 5 || i == 6 || i == 7;
  }

  lemma {:induction false} ByteOps(b: bv8, m: bv8, k: bv8)
    requires IsMask(m) && IsMask(k)
    ensures ((b | m) & k != 0) <==> m == k || (b & k != 0)
    ensures ((b & !m) & k != 0) <==> m != k && (b & k != 0)
  {}

  /** Setting a bit sets that bit and no other. */
  lemma {:induction false} SetBit(bm: seq<bv8>, p: nat, q: nat)
    requires InBitmap(bm, p) && InBitmap(bm, q)
    ensures IsSet(Set(bm, p), q) <==> q == p || IsSet(bm, q)
  {
    MaskFacts(p, q);
    ByteOps(bm[Bucket(p)], Mask(p), Mask(q));
  }

  /** Resetting a bit clears that bit and no other. */
  lemma {:induction false} ResetBit(bm: seq<bv8>, p: nat, q: nat)
    requires InBitmap(bm, p) && InBitmap(bm, q)
    ensures IsSet(Reset(bm, p), q) <==> q != p && IsSet(bm, q)
  {
    MaskFacts(p, q);
    ByteOps(bm[Bucket(p)], Mask(p), Mask(q));
  }

  /** Number of set bits among the first n. */
  ghost function Count(bm: seq<bv8>, n: nat): nat
    requires n <= 8 * |bm|
  {
    if n == 0 then 0 else Count(bm, n - 1) + if IsSet(bm, n - 1) then 1 else 0
  }

  lemma {:induction false} CountBounds(bm: seq<bv8>, n: nat)
    requires n <= 8 * |bm|
    ensures Count(bm, n) <= n
    ensures Count(bm, n) == n <==> forall i :: 0 <= i < n ==> IsSet(bm, i)
  {
    if n > 0 { CountBounds(bm, n - 1); }
  }

  lemma {:induction false} CountSet(bm: seq<bv8>, p: nat, n: nat)
    requires n <= 8 * |bm| && InBitmap(bm, p) && !IsSet(bm, p)
    ensures Count(Set(bm, p), n) == Count(bm, n) + if p < n then 1 else 0
  {
    hide IsSet, Mask;
    if n > 0 {
      CountSet(bm, p, n - 1);
      SetBit(bm, p, n - 1);
    }
  }

  lemma {:induction false} CountReset(bm: seq<bv8>, p: nat, n: nat)
    requires n <= 8 * |bm| && InBitmap(bm, p) && IsSet(bm, p)
    ensures Count(Reset(bm, p), n) + (if p < n then 1 else 0) == Count(bm, n)
  {
    hide IsSet, Mask;
    if n > 0 {
      CountReset(bm, p, n - 1);
      ResetBit(bm, p, n - 1);
    }
  }

  /** Clearing a bit that is not set changes no count. */
  lemma {:induction false} CountResetClear(bm: seq<bv8>, p: nat, n: nat)
    requires n <= 8 * |bm| && InBitmap(bm, p) && !IsSet(bm, p)
    ensures Count(Reset(bm, p), n) == Count(bm, n)
  {
    hide IsSet, Mask;
    if n > 0 {
      CountResetClear(bm, p, n - 1);
      ResetBit(bm, p, n - 1);
    }
  }

  /** Bitmap::next_bit: the first position after curr with the wanted bit, or maxN. */
  method NextBit(bit: bool, bm: seq<bv8>, maxN: nat, curr: int) returns (pos: int)
    requires maxN <= 8 * |bm| && curr >= -1
    ensures curr < pos || pos == maxN
    ensures pos < maxN ==> 0 <= pos && IsSet(bm, pos) == bit
    ensures pos <= maxN
    ensures forall i :: curr < i < pos && i < maxN ==> IsSet(bm, i) != bit
  {
    var i := curr + 1;
    while i < maxN
      invariant curr < i && (i <= maxN || i == curr + 1)
      invariant forall k :: curr < k < i && k < maxN ==> IsSet(bm, k) != bit
    {
      if IsSet(bm, i) == bit { return i; }
      i := i + 1;
    }
    return maxN;
  }

  lemma {:induction false} EmptyBitmap(bm: seq<bv8>, n: nat)
    requires n <= 8 * |bm| && forall i :: 0 <= i < |bm| ==> bm[i] == 0
    ensures Count(bm, n) == 0 && forall i :: 0 <= i < n ==> !IsSet(bm, i)
  {
    if n > 0 {
      EmptyBitmap(bm, n - 1);
      assert bm[Bucket(n - 1)] & Mask(n - 1) == 0;
    }
  }
}
