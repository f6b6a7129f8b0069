/** Powers of 256 and products. */
module Arith {

  function Pow256(n: nat): nat { if n == 0 then 1 else 256 * Pow256(n - 1) }

  lemma {:induction false} MulMonotone(a: int, b: int, w: nat)
    ensures a <= b ==> a * w <= b * w
  {
    if w > 0 {
      MulMonotone(a, b, w - 1);
      assert a * w == a * (w - 1) + a && b * w == b * (w - 1) + b;
    }
  }

  lemma {:induction false} MulStep(a: int, w: nat)
    ensures (a + 1) * w == a * w + w
  {}

  lemma {:induction false} MulLess(a: int, b: int, w: nat)
    ensures a < b ==> a * w + w <= b * w
  {
    if a < b {
      MulMonotone(a + 1, b, w);
      MulStep(a, w);
    }
  }

  lemma {:induction false} DivBounds(n: nat, w: nat)
    requires w > 0
    ensures n / w * w <= n < (n / w + 1) * w
  {
    MulStep(n / w, w);
    assert n == n / w * w + n % w;
  }
}
