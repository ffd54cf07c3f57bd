/** Powers of two and shifts. */
module Power {

  function Pow2(n: nat): (p: nat)
    ensures p >= 1
  {
    if n == 0 then 1 else 2 * Pow2(n - 1)
  }

  /** x >> k. */
  function Shr(x: nat, k: nat): nat { if k == 0 then x else Shr(x / 2, k - 1) }

  lemma {:induction false} Pow2Monotone(a: nat, b: nat)
    ensures a <= b <==> Pow2(a) <= Pow2(b)
  {
    if a > 0 && b > 0 {
      Pow2Monotone(a - 1, b - 1);
    }
  }

  lemma {:induction false} Pow2Add(a: nat, b: nat)
    ensures Pow2(a + b) == Pow2(a) * Pow2(b)
  {
    if a > 0 {
      Pow2Add(a - 1, b);
      assert Pow2(a + b) == 2 * (Pow2(a - 1) * Pow2(b));
    }
  }

  lemma {:induction false} Larger(x: nat, y: nat, p: nat)
    requires x <= y
    ensures x * p <= y * p && (x < y && p > 0 ==> x * p < y * p)
  {
    assert (y - x) * p >= 0;
    assert x < y && p > 0 ==> (y - x) * p > 0;
  }
}
