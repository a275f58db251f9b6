/** Powers of two. */
module Powers {
  function Pow2(n: nat): (p: nat)
    ensures p > 0
  {
    if n == 0 then 1 else 2 * Pow2(n - 1)
  }

  lemma {:induction false} Pow2Monotonic(a: nat, b: nat)
    requires a <= b
    ensures Pow2(a) <= Pow2(b)
    decreases b
  {
    if a < b {
      Pow2Monotonic(a, b - 1);
    }
  }

  lemma {:induction false} Pow2Grows(a: nat, b: nat)
    requires Pow2(a) < Pow2(b)
    ensures a < b
    decreases a
  {
    if a >= b && b > 0 {
      Pow2Grows(a - 1, b - 1);
    }
  }
}
