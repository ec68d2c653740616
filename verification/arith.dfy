/** Division and multiplication facts that the solver does not find alone. */
module Arith {

  function Pow2(n: nat): (r: nat)
    ensures r > 0
  {
    if n == 0 then 1 else 2 * Pow2(n - 1)
  }

  lemma MulLe(a: int, b: int, p: nat)
    requires a <= b
    ensures a * p <= b * p
  {
    assert (b - a) * p >= 0;
  }

  lemma DivMono(x: nat, y: nat, p: nat)
    requires p > 0 && x <= y
    ensures x / p <= y / p
  {
    if x / p > y / p {
      MulLe(y / p + 1, x / p, p);
      assert false;
    }
  }

  lemma DivNat(x: nat, p: nat)
    requires p > 0
    ensures x / p >= 0
  {
    DivMono(0, x, p);
  }

  /** The quotient is the only number that fits. */
  lemma DivIs(x: nat, p: nat, k: nat)
    requires p > 0 && k * p <= x < k * p + p
    ensures x / p == k
  {
    var d := x / p;
    if d < k {
      MulLe(d + 1, k, p);
      assert false;
    } else if d > k {
      MulLe(k + 1, d, p);
      assert false;
    }
  }

  lemma DivStep(x: nat, p: nat)
    requires p > 0 && x >= p
    ensures (x - p) / p == x / p - 1
  {
    DivIs(x - p, p, x / p - 1);
  }

  /** The largest multiple of `p` that is at most `l`. */
  function Multiple(l: nat, p: nat): (r: nat)
    requires p > 0
    ensures r <= l < r + p
  {
    DivNat(l, p);
    l / p * p
  }

  lemma MultipleOf(c: nat, p: nat)
    requires p > 0
    ensures Multiple(c * p, p) == c * p
  {
    DivIs(c * p, p, c);
  }

  lemma MultipleTwice(l: nat, p: nat)
    requires p > 0
    ensures Multiple(Multiple(l, p), p) == Multiple(l, p)
  {
    DivNat(l, p);
    MultipleOf(l / p, p);
  }
}
