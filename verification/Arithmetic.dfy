/** Division with remainder, used wherever the program wraps an index or cuts an array in blocks. */
module Arithmetic {

  function Abs(x: real): (r: real)
    ensures r >= 0.0 && (r == x || r == -x)
  {
    if x < 0.0 then -x else x
  }

  lemma MulMonotone(a: nat, b: nat, d: nat)
    ensures a <= b ==> a * d <= b * d
  {
  }

  /** Quotient and remainder are determined by their range. */
  lemma Quotient(x: nat, d: nat, q: nat, r: nat)
    requires x == q * d + r && r < d
    ensures x / d == q && x % d == r
  {
    var p := x / d;
    assert p * d <= x < p * d + d;
    MulMonotone(p + 1, q, d);
    MulMonotone(q + 1, p, d);
  }

  /** Moving k < d positions further around a ring of d positions. */
  lemma RingAdvance(x: nat, k: nat, d: nat)
    requires d >= 1 && k <= d
    ensures (x + k) % d == if x % d + k < d then x % d + k else x % d + k - d
  {
    var q, r := x / d, x % d;
    assert x == q * d + r && (q + 1) * d == q * d + d;
    if r + k < d {
      Quotient(x + k, d, q, r + k);
    } else {
      Quotient(x + k, d, q + 1, r + k - d);
    }
  }
}
