/** Products, quotients and powers of two: what several components need to know of them. */
module Arithmetic {

  function Max(a: int, b: int): int {
    if a >= b then a else b
  }

  function Min(a: int, b: int): int {
    if a <= b then a else b
  }

  lemma MulMono(a: int, b: int, c: int)
    requires a <= b && 0 <= c
    ensures a * c <= b * c
  {
  }

  lemma MulNonNeg(a: int, b: int)
    requires 0 <= a && 0 <= b
    ensures 0 <= a * b
  {
  }

  lemma MulLess(a: int, b: int, c: int)
    requires a < b && 0 <= c
    ensures a * c + c <= b * c
  {
    assert (b - a - 1) * c >= 0;
  }

  /** Products with a common factor compare as their other factors do. */
  lemma MulCancel(a: int, b: int, c: int)
    requires 0 < c && a * c < b * c
    ensures a < b
  {
    if b <= a { MulMono(b, a, c); }
  }

  lemma QuotientRemainder(u: int, v: int)
    requires 0 <= u && 0 < v
    ensures u == (u / v) * v + u % v && 0 <= u % v < v && 0 <= u / v
    ensures (u / v) * v <= u < (u / v + 1) * v
  {
  }

  /** `q` is the quotient as soon as its multiples of `v` bracket `u`. */
  lemma QuotientUnique(u: int, v: int, q: int)
    requires 0 <= u && 0 < v && q * v <= u < (q + 1) * v
    ensures u / v == q && u % v == u - q * v
  {
    QuotientRemainder(u, v);
    MulCancel(q, u / v + 1, v);
    MulCancel(u / v, q + 1, v);
  }

  lemma DivExact(a: nat, p: nat)
    requires 0 < p
    ensures (a * p) / p == a && (a * p) % p == 0
  {
    MulNonNeg(a, p);
    assert (a + 1) * p == a * p + p;
    QuotientUnique(a * p, p, a);
  }

  /** How often `d` goes into `a`. */
  lemma DivFits(a: int, d: int, n: int)
    requires a >= 0 && d > 0
    ensures n * d <= a <==> n <= a / d
  {
    QuotientRemainder(a, d);
    if n <= a / d { MulMono(n, a / d, d); } else { MulMono(a / d + 1, n, d); }
  }

  function Pow2(k: nat): nat {
    if k == 0 then 1 else 2 * Pow2(k - 1)
  }

  lemma {:induction false} Pow2Positive(k: nat)
    ensures 0 < Pow2(k)
  {
    if k > 0 { Pow2Positive(k - 1); }
  }

  lemma {:induction false} Pow2Mono(j: nat, k: nat)
    requires j <= k
    ensures Pow2(j) <= Pow2(k)
  {
    if j < k { Pow2Mono(j, k - 1); }
  }
}
