/** Products, quotients and powers of two: the arithmetic the solver is not asked
    to find by itself. */
module Arith {
  function Pow2(k: nat): (p: nat)
    ensures p > 0
  {
    if k == 0 then 1 else 2 * Pow2(k - 1)
  }

  lemma {:induction false} Pow2Add(m: nat, n: nat)
    ensures Pow2(m + n) == Pow2(m) * Pow2(n)
  {
    if m > 0 { Pow2Add(m - 1, n); }
  }

  lemma {:induction false} Pow2Monotone(m: nat, n: nat)
    requires m <= n
    ensures Pow2(m) <= Pow2(n)
    decreases n
  {
    if m < n { Pow2Monotone(m, n - 1); }
  }

  lemma MulMono(p: nat, q: nat, r: nat)
    requires q <= r
    ensures p * q <= p * r
  {}

  /** Quotient and remainder are the only numbers that divide as they do. */
  lemma QuotientIs(x: nat, m: nat, q: nat, r: nat)
    requires x == m * q + r && r < m
    ensures x / m == q && x % m == r
  {
    var p := x / m;
    assert x == m * p + x % m;
    assert m * (q + 1) == m * q + m && m * (p + 1) == m * p + m;
    if p > q { MulMono(m, q + 1, p); } else if p < q { MulMono(m, p + 1, q); }
  }

  function Min(a: nat, b: nat): nat {
    if a < b then a else b
  }

  function Max(a: nat, b: nat): nat {
    if a > b then a else b
  }

  function AlignDown(a: nat, alignment: nat): nat
    requires alignment > 0
  {
    a - a % alignment
  }

  function AlignUp(a: nat, alignment: nat): nat
    requires alignment > 0
  {
    AlignDown(a + alignment - 1, alignment)
  }
}
