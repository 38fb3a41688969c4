/** Powers of two and division, shared by the other modules. */
module Arithmetic {

  function Pow2(n: nat): (r: nat)
    ensures r > 0
  {
    if n == 0 then 1 else 2 * Pow2(n - 1)
  }

  lemma {:induction false} PowMono(m: nat, n: nat)
    requires m <= n
    ensures Pow2(m) <= Pow2(n)
  {
    if m < n {
      PowMono(m, n - 1);
    }
  }

  lemma Regroup(p: nat, q: nat)
    ensures 2 * p * q == 2 * (p * q)
  {}

  lemma {:induction false} Pow2Adds(m: nat, n: nat)
    ensures Pow2(m + n) == Pow2(m) * Pow2(n)
  {
    if m > 0 {
      Pow2Adds(m - 1, n);
      Regroup(Pow2(m - 1), Pow2(n));
    }
  }

  lemma DivMod(j: nat, d: nat)
    requires d > 0
    ensures j == d * (j / d) + j % d && 0 <= j % d < d && j / d >= 0
  {}

  lemma MulMono(d: nat, x: nat, y: nat)
    requires x <= y
    ensures d * x <= d * y
  {}

  lemma Divide(b: nat, o: nat, d: nat)
    requires o < d
    ensures (d * b + o) / d == b && (d * b + o) % d == o
  {
    var x := d * b + o;
    assert x == d * (x / d) + x % d;
    if x / d < b {
      MulMono(d, x / d + 1, b);
    } else if x / d > b {
      MulMono(d, b + 1, x / d);
    }
  }

  /** (v >> i) & 1. */
  function BitAt(v: nat, i: nat): (b: nat)
    ensures b < 2
    decreases i, v
  {
    if i == 0 then v % 2 else BitAt(v / 2, i - 1)
  }
}
