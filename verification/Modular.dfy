/** Arithmetic modulo q, powers and bit reversal: what the two number-theoretic transforms share. */
module Modular {
  import opened Arithmetic

  /** The coefficients of a polynomial of degree below 256. */
  type Poly = w: seq<int> | |w| == 256 witness seq(256, i => 0)

  /** x % q. */
  function C(q: nat, x: int): (r: int)
    requires q > 0
    ensures 0 <= r < q
  {
    x % q
  }

  lemma CRange(q: nat, x: int)
    requires 0 <= x < q
    ensures C(q, x) == x
  {}

  /** x differs from its residue by a multiple of q. */
  lemma CQuot(q: nat, x: int) returns (k: int)
    requires q > 0
    ensures x == C(q, x) + k * q
  {
    k := x / q;
  }

  /** A residue is determined by being in range and congruent. */
  lemma CUnique(q: nat, x: int, k: int, r: int)
    requires 0 <= r < q && x == r + k * q
    ensures C(q, x) == r
  {
    var l := CQuot(q, x);
    hide C;
    SameQuotient(q, k, l, r, C(q, x));
  }

  lemma SameQuotient(q: nat, k: int, l: int, r: int, s: int)
    requires 0 <= r < q && 0 <= s < q && r + k * q == s + l * q
    ensures k == l && r == s
  {
    assert (k - l) * q == k * q - l * q && (l - k) * q == l * q - k * q;
    if k > l {
      AtLeastOnce(k - l, q);
    } else if k < l {
      AtLeastOnce(l - k, q);
    }
  }

  lemma AtLeastOnce(d: nat, q: nat)
    requires d >= 1
    ensures d * q >= q
  {}

  lemma CIdem(q: nat, x: int)
    requires q > 0
    ensures C(q, C(q, x)) == C(q, x)
  {
    CRange(q, C(q, x));
  }

  lemma CMultiple(q: nat, x: int, k: int)
    requires q > 0
    ensures C(q, x + k * q) == C(q, x)
  {
    var l := CQuot(q, x);
    assert (k + l) * q == k * q + l * q;
    CUnique(q, x + k * q, k + l, C(q, x));
  }

  lemma CEqAdd(q: nat, a: int, a': int, b: int, b': int)
    requires q > 0 && C(q, a) == C(q, a') && C(q, b) == C(q, b')
    ensures C(q, a + b) == C(q, a' + b')
  {
    var k, l := Apart(q, a, a'), Apart(q, b, b');
    hide C;
    assert (k + l) * q == k * q + l * q;
    CMultiple(q, a' + b', k + l);
  }

  /** The multiple of q by which congruent numbers differ. */
  function Apart(q: nat, a: int, a': int): (k: int)
    requires q > 0 && C(q, a) == C(q, a')
    ensures a == a' + k * q
  {
    assert (a / q - a' / q) * q == a / q * q - a' / q * q;
    a / q - a' / q
  }

  lemma CEqMul(q: nat, a: int, a': int, b: int, b': int)
    requires q > 0 && C(q, a) == C(q, a') && C(q, b) == C(q, b')
    ensures C(q, a * b) == C(q, a' * b')
  {
    var k, l := Apart(q, a, a'), Apart(q, b, b');
    hide C, Apart;
    MulMultiples(q, a', b', k, l);
    CMultiple(q, a' * b', a' * l + k * b' + k * q * l);
  }

  lemma MulMultiples(q: nat, a: int, b: int, k: int, l: int)
    ensures (a + k * q) * (b + l * q) == a * b + (a * l + k * b + k * q * l) * q
  {
    var x, y := k * q, l * q;
    assert (a + x) * (b + y) == a * b + a * y + x * b + x * y;
    assert a * y == (a * l) * q;
    assert x * b == (k * b) * q;
    assert x * y == (x * l) * q;
    assert (a * l + k * b + x * l) * q == (a * l) * q + (k * b) * q + (x * l) * q;
  }

  lemma CEqSub(q: nat, a: int, a': int, b: int, b': int)
    requires q > 0 && C(q, a) == C(q, a') && C(q, b) == C(q, b')
    ensures C(q, a - b) == C(q, a' - b')
  {
    hide C;
    CEqMul(q, -1, -1, b, b');
    CEqAdd(q, a, a', -1 * b, -1 * b');
  }

  lemma CAdd(q: nat, a: int, b: int)
    requires q > 0
    ensures C(q, C(q, a) + b) == C(q, a + b) && C(q, a + C(q, b)) == C(q, a + b)
    ensures C(q, C(q, a) + C(q, b)) == C(q, a + b)
  {
    hide C;
    CIdem(q, a); CIdem(q, b);
    CEqAdd(q, C(q, a), a, b, b);
    CEqAdd(q, a, a, C(q, b), b);
    CEqAdd(q, C(q, a), a, C(q, b), b);
  }

  lemma CSub(q: nat, a: int, b: int)
    requires q > 0
    ensures C(q, C(q, a) - b) == C(q, a - b) && C(q, a - C(q, b)) == C(q, a - b)
    ensures C(q, C(q, a) - C(q, b)) == C(q, a - b)
  {
    hide C;
    CIdem(q, a); CIdem(q, b);
    CEqSub(q, C(q, a), a, b, b);
    CEqSub(q, a, a, C(q, b), b);
    CEqSub(q, C(q, a), a, C(q, b), b);
  }

  lemma CMul(q: nat, a: int, b: int)
    requires q > 0
    ensures C(q, C(q, a) * b) == C(q, a * b) && C(q, a * C(q, b)) == C(q, a * b)
    ensures C(q, C(q, a) * C(q, b)) == C(q, a * b)
  {
    hide C;
    CIdem(q, a); CIdem(q, b);
    CEqMul(q, C(q, a), a, b, b);
    CEqMul(q, a, a, C(q, b), b);
    CEqMul(q, C(q, a), a, C(q, b), b);
  }

  lemma MulAssoc(a: int, b: int, c: int)
    ensures a * (b * c) == (a * b) * c
  {}

  lemma Commute(z: int, c: int, y: int)
    ensures z * (c * y) == c * (z * y)
  {}

  lemma Distribute(c: int, x: int, y: int)
    ensures c * (x + y) == c * x + c * y && c * (x - y) == c * x - c * y
  {}

  lemma MinusOne(q: nat, x: int)
    requires q > 0
    ensures C(q, (q - 1) * x) == C(q, -x)
  {
    CMultiple(q, -x, x);
    assert (q - 1) * x == -x + x * q;
  }

  // ---------- powers ----------

  /** pow(b, e, q). */
  function Pow(q: nat, b: int, e: nat): (r: int)
    requires q > 1
    ensures 0 <= r < q
    decreases e, b
  {
    if e == 0 then 1 else C(q, b * Pow(q, b, e - 1))
  }

  lemma {:induction false} PowAdds(q: nat, b: int, m: nat, n: nat)
    requires q > 1
    ensures Pow(q, b, m + n) == C(q, Pow(q, b, m) * Pow(q, b, n))
  {
    var r := Pow(q, b, n);
    CRange(q, r);
    hide C;
    if m > 0 {
      PowAdds(q, b, m - 1, n);
      PowStep(q, b, Pow(q, b, m - 1), r);
    }
  }

  lemma PowStep(q: nat, b: int, p: int, r: int)
    requires q > 0
    ensures C(q, b * C(q, p * r)) == C(q, C(q, b * p) * r)
  {
    hide C;
    CMul(q, b, p * r);
    CMul(q, b * p, r);
    MulAssoc(b, p, r);
  }

  lemma PowOne(q: nat, x: int)
    requires q > 1
    ensures Pow(q, x, 1) == C(q, x)
  {
    assert Pow(q, x, 0) == 1;
  }

  // ---------- bit reversal ----------

  /** The n low bits of x in reverse order. */
  function Rev(x: nat, n: nat): nat
    decreases n, x
  {
    if n == 0 then 0 else (if x % 2 == 1 then Pow2(n - 1) else 0) + Rev(x / 2, n - 1)
  }

  lemma {:induction false} RevShift(x: nat, n: nat)
    requires x < Pow2(n)
    ensures Rev(x, n + 1) == 2 * Rev(x, n)
  {
    if n > 0 {
      RevShift(x / 2, n - 1);
    }
  }

  /** The bit-reversed index of m in terms of that of m / 2. */
  lemma RevHalf(m: nat, n: nat)
    requires n > 0 && m < Pow2(n)
    ensures 2 * Rev(m, n) == (if m % 2 == 1 then Pow2(n) else 0) + Rev(m / 2, n)
  {
    RevShift(m / 2, n - 1);
  }

  lemma {:induction false} RevTop(h: nat, n: nat)
    requires h < Pow2(n)
    ensures Rev(Pow2(n) + h, n + 1) == Rev(h, n + 1) + 1
  {
    if n == 0 {
      assert Rev(1, 1) == 1 && Rev(0, 1) == 0;
    } else {
      RevTop(h / 2, n - 1);
      assert (Pow2(n) + h) / 2 == Pow2(n - 1) + h / 2;
      assert (Pow2(n) + h) % 2 == h % 2;
    }
  }

  lemma {:induction false} RevZero(n: nat)
    ensures Rev(0, n) == 0
  {
    if n > 0 {
      RevZero(n - 1);
    }
  }

  /** The bit-reversed indices of the k-th entry of a level from either end sum to 2^n. */
  lemma {:induction false} RevMirror(n: nat, t: nat, k: nat, p: nat)
    requires t < n && p == Pow2(t) && k < p
    ensures 2 * p - 1 - k < Pow2(n) && Rev(p + k, n) + Rev(2 * p - 1 - k, n) == Pow2(n)
  {
    hide Rev;
    PowMono(t + 1, n);
    if t == 0 {
      RevOne(n);
    } else {
      var m, m' := p + k, 2 * p - 1 - k;
      MirrorHalves(p, Pow2(t - 1), k);
      RevMirror(n, t - 1, k / 2, Pow2(t - 1));
      RevHalf(m, n);
      RevHalf(m', n);
    }
  }

  lemma MirrorHalves(p: nat, h: nat, k: nat)
    requires p == 2 * h && k < p
    ensures (p + k) / 2 == h + k / 2 && (2 * p - 1 - k) / 2 == 2 * h - 1 - k / 2
    ensures (p + k) % 2 + (2 * p - 1 - k) % 2 == 1 && k / 2 < h
  {}

  lemma RevOne(n: nat)
    requires n > 0
    ensures Rev(1, n) + Rev(1, n) == Pow2(n)
  {
    RevZero(n - 1);
    assert Rev(1, n) == Pow2(n - 1) + Rev(0, n - 1);
  }
}
