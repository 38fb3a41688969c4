/** Polynomials over GF(2) as numbers, bit i the coefficient of x^i: their product, and the remainder modulo a
    polynomial, on which the cyclic redundancy check of gen_framework.py and the field of
    scripts/aes_gcm/gcm_ref.py rest. */
module Gf2 {
  import opened Arithmetic
  import opened XorNat

  /** The product. */
  function Times(a: nat, b: nat): nat {
    if b == 0 then 0 else Xor(if b % 2 == 1 then a else 0, 2 * Times(a, b / 2))
  }

  /** g has degree k. */
  predicate HasDegree(g: nat, k: nat) {
    Pow2(k) <= g < 2 * Pow2(k)
  }

  /** r is what division of n by g, of degree k, leaves. */
  ghost predicate IsRemainder(n: nat, g: nat, k: nat, r: nat) {
    r < Pow2(k) && exists q: nat :: n == Xor(Times(g, q), r)
  }

  lemma TimesStep(a: nat, b: nat)
    ensures Times(a, b) == Xor(if b % 2 == 1 then a else 0, 2 * Times(a, b / 2))
  {
    if b == 0 {
      XorZero(0);
    }
  }

  lemma Exchange(a: nat, b: nat, c: nat, d: nat)
    ensures Xor(Xor(a, b), Xor(c, d)) == Xor(Xor(a, c), Xor(b, d))
  {
    hide Xor;
    XorAssoc(a, b, Xor(c, d));
    XorAssoc(b, c, d);
    XorComm(b, c);
    XorAssoc(c, b, d);
    XorAssoc(a, c, Xor(b, d));
  }

  lemma Chosen(a: nat, i: nat, j: nat)
    requires i < 2 && j < 2
    ensures (if (i + j) % 2 == 1 then a else 0) == Xor(if i == 1 then a else 0, if j == 1 then a else 0)
  {
    hide Xor;
    XorSelf(a);
    XorZero(a);
    XorZero(0);
  }

  lemma XorHalves(b: nat, c: nat)
    ensures Xor(b, c) % 2 == (b % 2 + c % 2) % 2 && Xor(b, c) / 2 == Xor(b / 2, c / 2)
  {
    XorStep(b, c);
    hide Xor;
    var i, j := b % 2, c % 2;
    assert (i + j) % 2 == if i == j then 0 else 1;
  }

  lemma {:induction false} TimesAdds(a: nat, b: nat, c: nat)
    ensures Times(a, Xor(b, c)) == Xor(Times(a, b), Times(a, c))
    decreases b + c
  {
    if b == 0 && c == 0 {
      XorZero(0);
    } else {
      hide Xor, Times;
      XorHalves(b, c);
      TimesAdds(a, b / 2, c / 2);
      TimesStep(a, b);
      TimesStep(a, c);
      TimesStep(a, Xor(b, c));
      Gathered(a, b % 2, c % 2, Times(a, b / 2), Times(a, c / 2));
    }
  }

  lemma Gathered(a: nat, i: nat, j: nat, p: nat, q: nat)
    requires i < 2 && j < 2
    ensures Xor(if (i + j) % 2 == 1 then a else 0, 2 * Xor(p, q))
      == Xor(Xor(if i == 1 then a else 0, 2 * p), Xor(if j == 1 then a else 0, 2 * q))
  {
    hide Xor;
    Chosen(a, i, j);
    XorDouble(p, q);
    Exchange(if i == 1 then a else 0, 2 * p, if j == 1 then a else 0, 2 * q);
  }

  lemma {:induction false} TimesAddsLeft(a: nat, b: nat, c: nat)
    ensures Times(Xor(a, b), c) == Xor(Times(a, c), Times(b, c))
    decreases c
  {
    if c == 0 {
      XorZero(0);
    } else {
      TimesAddsLeft(a, b, c / 2);
      hide Xor, Times;
      TimesStep(a, c);
      TimesStep(b, c);
      TimesStep(Xor(a, b), c);
      XorZero(0);
      var p, q := Times(a, c / 2), Times(b, c / 2);
      XorDouble(p, q);
      Exchange(if c % 2 == 1 then a else 0, 2 * p, if c % 2 == 1 then b else 0, 2 * q);
    }
  }

  lemma TimesDouble(a: nat, b: nat)
    ensures Times(a, 2 * b) == 2 * Times(a, b)
  {
    assert (2 * b) % 2 == 0 && (2 * b) / 2 == b;
    XorZero(2 * Times(a, b));
  }

  lemma TimesOne(a: nat)
    ensures Times(a, 1) == a
  {
    XorZero(a);
  }

  /** Degrees add, so that a product with a nonzero factor is not below the other factor's degree. */
  lemma {:induction false} TimesDegree(g: nat, k: nat, q: nat, d: nat)
    requires HasDegree(g, k) && HasDegree(q, d)
    ensures HasDegree(Times(g, q), k + d)
    decreases d
  {
    if d == 0 {
      TimesOne(g);
    } else {
      TimesDegree(g, k, q / 2, d - 1);
      TimesStep(g, q);
      hide Times, Xor;
      PowMono(k + 1, k + d);
      TopStays(if q % 2 == 1 then g else 0, 2 * Times(g, q / 2), k + d);
    }
  }

  lemma TopStays(low: nat, high: nat, e: nat)
    requires low < Pow2(e) && HasDegree(high, e)
    ensures HasDegree(Xor(low, high), e)
  {
    XorBound(low, high, e + 1);
    XorTop(low, high, e);
  }

  lemma {:induction false} Degree(q: nat) returns (d: nat)
    requires q > 0
    ensures HasDegree(q, d)
  {
    if q == 1 {
      d := 0;
    } else {
      d := Degree(q / 2);
      d := d + 1;
    }
  }

  /** A remainder is unique. */
  lemma RemainderUnique(n: nat, g: nat, k: nat, r: nat, s: nat)
    requires HasDegree(g, k) && IsRemainder(n, g, k, r) && IsRemainder(n, g, k, s)
    ensures r == s
  {
    var p: nat :| n == Xor(Times(g, p), r);
    var q: nat :| n == Xor(Times(g, q), s);
    hide Xor, Times;
    Exchange(Times(g, p), r, Times(g, q), s);
    XorSelf(n);
    TimesAdds(g, p, q);
    XorSame(Times(g, Xor(p, q)), Xor(r, s));
    XorBound(r, s, k);
    if Xor(p, q) != 0 {
      var d := Degree(Xor(p, q));
      TimesDegree(g, k, Xor(p, q), d);
      PowMono(k, k + d);
    } else {
      TimesNone(g);
      XorSame(r, s);
    }
  }

  lemma TimesNone(g: nat)
    ensures Times(g, 0) == 0
  {}

  lemma XorSame(a: nat, b: nat)
    ensures Xor(a, b) == 0 <==> a == b
  {
    XorSelf(a);
    if Xor(a, b) == 0 {
      XorAssoc(a, b, b);
      XorSelf(b);
      XorZero(a);
      XorZero(b);
    }
  }

  /** Remainders add. */
  lemma RemaindersAdd(m: nat, n: nat, g: nat, k: nat, r: nat, s: nat)
    requires IsRemainder(m, g, k, r) && IsRemainder(n, g, k, s)
    ensures IsRemainder(Xor(m, n), g, k, Xor(r, s))
  {
    var p: nat :| m == Xor(Times(g, p), r);
    var q: nat :| n == Xor(Times(g, q), s);
    hide Xor, Times;
    XorBound(r, s, k);
    Exchange(Times(g, p), r, Times(g, q), s);
    TimesAdds(g, p, q);
    QuotientGiven(Xor(m, n), g, k, Xor(r, s), Xor(p, q));
  }

  lemma QuotientGiven(n: nat, g: nat, k: nat, r: nat, q: nat)
    requires r < Pow2(k) && n == Xor(Times(g, q), r)
    ensures IsRemainder(n, g, k, r)
  {}

  /** The remainder of x times a polynomial, from the remainder of that polynomial. */
  lemma RemainderDoubles(n: nat, g: nat, k: nat, r: nat)
    requires HasDegree(g, k) && IsRemainder(n, g, k, r)
    ensures IsRemainder(2 * n, g, k, if 2 * r >= Pow2(k) then Xor(2 * r, g) else 2 * r)
  {
    var q: nat :| n == Xor(Times(g, q), r);
    hide Xor, Times;
    XorDouble(Times(g, q), r);
    TimesDouble(g, q);
    if 2 * r >= Pow2(k) {
      XorTop(2 * r, g, k);
      XorSelf(g);
      XorZero(2 * r);
      XorAssoc(2 * r, g, g);
      XorComm(Xor(2 * r, g), g);
      XorAssoc(Times(g, 2 * q), g, Xor(2 * r, g));
      TimesOne(g);
      TimesAdds(g, 2 * q, 1);
      assert 2 * n == Xor(Times(g, Xor(2 * q, 1)), Xor(2 * r, g));
    } else {
      assert 2 * n == Xor(Times(g, 2 * q), 2 * r);
    }
  }

  lemma SmallRemainder(n: nat, g: nat, k: nat)
    requires n < Pow2(k)
    ensures IsRemainder(n, g, k, n)
  {
    XorZero(n);
    assert n == Xor(Times(g, 0), n);
  }

  /** A carry beyond bit k cancels the top term of a polynomial of degree k. */
  lemma CarryCancels(d: nat, p: nat, k: nat)
    requires d < Pow2(k) && p < Pow2(k)
    ensures Xor(d + Pow2(k), p + Pow2(k)) == Xor(d, p)
  {
    hide Xor, Pow2;
    XorHigh(d, k);
    XorHigh(p, k);
    Exchange(d, Pow2(k), p, Pow2(k));
    XorSelf(Pow2(k));
    XorZero(Xor(d, p));
  }
}
