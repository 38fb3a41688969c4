/** alpha = x generates the nonzero symbols; logarithms, inverses, and the field laws they give. */
module GFPowers {
  import opened GF1024

  // ---------- no smaller power of x than x^1023 is 1 ----------

  lemma {:induction false} ExpMultiple(d: nat, k: nat, r: nat)
    requires Exp(d) == 1
    ensures Exp(d * k + r) == Exp(r)
  {
    hide Exp, Mul;
    if k > 0 {
      ExpMultiple(d, k - 1, r);
      ExpAdds(d, d * (k - 1) + r);
      MulOne(Exp(d * (k - 1) + r));
      assert d + (d * (k - 1) + r) == d * k + r;
    }
  }

  /** If x^m = x^d = 1 then x^g = 1 for a common divisor g of m and d. */
  lemma {:induction false} CommonPeriod(m: nat, d: nat) returns (g: nat, p: nat, q: nat)
    requires d > 0 && Exp(m) == 1 && Exp(d) == 1
    ensures g > 0 && m == g * p && d == g * q && Exp(g) == 1
    decreases d
  {
    hide Exp;
    ExpMultiple(d, m / d, m % d);
    if m % d == 0 {
      g, p, q := d, m / d, 1;
    } else {
      var p', q';
      g, p', q' := CommonPeriod(d, m % d);
      Linear(g, p', m / d, q');
      p, q := p' * (m / d) + q', p';
    }
  }

  lemma Linear(g: nat, p: nat, k: nat, q: nat)
    ensures g * p * k + g * q == g * (p * k + q)
  {}

  lemma Divisors1023(g: nat, q: nat)
    requires g * q == 1023 && q >= 2
    ensures g == 341 || g == 93 || g == 33 || g == 31 || g == 11 || g == 3 || g == 1
  {
    if q >= 32 {
      BelowSquare(g, q);
      Small(q, g);
    } else {
      Small(g, q);
    }
  }

  lemma BelowSquare(g: nat, q: nat)
    requires g * q < 1024 && q >= 32
    ensures g < 32
  {}

  lemma Small(g: nat, q: nat)
    requires g * q == 1023 && q < 32
    ensures q == 1 || (q == 3 && g == 341) || (q == 11 && g == 93) || (q == 31 && g == 33)
  {
    match q
    case 2 => case 4 => case 5 => case 6 => case 7 => case 8 => case 9 => case 10 =>
    case 12 => case 13 => case 14 => case 15 => case 16 => case 17 => case 18 => case 19 => case 20 =>
    case 21 => case 22 => case 23 => case 24 => case 25 => case 26 => case 27 => case 28 => case 29 =>
    case 30 => case _ =>
  }

  lemma NotBelow(g: nat, p: nat, q: nat, d: nat)
    requires g * p == 1023 && p < 2 && d == g * q && d > 0
    ensures d >= 1023
  {}

  lemma Primitive(d: nat)
    requires 0 < d < 1023
    ensures Exp(d) != 1
  {
    Order();
    hide Exp;
    if Exp(d) == 1 {
      var g, p, q := CommonPeriod(1023, d);
      if p >= 2 {
        Divisors1023(g, p);
      } else {
        NotBelow(g, p, q, d);
      }
    }
  }

  lemma ExpInjective(i: nat, j: nat)
    requires i < j < 1023
    ensures Exp(i) != Exp(j)
  {
    if Exp(i) == Exp(j) {
      TimesXAdds(1, j - i, i);
      TimesXInjective(1, Exp(j - i), i);
      Primitive(j - i);
    }
  }

  // ---------- hence every nonzero symbol is a power of x ----------

  ghost function Image(n: nat): set<int> {
    if n == 0 then {} else Image(n - 1) + {Exp(n - 1)}
  }

  lemma {:induction false} ImageMember(a: int, n: nat)
    requires a in Image(n)
    ensures exists i: nat :: i < n && Exp(i) == a
  {
    hide Exp;
    if a == Exp(n - 1) {
    } else {
      ImageMember(a, n - 1);
    }
  }

  lemma {:induction false} ImageSize(n: nat)
    requires n <= 1023
    ensures |Image(n)| == n
  {
    hide Exp;
    if n > 0 {
      ImageSize(n - 1);
      if Exp(n - 1) in Image(n - 1) {
        ImageMember(Exp(n - 1), n - 1);
        var i: nat :| i < n - 1 && Exp(i) == Exp(n - 1);
        ExpInjective(i, n - 1);
      }
    }
  }

  lemma {:induction false} ImageBelow(n: nat, t: set<int>)
    requires forall a: int :: 0 < a < 1024 ==> a in t
    ensures Image(n) <= t
  {
    hide Exp;
    if n > 0 {
      ImageBelow(n - 1, t);
      ExpNonzero(n - 1);
    }
  }

  ghost function Below(n: nat): (s: set<int>)
    ensures forall a :: a in s <==> 0 < a <= n
    ensures |s| == n
  {
    if n == 0 then {} else Below(n - 1) + {n}
  }

  lemma SubsetSize(s: set<int>, t: set<int>)
    requires s <= t
    ensures |s| <= |t|
  {
    assert t == s + (t - s);
  }

  lemma ExpOnto(a: Symbol)
    requires a != 0
    ensures exists i: nat :: i < 1023 && Exp(i) == a
  {
    hide Exp;
    OntoBelow(a, 1023);
  }

  lemma Full(s: set<int>, t: set<int>, a: int, n: nat)
    requires |s| == |t| == n
    requires s <= t && a in t
    ensures a in s
  {
    if a !in s {
      SubsetSize(s + {a}, t);
    }
  }

  lemma OntoBelow(a: Symbol, n: nat)
    requires a != 0 && n == 1023
    ensures exists i: nat :: i < n && Exp(i) == a
  {
    ImageSize(n);
    ImageBelow(n, Below(n));
    Full(Image(n), Below(n), a, n);
    ImageMember(a, n);
  }

  /** The exponent below 1023 of a nonzero symbol; 0 for the symbol 0, as the table has it. */
  ghost function Log(a: Symbol): (i: nat)
    ensures i < 1023
    ensures a != 0 ==> Exp(i) == a
    ensures a == 0 ==> i == 0
  {
    if a == 0 then 0
    else
      ExpOnto(a);
      var i: nat :| i < 1023 && Exp(i) == a;
      i
  }

  lemma LogExp(i: nat)
    requires i < 1023
    ensures Log(Exp(i)) == i
  {
    hide Exp;
    ExpNonzero(i);
    var j := Log(Exp(i));
    if j < i { ExpInjective(j, i); }
    if i < j { ExpInjective(i, j); }
  }

  // ---------- field laws ----------

  lemma MulComm(a: Symbol, b: Symbol)
    ensures Mul(a, b) == Mul(b, a)
  {
    hide Mul, Exp;
    if a == 0 {
      MulZero(b);
    } else if b == 0 {
      MulZero(a);
    } else {
      ExpAdds(Log(a), Log(b));
      ExpAdds(Log(b), Log(a));
    }
  }

  lemma MulAssoc(a: Symbol, b: Symbol, c: Symbol)
    ensures Mul(Mul(a, b), c) == Mul(a, Mul(b, c))
  {
    hide Mul, Exp;
    MulZero(a); MulZero(b); MulZero(c); MulZero(Mul(a, b)); MulZero(Mul(b, c));
    if a != 0 && b != 0 && c != 0 {
      ExpAssoc(Log(a), Log(b), Log(c));
    }
  }

  lemma ExpAssoc(i: nat, j: nat, k: nat)
    ensures Mul(Mul(Exp(i), Exp(j)), Exp(k)) == Mul(Exp(i), Mul(Exp(j), Exp(k)))
  {
    hide Mul, Exp;
    ExpAdds(i, j);
    ExpAdds(j, k);
    ExpAdds(i + j, k);
    ExpAdds(i, j + k);
  }

  lemma MulNonzero(a: Symbol, b: Symbol)
    ensures Mul(a, b) == 0 <==> a == 0 || b == 0
  {
    hide Mul, Exp;
    MulZero(a); MulZero(b);
    if a != 0 && b != 0 {
      ExpAdds(Log(a), Log(b));
      ExpNonzero(Log(a) + Log(b));
    }
  }

  /** The inverse that the tables give: 1/a for a nonzero symbol, and 1 for the symbol 0. */
  ghost function Inv(a: Symbol): Symbol {
    Exp(1023 - Log(a))
  }

  lemma InvMul(a: Symbol)
    requires a != 0
    ensures Mul(a, Inv(a)) == 1 && Inv(a) != 0
  {
    Order();
    hide Mul, Exp;
    ExpAdds(Log(a), 1023 - Log(a));
    ExpNonzero(1023 - Log(a));
  }

  // ---------- integer powers of alpha ----------

  /** alpha^k for any integer k. */
  function Alpha(k: int): Symbol {
    Exp(k % 1023)
  }

  lemma ExpMod(n: nat)
    ensures Exp(n) == Exp(n % 1023)
  {
    Order();
    hide Exp;
    ExpMultiple(1023, n / 1023, n % 1023);
  }

  lemma AlphaNat(n: nat)
    ensures Alpha(n) == Exp(n)
  {
    hide Exp;
    ExpMod(n);
  }

  lemma AlphaAdds(k: int, l: int)
    ensures Mul(Alpha(k), Alpha(l)) == Alpha(k + l)
  {
    hide Exp, Mul;
    ExpAdds(k % 1023, l % 1023);
    ExpMod(k % 1023 + l % 1023);
    assert (k % 1023 + l % 1023) % 1023 == (k + l) % 1023;
  }

  lemma AlphaNonzero(k: int)
    ensures Alpha(k) != 0
  {
    ExpNonzero(k % 1023);
  }

  lemma AlphaZero()
    ensures Alpha(0) == 1
  {}

  lemma AlphaDistinct(k: int, l: int)
    requires k < l < k + 1023
    ensures Alpha(k) != Alpha(l)
  {
    hide Exp;
    var i, j := k % 1023, l % 1023;
    assert i != j;
    if i < j { ExpInjective(i, j); } else { ExpInjective(j, i); }
  }
}
