/** Which values the two transforms hold, in plain integers: entry j of the one of scripts/mldsa/mldsa_ref.py is the
    polynomial at 1753^(2 brv8(j) + 1) modulo 8380417 (FIPS 204, section 7.5), and entries 2i and 2i + 1 of the one of
    scripts/mlkem/mlkem_ref.py are its even and odd part at 17^(2 brv7(i) + 1) modulo 3329 (FIPS 203, section 4.3). */
module NttValues {
  import opened Arithmetic
  import opened Modular
  import opened Butterflies
  import opened NttRing
  import MlDsaNtt
  import MlKemNtt

  function Power(b: int, e: nat): int {
    if e == 0 then 1 else b * Power(b, e - 1)
  }

  /** w[o] + w[o + s] x + ... of n terms. */
  function Sum(w: Poly, s: nat, o: nat, x: int, n: nat): int
    requires n > 0 ==> s * (n - 1) + o < 256
  {
    if n == 0 then 0
    else
      Terms(s, n);
      Sum(w, s, o, x, n - 1) + w[s * (n - 1) + o] * Power(x, n - 1)
  }

  lemma Terms(s: nat, n: nat)
    requires n > 0
    ensures n > 1 ==> s * (n - 2) <= s * (n - 1)
  {}

  /** Bits 0 to 7 of j in reverse order. */
  function Brv8(j: nat): nat {
    128 * (j % 2) + 64 * (j / 2 % 2) + 32 * (j / 4 % 2) + 16 * (j / 8 % 2)
      + 8 * (j / 16 % 2) + 4 * (j / 32 % 2) + 2 * (j / 64 % 2) + j / 128 % 2
  }

  function Brv7(j: nat): nat {
    64 * (j % 2) + 32 * (j / 2 % 2) + 16 * (j / 4 % 2) + 8 * (j / 8 % 2) + 4 * (j / 16 % 2) + 2 * (j / 32 % 2)
      + j / 64 % 2
  }

  lemma RevStep(x: nat, n: nat)
    requires n > 0
    ensures Rev(x, n) == (x % 2) * Pow2(n - 1) + Rev(x / 2, n - 1)
  {}

  lemma Halvings(j: nat)
    ensures j / 2 / 2 == j / 4 && j / 4 / 2 == j / 8 && j / 8 / 2 == j / 16 && j / 16 / 2 == j / 32
    ensures j / 32 / 2 == j / 64 && j / 64 / 2 == j / 128
  {}

  lemma Reversal(j: nat)
    ensures Rev(j, 8) == Brv8(j) && Rev(j, 7) == Brv7(j)
  {
    assert Pow2(0) == 1 && Pow2(1) == 2 && Pow2(2) == 4 && Pow2(3) == 8 && Pow2(4) == 16 && Pow2(5) == 32;
    assert Pow2(6) == 64 && Pow2(7) == 128;
    Halvings(j);
    Chain8(j);
    Chain7(j);
  }

  lemma Chain8(j: nat)
    ensures Rev(j, 8) == (j % 2) * Pow2(7) + (j / 2 % 2) * Pow2(6) + (j / 4 % 2) * Pow2(5) + (j / 8 % 2) * Pow2(4)
      + (j / 16 % 2) * Pow2(3) + (j / 32 % 2) * Pow2(2) + (j / 64 % 2) * Pow2(1) + (j / 128 % 2) * Pow2(0)
  {
    hide Rev, Pow2;
    Halvings(j);
    RevStep(j, 8); RevStep(j / 2, 7); RevStep(j / 4, 6); RevStep(j / 8, 5);
    RevStep(j / 16, 4); RevStep(j / 32, 3); RevStep(j / 64, 2); RevStep(j / 128, 1);
    NoneLeft(j / 128 / 2);
  }

  lemma Chain7(j: nat)
    ensures Rev(j, 7) == (j % 2) * Pow2(6) + (j / 2 % 2) * Pow2(5) + (j / 4 % 2) * Pow2(4) + (j / 8 % 2) * Pow2(3)
      + (j / 16 % 2) * Pow2(2) + (j / 32 % 2) * Pow2(1) + (j / 64 % 2) * Pow2(0)
  {
    hide Rev, Pow2;
    Halvings(j);
    RevStep(j, 7); RevStep(j / 2, 6); RevStep(j / 4, 5); RevStep(j / 8, 4);
    RevStep(j / 16, 3); RevStep(j / 32, 2); RevStep(j / 64, 1);
    NoneLeft(j / 64 / 2);
  }

  lemma NoneLeft(x: nat)
    ensures Rev(x, 0) == 0
  {}

  lemma {:induction false} PowIs(q: nat, b: int, e: nat)
    requires q > 1
    ensures Pow(q, b, e) == C(q, Power(b, e))
  {
    if e == 0 {
      CRange(q, 1);
    } else {
      PowIs(q, b, e - 1);
      hide C;
      CMul(q, b, Power(b, e - 1));
    }
  }

  lemma {:induction false} PowerCongruent(q: nat, x: int, y: int, e: nat)
    requires q > 1 && C(q, x) == C(q, y)
    ensures C(q, Power(x, e)) == C(q, Power(y, e))
  {
    hide C;
    if e > 0 {
      PowerCongruent(q, x, y, e - 1);
      CEqMul(q, x, y, Power(x, e - 1), Power(y, e - 1));
    }
  }

  lemma {:induction false} SumCongruent(q: nat, w: Poly, s: nat, o: nat, x: int, y: int, n: nat)
    requires q > 1 && C(q, x) == C(q, y) && (n > 0 ==> s * (n - 1) + o < 256)
    ensures C(q, Sum(w, s, o, x, n)) == C(q, Sum(w, s, o, y, n))
  {
    hide C;
    if n > 0 {
      Terms(s, n);
      SumCongruent(q, w, s, o, x, y, n - 1);
      PowerCongruent(q, x, y, n - 1);
      var c := w[s * (n - 1) + o];
      CEqMul(q, c, c, Power(x, n - 1), Power(y, n - 1));
      CEqAdd(q, Sum(w, s, o, x, n - 1), Sum(w, s, o, y, n - 1), c * Power(x, n - 1), c * Power(y, n - 1));
    }
  }

  /** Horner's rule gives the sum. */
  lemma {:induction false} EvalIsSum(w: Poly, s: nat, o: nat, x: int, n: nat)
    requires o < s && s * n <= 256
    ensures (n > 0 ==> s * (n - 1) + o < 256) && Eval(w[..s * n], s, o, x) == Sum(w, s, o, x, n)
  {
    if n > 0 {
      Shorter(s, n);
      EvalIsSum(w, s, o, x, n - 1);
      var a, b := w[..s * (n - 1)], w[s * (n - 1)..s * n];
      assert w[..s * n] == a + b;
      LastTerm(a, b, s, o, x, n - 1);
    }
  }

  lemma Shorter(s: nat, n: nat)
    requires n > 0
    ensures s * n == s * (n - 1) + s && s * (n - 1) >= 0
  {}

  lemma {:induction false} LastTerm(a: seq<int>, b: seq<int>, s: nat, o: nat, x: int, n: nat)
    requires o < s && |a| == s * n && |b| == s
    ensures Eval(a + b, s, o, x) == Eval(a, s, o, x) + b[o] * Power(x, n)
    decreases n
  {
    if n == 0 {
      assert a + b == b && b[s..] == [];
      assert Eval(b[s..], s, o, x) == 0;
      assert x * 0 == 0;
    } else {
      Shorter(s, n);
      assert (a + b)[s..] == a[s..] + b;
      LastTerm(a[s..], b, s, o, x, n - 1);
      Horner(x, Eval(a[s..], s, o, x), b[o], Power(x, n - 1));
    }
  }

  lemma Horner(x: int, e: int, c: int, p: int)
    ensures x * (e + c * p) == x * e + c * (x * p)
  {
    assert x * (c * p) == c * (x * p);
  }

  /** Entry j is the sum of w[i] y^i with y = 1753^(2 brv8(j) + 1), modulo 8380417. */
  lemma SignatureTransform(w: Poly, j: nat)
    requires j < 256
    ensures NttOf(MlDsaNtt.DSA, w)[j] % 8380417 == Sum(w, 1, 0, Power(1753, 2 * Brv8(j) + 1), 256) % 8380417
  {
    MlDsaNtt.NttIsEvaluation(w, j);
    Reversal(j);
    PowIs(8380417, 1753, 2 * Rev(j, 8) + 1);
    var x, y := Root(MlDsaNtt.DSA, j), Power(1753, 2 * Brv8(j) + 1);
    CIdem(8380417, y);
    assert w[..1 * 256] == w;
    EvalIsSum(w, 1, 0, x, 256);
    hide Sum, Power, Eval, NttOf, Brv8, Rev;
    SumCongruent(8380417, w, 1, 0, x, y, 256);
  }

  lemma Residue(w: Poly, i: nat, o: nat)
    requires i < 128 && o < 2
    ensures NttOf(MlKemNtt.KEM, w)[2 * i + o] % 3329 == Eval(w, 2, o, Root(MlKemNtt.KEM, i)) % 3329
  {
    MlKemNtt.NttIsResidue(w, i);
    hide NttOf, Root, Eval;
  }

  /** Entries 2i and 2i + 1 are the sums of w[2m] y^m and of w[2m + 1] y^m with y = 17^(2 brv7(i) + 1), modulo 3329. */
  lemma EncapsulationTransform(w: Poly, i: nat, o: nat)
    requires i < 128 && o < 2
    ensures NttOf(MlKemNtt.KEM, w)[2 * i + o] % 3329 == Sum(w, 2, o, Power(17, 2 * Brv7(i) + 1), 128) % 3329
  {
    hide Sum, Power, Eval, NttOf, Brv7, Rev, Pow;
    Residue(w, i, o);
    Reversal(i);
    PowIs(3329, 17, 2 * Rev(i, 7) + 1);
    var x, y := Root(MlKemNtt.KEM, i), Power(17, 2 * Brv7(i) + 1);
    CIdem(3329, y);
    assert w[..2 * 128] == w;
    EvalIsSum(w, 2, o, x, 128);
    SumCongruent(3329, w, 2, o, x, y, 128);
  }
}
