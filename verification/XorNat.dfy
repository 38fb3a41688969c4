/** Exclusive or of natural numbers, as Python's `^` on ints computes it. */
module XorNat {
  import opened Arithmetic

  function Xor(a: nat, b: nat): nat {
    if a == 0 && b == 0 then 0
    else if a % 2 == b % 2 then 2 * Xor(a / 2, b / 2)
    else 2 * Xor(a / 2, b / 2) + 1
  }

  lemma XorStep(a: nat, b: nat)
    ensures Xor(a, b) % 2 == (if a % 2 == b % 2 then 0 else 1)
    ensures Xor(a, b) / 2 == Xor(a / 2, b / 2)
  {
  }

  lemma {:induction false} XorComm(a: nat, b: nat)
    ensures Xor(a, b) == Xor(b, a)
  {
    if a != 0 || b != 0 {
      XorComm(a / 2, b / 2);
    }
  }

  lemma {:induction false} XorAssoc(a: nat, b: nat, c: nat)
    ensures Xor(Xor(a, b), c) == Xor(a, Xor(b, c))
  {
    if a != 0 || b != 0 || c != 0 {
      hide Xor;
      XorStep(a, b);
      XorStep(b, c);
      XorStep(Xor(a, b), c);
      XorStep(a, Xor(b, c));
      XorAssoc(a / 2, b / 2, c / 2);
    }
  }

  lemma {:induction false} XorZero(a: nat)
    ensures Xor(a, 0) == a && Xor(0, a) == a
  {
    if a != 0 {
      XorZero(a / 2);
    }
  }

  lemma {:induction false} XorSelf(a: nat)
    ensures Xor(a, a) == 0
  {
    if a != 0 {
      XorSelf(a / 2);
    }
  }

  /** Xor of two n-bit numbers has n bits. */
  lemma {:induction false} XorBound(a: nat, b: nat, n: nat)
    requires a < Pow2(n) && b < Pow2(n)
    ensures Xor(a, b) < Pow2(n)
  {
    if n > 0 && (a != 0 || b != 0) {
      XorBound(a / 2, b / 2, n - 1);
    }
  }

  lemma XorDouble(a: nat, b: nat)
    ensures Xor(2 * a, 2 * b) == 2 * Xor(a, b)
  {
    if a != 0 || b != 0 {
      assert (2 * a) / 2 == a && (2 * b) / 2 == b;
    }
  }

  /** Bit n of the xor of two (n+1)-bit numbers. */
  lemma {:induction false} XorTop(a: nat, b: nat, n: nat)
    requires a < 2 * Pow2(n) && b < 2 * Pow2(n)
    ensures Xor(a, b) >= Pow2(n) <==> ((a >= Pow2(n)) != (b >= Pow2(n)))
  {
    if n == 0 {
      assert Xor(0, 0) == 0 && Xor(1, 0) == 1 && Xor(0, 1) == 1 && Xor(1, 1) == 0;
    } else {
      XorStep(a, b);
      XorTop(a / 2, b / 2, n - 1);
    }
  }

  lemma XorLow(h: nat, l: nat)
    requires l < 2
    ensures Xor(l, 2 * h) == 2 * h + l
  {
    assert (2 * h) / 2 == h;
    if l != 0 || h != 0 {
      XorZero(h);
      assert l / 2 == 0;
    }
  }

  lemma {:induction false} XorHigh(l: nat, n: nat)
    requires l < Pow2(n)
    ensures Xor(l, Pow2(n)) == l + Pow2(n)
  {
    if n == 0 {
      assert Xor(0, 1) == 1;
    } else {
      XorHigh(l / 2, n - 1);
      XorStep(l, Pow2(n));
      hide Xor;
    }
  }
}
