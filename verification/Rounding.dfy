/** Rounding and hints of scripts/mldsa/mldsa_ref.py (FIPS 204, Algorithms 35 to 40). */
module Rounding {
  import opened Modular
  import opened MlDsaNtt

  /** r mod+- a: the representative in (-a/2, a/2] when a is even, in [-(a-1)/2, (a-1)/2] when a is odd. */
  function ModPm(r: int, a: int): (s: int)
    requires a > 0
    ensures -a < 2 * s <= a
    ensures s == r % a || s == r % a - a
  {
    var x := r % a;
    if x > a / 2 then x - a else x
  }

  function Power2Round(r: int): (int, int) {
    var x := r % Q;
    var r0 := ModPm(x, 8192);
    ((x - r0) / 8192, r0)
  }

  /** The two values that gamma2 takes: (q - 1) / 88 and (q - 1) / 32. */
  predicate IsG2(g2: int) {
    g2 == 95232 || g2 == 261888
  }

  /** The number of high parts. */
  function Highs(g2: int): (m: int)
    requires IsG2(g2)
    ensures m == 44 || m == 16
  {
    (Q - 1) / (2 * g2)
  }

  function Decompose(r: int, g2: int): (int, int)
    requires IsG2(g2)
  {
    var x := r % Q;
    var r0 := ModPm(x, 2 * g2);
    if x - r0 == Q - 1 then (0, r0 - 1) else ((x - r0) / (2 * g2), r0)
  }

  function HighBits(r: int, g2: int): int
    requires IsG2(g2)
  {
    Decompose(r, g2).0
  }

  function LowBits(r: int, g2: int): int
    requires IsG2(g2)
  {
    Decompose(r, g2).1
  }

  function MakeHint(z: int, r: int, g2: int): (h: int)
    requires IsG2(g2)
  {
    if HighBits(r, g2) != HighBits(r + z, g2) then 1 else 0
  }

  function UseHint(h: int, r: int, g2: int): int
    requires IsG2(g2)
  {
    var m := (Q - 1) / (2 * g2);
    var (r1, r0) := Decompose(r, g2);
    if h != 0 && r0 > 0 then (r1 + 1) % m
    else if h != 0 && r0 <= 0 then (r1 - 1) % m
    else r1
  }

  // ---------- what the parts are ----------

  /** Splitting off the low 13 bits loses nothing, and the parts fit their encodings. */
  lemma Power2RoundParts(r: int)
    ensures var (r1, r0) := Power2Round(r); r1 * 8192 + r0 == C(Q, r) && 0 <= r1 < 1024 && -4096 < r0 <= 4096
  {
    var x := r % Q;
    var s := x % 8192;
    assert x == (x / 8192) * 8192 + s;
  }

  /** (a1, a0) is a split of r: the intervals of the high parts tile Z_q, that of 0 being one longer
      because it also takes the multiple q - 1 of 2 gamma2. */
  predicate IsSplit(r: int, a1: int, a0: int, g2: int)
    requires IsG2(g2)
  {
    && 0 <= a1 < Highs(g2)
    && (if a1 == 0 then -g2 <= a0 <= g2 else -g2 < a0 <= g2)
    && C(Q, r) == C(Q, a1 * (2 * g2) + a0)
  }

  /** Decompose finds a split, including at the wrap q - 1. */
  lemma DecomposeSplits(r: int, g2: int)
    requires IsG2(g2)
    ensures IsSplit(r, HighBits(r, g2), LowBits(r, g2), g2)
  {
    if g2 == 95232 { DecomposeSplits88(r); } else { DecomposeSplits32(r); }
  }

  lemma DecomposeSplits88(r: int)
    ensures IsSplit(r, HighBits(r, 95232), LowBits(r, 95232), 95232)
  {
    var x := r % Q;
    var k, s := x / 190464, x % 190464;
    assert x == k * 190464 + s;
  }

  lemma DecomposeSplits32(r: int)
    ensures IsSplit(r, HighBits(r, 261888), LowBits(r, 261888), 261888)
  {
    var x := r % Q;
    var k, s := x / 523776, x % 523776;
    assert x == k * 523776 + s;
  }

  /** A split is unique. */
  lemma SplitUnique(r: int, a1: int, a0: int, g2: int)
    requires IsG2(g2) && IsSplit(r, a1, a0, g2)
    ensures HighBits(r, g2) == a1 && LowBits(r, g2) == a0
  {
    DecomposeSplits(r, g2);
    var b1, b0 := HighBits(r, g2), LowBits(r, g2);
    hide Decompose, HighBits, LowBits;
    if g2 == 95232 { SameSplit88(a1, a0, b1, b0); } else { SameSplit32(a1, a0, b1, b0); }
  }

  lemma SameSplit88(a1: int, a0: int, b1: int, b0: int)
    requires 0 <= a1 < 44 && 0 <= b1 < 44 && C(Q, a1 * 190464 + a0) == C(Q, b1 * 190464 + b0)
    requires if a1 == 0 then -95232 <= a0 <= 95232 else -95232 < a0 <= 95232
    requires if b1 == 0 then -95232 <= b0 <= 95232 else -95232 < b0 <= 95232
    ensures a1 == b1 && a0 == b0
  {
    var x, y := a1 * 190464 + a0, b1 * 190464 + b0;
    var k := CQuot(Q, x);
    var l := CQuot(Q, y);
    assert -1 <= k - l <= 1;
  }

  lemma SameSplit32(a1: int, a0: int, b1: int, b0: int)
    requires 0 <= a1 < 16 && 0 <= b1 < 16 && C(Q, a1 * 523776 + a0) == C(Q, b1 * 523776 + b0)
    requires if a1 == 0 then -261888 <= a0 <= 261888 else -261888 < a0 <= 261888
    requires if b1 == 0 then -261888 <= b0 <= 261888 else -261888 < b0 <= 261888
    ensures a1 == b1 && a0 == b0
  {
    var x, y := a1 * 523776 + a0, b1 * 523776 + b0;
    var k := CQuot(Q, x);
    var l := CQuot(Q, y);
    assert -1 <= k - l <= 1;
  }

  // ---------- hints ----------

  /** Moving r by d moves its split by d, as long as the low part stays in range. */
  lemma ShiftedSplit(r: int, d: int, g2: int, k: int)
    requires IsG2(g2)
    requires var a1, a0 := HighBits(r, g2) + k, LowBits(r, g2) + d - k * (2 * g2);
      0 <= a1 < Highs(g2) && (if a1 == 0 then -g2 <= a0 <= g2 else -g2 < a0 <= g2)
    ensures HighBits(r + d, g2) == HighBits(r, g2) + k
    ensures LowBits(r + d, g2) == LowBits(r, g2) + d - k * (2 * g2)
  {
    DecomposeSplits(r, g2);
    var b1, b0 := HighBits(r, g2), LowBits(r, g2);
    hide Decompose, HighBits, LowBits, C;
    CEqAdd(Q, r, b1 * (2 * g2) + b0, d, d);
    assert b1 * (2 * g2) + b0 + d == (b1 + k) * (2 * g2) + (b0 + d - k * (2 * g2));
    SplitUnique(r + d, b1 + k, b0 + d - k * (2 * g2), g2);
  }

  /** The same around the wrap: above the last high part comes the part 0, one lower because q - 1 is
      a multiple of 2 gamma2. */
  lemma WrapUp(r: int, d: int, g2: int)
    requires IsG2(g2) && HighBits(r, g2) == Highs(g2) - 1
    requires -g2 <= LowBits(r, g2) + d - 2 * g2 - 1 <= g2
    ensures HighBits(r + d, g2) == 0
  {
    DecomposeSplits(r, g2);
    var b1, b0 := HighBits(r, g2), LowBits(r, g2);
    hide Decompose, HighBits, LowBits, C;
    CEqAdd(Q, r, b1 * (2 * g2) + b0, d, d);
    assert b1 * (2 * g2) + b0 + d == (0 * (2 * g2) + (b0 + d - 2 * g2 - 1)) + 1 * Q;
    CMultiple(Q, 0 * (2 * g2) + (b0 + d - 2 * g2 - 1), 1);
    SplitUnique(r + d, 0, b0 + d - 2 * g2 - 1, g2);
  }

  lemma WrapDown(r: int, d: int, g2: int)
    requires IsG2(g2) && HighBits(r, g2) == 0
    requires -g2 < LowBits(r, g2) + d + 2 * g2 + 1 <= g2
    ensures HighBits(r + d, g2) == Highs(g2) - 1
  {
    DecomposeSplits(r, g2);
    var b0, m := LowBits(r, g2), Highs(g2);
    hide Decompose, HighBits, LowBits, C;
    CEqAdd(Q, r, 0 * (2 * g2) + b0, d, d);
    assert (m - 1) * (2 * g2) + (b0 + d + 2 * g2 + 1) == (b0 + d) + 1 * Q;
    CMultiple(Q, b0 + d, 1);
    SplitUnique(r + d, m - 1, b0 + d + 2 * g2 + 1, g2);
  }

  /** The part above and the part below, around the wrap. */
  function Above(r1: int, m: int): int {
    if r1 + 1 < m then r1 + 1 else 0
  }

  function Below(r1: int, m: int): int {
    if r1 > 0 then r1 - 1 else m - 1
  }

  /** A shift of size at most gamma2 keeps the high part or moves it by one, in the direction of the
      sign of the low part. */
  lemma NeighbourPart(r: int, d: int, g2: int)
    requires IsG2(g2) && -g2 <= d <= g2
    ensures var r1, v1, m := HighBits(r, g2), HighBits(r + d, g2), Highs(g2);
      v1 == r1 || v1 == if LowBits(r, g2) > 0 then Above(r1, m) else Below(r1, m)
  {
    DecomposeSplits(r, g2);
    var r1, r0, m := HighBits(r, g2), LowBits(r, g2), Highs(g2);
    hide Decompose, HighBits, LowBits, C;
    if if r1 == 0 then -g2 <= r0 + d <= g2 else -g2 < r0 + d <= g2 {
      ShiftedSplit(r, d, g2, 0);
    } else if r0 > 0 {
      if r1 + 1 < m {
        ShiftedSplit(r, d, g2, 1);
      } else {
        WrapUp(r, d, g2);
      }
    } else {
      if r1 > 0 {
        ShiftedSplit(r, d, g2, -1);
      } else {
        WrapDown(r, d, g2);
      }
    }
  }

  lemma StepModulo(r1: int, g2: int)
    requires IsG2(g2) && 0 <= r1 < Highs(g2)
    ensures (r1 + 1) % Highs(g2) == Above(r1, Highs(g2)) && (r1 - 1) % Highs(g2) == Below(r1, Highs(g2))
  {
    if g2 == 95232 { assert Highs(g2) == 44; } else { assert Highs(g2) == 16; }
  }

  /** A hint made for a shift of size at most gamma2 recovers the high part of the shifted value. */
  lemma HintRecovers(z: int, r: int, g2: int)
    requires IsG2(g2) && -g2 <= ModPm(z, Q) <= g2
    ensures UseHint(MakeHint(z, r, g2), r, g2) == HighBits(r + z, g2)
  {
    var d := ModPm(z, Q);
    SameResidue(r, z);
    assert HighBits(r + z, g2) == HighBits(r + d, g2);
    DecomposeSplits(r, g2);
    NeighbourPart(r, d, g2);
    StepModulo(HighBits(r, g2), g2);
    assert Decompose(r, g2) == (HighBits(r, g2), LowBits(r, g2));
    hide Decompose, HighBits, LowBits, ModPm, C, Above, Below, IsSplit;
  }

  lemma SameResidue(r: int, z: int)
    ensures (r + z) % Q == (r + ModPm(z, Q)) % Q
  {
    var d := ModPm(z, Q);
    assert z % Q == d % Q;
    assert C(Q, z) == C(Q, d);
    CEqAdd(Q, r, r, z, d);
  }

  /** A low part with room to spare on both sides keeps the high part under a small shift. */
  lemma HighBitsStable(r: int, d: int, g2: int, b: int)
    requires IsG2(g2) && -b <= d <= b && -(g2 - b) < LowBits(r, g2) < g2 - b
    ensures HighBits(r + d, g2) == HighBits(r, g2)
    ensures LowBits(r + d, g2) == LowBits(r, g2) + d
  {
    DecomposeSplits(r, g2);
    ShiftedSplit(r, d, g2, 0);
  }
}
