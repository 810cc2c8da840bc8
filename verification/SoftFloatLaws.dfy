/**
 What correct rounding gives the callers of the arithmetic: the result is determined by the operands,
 exact results come back exactly, and overflow starts where IEEE 754-2008 section 7.4 puts it.
 */
module SoftFloatLaws {
  import opened Bits
  import opened Rounding
  import opened SoftFloat
  import opened SoftFloatArith

  lemma PatternUnique(x: u64, y: u64)
    requires Sign(x) == Sign(y) && Body(x) == Body(y)
    ensures x == y
  {
  }

  /** At most one pattern is a correctly rounded sum. */
  lemma SumUnique(a: u64, b: u64, r: u64, r': u64)
    requires IsSum(a, b, r) && IsSum(a, b, r')
    ensures r == r'
  {
    var sum := Val(a) + Val(b);
    if sum != 0 {
      NearestUnique(52, D_EXP, Body(r), Body(r'), Abs(sum), 1);
      PatternUnique(r, r');
    }
  }

  lemma ProductUnique(a: u64, b: u64, r: u64, r': u64)
    requires IsProduct(a, b, r) && IsProduct(b, a, r')
    ensures r == r'
  {
    hide Mag, Pow2;
    assert Size(a) * Size(b) == Size(b) * Size(a);
    NearestUnique(52, D_EXP, Body(r), Body(r'), Size(a) * Size(b), Pow2(1074));
    PatternUnique(r, r');
  }

  /** A sum that is a double is returned exactly. */
  lemma ExactSum(a: u64, b: u64, r: u64, z: u64)
    requires IsSum(a, b, r) && IsFinite(z) && Val(a) + Val(b) == Val(z) != 0
    ensures r == z
  {
    hide Mag;
    NearestExact(52, D_EXP, Body(z), Size(z), 1);
    NearestUnique(52, D_EXP, Body(r), Body(z), Size(z), 1);
    PatternUnique(r, z);
  }

  /** Every product of a 53-bit significand and a power of two is a value of the format. */
  lemma {:induction false} Representable(p: nat, q: nat, e: nat) returns (enc: nat)
    requires q < 2 * Pow2(p)
    ensures Mag(p, enc) == q * Pow2(e)
    decreases e
  {
    if e == 0 || q >= Pow2(p) {
      MagOfParts(p, e, q);
      enc := e * Pow2(p) + q;
    } else {
      MulAssoc(q, 2, Pow2(e - 1));
      enc := Representable(p, 2 * q, e - 1);
    }
  }

  /** Sterbenz: the difference of two values within a factor of two of each other is a value. */
  lemma DifferenceRepresentable(p: nat, x: nat, y: nat) returns (z: nat)
    requires Mag(p, y) <= Mag(p, x) <= 2 * Mag(p, y)
    ensures Mag(p, z) == Mag(p, x) - Mag(p, y)
  {
    hide Mag, Pow2;
    var e, q := PartsOfEncoding(p, x);
    var e', q' := PartsOfEncoding(p, y);
    StepsInOrder(p, x, y, e, q, e', q');
    var wide := WidenSignificand(q, e, e');
    DifferenceBounds(wide, q', Pow2(e'));
    z := Representable(p, wide - q', e');
  }

  lemma StepsInOrder(p: nat, x: nat, y: nat, e: nat, q: nat, e': nat, q': nat)
    requires q < 2 * Pow2(p) && x == e * Pow2(p) + q
    requires (e' > 0 ==> q' >= Pow2(p)) && y == e' * Pow2(p) + q'
    ensures e < e' ==> Mag(p, x) < Mag(p, y)
  {
    hide Mag, Pow2;
    if e < e' {
      MulLe(e + 1, e', Pow2(p));
      MulFacts(e, Pow2(p));
      MagMonotone(p, x, y);
    }
  }

  lemma WidenSignificand(q: nat, e: nat, e': nat) returns (wide: nat)
    requires e >= e'
    ensures wide * Pow2(e') == q * Pow2(e)
  {
    hide Pow2;
    Pow2Add(e - e', e');
    wide := q * Pow2(e - e');
    MulAssoc(q, Pow2(e - e'), Pow2(e'));
  }

  lemma DifferenceBounds(wide: nat, q: nat, step: nat)
    requires step > 0 && q * step <= wide * step <= 2 * (q * step)
    ensures q <= wide <= 2 * q && (wide - q) * step == wide * step - q * step
  {
    MulLe(wide + 1, q, step);
    MulLe(2 * q + 1, wide, step);
    assert (2 * q + 1) * step == 2 * (q * step) + step;
    assert (wide + 1) * step == wide * step + step;
  }

  /** Subtraction of two doubles of the same sign within a factor of two is exact. */
  lemma SterbenzDifference(a: u64, b: u64, r: u64)
    requires IsFinite(a) && IsFinite(b) && Sign(a) == Sign(b)
    requires Size(b) <= Size(a) <= 2 * Size(b) && IsDifference(a, b, r)
    ensures IsFinite(r) && Val(r) == Val(a) - Val(b)
  {
    hide Mag;
    var z := DifferenceRepresentable(52, Body(a), Body(b));
    if Size(a) == Size(b) {
      MagOfParts(52, 0, 0);
      assert Mag(52, 0) == 0 by { Pow2Values(); }
    } else {
      if z > Body(a) {
        MagMonotone(52, Body(a), z);
      }
      NearestExact(52, D_EXP, z, Mag(52, z), 1);
      NearestUnique(52, D_EXP, Body(r), z, Mag(52, z), 1);
    }
  }

  const LARGEST: u64 := 0x7FEF_FFFF_FFFF_FFFF

  /** Rounding overflows exactly from the midpoint past the largest finite value on. */
  lemma OverflowThreshold(num: nat, den: nat)
    requires den > 0
    ensures Nearest(52, D_EXP, D_EXP, num, den)
            <==> 2 * num >= Mag(52, LARGEST) * den + Mag(52, D_EXP) * den
  {
    hide Mag;
    MagTimes(52, LARGEST, D_EXP, den);
    if num >= Mag(52, D_EXP) * den {
      NearestPastInfinity(52, D_EXP, num, den);
    } else if 2 * num >= Mag(52, LARGEST) * den + Mag(52, D_EXP) * den {
      NearestOfNeighbours(52, D_EXP, LARGEST, true, num, den);
    } else {
      assert Nearest(52, D_EXP, D_EXP, num, den) ==> Beats(52, D_EXP, LARGEST, num, den);
    }
  }

  /** The code breaks the NaN rule of section 6.2 for exactly one kind of operands, in one order. */
  method SumNaNRule(a: u64, b: u64) returns (r: u64)
    requires IsNaN(a) || IsNaN(b)
    ensures IsNaN(r) <==> !(IsInf(a) && IsNaN(b) && Sign(a) == Sign(b))
  {
    r := AddDf3(a, b);
  }

  /** Two such operands: the sum is the infinity in one order and a NaN in the other. */
  method SumNaNRuleFails() returns (r: u64, s: u64)
    ensures IsInf(r) && IsNaN(s)
  {
    var inf, nan: u64 := 0x7FF0_0000_0000_0000, 0x7FF8_0000_0000_0000;
    r := AddDf3(inf, nan);
    s := AddDf3(nan, inf);
  }
}
