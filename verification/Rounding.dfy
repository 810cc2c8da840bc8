/**
 What it means for a binary interchange format to hold the correctly rounded value of an exact
 quotient (IEEE 754-2008, sections 3.4, 4.3.1 and 7.4).

 A format has `p` fraction bits, and its non-negative values are the encodings `0 ..= inf`, where
 `inf` is the encoding of infinity. `Mag` gives the value of an encoding in units of the smallest
 subnormal, so that every finite value is an integer. Infinity takes the place of the first value
 past the largest finite one: rounding to nearest, ties to even, over `0 ..= inf` is then
 rounding with an unbounded exponent followed by the overflow rule.

 An exact value is `num / den` in the same units. All comparisons are multiplied out.
 */
module Rounding {
  import opened Bits

  function Mag(p: nat, enc: nat): nat {
    var f, m := Shr(enc, p), Low(enc, p);
    if f == 0 then m else (Pow2(p) + m) * Pow2(f - 1)
  }

  /** Distance from the value of `enc` to `num / den`, times `den`. */
  function Distance(p: nat, enc: nat, num: nat, den: nat): nat {
    Abs(Mag(p, enc) * den - num)
  }

  /** `r` beats the encoding `other`: closer to the exact value, or as close and even. */
  predicate Beats(p: nat, r: nat, other: nat, num: nat, den: nat) {
    Distance(p, r, num, den) < Distance(p, other, num, den)
    || (Distance(p, r, num, den) == Distance(p, other, num, den) && r % 2 == 0)
  }

  /** `r` is the value nearest to `num / den`, ties to even. */
  ghost predicate Nearest(p: nat, inf: nat, r: nat, num: nat, den: nat) {
    r <= inf && forall other: nat :: other <= inf && other != r ==> Beats(p, r, other, num, den)
  }

  /** Exact value `n / d * 2^e`, for an exponent of either sign. */
  ghost predicate NearestScaled(p: nat, inf: nat, r: nat, n: nat, d: nat, e: int) {
    if e >= 0 then Nearest(p, inf, r, n * Pow2(e), d)
    else Nearest(p, inf, r, n, d * Pow2(-e))
  }

  /**
   `n / d` lies in the unit cell that starts at the integer `w`, and the sticky flag tells whether
   it lies strictly inside.
   */
  predicate InCell(w: nat, s: bool, n: nat, d: nat) {
    w * d <= n < (w + 1) * d && (s <==> w * d != n)
  }

  // ----- encodings in value order

  lemma MagOfNormal(p: nat, enc: nat, e: nat, q: nat)
    requires Shr(enc, p) == e + 1 && q == Pow2(p) + Low(enc, p)
    ensures Mag(p, enc) == q * Pow2(e)
  {
  }

  lemma CarryProduct(p: nat, e: nat, q: nat)
    requires q == 2 * Pow2(p)
    ensures Pow2(p) * Pow2(e + 1) == q * Pow2(e)
  {
    MulFacts(Pow2(p), Pow2(e));
  }

  lemma MagOfSubnormal(p: nat, enc: nat, q: nat)
    requires Shr(enc, p) == 0 && Low(enc, p) == q
    ensures Mag(p, enc) == q * Pow2(0)
  {
  }

  lemma FieldsOfParts(p: nat, e: nat, q: nat, one: nat)
    requires one == Pow2(p) && q <= 2 * one
    ensures var enc := e * one + q;
            if q < one then Shr(enc, p) == e && Low(enc, p) == q
            else if q < 2 * one then Shr(enc, p) == e + 1 && Low(enc, p) == q - one
            else Shr(enc, p) == e + 2 && Low(enc, p) == 0
  {
    MulFacts(e, one);
    MulFacts(e + 1, one);
    if q < one {
      ShrOfSum(e, q, p);
    } else if q < 2 * one {
      ShrOfSum(e + 1, q - one, p);
    } else {
      ShrOfSum(e + 2, 0, p);
    }
  }

  /** The encoding with exponent step `e` and significand `q`, carries included. */
  lemma MagOfParts(p: nat, e: nat, q: nat)
    requires q <= 2 * Pow2(p) && (e > 0 ==> q >= Pow2(p))
    ensures Mag(p, e * Pow2(p) + q) == q * Pow2(e)
  {
    hide Pow2, Mag, Shr, Low;
    var one := Pow2(p);
    var enc := e * one + q;
    FieldsOfParts(p, e, q, one);
    if q < one {
      MagOfSubnormal(p, enc, q);
    } else if q < 2 * one {
      MagOfNormal(p, enc, e, q);
    } else {
      MagOfNormal(p, enc, e + 1, one);
      CarryProduct(p, e, q);
    }
  }

  /** Every encoding is of that form, with the significand below the carry. */
  lemma PartsOfEncoding(p: nat, enc: nat) returns (e: nat, q: nat)
    ensures q < 2 * Pow2(p) && (e > 0 ==> q >= Pow2(p))
    ensures enc == e * Pow2(p) + q
    ensures Mag(p, enc) == q * Pow2(e) && Mag(p, enc + 1) == (q + 1) * Pow2(e)
  {
    e, q := SplitEncoding(p, enc);
    MagOfParts(p, e, q);
    MagOfParts(p, e, q + 1);
  }

  lemma SplitEncoding(p: nat, enc: nat) returns (e: nat, q: nat)
    ensures q < 2 * Pow2(p) && (e > 0 ==> q >= Pow2(p))
    ensures enc == e * Pow2(p) + q
  {
    ShrSplit(enc, p);
    var f := Shr(enc, p);
    if f == 0 {
      e, q := 0, enc;
    } else {
      e, q := f - 1, Low(enc, p) + Pow2(p);
      MulFacts(f - 1, Pow2(p));
    }
  }

  lemma {:induction false} MagMonotone(p: nat, x: nat, y: nat)
    requires x < y
    ensures Mag(p, x) < Mag(p, y)
    decreases y
  {
    var e, q := PartsOfEncoding(p, y - 1);
    assert (q + 1) * Pow2(e) == q * Pow2(e) + Pow2(e);
    if x < y - 1 {
      MagMonotone(p, x, y - 1);
    }
  }

  lemma MagTimes(p: nat, x: nat, y: nat, den: nat)
    requires x <= y
    ensures Mag(p, x) * den <= Mag(p, y) * den
    ensures x < y && den > 0 ==> Mag(p, x) * den < Mag(p, y) * den
  {
    if x < y {
      MagMonotone(p, x, y);
      MulLe(Mag(p, x) + 1, Mag(p, y), den);
      assert (Mag(p, x) + 1) * den == Mag(p, x) * den + den;
    }
  }

  // ----- rounding

  /** Two values cannot both be nearest. */
  lemma NearestUnique(p: nat, inf: nat, r: nat, r': nat, num: nat, den: nat)
    requires den > 0
    requires Nearest(p, inf, r, num, den) && Nearest(p, inf, r', num, den)
    ensures r == r'
  {
    if r != r' {
      var lo, hi := if r < r' then r else r', if r < r' then r' else r;
      assert Beats(p, lo, hi, num, den) && Beats(p, hi, lo, num, den);
      MagTimes(p, lo, hi, den);
      if hi > lo + 1 {
        assert Beats(p, lo, lo + 1, num, den);
        MagTimes(p, lo, lo + 1, den);
        MagTimes(p, lo + 1, hi, den);
      }
    }
  }

  /** Between two neighbours the comparison with the midpoint decides. */
  lemma NearestOfNeighbours(p: nat, inf: nat, x: nat, up: bool, num: nat, den: nat)
    requires den > 0 && x < inf
    requires Mag(p, x) * den <= num <= Mag(p, x + 1) * den
    requires var mid := Mag(p, x) * den + Mag(p, x + 1) * den;
             if up then 2 * num > mid || (2 * num == mid && x % 2 == 1)
             else 2 * num < mid || (2 * num == mid && x % 2 == 0)
    ensures Nearest(p, inf, if up then x + 1 else x, num, den)
  {
    MagTimes(p, x, x + 1, den);
    var r := if up then x + 1 else x;
    forall other: nat | other <= inf && other != r
      ensures Beats(p, r, other, num, den)
    {
      if other <= x {
        MagTimes(p, other, x, den);
      } else {
        MagTimes(p, x + 1, other, den);
      }
    }
  }

  lemma NearestPastInfinity(p: nat, inf: nat, num: nat, den: nat)
    requires den > 0 && num >= Mag(p, inf) * den
    ensures Nearest(p, inf, inf, num, den)
  {
    forall other: nat | other <= inf && other != inf
      ensures Beats(p, inf, other, num, den)
    {
      MagTimes(p, other, inf, den);
    }
  }

  /** A representable exact value is returned as it is. */
  lemma NearestExact(p: nat, inf: nat, r: nat, num: nat, den: nat)
    requires den > 0 && r <= inf && num == Mag(p, r) * den
    ensures Nearest(p, inf, r, num, den)
  {
    forall other: nat | other <= inf && other != r
      ensures Beats(p, r, other, num, den)
    {
      if other < r {
        MagTimes(p, other, r, den);
      } else {
        MagTimes(p, r, other, den);
      }
    }
  }

  // ----- the same exact value over another denominator

  lemma ScaledOrder(a: nat, b: nat, a': nat, b': nat, x: nat, y: nat)
    requires x > 0 && y > 0 && a * x == a' * y && b * x == b' * y
    ensures a < b <==> a' < b'
    ensures a == b <==> a' == b'
  {
    MulLe(a, b, x);
    MulLe(b, a, x);
    MulLe(a', b', y);
    MulLe(b', a', y);
    MulLe(a + 1, b, x);
    MulLe(b + 1, a, x);
    MulLe(a' + 1, b', y);
    MulLe(b' + 1, a', y);
  }

  lemma AbsProduct(x: int, y: int, k: nat)
    requires x * k == y
    ensures Abs(x) * k == Abs(y)
  {
    MulLe(0, x, k);
    MulLe(x, 0, k);
  }

  lemma CrossDistance(m: nat, num: nat, den: nat, num': nat, den': nat)
    requires num * den' == num' * den
    ensures (m * den - num) * den' == (m * den' - num') * den
  {
    assert (m * den - num) * den' == m * den * den' - num * den';
    assert (m * den' - num') * den == m * den' * den - num' * den;
  }

  lemma DistanceRatio(p: nat, enc: nat, num: nat, den: nat, num': nat, den': nat)
    requires num * den' == num' * den
    ensures Distance(p, enc, num, den) * den' == Distance(p, enc, num', den') * den
  {
    hide Mag;
    var m := Mag(p, enc);
    var x, x' := m * den - num, m * den' - num';
    CrossDistance(m, num, den, num', den');
    AbsProduct(x, x * den', den');
    AbsProduct(x', x' * den, den);
  }

  lemma NearestRatio(p: nat, inf: nat, r: nat, num: nat, den: nat, num': nat, den': nat)
    requires den > 0 && den' > 0 && num * den' == num' * den
    requires Nearest(p, inf, r, num, den)
    ensures Nearest(p, inf, r, num', den')
  {
    forall other: nat | other <= inf && other != r
      ensures Beats(p, r, other, num', den')
    {
      assert Beats(p, r, other, num, den);
      DistanceRatio(p, r, num, den, num', den');
      DistanceRatio(p, other, num, den, num', den');
      ScaledOrder(Distance(p, r, num, den), Distance(p, other, num, den),
                  Distance(p, r, num', den'), Distance(p, other, num', den'), den', den);
    }
  }

  lemma PowBalance(u: nat, v: nat, a: nat, b: nat, x: nat, y: nat)
    requires u * Pow2(a) == v * Pow2(b) && a - b == x - y
    ensures u * Pow2(x) == v * Pow2(y)
  {
    hide Pow2;
    if a >= b {
      CancelPow2(u, v, a, b, a - b);
      RestorePow2(u, v, x, y, a - b);
    } else {
      CancelPow2(v, u, b, a, b - a);
      RestorePow2(v, u, y, x, b - a);
    }
  }

  lemma CancelPow2(u: nat, v: nat, a: nat, b: nat, t: nat)
    requires a == b + t && u * Pow2(a) == v * Pow2(b)
    ensures v == u * Pow2(t)
  {
    Pow2Add(t, b);
    ScaledEqual(u * Pow2(t), v, Pow2(b), u, Pow2(t), Pow2(a));
  }

  lemma ScaledEqual(w: nat, v: nat, d: nat, u: nat, x: nat, y: nat)
    requires d > 0 && w == u * x && y == x * d && u * y == v * d
    ensures w == v
  {
    assert w * d == u * y;
    MulLe(w + 1, v, d);
    MulLe(v + 1, w, d);
    MulFacts(w, d);
    MulFacts(v, d);
  }

  lemma RestorePow2(u: nat, v: nat, x: nat, y: nat, t: nat)
    requires x == y + t && v == u * Pow2(t)
    ensures u * Pow2(x) == v * Pow2(y)
  {
    hide Pow2;
    Pow2Add(t, y);
    assert v * Pow2(y) == u * (Pow2(t) * Pow2(y));
  }

  /** `n / d * 2^e` and `num / den` are the same exact value. */
  lemma ScaledRatio(p: nat, inf: nat, r: nat, n: nat, d: nat, e: int, num: nat, den: nat, a: nat, b: nat)
    requires d > 0 && den > 0 && e == a - b
    requires n * den * Pow2(a) == num * d * Pow2(b)
    requires NearestScaled(p, inf, r, n, d, e)
    ensures Nearest(p, inf, r, num, den)
  {
    assert Pow2(0) == 1;
    if e >= 0 {
      PowBalance(n * den, num * d, a, b, e, 0);
      assert n * Pow2(e) * den == n * den * Pow2(e);
      NearestRatio(p, inf, r, n * Pow2(e), d, num, den);
    } else {
      PowBalance(n * den, num * d, a, b, 0, -e);
      assert num * (d * Pow2(-e)) == num * d * Pow2(-e);
      PositiveProduct(d, Pow2(-e));
      NearestRatio(p, inf, r, n, d * Pow2(-e), num, den);
    }
  }

  lemma PositiveProduct(x: nat, y: nat)
    requires x > 0 && y > 0
    ensures x * y > 0
  {
  }

  /** Moving `k` binary places between the denominator and the exponent. */
  lemma ScaledDown(p: nat, inf: nat, r: nat, n: nat, d: nat, e: int, k: nat)
    requires d > 0 && d * Pow2(k) > 0
    requires NearestScaled(p, inf, r, n, d * Pow2(k), e + k)
    ensures NearestScaled(p, inf, r, n, d, e)
  {
    var num, den := if e >= 0 then n * Pow2(e) else n, if e >= 0 then d else d * Pow2(-e);
    var a, b := if e >= 0 then e + k else k, if e >= 0 then 0 else -e;
    assert Pow2(0) == 1;
    Pow2Add(if e >= 0 then e else 0, k);
    if e < 0 {
      PositiveProduct(d, Pow2(-e));
      ThreeFactors(n, d, Pow2(-e), Pow2(k));
    } else {
      ThreeFactors(n, d, Pow2(e), Pow2(k));
    }
    ScaledRatio(p, inf, r, n, d * Pow2(k), e + k, num, den, a, b);
  }

  lemma ThreeFactors(n: nat, d: nat, x: nat, y: nat)
    ensures n * d * (x * y) == n * x * (d * y) * 1
    ensures n * (d * x) * y == n * (d * y) * x
  {
  }

  /** Moving `k` binary places between the numerator and the exponent. */
  lemma ScaledUp(p: nat, inf: nat, r: nat, n: nat, d: nat, e: int, k: nat)
    requires d > 0
    requires NearestScaled(p, inf, r, n * Pow2(k), d, e - k)
    ensures NearestScaled(p, inf, r, n, d, e)
  {
    var num, den := if e >= 0 then n * Pow2(e) else n, if e >= 0 then d else d * Pow2(-e);
    var a, b := if e >= 0 then e else 0, if e >= 0 then k else k - e;
    assert Pow2(0) == 1;
    if e < 0 {
      PositiveProduct(d, Pow2(-e));
      Pow2Add(-e, k);
      FourFactors(n, d, Pow2(-e), Pow2(k));
    } else {
      FourFactors(n, d, Pow2(e), Pow2(k));
    }
    ScaledRatio(p, inf, r, n * Pow2(k), d, e - k, num, den, a, b);
  }

  lemma FourFactors(n: nat, d: nat, x: nat, y: nat)
    ensures n * y * (d * x) * 1 == n * d * (x * y)
    ensures n * y * d * x == n * x * d * y
  {
  }

  // ----- cells, guard and sticky

  /** Dropping `k` low bits of the cell index folds them into the sticky flag. */
  lemma ShiftCell(w: nat, s: bool, n: nat, d: nat, k: nat)
    requires d > 0 && InCell(w, s, n, d)
    ensures d * Pow2(k) > 0
    ensures InCell(Shr(w, k), s || Low(w, k) != 0, n, d * Pow2(k))
  {
    ShrSplit(w, k);
    MergeCells(w, s, n, d, Shr(w, k), Low(w, k), Pow2(k));
  }

  lemma MergeCells(w: nat, s: bool, n: nat, d: nat, q: nat, l: nat, one: nat)
    requires d > 0 && InCell(w, s, n, d) && w == q * one + l && l < one
    ensures d * one > 0 && InCell(q, s || l != 0, n, d * one)
  {
    var u := d * one;
    MergeProduct(q, l, one, d);
    MulFacts(w, d);
    MulFacts(q, u);
    MulFacts(l, d);
    MulLe(l + 1, one, d);
    MulLe(1, l, d);
  }

  lemma MergeProduct(q: nat, l: nat, one: nat, d: nat)
    ensures (q * one + l) * d == q * (d * one) + l * d
    ensures d * one == one * d && (d > 0 && one > 0 ==> d * one > 0)
  {
    assert d > 0 && one > 0 ==> d * one >= one;
  }

  /**
   Rounding a significand `q` with guard `g` and sticky `s` at exponent step `e`: add one exactly
   when the guard is set and the rest or the last bit of `q` is not zero, and stop at infinity.
   */
  lemma RoundCell(p: nat, inf: nat, e: nat, q: nat, g: nat, s: bool, n: nat, d: nat, up: bool)
    requires p > 0 && d > 0 && g <= 1
    requires q < 2 * Pow2(p) && (e > 0 ==> q >= Pow2(p))
    requires InCell(2 * q + g, s, 2 * n, d)
    requires up <==> g == 1 && (s || q % 2 == 1)
    ensures var enc := e * Pow2(p) + q + (if up then 1 else 0);
            Nearest(p, inf, if enc < inf then enc else inf, n * Pow2(e), d)
  {
    hide Pow2, Mag, Nearest, InCell;
    var x, num := e * Pow2(p) + q, n * Pow2(e);
    MagOfParts(p, e, q);
    MagOfParts(p, e, q + 1);
    CellScaled(q, g, s, n, d, Pow2(e), Mag(p, x), Mag(p, x + 1), num);
    EvenMultiple(p, e, q);
    RoundBetween(p, inf, x, up, num, d);
  }

  lemma RoundBetween(p: nat, inf: nat, x: nat, up: bool, num: nat, den: nat)
    requires den > 0
    requires Mag(p, x) * den <= num <= Mag(p, x + 1) * den
    requires var mid := Mag(p, x) * den + Mag(p, x + 1) * den;
             if up then 2 * num > mid || (2 * num == mid && x % 2 == 1)
             else 2 * num < mid || (2 * num == mid && x % 2 == 0)
    ensures var enc := if up then x + 1 else x;
            Nearest(p, inf, if enc < inf then enc else inf, num, den)
  {
    if x < inf {
      NearestOfNeighbours(p, inf, x, up, num, den);
    } else {
      MagTimes(p, inf, x, den);
      NearestPastInfinity(p, inf, num, den);
    }
  }

  lemma EvenMultiple(p: nat, e: nat, q: nat)
    requires p > 0
    ensures (e * Pow2(p) + q) % 2 == q % 2
  {
    MulFacts(e, Pow2(p - 1));
    var h := e * Pow2(p - 1);
    assert e * Pow2(p) == 2 * h;
    EvenPlus(h, q);
  }

  lemma EvenPlus(h: nat, q: nat)
    ensures (2 * h + q) % 2 == q % 2
  {
  }

  lemma CellScaled(q: nat, g: nat, s: bool, n: nat, d: nat, step: nat, m: nat, m': nat, num: nat)
    requires d > 0 && step > 0 && g <= 1 && num == n * step && m == q * step && m' == (q + 1) * step
    requires InCell(2 * q + g, s, 2 * n, d)
    ensures m * d <= num < m' * d
    ensures g == 0 ==> 2 * num < m * d + m' * d
    ensures g == 1 ==> 2 * num >= m * d + m' * d
    ensures g == 1 ==> (2 * num == m * d + m' * d <==> !s)
  {
    var w := 2 * q + g;
    var lo, mid, hi := w * d * step, 2 * n * step, (w + 1) * d * step;
    OrderScaled(w * d, 2 * n, (w + 1) * d, step);
    assert mid == 2 * num;
    CellProducts(q, g, d, step, m, m', lo, hi);
  }

  lemma CellProducts(q: nat, g: nat, d: nat, step: nat, m: nat, m': nat, lo: nat, hi: nat)
    requires g <= 1 && m == q * step && m' == (q + 1) * step
    requires lo == (2 * q + g) * d * step && hi == (2 * q + g + 1) * d * step
    ensures g == 0 ==> lo == 2 * (m * d) && hi == m * d + m' * d
    ensures g == 1 ==> lo == m * d + m' * d && hi == 2 * (m' * d)
  {
    ProductParts(2 * q + g, q, g, d, step);
    ProductParts(2 * q + g + 1, q, g + 1, d, step);
    ProductParts(2 * q + 2, q + 1, 0, d, step);
    MulFacts(q, step);
    MulFacts(m, d);
    assert m' * d == m * d + step * d;
  }

  lemma ProductParts(w: nat, q: nat, g: nat, d: nat, step: nat)
    requires w == 2 * q + g
    ensures w * d * step == 2 * (q * step * d) + g * (step * d)
  {
  }

  lemma OrderScaled(x: nat, y: nat, z: nat, k: nat)
    requires k > 0 && x <= y < z
    ensures x * k <= y * k < z * k
    ensures x == y <==> x * k == y * k
  {
    MulLe(x + 1, y, k);
    MulLe(y + 1, z, k);
    MulLe(x, y, k);
  }
}
