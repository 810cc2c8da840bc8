/**
 The binary64 runtime: `df_unpack`, `df_pack`, the normalisers and the four operations
 (lib/compiler_rt_softfloat.c).

 A double is its 64-bit pattern. `Val` reads a pattern as an exact integer number of units of
 2^-1074, the smallest subnormal, so a sum of doubles is an integer sum, and a product or a quotient
 is a ratio of integers. Flags that C keeps in an `int` are `bool` here.
 */
module SoftFloat {
  import opened Bits
  import opened Rounding

  const D_SIGN: u64 := 0x8000_0000_0000_0000
  const D_EXP: u64 := 0x7FF0_0000_0000_0000
  const D_FRAC: u64 := 0x000F_FFFF_FFFF_FFFF
  const D_IMPL: u64 := 0x0010_0000_0000_0000
  const D_QUIET: u64 := 0x0008_0000_0000_0000

  // ----- reading a pattern

  function Sign(x: u64): nat { x / D_SIGN }
  function Body(x: u64): nat { x % D_SIGN }
  predicate IsNaN(x: u64) { Body(x) > D_EXP }
  predicate IsInf(x: u64) { Body(x) == D_EXP }
  predicate IsFinite(x: u64) { Body(x) < D_EXP }
  predicate IsZero(x: u64) { Body(x) == 0 }

  /** Magnitude in units of 2^-1074; infinity stands for the first value past the finite ones. */
  function Size(x: u64): nat { Mag(52, Body(x)) }

  function Val(x: u64): int {
    var size: int := Size(x);
    if Sign(x) == 1 then -size else size
  }

  /** `r` has the given sign and the correctly rounded magnitude of `num / den`. */
  ghost predicate RoundsTo(r: u64, sign: nat, num: nat, den: nat) {
    Sign(r) == sign && Nearest(52, D_EXP, Body(r), num, den)
  }

  lemma SignedZero(sign: nat)
    requires sign <= 1
    ensures Shl64(sign, 63) == sign * D_SIGN
    ensures Sign(Shl64(sign, 63)) == sign && Body(Shl64(sign, 63)) == 0
  {
    Pow2Values();
  }

  /** Fields joined by `|`. */
  lemma JoinFields(sign: nat, field: nat, frac: nat)
    requires sign <= 1 && field < 2048 && frac < D_IMPL
    ensures Or(Or(Shl64(sign, 63), Shl64(field, 52)), frac) == sign * D_SIGN + field * D_IMPL + frac
    ensures Or(Shl64(sign, 63), field * D_IMPL + frac) == sign * D_SIGN + field * D_IMPL + frac
  {
    Pow2Values();
    hide Or, Pow2;
    OrShifted(sign, field * D_IMPL, 63);
    OrShifted(sign, field * D_IMPL + frac, 63);
    OrShifted(sign * 2048 + field, frac, 52);
    SignedZero(sign);
    assert Shl64(field, 52) == field * D_IMPL;
    assert (sign * 2048 + field) * D_IMPL == sign * D_SIGN + field * D_IMPL;
  }

  lemma SplitFields(x: u64)
    ensures Shr(x, 63) == Sign(x) <= 1
    ensures And(Shr(x, 52), 0x7FF) == Shr(Body(x), 52) < 2048
    ensures And(x, D_FRAC) == Low(Body(x), 52) < D_IMPL
    ensures Body(x) == Shr(Body(x), 52) * D_IMPL + Low(Body(x), 52)
  {
    Pow2Values();
    hide Shr, Low, And, Pow2;
    ShrIsDivision(x, 63);
    ShrIsDivision(x, 52);
    ShrIsDivision(Body(x), 52);
    AndMask(Shr(x, 52), 11);
    ShrIsDivision(Shr(x, 52), 11);
    AndMask(x, 52);
    ConstantFields(x);
  }

  lemma ConstantFields(x: u64)
    ensures x / D_IMPL % 2048 == Body(x) / D_IMPL
    ensures x % D_IMPL == Body(x) % D_IMPL
  {
    var field, frac := Body(x) / D_IMPL, Body(x) % D_IMPL;
    assert x == (Sign(x) * 2048 + field) * D_IMPL + frac;
    assert x / D_IMPL == Sign(x) * 2048 + field;
  }

  // ----- df_unpack

  /**
   `sig * 2^exp` is the magnitude of a finite pattern, with the leading bit of `sig` at bit 52. Both
   sides are multiplied by 2^1126, the largest shift that keeps a subnormal an integer.
   */
  predicate Unpacked(x: u64, exp: int, sig: nat) {
    D_IMPL <= sig < 2 * D_IMPL && -1126 <= exp <= 971
    && sig * Pow2(exp + 1126) == Size(x) * Pow2(52)
  }

  method DfUnpack(x: u64) returns (zero: bool, sign: nat, exp: int, sig: u64)
    ensures sign == Sign(x) <= 1
    ensures zero <==> IsZero(x)
    ensures exp == 0x7FFF <==> !IsFinite(x)
    ensures !IsFinite(x) ==> (sig == 0 <==> IsInf(x))
    ensures IsFinite(x) && !zero ==> Unpacked(x, exp, sig)
  {
    hide Shr, Low, And, Or, Pow2, Shl64;
    SplitFields(x);
    sign := Shr(x, 63);
    var f := And(Shr(x, 52), 0x7FF);
    var m: u64 := And(x, D_FRAC);
    if f == 0x7FF {
      return false, sign, 0x7FFF, m;
    }
    if f == 0 {
      if m == 0 {
        return true, sign, 0, 0;
      }
      var k := 0;
      ghost var m0 := m;
      DoubleStep(m0, 0);
      ImplicitBit(m);
      while And(m, D_IMPL) == 0
        invariant 0 < m < 2 * D_IMPL && m == m0 * Pow2(k)
        invariant And(m, D_IMPL) == 0 <==> m < D_IMPL
        decreases 2 * D_IMPL - m
      {
        DoubleStep(m0, k);
        m := Shl64(m, 1);
        k := k + 1;
        ImplicitBit(m);
      }
      UnpackedSubnormal(x, m0, k, m);
      return false, sign, -1074 - k, m;
    }
    UnpackedNormal(x, f, m);
    exp := f;
    return false, sign, exp - 1075, Or(m, D_IMPL);
  }

  lemma ImplicitBit(m: nat)
    requires m < 2 * D_IMPL
    ensures And(m, D_IMPL) == 0 <==> m < D_IMPL
  {
    Pow2Values();
    hide Pow2, And, Shr;
    AndBit(m, 52);
    ShrIsDivision(m, 52);
  }

  lemma DoubleStep(m0: nat, k: nat)
    ensures Pow2(0) == 1
    ensures var m := m0 * Pow2(k);
            m < D_IMPL ==> Shl64(m, 1) == 2 * m == m0 * Pow2(k + 1)
  {
    assert Pow2(1) == 2;
    MulFacts(m0, Pow2(k));
  }

  lemma UnpackedSubnormal(x: u64, m0: nat, k: nat, m: nat)
    requires Size(x) == m0 && m0 > 0 && m == m0 * Pow2(k) && D_IMPL <= m < 2 * D_IMPL
    ensures k <= 52 && Unpacked(x, -1074 - k, m)
  {
    Pow2Values();
    if k > 52 {
      Pow2Monotone(53, k);
      MulLe(1, m0, Pow2(k));
    }
    assert k <= 52;
    Pow2Add(k, 52 - k);
    MulAssoc(m0, Pow2(k), Pow2(52 - k));
  }

  lemma MulAssoc(x: int, y: int, z: int)
    ensures x * y * z == x * (y * z)
  {
  }

  lemma UnpackedNormal(x: u64, f: nat, m: u64)
    requires 0 < f < 0x7FF && f == Shr(Body(x), 52) && m == Low(Body(x), 52)
    ensures Or(m, D_IMPL) == m + D_IMPL && Unpacked(x, f - 1075, m + D_IMPL)
  {
    Pow2Values();
    OrShifted(1, m, 52);
    hide Mag;
    MagOfNormal(52, Body(x), f - 1, m + D_IMPL);
    Pow2Add(f - 1, 52);
    MulAssoc(m + D_IMPL, Pow2(f - 1), Pow2(52));
  }

  // ----- df_pack

  function Bit(b: bool): nat { if b then 1 else 0 }

  /** The exact value is `n / d` in units of `2^e`; `q`, guard and sticky are its leading digits. */
  predicate Leading(q: nat, g: bool, s: bool, n: nat, d: nat) {
    d > 0 && InCell(2 * q + Bit(g), s, 2 * n, d)
  }

  method DfPack(sign: nat, e0: int, q0: u64, g0: bool, s0: bool, ghost n: nat, ghost d: nat) returns (r: u64)
    requires sign <= 1 && D_IMPL <= q0 < 2 * D_IMPL
    requires Leading(q0, g0, s0, n, d)
    ensures Sign(r) == sign && NearestScaled(52, D_EXP, Body(r), n, d, e0 + 1074)
  {
    hide Shr, Low, And, Or, Pow2, Shl64, Ones64, Nearest, Leading;
    var e, q, g, s := e0, q0, g0, s0;
    var wasSubnormal := false;
    ghost var den := d;
    SignedZero(sign);
    if e < -1074 {
      var shift: nat := -1074 - e;
      if shift > 54 {
        TooSmall(q, g, s, n, d, shift);
        return Shl64(sign, 63);
      }
      PackShift(q, g, s, n, d, shift);
      var ng := And(Shr(q, shift - 1), 1) == 1;
      var mask := Ones64(shift - 1);
      s := s || g || And(q, mask) != 0;
      g := ng;
      q := Shr(q, shift);
      e := e + shift;
      wasSubnormal := true;
      den := d * Pow2(shift);
    }
    ghost var step := e + 1074;
    ghost var body := step * D_IMPL + q + Bit(g && (s || q % 2 == 1));
    PackRound(step, q, g, s, n, den);
    PackScale(n, d, e0, e, if body < D_EXP then body else D_EXP);

    AndOne(q);
    if g && (s || And(q, 1) == 1) {
      q := q + 1;
      CarryOut(q);
      if q == Shl64(D_IMPL, 1) {
        q := Shr(q, 1);
        e := e + 1;
      }
    }
    LowFraction(q);
    if e > 971 {
      JoinFields(sign, 2047, 0);
      return Or(Shl64(sign, 63), D_EXP);
    }
    if wasSubnormal {
      if q == 0 {
        return Shl64(sign, 63);
      }
      if q == D_IMPL {
        JoinFields(sign, 1, 0);
        return Or(Shl64(sign, 63), D_IMPL);
      }
      JoinFields(sign, 0, q);
      return Or(Shl64(sign, 63), q);
    }
    JoinFields(sign, e + 1075, q - D_IMPL);
    return Or(Or(Shl64(sign, 63), Shl64(e + 1075, 52)), And(q, D_FRAC));
  }

  lemma CarryOut(q: nat)
    ensures Shl64(D_IMPL, 1) == 2 * D_IMPL
    ensures q == 2 * D_IMPL ==> Shr(q, 1) == D_IMPL
  {
    assert Pow2(1) == 2 && Shr(q, 1) == q / 2;
  }

  lemma LowFraction(q: nat)
    requires q < 2 * D_IMPL
    ensures And(q, D_FRAC) == if q < D_IMPL then q else q - D_IMPL
  {
    Pow2Values();
    hide Pow2, Shr, Low, And;
    AndMask(q, 52);
    ShrIsDivision(q, 52);
  }

  lemma TooSmall(q: nat, g: bool, s: bool, n: nat, d: nat, shift: int)
    requires q < 2 * D_IMPL && Leading(q, g, s, n, d) && shift > 54
    ensures NearestScaled(52, D_EXP, 0, n, d, -shift)
  {
    hide Pow2, Mag, Nearest;
    var den := d * Pow2(shift);
    Pow2Monotone(54, shift);
    Pow2Values();
    SmallMags();
    TooSmallProducts(2 * q + Bit(g) + 1, d, 2 * n, Pow2(54), Pow2(shift));
    NearestOfNeighbours(52, D_EXP, 0, false, n, den);
  }

  lemma SmallMags()
    ensures Mag(52, 0) == 0 && Mag(52, 1) == 1
  {
    MagOfParts(52, 0, 0);
    MagOfParts(52, 0, 1);
    Pow2Values();
  }

  lemma TooSmallProducts(w: nat, d: nat, n: nat, limit: nat, one: nat)
    requires d > 0 && n < w * d && w <= limit && 2 * limit <= one
    ensures 0 <= n < d * one
  {
    MulLe(w, one, d);
  }

  /** A right shift of the significand keeps the leading digits of the same value. */
  lemma PackShift(q: u64, g: bool, s: bool, n: nat, d: nat, shift: nat)
    requires Leading(q, g, s, n, d) && 1 <= shift <= 64
    ensures Shr(q, shift) <= q / 2
    ensures var ng, ns := And(Shr(q, shift - 1), 1) == 1, s || g || And(q, Ones64(shift - 1)) != 0;
            Leading(Shr(q, shift), ng, ns, n, d * Pow2(shift))
  {
    var w := 2 * q + Bit(g);
    ShiftCell(w, s, 2 * n, d, shift);
    assert w / 2 == q && w % 2 == Bit(g);
    assert Shr(w, shift) == Shr(q, shift - 1) && Low(w, shift) == 2 * Low(q, shift - 1) + Bit(g);
    GuardBit(q, shift);
    StickyMask(q, shift - 1);
    assert Shr(q, shift) == Shr(q / 2, shift - 1) <= q / 2;
    hide Pow2, Shr, Low, And, InCell;
    assert Pow2(shift - 1) > 0;
  }

  /** The guard is the last bit dropped by a right shift. */
  lemma GuardBit(w: nat, cut: nat)
    requires cut >= 1
    ensures Shr(w, cut - 1) == 2 * Shr(w, cut) + Bit(And(Shr(w, cut - 1), 1) == 1)
  {
    AndOne(Shr(w, cut - 1));
    ShrShr(w, cut - 1, 1);
    assert Shr(Shr(w, cut - 1), 1) == Shr(w, cut - 1) / 2;
  }

  lemma StickyMask(w: nat, k: nat)
    requires k < 64
    ensures And(w, Ones64(k)) == Low(w, k)
  {
    hide Low, And;
    AndMask(w, k);
    assert Ones64(k) == Pow2(k) - 1 by {
      Pow2Values();
      Pow2Monotone(k, 63);
      hide Pow2;
      SmallMod(Pow2(k));
    }
  }

  lemma SmallMod(x: u64)
    ensures 1 * x % 0x1_0000_0000_0000_0000 == x
  {
  }

  lemma PackRound(step: nat, q: nat, g: bool, s: bool, n: nat, den: nat)
    requires q < 2 * D_IMPL && (step > 0 ==> q >= D_IMPL) && Leading(q, g, s, n, den)
    ensures var body := step * D_IMPL + q + Bit(g && (s || q % 2 == 1));
            Nearest(52, D_EXP, if body < D_EXP then body else D_EXP, n * Pow2(step), den)
  {
    Pow2Values();
    hide Pow2, Nearest;
    RoundCell(52, D_EXP, step, q, Bit(g), s, n, den, g && (s || q % 2 == 1));
  }

  lemma PackScale(n: nat, d: nat, e0: int, e: int, body: nat)
    requires e == if e0 < -1074 then -1074 else e0
    requires Nearest(52, D_EXP, body, n * Pow2(e + 1074), if e0 < -1074 then d * Pow2(-1074 - e0) else d)
    ensures NearestScaled(52, D_EXP, body, n, d, e0 + 1074)
  {
    assert Pow2(0) == 1;
  }

  // ----- df_umul128 and df_msb

  /** The top `i` digits of `b0` are `top`; the others are left in `b`. */
  predicate TakenDigits(b0: u64, b: u64, top: nat, i: nat) {
    top < Pow2(i) && top * WORD + b == b0 * Pow2(i)
  }

  predicate WideProduct(hi: nat, lo: nat, a: u64, b: nat) {
    hi * WORD + lo == a * b
  }

  method DfUmul128(a: u64, b0: u64) returns (hi: u64, lo: u64)
    ensures WideProduct(hi, lo, a, b0)
  {
    hide *;
    var b := b0;
    var h: u64, l: u64 := 0, 0;
    ghost var top: nat := 0;
    NoDigits(a, b0);
    for i := 0 to 64
      invariant TakenDigits(b0, b, top, i) && WideProduct(h, l, a, top)
    {
      DigitStep(b0, b, top, i);
      DoubleProduct(a, h, l, top);
      ghost var digit := And(Shr(b, 63), 1);
      var nh: u64 := Or(Shl64(h, 1), Shr(l, 63));
      var nl := Shl64(l, 1);
      h := nh;
      l := nl;
      AddProduct(a, h, l, top, digit);
      if And(Shr(b, 63), 1) == 1 {
        var before := l;
        l := Wrap64(l + a);
        if l < before {
          h := h + 1;
        }
      }
      top := 2 * top + digit;
      b := Shl64(b, 1);
    }
    AllDigits(b0, b, top);
    return h, l;
  }

  const WORD: nat := 0x1_0000_0000_0000_0000

  lemma NoDigits(a: u64, b0: u64)
    ensures TakenDigits(b0, b0, 0, 0) && WideProduct(0, 0, a, 0)
  {
    assert Pow2(0) == 1;
  }

  lemma DigitStep(b0: u64, b: u64, top: nat, i: nat)
    requires i < 64 && TakenDigits(b0, b, top, i)
    ensures var digit := And(Shr(b, 63), 1);
            digit <= 1 && 2 * top + digit < WORD && TakenDigits(b0, Shl64(b, 1), 2 * top + digit, i + 1)
  {
    DoubleWord(b);
    Pow2Values();
    Pow2Monotone(i + 1, 64);
    assert Pow2(i + 1) == 2 * Pow2(i);
    hide Pow2, Shr, And, Shl64;
    MulFacts(b0, Pow2(i));
  }

  /** Doubling loses no bit, because the doubled product still fits. */
  lemma DoubleProduct(a: u64, h: u64, l: u64, top: nat)
    requires WideProduct(h, l, a, top) && 2 * top < WORD
    ensures Or(Shl64(h, 1), Shr(l, 63)) < 0x1_0000_0000_0000_0000
    ensures WideProduct(Or(Shl64(h, 1), Shr(l, 63)), Shl64(l, 1), a, 2 * top)
  {
    DoubleWord(l);
    hide Pow2, Shr, Or, Shl64;
    MulFacts(a, top);
    var product := a * (2 * top);
    assert product == 2 * h * WORD + 2 * l;
    ProductBound(a, 2 * top, product);
    HighHalf(h, l);
  }

  lemma ProductBound(a: u64, x: u64, product: nat)
    requires product == a * x
    ensures product < (WORD - 1) * WORD
  {
    MulLe(x, WORD - 1, a);
    MulLe(a, WORD - 1, WORD - 1);
  }

  /** The carry test `sum < old` is exact, and the carry never overflows the high word. */
  lemma AddProduct(a: u64, h: u64, l: u64, top: nat, digit: nat)
    requires digit <= 1 && WideProduct(h, l, a, 2 * top) && 2 * top + digit < WORD
    ensures var sum := Wrap64(l + a);
            var carried := if sum < l then h + 1 else h;
            if digit == 1 then carried < 0x1_0000_0000_0000_0000 && WideProduct(carried, sum, a, 2 * top + digit)
            else WideProduct(h, l, a, 2 * top + digit)
  {
    MulDigit(a, top, digit);
    ProductBound(a, 2 * top + digit, a * (2 * top + digit));
  }

  lemma MulDigit(a: nat, top: nat, digit: nat)
    requires digit <= 1
    ensures a * (2 * top + digit) == a * (2 * top) + digit * a
  {
  }

  lemma DoubleWord(x: u64)
    ensures And(Shr(x, 63), 1) == Shr(x, 63) <= 1
    ensures Shr(x, 63) * WORD + Shl64(x, 1) == 2 * x
  {
    Pow2Values();
    hide Pow2, Shr, And, Low;
    ShrIsDivision(x, 63);
    AndOne(Shr(x, 63));
  }

  lemma HighHalf(h: u64, l: u64)
    requires 2 * h + Shr(l, 63) < WORD && Shr(l, 63) <= 1
    ensures Or(Shl64(h, 1), Shr(l, 63)) == 2 * h + Shr(l, 63)
  {
    assert Pow2(1) == 2;
    hide Pow2, Shr, Or;
    OrShifted(h, Shr(l, 63), 1);
  }

  lemma AllDigits(b0: u64, b: u64, top: nat)
    requires TakenDigits(b0, b, top, 64)
    ensures top == b0
  {
    Pow2Values();
  }

  /** `v` is what is left of `v0` after `k` right shifts. */
  predicate ShiftedOut(v: nat, v0: nat, k: nat) {
    v == Shr(v0, k) && (k > 0 ==> Pow2(k - 1) <= v0)
  }

  method DfMsb(v0: u64) returns (t: int)
    ensures v0 == 0 ==> t == -1
    ensures v0 > 0 ==> 0 <= t < 64 && Pow2(t) <= v0 < Pow2(t + 1)
  {
    hide *;
    var v := v0;
    t := -1;
    assert ShiftedOut(v0, v0, 0) by { ShiftNothing(v0); }
    while v != 0
      invariant t >= -1 && ShiftedOut(v, v0, t + 1)
      invariant v0 == 0 ==> t == -1
      decreases v
    {
      HalveWord(v, v0, t + 1);
      t := t + 1;
      v := Shr(v, 1);
    }
    MsbRange(v0, t);
  }

  lemma ShiftNothing(v0: nat)
    ensures ShiftedOut(v0, v0, 0)
  {
  }

  lemma HalveWord(v: nat, v0: nat, k: nat)
    requires v > 0 && ShiftedOut(v, v0, k)
    ensures Shr(v, 1) < v && v0 > 0 && ShiftedOut(Shr(v, 1), v0, k + 1)
  {
    ShrShr(v0, k, 1);
    assert Shr(v, 1) == v / 2;
    ShrLess(v0, k, 1);
  }

  lemma MsbRange(v0: u64, t: int)
    requires t >= -1 && ShiftedOut(0, v0, t + 1)
    ensures v0 > 0 ==> 0 <= t < 64 && Pow2(t) <= v0 < Pow2(t + 1)
  {
    ShrLess(v0, t + 1, 1);
    assert t == -1 ==> Pow2(t + 1) == 1;
    Pow2Values();
    if t >= 64 {
      Pow2Monotone(64, t);
    }
  }
}
