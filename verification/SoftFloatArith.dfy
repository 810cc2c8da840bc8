/**
 Addition, subtraction, multiplication and division of doubles: every operation hands an exact value
 and its leading digits to one rounding step (lib/compiler_rt_softfloat.c:197-441).
 */
module SoftFloatArith {
  import opened Bits
  import opened Rounding
  import opened SoftFloat

  // ----- df_norm_pack128

  /** The leading digits of a value known up to a unit cell, `cut` places above that cell. */
  lemma WindowDigits(w: nat, s: bool, n: nat, d: nat, cut: nat)
    requires cut >= 1 && d > 0 && InCell(w, s, n, d)
    ensures Leading(Shr(w, cut), And(Shr(w, cut - 1), 1) == 1, s || Low(w, cut - 1) != 0, n, d * Pow2(cut))
  {
    ShiftCell(w, s, n, d, cut - 1);
    GuardBit(w, cut);
    var x, s', den := Shr(w, cut - 1), s || Low(w, cut - 1) != 0, d * Pow2(cut - 1);
    assert d * Pow2(cut) == 2 * den by { MulFacts(d, Pow2(cut - 1)); }
    hide Pow2, Shr, Low, And;
    DoubleCell(x, s', n, den);
  }

  lemma DoubleCell(x: nat, s: bool, n: nat, d: nat)
    requires d > 0 && InCell(x, s, n, d)
    ensures InCell(x, s, 2 * n, 2 * d)
  {
    MulFacts(x, d);
    MulFacts(x + 1, d);
  }

  /** The part of a two-word value below bit `k` of its low word. */
  lemma LowWordBits(hi: nat, lo: u64, k: nat)
    requires k <= 64
    ensures Shr(hi * WORD + lo, k) == hi * Pow2(64 - k) + Shr(lo, k)
    ensures Low(hi * WORD + lo, k) == Low(lo, k)
    ensures Shr(lo, k) < Pow2(64 - k)
  {
    hide *;
    ShrSplit(lo, k);
    ShrLess(lo, k, Pow2(64 - k));
    Pow2Add(64 - k, k);
    Pow2Values();
    JoinWords(hi, lo, Pow2(64 - k), Pow2(k), Shr(lo, k), Low(lo, k));
    ShrOfSum(hi * Pow2(64 - k) + Shr(lo, k), Low(lo, k), k);
  }

  lemma JoinWords(hi: nat, lo: nat, a: nat, b: nat, x: nat, low: nat)
    requires a * b == 0x1_0000_0000_0000_0000 && lo == x * b + low
    ensures hi * WORD + lo == (hi * a + x) * b + low
  {
    assert hi * a * b == hi * (a * b);
  }

  lemma HighWordBits(hi: nat, lo: u64, k: nat)
    ensures Shr(hi * WORD + lo, 64 + k) == Shr(hi, k)
    ensures Low(hi * WORD + lo, 64 + k) != 0 <==> Low(hi, k) != 0 || lo != 0
  {
    hide Pow2, Shr, Low;
    var w := hi * WORD + lo;
    HighWord(hi, lo);
    ShrShr(w, 64, k);
    ShrSplit(w, 64 + k);
    ShrSplit(hi, k);
    Pow2Add(64, k);
    Pow2Values();
    LowOfJoin(w, hi, lo, Shr(hi, k), Pow2(k), Low(w, 64 + k), Low(hi, k));
  }

  lemma HighWord(hi: nat, lo: u64)
    ensures Shr(hi * WORD + lo, 64) == hi
  {
    Pow2Values();
    hide Pow2, Shr;
    ShrUnique(hi * WORD + lo, 64, hi);
  }

  lemma LowOfJoin(w: nat, hi: nat, lo: nat, q: nat, one: nat, low: nat, lowHi: nat)
    requires w == hi * WORD + lo
    requires w == q * (0x1_0000_0000_0000_0000 * one) + low && hi == q * one + lowHi
    ensures low == lowHi * WORD + lo
  {
    assert q * (WORD * one) == q * one * WORD;
  }

  predicate MsbAt(w: nat, t: int) {
    t >= 0 && Pow2(t) <= w < Pow2(t + 1)
  }

  lemma WideMsb(hi: nat, lo: u64, t: int)
    requires hi > 0 && MsbAt(hi, t)
    ensures MsbAt(hi * WORD + lo, t + 64)
  {
    Pow2Add(t, 64);
    Pow2Add(t + 1, 64);
    Pow2Values();
    hide Pow2;
    MulLe(Pow2(t), hi, WORD);
    MulLe(hi + 1, Pow2(t + 1), WORD);
  }

  /** With the leading bit at `t`, a right shift by `t - 52` leaves 53 bits. */
  lemma NormalizedDown(w: nat, t: int)
    requires MsbAt(w, t) && t >= 52
    ensures D_IMPL <= Shr(w, t - 52) < 2 * D_IMPL
  {
    var k := t - 52;
    ShrLess(w, k, D_IMPL);
    ShrLess(w, k, 2 * D_IMPL);
    Pow2Add(52, k);
    Pow2Add(53, k);
    Pow2Values();
    hide Pow2, Shr;
    assert D_IMPL * Pow2(k) == Pow2(t) && 2 * D_IMPL * Pow2(k) == Pow2(t + 1);
  }

  lemma NormalizedUp(w: u64, t: int)
    requires MsbAt(w, t) && t <= 52
    ensures Shl64(w, 52 - t) == w * Pow2(52 - t)
    ensures D_IMPL <= Shl64(w, 52 - t) < 2 * D_IMPL
    ensures w < 2 * D_IMPL && (t < 52 ==> w < D_IMPL)
  {
    var k := 52 - t;
    Pow2Add(t, k);
    Pow2Add(t + 1, k);
    Pow2Monotone(t + 1, 53);
    Pow2Monotone(if t < 52 then t + 1 else t, 52);
    Pow2Values();
    hide Pow2;
    MulLe(Pow2(t), w, Pow2(k));
    MulLe(w + 1, Pow2(t + 1), Pow2(k));
    MulFacts(w, Pow2(k));
    assert D_IMPL <= w * Pow2(k) < 2 * D_IMPL;
    assert t < 52 ==> Pow2(t + 1) <= D_IMPL;
  }

  lemma LeadingWhole(w: nat, one: nat, n: nat, d: nat)
    requires d > 0 && InCell(w, false, n, d)
    ensures Leading(w * one, false, false, n * one, d)
  {
    assert 2 * (w * one) * d == 2 * (n * one);
    MulFacts(2 * (w * one), d);
  }

  /** A witness for digits that the caller has already cut short. */
  lemma LeadingAny(w: nat)
    ensures Leading(w, false, true, 4 * w + 1, 4)
  {
  }

  /** `w >> cut` assembled from the two words, with its guard and sticky. */
  lemma NarrowWindow(hi: u64, lo: u64, cut: nat, t: int)
    requires 0 < cut < 64 && MsbAt(hi * WORD + lo, t) && t == cut + 52
    ensures Or(Shr(lo, cut), Shl64(And(hi, Ones64(cut)), 64 - cut)) == Shr(hi * WORD + lo, cut)
    ensures And(Shr(lo, cut - 1), 1) == And(Shr(hi * WORD + lo, cut - 1), 1)
    ensures And(lo, Ones64(cut - 1)) == Low(hi * WORD + lo, cut - 1)
  {
    hide *;
    NormalizedDown(hi * WORD + lo, t);
    LowWordBits(hi, lo, cut);
    StickyMask(hi, cut);
    WindowHigh(hi, lo, cut);
    LowWordBits(hi, lo, cut - 1);
    StickyMask(lo, cut - 1);
    WindowGuard(hi, lo, cut);
  }

  lemma WindowGuard(hi: u64, lo: u64, cut: nat)
    requires 0 < cut < 64
    ensures And(Shr(lo, cut - 1), 1) == And(Shr(hi * WORD + lo, cut - 1), 1)
  {
    LowWordBits(hi, lo, cut - 1);
    AndOne(Shr(lo, cut - 1));
    AndOne(Shr(hi * WORD + lo, cut - 1));
    MulFacts(hi, Pow2(64 - cut));
    hide Shr, Low, And;
    EvenPlus(hi * Pow2(64 - cut), Shr(lo, cut - 1));
  }

  lemma WindowHigh(hi: u64, lo: u64, cut: nat)
    requires 0 < cut < 64 && hi * Pow2(64 - cut) < 2 * D_IMPL && Shr(lo, cut) < Pow2(64 - cut)
    ensures Or(Shr(lo, cut), Shl64(Low(hi, cut), 64 - cut)) == hi * Pow2(64 - cut) + Shr(lo, cut)
  {
    OrShifted(hi, Shr(lo, cut), 64 - cut);
    Pow2Add(64 - cut, cut);
    Pow2Values();
    ShlExact(hi, 64 - cut);
    SmallFactor(hi, Pow2(64 - cut), Pow2(cut));
    ShrUnique(hi, cut, 0);
  }

  lemma SmallFactor(hi: nat, a: nat, b: nat)
    requires hi * a < a * b
    ensures 0 * b <= hi < (0 + 1) * b
  {
    MulLe(b, hi, a);
  }

  lemma WideWindow(hi: u64, lo: u64, sh2: nat)
    requires 1 <= sh2 < 64
    ensures Shr(hi, sh2) == Shr(hi * WORD + lo, 64 + sh2)
    ensures Shr(hi, sh2 - 1) == Shr(hi * WORD + lo, 64 + sh2 - 1)
    ensures Low(hi * WORD + lo, 64 + sh2 - 1) != 0 <==> And(hi, Ones64(sh2 - 1)) != 0 || lo != 0
  {
    HighWordBits(hi, lo, sh2);
    HighWordBits(hi, lo, sh2 - 1);
    StickyMask(hi, sh2 - 1);
  }

  lemma ZeroWindow(n: nat, d: nat, e: int)
    requires d > 0 && InCell(0, false, n, d)
    ensures NearestScaled(52, D_EXP, 0, n, d, e)
  {
    hide Pow2, Mag, Nearest;
    SmallMags();
    NoneCell(n, d);
    if e >= 0 {
      ZeroProduct(n, Pow2(e));
      NearestExact(52, D_EXP, 0, n * Pow2(e), d);
    } else {
      PositiveProduct(d, Pow2(-e));
      NearestExact(52, D_EXP, 0, n, d * Pow2(-e));
    }
  }

  lemma NoneCell(n: nat, d: nat)
    requires InCell(0, false, n, d)
    ensures n == 0
  {
  }

  method DfNormPack128(sign: nat, whi: u64, wlo: u64, e: int, sExtra: bool, ghost n: nat, ghost d: nat)
    returns (r: u64)
    requires sign <= 1 && d > 0 && InCell(whi * WORD + wlo, sExtra, n, d)
    // a leading bit at 116 would ask for a shift by -1
    requires !MsbAt(whi * WORD + wlo, 116)
    ensures !sExtra || whi * WORD + wlo >= 2 * D_IMPL ==>
              Sign(r) == sign && NearestScaled(52, D_EXP, Body(r), n, d, e + 1074)
  {
    hide Shr, Low, And, Or, Pow2, Shl64, Ones64, InCell, Leading, NearestScaled, Nearest;
    ghost var wide: nat := whi * WORD + wlo;
    var tp: int;
    if whi != 0 {
      tp := DfMsb(whi);
      WideMsb(whi, wlo, tp);
      tp := tp + 64;
    } else {
      tp := DfMsb(wlo);
    }
    if tp < 0 {
      SignedZero(sign);
      if !sExtra {
        ZeroWindow(n, d, e + 1074);
      }
      JoinFields(sign, 0, 1);
      return if sExtra then Or(Shl64(sign, 63), 1) else Shl64(sign, 63);
    }
    assert MsbAt(wide, tp);
    var cut := tp - 52;
    var g := false;
    var s := sExtra;
    var w: u64;
    if cut >= 64 {
      var sh2 := cut - 64;
      WideWindow(whi, wlo, sh2);
      w := Shr(whi, sh2);
      g := And(Shr(whi, sh2 - 1), 1) == 1;
      s := s || And(whi, Ones64(sh2 - 1)) != 0 || wlo != 0;
    } else if cut > 0 {
      NarrowWindow(whi, wlo, cut, tp);
      NormalizedDown(wide, tp);
      w := Or(Shr(wlo, cut), Shl64(And(whi, Ones64(cut)), 64 - cut));
      g := And(Shr(wlo, cut - 1), 1) == 1;
      s := s || And(wlo, Ones64(cut - 1)) != 0;
    } else {
      NormalizedUp(wlo, tp);
      w := Shl64(wlo, -cut);
      if sExtra {
        LeadingAny(w);
        r := DfPack(sign, e + cut, w, g, s, 4 * w + 1, 4);
      } else {
        LeadingWhole(wide, Pow2(-cut), n, d);
        r := DfPack(sign, e + cut, w, g, s, n * Pow2(-cut), d);
        ScaledUp(52, D_EXP, Body(r), n, d, e + 1074, -cut);
      }
      return;
    }
    WindowDigits(wide, sExtra, n, d, cut);
    NormalizedDown(wide, tp);
    r := DfPack(sign, e + cut, w, g, s, n, d * Pow2(cut));
    ScaledDown(52, D_EXP, Body(r), n, d, e + 1074, cut);
  }

  // ----- df_norm_pack

  method DfNormPack(sign: nat, w0: u64, e0: int, g0: bool, s0: bool, ghost n: nat, ghost d: nat) returns (r: u64)
    requires sign <= 1 && d > 0
    // more than 53 bits: the exact value lies in the cell of `w0`; fewer: there is no digit below it
    requires if w0 >= 2 * D_IMPL then InCell(w0, g0 || s0, n, d) else Leading(w0, g0, s0, n, d)
    requires w0 < D_IMPL ==> !g0 && !s0
    ensures Sign(r) == sign && NearestScaled(52, D_EXP, Body(r), n, d, e0 + 1074)
  {
    hide Shr, Low, And, Or, Pow2, Shl64, Ones64, InCell, Leading, NearestScaled, Nearest;
    var w, e, g, s := w0, e0, g0, s0;
    var t := DfMsb(w);
    if t < 0 {
      SignedZero(sign);
      LeadingZero(n, d, e + 1074);
      return Shl64(sign, 63);
    }
    assert MsbAt(w, t);
    ghost var n', d' := n, d;
    if t < 52 {
      NormalizedUp(w, t);
      NormalizedUpLeading(w, t, n, d);
      w := Shl64(w, 52 - t);
      e := e - (52 - t);
      n' := n * Pow2(52 - t);
    } else if t > 52 {
      var sh := t - 52;
      NotNormalized(w, t);
      WindowDigits(w, g || s, n, d, sh);
      StickyMask(w, sh - 1);
      NormalizedDown(w, t);
      var mask := if sh >= 64 then 0xFFFF_FFFF_FFFF_FFFF else Ones64(sh - 1);
      var ng := And(Shr(w, sh - 1), 1) == 1;
      s := s || g || And(w, mask) != 0;
      g := ng;
      w := Shr(w, sh);
      e := e + sh;
      d' := d * Pow2(sh);
    } else {
      MsbAtImplicit(w);
    }
    KeepSignificand(w);
    r := DfPack(sign, e, And(w, Or(D_FRAC, D_IMPL)), g, s, n', d');
    if t < 52 {
      ScaledUp(52, D_EXP, Body(r), n, d, e0 + 1074, 52 - t);
    } else if t > 52 {
      ScaledDown(52, D_EXP, Body(r), n, d, e0 + 1074, t - 52);
    }
  }

  lemma NotNormalized(w: nat, t: int)
    requires MsbAt(w, t) && t > 52
    ensures w >= 2 * D_IMPL
  {
    Pow2Monotone(53, t);
    Pow2Values();
  }

  lemma LeadingZero(n: nat, d: nat, e: int)
    requires Leading(0, false, false, n, d)
    ensures NearestScaled(52, D_EXP, 0, n, d, e)
  {
    ZeroWindow(n, d, e);
  }

  lemma NormalizedUpLeading(w: nat, t: int, n: nat, d: nat)
    requires t < 52 && Leading(w, false, false, n, d)
    ensures Leading(w * Pow2(52 - t), false, false, n * Pow2(52 - t), d)
  {
    hide Pow2;
    LeadingScaled(w, Pow2(52 - t), n, d);
  }

  lemma LeadingScaled(w: nat, one: nat, n: nat, d: nat)
    requires Leading(w, false, false, n, d)
    ensures Leading(w * one, false, false, n * one, d)
  {
    assert 2 * (w * one) * d == 2 * (n * one) by {
      assert 2 * w * d * one == 2 * n * one;
    }
    MulFacts(2 * (w * one), d);
  }

  lemma MsbAtImplicit(w: nat)
    requires MsbAt(w, 52)
    ensures D_IMPL <= w < 2 * D_IMPL
  {
    Pow2Values();
  }

  /** `w & (D_FRAC | D_IMPL)` keeps all 53 bits. */
  lemma KeepSignificand(w: nat)
    requires w < 2 * D_IMPL
    ensures And(w, Or(D_FRAC, D_IMPL)) == w
  {
    Pow2Values();
    hide Pow2, Or, And, Low, Shr;
    OrShifted(1, D_FRAC, 52);
    AndMask(w, 53);
    ShrIsDivision(w, 53);
  }

  // ----- __muldf3

  /** The sign of a product or a quotient. */
  function SignOf(a: u64, b: u64): nat {
    (Sign(a) + Sign(b)) % 2
  }

  predicate IsSignedInf(r: u64, sign: nat) {
    IsInf(r) && Sign(r) == sign
  }

  predicate IsSignedZero(r: u64, sign: nat) {
    IsZero(r) && Sign(r) == sign
  }

  lemma SignedInf(sign: nat)
    requires sign <= 1
    ensures Or(Shl64(sign, 63), D_EXP) < 0x1_0000_0000_0000_0000 && IsSignedInf(Or(Shl64(sign, 63), D_EXP), sign)
    ensures IsSignedZero(Shl64(sign, 63), sign)
  {
    hide Or, Shl64;
    JoinFields(sign, 2047, 0);
    SignedZero(sign);
  }

  ghost predicate IsProduct(a: u64, b: u64, r: u64) {
    RoundsTo(r, SignOf(a, b), Size(a) * Size(b), Pow2(1074))
  }

  method MulDf3(a: u64, b: u64) returns (r: u64)
    // NaN operands, and infinity times zero, give a NaN
    ensures IsNaN(a) || IsNaN(b) || (IsInf(a) && IsZero(b)) || (IsZero(a) && IsInf(b)) <==> IsNaN(r)
    ensures (IsInf(a) || IsInf(b)) && !IsNaN(r) ==> IsSignedInf(r, SignOf(a, b))
    // finite operands give the correctly rounded product
    ensures IsFinite(a) && IsFinite(b) ==> IsProduct(a, b, r)
  {
    hide *;
    Classes(a);
    Classes(b);
    var az, sa, ea, ma := DfUnpack(a);
    var bz, sb, eb, mb := DfUnpack(b);
    SignXor(a, b);
    var rs := Xor(sa, sb);
    SignedInf(rs);
    QuietNaN();
    if ea == 0x7FFF || eb == 0x7FFF {
      if (ea == 0x7FFF && ma != 0) || (eb == 0x7FFF && mb != 0) {
        return Or(D_EXP, D_QUIET);
      }
      if (ea == 0x7FFF && bz) || (eb == 0x7FFF && az) {
        return Or(D_EXP, D_QUIET);
      }
      return Or(Shl64(rs, 63), D_EXP);
    }
    if az || bz {
      ProductZero(a, b);
      return Shl64(rs, 63);
    }
    var hi, lo := DfUmul128(ma, mb);
    ProductFrame(a, b, ea, eb, ma, mb, hi, lo);
    ghost var na: nat, nb: nat := ma, mb;
    r := DfNormPack128(rs, hi, lo, ea + eb, false, na * nb, 1);
    ProductRounds(a, b, ea, eb, ma, mb, r);
  }

  /** The four classes of patterns, and what a signed infinity or zero is not. */
  lemma Classes(x: u64)
    ensures (IsNaN(x) <==> !IsInf(x) && !IsFinite(x)) && (IsInf(x) ==> !IsFinite(x)) && (IsZero(x) ==> IsFinite(x))
    ensures forall r: u64, s: nat {:trigger IsSignedInf(r, s)} :: IsSignedInf(r, s) ==> !IsNaN(r)
    ensures forall r: u64, s: nat {:trigger IsSignedZero(r, s)} :: IsSignedZero(r, s) ==> !IsNaN(r)
  {
  }

  lemma SignXor(a: u64, b: u64)
    ensures Xor(Sign(a), Sign(b)) == SignOf(a, b) <= 1
  {
    SplitFields(a);
    SplitFields(b);
    XorBits(Sign(a), Sign(b));
  }

  lemma XorBits(x: nat, y: nat)
    requires x <= 1 && y <= 1
    ensures Xor(x, y) == (x + y) % 2
  {
    assert Xor(1, 1) == 2 * Xor(0, 0) + 0;
    assert Xor(0, y) == y && Xor(x, 0) == x;
  }

  lemma QuietNaN()
    ensures Or(D_EXP, D_QUIET) < 0x1_0000_0000_0000_0000 && IsNaN(Or(D_EXP, D_QUIET))
  {
    Pow2Values();
    hide Pow2, Or;
    OrShifted(0x7FF, D_QUIET, 52);
  }

  lemma ProductZero(a: u64, b: u64)
    requires IsZero(a) || IsZero(b)
    ensures forall r: u64 :: IsSignedZero(r, SignOf(a, b)) ==> IsProduct(a, b, r) && !IsNaN(r)
  {
    hide Pow2, Mag, Nearest;
    SmallMags();
    ZeroProduct(Size(a), Size(b));
    NearestExact(52, D_EXP, 0, 0, Pow2(1074));
  }

  lemma ZeroProduct(x: nat, y: nat)
    requires x == 0 || y == 0
    ensures x * y == 0
  {
  }

  lemma ProductFrame(a: u64, b: u64, ea: int, eb: int, ma: u64, mb: u64, hi: u64, lo: u64)
    requires Unpacked(a, ea, ma) && Unpacked(b, eb, mb) && WideProduct(hi, lo, ma, mb)
    ensures InCell(hi * WORD + lo, false, ma * mb, 1) && !MsbAt(hi * WORD + lo, 116)
  {
    hide Pow2;
    Pow2Monotone(106, 116);
    Pow2Add(53, 53);
    Pow2Values();
    SmallProduct(ma, mb);
  }

  lemma SmallProduct(ma: nat, mb: nat)
    requires ma < 2 * D_IMPL && mb < 2 * D_IMPL
    ensures ma * mb < 0x20_0000_0000_0000 * 0x20_0000_0000_0000
  {
    MulLe(ma, 2 * D_IMPL - 1, mb);
  }

  lemma ProductRounds(a: u64, b: u64, ea: int, eb: int, ma: u64, mb: u64, r: u64)
    requires Sign(r) == SignOf(a, b)
    requires NearestScaled(52, D_EXP, Body(r), ma * mb, 1, ea + eb + 1074)
    requires Unpacked(a, ea, ma) && Unpacked(b, eb, mb)
    ensures IsProduct(a, b, r) && !IsNaN(r)
  {
    hide Pow2, Size, Nearest, NearestScaled, Mag;
    NearestInRange(r, ma * mb, 1, ea + eb + 1074);
    var x, y := ea + eb + 2252, 1178;
    Pow2Add(ea + 1126, eb + 1126);
    Pow2Add(52, 52);
    Pow2Add(1074, 104);
    ProductBalance(ma, mb, Pow2(ea + 1126), Pow2(eb + 1126), Pow2(x), Size(a), Size(b), Pow2(52), Pow2(104),
                   Pow2(1074), Pow2(y));
    ScaledRatio(52, D_EXP, Body(r), ma * mb, 1, ea + eb + 1074, Size(a) * Size(b), Pow2(1074), x, y);
  }

  lemma NearestInRange(r: u64, n: nat, d: nat, e: int)
    requires NearestScaled(52, D_EXP, Body(r), n, d, e)
    ensures !IsNaN(r)
  {
  }

  lemma ProductBalance(ma: nat, mb: nat, pa: nat, pb: nat, pab: nat, va: nat, vb: nat,
                       unit: nat, unit2: nat, den: nat, scale: nat)
    requires ma * pa == va * unit && mb * pb == vb * unit
    requires pab == pa * pb && unit2 == unit * unit && scale == den * unit2
    ensures ma * mb * den * pab == va * vb * 1 * scale
  {
    calc {
      ma * mb * den * pab;
      (ma * pa) * (mb * pb) * den;
      (va * unit) * (vb * unit) * den;
      va * vb * (den * (unit * unit));
    }
  }

  // ----- __divdf3

  /** Restoring division: the quotient digits down to bit `i`, and the remainder. */
  predicate Divided(ma: nat, mb: nat, q: nat, r: nat, digits: nat, i: nat) {
    i <= 54 && r < mb && q == digits * Pow2(i) && ma * Pow2(54 - i) == digits * mb + r
  }

  ghost predicate IsQuotient(a: u64, b: u64, r: u64) {
    RoundsTo(r, SignOf(a, b), Size(a) * Pow2(1074), Size(b))
  }

  method DivDf3(a: u64, b: u64) returns (r: u64)
    // NaN operands, and the quotients of two infinities or two zeros, give a NaN
    ensures IsNaN(a) || IsNaN(b) || (IsInf(a) && IsInf(b)) || (IsZero(a) && IsZero(b)) <==> IsNaN(r)
    ensures (IsInf(a) || (IsZero(b) && IsFinite(a))) && !IsNaN(r) ==> IsSignedInf(r, SignOf(a, b))
    ensures IsFinite(a) && IsInf(b) ==> IsSignedZero(r, SignOf(a, b))
    // a finite dividend and a finite divisor other than zero give the correctly rounded quotient
    ensures IsFinite(a) && IsFinite(b) && !IsZero(b) ==> IsQuotient(a, b, r)
  {
    hide *;
    Classes(a);
    Classes(b);
    var az, sa, ea, ma := DfUnpack(a);
    var bz, sb, eb, mb := DfUnpack(b);
    SignXor(a, b);
    var rs := Xor(sa, sb);
    SignedInf(rs);
    QuietNaN();
    var nan: u64 := Or(D_EXP, D_QUIET);
    if ea == 0x7FFF || eb == 0x7FFF {
      if (ea == 0x7FFF && ma != 0) || (eb == 0x7FFF && mb != 0) {
        return nan;
      }
      if ea == 0x7FFF {
        if eb == 0x7FFF {
          return nan;
        }
        return Or(Shl64(rs, 63), D_EXP);
      }
      if !bz {
        return Shl64(rs, 63);
      }
      return nan;
    }
    if bz {
      if az {
        return nan;
      }
      return Or(Shl64(rs, 63), D_EXP);
    }
    if az {
      QuotientZero(a, b);
      return Shl64(rs, 63);
    }
    UnpackedRange(a, ea, ma);
    UnpackedRange(b, eb, mb);
    NonzeroSize(b);
    var q: u64 := 0;
    var rem: u64 := ma;
    if rem >= mb {
      rem := rem - mb;
      q := Shl64(1, 54);
    } else {
      q := 0;
    }
    ghost var digits: nat := if ma >= mb then 1 else 0;
    FirstDigit(ma, mb, rem, digits);
    for i := 54 downto 0
      invariant Divided(ma, mb, q, rem, digits, i)
    {
      NextDigit(ma, mb, q, rem, digits, i);
      rem := Shl64(rem, 1);
      digits := 2 * digits;
      if rem >= mb {
        rem := rem - mb;
        q := Or(q, Shl64(1, i));
        digits := digits + 1;
      }
    }
    var sticky := rem != 0;
    QuotientFrame(ma, mb, q, rem, digits);
    ghost var wide: nat := ma;
    ghost var n: nat := wide * 0x40_0000_0000_0000;
    r := DfNormPack(rs, q, ea - eb - 54, false, sticky, n, mb);
    QuotientRounds(a, b, ea, eb, ma, mb, n, r);
  }

  lemma UnpackedRange(x: u64, exp: int, sig: nat)
    requires Unpacked(x, exp, sig)
    ensures D_IMPL <= sig < 2 * D_IMPL
  {
  }

  lemma NonzeroSize(x: u64)
    requires !IsZero(x)
    ensures Size(x) > 0
  {
    MagMonotone(52, 0, Body(x));
  }

  lemma QuotientZero(a: u64, b: u64)
    requires IsZero(a) && !IsZero(b)
    ensures forall r: u64 :: IsSignedZero(r, SignOf(a, b)) ==> IsQuotient(a, b, r) && !IsNaN(r)
  {
    MagOfParts(52, 0, 0);
    assert Mag(52, 0) == 0 by { Pow2Values(); }
    MagMonotone(52, 0, Body(b));
    hide Pow2, Mag;
    assert Size(a) * Pow2(1074) == 0;
    NearestExact(52, D_EXP, 0, 0, Size(b));
  }

  lemma FirstDigit(ma: u64, mb: u64, rem: nat, digits: nat)
    requires D_IMPL <= ma < 2 * D_IMPL && D_IMPL <= mb < 2 * D_IMPL
    requires if ma >= mb then digits == 1 && rem == ma - mb else digits == 0 && rem == ma
    ensures Shl64(1, 54) == 0x40_0000_0000_0000
    ensures Divided(ma, mb, digits * 0x40_0000_0000_0000, rem, digits, 54)
  {
    Pow2Values();
  }

  lemma NextDigit(ma: u64, mb: u64, q: u64, rem: u64, digits: nat, i: nat)
    requires i < 54 && D_IMPL <= ma < 2 * D_IMPL && D_IMPL <= mb < 2 * D_IMPL
    requires Divided(ma, mb, q, rem, digits, i + 1)
    ensures Shl64(rem, 1) == 2 * rem
    ensures 2 * rem < mb ==> Divided(ma, mb, q, 2 * rem, 2 * digits, i)
    ensures Or(q, Shl64(1, i)) < 0x1_0000_0000_0000_0000
    ensures 2 * rem >= mb ==> Divided(ma, mb, Or(q, Shl64(1, i)), 2 * rem - mb, 2 * digits + 1, i)
  {
    DoubleRemainder(rem);
    hide Pow2, Or, Shl64, D_IMPL;
    DigitWeights(i);
    OrDigit(q, digits, i);
    DigitProducts(ma, mb, q, rem, digits, Pow2(53 - i), Pow2(i), Pow2(54 - i), Pow2(i + 1));
  }

  lemma DoubleRemainder(rem: nat)
    requires rem < 2 * D_IMPL
    ensures Shl64(rem, 1) == 2 * rem
  {
    Pow2Values();
  }

  lemma DigitWeights(i: nat)
    requires i < 54
    ensures Pow2(54 - i) == 2 * Pow2(53 - i) && Pow2(i + 1) == 2 * Pow2(i)
    ensures Pow2(53 - i) * Pow2(i) == 0x20_0000_0000_0000
  {
    Pow2Add(53 - i, i);
    Pow2Values();
  }

  lemma OrDigit(q: nat, digits: nat, i: nat)
    requires q == digits * Pow2(i + 1) && i < 54
    ensures Or(q, Shl64(1, i)) == q + Pow2(i)
  {
    Pow2Monotone(i, 53);
    Pow2Values();
    assert Pow2(i + 1) == 2 * Pow2(i);
    hide Pow2, Or;
    ShlExact(1, i);
    OrShifted(digits, Pow2(i), i + 1);
  }

  lemma DigitProducts(ma: nat, mb: nat, q: nat, rem: nat, digits: nat, done: nat, left: nat, done2: nat, left2: nat)
    requires done > 0 && left > 0 && done2 == 2 * done && left2 == 2 * left
    requires ma < 2 * mb && done * left == 0x20_0000_0000_0000
    requires q == digits * left2 && ma * done == digits * mb + rem
    ensures q == 2 * digits * left && q + left == (2 * digits + 1) * left
    ensures ma * done2 == 2 * digits * mb + 2 * rem
    ensures ma * done2 == (2 * digits + 1) * mb + (2 * rem - mb)
    ensures q + left < 0x1_0000_0000_0000_0000
  {
    assert digits * (2 * left) == 2 * digits * left && (2 * digits + 1) * left == 2 * digits * left + left;
    assert (2 * digits + 1) * mb == 2 * (digits * mb) + mb && 2 * digits * mb == 2 * (digits * mb);
    MulFacts(ma, done);
    FewDigits(ma, mb, digits, rem, done);
    MulLe(digits + 1, 2 * done, left);
    MulFacts(digits, left);
    MulAssoc(2, done, left);
  }

  lemma FewDigits(ma: nat, mb: nat, digits: nat, rem: nat, done: nat)
    requires done > 0 && ma < 2 * mb && ma * done == digits * mb + rem
    ensures digits + 1 <= 2 * done
  {
    MulLe(2 * done, digits, mb);
    MulLe(ma + 1, 2 * mb, done);
    assert (ma + 1) * done == ma * done + done;
    assert 2 * mb * done == 2 * done * mb;
  }

  lemma QuotientFrame(ma: u64, mb: u64, q: u64, rem: nat, digits: nat)
    requires D_IMPL <= ma < 2 * D_IMPL && D_IMPL <= mb < 2 * D_IMPL
    requires Divided(ma, mb, q, rem, digits, 0)
    ensures q >= 2 * D_IMPL && InCell(q, rem != 0, ma * 0x40_0000_0000_0000, mb)
  {
    Pow2Values();
    hide Pow2;
    MulFacts(q, mb);
    MulLe(q + 1, 2 * D_IMPL, mb);
  }

  lemma QuotientRounds(a: u64, b: u64, ea: int, eb: int, ma: u64, mb: u64, n: nat, r: u64)
    requires n == ma * 0x40_0000_0000_0000
    requires Sign(r) == SignOf(a, b) && Size(b) > 0
    requires NearestScaled(52, D_EXP, Body(r), n, mb, ea - eb + 1020)
    requires Unpacked(a, ea, ma) && Unpacked(b, eb, mb)
    ensures IsQuotient(a, b, r) && !IsNaN(r)
  {
    hide Pow2, Size, Nearest, NearestScaled, Mag;
    NearestInRange(r, n, mb, ea - eb + 1020);
    var x, y := ea + 2252, eb + 1232;
    Pow2Add(ea + 1126, 1126);
    Pow2Add(52, 1074);
    Pow2Add(eb + 1126, 106);
    Pow2Add(52, 54);
    Pow2Values();
    QuotientBalance(ma, mb, Pow2(ea + 1126), Pow2(eb + 1126), Size(a), Size(b), Pow2(52), Pow2(1074), n, Pow2(54));
    assert Pow2(x) == Pow2(ea + 1126) * (Pow2(52) * Pow2(1074));
    assert Pow2(y) == Pow2(eb + 1126) * (Pow2(52) * Pow2(54));
    ScaledRatio(52, D_EXP, Body(r), n, mb, ea - eb + 1020, Size(a) * Pow2(1074), Size(b), x, y);
  }

  lemma QuotientBalance(ma: nat, mb: nat, pa: nat, pb: nat, va: nat, vb: nat,
                        unit: nat, den: nat, n: nat, one: nat)
    requires ma * pa == va * unit && mb * pb == vb * unit && n == ma * one
    ensures n * vb * (pa * (unit * den)) == va * den * mb * (pb * (unit * one))
  {
    hide *;
    GroupDividend(ma, one, vb, pa, unit, den);
    GroupDivisor(va, den, mb, pb, unit, one);
  }

  lemma GroupDividend(ma: nat, one: nat, vb: nat, pa: nat, unit: nat, den: nat)
    ensures ma * one * vb * (pa * (unit * den)) == ma * pa * (vb * unit) * (one * den)
  {
  }

  lemma GroupDivisor(va: nat, den: nat, mb: nat, pb: nat, unit: nat, one: nat)
    ensures va * den * mb * (pb * (unit * one)) == va * unit * (mb * pb) * (one * den)
  {
  }

  // ----- __adddf3 and __subdf3

  /**
   The correctly rounded sum. An exact zero is +0 unless both operands are -0 (section 6.3 of
   IEEE 754-2008).
   */
  ghost predicate IsSum(a: u64, b: u64, r: u64) {
    var sum := Val(a) + Val(b);
    if sum != 0 then RoundsTo(r, if sum < 0 then 1 else 0, Abs(sum), 1)
    else r == (if a == D_SIGN && b == D_SIGN then D_SIGN else 0)
  }

  /** The operands for which the code returns a NaN. */
  predicate SumIsNaN(a: u64, b: u64) {
    || IsNaN(a)
    || (IsNaN(b) && !(IsInf(a) && Sign(a) == Sign(b)))
    || (IsInf(a) && IsInf(b) && Sign(a) != Sign(b))
  }

  method AddDf3(a: u64, b: u64) returns (r: u64)
    ensures IsNaN(r) <==> SumIsNaN(a, b)
    ensures IsInf(a) && !IsNaN(r) ==> r == a
    ensures IsFinite(a) && IsInf(b) ==> r == b
    ensures IsFinite(a) && IsFinite(b) ==> IsSum(a, b, r)
  {
    hide *;
    Classes(a);
    Classes(b);
    NaNOfSum(a, b);
    var az, sa, ea, ma := DfUnpack(a);
    var bz, sb, eb, mb := DfUnpack(b);
    if ea == 0x7FFF {
      if ma != 0 {
        QuietOf(a);
        return Or(a, D_QUIET);
      }
      if eb == 0x7FFF && sb != sa {
        QuietNaN();
        return Or(D_EXP, D_QUIET);
      }
      return a;
    }
    if eb == 0x7FFF {
      if mb != 0 {
        QuietOf(b);
        return Or(b, D_QUIET);
      }
      return b;
    }
    if az {
      if bz {
        SumOfZeros(a, b);
        return Shl64(And(sa, sb), 63);
      }
      SumWithZero(b, a);
      return b;
    }
    if bz {
      SumWithZero(a, b);
      return a;
    }

    ghost var x, y := a, b;
    UnpackedRange(a, ea, ma);
    UnpackedRange(b, eb, mb);
    var swapped := false;
    if ea < eb || (ea == eb && ma < mb) {
      sa, sb := sb, sa;
      ea, eb := eb, ea;
      ma, mb := mb, ma;
      swapped := true;
      x, y := b, a;
    }
    var rs := sa;
    var align: nat := ea - eb;
    InOrder(ea, eb, ma, mb, align);
    if align > 122 {
      FarApart(x, y, ea, eb, ma, mb);
      SumCommutes(a, b);
      return if swapped then b else a;
    }

    ghost var same := sa == sb;
    AlignTail(ma, mb, align);
    var ga: u64 := Shl64(ma, 6);
    var bl: u64 := Shl64(mb, 6);
    var sExtra := false;
    if align >= 64 {
      sExtra := bl != 0;
      bl := 0;
    } else if align > 0 {
      var mask := Ones64(align);
      sExtra := And(bl, mask) != 0;
      bl := Shr(bl, align);
    }
    assert bl == Shr(64 * mb, align) && (sExtra <==> Low(64 * mb, align) != 0);
    FrameBounds(ma, mb, align);
    SmallWrap(ga + bl);
    SmallWrap(ga - bl);

    var th: int := 0;
    var tl: u64;
    var resZero := false;
    if sa == sb {
      tl := Wrap64(ga + bl);
      th := if tl < ga then 1 else 0;
    } else {
      if ga < bl {
        resZero := true;
      }
      tl := Wrap64(ga - bl);
      if sExtra && tl != 0 {
        tl := tl - 1;
      } else if tl == 0 {
        resZero := true;
      }
    }
    FrameDigits(ma, mb, align, same, sExtra, th * WORD + tl);
    SumCommutes(a, b);
    if resZero {
      Cancellation(x, y, ea, eb, ma, mb, align);
      return 0;
    }
    ghost var n := FrameNum(ma, mb, align, same);
    r := DfNormPack128(rs, th, tl, ea - 6, sExtra, n, Pow2(align));
    SumRounds(x, y, ea, eb, ma, mb, align, r);
  }

  /** The correctly rounded difference; an exact zero is +0 except for -0 minus +0. */
  ghost predicate IsDifference(a: u64, b: u64, r: u64) {
    var diff := Val(a) - Val(b);
    if diff != 0 then RoundsTo(r, if diff < 0 then 1 else 0, Abs(diff), 1)
    else r == (if a == D_SIGN && b == 0 then D_SIGN else 0)
  }

  method SubDf3(a: u64, b: u64) returns (r: u64)
    ensures IsFinite(a) && IsFinite(b) ==> IsDifference(a, b, r)
    ensures IsNaN(r) <==> || IsNaN(a)
                          || (IsNaN(b) && !(IsInf(a) && Sign(a) != Sign(b)))
                          || (IsInf(a) && IsInf(b) && Sign(a) == Sign(b))
    ensures IsInf(a) && !IsNaN(r) ==> r == a
    ensures IsFinite(a) && IsInf(b) ==> IsInf(r) && Sign(r) == 1 - Sign(b)
  {
    hide Xor, Nearest, Mag, IsSum;
    NegatedSign(b);
    r := AddDf3(a, Xor(b, D_SIGN));
    SumOfNegated(a, b, Xor(b, D_SIGN), r);
  }

  lemma NegatedSign(x: u64)
    ensures Xor(x, D_SIGN) < 0x1_0000_0000_0000_0000
    ensures Body(Xor(x, D_SIGN)) == Body(x) && Sign(Xor(x, D_SIGN)) == 1 - Sign(x)
  {
    Pow2Values();
    hide Xor, Shr, Pow2;
    XorBit(x, 63);
    ShrIsDivision(x, 63);
    SignFlip(x);
  }

  lemma SignFlip(x: u64)
    ensures x / D_SIGN <= 1 && x == x / D_SIGN * D_SIGN + x % D_SIGN
    ensures x / D_SIGN == 0 ==> Body(x + D_SIGN) == x && Sign(x + D_SIGN) == 1
    ensures x / D_SIGN == 1 ==> Body(x - D_SIGN) == x - D_SIGN && Sign(x - D_SIGN) == 0
  {
  }

  lemma SumOfNegated(a: u64, b: u64, neg: u64, r: u64)
    requires Body(neg) == Body(b) && Sign(neg) == 1 - Sign(b)
    ensures IsSum(a, neg, r) ==> IsDifference(a, b, r)
  {
    hide Nearest, Mag;
  }

  lemma SumCommutes(a: u64, b: u64)
    ensures forall r: u64 {:trigger IsSum(b, a, r)} :: IsSum(a, b, r) <==> IsSum(b, a, r)
  {
  }

  // ----- special operands

  lemma NaNOfSum(a: u64, b: u64)
    ensures SumIsNaN(a, b) <==> IsNaN(a) || (IsNaN(b) && !(IsInf(a) && Sign(a) == Sign(b)))
                                || (IsInf(a) && IsInf(b) && Sign(a) != Sign(b))
    ensures Sign(a) <= 1 && Sign(b) <= 1
  {
  }

  lemma QuietOf(x: u64)
    requires IsNaN(x)
    ensures Or(x, D_QUIET) < 0x1_0000_0000_0000_0000 && IsNaN(Or(x, D_QUIET))
  {
    Pow2Values();
    hide Or, Shr, Pow2;
    OrBit(x, 51);
    ShrIsDivision(x, 51);
    var frac := Body(x) - D_EXP;
    assert x == Sign(x) * D_SIGN + D_EXP + frac;
    if x / D_QUIET % 2 == 0 {
      assert x / D_QUIET == Sign(x) * 0x1000 + 0xFFE + frac / D_QUIET;
      assert Body(x + D_QUIET) == Body(x) + D_QUIET;
    }
  }

  lemma SumOfZeros(a: u64, b: u64)
    requires IsZero(a) && IsZero(b)
    ensures var r := Shl64(And(Sign(a), Sign(b)), 63); IsSum(a, b, r) && !IsNaN(r)
  {
    MagOfParts(52, 0, 0);
    assert Mag(52, 0) == 0 by { Pow2Values(); }
    hide Mag, And, Nearest, Shl64;
    AndBits(Sign(a), Sign(b));
    SignedZero(And(Sign(a), Sign(b)));
  }

  lemma AndBits(x: nat, y: nat)
    requires x <= 1 && y <= 1
    ensures And(x, y) == x * y
  {
    assert And(1, 1) == 2 * And(0, 0) + 1;
    assert And(0, y) == 0 && And(x, 0) == 0;
  }

  /** `IsSum` in terms of the magnitudes, with the larger operand first. */
  lemma SumOfSizes(x: u64, y: u64, r: u64)
    requires Size(x) > 0
    ensures var sum := SizeSum(x, y, Sign(x) == Sign(y));
            (sum > 0 && Sign(r) == Sign(x) && Nearest(52, D_EXP, Body(r), sum, 1) ==> IsSum(x, y, r))
            && (sum == 0 ==> IsSum(x, y, 0) && !IsNaN(0))
  {
    hide Mag, Size, Nearest;
  }

  lemma SumWithZero(a: u64, b: u64)
    requires IsFinite(a) && !IsZero(a) && IsZero(b)
    ensures IsSum(a, b, a) && IsSum(b, a, a) && !IsNaN(a)
  {
    NonzeroSize(a);
    MagOfParts(52, 0, 0);
    assert Size(b) == 0 by { Pow2Values(); }
    hide Mag, Nearest, Pow2;
    NearestExact(52, D_EXP, Body(a), Size(a), 1);
    SumCommutes(a, b);
    SumOfSizes(a, b, a);
  }

  // ----- alignment

  function FrameNum(ma: int, mb: int, align: nat, same: bool): int {
    64 * (ma * Pow2(align) + if same then mb else -mb)
  }

  /** `|a| >= |b|` after the swap. */
  predicate Ordered(align: nat, ma: nat, mb: nat) {
    && D_IMPL <= ma < 2 * D_IMPL && D_IMPL <= mb < 2 * D_IMPL
    && (align == 0 ==> ma >= mb)
  }

  lemma InOrder(ea: int, eb: int, ma: nat, mb: nat, align: nat)
    requires D_IMPL <= ma < 2 * D_IMPL && D_IMPL <= mb < 2 * D_IMPL
    requires align == ea - eb && (ea == eb ==> ma >= mb)
    ensures Ordered(align, ma, mb)
  {
  }

  lemma SmallWrap(x: int)
    ensures 0 <= x < 0x1_0000_0000_0000_0000 ==> Wrap64(x) == x
  {
  }

  /** The three ways to shift the smaller operand all keep the same digits and sticky. */
  lemma AlignTail(ma: u64, mb: u64, align: nat)
    requires D_IMPL <= ma < 2 * D_IMPL && D_IMPL <= mb < 2 * D_IMPL
    ensures Shl64(ma, 6) == 64 * ma && Shl64(mb, 6) == 64 * mb
    ensures align == 0 ==> Shr(64 * mb, align) == 64 * mb && Low(64 * mb, align) == 0
    ensures align < 64 ==> And(64 * mb, Ones64(align)) == Low(64 * mb, align)
    ensures align >= 64 ==> Shr(64 * mb, align) == 0 && Low(64 * mb, align) != 0
  {
    hide Shl64, And, Pow2, Ones64, Shr, Low;
    ShiftSix(ma);
    ShiftSix(mb);
    NoShift(64 * mb);
    if align < 64 {
      StickyMask(64 * mb, align);
    } else {
      ShiftedOut(64 * mb, align);
    }
  }

  lemma ShiftSix(x: u64)
    requires x < 2 * D_IMPL
    ensures Shl64(x, 6) == 64 * x
  {
    Pow2Values();
    hide Pow2;
  }

  lemma NoShift(x: nat)
    ensures Shr(x, 0) == x && Low(x, 0) == 0
  {
  }

  lemma ShiftedOut(x: nat, k: nat)
    requires 0 < x < 0x1_0000_0000_0000_0000 && k >= 64
    ensures Shr(x, k) == 0 && Low(x, k) != 0
  {
    hide Pow2, Shr, Low;
    Pow2Values();
    Pow2Monotone(64, k);
    ShrUnique(x, k, 0);
    ShrSplit(x, k);
  }

  lemma FrameBounds(ma: u64, mb: u64, align: nat)
    requires Ordered(align, ma, mb)
    ensures Shr(64 * mb, align) <= 64 * ma < 0x0800_0000_0000_0000
    ensures Low(64 * mb, align) != 0 ==> 64 * ma - Shr(64 * mb, align) > 2 * D_IMPL
    ensures Low(64 * mb, align) != 0 ==> 64 * ma - Shr(64 * mb, align) > 0
  {
    var x := 64 * mb;
    if align <= 1 {
      SmallShift(32 * mb, align);
    } else {
      BigShift(16 * mb, align);
    }
  }

  lemma SmallShift(half: nat, align: nat)
    requires align <= 1
    ensures Shr(2 * half, align) == if align == 0 then 2 * half else half
    ensures Low(2 * half, align) == 0
  {
  }

  lemma BigShift(quarter: nat, align: nat)
    requires align >= 2
    ensures Shr(4 * quarter, align) <= quarter
  {
    assert Shr(4 * quarter, align) == Shr(2 * quarter, align - 1) == Shr(quarter, align - 2);
  }

  /**
   The window holds the exact sum or difference of the aligned significands. After a subtraction
   that dropped digits of the smaller operand the exact value lies just above the decremented window.
   */
  lemma FrameDigits(ma: u64, mb: u64, align: nat, same: bool, s: bool, w: nat)
    requires Ordered(align, ma, mb) && (s <==> Low(64 * mb, align) != 0)
    requires w == if same then 64 * ma + Shr(64 * mb, align)
                  else 64 * ma - Shr(64 * mb, align) - (if s then 1 else 0)
    ensures Pow2(align) > 0 && FrameNum(ma, mb, align, same) >= 0
    ensures InCell(w, s, FrameNum(ma, mb, align, same), Pow2(align))
    ensures s ==> w >= 2 * D_IMPL
    ensures w == 0 <==> FrameNum(ma, mb, align, same) == 0
    ensures !MsbAt(w, 116)
  {
    hide Pow2, Shr, Low;
    FrameBounds(ma, mb, align);
    ShrSplit(64 * mb, align);
    Pow2Monotone(60, 116);
    Pow2Values();
    Pow2Add(54, 6);
    var d, q, low := Pow2(align), Shr(64 * mb, align), Low(64 * mb, align);
    FrameCell(ma, q, low, d, same, s, w);
    MulLe(1, w, d);
  }

  lemma FrameCell(ma: nat, q: nat, low: nat, d: nat, same: bool, s: bool, w: nat)
    requires low < d && (s <==> low != 0)
    requires w == if same then 64 * ma + q else 64 * ma - q - (if s then 1 else 0)
    ensures var n := 64 * (ma * d) + (if same then q * d + low else -(q * d + low));
            w * d <= n < w * d + d == (w + 1) * d && (s <==> w * d != n)
  {
    MulFacts(w, d);
    if same {
      assert w * d == 64 * (ma * d) + q * d;
    } else if s {
      assert w * d == 64 * (ma * d) - q * d - d;
    } else {
      assert w * d == 64 * (ma * d) - q * d;
    }
  }

  /** The frame and the values of the two operands. */
  lemma SumValue(x: u64, y: u64, ea: int, eb: int, ma: nat, mb: nat, align: nat, same: bool, scale: nat)
    requires align == ea - eb && scale == ea + 1126
    requires Unpacked(x, ea, ma) && Unpacked(y, eb, mb)
    ensures FrameNum(ma, mb, align, same) * Pow2(scale) == SizeSum(x, y, same) * (Pow2(align) * Pow2(58))
  {
    hide Pow2, Size;
    Pow2Add(eb + 1126, align);
    Pow2Add(52, 6);
    Pow2Values();
    ScaleSum(ma, mb, if same then 1 else -1, Pow2(align), Pow2(eb + 1126), Size(x), Size(y), Pow2(52), Pow2(58));
  }

  function SizeSum(x: u64, y: u64, same: bool): int {
    var sx: int, sy: int := Size(x), Size(y);
    if same then sx + sy else sx - sy
  }

  lemma ScaleSum(ma: int, mb: int, sign: int, one: int, pb: int, x: int, y: int, unit: int, unit64: int)
    requires ma * (pb * one) == x * unit && mb * pb == y * unit && unit64 == unit * 64
    ensures 64 * (ma * one + sign * mb) * (pb * one) == (x + sign * y) * (one * unit64)
  {
    calc {
      64 * (ma * one + sign * mb) * (pb * one);
      64 * one * (ma * (pb * one)) + 64 * one * sign * (mb * pb);
      64 * one * (x * unit) + 64 * one * sign * (y * unit);
      (x + sign * y) * (one * (unit * 64));
    }
  }

  lemma Cancellation(x: u64, y: u64, ea: int, eb: int, ma: nat, mb: nat, align: nat)
    requires align == ea - eb && Sign(x) != Sign(y) && FrameNum(ma, mb, align, false) == 0
    requires Unpacked(x, ea, ma) && Unpacked(y, eb, mb)
    ensures IsSum(x, y, 0) && !IsNaN(0)
  {
    UnpackedSize(x, ea, ma);
    SumValue(x, y, ea, eb, ma, mb, align, false, ea + 1126);
    hide *;
    PositiveProduct(Pow2(align), Pow2(58));
    SignOfFactor(FrameNum(ma, mb, align, false), Pow2(ea + 1126), SizeSum(x, y, false), Pow2(align) * Pow2(58));
    SumOfSizes(x, y, 0);
  }

  lemma UnpackedSize(x: u64, exp: int, sig: nat)
    requires Unpacked(x, exp, sig)
    ensures Size(x) > 0 && exp >= -1126
  {
    hide Size, Pow2;
    PositiveProduct(sig, Pow2(exp + 1126));
  }

  lemma SignOfFactor(n: int, p: nat, x: int, d: nat)
    requires d > 0 && p > 0 && n * p == x * d
    ensures n == 0 ==> x == 0
    ensures n > 0 ==> x > 0
  {
    MulLe(1, x, d);
    MulLe(x, -1, d);
    MulLe(x, 0, d);
    MulLe(1, n, p);
  }

  lemma SumRounds(x: u64, y: u64, ea: int, eb: int, ma: u64, mb: u64, align: nat, r: u64)
    requires align == ea - eb && Sign(r) == Sign(x)
    requires FrameNum(ma, mb, align, Sign(x) == Sign(y)) > 0
    requires NearestScaled(52, D_EXP, Body(r), FrameNum(ma, mb, align, Sign(x) == Sign(y)), Pow2(align), ea + 1068)
    requires Unpacked(x, ea, ma) && Unpacked(y, eb, mb)
    ensures IsSum(x, y, r) && !IsNaN(r)
  {
    UnpackedSize(x, ea, ma);
    hide *;
    var same := Sign(x) == Sign(y);
    var n: nat := FrameNum(ma, mb, align, same);
    NearestInRange(r, n, Pow2(align), ea + 1068);
    SumValue(x, y, ea, eb, ma, mb, align, same, ea + 1126);
    var sum, one := SizeSum(x, y, same), Pow2(align);
    PositiveProduct(one, Pow2(58));
    SignOfFactor(n, Pow2(ea + 1126), sum, one * Pow2(58));
    MulAssoc(sum, one, Pow2(58));
    assert n * 1 * Pow2(ea + 1126) == sum * one * Pow2(58);
    ScaledRatio(52, D_EXP, Body(r), n, one, ea + 1068, sum, 1, ea + 1126, 58);
    SumOfSizes(x, y, r);
  }

  // ----- operands too far apart to meet

  lemma FarApart(x: u64, y: u64, ea: int, eb: int, ma: u64, mb: u64)
    requires Unpacked(x, ea, ma) && Unpacked(y, eb, mb) && ea - eb > 122
    requires IsFinite(x)
    ensures IsSum(x, y, x) && !IsNaN(x)
  {
    EncodingOf(x, ea, ma);
    SmallSize(y, eb, mb, ea + 1074);
    Neighbours(x, ea + 1074, ma);
    Pow2Monotone(ea + 1073, ea + 1074);
    UnpackedSize(x, ea, ma);
    assert Body(x) < D_EXP && Size(x) == Mag(52, Body(x));
    hide Mag, Nearest, Pow2, Unpacked, IsSum, Size, Body;
    FarNearest(Body(x), Size(x), Size(y));
    SumOfSizes(x, y, x);
  }

  /** Adding or subtracting less than half the gap to either neighbour changes nothing. */
  lemma FarNearest(body: nat, sx: nat, sy: nat)
    requires 0 < body < D_EXP && Mag(52, body) == sx
    requires sx + 2 * sy < Mag(52, body + 1) && Mag(52, body - 1) + 2 * sy < sx
    ensures Nearest(52, D_EXP, body, sx + sy, 1) && Nearest(52, D_EXP, body, sx - sy, 1)
  {
    hide *;
    NearestOfNeighbours(52, D_EXP, body, false, sx + sy, 1);
    NearestOfNeighbours(52, D_EXP, body - 1, true, sx - sy, 1);
  }

  lemma EncodingOf(x: u64, exp: int, sig: nat)
    requires Unpacked(x, exp, sig) && exp > -1074
    ensures Body(x) == (exp + 1074) * D_IMPL + sig && Size(x) == sig * Pow2(exp + 1074)
  {
    var e := exp + 1074;
    Pow2Add(e, 52);
    CancelUnit(Size(x), sig, Pow2(e), Pow2(52));
    MagOfParts(52, e, sig) by { Pow2Values(); }
    Pow2Values();
    hide Pow2, Mag;
    MagInjective(52, Body(x), e * D_IMPL + sig);
  }

  lemma CancelUnit(size: nat, sig: nat, step: nat, unit: nat)
    requires unit > 0 && sig * (step * unit) == size * unit
    ensures size == sig * step
  {
    var v := sig * step;
    assert v * unit == size * unit;
    MulLe(v + 1, size, unit);
    MulLe(size + 1, v, unit);
    MulFacts(v, unit);
    MulFacts(size, unit);
  }

  lemma MagInjective(p: nat, x: nat, y: nat)
    requires Mag(p, x) == Mag(p, y)
    ensures x == y
  {
    if x < y {
      MagMonotone(p, x, y);
    } else if y < x {
      MagMonotone(p, y, x);
    }
  }

  lemma SmallSize(y: u64, exp: int, sig: nat, e: int)
    requires Unpacked(y, exp, sig) && exp + 1074 < e - 122
    ensures e > 70 && 4 * Size(y) < Pow2(e - 1)
  {
    hide Pow2, Size;
    var limit := Pow2(e - 70);
    Pow2Monotone(exp + 1179, e - 18);
    Pow2Add(53, exp + 1126);
    Pow2Add(e - 70, 52);
    Pow2Monotone(e - 68, e - 1);
    Pow2Add(2, e - 70);
    Pow2Values();
    MulLe(sig + 1, Pow2(53), Pow2(exp + 1126));
    MulFacts(sig, Pow2(exp + 1126));
    MulLe(limit, Size(y), Pow2(52));
  }

  /** The gap above a normal value, and the gap below it, which is at least half as wide. */
  lemma Neighbours(x: u64, e: nat, sig: nat)
    requires e > 0 && D_IMPL <= sig < 2 * D_IMPL && Body(x) == e * D_IMPL + sig && Size(x) == sig * Pow2(e)
    ensures Mag(52, Body(x) + 1) == Size(x) + Pow2(e)
    ensures Body(x) > 0 && Mag(52, Body(x) - 1) + Pow2(e - 1) <= Size(x)
  {
    var body := Body(x);
    Pow2Values();
    hide Pow2, Mag, Size, Body;
    MagOfParts(52, e, sig + 1);
    MagOfParts(52, e, sig);
    MulFacts(sig, Pow2(e));
    var low, q := PartsOfEncoding(52, body - 1);
    StepBelow(e, sig, low, q);
    Pow2Monotone(e - 1, low);
    MulFacts(q, Pow2(low));
  }

  lemma StepBelow(e: nat, sig: nat, low: nat, q: nat)
    requires D_IMPL <= sig && q < 2 * D_IMPL
    requires low * 0x10_0000_0000_0000 + q == e * 0x10_0000_0000_0000 + sig - 1
    ensures low >= e - 1
  {
  }
}
