/**
 Conversions between binary32, binary64 and the 32-bit integers
 (lib/compiler_rt_softfloat.c:443-632).
 */
module SoftFloatConvert {
  import opened Bits
  import opened Rounding
  import opened SoftFloat
  import opened SoftFloatArith

  const F_SIGN: u32 := 0x8000_0000
  const F_EXP: u32 := 0x7F80_0000
  const F_IMPL: u32 := 0x0080_0000

  // ----- reading a binary32 pattern

  function Sign32(x: u32): nat { x / F_SIGN }
  function Body32(x: u32): nat { x % F_SIGN }
  predicate IsNaN32(x: u32) { Body32(x) > F_EXP }
  predicate IsInf32(x: u32) { Body32(x) == F_EXP }
  predicate IsFinite32(x: u32) { Body32(x) < F_EXP }

  /** Magnitude in units of 2^-149. */
  function Size32(x: u32): nat { Mag(23, Body32(x)) }

  // ----- __extendsfdf2

  /** `r` is the double with the value of `a`: one unit of 2^-149 is 2^925 units of 2^-1074. */
  predicate IsExtension(a: u32, r: u64) {
    && Sign(r) == Sign32(a)
    && (IsNaN32(a) ==> IsNaN(r)) && (IsInf32(a) ==> IsInf(r))
    && (IsFinite32(a) ==> IsFinite(r) && Size(r) == Size32(a) * Pow2(925) && Body(r) % 0x2000_0000 == 0)
  }

  method ExtendSfDf2(a: u32) returns (r: u64)
    ensures IsExtension(a, r)
  {
    hide And, Or, Shr, Low, Shl64, Shl32, Pow2, IsExtension, Body32, Sign32;
    SplitFields32(a);
    var sign := And(a, 0x8000_0000);
    var exp := And(Shr(a, 23), 0xFF);
    var frac := And(a, 0x007F_FFFF);
    var rSign := Shl64(sign, 32);
    if exp == 0xFF {
      ExtendSpecial(a, frac);
      if frac == 0 {
        return Or(rSign, D_EXP);
      }
      return Or(Or(Or(rSign, D_EXP), Shl64(frac, 29)), D_QUIET);
    }
    if exp == 0 && frac == 0 {
      ExtendZero(a);
      return rSign;
    }
    if exp == 0 {
      var shift := 0;
      ghost var frac0 := frac;
      DoubleStep32(frac0, 0);
      ImplicitBit32(frac);
      while And(frac, 0x0080_0000) == 0
        invariant 0 < frac < 0x0100_0000 && frac == frac0 * Pow2(shift)
        invariant And(frac, 0x0080_0000) == 0 <==> frac < 0x0080_0000
        decreases 0x0100_0000 - frac
      {
        DoubleStep32(frac0, shift);
        frac := Shl32(frac, 1);
        shift := shift + 1;
        ImplicitBit32(frac);
      }
      ExtendSubnormal(a, frac0, frac, shift);
      frac := And(frac, 0x007F_FFFF);
      var dexp := -126 - shift + 1023;
      var m := Shl64(frac, 29);
      return Or(Or(rSign, Shl64(dexp, 52)), m);
    }
    ExtendNormal(a, exp, frac);
    var dexp := exp + (1023 - 127);
    var m := Shl64(frac, 29);
    return Or(Or(rSign, Shl64(dexp, 52)), m);
  }

  lemma SplitFields32(a: u32)
    ensures And(a, 0x8000_0000) == Sign32(a) * F_SIGN
    ensures And(Shr(a, 23), 0xFF) == Shr(Body32(a), 23) < 256
    ensures And(a, 0x007F_FFFF) == Low(Body32(a), 23) < 0x0080_0000
    ensures Body32(a) == Shr(Body32(a), 23) * F_IMPL + Low(Body32(a), 23) && Sign32(a) <= 1
    ensures Shl64(And(a, 0x8000_0000), 32) == Shl64(Sign32(a), 63) == Sign32(a) * D_SIGN
  {
    Pow2Values();
    hide Shr, Low, And, Pow2;
    AndBit(a, 31);
    ShrIsDivision(a, 31);
    ShrIsDivision(a, 23);
    ShrIsDivision(Body32(a), 23);
    AndMask(Shr(a, 23), 8);
    ShrIsDivision(Shr(a, 23), 8);
    AndMask(a, 23);
    ConstantFields32(a);
  }

  lemma ConstantFields32(a: u32)
    ensures a / F_IMPL % 256 == Body32(a) / F_IMPL
    ensures a % F_IMPL == Body32(a) % F_IMPL
    ensures a / F_SIGN <= 1
  {
    var field, frac := Body32(a) / F_IMPL, Body32(a) % F_IMPL;
    assert a == (Sign32(a) * 256 + field) * F_IMPL + frac;
    assert a / F_IMPL == Sign32(a) * 256 + field;
  }

  lemma JoinExtended(sign: nat, field: nat, frac: nat)
    requires sign <= 1 && field < 2048 && frac < F_IMPL
    ensures var r := Or(Or(Shl64(sign, 63), Shl64(field, 52)), Shl64(frac, 29));
            r < 0x1_0000_0000_0000_0000 && Sign(r) == sign && Body(r) == field * D_IMPL + frac * 0x2000_0000
    ensures Shl64(0x7FF, 52) == D_EXP
  {
    Pow2Values();
    hide Or, Pow2;
    assert Shl64(frac, 29) == frac * 0x2000_0000;
    assert Shl64(0x7FF, 52) == D_EXP;
    hide Shl64;
    JoinFields(sign, field, frac * 0x2000_0000);
    ReadBack(sign, field * D_IMPL + frac * 0x2000_0000);
  }

  lemma ReadBack(sign: nat, body: nat)
    requires sign <= 1 && body < D_SIGN
    ensures Sign(sign * D_SIGN + body) == sign && Body(sign * D_SIGN + body) == body
  {
  }

  lemma ExtendSpecial(a: u32, frac: nat)
    requires Shr(Body32(a), 23) == 0xFF && Low(Body32(a), 23) == frac < F_IMPL && Sign32(a) <= 1
    requires Body32(a) == 0xFF * F_IMPL + frac
    ensures var sign := Shl64(Sign32(a), 63);
            (frac == 0 ==> Or(sign, D_EXP) < 0x1_0000_0000_0000_0000 && IsExtension(a, Or(sign, D_EXP)))
            && (frac != 0 ==> var r := Or(Or(Or(sign, D_EXP), Shl64(frac, 29)), D_QUIET);
                              r < 0x1_0000_0000_0000_0000 && IsExtension(a, r))
  {
    hide Or, Shl64, Mag, Pow2;
    JoinExtended(Sign32(a), 0x7FF, frac);
    SignedInf(Sign32(a));
    if frac != 0 {
      var r := Or(Or(Shl64(Sign32(a), 63), D_EXP), Shl64(frac, 29));
      QuietKeepsSign(r);
    }
  }

  lemma QuietKeepsSign(x: u64)
    requires IsNaN(x)
    ensures Or(x, D_QUIET) < 0x1_0000_0000_0000_0000 && IsNaN(Or(x, D_QUIET)) && Sign(Or(x, D_QUIET)) == Sign(x)
  {
    QuietOf(x);
    Pow2Values();
    hide Or, Shr, Pow2;
    OrBit(x, 51);
    ShrIsDivision(x, 51);
  }

  lemma ExtendZero(a: u32)
    requires Body32(a) == 0 && Sign32(a) <= 1
    ensures IsExtension(a, Shl64(Sign32(a), 63))
  {
    SignedZero(Sign32(a));
    MagOfParts(52, 0, 0);
    MagOfParts(23, 0, 0);
    Pow2Values();
    hide Pow2, Shl64;
    assert Mag(52, 0) == 0 && Mag(23, 0) == 0;
  }

  lemma ImplicitBit32(m: nat)
    requires m < 0x0100_0000
    ensures And(m, 0x0080_0000) == 0 <==> m < 0x0080_0000
  {
    Pow2Values();
    hide Pow2, And, Shr;
    AndBit(m, 23);
    ShrIsDivision(m, 23);
  }

  lemma DoubleStep32(m0: nat, k: nat)
    ensures Pow2(0) == 1
    ensures var m := m0 * Pow2(k);
            m < 0x0080_0000 ==> Shl32(m, 1) == 2 * m == m0 * Pow2(k + 1)
  {
    assert Pow2(1) == 2;
    MulFacts(m0, Pow2(k));
  }

  lemma ExtendSubnormal(a: u32, frac0: nat, frac: nat, shift: nat)
    requires Body32(a) == frac0 > 0 && Shr(Body32(a), 23) == 0 && Low(Body32(a), 23) == frac0 && Sign32(a) <= 1
    requires frac == frac0 * Pow2(shift) && F_IMPL <= frac < 2 * F_IMPL
    ensures shift <= 23
    ensures var r := Or(Or(Shl64(Sign32(a), 63), Shl64(897 - shift, 52)), Shl64(And(frac, 0x007F_FFFF), 29));
            r < 0x1_0000_0000_0000_0000 && IsExtension(a, r)
  {
    hide And, Or, Shl64, Mag, Pow2, Shr, Low, IsExtension, Sign, Body, Body32, Sign32, Size32;
    SubnormalScale(a, frac0, frac, shift);
    LowFraction32(frac);
    JoinExtended(Sign32(a), 897 - shift, frac - F_IMPL);
    var r := Or(Or(Shl64(Sign32(a), 63), Shl64(897 - shift, 52)), Shl64(And(frac, 0x007F_FFFF), 29));
    ExtendFinite(a, r, 896 - shift, frac, 925 - shift);
  }

  lemma ExtendedTail(body: nat, e: nat, sig: nat)
    requires body == e * D_IMPL + sig * 0x2000_0000
    ensures body % 0x2000_0000 == 0
  {
    assert body == (e * 0x80_0000 + sig) * 0x2000_0000;
  }

  lemma SubnormalScale(a: u32, frac0: nat, frac: nat, shift: nat)
    requires Body32(a) == frac0 > 0 && Shr(Body32(a), 23) == 0 && Low(Body32(a), 23) == frac0
    requires frac == frac0 * Pow2(shift) && F_IMPL <= frac < 2 * F_IMPL
    ensures shift <= 23 && IsFinite32(a) && frac * Pow2(925 - shift) == Size32(a) * Pow2(925)
  {
    assert Pow2(0) == 1;
    hide Mag, Pow2, Shr, Low, Body32;
    ShiftLimit(frac0, frac, shift);
    LowLimit(a);
    MagOfSubnormal(23, Body32(a), frac0);
    ScaleSplit(frac0, frac, shift, 925);
  }

  lemma ExtendNormal(a: u32, exp: nat, frac: nat)
    requires exp == Shr(Body32(a), 23) && 0 < exp < 0xFF && Low(Body32(a), 23) == frac < F_IMPL && Sign32(a) <= 1
    requires Body32(a) == exp * F_IMPL + frac
    ensures var r := Or(Or(Shl64(Sign32(a), 63), Shl64(exp + 896, 52)), Shl64(frac, 29));
            r < 0x1_0000_0000_0000_0000 && IsExtension(a, r)
  {
    hide And, Or, Shl64, Mag, Pow2, Shr, Low, IsExtension, Sign, Body, Body32, Sign32;
    assert IsFinite32(a);
    JoinExtended(Sign32(a), exp + 896, frac);
    Pow2Values();
    MagOfNormal(23, Body32(a), exp - 1, frac + F_IMPL);
    Pow2Add(exp - 1, 925);
    MulAssoc(frac + F_IMPL, Pow2(exp - 1), Pow2(925));
    var r := Or(Or(Shl64(Sign32(a), 63), Shl64(exp + 896, 52)), Shl64(frac, 29));
    ExtendFinite(a, r, exp + 895, frac + F_IMPL, exp + 924);
  }

  lemma ExtendFinite(a: u32, r: u64, e: nat, sig: nat, scale: nat)
    requires IsFinite32(a) && Sign(r) == Sign32(a) && e < 2046 && scale == e + 29
    requires F_IMPL <= sig < 2 * F_IMPL && Body(r) == (e + 1) * D_IMPL + (sig - F_IMPL) * 0x2000_0000
    requires sig * Pow2(scale) == Size32(a) * Pow2(925)
    ensures IsExtension(a, r)
  {
    Pow2Values();
    MagOfParts(52, e, sig * 0x2000_0000);
    Pow2Add(29, e);
    hide Mag, Pow2, Size32;
    MulAssoc(sig, 0x2000_0000, Pow2(e));
    assert Body(r) == e * D_IMPL + sig * 0x2000_0000;
    ExtendedTail(Body(r), e, sig);
  }

  lemma ScaleSplit(x: nat, y: nat, a: nat, total: nat)
    requires y == x * Pow2(a) && a <= total
    ensures y * Pow2(total - a) == x * Pow2(total)
  {
    hide Pow2;
    Pow2Add(a, total - a);
    MulAssoc(x, Pow2(a), Pow2(total - a));
  }

  lemma LowLimit(a: u32)
    requires Body32(a) == Low(Body32(a), 23)
    ensures IsFinite32(a)
  {
    Pow2Values();
  }

  lemma ShiftLimit(frac0: nat, frac: nat, shift: nat)
    requires frac0 > 0 && frac == frac0 * Pow2(shift) && frac < 2 * F_IMPL
    ensures shift <= 23
  {
    if shift > 23 {
      Pow2Monotone(24, shift);
      Pow2Values();
      MulLe(1, frac0, Pow2(shift));
    }
  }

  lemma LowFraction32(q: nat)
    requires q < 2 * F_IMPL
    ensures And(q, 0x007F_FFFF) == if q < F_IMPL then q else q - F_IMPL
  {
    Pow2Values();
    hide Pow2, Shr, Low, And;
    AndMask(q, 23);
    ShrIsDivision(q, 23);
  }

  // ----- __truncdfsf2

  /** The binary32 value nearest to the double `a`, ties to even. */
  ghost predicate IsTruncation(a: u64, r: u32) {
    Sign32(r) == Sign(a) && Nearest(23, F_EXP, Body32(r), Size(a), Pow2(925))
  }

  /**
   The operands the code rounds the wrong way: in the normal binary32 range, exactly half way
   between two neighbours of which the lower one is even. The sticky mask includes the guard bit,
   so the tie rule never sees a tie.
   */
  predicate TieToOdd(a: u64) {
    var field := Body(a) / D_IMPL;
    && 897 <= field <= 1150
    && Body(a) % 0x2000_0000 == 0x1000_0000
    && Body(a) / 0x2000_0000 % 2 == 0
  }

  /** Such an operand: 1 + 2^-24. */
  lemma TieExample()
    ensures TieToOdd(0x3FF0_0000_1000_0000) && IsFinite(0x3FF0_0000_1000_0000)
  {
  }

  method TruncDfSf2(a: u64) returns (r: u32)
    ensures IsNaN(a) ==> IsNaN32(r)
    ensures IsInf(a) ==> IsInf32(r) && Sign32(r) == Sign(a)
    ensures IsFinite(a) ==> (IsTruncation(a, r) <==> !TieToOdd(a))
    ensures IsFinite(a) && TieToOdd(a) ==> Body32(r) > 0 && Sign32(r) == Sign(a)
                                           && Nearest(23, F_EXP, Body32(r) - 1, Size(a), Pow2(925))
  {
    hide And, Or, Shr, Low, Shl64, Shl32, Pow2, Mag, Nearest, TieToOdd, Unpacked, Sign32, Body32, Ones64, Leading,
         InCell, Size, Sign, Body;
    SplitFields(a);
    ClassOfFields(a);
    TruncSign(a);
    var sign: u32 := And(Wrap32(Shr(a, 32)), 0x8000_0000);
    var e := And(Shr(a, 52), 0x7FF);
    var m: u64 := And(a, D_FRAC);
    if e == 0x7FF {
      TruncSpecial(a, sign);
      if m == 0 {
        return Or(sign, 0x7F80_0000);
      }
      var keep := And(Wrap32(Shr(Or(m, Shr(a, 32)), 21)), 0x003F_FFFF);
      KeepLimit(Wrap32(Shr(Or(m, Shr(a, 32)), 21)));
      TruncNaN(a, sign, if keep != 0 then keep else 0x40_0000);
      return Or(Or(sign, 0x7FC0_0000), if keep != 0 then keep else 0x40_0000);
    }
    if e == 0 && m == 0 {
      TruncZero(a);
      return sign;
    }

    var re: int;
    var q53: u64;
    if e == 0 {
      q53 := m;
      re := 1 - 1023;
      ghost var k := 0;
      DoubleStep(m, 0);
      ImplicitBit(q53);
      while And(q53, D_IMPL) == 0
        invariant 0 < q53 < 2 * D_IMPL && q53 == m * Pow2(k) && re == -1022 - k
        invariant And(q53, D_IMPL) == 0 <==> q53 < D_IMPL
        decreases 2 * D_IMPL - q53
      {
        DoubleStep(m, k);
        q53 := Shl64(q53, 1);
        re := re - 1;
        k := k + 1;
        ImplicitBit(q53);
      }
      SubnormalSize(a);
      UnpackedSubnormal(a, m, k, q53);
    } else {
      UnpackedNormal(a, e, m);
      q53 := Or(m, D_IMPL);
      re := e;
      re := re - 1023;
    }
    TieShape(a, e, m, q53);
    var t := DfMsb(q53);
    TopBit(q53, t);
    var sh: nat := t - 23;
    var mask := if sh >= 64 then 0xFFFF_FFFF_FFFF_FFFF else Ones64(sh);
    TruncDigits(q53);
    var g := And(Shr(q53, sh - 1), 1) == 1;
    var s := And(q53, mask) != 0;
    var q24: nat := Shr(q53, sh);
    var fe: int := re + sh - 29;
    ghost var den: nat := 0x2000_0000;
    ghost var sticky := Low(q53, 28) != 0;
    ghost var extra: nat := if fe < -126 then -126 - fe else 0;
    FirstDenominator();

    var subnormalOut := false;
    if fe < -126 {
      var steps := -126 - fe;
      for i := 0 to steps
        invariant q24 < 2 * F_IMPL && (i > 0 ==> q24 < F_IMPL)
        invariant Leading(q24, g, sticky, q53, den) && den == 0x2000_0000 * Pow2(i)
        invariant s <==> sticky || (i == 0 && g)
      {
        DropDigit(q24, g, sticky, q53, den, i);
        s := s || g;
        sticky := sticky || g;
        g := And(q24, 1) == 1;
        q24 := Shr(q24, 1);
        den := 2 * den;
      }
      fe := -126;
      subnormalOut := true;
    }
    TruncRounds(a, re, q53, extra, fe + 126, q24, g, sticky, den);
    r := RoundAndJoin32(sign, Sign(a), fe, q24, g, s, subnormalOut);
    if extra == 0 && TieToOdd(a) {
      TieIsUnique(a, Body32(r));
    }
  }

  /** The rounding step and the encoding at the end of the truncation. */
  method RoundAndJoin32(sign: u32, ghost signBit: nat, fe0: int, q0: nat, g: bool, s: bool, sub0: bool) returns (r: u32)
    requires sign == signBit * F_SIGN && signBit <= 1
    requires fe0 >= -126 && q0 < 2 * F_IMPL && (sub0 ==> fe0 == -126 && q0 < F_IMPL) && (!sub0 ==> q0 >= F_IMPL)
    ensures Sign32(r) == signBit
    ensures var body := (fe0 + 126) * F_IMPL + q0 + Bit(g && (s || q0 % 2 == 1));
            Body32(r) == if body < F_EXP then body else F_EXP
  {
    hide And, Or, Shr, Low, Shl64, Shl32, Sign32, Body32;
    var fe, q24, subnormalOut := fe0, q0, sub0;
    AndOne(q24);
    if g && (s || And(q24, 1) == 1) {
      q24 := q24 + 1;
      CarryOut32(q24);
      if q24 == Shl64(1, 24) {
        q24 := Shr(q24, 1);
        if subnormalOut {
          subnormalOut := false;
          fe := -126;
        } else {
          fe := fe + 1;
        }
      }
    }
    LowFraction32(q24);
    if fe > 127 {
      JoinFields32(signBit, 255, 0);
      return Or(sign, 0x7F80_0000);
    }
    JoinFields32(signBit, 0, 0);
    if subnormalOut {
      if q24 == 0 {
        return sign;
      }
      JoinBody32(signBit, q24);
      return Or(sign, q24);
    }
    if q24 == 0 {
      return sign;
    }
    JoinFields32(signBit, fe + 127, q24 - F_IMPL);
    return Or(Or(sign, Shl32(fe + 127, 23)), And(q24, 0x007F_FFFF));
  }

  // ----- the steps of the truncation

  lemma TruncSign(a: u64)
    ensures And(Wrap32(Shr(a, 32)), 0x8000_0000) == Sign(a) * F_SIGN
    ensures Sign(a) <= 1
  {
    hide And, Shr, Pow2, Wrap32, Sign;
    Pow2Values();
    ShrIsDivision(a, 32);
    var hi: nat := a / 0x1_0000_0000;
    HighWord(a);
    AndBit(hi, 31);
    ShrIsDivision(hi, 31);
    HighSign(a, hi);
  }

  lemma HighWord(a: u64)
    ensures Wrap32(a / 0x1_0000_0000) == a / 0x1_0000_0000
  {
  }

  lemma HighSign(a: u64, hi: nat)
    requires hi == a / 0x1_0000_0000
    ensures hi < 0x1_0000_0000 && hi / F_SIGN == Sign(a) <= 1
  {
    assert a == Sign(a) * D_SIGN + Body(a);
    assert hi == Sign(a) * F_SIGN + Body(a) / 0x1_0000_0000;
  }

  lemma JoinFields32(sign: nat, field: nat, frac: nat)
    requires sign <= 1 && field < 256 && frac < F_IMPL
    ensures var r := Or(Or(sign * F_SIGN, Shl32(field, 23)), frac);
            r == sign * F_SIGN + field * F_IMPL + frac < 0x1_0000_0000
            && Sign32(r) == sign && Body32(r) == field * F_IMPL + frac
    ensures var r := Or(sign * F_SIGN, field * F_IMPL);
            r == sign * F_SIGN + field * F_IMPL && Sign32(r) == sign && Body32(r) == field * F_IMPL
  {
    Pow2Values();
    hide Or, Pow2;
    assert Shl32(field, 23) == field * F_IMPL;
    OrShifted(sign, field * F_IMPL, 31);
    OrShifted(sign * 256 + field, frac, 23);
  }

  lemma JoinBody32(sign: nat, body: nat)
    requires sign <= 1 && body < F_SIGN
    ensures var r := Or(sign * F_SIGN, body);
            r == sign * F_SIGN + body < 0x1_0000_0000 && Sign32(r) == sign && Body32(r) == body
  {
    Pow2Values();
    hide Or, Pow2;
    OrShifted(sign, body, 31);
  }

  lemma TruncSpecial(a: u64, sign: u32)
    requires sign == Sign(a) * F_SIGN && Sign(a) <= 1
    ensures Or(sign, 0x7F80_0000) < 0x1_0000_0000
    ensures IsInf32(Or(sign, 0x7F80_0000)) && Sign32(Or(sign, 0x7F80_0000)) == Sign(a)
  {
    hide Or;
    JoinFields32(Sign(a), 255, 0);
  }

  lemma TruncNaN(a: u64, sign: u32, keep: nat)
    requires sign == Sign(a) * F_SIGN && Sign(a) <= 1 && keep <= 0x40_0000
    ensures Or(Or(sign, 0x7FC0_0000), keep) < 0x1_0000_0000 && IsNaN32(Or(Or(sign, 0x7FC0_0000), keep))
  {
    Pow2Values();
    hide Or, Shr, Pow2, Sign, Body32;
    JoinBody32(Sign(a), 0x7FC0_0000);
    if keep == 0x40_0000 {
      QuietBitSet(Sign(a));
    } else {
      OrShifted(Sign(a) * 512 + 511, keep, 22);
      ReadBack32(Sign(a), 0x7FC0_0000 + keep);
    }
  }

  lemma QuietBitSet(sign: nat)
    requires sign <= 1
    ensures var x := sign * F_SIGN + 0x7FC0_0000; Or(x, 0x40_0000) == x
  {
    Pow2Values();
    hide Or, Shr, Pow2;
    var x := sign * F_SIGN + 0x7FC0_0000;
    OrBit(x, 22);
    ShrIsDivision(x, 22);
  }

  lemma KeepLimit(x: nat)
    ensures And(x, 0x003F_FFFF) < 0x40_0000
  {
    Pow2Values();
    AndMask(x, 22);
  }

  lemma TruncZero(a: u64)
    requires Body(a) == 0 && Sign(a) <= 1
    ensures var r := Sign(a) * F_SIGN;
            r < 0x1_0000_0000 && IsTruncation(a, r) && !TieToOdd(a) && !IsNaN32(r) && !IsInf32(r)
  {
    ZeroSizes();
    ReadBack32(Sign(a), 0);
    hide Mag, Pow2, Nearest, Sign32, Body32, Sign, Body;
    NearestExact(23, F_EXP, 0, 0, Pow2(925));
  }

  lemma ZeroSizes()
    ensures Mag(52, 0) == 0 && Mag(23, 0) == 0
  {
    MagOfParts(52, 0, 0);
    MagOfParts(23, 0, 0);
    Pow2Values();
  }

  lemma ReadBack32(sign: nat, body: nat)
    requires sign <= 1 && body < F_SIGN
    ensures Sign32(sign * F_SIGN + body) == sign && Body32(sign * F_SIGN + body) == body
  {
  }

  /** The classes of a pattern whose top fields are known. */
  lemma ClassOfFields(a: u64)
    requires Body(a) == Shr(Body(a), 52) * D_IMPL + Low(Body(a), 52)
    requires Low(Body(a), 52) < D_IMPL && Shr(Body(a), 52) < 2048
    ensures IsFinite(a) <==> Shr(Body(a), 52) < 0x7FF
    ensures IsInf(a) <==> Shr(Body(a), 52) == 0x7FF && Low(Body(a), 52) == 0
    ensures Body(a) == 0 <==> Shr(Body(a), 52) == 0 && Low(Body(a), 52) == 0
  {
    hide Shr, Low;
  }

  lemma SubnormalSize(a: u64)
    requires Shr(Body(a), 52) == 0
    ensures Size(a) == Low(Body(a), 52)
  {
  }

  lemma TopBit(q53: u64, t: int)
    requires D_IMPL <= q53 < 2 * D_IMPL
    requires 0 <= t && Pow2(t) <= q53 < Pow2(t + 1)
    ensures t == 52
  {
    Pow2Values();
    hide Pow2;
    if t < 52 {
      Pow2Monotone(t + 1, 52);
    } else if t > 52 {
      Pow2Monotone(53, t);
    }
  }

  lemma FirstDenominator()
    ensures 0x2000_0000 == 0x2000_0000 * Pow2(0)
  {
  }

  /** The guard is counted twice: the sticky mask of the code covers it as well. */
  lemma TruncDigits(q53: u64)
    requires D_IMPL <= q53 < 2 * D_IMPL
    ensures F_IMPL <= Shr(q53, 29) < 2 * F_IMPL
    ensures var g, sticky := And(Shr(q53, 28), 1) == 1, Low(q53, 28) != 0;
            Leading(Shr(q53, 29), g, sticky, q53, 0x2000_0000)
            && (And(q53, Ones64(29)) != 0 <==> sticky || g)
  {
    hide Pow2, Shr, Low, And, Ones64;
    WindowDigits(q53, false, q53, 1, 29);
    StickyMask(q53, 29);
    LowSplit(q53, 28);
    AndOne(Shr(q53, 28));
    ShrLess(q53, 29, F_IMPL);
    ShrLess(q53, 29, 2 * F_IMPL);
    Pow2Values();
  }

  lemma {:induction false} LowSplit(x: nat, k: nat)
    ensures Low(x, k + 1) == Low(x, k) + Shr(x, k) % 2 * Pow2(k)
  {
    if k == 0 {
      assert Low(x, 1) == 2 * Low(x / 2, 0) + x % 2;
    } else {
      LowSplit(x / 2, k - 1);
      MulFacts(Shr(x, k) % 2, Pow2(k - 1));
    }
  }

  lemma DropDigit(q: nat, g: bool, sticky: bool, n: nat, den: nat, i: nat)
    requires q < 2 * F_IMPL && Leading(q, g, sticky, n, den) && den == 0x2000_0000 * Pow2(i)
    ensures Leading(Shr(q, 1), And(q, 1) == 1, sticky || g, n, 2 * den)
    ensures Shr(q, 1) < F_IMPL && 2 * den == 0x2000_0000 * Pow2(i + 1)
  {
    PackShift(q, g, sticky, n, den, 1);
    NoMask(q);
    hide Leading, And;
    MulFacts(0x2000_0000, Pow2(i));
  }

  lemma NoMask(q: nat)
    ensures And(q, Ones64(0)) == 0 && Shr(q, 0) == q && Pow2(1) == 2
  {
    assert Pow2(0) == 1;
    AndZero(q);
  }

  lemma CarryOut32(q: nat)
    ensures Shl64(1, 24) == 0x100_0000 && Shr(q, 1) == q / 2
  {
    Pow2Values();
  }

  /** The operands with a guard, nothing below it and an even significand. */
  lemma TieShape(a: u64, e: nat, m: u64, q53: u64)
    requires e == Shr(Body(a), 52) && m == Low(Body(a), 52) && (e > 0 ==> q53 == m + D_IMPL)
    requires D_IMPL <= q53 < 2 * D_IMPL
    ensures e > 0 ==> (TieToOdd(a) <==> 897 <= e <= 1150 && And(Shr(q53, 28), 1) == 1
                                        && Low(q53, 28) == 0 && Shr(q53, 29) % 2 == 0)
    ensures e == 0 ==> !TieToOdd(a)
  {
    hide Pow2, Shr, Low, And, TieToOdd, Body;
    Pow2Values();
    ShrIsDivision(Body(a), 52);
    ShrIsDivision(q53, 28);
    ShrIsDivision(q53, 29);
    AndOne(Shr(q53, 28));
    TieFields(a, e, m);
    TieArithmetic(e, m);
  }

  lemma TieFields(a: u64, e: nat, m: nat)
    requires Body(a) == e * 0x10_0000_0000_0000 + m && m < 0x10_0000_0000_0000
    ensures TieToOdd(a) <==> 897 <= e <= 1150 && m % 0x2000_0000 == 0x1000_0000
                             && (e * 0x80_0000 + m / 0x2000_0000) % 2 == 0
  {
    var body: nat := Body(a);
    hide Body;
    assert body / D_IMPL == e;
    assert body / 0x2000_0000 == e * 0x80_0000 + m / 0x2000_0000;
    assert body % 0x2000_0000 == m % 0x2000_0000;
  }

  lemma TieArithmetic(e: nat, m: nat)
    requires m < 0x10_0000_0000_0000
    ensures (e * 0x80_0000 + m / 0x2000_0000) % 2 == m / 0x2000_0000 % 2
    ensures var q := m + 0x10_0000_0000_0000;
            q / 0x2000_0000 == 0x80_0000 + m / 0x2000_0000 && q / 0x2000_0000 % 2 == m / 0x2000_0000 % 2
            && (m % 0x2000_0000 == 0x1000_0000 <==> q / 0x1000_0000 % 2 == 1 && q % 0x1000_0000 == 0)
  {
    var h, l, r := GuardSplit(m);
    GuardParts(m, h, l, r);
    GuardParts(m + 0x10_0000_0000_0000, h + 0x80_0000, l, r);
    EvenPlus(e, h);
    EvenPlus(1, h);
    OddPlus(h, l);
    OddPlus(h + 0x80_0000, l);
  }

  lemma GuardSplit(m: nat) returns (h: nat, l: nat, r: nat)
    ensures m == h * 0x2000_0000 + l * 0x1000_0000 + r && l <= 1 && r < 0x1000_0000
  {
    h, l, r := m / 0x1000_0000 / 2, m / 0x1000_0000 % 2, m % 0x1000_0000;
  }

  lemma EvenPlus(e: nat, x: nat)
    ensures (e * 0x80_0000 + x) % 2 == x % 2
  {
    assert e * 0x80_0000 == 2 * (e * 0x40_0000);
  }

  lemma OddPlus(h: nat, l: nat)
    requires l <= 1
    ensures (2 * h + l) % 2 == l
  {
  }

  lemma GuardParts(m: nat, h: nat, l: nat, r: nat)
    requires m == h * 0x2000_0000 + l * 0x1000_0000 + r && l <= 1 && r < 0x1000_0000
    ensures m / 0x2000_0000 == h && m % 0x2000_0000 == l * 0x1000_0000 + r
    ensures m / 0x1000_0000 == 2 * h + l && m % 0x1000_0000 == r
  {
  }

  /** The rounding the digits call for gives the nearest binary32 value. */
  lemma TruncRounds(a: u64, re: int, q53: u64, extra: nat, step: nat, q: nat, g: bool, sticky: bool, den: nat)
    requires re >= -1074 && step - extra == re + 126 && den == 0x2000_0000 * Pow2(extra)
    requires q < 2 * F_IMPL && (step > 0 ==> q >= F_IMPL) && Leading(q, g, sticky, q53, den)
    requires Unpacked(a, re - 52, q53)
    ensures var body := step * F_IMPL + q + Bit(g && (sticky || q % 2 == 1));
            Nearest(23, F_EXP, if body < F_EXP then body else F_EXP, Size(a), Pow2(925))
  {
    var up := g && (sticky || q % 2 == 1);
    var body := step * F_IMPL + q + Bit(up);
    hide Pow2, Nearest, Size, Unpacked, Leading;
    CellRound32(step, q, g, sticky, q53, den);
    TruncScale(a, re, q53, extra, step, if body < F_EXP then body else F_EXP, den);
  }

  lemma CellRound32(step: nat, q: nat, g: bool, s: bool, n: nat, den: nat)
    requires q < 2 * F_IMPL && (step > 0 ==> q >= F_IMPL) && Leading(q, g, s, n, den)
    ensures var body := step * F_IMPL + q + Bit(g && (s || q % 2 == 1));
            Nearest(23, F_EXP, if body < F_EXP then body else F_EXP, n * Pow2(step), den)
  {
    Pow2Values();
    hide Pow2, Nearest;
    RoundCell(23, F_EXP, step, q, Bit(g), s, n, den, g && (s || q % 2 == 1));
  }

  lemma TruncScale(a: u64, re: int, q53: u64, extra: nat, step: nat, r: nat, den: nat)
    requires re >= -1074 && step - extra == re + 126 && den == 0x2000_0000 * Pow2(extra)
    requires Nearest(23, F_EXP, r, q53 * Pow2(step), den)
    requires Unpacked(a, re - 52, q53)
    ensures Nearest(23, F_EXP, r, Size(a), Pow2(925))
  {
    hide Pow2, Nearest, Size;
    UnpackedProduct(a, re - 52, q53, re + 1074);
    hide *;
    var x, y := re + 1074 + extra, 948;
    Pow2Add(re + 1074, extra);
    Pow2Add(52, 925);
    Pow2Add(29, 948);
    Pow2Values();
    TruncBalance(q53, Size(a), Pow2(re + 1074), Pow2(extra), Pow2(52), Pow2(925), Pow2(948), Pow2(x), den);
    ScaledAt(23, F_EXP, r, q53, den, step);
    ScaledRatio(23, F_EXP, r, q53, den, step, Size(a), Pow2(925), x, y);
  }

  lemma UnpackedProduct(a: u64, exp: int, sig: nat, scale: nat)
    requires scale == exp + 1126 && Unpacked(a, exp, sig)
    ensures sig * Pow2(scale) == Size(a) * Pow2(52)
  {
  }

  lemma ScaledAt(p: nat, inf: nat, r: nat, n: nat, d: nat, e: nat)
    requires Nearest(p, inf, r, n * Pow2(e), d)
    ensures NearestScaled(p, inf, r, n, d, e)
  {
  }

  /** In a tie that the code rounds up, the even neighbour below is the only nearest value. */
  lemma TieIsUnique(a: u64, body: nat)
    requires body > 0 && Nearest(23, F_EXP, body - 1, Size(a), Pow2(925))
    ensures !Nearest(23, F_EXP, body, Size(a), Pow2(925))
  {
    hide Nearest, Mag, Pow2;
    if Nearest(23, F_EXP, body, Size(a), Pow2(925)) {
      NearestUnique(23, F_EXP, body, body - 1, Size(a), Pow2(925));
    }
  }

  lemma TruncBalance(q: nat, size: nat, p: nat, extra: nat, unit: nat, den: nat, y: nat, x: nat, d: nat)
    requires q * p == size * unit && x == p * extra && unit * den == 0x2000_0000 * y && d == 0x2000_0000 * extra
    ensures q * den * x == size * d * y && d == 0x2000_0000 * extra
    ensures extra > 0 ==> d > 0
  {
    calc {
      q * den * x;
      (q * p) * (den * extra);
      size * unit * (den * extra);
      size * (unit * den) * extra;
    }
  }

  /** Widening and narrowing again gives back every binary32 value but a NaN. */
  lemma TruncOfExtend(x: u32, d: u64, y: u32)
    requires !IsNaN32(x) && IsExtension(x, d)
    // what TruncDfSf2 promises of its result y
    requires IsInf(d) ==> IsInf32(y) && Sign32(y) == Sign(d)
    requires IsFinite(d) ==> (IsTruncation(d, y) <==> !TieToOdd(d))
    ensures y == x
  {
    hide Mag, Pow2, Nearest;
    if IsFinite32(x) {
      assert IsTruncation(d, y);
      NearestExact(23, F_EXP, Body32(x), Size(d), Pow2(925));
      NearestUnique(23, F_EXP, Body32(x), Body32(y), Size(d), Pow2(925));
    }
  }

  /** `(float)(double)x` is `x`. */
  method WidenAndNarrow(x: u32) returns (y: u32)
    requires !IsNaN32(x)
    ensures y == x
  {
    hide *;
    var d := ExtendSfDf2(x);
    y := TruncDfSf2(d);
    TruncOfExtend(x, d, y);
  }

  // ----- integers to doubles

  /** `v`, exactly. */
  predicate HoldsInteger(d: u64, v: int) {
    IsFinite(d) && Sign(d) == (if v < 0 then 1 else 0) && Size(d) == Abs(v) * Pow2(1074)
  }

  method DfFromMag(mag: u64, sign: nat) returns (r: u64)
    requires sign <= 1
    requires mag < 2 * D_IMPL  // a wider magnitude would ask for a shift by a negative amount
    ensures IsFinite(r) && Sign(r) == sign && Size(r) == mag * Pow2(1074)
  {
    hide And, Or, Shr, Low, Shl64, Pow2, Mag, Size, Sign, Body;
    if mag == 0 {
      ZeroInteger(sign);
      return Shl64(sign, 63);
    }
    var tm := DfMsb(mag);
    IntegerDigits(mag, tm);
    var q := Shl64(mag, 52 - tm);
    var field: nat := tm + 1023;
    JoinFields(sign, field, q - D_IMPL);
    LowFraction(q);
    r := Or(Or(Shl64(sign, 63), Shl64(field, 52)), And(q, D_FRAC));
    IntegerSize(mag, tm, q, sign, r);
  }

  lemma ZeroInteger(sign: nat)
    requires sign <= 1
    ensures var r := Shl64(sign, 63); IsFinite(r) && Sign(r) == sign && Size(r) == 0
  {
    SignedZero(sign);
    MagOfParts(52, 0, 0);
    assert Mag(52, 0) == 0 by { Pow2Values(); }
    hide Mag, Shl64;
  }

  lemma IntegerDigits(mag: u64, tm: int)
    requires 0 < mag < 2 * D_IMPL && tm >= 0 && Pow2(tm) <= mag < Pow2(tm + 1)
    ensures tm <= 52 && Shl64(mag, 52 - tm) == mag * Pow2(52 - tm)
    ensures D_IMPL <= Shl64(mag, 52 - tm) < 2 * D_IMPL
  {
    assert tm <= 52 by {
      Pow2Values();
      if tm > 52 {
        Pow2Monotone(53, tm);
      }
    }
    NormalizedUp(mag, tm);
  }

  lemma IntegerSize(mag: u64, tm: int, q: nat, sign: nat, r: u64)
    requires 0 <= tm <= 52 && q == mag * Pow2(52 - tm) && D_IMPL <= q < 2 * D_IMPL && sign <= 1
    requires r == sign * D_SIGN + (tm + 1023) * D_IMPL + (q - D_IMPL)
    ensures IsFinite(r) && Sign(r) == sign && Size(r) == mag * Pow2(1074)
  {
    Pow2Values();
    hide Pow2, Mag;
    MagOfParts(52, tm + 1022, q);
    Pow2Add(52 - tm, tm + 1022);
    MulAssoc(mag, Pow2(52 - tm), Pow2(tm + 1022));
    ReadBack(sign, (tm + 1022) * D_IMPL + q);
  }

  method FloatSiDf(v: int) returns (r: u64)
    requires -0x8000_0000 <= v < 0x8000_0000
    ensures HoldsInteger(r, v)
  {
    hide Pow2, Size, Sign, Body;
    if v < 0 {
      var mag: u64 := Wrap64(Wrap64(-(v + 1)) + 1);
      r := DfFromMag(mag, 1);
      return;
    }
    r := DfFromMag(v, 0);
  }

  method FloatUnSiDf(v: u32) returns (r: u64)
    ensures HoldsInteger(r, v)
  {
    hide Pow2, Size, Sign, Body;
    r := DfFromMag(v, 0);
  }

  // ----- doubles to integers

  /** A 32-bit pattern read as `int`. */
  function AsInt32(x: nat): int {
    var w: int := Wrap32(x);
    if w >= 0x8000_0000 then w - 0x1_0000_0000 else w
  }

  const INT_MIN: int := -0x8000_0000
  const INT_MAX: int := 0x7FFF_FFFF

  function DfToI(a: u64, isSigned: bool): int {
    var sign := Shr(a, 63);
    var e: int := And(Shr(a, 52), 0x7FF);
    var q := Or(And(a, D_FRAC), D_IMPL);
    var re := e - 1023;
    var overflow := if isSigned then INT_MIN else INT_MAX;
    if e == 0x7FF then overflow
    else if e == 0 then 0
    else if re < 0 then 0
    else if re > 52 && (re - 52 >= 32 || Shr(Shl64(q, re - 52), 32) != 0) then overflow
    else
      var ip: int := if re <= 52 then Shr(q, 52 - re) else Shl64(q, re - 52);
      if isSigned then
        if sign != 0 then if ip > 0x8000_0000 then INT_MIN else -ip
        else if ip > 0x7FFF_FFFF then INT_MAX else ip
      else if sign != 0 || ip > 0xFFFF_FFFF then INT_MAX
      else AsInt32(ip)
  }

  function FixDfSi(a: u64): int { DfToI(a, true) }
  function FixUnsDfSi(a: u64): u32 { Wrap32(DfToI(a, false)) }

  /** The value rounded toward zero. */
  function Truncated(a: u64): int {
    var t: int := Shr(Size(a), 1074);
    if Sign(a) == 1 then -t else t
  }

  lemma TruncatedMagnitude(a: u64)
    requires !IsNaN(a)
    ensures var e, q := And(Shr(a, 52), 0x7FF), Or(And(a, D_FRAC), D_IMPL);
            var re, t := e - 1023, Shr(Size(a), 1074);
            q < 2 * D_IMPL && D_IMPL <= q && e <= 0x7FF && (e == 0x7FF <==> IsInf(a))
            && (e == 0 || re < 0 ==> t == 0)
            && (0 <= re <= 52 ==> t == Shr(q, 52 - re) && 1 <= t)
            && (re > 52 ==> t == q * Pow2(re - 52))
  {
    hide Mag, And, Or, Pow2, Shr, Low, Body;
    SplitFields(a);
    ClassOfFields(a);
    var e, m := Shr(Body(a), 52), Low(Body(a), 52);
    FracWithImplicit(m);
    var q := m + D_IMPL;
    if e == 0 {
      SubnormalSize(a);
      BelowOne(m, 1074);
    } else {
      NormalSize(a, e, q);
      if e <= 1075 {
        ShiftOfProduct(q, e - 1, 1075 - e);
        if e < 1023 {
          BelowOne(q, 1075 - e);
        } else {
          AtLeastOne(q, 1075 - e);
        }
      } else {
        Pow2Add(e - 1075, 1074);
        MulAssoc(q, Pow2(e - 1075), Pow2(1074));
        ShrOfSum(q * Pow2(e - 1075), 0, 1074);
      }
    }
  }

  lemma FracWithImplicit(m: nat)
    requires m < D_IMPL
    ensures Or(m, D_IMPL) == m + D_IMPL
  {
    Pow2Values();
    hide Pow2, Or;
    OrShifted(1, m, 52);
  }

  lemma NormalSize(a: u64, e: nat, q: nat)
    requires e == Shr(Body(a), 52) > 0 && q == Low(Body(a), 52) + D_IMPL
    ensures Size(a) == q * Pow2(e - 1)
  {
    Pow2Values();
    hide Pow2, Shr, Low, Mag;
    MagOfNormal(52, Body(a), e - 1, q);
  }

  lemma BelowOne(x: nat, k: nat)
    requires x < 2 * D_IMPL && k >= 53
    ensures Shr(x, k) == 0
  {
    Pow2Monotone(53, k);
    Pow2Values();
    hide Pow2, Shr;
    ShrUnique(x, k, 0);
  }

  lemma AtLeastOne(x: nat, k: nat)
    requires x >= D_IMPL && k <= 52
    ensures Shr(x, k) >= 1
  {
    Pow2Monotone(k, 52);
    Pow2Values();
    hide Pow2, Shr;
    ShrLess(x, k, 1);
  }

  lemma ShiftOfProduct(q: nat, j: nat, k: nat)
    ensures Shr(q * Pow2(j), j + k) == Shr(q, k)
  {
    ShrOfSum(q, 0, j);
    ShrShr(q * Pow2(j), j, k);
  }

  lemma ScaledAtLeast(q: nat, k: nat)
    requires k > 0 && q >= D_IMPL
    ensures q * Pow2(k) >= 2 * D_IMPL
  {
    Pow2Monotone(1, k);
    assert Pow2(1) == 2;
    hide Pow2;
    MulLe(2, Pow2(k), q);
  }

  /** A value whose truncation is an `int` converts to that `int`. */
  lemma FixInRange(a: u64)
    requires IsFinite(a) && INT_MIN <= Truncated(a) <= INT_MAX
    ensures FixDfSi(a) == Truncated(a)
  {
    hide And, Or, Pow2, Shr, Low, Body, Size, Shl64;
    TruncatedMagnitude(a);
    SplitFields(a);
    var re, q := And(Shr(a, 52), 0x7FF) - 1023, Or(And(a, D_FRAC), D_IMPL);
    if re > 52 {
      ScaledAtLeast(q, re - 52);
      assert false;
    }
  }

  /** A value whose truncation is an `unsigned` converts to that `unsigned`. */
  lemma FixUnsInRange(a: u64)
    requires IsFinite(a) && 0 <= Truncated(a) < 0x1_0000_0000
    ensures FixUnsDfSi(a) == Truncated(a)
  {
    hide And, Or, Pow2, Shr, Low, Body, Size, Shl64;
    TruncatedMagnitude(a);
    SplitFields(a);
    var re, q := And(Shr(a, 52), 0x7FF) - 1023, Or(And(a, D_FRAC), D_IMPL);
    if re > 52 {
      ScaledAtLeast(q, re - 52);
      assert false;
    }
  }

  function Saturated(a: u64): int {
    var t := Truncated(a);
    if t < INT_MIN then INT_MIN else if t > INT_MAX then INT_MAX else t
  }

  /**
   The operands that saturate as promised. Past 2^53 the code tests the upper half of a product
   that has already lost its top bits, and on overflow it always answers with the smallest `int`.
   */
  predicate SaturationHolds(a: u64) {
    var re, q := And(Shr(a, 52), 0x7FF) - 1023, Or(And(a, D_FRAC), D_IMPL);
    || re <= 52
    || (if re - 52 >= 32 || Shr(Shl64(q, re - 52), 32) != 0 then Shr(a, 63) != 0
        else Shl64(q, re - 52) >= 0x7FFF_FFFF + Shr(a, 63))
  }

  /** An infinity saturates as the largest value of its sign would. */
  lemma FixSaturation(a: u64)
    requires !IsNaN(a)
    ensures FixDfSi(a) == Saturated(a) <==> SaturationHolds(a)
  {
    hide And, Or, Pow2, Shr, Low, Body, Size, Shl64, Sign;
    TruncatedMagnitude(a);
    SplitFields(a);
    var re, q := And(Shr(a, 52), 0x7FF) - 1023, Or(And(a, D_FRAC), D_IMPL);
    if re > 52 {
      ScaledAtLeast(q, re - 52);
    }
  }

  /** A NaN and an infinity convert to the least int, and to the largest int as an unsigned. */
  lemma FixSpecials(a: u64)
    requires IsNaN(a) || IsInf(a)
    ensures FixDfSi(a) == -0x8000_0000 && FixUnsDfSi(a) == 0x7FFF_FFFF
  {
    hide Mag, Or, Pow2, Shr, Low, Body;
    SplitFields(a);
    ClassOfFields(a);
  }

  function SaturatedUns(a: u64): u32 {
    var t := Truncated(a);
    if t < 0 then 0 else if t > 0xFFFF_FFFF then 0xFFFF_FFFF else t
  }

  lemma ShiftedIsEven(q: nat, k: nat)
    requires k > 0
    ensures Shl64(q, k) % 2 == 0
  {
    assert Pow2(k) == 2 * Pow2(k - 1);
    hide Pow2;
    MulAssoc(q, 2, Pow2(k - 1));
    EvenProduct(q * 2 * Pow2(k - 1), q * Pow2(k - 1));
  }

  lemma EvenProduct(n: nat, h: nat)
    requires n == 2 * h
    ensures Wrap64(n) % 2 == 0
  {
  }

  /** Out of range the conversion to `unsigned` never answers with the nearest bound. */
  lemma FixUnsSaturation(a: u64)
    requires !IsNaN(a)
    ensures FixUnsDfSi(a) == SaturatedUns(a) <==> 0 <= Truncated(a) < 0x1_0000_0000
  {
    hide And, Or, Pow2, Shr, Low, Body, Size, Shl64, Sign;
    TruncatedMagnitude(a);
    SplitFields(a);
    var re, q := And(Shr(a, 52), 0x7FF) - 1023, Or(And(a, D_FRAC), D_IMPL);
    if re > 52 {
      ScaledAtLeast(q, re - 52);
      ShiftedIsEven(q, re - 52);
    }
  }

  /** 2^64 converts to 0. */
  lemma FixSaturationFails()
    ensures FixDfSi(0x43F0_0000_0000_0000) == 0 && Saturated(0x43F0_0000_0000_0000) == INT_MAX
  {
    TopBitShiftedOut(0x43F0_0000_0000_0000);
  }

  lemma TopBitShiftedOut(a: u64)
    requires a == 0x43F0_0000_0000_0000
    ensures FixDfSi(a) == 0 && Saturated(a) == INT_MAX
  {
    LeadingBitLost(a);
    SplitFields(a);
    hide And, Or, Pow2, Shr, Low, Size, Shl64;
    LargeMagnitude(a);
  }

  lemma LargeMagnitude(a: u64)
    requires a == 0x43F0_0000_0000_0000
    ensures Shr(Size(a), 1074) >= 2 * D_IMPL
  {
    hide And, Or, Pow2, Shr, Low, Size, Shl64;
    LeadingBitLost(a);
    TruncatedMagnitude(a);
    ScaledAtLeast(D_IMPL, 12);
  }

  lemma LeadingBitLost(a: u64)
    requires a == 0x43F0_0000_0000_0000
    ensures And(Shr(a, 52), 0x7FF) == 1087 && Or(And(a, D_FRAC), D_IMPL) == D_IMPL
    ensures Shl64(D_IMPL, 12) == 0 && Shr(0, 32) == 0
  {
    hide Pow2, And, Or, Low, Shr, Shl64;
    SplitFields(a);
    Pow2Values();
    ShrIsDivision(Body(a), 52);
    FracWithImplicit(0);
    ShiftsOfPowers();
  }

  lemma ShiftsOfPowers()
    ensures Shl64(D_IMPL, 12) == 0 && Shr(0, 32) == 0
  {
    Pow2Values();
    assert Pow2(12) == 2 * Pow2(11);
    hide Pow2, Shr;
    ShrUnique(0, 32, 0);
  }

  /** Every `int` and every `unsigned` survives the way to a double and back. */
  lemma FixOfFloat(v: int, d: u64)
    requires HoldsInteger(d, v)
    ensures INT_MIN <= v <= INT_MAX ==> FixDfSi(d) == v
    ensures 0 <= v < 0x1_0000_0000 ==> FixUnsDfSi(d) == v
  {
    hide Pow2, Size, FixDfSi, FixUnsDfSi, Shr, Body;
    ShrOfSum(Abs(v), 0, 1074);
    assert Truncated(d) == v;
    if INT_MIN <= v <= INT_MAX {
      FixInRange(d);
    }
    if 0 <= v < 0x1_0000_0000 {
      FixUnsInRange(d);
    }
  }
}
