/** The six comparison helpers and the unordered test (lib/compiler_rt_softfloat.c:27-73). */
module SoftFloatCompare {
  import opened Bits
  import opened Rounding
  import opened SoftFloat

  predicate DfIsNan(x: u64) {
    var hi := Wrap32(Shr(x, 32));
    And(hi, 0x7FF0_0000) == 0x7FF0_0000 && (And(hi, 0x000F_FFFF) != 0 || Wrap32(x) != 0)
  }

  /** The unsigned key that puts the patterns of both signs in one order. */
  function OrderKey(x: u64): u64 {
    if Shr(x, 63) != 0 then Not64(x) else Wrap64(Xor(x, D_SIGN))
  }

  function DfCmp3Way(ua: u64, ub: u64, nanResult: int): int {
    if DfIsNan(ua) || DfIsNan(ub) then nanResult
    else
      var ka := OrderKey(if Shl64(ua, 1) == 0 then 0 else ua);
      var kb := OrderKey(if Shl64(ub, 1) == 0 then 0 else ub);
      if ka < kb then -1 else if ka > kb then 1 else 0
  }

  function EqDf2(a: u64, b: u64): int { DfCmp3Way(a, b, 1) }
  function NeDf2(a: u64, b: u64): int { DfCmp3Way(a, b, 1) }
  function LtDf2(a: u64, b: u64): int { DfCmp3Way(a, b, 1) }
  function LeDf2(a: u64, b: u64): int { DfCmp3Way(a, b, 1) }
  function GtDf2(a: u64, b: u64): int { DfCmp3Way(a, b, -1) }
  function GeDf2(a: u64, b: u64): int { DfCmp3Way(a, b, -1) }
  function UnordDf2(a: u64, b: u64): int { if DfIsNan(a) || DfIsNan(b) then 1 else 0 }

  lemma NanTest(x: u64)
    ensures DfIsNan(x) <==> IsNaN(x)
  {
    Pow2Values();
    hide Pow2, Shr, Low, And;
    ShrIsDivision(x, 32);
    var hi := Wrap32(Shr(x, 32));
    AndField(hi, 0x7FF0_0000, 20, 11);
    AndMask(hi, 20);
    ShrIsDivision(hi, 20);
    ShrIsDivision(Shr(hi, 20), 11);
    HighWordFields(x, hi);
  }

  lemma HighWordFields(x: u64, hi: nat)
    requires hi == x / 0x1_0000_0000
    ensures var field, top, low := hi / 0x10_0000 % 0x800, hi % 0x10_0000, x % 0x1_0000_0000;
            Body(x) == field * 0x10_0000_0000_0000 + top * 0x1_0000_0000 + low
  {
    var field, top, low := hi / 0x10_0000 % 0x800, hi % 0x10_0000, x % 0x1_0000_0000;
    assert hi == (hi / 0x10_0000 / 0x800 * 0x800 + field) * 0x10_0000 + top;
    assert x == hi * 0x1_0000_0000 + low;
  }

  lemma KeyOfPattern(x: u64)
    ensures OrderKey(x) == if Sign(x) == 1 then D_SIGN - 1 - Body(x) else D_SIGN + Body(x)
  {
    Pow2Values();
    hide Pow2, Shr, Xor;
    ShrIsDivision(x, 63);
    XorBit(x, 63);
    SignSplit(x);
  }

  lemma SignSplit(x: u64)
    ensures x / D_SIGN <= 1 && x == x / D_SIGN * D_SIGN + Body(x)
  {
  }

  lemma ZeroPattern(x: u64)
    ensures Shl64(x, 1) == 0 <==> IsZero(x)
  {
    Pow2Values();
    hide Pow2;
    SignSplit(x);
  }

  lemma SizeOrder(x: nat, y: nat)
    ensures x < y <==> Mag(52, x) < Mag(52, y)
    ensures x == y <==> Mag(52, x) == Mag(52, y)
  {
    hide Mag;
    if x < y {
      MagMonotone(52, x, y);
    } else if y < x {
      MagMonotone(52, y, x);
    }
  }

  lemma ZeroSize()
    ensures Mag(52, 0) == 0
  {
    MagOfParts(52, 0, 0);
    Pow2Values();
  }

  /** Away from NaN the result is the sign of the difference of the two values. */
  lemma CompareIsValueOrder(a: u64, b: u64, nanResult: int)
    requires !IsNaN(a) && !IsNaN(b)
    ensures DfCmp3Way(a, b, nanResult) == if Val(a) < Val(b) then -1 else if Val(a) > Val(b) then 1 else 0
  {
    NanTest(a);
    NanTest(b);
    KeyOfPattern(a);
    KeyOfPattern(b);
    KeyOfPattern(0);
    ZeroPattern(a);
    ZeroPattern(b);
    ZeroSize();
    SizeOrder(Body(a), Body(b));
    SizeOrder(0, Body(a));
    SizeOrder(0, Body(b));
    hide Mag, OrderKey, DfIsNan, Shl64;
  }

  /** Two values that can be compared. */
  predicate Comparable(a: u64, b: u64) {
    !IsNaN(a) && !IsNaN(b)
  }

  /** Each helper answers its C operator, with every comparison but `!=` false on a NaN. */
  lemma HelpersMeaning(a: u64, b: u64)
    ensures EqDf2(a, b) == 0 <==> Comparable(a, b) && Val(a) == Val(b)
    ensures NeDf2(a, b) != 0 <==> !Comparable(a, b) || Val(a) != Val(b)
    ensures LtDf2(a, b) < 0 <==> Comparable(a, b) && Val(a) < Val(b)
    ensures LeDf2(a, b) <= 0 <==> Comparable(a, b) && Val(a) <= Val(b)
    ensures GtDf2(a, b) > 0 <==> Comparable(a, b) && Val(a) > Val(b)
    ensures GeDf2(a, b) >= 0 <==> Comparable(a, b) && Val(a) >= Val(b)
    ensures UnordDf2(a, b) != 0 <==> !Comparable(a, b)
  {
    NanTest(a);
    NanTest(b);
    if Comparable(a, b) {
      CompareIsValueOrder(a, b, 1);
      CompareIsValueOrder(a, b, -1);
    }
    hide DfIsNan, OrderKey, Val, IsNaN;
  }

  /** Away from NaN the helpers are one total preorder, with `<` its strict part. */
  lemma TotalPreorder(a: u64, b: u64, c: u64)
    requires !IsNaN(a) && !IsNaN(b) && !IsNaN(c)
    ensures LeDf2(a, a) <= 0 && (LeDf2(a, b) <= 0 || LeDf2(b, a) <= 0)
    ensures LeDf2(a, b) <= 0 && LeDf2(b, c) <= 0 ==> LeDf2(a, c) <= 0
    ensures LtDf2(a, b) < 0 <==> !(LeDf2(b, a) <= 0)
    ensures GeDf2(a, b) >= 0 <==> LeDf2(b, a) <= 0
    ensures GtDf2(a, b) > 0 <==> LtDf2(b, a) < 0
    ensures EqDf2(a, b) == 0 <==> LeDf2(a, b) <= 0 && LeDf2(b, a) <= 0
  {
    hide *;
    HelpersMeaning(a, a);
    HelpersMeaning(a, b);
    HelpersMeaning(b, a);
    HelpersMeaning(b, c);
    HelpersMeaning(a, c);
    BothComparable(a, b, c);
  }

  lemma BothComparable(a: u64, b: u64, c: u64)
    requires !IsNaN(a) && !IsNaN(b) && !IsNaN(c)
    ensures Comparable(a, a) && Comparable(a, b) && Comparable(b, a) && Comparable(b, c) && Comparable(a, c)
  {
  }

  /** Infinities lie outside all finite values, and the two zeros are one value. */
  lemma OrderEnds(x: u64)
    requires IsFinite(x)
    ensures LtDf2(x, D_EXP) < 0 && GtDf2(x, 0xFFF0_0000_0000_0000) > 0
    ensures IsZero(x) <==> EqDf2(x, D_SIGN) == 0
  {
    hide Mag, LtDf2, GtDf2, EqDf2;
    HelpersMeaning(x, D_EXP);
    HelpersMeaning(x, 0xFFF0_0000_0000_0000);
    HelpersMeaning(x, D_SIGN);
    ZeroSize();
    SizeOrder(Body(x), D_EXP);
    SizeOrder(0, Body(x));
    SizeOrder(0, D_EXP);
  }
}
