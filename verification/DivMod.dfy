/**
 64-bit division with remainder and 64-bit multiplication from shifts, subtractions and additions
 (lib/compiler_rt_divmod.c:4-80, 142-151).
 */
module DivMod {
  import opened Bits

  type i64 = x: int | -0x8000_0000_0000_0000 <= x < 0x8000_0000_0000_0000

  const I64_MIN: i64 := -0x8000_0000_0000_0000

  /** `(long long)u`, and the two's-complement result of a signed operation. */
  function ToSigned(u: u64): i64 {
    if u < 0x8000_0000_0000_0000 then u else u - 0x1_0000_0000_0000_0000
  }

  // ----- unsigned division

  /** `a` is `q` times `d` and `r` more. */
  predicate Makes(a: int, q: int, d: int, r: int) {
    a == q * d + r
  }

  lemma DivisionUnique(a: nat, b: nat, q: nat, r: nat, q': nat, r': nat)
    requires r < b && r' < b && Makes(a, q, b, r) && Makes(a, q', b, r')
    ensures q == q' && r == r'
  {
    MulLe(q + 1, q', b);
    MulLe(q' + 1, q, b);
    MulFacts(q, b);
    MulFacts(q', b);
  }

  /** `d` is `b` shifted left by `shift`. */
  predicate IsShifted(b: nat, d: nat, shift: nat) {
    d == b * Pow2(shift)
  }

  lemma NotShifted(b: nat, d: nat)
    ensures IsShifted(b, d, 0) <==> d == b
  {
  }

  lemma ShiftMore(b: nat, d: u64, shift: nat)
    requires IsShifted(b, d, shift) && 2 * d < 0x1_0000_0000_0000_0000
    ensures Shl64(d, 1) == 2 * d && IsShifted(b, 2 * d, shift + 1)
  {
    assert Pow2(1) == 2;
    MulFacts(b, Pow2(shift));
  }

  lemma ShiftLess(b: nat, d: nat, shift: nat)
    requires IsShifted(b, d, shift) && shift > 0
    ensures d == 2 * Shr(d, 1) && IsShifted(b, Shr(d, 1), shift - 1)
  {
    MulFacts(b, Pow2(shift - 1));
    assert Shr(d, 1) == d / 2;
  }

  lemma HighBit(d: u64)
    ensures Shr(d, 63) == 0 <==> d < 0x8000_0000_0000_0000
  {
    Pow2Values();
    ShrLess(d, 63, 1);
  }

  lemma HalfOf(a: nat)
    ensures Shr(a, 1) == a / 2
  {
  }

  /** What one round of the loop does to the quotient so far. */
  lemma Round(a0: u64, q: nat, d: nat, a: nat)
    requires Makes(a0, q, 2 * d, a) && d > 0
    ensures 2 * q < 0x1_0000_0000_0000_0000 && Makes(a0, 2 * q, d, a)
    ensures a >= d ==> 2 * q + 1 < 0x1_0000_0000_0000_0000 && Makes(a0, 2 * q + 1, d, a - d)
  {
    MulFacts(q, d);
    MulFacts(2 * q, d);
    assert 2 * (q * d) == 2 * q * d;
    MulLe(1, d, 2 * q);
    MulLe(1, d, 2 * q + 1);
  }

  lemma NothingTaken(a: nat, d: nat)
    ensures Makes(a, 0, d, a)
  {
  }

  lemma QuotientBit(q: u64)
    requires 2 * q < 0x1_0000_0000_0000_0000
    ensures Shl64(q, 1) == 2 * q && Or(2 * q, 1) == 2 * q + 1
  {
    assert Pow2(1) == 2;
    OrBit(q, 0);
  }

  method Udivmoddi4(a0: u64, b: u64) returns (quot: u64, rem: u64)
    ensures b == 0 ==> quot == 0 && rem == 0
    ensures b > 0 ==> Makes(a0, quot, b, rem) && rem < b
  {
    hide *;
    if b == 0 {
      return 0, 0;
    }
    if a0 < b {
      NothingTaken(a0, b);
      return 0, a0;
    }
    var a, div, shift := a0, b, 0;
    NotShifted(b, div);
    HighBit(div);
    HalfOf(a);
    while Shr(div, 63) == 0 && div <= Shr(a, 1)
      invariant 0 < div <= a && shift >= 0 && IsShifted(b, div, shift)
      decreases a - div
    {
      HighBit(div);
      ShiftMore(b, div, shift);
      div := Shl64(div, 1);
      shift := shift + 1;
      HighBit(div);
    }
    HighBit(div);
    assert a < 2 * div;
    var q: u64 := 0;
    NothingTaken(a, 2 * div);
    while true
      invariant 0 < div && 0 <= a < 2 * div && shift >= 0 && IsShifted(b, div, shift) && Makes(a0, q, 2 * div, a)
      decreases shift
    {
      Round(a0, q, div, a);
      QuotientBit(q);
      q := Shl64(q, 1);
      if a >= div {
        a := a - div;
        q := Or(q, 1);
      }
      if shift == 0 {
        NotShifted(b, div);
        break;
      }
      ShiftLess(b, div, shift);
      div := Shr(div, 1);
      shift := shift - 1;
    }
    return q, a;
  }

  method Udivdi3(a: u64, b: u64) returns (q: u64)
    ensures b == 0 ==> q == 0
    ensures b > 0 ==> exists r: nat :: r < b && Makes(a, q, b, r)
  {
    var r: u64;
    q, r := Udivmoddi4(a, b);
  }

  method Umoddi3(a: u64, b: u64) returns (r: u64)
    ensures b == 0 ==> r == 0
    ensures b > 0 ==> r < b && exists q: nat :: Makes(a, q, b, r)
  {
    var q: u64;
    q, r := Udivmoddi4(a, b);
  }

  // ----- signed division

  /** Division that truncates toward zero: the remainder has the sign of the dividend. */
  predicate Truncates(a: int, b: int, q: int, r: int) {
    Makes(a, q, b, r) && Abs(r) < Abs(b) && (r == 0 || (r < 0 <==> a < 0))
  }

  lemma TruncatesOnce(a: int, b: int, q: int, r: int, q': int, r': int)
    requires Truncates(a, b, q, r) && Truncates(a, b, q', r')
    ensures q == q' && r == r'
  {
    assert (q - q') * b == q * b - q' * b;
    AbsMul(q - q', b);
  }

  lemma AbsMul(d: int, b: int)
    ensures d != 0 ==> Abs(d * b) >= Abs(b)
  {
    MulLe(1, d, Abs(b));
    MulLe(1, -d, Abs(b));
    SignsOut(d, b);
  }

  lemma SignsOut(q: int, b: int)
    ensures (-q) * (-b) == q * b && (-q) * b == -(q * b) && q * (-b) == -(q * b)
  {
  }

  /** From the quotient of the absolute values to the signed one. */
  lemma SignsApplied(a: int, b: int, q: int, r: int)
    requires b != 0 && Makes(Abs(a), q, Abs(b), r) && 0 <= r < Abs(b)
    ensures Truncates(a, b, if (a < 0) != (b < 0) then -q else q, if a < 0 then -r else r)
  {
    SignsOut(q, b);
  }

  /** `uabsdi`: also right for the most negative value. */
  function Uabsdi(v: i64): (r: u64)
    ensures r == Abs(v)
  {
    var uv := Wrap64(v);
    if v < 0 then Wrap64(0 - uv) else uv
  }

  /** `-(long long)u`. */
  function NegSigned(u: u64): i64 {
    var v: int := ToSigned(u);
    ToSigned(Wrap64(-v))
  }

  lemma SignedResult(u: u64)
    ensures NegSigned(u) == ToSigned(Wrap64(0 - u)) && ToSigned(u) == ToSigned(Wrap64(u))
  {
    hide Wrap64;
    WrapNegative(u);
  }

  lemma WrapNegative(u: u64)
    ensures Wrap64(u) == u && Wrap64(0 - u) == if u == 0 then 0 else 0x1_0000_0000_0000_0000 - u
    ensures u > 0 ==> Wrap64(0x1_0000_0000_0000_0000 - u) == 0x1_0000_0000_0000_0000 - u
  {
    var wide: int := 0 - u;
    if u > 0 {
      assert wide == -1 * 0x1_0000_0000_0000_0000 + (0x1_0000_0000_0000_0000 - u);
    }
  }

  /** A remainder is small enough to keep its value in both conversions. */
  lemma SignedRemainder(u: u64)
    requires u < 0x8000_0000_0000_0000
    ensures NegSigned(u) == 0 - u && ToSigned(u) == u
  {
  }

  /** The quotient of two signed values, wrapped to 64 bits. */
  method Divdi3(a: i64, b: i64) returns (q: i64)
    ensures b == 0 ==> q == 0
    ensures forall t, r :: b != 0 && Truncates(a, b, t, r) ==> q == ToSigned(Wrap64(t))
  {
    hide *;
    if b == 0 {
      return 0;
    }
    var neg := (a < 0) != (b < 0);
    var ua, ub := Uabsdi(a), Uabsdi(b);
    AbsPositive(b);
    var uq := Udivdi3(ua, ub);
    ghost var ur: nat :| ur < ub && Makes(ua, uq, ub, ur);
    SignsApplied(a, b, uq, ur);
    SignedResult(uq);
    q := if neg then NegSigned(uq) else ToSigned(uq);
    ghost var nq: int, nr: int := uq, ur;
    ghost var t0, r0 := if neg then -nq else nq, if a < 0 then -nr else nr;
    forall t, r | Truncates(a, b, t, r)
      ensures q == ToSigned(Wrap64(t))
    {
      TruncatesOnce(a, b, t, r, t0, r0);
    }
  }

  lemma AbsPositive(b: int)
    ensures b != 0 ==> Abs(b) > 0
  {
  }

  /** The remainder, which is always representable. */
  method Moddi3(a: i64, b: i64) returns (r: i64)
    ensures b == 0 ==> r == 0
    ensures forall q, t :: b != 0 && Truncates(a, b, q, t) ==> r == t
  {
    hide *;
    if b == 0 {
      return 0;
    }
    var ua, ub := Uabsdi(a), Uabsdi(b);
    AbsPositive(b);
    AbsBounded(b);
    var ur := Umoddi3(ua, ub);
    ghost var uq: nat :| Makes(ua, uq, ub, ur);
    SignsApplied(a, b, uq, ur);
    SignedRemainder(ur);
    r := if a < 0 then NegSigned(ur) else ToSigned(ur);
    ghost var nq: int, nr: int := uq, ur;
    ghost var q0, r0 := if (a < 0) != (b < 0) then -nq else nq, if a < 0 then -nr else nr;
    forall q, t | Truncates(a, b, q, t)
      ensures r == t
    {
      TruncatesOnce(a, b, q, t, q0, r0);
    }
  }

  lemma AbsBounded(b: i64)
    ensures Abs(b) <= 0x8000_0000_0000_0000
  {
  }

  /** There is a truncated quotient, and it is representable unless the most negative value is divided by -1. */
  lemma TruncatedQuotient(a: i64, b: i64) returns (q: int, r: int)
    requires b != 0
    ensures Truncates(a, b, q, r)
    ensures ToSigned(Wrap64(q)) == q <==> !(a == I64_MIN && b == -1)
  {
    hide *;
    var n, d := Abs(a), Abs(b);
    AbsPositive(b);
    AbsBounded(a);
    var uq, ur := Quotient(n, d);
    SignsApplied(a, b, uq, ur);
    q := if (a < 0) != (b < 0) then -uq else uq;
    r := if a < 0 then -ur else ur;
    QuotientSize(n, d, uq, ur);
    InRange(q);
    OnlyOverflow(a, b);
  }

  lemma Quotient(n: nat, d: nat) returns (q: int, r: int)
    requires d > 0
    ensures 0 <= q && 0 <= r < d && Makes(n, q, d, r)
  {
    q, r := n / d, n % d;
  }

  lemma OnlyOverflow(a: i64, b: i64)
    ensures Abs(b) == 1 && Abs(a) == 0x8000_0000_0000_0000 && (a < 0) == (b < 0) <==> a == I64_MIN && b == -1
  {
  }

  lemma QuotientSize(n: nat, d: nat, q: nat, r: nat)
    requires d > 0 && Makes(n, q, d, r) && r < d && n <= 0x8000_0000_0000_0000
    ensures q <= 0x8000_0000_0000_0000
    ensures q == 0x8000_0000_0000_0000 <==> d == 1 && n == 0x8000_0000_0000_0000
  {
    MulLe(1, d, q);
    MulLe(2, d, q);
  }

  lemma InRange(q: int)
    requires -0x8000_0000_0000_0000 <= q <= 0x8000_0000_0000_0000
    ensures ToSigned(Wrap64(q)) == q <==> q != 0x8000_0000_0000_0000
  {
  }

  // ----- multiplication

  /** `r` and what is left to add make the product, up to `k` wrap-arounds. */
  predicate Accumulates(r: int, a: int, b: int, k: int, product: int) {
    r + a * b + k * 0x1_0000_0000_0000_0000 == product
  }

  lemma AccumulateStep(r: u64, a: u64, b: nat, k: int, product: int)
    requires Accumulates(r, a, b, k, product)
    ensures var r' := if b % 2 == 1 then Wrap64(r + a) else r;
            exists k' :: Accumulates(r', Wrap64(2 * a), b / 2, k', product)
  {
    var half: nat := b / 2;
    var sum: int := if b % 2 == 1 then r + a else r;
    var f: int := sum / 0x1_0000_0000_0000_0000;
    var e: int := 2 * a / 0x1_0000_0000_0000_0000;
    var a': int := Wrap64(2 * a);
    var r': int := Wrap64(sum);
    var k' := k + f + e * half;
    assert a * b == 2 * a * half + (if b % 2 == 1 then a else 0) by {
      assert b == 2 * half + b % 2;
      assert a * (2 * half) == 2 * a * half;
    }
    assert 2 * a * half == (a' + e * 0x1_0000_0000_0000_0000) * half;
    assert (a' + e * 0x1_0000_0000_0000_0000) * half == a' * half + e * half * 0x1_0000_0000_0000_0000;
    assert Accumulates(r', a', half, k', product);
  }

  lemma AccumulateDone(r: u64, a: int, k: int, product: int)
    requires Accumulates(r, a, 0, k, product)
    ensures r == Wrap64(product)
  {
  }

  lemma AccumulateStart(a: int, b: int)
    ensures Accumulates(0, a, b, 0, a * b)
  {
  }

  lemma BitsOf(a: u64, b: nat)
    ensures And(b, 1) == b % 2 && Shl64(a, 1) == Wrap64(2 * a) && Shr(b, 1) == b / 2
  {
    AndOne(b);
    assert Pow2(1) == 2;
  }

  /** `__muldi3` is the product modulo 2^64. */
  method Muldi3(a0: u64, b0: u64) returns (r: u64)
    ensures r == Wrap64(a0 * b0)
  {
    hide *;
    var a, b := a0, b0;
    r := 0;
    ghost var k: int := 0;
    ghost var product: int := a0 * b0;
    AccumulateStart(a, b);
    while b != 0
      invariant b >= 0 && Accumulates(r, a, b, k, product)
      decreases b
    {
      AccumulateStep(r, a, b, k, product);
      BitsOf(a, b);
      if And(b, 1) != 0 {
        r := Wrap64(r + a);
      }
      a := Shl64(a, 1);
      b := Shr(b, 1);
      k :| Accumulates(r, a, b, k, product);
    }
    AccumulateDone(r, a, k, product);
  }
}
