/**
 Machine integers and the bit operations the C sources apply to them.

 A word is a mathematical integer in the range of its C type. `&`, `|` and `^` are defined digit by
 digit on the binary expansion, a left shift wraps at the width of the type, and a right shift of an
 unsigned value is a division. The lemmas below turn each mask, field extraction and disjoint `|`
 that the sources use into arithmetic.
 */
module Bits {

  function Pow2(k: nat): (r: nat)
    ensures r > 0
  {
    if k == 0 then 1 else 2 * Pow2(k - 1)
  }

  type byte = x: nat | x < 256
  type u64 = x: nat | x < 0x1_0000_0000_0000_0000
  type u32 = x: nat | x < 0x1_0000_0000

  function And(x: nat, y: nat): nat {
    if x == 0 || y == 0 then 0
    else 2 * And(x / 2, y / 2) + (if x % 2 == 1 && y % 2 == 1 then 1 else 0)
  }

  function Or(x: nat, y: nat): nat {
    if x == 0 then y
    else if y == 0 then x
    else 2 * Or(x / 2, y / 2) + (if x % 2 == 1 || y % 2 == 1 then 1 else 0)
  }

  function Xor(x: nat, y: nat): nat {
    if x == 0 then y
    else if y == 0 then x
    else 2 * Xor(x / 2, y / 2) + (if x % 2 != y % 2 then 1 else 0)
  }

  /** `~x` on an unsigned 64-bit value. */
  function Not64(x: u64): u64 {
    0xFFFF_FFFF_FFFF_FFFF - x
  }

  /** `x << k` on an unsigned 64-bit value. */
  function Shl64(x: nat, k: nat): u64 {
    x * Pow2(k) % 0x1_0000_0000_0000_0000
  }

  /** `x << k` on an unsigned 32-bit value. */
  function Shl32(x: nat, k: nat): u32 {
    x * Pow2(k) % 0x1_0000_0000
  }

  /** `x >> k` on an unsigned value of either width. */
  function Shr(x: nat, k: nat): (r: nat)
    ensures r <= x
  {
    if k == 0 then x else Shr(x / 2, k - 1)
  }

  /** The `k` lowest bits of `x`, which is `x % Pow2(k)`. */
  function Low(x: nat, k: nat): (r: nat)
    ensures r < Pow2(k)
  {
    if k == 0 then 0 else 2 * Low(x / 2, k - 1) + x % 2
  }

  function Wrap64(x: int): u64 {
    x % 0x1_0000_0000_0000_0000
  }

  function Wrap32(x: int): u32 {
    x % 0x1_0000_0000
  }

  function Abs(x: int): nat { if x < 0 then -x else x }

  /** `(1ull << k) - 1` on an unsigned 64-bit value. */
  function Ones64(k: nat): u64 {
    Wrap64(Shl64(1, k) - 1)
  }

  // ----- powers of two

  lemma {:induction false} Pow2Add(a: nat, b: nat)
    ensures Pow2(a + b) == Pow2(a) * Pow2(b)
  {
    if a > 0 {
      Pow2Add(a - 1, b);
      Doubled(Pow2(a - 1), Pow2(b));
    }
  }

  lemma Doubled(x: nat, y: nat)
    ensures 2 * (x * y) == (2 * x) * y
  {
  }

  lemma {:induction false} Pow2Monotone(a: nat, b: nat)
    requires a <= b
    ensures Pow2(a) <= Pow2(b)
    ensures a < b ==> 2 * Pow2(a) <= Pow2(b)
    decreases b
  {
    if a < b {
      Pow2Monotone(a, b - 1);
    }
  }

  lemma Pow2Values()
    ensures Pow2(0) == 1 && Pow2(1) == 2 && Pow2(2) == 4 && Pow2(6) == 64
    ensures Pow2(8) == 256 && Pow2(11) == 0x800 && Pow2(20) == 0x100000 && Pow2(21) == 0x200000
    ensures Pow2(22) == 0x400000 && Pow2(23) == 0x800000 && Pow2(24) == 0x1000000
    ensures Pow2(28) == 0x1000_0000 && Pow2(29) == 0x2000_0000
    ensures Pow2(31) == 0x8000_0000 && Pow2(32) == 0x1_0000_0000
    ensures Pow2(51) == 0x8_0000_0000_0000 && Pow2(52) == 0x10_0000_0000_0000
    ensures Pow2(53) == 0x20_0000_0000_0000 && Pow2(54) == 0x40_0000_0000_0000
    ensures Pow2(63) == 0x8000_0000_0000_0000 && Pow2(64) == 0x1_0000_0000_0000_0000
  {
    Pow2SmallValues();
    Pow2Add(20, 31);
    assert Pow2(52) == 2 * Pow2(51);
    assert Pow2(54) == 2 * Pow2(53);
    Pow2Add(32, 31);
    assert Pow2(64) == 2 * Pow2(63);
  }

  lemma Pow2SmallValues()
    ensures Pow2(0) == 1 && Pow2(1) == 2 && Pow2(2) == 4 && Pow2(6) == 64
    ensures Pow2(8) == 256 && Pow2(11) == 0x800 && Pow2(20) == 0x100000 && Pow2(21) == 0x200000
    ensures Pow2(22) == 0x400000 && Pow2(23) == 0x800000 && Pow2(24) == 0x1000000
    ensures Pow2(28) == 0x1000_0000 && Pow2(29) == 0x2000_0000
    ensures Pow2(31) == 0x8000_0000 && Pow2(32) == 0x1_0000_0000
  {
    assert Pow2(4) == 4 * Pow2(2);
    assert Pow2(6) == 4 * Pow2(4);
    assert Pow2(8) == 4 * Pow2(6);
    assert Pow2(10) == 4 * Pow2(8);
    Pow2Add(10, 10);
    assert Pow2(22) == 4 * Pow2(20);
    assert Pow2(24) == 4 * Pow2(22);
    Pow2Add(20, 8);
    Pow2Add(20, 11);
  }

  // ----- shifts and the arithmetic they stand for

  lemma MulLe(x: int, y: int, d: int)
    ensures d >= 0 && x <= y ==> x * d <= y * d
  {
    assert d >= 0 && x <= y ==> (y - x) * d >= 0;
  }

  lemma MulFacts(x: int, d: int)
    ensures (x + 1) * d == x * d + d
    ensures x * (2 * d) == 2 * (x * d)
  {
  }

  lemma {:induction false} ShrSplit(x: nat, k: nat)
    ensures x == Shr(x, k) * Pow2(k) + Low(x, k)
    ensures Shr(x, k) * Pow2(k) <= x < (Shr(x, k) + 1) * Pow2(k)
  {
    if k > 0 {
      ShrSplit(x / 2, k - 1);
      MulFacts(Shr(x, k), Pow2(k - 1));
    }
    MulFacts(Shr(x, k), Pow2(k));
  }

  lemma ShrUnique(x: nat, k: nat, q: nat)
    requires q * Pow2(k) <= x < (q + 1) * Pow2(k)
    ensures Shr(x, k) == q && Low(x, k) == x - q * Pow2(k)
  {
    ShrSplit(x, k);
    MulLe(Shr(x, k) + 1, q, Pow2(k));
    MulLe(q + 1, Shr(x, k), Pow2(k));
  }

  lemma ShrOfSum(q: nat, low: nat, k: nat)
    requires low < Pow2(k)
    ensures Shr(q * Pow2(k) + low, k) == q && Low(q * Pow2(k) + low, k) == low
  {
    assert (q + 1) * Pow2(k) == q * Pow2(k) + Pow2(k);
    ShrUnique(q * Pow2(k) + low, k, q);
  }

  lemma ShrLess(x: nat, k: nat, bound: nat)
    ensures x < bound * Pow2(k) <==> Shr(x, k) < bound
  {
    ShrSplit(x, k);
    MulLe(bound, Shr(x, k), Pow2(k));
    MulLe(Shr(x, k) + 1, bound, Pow2(k));
  }

  lemma {:induction false} ShrShr(x: nat, a: nat, b: nat)
    ensures Shr(Shr(x, a), b) == Shr(x, a + b)
  {
    if a > 0 {
      ShrShr(x / 2, a - 1, b);
    }
  }

  lemma {:induction false} ShrIsDivision(x: nat, k: nat)
    ensures Shr(x, k) == x / Pow2(k) && Low(x, k) == x % Pow2(k)
  {
    ShrSplit(x, k);
    DivUnique(x, Pow2(k), Shr(x, k));
  }

  lemma DivUnique(x: int, d: int, q: int)
    requires d > 0 && q * d <= x < (q + 1) * d
    ensures x / d == q && x % d == x - q * d
  {
    MulLe(x / d + 1, q, d);
    MulLe(q + 1, x / d, d);
  }

  lemma ShlExact(x: nat, k: nat)
    requires x * Pow2(k) < 0x1_0000_0000_0000_0000
    ensures Shl64(x, k) == x * Pow2(k)
  {
  }

  // ----- masks, fields and disjoint unions

  lemma {:induction false} AndZero(x: nat)
    ensures And(x, 0) == 0 && And(0, x) == 0
  {
  }

  /** One step of the recursion of `And`, with the lowest digit of the second operand in view. */
  lemma {:induction false} AndDouble(x: nat, m: nat, b: nat)
    requires b <= 1
    ensures And(x, 2 * m + b) == 2 * And(x / 2, m) + (if b == 1 then x % 2 else 0)
  {
    var y := 2 * m + b;
    assert y / 2 == m && y % 2 == b;
    AndZero(x / 2);
    AndZero(m);
    if x == 0 || y == 0 {
      assert And(x, y) == 0;
    } else {
      assert And(x, y) == 2 * And(x / 2, y / 2) + (if x % 2 == 1 && y % 2 == 1 then 1 else 0);
    }
  }

  /** `x & ((1 << k) - 1)` keeps the `k` lowest bits. */
  lemma {:induction false} AndMask(x: nat, k: nat)
    ensures And(x, Pow2(k) - 1) == Low(x, k)
  {
    if k == 0 {
      AndZero(x);
    } else {
      AndDouble(x, Pow2(k - 1) - 1, 1);
      AndMask(x / 2, k - 1);
    }
  }

  /** `x & (((1 << k) - 1) << j)` is the `k`-bit field at bit `j`. */
  lemma {:induction false} AndField(x: nat, mask: nat, j: nat, k: nat)
    requires mask == (Pow2(k) - 1) * Pow2(j)
    ensures And(x, mask) == Low(Shr(x, j), k) * Pow2(j)
  {
    if j == 0 {
      AndMask(x, k);
    } else {
      var p, y := Pow2(j - 1), Pow2(k) - 1;
      var half := y * p;
      MulFacts(y, p);
      AndDouble(x, half, 0);
      AndField(x / 2, half, j - 1, k);
      MulFacts(Low(Shr(x, j), k), p);
    }
  }

  lemma AndBit(x: nat, j: nat)
    ensures And(x, Pow2(j)) == Shr(x, j) % 2 * Pow2(j)
    ensures And(x, Pow2(j)) == 0 <==> Shr(x, j) % 2 == 0
  {
    assert Low(Shr(x, j), 1) == Shr(x, j) % 2;
    AndField(x, Pow2(j), j, 1);
  }

  lemma AndOne(x: nat)
    ensures And(x, 1) == x % 2
  {
    AndMask(x, 1);
  }

  /** A disjoint `|` is a sum. */
  lemma {:induction false} OrDisjoint(hi: nat, lo: nat, k: nat)
    requires lo < Pow2(k) && Low(hi, k) == 0
    ensures Or(hi, lo) == hi + lo
    ensures Or(lo, hi) == hi + lo
  {
    if k > 0 && hi > 0 && lo > 0 {
      OrDisjoint(hi / 2, lo / 2, k - 1);
    }
  }

  /** Setting bit `k`. */
  lemma {:induction false} OrBit(x: nat, k: nat)
    ensures Or(x, Pow2(k)) == if Shr(x, k) % 2 == 1 then x else x + Pow2(k)
  {
    if k == 0 {
      OrDouble(x, 0, 1);
      OrDouble(x / 2, 0, 0);
    } else {
      OrDouble(x, Pow2(k - 1), 0);
      OrBit(x / 2, k - 1);
    }
  }

  lemma {:induction false} OrDouble(x: nat, m: nat, b: nat)
    requires b <= 1
    ensures Or(x, 2 * m + b) == 2 * Or(x / 2, m) + (if x % 2 == 1 || b == 1 then 1 else 0)
    ensures Or(x, 0) == x && Or(0, x) == x
  {
    var y := 2 * m + b;
    assert y / 2 == m && y % 2 == b;
    assert Or(x / 2, 0) == x / 2 && Or(0, m) == m;
    if x > 0 && y > 0 {
      assert Or(x, y) == 2 * Or(x / 2, y / 2) + (if x % 2 == 1 || y % 2 == 1 then 1 else 0);
    }
  }

  lemma OrShifted(q: nat, lo: nat, k: nat)
    requires lo < Pow2(k)
    ensures Or(q * Pow2(k), lo) == q * Pow2(k) + lo
    ensures Or(lo, q * Pow2(k)) == q * Pow2(k) + lo
  {
    ShrOfSum(q, 0, k);
    OrDisjoint(q * Pow2(k), lo, k);
  }

  lemma {:induction false} XorDouble(x: nat, m: nat, b: nat)
    requires b <= 1
    ensures Xor(x, 2 * m + b) == 2 * Xor(x / 2, m) + (if x % 2 != b then 1 else 0)
    ensures Xor(x, 0) == x && Xor(0, x) == x
  {
    var y := 2 * m + b;
    assert y / 2 == m && y % 2 == b;
    assert Xor(x / 2, 0) == x / 2 && Xor(0, m) == m;
    if x > 0 && y > 0 {
      assert Xor(x, y) == 2 * Xor(x / 2, y / 2) + (if x % 2 != y % 2 then 1 else 0);
    }
  }

  /** Flipping bit `k`. */
  lemma {:induction false} XorBit(x: nat, k: nat)
    ensures Xor(x, Pow2(k)) == if Shr(x, k) % 2 == 0 then x + Pow2(k) else x - Pow2(k)
    ensures Shr(x, k) % 2 == 1 ==> x >= Pow2(k)
  {
    if k == 0 {
      XorDouble(x, 0, 1);
      XorDouble(x / 2, 0, 0);
    } else {
      XorDouble(x, Pow2(k - 1), 0);
      XorBit(x / 2, k - 1);
    }
  }
}
