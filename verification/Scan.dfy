/**
 Reading integers back from text, and the round trip with the printf conversions
 (lib/libc_stdio.c:323-366, 459-489).
 */
module Scan {
  import opened Bits
  import opened DivMod
  import opened Format
  import opened Maybe

  predicate IsSpace(c: char) {
    c == ' ' || c == '\t' || c == '\n' || c == '\r' || c == '\U{0C}' || c == '\U{0B}'
  }

  function DigitValue(c: char): int {
    if '0' <= c <= '9' then c as int - '0' as int
    else if 'a' <= c <= 'f' then c as int - 'a' as int + 10
    else if 'A' <= c <= 'F' then c as int - 'A' as int + 10
    else -1
  }

  function SkipSpaces(s: string, p: nat): (r: nat)
    requires p <= |s|
    ensures p <= r <= |s|
    decreases |s| - p
  {
    if p < |s| && IsSpace(s[p]) then SkipSpaces(s, p + 1) else p
  }

  datatype Digits = Digits(value: u64, next: nat, consumed: nat)

  /** Digits from `p` on, at most `width` of them unless that is 0, with the value so far in 64 bits. */
  function DigitsAt(s: string, p: nat, base: nat, width: int, consumed: nat, value: u64): (r: Digits)
    requires p <= |s|
    ensures p <= r.next <= |s|
    decreases |s| - p
  {
    if p < |s| && (width == 0 || consumed < width) && 0 <= DigitValue(s[p]) < base then
      DigitsAt(s, p + 1, base, width, consumed + 1, Wrap64(value * base + DigitValue(s[p])))
    else Digits(value, p, consumed)
  }

  predicate IsHexMark(s: string, p: nat) {
    At(s, p) == '0' && (At(s, p + 1) == 'x' || At(s, p + 1) == 'X')
  }

  /** An unsigned number: the value and where it ends; nothing without a digit. */
  function UnsignedAt(s: string, p: nat, width: int, base0: nat): Option<(u64, nat)>
    requires p <= |s|
  {
    var p1 := SkipSpaces(s, p);
    var p2 := if At(s, p1) == '+' then p1 + 1 else p1;
    var base := if base0 != 0 then base0 else if At(s, p2) != '0' then 10 else if IsHexMark(s, p2) then 16 else 8;
    var p3 := if base == 16 && IsHexMark(s, p2) then p2 + 2 else p2;
    var d := DigitsAt(s, p3, base, width, 0, 0);
    if d.consumed == 0 then None else Some((d.value, d.next))
  }

  function ScanBase(c: char): nat {
    if c == 'o' then 8 else if c == 'x' || c == 'X' || c == 'p' then 16 else if c == 'i' then 0 else 10
  }

  /** One integer conversion: the 64-bit value before it is stored. */
  function IntegerAt(s: string, p: nat, c: char, width: int): Option<(u64, nat)>
    requires p <= |s|
  {
    var p1 := SkipSpaces(s, p);
    var signed := (c == 'd' || c == 'i') && (At(s, p1) == '-' || At(s, p1) == '+');
    match UnsignedAt(s, if signed then p1 + 1 else p1, width, ScanBase(c))
    case None => None
    case Some((v, next)) => Some((if signed && At(s, p1) == '-' then Wrap64(NegSigned(v)) else v, next))
  }

  /** What is stored for the length modifier. */
  function AsSigned(v: u64, length: int): i64 {
    if length == 2 then ToSigned(v)
    else
      var low := Wrap32(v);
      if low < 0x8000_0000 then low else low - 0x1_0000_0000
  }

  function AsUnsigned(v: u64, length: int): u64 {
    if length == 2 then v else Wrap32(v)
  }

  // ----- the loops

  method ScanUnsigned(s: string, p0: nat, width: int, base0: nat) returns (r: Option<(u64, nat)>)
    requires p0 <= |s|
    ensures r == UnsignedAt(s, p0, width, base0)
  {
    hide DigitsAt, IsSpace;
    var p, base := p0, base0;
    while p < |s| && IsSpace(s[p])
      invariant p0 <= p <= |s| && SkipSpaces(s, p) == SkipSpaces(s, p0)
    {
      p := p + 1;
    }
    if At(s, p) == '+' {
      p := p + 1;
    }
    if base == 0 {
      base := 10;
      if At(s, p) == '0' {
        base := 8;
        if At(s, p + 1) == 'x' || At(s, p + 1) == 'X' {
          base := 16;
          p := p + 2;
        }
      }
    } else if base == 16 && At(s, p) == '0' && (At(s, p + 1) == 'x' || At(s, p + 1) == 'X') {
      p := p + 2;
    }
    var d := ScanDigits(s, p, base, width);
    if d.consumed == 0 {
      return None;
    }
    return Some((d.value, d.next));
  }

  /** The accumulation, modulo 2^64. */
  method ScanDigits(s: string, start: nat, base: nat, width: int) returns (r: Digits)
    requires start <= |s|
    ensures r == DigitsAt(s, start, base, width, 0, 0)
  {
    hide DigitValue, Wrap64;
    var p, consumed, value: u64 := start, 0, 0;
    while p < |s| && (width == 0 || consumed < width)
      invariant start <= p <= |s| && consumed >= 0
      invariant DigitsAt(s, p, base, width, consumed, value) == DigitsAt(s, start, base, width, 0, 0)
    {
      var digit := DigitValue(s[p]);
      if digit < 0 || digit >= base {
        break;
      }
      value := Wrap64(value * base + digit);
      p := p + 1;
      consumed := consumed + 1;
    }
    return Digits(value, p, consumed);
  }

  method ScanInteger(s: string, p0: nat, c: char, width: int) returns (r: Option<(u64, nat)>)
    requires p0 <= |s|
    ensures r == IntegerAt(s, p0, c, width)
  {
    hide UnsignedAt, NegSigned, IsSpace;
    var base := if c == 'o' then 8 else if c == 'x' || c == 'X' || c == 'p' then 16 else if c == 'i' then 0 else 10;
    var p := p0;
    while p < |s| && IsSpace(s[p])
      invariant p0 <= p <= |s| && SkipSpaces(s, p) == SkipSpaces(s, p0)
    {
      p := p + 1;
    }
    var negative := false;
    if (c == 'd' || c == 'i') && (At(s, p) == '-' || At(s, p) == '+') {
      negative := At(s, p) == '-';
      p := p + 1;
    }
    var read := ScanUnsigned(s, p, width, base);
    if read.None? {
      return None;
    }
    var (value, next) := read.value;
    if negative {
      value := Wrap64(NegSigned(value));
    }
    return Some((value, next));
  }
}
