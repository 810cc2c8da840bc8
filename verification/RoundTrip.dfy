/**
 Printing an integer and scanning the text again gives the integer back
 (lib/libc_stdio.c:192-229, 289-307, 323-366, 459-489).
 */
module RoundTrip {
  import opened Bits
  import opened DivMod
  import opened Format
  import opened Maybe
  import opened Scan
  import Stdio

  // ----- the shape of a printed number

  /** Spaces, a sign, a prefix, zeros, a numeral, spaces. */
  function Shape(n: nat, sign: string, prefix: string, z: nat, digits: string, m: nat): string {
    Repeat(' ', n) + sign + prefix + Repeat('0', z) + digits + Repeat(' ', m)
  }

  function DigitsOf(v: nat, base: nat, upper: bool, spec: Spec): string
    requires IsBase(base)
  {
    if spec.precision == 0 && v == 0 then "" else Numeral(v, base, upper)
  }

  lemma FieldShape(v: nat, base: nat, upper: bool, sign: string, prefix: string, spec: Spec)
    returns (n: nat, z: nat, m: nat)
    requires IsBase(base)
    ensures Field(v, base, upper, sign, prefix, spec) == Shape(n, sign, prefix, z, DigitsOf(v, base, upper, spec), m)
    ensures DigitsOf(v, base, upper, spec) == "" ==> z == 0
  {
    hide Numeral, Repeat, Field;
    var digits := DigitsOf(v, base, upper, spec);
    var zeros := if spec.precision > |digits| then spec.precision - |digits| else 0;
    var total := |sign| + |prefix| + zeros + |digits|;
    var pad := if spec.width > total then spec.width - total else 0;
    Stdio.FieldParts(v, base, upper, sign, prefix, spec, |digits|, zeros, pad);
    NoRepeat();
    if spec.zero && !spec.left && spec.precision < 0 {
      n, z, m := 0, pad + zeros, 0;
      RepeatSum(pad, zeros);
    } else if spec.left {
      n, z, m := 0, zeros, pad;
    } else {
      n, z, m := pad, zeros, 0;
    }
    Regroup(Repeat(' ', n), sign, prefix, Repeat('0', pad), Repeat('0', zeros), digits, Repeat(' ', m));
  }

  lemma NoRepeat()
    ensures Repeat(' ', 0) == ""
  {
  }

  lemma RepeatSum(a: nat, b: nat)
    ensures Repeat('0', a + b) == Repeat('0', a) + Repeat('0', b)
  {
  }

  lemma Regroup(a: string, b: string, c: string, d: string, e: string, f: string, g: string)
    ensures "" + b == b
    ensures a == "" && g == "" ==> a + b + c + (d + e) + f + g == b + c + d + e + f
    ensures g == "" ==> a + b + c + e + f + g == a + b + c + e + f
    ensures a == "" ==> a + b + c + e + f + g == b + c + e + f + g
  {
  }

  // ----- scanning over the parts

  /** `part` stands at `p` in `s`. */
  predicate Stands(s: string, p: nat, part: string) {
    p + |part| <= |s| && s[p..p + |part|] == part
  }

  lemma StandsAt(s: string, p: nat, part: string, i: nat)
    requires Stands(s, p, part) && i < |part|
    ensures p + i < |s| && s[p + i] == part[i]
  {
    assert s[p..p + |part|][i] == s[p + i];
  }

  lemma StandsParts(s: string, p: nat, left: string, right: string)
    requires Stands(s, p, left + right)
    ensures Stands(s, p, left) && Stands(s, p + |left|, right)
  {
    var both := s[p..p + |left| + |right|];
    assert both == left + right;
    assert both[..|left|] == left && both[|left|..] == right;
    assert s[p..p + |left|] == both[..|left|] && s[p + |left|..p + |left| + |right|] == both[|left|..];
  }

  lemma {:induction false} SpacesSkipped(s: string, p: nat, n: nat)
    requires Stands(s, p, Repeat(' ', n))
    ensures p + n <= |s| && SkipSpaces(s, p) == SkipSpaces(s, p + n)
    decreases n
  {
    if n > 0 {
      StandsAt(s, p, Repeat(' ', n), 0);
      assert Repeat(' ', n) == " " + Repeat(' ', n - 1);
      StandsParts(s, p, " ", Repeat(' ', n - 1));
      SpacesSkipped(s, p + 1, n - 1);
    }
  }

  lemma {:induction false} ZerosScanned(s: string, p: nat, base: nat, z: nat, consumed: nat)
    requires IsBase(base) && Stands(s, p, Repeat('0', z))
    ensures p + z <= |s| && DigitsAt(s, p, base, 0, consumed, 0) == DigitsAt(s, p + z, base, 0, consumed + z, 0)
    decreases z
  {
    if z > 0 {
      StandsAt(s, p, Repeat('0', z), 0);
      assert Repeat('0', z) == "0" + Repeat('0', z - 1);
      StandsParts(s, p, "0", Repeat('0', z - 1));
      ZerosScanned(s, p + 1, base, z - 1, consumed + 1);
    }
  }

  lemma DigitRead(d: nat, upper: bool)
    requires d < 16
    ensures DigitValue(Digit(d, upper)) == d && !IsSpace(Digit(d, upper))
    ensures Digit(d, upper) !in {'+', '-', 'x', 'X', '\0'} && (Digit(d, upper) == '0' <==> d == 0)
  {
  }

  lemma DivisionParts(v: nat, base: nat)
    requires IsBase(base)
    ensures 0 <= v / base && 0 <= v % base < base && v == v / base * base + v % base
    ensures if v < base then v % base == v else v / base < v
  {
    if base == 8 {
    } else if base == 10 {
    } else {
    }
  }

  lemma NumeralParts(v: nat, base: nat, upper: bool)
    requires IsBase(base)
    ensures 0 <= v / base && 0 <= v % base < base <= 16 && v == v / base * base + v % base
    ensures if v < base then v % base == v && Numeral(v, base, upper) == [Digit(v, upper)]
            else v / base < v && Numeral(v, base, upper) == Numeral(v / base, base, upper) + [Digit(v % base, upper)]
  {
    hide Digit;
    DivisionParts(v, base);
  }

  lemma OneDigit(s: string, p: nat, base: nat, consumed: nat, value: u64, d: nat)
    requires p < |s| && DigitValue(s[p]) == d < base && value * base + d < 0x1_0000_0000_0000_0000
    ensures DigitsAt(s, p, base, 0, consumed, value) == DigitsAt(s, p + 1, base, 0, consumed + 1, value * base + d)
  {
    hide DigitValue, Wrap64;
    WrapExact(value * base + d);
  }

  lemma WrapExact(x: nat)
    ensures x < 0x1_0000_0000_0000_0000 ==> Wrap64(x) == x
  {
  }

  /** Scanning a numeral yields its value. */
  lemma {:induction false} NumeralScanned(s: string, p: nat, base: nat, upper: bool, v: u64, consumed: nat)
    requires IsBase(base) && Stands(s, p, Numeral(v, base, upper))
    ensures var q := p + |Numeral(v, base, upper)|;
            q <= |s| && DigitsAt(s, p, base, 0, consumed, 0)
                        == DigitsAt(s, q, base, 0, consumed + |Numeral(v, base, upper)|, v)
    decreases v
  {
    hide Numeral, Digit, DigitValue, Stands, IsBase, IsSpace, DigitsAt, Wrap64;
    NumeralParts(v, base, upper);
    var d: nat := v % base;
    DigitRead(d, upper);
    if v < base {
      StandsAt(s, p, Numeral(v, base, upper), 0);
      OneDigit(s, p, base, consumed, 0, d);
    } else {
      var high: u64 := v / base;
      var head := Numeral(high, base, upper);
      StandsParts(s, p, head, [Digit(d, upper)]);
      NumeralScanned(s, p, base, upper, high, consumed);
      StandsAt(s, p + |head|, [Digit(d, upper)], 0);
      OneDigit(s, p + |head|, base, consumed + |head|, high, d);
    }
  }

  /** Characters a digit scan takes, which are neither spaces, signs nor the mark of a prefix. */
  predicate AllDigits(s: string) {
    forall c <- s :: DigitValue(c) >= 0 && !IsSpace(c) && c !in {'+', '-', 'x', 'X', '\0'}
  }

  lemma {:induction false} NumeralDigits(v: nat, base: nat, upper: bool)
    requires IsBase(base)
    ensures AllDigits(Numeral(v, base, upper))
    decreases v
  {
    hide Numeral, Digit, DigitValue, IsSpace;
    NumeralParts(v, base, upper);
    DigitRead(v % base, upper);
    if v >= base {
      NumeralDigits(v / base, base, upper);
    }
  }

  lemma ZeroDigits(z: nat)
    ensures AllDigits(Repeat('0', z))
  {
  }

  // ----- reading a shape

  predicate IsPrefix(prefix: string, base: nat) {
    prefix == "" || (base == 16 && (prefix == "0x" || prefix == "0X"))
  }

  lemma StandsWhole(s: string)
    ensures Stands(s, 0, s)
  {
  }

  lemma ShapeParts(n: nat, sign: string, prefix: string, z: nat, digits: string, m: nat)
    ensures var s := Shape(n, sign, prefix, z, digits, m);
            var b := n + |sign|; var c := b + |prefix|; var d := c + z; var e := d + |digits|;
            && Stands(s, 0, Repeat(' ', n)) && Stands(s, n, sign) && Stands(s, b, prefix)
            && Stands(s, c, Repeat('0', z)) && Stands(s, d, digits) && Stands(s, e, Repeat(' ', m)) && |s| == e + m
  {
    hide Stands, Repeat;
    var s := Shape(n, sign, prefix, z, digits, m);
    StandsWhole(s);
    var a1 := Repeat(' ', n);
    var a2 := a1 + sign;
    var a3 := a2 + prefix;
    var a4 := a3 + Repeat('0', z);
    var a5 := a4 + digits;
    StandsParts(s, 0, a5, Repeat(' ', m));
    StandsParts(s, 0, a4, digits);
    StandsParts(s, 0, a3, Repeat('0', z));
    StandsParts(s, 0, a2, prefix);
    StandsParts(s, 0, a1, sign);
  }

  /** The scan ends where the digits end. */
  lemma ScanStops(s: string, e: nat, m: nat, base: nat, consumed: nat, value: u64)
    requires Stands(s, e, Repeat(' ', m)) && |s| == e + m
    ensures DigitsAt(s, e, base, 0, consumed, value) == Digits(value, e, consumed)
    ensures SkipSpaces(s, e) == |s|
  {
    SpacesSkipped(s, e, m);
    if m > 0 {
      StandsAt(s, e, Repeat(' ', m), 0);
    }
  }

  /** A part of digits: what stands at its first two places. */
  lemma DigitsLead(s: string, p: nat, part: string)
    requires Stands(s, p, part) && AllDigits(part) && part != ""
    ensures p < |s| && !IsSpace(s[p]) && s[p] != '+' && s[p] != '-'
    ensures |part| > 1 ==> At(s, p + 1) != 'x' && At(s, p + 1) != 'X'
  {
    StandsAt(s, p, part, 0);
    if |part| > 1 {
      StandsAt(s, p, part, 1);
      assert part[1] in part && At(s, p + 1) == part[1];
    }
  }

  lemma ZerosBefore(s: string, p: nat, z: nat, digits: string)
    requires Stands(s, p, Repeat('0', z)) && Stands(s, p + z, digits)
    ensures Stands(s, p, Repeat('0', z) + digits)
  {
  }

  /** Where neither a space nor a sign stands, the digits begin, behind the prefix if there is one. */
  lemma UnsignedFrom(s: string, p: nat, base: nat)
    requires p <= |s| && base != 0 && !IsSpace(At(s, p)) && At(s, p) != '+'
    ensures var p3 := if base == 16 && IsHexMark(s, p) then p + 2 else p;
            && p3 <= |s|
            && var d := DigitsAt(s, p3, base, 0, 0, 0);
            UnsignedAt(s, p, 0, base) == if d.consumed == 0 then None else Some((d.value, d.next))
  {
    hide DigitsAt, IsSpace;
  }

  lemma NumberStart(s: string, q: nat, prefix: string, z: nat, v: u64, base: nat, upper: bool, m: nat)
    requires IsBase(base) && IsPrefix(prefix, base)
    requires var c := q + |prefix|; var d := c + z; var e := d + |Numeral(v, base, upper)|;
             && Stands(s, q, prefix) && Stands(s, c, Repeat('0', z)) && Stands(s, d, Numeral(v, base, upper))
             && Stands(s, e, Repeat(' ', m)) && |s| == e + m
    ensures q <= |s|
    ensures !IsSpace(At(s, q)) && At(s, q) != '+' && At(s, q) != '-'
  {
    hide Numeral, DigitValue, Stands, AllDigits, Repeat;
    var digits := Numeral(v, base, upper);
    var c := q + |prefix|;
    var number := Repeat('0', z) + digits;
    NumeralDigits(v, base, upper);
    ZeroDigits(z);
    AllDigitsJoin(Repeat('0', z), digits);
    ZerosBefore(s, c, z, digits);
    DigitsLead(s, c, number);
    if prefix != "" {
      StandsAt(s, q, prefix, 0);
      StandsAt(s, q, prefix, 1);
    }
  }

  /** Zeros and a numeral, with or without the prefix of base 16, are read as the value. */
  lemma NumberRead(s: string, q: nat, prefix: string, z: nat, v: u64, base: nat, upper: bool, m: nat)
    requires IsBase(base) && IsPrefix(prefix, base)
    requires var c := q + |prefix|; var d := c + z; var e := d + |Numeral(v, base, upper)|;
             && Stands(s, q, prefix) && Stands(s, c, Repeat('0', z)) && Stands(s, d, Numeral(v, base, upper))
             && Stands(s, e, Repeat(' ', m)) && |s| == e + m
    ensures q <= |s|
    ensures UnsignedAt(s, q, 0, base) == Some((v, |s| - m))
    ensures !IsSpace(At(s, q)) && At(s, q) != '+' && At(s, q) != '-'
  {
    hide Numeral, DigitsAt, DigitValue, Stands, AllDigits, Repeat, IsSpace, UnsignedAt;
    NumberStart(s, q, prefix, z, v, base, upper, m);
    UnsignedFrom(s, q, base);
    var digits := Numeral(v, base, upper);
    var c := q + |prefix|;
    var number := Repeat('0', z) + digits;
    NumeralDigits(v, base, upper);
    ZeroDigits(z);
    AllDigitsJoin(Repeat('0', z), digits);
    ZerosBefore(s, c, z, digits);
    DigitsLead(s, c, number);
    AfterNumber(s, c, number, m);
    ZerosScanned(s, c, base, z, 0);
    NumeralScanned(s, c + z, base, upper, v, z);
    ScanStops(s, c + |number|, m, base, z + |digits|, v);
    if prefix != "" {
      StandsAt(s, q, prefix, 0);
      StandsAt(s, q, prefix, 1);
    }
  }

  lemma AllDigitsJoin(a: string, b: string)
    requires AllDigits(a) && AllDigits(b)
    ensures AllDigits(a + b)
  {
  }

  /** After a single digit comes a space or the end. */
  lemma AfterNumber(s: string, p: nat, part: string, m: nat)
    requires Stands(s, p, part) && Stands(s, p + |part|, Repeat(' ', m)) && |s| == p + |part| + m
    ensures |part| == 1 ==> At(s, p + 1) != 'x' && At(s, p + 1) != 'X'
  {
    if m > 0 {
      StandsAt(s, p + |part|, Repeat(' ', m), 0);
    }
  }

  /** Nothing is read where there are only spaces. */
  lemma NothingRead(s: string, q: nat, base: nat, m: nat)
    requires IsBase(base) && Stands(s, q, Repeat(' ', m)) && |s| == q + m
    ensures UnsignedAt(s, q, 0, base) == None && At(s, q) != '+' && At(s, q) != '-'
  {
    ScanStops(s, q, m, base, 0, 0);
    AtTheEnd(s);
    ScanStops(s, |s|, 0, base, 0, 0);
    if m > 0 {
      StandsAt(s, q, Repeat(' ', m), 0);
    }
  }

  // ----- unsigned conversions

  /** The octal prefix is one more zero. */
  lemma OctalPrefix(n: nat, z: nat, digits: string, m: nat)
    ensures Shape(n, "", "0", z, digits, m) == Shape(n, "", "", z + 1, digits, m)
  {
    assert Repeat('0', z + 1) == "0" + Repeat('0', z);
  }

  lemma UnsignedBack(v: u64, c: char, spec: Spec)
    requires IsUnsigned(c)
    ensures var text := Field(v, BaseOf(c), c == 'X', "", PrefixOf(v, c, spec), spec);
            if spec.precision == 0 && v == 0 then IntegerAt(text, 0, c, 0) == None
            else exists next :: IntegerAt(text, 0, c, 0) == Some((v, next))
  {
    hide Field, Numeral, UnsignedAt, Repeat, Shape, Stands, SkipSpaces;
    var base, upper, prefix := BaseOf(c), c == 'X', PrefixOf(v, c, spec);
    var n, z, m := FieldShape(v, base, upper, "", prefix, spec);
    if prefix == "0" {
      OctalPrefix(n, z, DigitsOf(v, base, upper, spec), m);
      prefix, z := "", z + 1;
    }
    var digits := DigitsOf(v, base, upper, spec);
    var s := Shape(n, "", prefix, z, digits, m);
    ShapeParts(n, "", prefix, z, digits, m);
    SpacesSkipped(s, 0, n);
    if digits == "" {
      SpacesOnly(s, n, m);
      AtTheEnd(s);
      NothingRead(s, |s|, base, 0);
    } else {
      NumberRead(s, n, prefix, z, v, base, upper, m);
      NoSpacesHere(s, n);
    }
  }

  lemma AtTheEnd(s: string)
    ensures Stands(s, |s|, Repeat(' ', 0))
  {
  }

  lemma SpacesOnly(s: string, p: nat, m: nat)
    requires Stands(s, p, Repeat(' ', m)) && |s| == p + m
    ensures SkipSpaces(s, p) == |s|
  {
    SpacesSkipped(s, p, m);
  }

  lemma NoSpacesHere(s: string, p: nat)
    requires p <= |s| && !IsSpace(At(s, p))
    ensures SkipSpaces(s, p) == p
  {
  }

  // ----- the signed conversion

  /** A blank for the sign is one more space. */
  lemma BlankSign(n: nat, z: nat, digits: string, m: nat)
    ensures Shape(n, " ", "", z, digits, m) == Shape(n + 1, "", "", z, digits, m)
  {
    assert Repeat(' ', n + 1) == Repeat(' ', n) + " ";
  }

  /** Negating the scanned magnitude in 64 bits gives back every negative value, the least one included. */
  lemma NegatedBack(v: i64)
    ensures v < 0 ==> ToSigned(Wrap64(NegSigned(Abs(v)))) == v
    ensures v >= 0 ==> ToSigned(Abs(v)) == v
  {
    hide Wrap64, NegSigned;
    if v < 0 {
      var u: u64 := Abs(v);
      SignedResult(u);
      WrapNegative(u);
      var w: u64 := Wrap64(0 - u);
      SignedTwice(w);
    }
  }

  lemma SignedTwice(w: u64)
    ensures ToSigned(Wrap64(ToSigned(w))) == ToSigned(w)
  {
    if w >= 0x8000_0000_0000_0000 {
      var n: u64 := 0x1_0000_0000_0000_0000 - w;
      hide Wrap64;
      WrapNegative(n);
    } else {
      hide Wrap64;
      WrapNegative(w);
    }
  }

  lemma SignedBack(v: i64, spec: Spec)
    ensures var text := Field(Abs(v), 10, false, SignOf(v, spec), "", spec);
            if spec.precision == 0 && v == 0 then IntegerAt(text, 0, 'd', 0) == None
            else exists u: u64, next :: IntegerAt(text, 0, 'd', 0) == Some((u, next)) && ToSigned(u) == v
  {
    hide Field, Numeral, UnsignedAt, Repeat, Shape, Stands, SkipSpaces, ToSigned, NegSigned, Wrap64, DigitsAt,
         DigitValue;
    var sign, size := SignOf(v, spec), Abs(v);
    var n, z, m := FieldShape(size, 10, false, sign, "", spec);
    var digits := DigitsOf(size, 10, false, spec);
    if sign == " " {
      BlankSign(n, z, digits, m);
      sign, n := "", n + 1;
    }
    var s := Shape(n, sign, "", z, digits, m);
    ShapeParts(n, sign, "", z, digits, m);
    SpacesSkipped(s, 0, n);
    NegatedBack(v);
    var q := n + |sign|;
    if sign != "" {
      StandsAt(s, n, sign, 0);
      NoSpacesHere(s, n);
    }
    if digits == "" {
      NothingRead(s, q, 10, m);
      if sign == "" {
        SpacesOnly(s, n, m);
        AtTheEnd(s);
        NothingRead(s, |s|, 10, 0);
      }
    } else {
      NumberRead(s, q, "", z, size, 10, false, m);
      NoSpacesHere(s, q);
    }
  }

  // ----- both, for every length modifier

  predicate ScansBack(c: char) { c == 'd' || IsUnsigned(c) }

  lemma StoredBack(v: i64, u: u64, length: int)
    requires ToSigned(u) == v && (length != 2 ==> -0x8000_0000 <= v < 0x8000_0000)
    ensures AsSigned(u, length) == v
  {
  }

  lemma UnsignedStored(args: VaList, k: nat, length: int)
    ensures AsUnsigned(UnsignedArg(args, k, length), length) == UnsignedArg(args, k, length)
  {
  }

  /**
   Printed with any flags, width and precision, an integer is read back by the same conversion,
   except for a zero with precision zero, which prints no digit.
   */
  lemma PrintThenScan(c: char, spec: Spec, args: VaList, k: nat)
    requires ScansBack(c)
    ensures var back := IntegerAt(Converted(c, spec, args, k).0, 0, c, 0);
            if c == 'd' then
              && (back.Some? <==> !(spec.precision == 0 && SignedArg(args, k, spec.length) == 0))
              && (back.Some? ==> AsSigned(back.value.0, spec.length) == SignedArg(args, k, spec.length))
            else
              && (back.Some? <==> !(spec.precision == 0 && UnsignedArg(args, k, spec.length) == 0))
              && (back.Some? ==> AsUnsigned(back.value.0, spec.length) == UnsignedArg(args, k, spec.length))
  {
    hide Field, IntegerAt, SignOf, PrefixOf, AsSigned, AsUnsigned, UnsignedArg, ToSigned;
    if c == 'd' {
      var v := SignedArg(args, k, spec.length);
      SignedBack(v, spec);
      var text := Field(Abs(v), 10, false, SignOf(v, spec), "", spec);
      if u: u64, next :| IntegerAt(text, 0, 'd', 0) == Some((u, next)) && ToSigned(u) == v {
        StoredBack(v, u, spec.length);
      }
    } else {
      UnsignedBack(UnsignedArg(args, k, spec.length), c, spec);
      UnsignedStored(args, k, spec.length);
    }
  }

  // ----- through the printer and the scanner

  /** The format is one directive whose conversion reads back what it prints. */
  predicate OneDirective(fmt: string, args: VaList) {
    && IsCString(fmt) && fmt != "" && fmt[0] == '%'
    && var r := DirectiveAt(fmt, 1, args, 0); r.i == |fmt| - 1 && ScansBack(fmt[r.i])
  }

  /** The integer such a format prints. */
  function Argument(fmt: string, args: VaList): int
    requires OneDirective(fmt, args)
  {
    var r := DirectiveAt(fmt, 1, args, 0);
    if fmt[r.i] == 'd' then SignedArg(args, r.k, r.spec.length) else UnsignedArg(args, r.k, r.spec.length)
  }

  lemma OneRendered(fmt: string, args: VaList)
    requires OneDirective(fmt, args)
    ensures var r := DirectiveAt(fmt, 1, args, 0); Render(fmt, 0, args, 0) == Converted(fmt[r.i], r.spec, args, r.k).0
  {
    hide DirectiveAt, Converted;
    var r := DirectiveAt(fmt, 1, args, 0);
    var (text, taken) := Converted(fmt[r.i], r.spec, args, r.k);
    assert Render(fmt, |fmt|, args, r.k + taken) == "";
    assert text + "" == text;
  }

  /** Printing an integer into a buffer and scanning that buffer with the same directive stores the integer again. */
  method PrintAndScan(fmt: string, args: VaList) returns (stored: Option<int>)
    requires OneDirective(fmt, args)
    ensures var r := DirectiveAt(fmt, 1, args, 0);
            stored == if r.spec.precision == 0 && Argument(fmt, args) == 0 then None else Some(Argument(fmt, args))
  {
    hide Render, Converted, IntegerAt, AsSigned, AsUnsigned, SignedArg, UnsignedArg, DirectiveAt;
    var n, buf := Stdio.Vasprintf(fmt, args, true);
    var text := buf[..n];
    OneRendered(fmt, args);
    assert text == Render(fmt, 0, args, 0);
    var r := Stdio.ReadDirective(fmt, 1, args, 0);
    var c := fmt[r.i];
    PrintThenScan(c, r.spec, args, r.k);
    var back := ScanInteger(text, 0, c, 0);
    match back
    case None => stored := None;
    case Some((u, _)) =>
      var value: int := if c == 'd' then AsSigned(u, r.spec.length) else AsUnsigned(u, r.spec.length);
      stored := Some(value);
  }
}
