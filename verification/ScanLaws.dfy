/**
 What an integer conversion of the scanner reads, by value: blanks, a sign, the prefix of base 16, and as
 many digits as the field width lets through (lib/libc_stdio.c:323-366, 459-489).
 */
module ScanLaws {
  import opened Bits
  import opened DivMod
  import opened Format
  import opened Maybe
  import opened Scan
  import opened RoundTrip

  // ----- characters

  /** Space, tab, newline, vertical tab, form feed and carriage return. */
  predicate IsBlank(c: char) { c as int == 32 || 9 <= c as int <= 13 }

  lemma SixSpaces(c: char)
    ensures IsSpace(c) <==> IsBlank(c)
  {
  }

  predicate DigitIs(c: char, d: int) {
    0 <= d < 16 && (c == "0123456789abcdef"[d] || c == "0123456789ABCDEF"[d])
  }

  /** The value of a digit is its place among the digits, and no other character has one. */
  lemma DigitKnown(c: char, d: int)
    ensures DigitIs(c, d) <==> DigitValue(c) == d >= 0
  {
    if 0 <= d < 10 {
      LowDigit(d);
    } else if 10 <= d < 16 {
      HighDigit(d);
    }
  }

  lemma LowDigit(d: int)
    requires 0 <= d < 10
    ensures "0123456789abcdef"[d] as int == '0' as int + d && "0123456789ABCDEF"[d] as int == '0' as int + d
  {
  }

  lemma HighDigit(d: int)
    requires 10 <= d < 16
    ensures "0123456789abcdef"[d] as int == 'a' as int + d - 10 && "0123456789ABCDEF"[d] as int == 'A' as int + d - 10
  {
  }

  // ----- runs of digits

  predicate InBase(c: char, base: nat) { exists d | 0 <= d < base :: DigitIs(c, d) }

  lemma InBaseValue(c: char, base: nat)
    ensures InBase(c, base) <==> 0 <= DigitValue(c) < base
  {
    hide DigitIs, DigitValue;
    if InBase(c, base) {
      var d :| 0 <= d < base && DigitIs(c, d);
      DigitKnown(c, d);
    }
    DigitKnown(c, DigitValue(c));
  }

  predicate Digital(s: string, base: nat) {
    forall c <- s :: InBase(c, base)
  }

  /** The number that a string of digits writes. */
  function ValueOf(digits: string, base: nat): int {
    if digits == "" then 0 else ValueOf(digits[..|digits| - 1], base) * base + DigitValue(digits[|digits| - 1])
  }

  lemma WrapStep(v: int, base: nat, d: int)
    requires IsBase(base)
    ensures Wrap64(Wrap64(v) * base + d) == Wrap64(v * base + d)
  {
    if base == 8 {
    } else if base == 10 {
    } else {
    }
  }

  /** With a field width, the smaller of the width and the length of the run is taken. */
  lemma {:induction false} DigitsTaken(s: string, p: nat, base: nat, width: nat, done: string, digits: string)
    requires IsBase(base) && Stands(s, p, digits) && Digital(digits, base)
    requires width == 0 || |done| + |digits| <= width
    requires var q := p + |digits|; q == |s| || !InBase(s[q], base) || (width > 0 && |done| + |digits| == width)
    ensures DigitsAt(s, p, base, width, |done|, Wrap64(ValueOf(done, base)))
         == Digits(Wrap64(ValueOf(done + digits, base)), p + |digits|, |done| + |digits|)
    decreases |digits|
  {
    hide InBase, DigitValue, Wrap64, ValueOf;
    if digits == "" {
      assert done + digits == done;
      if p < |s| {
        InBaseValue(s[p], base);
      }
    } else {
      var c := digits[0];
      assert digits == [c] + digits[1..];
      StandsAt(s, p, digits, 0);
      StandsParts(s, p, [c], digits[1..]);
      InBaseValue(c, base);
      DigitsTaken(s, p + 1, base, width, done + [c], digits[1..]);
      assert done + digits == (done + [c]) + digits[1..];
      ValueSnoc(done, c, base);
      WrapStep(ValueOf(done, base), base, DigitValue(c));
    }
  }

  lemma ValueSnoc(done: string, c: char, base: nat)
    ensures ValueOf(done + [c], base) == ValueOf(done, base) * base + DigitValue(c)
  {
    assert (done + [c])[..|done|] == done;
  }

  lemma {:induction false} NumeralValue(v: nat, base: nat, upper: bool)
    requires IsBase(base)
    ensures ValueOf(Numeral(v, base, upper), base) == v && Digital(Numeral(v, base, upper), base)
    decreases v
  {
    hide Numeral, Digit, DigitValue, InBase, IsBase, ValueOf;
    NumeralParts(v, base, upper);
    var d: nat := v % base;
    DigitRead(d, upper);
    InBaseValue(Digit(d, upper), base);
    if v >= base {
      NumeralValue(v / base, base, upper);
      ValueSnoc(Numeral(v / base, base, upper), Digit(d, upper), base);
    } else {
      assert Numeral(v, base, upper) == "" + [Digit(d, upper)];
      ValueSnoc("", Digit(d, upper), base);
      NoValue(base);
    }
  }

  lemma NoValue(base: nat)
    ensures ValueOf("", base) == 0
  {
  }

  // ----- numbers

  predicate IsHexPrefix(prefix: string) { prefix == "0x" || prefix == "0X" }

  /** The base in which a conversion reads what begins with this prefix and these digits. */
  predicate ReadsIn(c: char, base: nat, prefix: string, digits: string) {
    if c == 'd' || c == 'u' then base == 10 && prefix == ""
    else if c == 'o' then base == 8 && prefix == ""
    else if c == 'x' || c == 'X' || c == 'p' then base == 16 && (prefix == "" || IsHexPrefix(prefix))
    else && c == 'i'
         && if prefix == "" then base == (if digits != "" && digits[0] == '0' then 8 else 10)
            else base == 16 && IsHexPrefix(prefix)
  }

  /** A lone zero before an `x` would be the beginning of a prefix. */
  predicate NoPrefixAhead(c: char, digits: string, rest: string) {
    c == 'd' || c == 'u' || c == 'o' || digits != "0" || rest == "" || (rest[0] != 'x' && rest[0] != 'X')
  }

  predicate IsSigned(c: char) { c == 'd' || c == 'i' }

  /** A run of digits as a field width lets it through: to its end, or as long as the width. */
  predicate Run(digits: string, rest: string, base: nat, width: nat) {
    && Digital(digits, base) && (width == 0 || |digits| <= width)
    && (rest == "" || !InBase(rest[0], base) || (width > 0 && |digits| == width))
  }

  /** A text by parts; `gap` and `plus` are what the scan of an unsigned number passes over behind a sign. */
  datatype Parts = Parts(blank: string, sign: string, gap: string, plus: string, prefix: string, digits: string,
                         rest: string)

  function Head(t: Parts): string { t.blank + t.sign + t.gap + t.plus }

  function Whole(t: Parts): string { Head(t) + t.prefix + t.digits + t.rest }

  /** The signs before a number: only `d` and `i` take a minus, and read on as an unsigned number behind a sign. */
  predicate SignsFor(c: char, t: Parts) {
    && (t.sign == "" || t.sign == "+" || t.sign == "-") && (t.plus == "" || t.plus == "+")
    && (forall b <- t.blank :: IsBlank(b)) && (forall b <- t.gap :: IsBlank(b))
    && (if IsSigned(c) then t.sign == "" ==> t.gap == "" && t.plus == "" else t.sign == "" && t.gap == "")
    && var lead := t.prefix + t.digits + t.rest;
       lead != "" ==> && (t.plus == "" ==> !IsBlank(lead[0]) && lead[0] != '+')
                      && (t.sign == "" && IsSigned(c) ==> lead[0] != '-')
  }

  /** The parts into which the conversion divides a text. */
  predicate Divides(c: char, width: nat, base: nat, t: Parts) {
    && IsBase(base) && SignsFor(c, t) && ReadsIn(c, base, t.prefix, t.digits) && Run(t.digits, t.rest, base, width)
    && (t.prefix == "" ==> NoPrefixAhead(c, t.digits, t.rest))
  }

  // ----- reading by parts

  /** Where the base is decided and the digits begin. */
  lemma UnsignedHere(s: string, p0: nat, q: nat, width: nat, base0: nat, base: nat, p: nat)
    requires p0 <= |s| && q == SkipSpaces(s, p0) + (if At(s, SkipSpaces(s, p0)) == '+' then 1 else 0)
    requires base == if base0 != 0 then base0 else if At(s, q) != '0' then 10 else if IsHexMark(s, q) then 16 else 8
    requires p == if base == 16 && IsHexMark(s, q) then q + 2 else q
    ensures p <= |s|
    ensures var d := DigitsAt(s, p, base, width, 0, 0);
            UnsignedAt(s, p0, width, base0) == if d.consumed == 0 then None else Some((d.value, d.next))
  {
    hide DigitsAt, IsSpace, SkipSpaces;
  }

  /** The characters at the beginning of a number. */
  lemma NumberLead(s: string, q: nat, c: char, prefix: string, digits: string, rest: string, base: nat)
    requires IsBase(base) && ReadsIn(c, base, prefix, digits) && Digital(digits, base)
    requires Stands(s, q, prefix) && Stands(s, q + |prefix|, digits) && Stands(s, q + |prefix| + |digits|, rest)
    requires |s| == q + |prefix| + |digits| + |rest|
    requires prefix == "" ==> NoPrefixAhead(c, digits, rest)
    requires prefix == "" && digits == "" ==> rest == "" || rest[0] != '0'
    ensures c !in {'d', 'u', 'o'} ==> (IsHexMark(s, q) <==> prefix != "")
    ensures c == 'i' ==> (At(s, q) == '0' <==> base != 10)
  {
    hide InBase, DigitValue, Stands;
    if prefix != "" {
      StandsAt(s, q, prefix, 0);
      StandsAt(s, q, prefix, 1);
    } else if digits != "" {
      StandsAt(s, q, digits, 0);
      DigitLeads(digits[0], base);
      if |digits| > 1 {
        StandsAt(s, q, digits, 1);
        DigitLeads(digits[1], base);
      } else if rest != "" {
        StandsAt(s, q + 1, rest, 0);
      }
      assert digits[0] == '0' && |digits| == 1 ==> digits == "0";
    } else if rest != "" {
      StandsAt(s, q, rest, 0);
    }
  }

  /** What the scan of an unsigned number that begins at `p0` makes of prefix and digits at `q`. */
  lemma UnsignedRun(s: string, p0: nat, q: nat, c: char, prefix: string, digits: string, rest: string, base: nat,
                    width: nat)
    requires IsBase(base) && ReadsIn(c, base, prefix, digits) && Run(digits, rest, base, width)
    requires Stands(s, q, prefix) && Stands(s, q + |prefix|, digits) && Stands(s, q + |prefix| + |digits|, rest)
    requires |s| == q + |prefix| + |digits| + |rest|
    requires prefix == "" ==> NoPrefixAhead(c, digits, rest)
    requires p0 <= |s| && q == SkipSpaces(s, p0) + (if At(s, SkipSpaces(s, p0)) == '+' then 1 else 0)
    ensures UnsignedAt(s, p0, width, ScanBase(c))
         == if digits == "" then None else Some((Wrap64(ValueOf(digits, base)), q + |prefix| + |digits|))
  {
    hide UnsignedAt, DigitsAt, InBase, ValueOf, DigitValue, IsSpace, Wrap64, Digital, IsHexMark, Stands, SkipSpaces;
    ZeroInBase(base);
    NumberLead(s, q, c, prefix, digits, rest, base);
    RestStands(s, q + |prefix| + |digits|, rest);
    UnsignedHere(s, p0, q, width, ScanBase(c), base, q + |prefix|);
    DigitsTaken(s, q + |prefix|, base, width, "", digits);
    NoValue(base);
    WrapNone();
    assert "" + digits == digits;
  }

  lemma ZeroInBase(base: nat)
    requires IsBase(base)
    ensures InBase('0', base)
  {
    InBaseValue('0', base);
  }

  lemma RestStands(s: string, q: nat, rest: string)
    requires Stands(s, q, rest)
    ensures rest != "" ==> q < |s| && s[q] == rest[0]
  {
    if rest != "" {
      StandsAt(s, q, rest, 0);
    }
  }

  lemma WrapNone()
    ensures Wrap64(0) == 0
  {
  }

  lemma DigitLeads(c: char, base: nat)
    requires IsBase(base) && InBase(c, base)
    ensures !IsBlank(c) && c !in {'+', '-', 'x', 'X', '\0'}
  {
    InBaseValue(c, base);
  }

  /** Blanks are skipped up to what is none. */
  lemma {:induction false} BlanksSkipped(s: string, p: nat, blank: string)
    requires Stands(s, p, blank) && (forall c <- blank :: IsBlank(c)) && !IsBlank(At(s, p + |blank|))
    ensures p + |blank| <= |s| && SkipSpaces(s, p) == p + |blank|
    decreases |blank|
  {
    if blank != "" {
      assert blank == [blank[0]] + blank[1..];
      StandsAt(s, p, blank, 0);
      SixSpaces(blank[0]);
      StandsParts(s, p, [blank[0]], blank[1..]);
      BlanksSkipped(s, p + 1, blank[1..]);
    } else {
      SixSpaces(At(s, p));
    }
  }

  lemma WholeParts(t: Parts)
    ensures var s := Whole(t); var a := |t.blank|; var b := a + |t.sign|; var d := b + |t.gap|; var q := d + |t.plus|;
            var p := q + |t.prefix|;
            && Stands(s, 0, t.blank) && Stands(s, a, t.sign) && Stands(s, b, t.gap) && Stands(s, d, t.plus)
            && Stands(s, q, t.prefix) && Stands(s, p, t.digits) && Stands(s, p + |t.digits|, t.rest)
            && Stands(s, q, t.prefix + t.digits + t.rest) && |s| == p + |t.digits| + |t.rest|
  {
    hide Stands;
    var s, head := Whole(t), Head(t);
    StandsWhole(s);
    FourParts(s, t.blank, t.sign, t.gap, t.plus, t.prefix + t.digits + t.rest);
    FourParts(s, head, t.prefix, t.digits, t.rest, "");
    assert s == head + (t.prefix + t.digits + t.rest);
  }

  lemma FourParts(s: string, a: string, b: string, c: string, d: string, e: string)
    requires s == a + b + c + d + e
    ensures var i := |a|; var j := i + |b|; var k := j + |c|; var l := k + |d|;
            && Stands(s, 0, a) && Stands(s, i, b) && Stands(s, j, c) && Stands(s, k, d) && Stands(s, l, e)
            && |s| == l + |e|
  {
    hide Stands;
    StandsWhole(s);
    StandsParts(s, 0, a + b + c + d, e);
    StandsParts(s, 0, a + b + c, d);
    StandsParts(s, 0, a + b, c);
    StandsParts(s, 0, a, b);
  }

  lemma NegatedWrap(v: int)
    ensures Wrap64(NegSigned(Wrap64(v))) == Wrap64(-v)
  {
    hide NegSigned, Wrap64;
    SignedResult(Wrap64(v));
    SignedWraps(Wrap64(0 - Wrap64(v) as int));
    WrapNegated(v);
  }

  lemma SignedWraps(u: u64)
    ensures Wrap64(ToSigned(u)) == u
  {
  }

  lemma WrapNegated(v: int)
    ensures Wrap64(0 - Wrap64(v) as int) == Wrap64(-v)
  {
  }

  /** The signs are passed over, and the one that counts is seen. */
  lemma SignsRead(c: char, t: Parts)
    requires SignsFor(c, t)
    ensures var s := Whole(t); var a := |t.blank|; var q := |Head(t)|;
            && SkipSpaces(s, 0) == a
            && (IsSigned(c) && (At(s, a) == '-' || At(s, a) == '+') <==> t.sign != "")
            && |t.sign| <= 1 && (t.sign != "" ==> (t.sign == "-" <==> At(s, a) == '-'))
            && var p0 := a + |t.sign|;
               p0 <= |s| && q == SkipSpaces(s, p0) + (if At(s, SkipSpaces(s, p0)) == '+' then 1 else 0)
  {
    hide Stands, SkipSpaces, Whole;
    var s := Whole(t);
    var a, b := |t.blank|, |t.blank| + |t.sign|;
    var d := b + |t.gap|;
    var lead := t.prefix + t.digits + t.rest;
    WholeParts(t);
    RestStands(s, a, t.sign);
    RestStands(s, b, t.gap);
    RestStands(s, d, t.plus);
    RestStands(s, d + |t.plus|, lead);
    assert |s| == d + |t.plus| + |lead|;
    BlanksSkipped(s, b, t.gap);
    if t.sign != "" {
      BlanksSkipped(s, 0, t.blank);
    } else {
      BlanksSkipped(s, 0, t.blank);
    }
  }

  /**
   One integer conversion on a text by its parts: without a digit nothing is read; else the value is that of the
   digits that the field width lets through, negated behind a minus, modulo 2^64, and the scan ends behind them.
   */
  lemma IntegerRead(c: char, width: nat, base: nat, t: Parts)
    requires Divides(c, width, base, t)
    ensures var v := ValueOf(t.digits, base); var s := Whole(t);
            IntegerAt(s, 0, c, width)
            == if t.digits == "" then None
               else Some((Wrap64(if t.sign == "-" then -v else v), |Head(t)| + |t.prefix| + |t.digits|))
  {
    hide UnsignedAt, SkipSpaces, Whole, Head, Stands, ValueOf, Wrap64, NegSigned, InBase, Digital, IsSpace, ScanBase,
         SignsFor, IsBlank, ReadsIn, Run, NoPrefixAhead;
    var s := Whole(t);
    WholeParts(t);
    HeadLength(t);
    SignsRead(c, t);
    UnsignedRun(s, |t.blank| + |t.sign|, |Head(t)|, c, t.prefix, t.digits, t.rest, base, width);
    NegatedWrap(ValueOf(t.digits, base));
  }

  lemma HeadLength(t: Parts)
    ensures |Head(t)| == |t.blank| + |t.sign| + |t.gap| + |t.plus|
  {
  }

  // ----- every text has such parts

  /** The extent of a run of blanks. */
  lemma {:induction false} BlanksSpan(s: string, p: nat)
    requires p <= |s|
    ensures var r := SkipSpaces(s, p); (forall c <- s[p..r] :: IsBlank(c)) && (r == |s| || !IsBlank(s[r]))
    decreases |s| - p
  {
    if p < |s| {
      SixSpaces(s[p]);
      if IsSpace(s[p]) {
        BlanksSpan(s, p + 1);
        assert s[p..SkipSpaces(s, p)] == [s[p]] + s[p + 1..SkipSpaces(s, p)];
      }
    }
  }

  /** The extent of a run of digits. */
  lemma {:induction false} DigitsSpan(s: string, p: nat, base: nat, width: nat, consumed: nat, value: u64)
    requires p <= |s| && (width == 0 || consumed <= width)
    ensures var r := DigitsAt(s, p, base, width, consumed, value).next;
            && Digital(s[p..r], base) && (width == 0 || consumed + (r - p) <= width)
            && (r == |s| || !InBase(s[r], base) || (width > 0 && consumed + (r - p) == width))
    decreases |s| - p
  {
    hide InBase, DigitValue, Wrap64;
    if p < |s| {
      InBaseValue(s[p], base);
      if (width == 0 || consumed < width) && 0 <= DigitValue(s[p]) < base {
        DigitsSpan(s, p + 1, base, width, consumed + 1, Wrap64(value * base + DigitValue(s[p])));
        var r := DigitsAt(s, p, base, width, consumed, value).next;
        assert s[p..r] == [s[p]] + s[p + 1..r];
      }
    }
  }

  predicate IsInteger(c: char) { c in {'d', 'i', 'u', 'x', 'X', 'o', 'p'} }

  /** Every conversion divides every text. */
  lemma TextDivides(s: string, c: char, width: nat) returns (base: nat, t: Parts)
    requires IsInteger(c)
    ensures Divides(c, width, base, t) && Whole(t) == s
  {
    hide SkipSpaces, DigitsAt, InBase, IsBlank, IsSpace, SignsFor, Run, ReadsIn, NoPrefixAhead, IsHexMark, Whole, Head;
    var a := SkipSpaces(s, 0);
    var b := if IsSigned(c) && (At(s, a) == '-' || At(s, a) == '+') then a + 1 else a;
    var d := SkipSpaces(s, b);
    var q := if At(s, d) == '+' then d + 1 else d;
    base := if c == 'd' || c == 'u' then 10 else if c == 'o' then 8 else if c != 'i' then 16
            else if At(s, q) != '0' then 10 else if IsHexMark(s, q) then 16 else 8;
    MarkText(s, q);
    var p := if base == 16 && IsHexMark(s, q) then q + 2 else q;
    var r := DigitsAt(s, p, base, width, 0, 0).next;
    t := Parts(s[..a], s[a..b], s[b..d], s[d..q], s[q..p], s[p..r], s[r..]);
    SlicesJoin(s, a, b, d, q, p, r, t);
    SignsDivide(s, c, a, b, d, q, t);
    NumberDivides(s, c, width, base, q, p, r, t);
  }

  lemma SignsDivide(s: string, c: char, a: nat, b: nat, d: nat, q: nat, t: Parts)
    requires a == SkipSpaces(s, 0) && b == if IsSigned(c) && (At(s, a) == '-' || At(s, a) == '+') then a + 1 else a
    requires b <= |s| && d == SkipSpaces(s, b) && q == (if At(s, d) == '+' then d + 1 else d)
    requires t.blank == s[..a] && t.sign == s[a..b] && t.gap == s[b..d] && t.plus == s[d..q]
    requires t.prefix + t.digits + t.rest == s[q..]
    ensures SignsFor(c, t)
  {
    hide SkipSpaces, IsBlank, IsSpace;
    BlanksSpan(s, 0);
    BlanksSpan(s, b);
    SkippedTwice(s, 0);
    assert s[0..a] == s[..a];
  }

  lemma NumberDivides(s: string, c: char, width: nat, base: nat, q: nat, p: nat, r: nat, t: Parts)
    requires IsInteger(c) && q <= |s|
    requires base == if c == 'd' || c == 'u' then 10 else if c == 'o' then 8 else if c != 'i' then 16
                     else if At(s, q) != '0' then 10 else if IsHexMark(s, q) then 16 else 8
    requires p == (if base == 16 && IsHexMark(s, q) then q + 2 else q) && p <= |s|
    requires r == DigitsAt(s, p, base, width, 0, 0).next
    requires t.prefix == s[q..p] && t.digits == s[p..r] && t.rest == s[r..]
    ensures ReadsIn(c, base, t.prefix, t.digits) && Run(t.digits, t.rest, base, width)
    ensures t.prefix == "" ==> NoPrefixAhead(c, t.digits, t.rest)
  {
    hide DigitsAt, InBase;
    DigitsSpan(s, p, base, width, 0, 0);
    ZeroInBase(base);
    MarkText(s, q);
  }

  lemma SkippedTwice(s: string, p: nat)
    requires p <= |s|
    ensures SkipSpaces(s, SkipSpaces(s, p)) == SkipSpaces(s, p)
    decreases |s| - p
  {
  }

  lemma SlicesJoin(s: string, a: nat, b: nat, d: nat, q: nat, p: nat, r: nat, t: Parts)
    requires a <= b <= d <= q <= p <= r <= |s|
    requires t == Parts(s[..a], s[a..b], s[b..d], s[d..q], s[q..p], s[p..r], s[r..])
    ensures Whole(t) == s && t.prefix + t.digits + t.rest == s[q..]
  {
    assert s[..a] + s[a..b] == s[..b];
    assert s[..b] + s[b..d] == s[..d];
    assert s[..d] + s[d..q] == s[..q];
    assert s[..q] + s[q..p] == s[..p];
    assert s[..p] + s[p..r] == s[..r];
  }

  lemma MarkText(s: string, q: nat)
    ensures IsHexMark(s, q) ==> q + 2 <= |s| && IsHexPrefix(s[q..q + 2])
  {
  }

  /** A numeral, whatever follows it, scanned with its length as the width. */
  lemma NumeralWithWidth(v: nat, blank: string, sign: string, rest: string)
    requires (sign == "" || sign == "+" || sign == "-") && forall b <- blank :: IsBlank(b)
    ensures var digits := Numeral(v, 10, false);
            IntegerAt(blank + sign + digits + rest, 0, 'd', |digits|)
            == Some((Wrap64(if sign == "-" then 0 - v as int else v as int), |blank| + |sign| + |digits|))
  {
    hide IntegerAt, Numeral, InBase, ValueOf, Wrap64;
    var digits := Numeral(v, 10, false);
    var t := Parts(blank, sign, "", "", "", digits, rest);
    NumeralValue(v, 10, false);
    DigitLeads(digits[0], 10);
    assert t.prefix + t.digits + t.rest == digits + rest;
    assert Whole(t) == blank + sign + digits + rest;
    IntegerRead('d', |digits|, 10, t);
  }

  /** A smaller width cuts a numeral after that many digits, which write the quotient by a power of ten. */
  lemma NumeralCut(v: nat, width: nat)
    requires 0 < width <= |Numeral(v, 10, false)|
    ensures var n := |Numeral(v, 10, false)| - width;
            IntegerAt(Numeral(v, 10, false), 0, 'd', width) == Some((Wrap64(v / Ten(n)), width))
  {
    hide IntegerAt, Numeral, Ten, Wrap64;
    var whole := Numeral(v, 10, false);
    var n := |whole| - width;
    LeadingDigits(v, n);
    var digits, rest := whole[..width], whole[width..];
    assert digits + rest == whole;
    NumeralWithWidth(v / Ten(n), "", "", rest);
    assert "" + "" + digits + rest == whole;
  }

  function Ten(n: nat): (r: nat)
    ensures r > 0
  {
    if n == 0 then 1 else 10 * Ten(n - 1)
  }

  lemma {:induction false} LeadingDigits(v: nat, n: nat)
    requires n < |Numeral(v, 10, false)|
    ensures Numeral(v, 10, false)[..|Numeral(v, 10, false)| - n] == Numeral(v / Ten(n), 10, false)
    decreases n
  {
    hide Numeral, Digit;
    var whole := Numeral(v, 10, false);
    if n == 0 {
      assert whole[..|whole|] == whole;
    } else {
      NumeralParts(v, 10, false);
      var high := Numeral(v / 10, 10, false);
      assert whole[..|whole| - n] == high[..|high| - (n - 1)];
      LeadingDigits(v / 10, n - 1);
      TenParts(v, Ten(n - 1));
    }
  }

  lemma TenParts(v: nat, t: nat)
    requires t > 0
    ensures v / 10 / t == v / (10 * t)
  {
    var a: nat, b: nat, d: nat := v / 10, v % 10, 10 * t;
    var q: nat, r: nat := a / t, a % t;
    Divided(a, t);
    Divided(v, d);
    Nested(v, a, b, t, q, r);
    hide Makes;
    DivisionUnique(v, d, q, 10 * r + b, v / d, v % d);
  }

  lemma Divided(a: nat, t: nat)
    requires t > 0
    ensures 0 <= a / t && 0 <= a % t < t && Makes(a, a / t, t, a % t)
  {
  }

  lemma Nested(v: nat, a: nat, b: nat, t: nat, q: nat, r: nat)
    requires v == 10 * a + b && b < 10 && Makes(a, q, t, r) && r < t
    ensures Makes(v, q, 10 * t, 10 * r + b) && 10 * r + b < 10 * t
  {
    var p := q * t;
    assert q * (10 * t) == 10 * p;
  }

  /** `%2d` on `1234` stores 12 and stops before the 34. */
  lemma TwoOfFour()
    ensures IntegerAt("1234", 0, 'd', 2) == Some((12, 2))
  {
    hide IntegerAt, Numeral, Ten;
    FourDigits();
    NumeralCut(1234, 2);
    Hundred();
  }

  lemma Hundred()
    ensures Ten(2) == 100
  {
    assert Ten(1) == 10;
  }

  lemma FourDigits()
    ensures Numeral(1234, 10, false) == "1234"
  {
    assert Numeral(1, 10, false) == "1";
    assert Numeral(12, 10, false) == "1" + "2";
    assert Numeral(123, 10, false) == "12" + "3";
  }

  // ----- what is stored

  /** The stored integer is in the range of its type and differs by a multiple of two to its width. */
  lemma StoredValue(u: u64, length: int)
    ensures length == 2 ==> AsUnsigned(u, length) == u
    ensures length == 2 ==> && -0x8000_0000_0000_0000 <= AsSigned(u, length) < 0x8000_0000_0000_0000
                            && (AsSigned(u, length) == u || AsSigned(u, length) == u - 0x1_0000_0000_0000_0000)
    ensures length != 2 ==> && 0 <= AsUnsigned(u, length) < 0x1_0000_0000
                            && (u - AsUnsigned(u, length)) % 0x1_0000_0000 == 0
    ensures length != 2 ==> && -0x8000_0000 <= AsSigned(u, length) < 0x8000_0000
                            && (u - AsSigned(u, length)) % 0x1_0000_0000 == 0
  {
  }
}
