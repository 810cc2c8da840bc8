/**
 What a printf format means, by value: how a directive is written, what each conversion prints, and what a
 format of plain text and directives renders (lib/libc_stdio.c:192-316).
 */
module FormatLaws {
  import opened Bits
  import opened DivMod
  import opened Format
  import opened RoundTrip
  import opened ScanLaws

  // ----- numbers and flags in a directive

  predicate IsDecimal(s: string) {
    forall i :: 0 <= i < |s| ==> '0' <= s[i] <= '9'
  }

  predicate NoDigitAt(s: string, i: nat) { i < |s| ==> !('0' <= s[i] <= '9') }

  lemma DecimalValue(c: char)
    requires '0' <= c <= '9'
    ensures Scan.DigitValue(c) == c as int - '0' as int
  {
  }

  /** A run of decimal digits is read as the number it writes. */
  lemma {:induction false} DecimalRead(fmt: string, i: nat, done: string, digits: string)
    requires Stands(fmt, i, digits) && IsDecimal(digits) && NoDigitAt(fmt, i + |digits|)
    ensures NumberAt(fmt, i, ValueOf(done, 10)) == (ValueOf(done + digits, 10), i + |digits|)
    decreases |digits|
  {
    hide ValueOf;
    if digits == "" {
      assert done + digits == done;
    } else {
      var c := digits[0];
      assert digits == [c] + digits[1..];
      StandsAt(fmt, i, digits, 0);
      StandsParts(fmt, i, [c], digits[1..]);
      DecimalRead(fmt, i + 1, done + [c], digits[1..]);
      assert done + digits == (done + [c]) + digits[1..];
      ValueSnoc(done, c, 10);
      DecimalValue(c);
    }
  }

  /** A number in a directive, from its first digit on. */
  lemma NumberRead(fmt: string, i: nat, digits: string)
    requires Stands(fmt, i, digits) && IsDecimal(digits) && NoDigitAt(fmt, i + |digits|)
    ensures NumberAt(fmt, i, 0) == (ValueOf(digits, 10), i + |digits|)
  {
    hide ValueOf;
    NoValue(10);
    DecimalRead(fmt, i, "", digits);
    assert "" + digits == digits;
  }

  lemma {:induction false} NumeralDecimal(v: nat)
    ensures IsDecimal(Numeral(v, 10, false)) && ValueOf(Numeral(v, 10, false), 10) == v
    ensures Numeral(v, 10, false)[0] == '0' <==> v == 0
    decreases v
  {
    hide Numeral, ValueOf;
    NumeralParts(v, 10, false);
    NumeralValue(v, 10, false);
    if v >= 10 {
      NumeralDecimal(v / 10);
    }
  }

  predicate AreFlags(s: string) {
    forall i :: 0 <= i < |s| ==> s[i] in {'-', '+', ' ', '#', '0'}
  }

  predicate NoFlagAt(s: string, i: nat) { i < |s| ==> s[i] !in {'-', '+', ' ', '#', '0'} }

  /** The spec in which exactly the flags of a string are set, besides those of `s`. */
  function Flagged(s: Spec, flags: string): Spec {
    s.(left := s.left || '-' in flags, zero := s.zero || '0' in flags, alt := s.alt || '#' in flags,
       plus := s.plus || '+' in flags, space := s.space || ' ' in flags)
  }

  lemma {:induction false} FlagsRead(fmt: string, i: nat, s: Spec, flags: string)
    requires Stands(fmt, i, flags) && AreFlags(flags) && NoFlagAt(fmt, i + |flags|)
    ensures FlagsAt(fmt, i, s) == (Flagged(s, flags), i + |flags|)
    decreases |flags|
  {
    if flags != "" {
      var c := flags[0];
      assert flags == [c] + flags[1..];
      StandsAt(fmt, i, flags, 0);
      StandsParts(fmt, i, [c], flags[1..]);
      FlagsRead(fmt, i + 1, WithFlag(s, c), flags[1..]);
      MoreFlags(s, c, flags);
    }
  }

  lemma MoreFlags(s: Spec, c: char, flags: string)
    requires flags != "" && flags[0] == c && c in {'-', '+', ' ', '#', '0'}
    ensures Flagged(WithFlag(s, c), flags[1..]) == Flagged(s, flags)
  {
    forall x: char
      ensures x in flags <==> x == c || x in flags[1..]
    {
      assert flags == [c] + flags[1..];
    }
  }

  // ----- whole directives

  /** A width or precision: a run of digits, which may be empty, or an argument. */
  datatype Amount = Digits(text: string) | Star

  datatype Precision = Unlimited | Point(amount: Amount)

  datatype Directive = Directive(flags: string, width: Amount, precision: Precision, length: string)

  function AmountText(a: Amount): string { if a.Star? then "*" else a.text }

  function PrecisionText(p: Precision): string { if p.Unlimited? then "" else "." + AmountText(p.amount) }

  /** What stands between the percent sign and the conversion character. */
  function DirectiveText(d: Directive): string {
    d.flags + AmountText(d.width) + PrecisionText(d.precision) + d.length
  }

  /** An amount is read up to here: no digit follows, nor a star if there is no digit. */
  predicate AmountEnds(a: Amount, rest: string) {
    a.Digits? ==> IsDecimal(a.text) && NoDigitAt(rest, 0) && (a.text == "" && rest != "" ==> rest[0] != '*')
  }

  predicate PrecisionEnds(p: Precision, rest: string) {
    if p.Unlimited? then rest != "" ==> rest[0] != '.' else AmountEnds(p.amount, rest)
  }

  predicate LengthEnds(length: string, rest: string) {
    && length in {"", "l", "ll", "z"}
    && (length == "" && rest != "" ==> rest[0] != 'l' && rest[0] != 'z')
    && (length == "l" && rest != "" ==> rest[0] != 'l')
  }

  /** Each part of a directive extends as far as it can, before the text that follows. */
  predicate Separated(d: Directive, rest: string) {
    && AreFlags(d.flags) && NoFlagAt(AmountText(d.width) + PrecisionText(d.precision) + d.length + rest, 0)
    && AmountEnds(d.width, PrecisionText(d.precision) + d.length + rest)
    && PrecisionEnds(d.precision, d.length + rest) && LengthEnds(d.length, rest)
  }

  /** An `int` argument. */
  function IntArg(args: VaList, k: nat): int {
    var low: int := args.number(k) as int % 0x1_0000_0000;
    if low < 0x8000_0000 then low else low - 0x1_0000_0000
  }

  function AmountValue(a: Amount, args: VaList, k: nat): int {
    if a.Star? then IntArg(args, k) else ValueOf(a.text, 10)
  }

  function Taken(a: Amount): nat { if a.Star? then 1 else 0 }

  /** What a directive says; a negative width from an argument adjusts to the left. */
  function SpecOf(d: Directive, args: VaList, k: nat): Spec {
    var w := AmountValue(d.width, args, k);
    Spec(left := '-' in d.flags || w < 0, zero := '0' in d.flags, alt := '#' in d.flags, plus := '+' in d.flags,
         space := ' ' in d.flags, width := if w < 0 then -w else w,
         precision := if d.precision.Unlimited? then -1 else AmountValue(d.precision.amount, args, k + Taken(d.width)),
         length := if d.length == "ll" then 2 else if d.length == "" then 0 else 1)
  }

  function ArgumentsTaken(d: Directive): nat {
    Taken(d.width) + if d.precision.Unlimited? then 0 else Taken(d.precision.amount)
  }

  lemma IntArgument(args: VaList, k: nat)
    ensures SignedArg(args, k, 0) == IntArg(args, k)
  {
  }

  lemma {:induction false} DecimalNonNegative(digits: string)
    requires IsDecimal(digits)
    ensures ValueOf(digits, 10) >= 0
    decreases |digits|
  {
    if digits != "" {
      DecimalNonNegative(digits[..|digits| - 1]);
      DecimalValue(digits[|digits| - 1]);
    }
  }

  lemma WidthRead(fmt: string, r: Reading, args: VaList, a: Amount, rest: string)
    requires Stands(fmt, r.i, AmountText(a)) && Stands(fmt, r.i + |AmountText(a)|, rest)
    requires |fmt| == r.i + |AmountText(a)| + |rest| && AmountEnds(a, rest)
    ensures var w := AmountValue(a, args, r.k);
            WidthAt(fmt, r, args)
            == Reading(r.spec.(left := r.spec.left || w < 0, width := if w < 0 then -w else w), r.i + |AmountText(a)|,
                       r.k + Taken(a))
  {
    hide ValueOf, NumberAt, SignedArg, IntArg, Stands;
    IntArgument(args, r.k);
    RestStands(fmt, r.i + |AmountText(a)|, rest);
    RestStands(fmt, r.i, AmountText(a));
    if a.Digits? {
      NumberRead(fmt, r.i, a.text);
      DecimalNonNegative(a.text);
    }
  }

  lemma PrecisionRead(fmt: string, r: Reading, args: VaList, p: Precision, rest: string)
    requires Stands(fmt, r.i, PrecisionText(p)) && Stands(fmt, r.i + |PrecisionText(p)|, rest)
    requires |fmt| == r.i + |PrecisionText(p)| + |rest| && PrecisionEnds(p, rest)
    ensures var v := if p.Unlimited? then r.spec.precision else AmountValue(p.amount, args, r.k);
            PrecisionAt(fmt, r, args) == Reading(r.spec.(precision := v), r.i + |PrecisionText(p)|,
                                                 r.k + if p.Unlimited? then 0 else Taken(p.amount))
  {
    hide ValueOf, NumberAt, SignedArg, IntArg, Stands, AmountText, AmountValue, Taken, AmountEnds;
    RestStands(fmt, r.i + |PrecisionText(p)|, rest);
    if p.Point? {
      StandsParts(fmt, r.i, ".", AmountText(p.amount));
      RestStands(fmt, r.i, ".");
      AmountRead(fmt, r, args, p.amount, rest);
    }
  }

  /** What follows a point. */
  lemma AmountRead(fmt: string, r: Reading, args: VaList, a: Amount, rest: string)
    requires r.i < |fmt| && fmt[r.i] == '.' && Stands(fmt, r.i + 1, AmountText(a)) && AmountEnds(a, rest)
    requires Stands(fmt, r.i + 1 + |AmountText(a)|, rest) && |fmt| == r.i + 1 + |AmountText(a)| + |rest|
    ensures PrecisionAt(fmt, r, args)
         == Reading(r.spec.(precision := AmountValue(a, args, r.k)), r.i + 1 + |AmountText(a)|, r.k + Taken(a))
  {
    hide ValueOf, NumberAt, SignedArg, IntArg, Stands;
    IntArgument(args, r.k);
    RestStands(fmt, r.i + 1, AmountText(a));
    RestStands(fmt, r.i + 1 + |AmountText(a)|, rest);
    if a.Digits? {
      NumberRead(fmt, r.i + 1, a.text);
    }
  }

  lemma LengthRead(fmt: string, r: Reading, length: string, rest: string)
    requires Stands(fmt, r.i, length) && Stands(fmt, r.i + |length|, rest)
    requires |fmt| == r.i + |length| + |rest| && LengthEnds(length, rest) && r.spec.length == 0
    ensures LengthAt(fmt, r) == Reading(r.spec.(length := if length == "ll" then 2 else if length == "" then 0 else 1),
                                        r.i + |length|, r.k)
  {
    hide Stands;
    RestStands(fmt, r.i + |length|, rest);
    RestStands(fmt, r.i, length);
    if length == "ll" {
      StandsAt(fmt, r.i, length, 1);
    }
  }

  /** A directive as it is written is read back, part by part. */
  lemma DirectiveRead(fmt: string, i: nat, d: Directive, rest: string, args: VaList, k: nat)
    requires Stands(fmt, i, DirectiveText(d) + rest) && |fmt| == i + |DirectiveText(d)| + |rest| && Separated(d, rest)
    ensures DirectiveAt(fmt, i, args, k) == Reading(SpecOf(d, args, k), i + |DirectiveText(d)|, k + ArgumentsTaken(d))
  {
    hide Stands, FlagsAt, WidthAt, PrecisionAt, LengthAt, AmountText, PrecisionText, AmountValue, AmountEnds,
         PrecisionEnds, LengthEnds, AreFlags, NoFlagAt;
    var w, p := AmountText(d.width), PrecisionText(d.precision);
    var a, b, c, e := i + |d.flags|, i + |d.flags| + |w|, i + |d.flags| + |w| + |p|, i + |DirectiveText(d)|;
    PartsStand(fmt, i, d.flags, w, p, d.length, rest);
    NoFlagBehind(fmt, a, w + p + d.length + rest);
    FlagsRead(fmt, i, PLAIN, d.flags);
    var r0 := Reading(Flagged(PLAIN, d.flags), a, k);
    WidthRead(fmt, r0, args, d.width, p + d.length + rest);
    var r1 := WidthAt(fmt, r0, args);
    PrecisionRead(fmt, r1, args, d.precision, d.length + rest);
    var r2 := PrecisionAt(fmt, r1, args);
    LengthRead(fmt, r2, d.length, rest);
  }

  lemma NoFlagBehind(fmt: string, i: nat, rest: string)
    requires Stands(fmt, i, rest) && |fmt| == i + |rest| && NoFlagAt(rest, 0)
    ensures NoFlagAt(fmt, i)
  {
    RestStands(fmt, i, rest);
  }

  lemma PartsStand(fmt: string, i: nat, a: string, b: string, c: string, d: string, e: string)
    requires Stands(fmt, i, a + b + c + d + e) && |fmt| == i + |a| + |b| + |c| + |d| + |e|
    ensures var j := i + |a|; var k := j + |b|; var l := k + |c|; var m := l + |d|;
            && Stands(fmt, i, a) && Stands(fmt, j, b) && Stands(fmt, k, c) && Stands(fmt, l, d) && Stands(fmt, m, e)
            && Stands(fmt, j, b + c + d + e) && Stands(fmt, k, c + d + e) && Stands(fmt, l, d + e)
  {
    hide Stands;
    StandsParts(fmt, i, a + b + c + d, e);
    StandsParts(fmt, i, a + b + c, d);
    StandsParts(fmt, i, a + b, c);
    StandsParts(fmt, i, a, b);
    assert a + b + c + d + e == a + (b + c + d + e) == (a + b) + (c + d + e) == (a + b + c) + (d + e);
    StandsParts(fmt, i, a, b + c + d + e);
    StandsParts(fmt, i, a + b, c + d + e);
    StandsParts(fmt, i, a + b + c, d + e);
  }

  // ----- every text behind a percent sign is a directive

  lemma {:induction false} FlagsSpan(fmt: string, i: nat, s: Spec)
    requires i <= |fmt|
    ensures var r := FlagsAt(fmt, i, s).1; AreFlags(fmt[i..r]) && NoFlagAt(fmt, r)
    decreases |fmt| - i
  {
    if i < |fmt| && IsFlag(fmt[i]) {
      FlagsSpan(fmt, i + 1, WithFlag(s, fmt[i]));
      var r := FlagsAt(fmt, i, s).1;
      assert fmt[i..r] == [fmt[i]] + fmt[i + 1..r];
    }
  }

  lemma {:induction false} NumberSpan(fmt: string, i: nat, n: int)
    requires i <= |fmt|
    ensures var r := NumberAt(fmt, i, n).1; IsDecimal(fmt[i..r]) && NoDigitAt(fmt, r)
    decreases |fmt| - i
  {
    if i < |fmt| && IsDigitChar(fmt[i]) {
      NumberSpan(fmt, i + 1, n * 10 + (fmt[i] as int - '0' as int));
      var r := NumberAt(fmt, i, n).1;
      assert fmt[i..r] == [fmt[i]] + fmt[i + 1..r];
    }
  }

  lemma AmountPart(fmt: string, i: nat) returns (a: Amount, j: nat)
    requires i <= |fmt|
    ensures i <= j <= |fmt| && AmountText(a) == fmt[i..j] && AmountEnds(a, fmt[j..])
  {
    if At(fmt, i) == '*' {
      a, j := Star, i + 1;
    } else {
      j := NumberAt(fmt, i, 0).1;
      a := Digits(fmt[i..j]);
      NumberSpan(fmt, i, 0);
    }
  }

  lemma PrecisionPart(fmt: string, i: nat) returns (p: Precision, j: nat)
    requires i <= |fmt|
    ensures i <= j <= |fmt| && PrecisionText(p) == fmt[i..j] && PrecisionEnds(p, fmt[j..])
  {
    if At(fmt, i) != '.' {
      p, j := Unlimited, i;
    } else {
      var a;
      a, j := AmountPart(fmt, i + 1);
      p := Point(a);
      assert fmt[i..j] == "." + fmt[i + 1..j];
    }
  }

  lemma LengthPart(fmt: string, i: nat) returns (length: string, j: nat)
    requires i <= |fmt|
    ensures i <= j <= |fmt| && length == fmt[i..j] && LengthEnds(length, fmt[j..])
  {
    j := if At(fmt, i) == 'z' then i + 1 else if At(fmt, i) != 'l' then i
         else if At(fmt, i + 1) == 'l' then i + 2 else i + 1;
    length := fmt[i..j];
    assert length == if At(fmt, i) == 'z' then "z" else if At(fmt, i) != 'l' then ""
                     else if At(fmt, i + 1) == 'l' then "ll" else "l";
  }

  lemma DirectiveDivides(fmt: string, i: nat) returns (d: Directive, j: nat)
    requires i <= |fmt|
    ensures i <= j <= |fmt| && fmt[i..] == DirectiveText(d) + fmt[j..] && Separated(d, fmt[j..])
  {
    hide AmountText, PrecisionText, AmountEnds, PrecisionEnds, LengthEnds, FlagsAt, AreFlags;
    FlagsSpan(fmt, i, PLAIN);
    var a := FlagsAt(fmt, i, PLAIN).1;
    var w, b := AmountPart(fmt, a);
    var p, c := PrecisionPart(fmt, b);
    var l, e := LengthPart(fmt, c);
    d, j := Directive(fmt[i..a], w, p, l), e;
    SlicesJoin(fmt, i, a, b, c, e);
    assert DirectiveText(d) + fmt[e..] == fmt[i..];
  }

  lemma SlicesJoin(s: string, i: nat, a: nat, b: nat, c: nat, e: nat)
    requires i <= a <= b <= c <= e <= |s|
    ensures s[c..] == s[c..e] + s[e..]
    ensures s[b..] == s[b..c] + s[c..e] + s[e..]
    ensures s[a..] == s[a..b] + s[b..c] + s[c..e] + s[e..]
    ensures s[i..] == s[i..a] + s[a..b] + s[b..c] + s[c..e] + s[e..]
  {
    assert s[b..] == s[b..c] + s[c..];
    assert s[a..] == s[a..b] + s[b..];
    assert s[i..] == s[i..a] + s[a..];
  }

  // ----- what a conversion prints

  /** The argument in the type the conversion asks for: 64 bits behind `ll`, else 32. */
  predicate ArgumentIs(v: int, signed: bool, wide: bool, arg: i64) {
    if wide then
      if signed then v == arg else 0 <= v < 0x1_0000_0000_0000_0000 && (v == arg || v == arg + 0x1_0000_0000_0000_0000)
    else
      && (v - arg) % 0x1_0000_0000 == 0
      && if signed then -0x8000_0000 <= v < 0x8000_0000 else 0 <= v < 0x1_0000_0000
  }

  /** The digits write the number, with no zero in front; nothing at all for a zero of precision zero. */
  predicate Writes(digits: string, n: nat, base: nat, table: string, precision: int) {
    if precision == 0 && n == 0 then digits == ""
    else && digits != "" && ValueOf(digits, base) == n && (digits[0] == '0' ==> digits == "0")
         && forall i :: 0 <= i < |digits| ==> digits[i] in table
  }

  /** The layout of a number: blanks or zeros up to the width, zeros up to the precision. */
  predicate LaidOut(text: string, sign: string, prefix: string, digits: string, spec: Spec) {
    var zeros := if spec.precision > |digits| then spec.precision - |digits| else 0;
    var size := |sign| + |prefix| + zeros + |digits|;
    var pad := if spec.width > size then spec.width - size else 0;
    text == if spec.left then sign + prefix + Repeat('0', zeros) + digits + Repeat(' ', pad)
            else if spec.zero && spec.precision < 0 then sign + prefix + Repeat('0', pad) + digits
            else Repeat(' ', pad) + sign + prefix + Repeat('0', zeros) + digits
  }

  lemma DigitTable(d: nat, upper: bool)
    requires d < 16
    ensures Digit(d, upper) == (if upper then "0123456789ABCDEF" else "0123456789abcdef")[d]
  {
    if d < 10 {
      LowDigit(d);
    } else {
      HighDigit(d);
    }
  }

  lemma {:induction false} NumeralWrites(v: nat, base: nat, upper: bool)
    requires IsBase(base)
    ensures Writes(Numeral(v, base, upper), v, base, if upper then "0123456789ABCDEF" else "0123456789abcdef", -1)
    ensures Numeral(v, base, upper)[0] == '0' ==> v == 0
    decreases v
  {
    hide Numeral, Digit, ValueOf;
    NumeralParts(v, base, upper);
    NumeralValue(v, base, upper);
    DigitTable(v % base, upper);
    DigitRead(v % base, upper);
    if v >= base {
      NumeralWrites(v / base, base, upper);
    }
  }

  lemma FieldLaidOut(v: nat, base: nat, upper: bool, sign: string, prefix: string, spec: Spec) returns (digits: string)
    requires IsBase(base)
    ensures Writes(digits, v, base, if upper then "0123456789ABCDEF" else "0123456789abcdef", spec.precision)
    ensures LaidOut(Field(v, base, upper, sign, prefix, spec), sign, prefix, digits, spec)
  {
    hide Numeral, Repeat, Field, ValueOf, LaidOut;
    digits := DigitsOf(v, base, upper, spec);
    NumeralWrites(v, base, upper);
    var zeros := if spec.precision > |digits| then spec.precision - |digits| else 0;
    var size := |sign| + |prefix| + zeros + |digits|;
    var pad := if spec.width > size then spec.width - size else 0;
    Stdio.FieldParts(v, base, upper, sign, prefix, spec, |digits|, zeros, pad);
    LayoutOf(Field(v, base, upper, sign, prefix, spec), sign, prefix, digits, spec, zeros, pad);
  }

  lemma LayoutOf(text: string, sign: string, prefix: string, digits: string, spec: Spec, zeros: nat, pad: nat)
    requires zeros == if spec.precision > |digits| then spec.precision - |digits| else 0
    requires var size := |sign| + |prefix| + zeros + |digits|; pad == if spec.width > size then spec.width - size else 0
    requires text == if spec.zero && !spec.left && spec.precision < 0
                     then sign + prefix + Repeat('0', pad) + Repeat('0', zeros) + digits
                     else (if spec.left then "" else Repeat(' ', pad)) + sign + prefix + Repeat('0', zeros) + digits
                          + (if spec.left then Repeat(' ', pad) else "")
    ensures LaidOut(text, sign, prefix, digits, spec)
  {
    hide Repeat;
    NoZeros();
    SamePieces(Repeat(' ', pad), sign, prefix, Repeat('0', zeros), digits, Repeat('0', pad));
  }

  lemma NoZeros()
    ensures Repeat('0', 0) == ""
  {
  }

  lemma SamePieces(a: string, b: string, c: string, d: string, e: string, f: string)
    ensures "" + b + c + d + e + a == b + c + d + e + a
    ensures a + b + c + d + e + "" == a + b + c + d + e
    ensures d == "" ==> b + c + f + d + e == b + c + f + e
  {
  }

  /** Copies of one character. */
  lemma Copies(c: char, n: nat)
    ensures |Repeat(c, n)| == n && forall i :: 0 <= i < n ==> Repeat(c, n)[i] == c
  {
  }

  /** The integer conversions: the argument's value, its sign and prefix, its digits, and the layout. */
  lemma NumberConverted(c: char, spec: Spec, args: VaList, k: nat) returns (v: int, digits: string)
    requires c in {'d', 'i', 'u', 'x', 'X', 'o', 'p'}
    ensures ArgumentIs(v, c == 'd' || c == 'i', spec.length == 2 && c != 'p', args.number(k))
    ensures Writes(digits, if v < 0 then -v else v, if c == 'o' then 8 else if c in {'x', 'X', 'p'} then 16 else 10,
                   if c == 'X' then "0123456789ABCDEF" else "0123456789abcdef", spec.precision)
    ensures var sign := if c != 'd' && c != 'i' then "" else if v < 0 then "-" else if spec.plus then "+"
                        else if spec.space then " " else "";
            var prefix := if c == 'p' then "0x" else if !spec.alt || v == 0 then "" else if c == 'x' then "0x"
                          else if c == 'X' then "0X" else if c == 'o' then "0" else "";
            var width := if c == 'p' && spec.width == 0 then 1 else spec.width;
            LaidOut(Converted(c, spec, args, k).0, sign, prefix, digits, spec.(width := width))
    ensures Converted(c, spec, args, k).1 == 1
  {
    hide Field, Writes, LaidOut, SignedArg, UnsignedArg;
    SignedIs(args, k, spec.length);
    UnsignedIs(args, k, spec.length);
    UnsignedIs(args, k, 1);
    if c == 'd' || c == 'i' {
      v := SignedArg(args, k, spec.length);
      digits := FieldLaidOut(Abs(v), 10, false, SignOf(v, spec), "", spec);
    } else if c == 'p' {
      v := UnsignedArg(args, k, 1);
      digits := FieldLaidOut(v, 16, false, "", "0x", spec.(width := if spec.width != 0 then spec.width else 1));
    } else {
      v := UnsignedArg(args, k, spec.length);
      digits := FieldLaidOut(v, BaseOf(c), c == 'X', "", PrefixOf(v, c, spec), spec);
    }
  }

  lemma SignedIs(args: VaList, k: nat, length: int)
    ensures ArgumentIs(SignedArg(args, k, length), true, length == 2, args.number(k))
  {
  }

  lemma UnsignedIs(args: VaList, k: nat, length: int)
    ensures ArgumentIs(UnsignedArg(args, k, length), false, length == 2, args.number(k))
  {
  }

  // ----- whole formats

  datatype Piece = Plain(text: string) | Conversion(directive: Directive, c: char)

  function PieceText(p: Piece): string {
    if p.Plain? then p.text else "%" + DirectiveText(p.directive) + [p.c]
  }

  function FormatText(pieces: seq<Piece>): string {
    if pieces == [] then "" else PieceText(pieces[0]) + FormatText(pieces[1..])
  }

  /** Plain text has no percent sign, and a directive ends where its conversion character stands. */
  predicate PieceReads(p: Piece, rest: string) {
    if p.Plain? then forall i :: 0 <= i < |p.text| ==> p.text[i] != '%'
    else Separated(p.directive, [p.c] + rest)
  }

  predicate Readable(pieces: seq<Piece>) {
    pieces != [] ==> PieceReads(pieces[0], FormatText(pieces[1..])) && Readable(pieces[1..])
  }

  /** Plain text as it is, or the text of the conversion, and how many arguments are taken. */
  function PieceOutput(p: Piece, args: VaList, k: nat): (string, nat) {
    if p.Plain? then (p.text, 0)
    else
      var before := ArgumentsTaken(p.directive);
      var (text, taken) := Converted(p.c, SpecOf(p.directive, args, k), args, k + before);
      (text, before + taken)
  }

  function Rendered(pieces: seq<Piece>, args: VaList, k: nat): string {
    if pieces == [] then ""
    else
      var (text, taken) := PieceOutput(pieces[0], args, k);
      text + Rendered(pieces[1..], args, k + taken)
  }

  lemma {:induction false} PlainRendered(fmt: string, i: nat, text: string, args: VaList, k: nat)
    requires Stands(fmt, i, text) && forall j :: 0 <= j < |text| ==> text[j] != '%'
    ensures Render(fmt, i, args, k) == text + Render(fmt, i + |text|, args, k)
    decreases |text|
  {
    hide Render;
    var whole := Render(fmt, i, args, k);
    if text == "" {
      NothingBefore(whole);
    } else {
      var c, rest := text[0], Render(fmt, i + |text|, args, k);
      assert text == [c] + text[1..];
      StandsAt(fmt, i, text, 0);
      StandsParts(fmt, i, [c], text[1..]);
      PlainRendered(fmt, i + 1, text[1..], args, k);
      Stdio.RenderStep(fmt, i, args, k, "");
      NothingBefore(whole);
      NothingBefore([c]);
      Regrouped(c, text, rest);
    }
  }

  lemma Regrouped(c: char, text: string, rest: string)
    requires text != "" && text[0] == c
    ensures [c] + (text[1..] + rest) == text + rest
  {
    assert text == [c] + text[1..];
  }

  lemma ConversionRendered(fmt: string, i: nat, d: Directive, c: char, rest: string, args: VaList, k: nat)
    requires Stands(fmt, i, "%" + DirectiveText(d) + [c] + rest) && Separated(d, [c] + rest)
    requires |fmt| == i + 1 + |DirectiveText(d)| + 1 + |rest|
    ensures var k' := k + ArgumentsTaken(d); var (text, taken) := Converted(c, SpecOf(d, args, k), args, k');
            Render(fmt, i, args, k) == text + Render(fmt, i + 2 + |DirectiveText(d)|, args, k' + taken)
  {
    hide DirectiveAt, Converted, DirectiveText, Separated, SpecOf, ArgumentsTaken, Stands, Render;
    var text := DirectiveText(d);
    assert "%" + text + [c] + rest == "%" + (text + ([c] + rest));
    StandsParts(fmt, i, "%", text + ([c] + rest));
    StandsParts(fmt, i + 1, text, [c] + rest);
    RestStands(fmt, i, "%");
    RestStands(fmt, i + 1 + |text|, [c] + rest);
    DirectiveRead(fmt, i + 1, d, [c] + rest, args, k);
    Stdio.RenderStep(fmt, i, args, k, "");
    NothingBefore(Render(fmt, i, args, k));
    NothingBefore(Converted(c, SpecOf(d, args, k), args, k + ArgumentsTaken(d)).0);
  }

  lemma NothingBefore(s: string)
    ensures "" + s == s
  {
  }

  lemma PieceRendered(fmt: string, i: nat, p: Piece, rest: string, args: VaList, k: nat)
    requires Stands(fmt, i, PieceText(p) + rest) && |fmt| == i + |PieceText(p)| + |rest| && PieceReads(p, rest)
    ensures var (text, taken) := PieceOutput(p, args, k);
            Render(fmt, i, args, k) == text + Render(fmt, i + |PieceText(p)|, args, k + taken)
  {
    hide Converted, Separated, SpecOf, ArgumentsTaken, Stands, DirectiveText, Render;
    if p.Plain? {
      StandsParts(fmt, i, p.text, rest);
      PlainRendered(fmt, i, p.text, args, k);
    } else {
      ConversionRendered(fmt, i, p.directive, p.c, rest, args, k);
    }
  }

  /** A format renders as its pieces, in order, each conversion with the arguments that are next. */
  lemma {:induction false} FormatRendered(fmt: string, i: nat, pieces: seq<Piece>, args: VaList, k: nat)
    requires Stands(fmt, i, FormatText(pieces)) && |fmt| == i + |FormatText(pieces)| && Readable(pieces)
    ensures Render(fmt, i, args, k) == Rendered(pieces, args, k)
    decreases |pieces|
  {
    hide PieceOutput, PieceText, PieceReads, Stands, Render;
    if pieces == [] {
      Stdio.RenderStep(fmt, i, args, k, "");
      NothingBefore(Render(fmt, i, args, k));
    } else {
      var p, rest := pieces[0], FormatText(pieces[1..]);
      PieceRendered(fmt, i, p, rest, args, k);
      StandsParts(fmt, i, PieceText(p), rest);
      FormatRendered(fmt, i + |PieceText(p)|, pieces[1..], args, k + PieceOutput(p, args, k).1);
    }
  }

  /** A directive at the end of the format, without a conversion character, prints a NUL. */
  lemma Unfinished(fmt: string, i: nat, d: Directive, args: VaList, k: nat)
    requires Stands(fmt, i, "%" + DirectiveText(d)) && |fmt| == i + 1 + |DirectiveText(d)| && Separated(d, "")
    ensures Render(fmt, i, args, k) == "\0"
  {
    hide DirectiveAt, DirectiveText, Separated, SpecOf, ArgumentsTaken, Stands, Render;
    var text := DirectiveText(d);
    StandsParts(fmt, i, "%", text);
    RestStands(fmt, i, "%");
    assert text + "" == text;
    DirectiveRead(fmt, i + 1, d, "", args, k);
    Stdio.RenderStep(fmt, i, args, k, "");
    NothingBefore(Render(fmt, i, args, k));
    var r := DirectiveAt(fmt, i + 1, args, k);
    Stdio.RenderStep(fmt, |fmt|, args, r.k, "\0");
    NothingBefore(Converted('\0', r.spec, args, r.k).0);
  }

  lemma NothingAfter(s: string)
    ensures s + "" == s
  {
  }

  lemma PlainInteger(w: nat, v: i64, args: VaList)
    requires -0x8000_0000 <= v < 0x8000_0000 && args.number(0) == v
    ensures var text := (if v < 0 then "-" else "") + Numeral(Abs(v), 10, false);
            Converted('d', PLAIN.(width := w), args, 0).0 == Repeat(' ', w - |text|) + text
  {
    hide Numeral, Repeat;
    NoZeros();
    Stdio.RepeatCount('0', -1 - |Numeral(Abs(v), 10, false)|);
    NothingBefore(Numeral(Abs(v), 10, false));
    NothingAfter(if v < 0 then "-" else "");
  }

  /** `%<w>d` prints an `int` right-adjusted in at least `w` characters. */
  lemma PaddedInteger(w: nat, v: i64, args: VaList)
    requires w > 0 && -0x8000_0000 <= v < 0x8000_0000 && args.number(0) == v
    ensures var text := (if v < 0 then "-" else "") + Numeral(Abs(v), 10, false);
            Render("%" + Numeral(w, 10, false) + "d", 0, args, 0) == Repeat(' ', w - |text|) + text
  {
    hide Numeral, Repeat, Converted, Render;
    var width := Numeral(w, 10, false);
    var d := Directive("", Digits(width), Unlimited, "");
    NumeralDecimal(w);
    var fmt := "%" + width + "d";
    assert DirectiveText(d) == width;
    StandsWhole(fmt);
    assert fmt == "%" + DirectiveText(d) + ['d'] + "";
    assert AmountText(d.width) + PrecisionText(d.precision) + d.length + ([fmt[|fmt| - 1]] + "") == width + "d";
    assert PrecisionText(d.precision) + d.length + (['d'] + "") == "d" && d.length + (['d'] + "") == "d";
    ConversionRendered(fmt, 0, d, 'd', "", args, 0);
    var spec := PLAIN.(width := w);
    assert SpecOf(d, args, 0) == spec;
    Stdio.RenderStep(fmt, |fmt|, args, Converted('d', spec, args, 0).1, Converted('d', spec, args, 0).0);
    PlainInteger(w, v, args);
  }
}
