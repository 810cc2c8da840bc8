/**
 The printf family: characters go one by one into a bounded buffer, and the count goes on past its
 end (lib/libc_stdio.c:173-319, 501-512).
 */
module Stdio {
  import opened Bits
  import opened DivMod
  import opened Format

  /** What a buffer of the given size has room for, besides the terminating NUL. */
  function Room(size: nat): nat { if size == 0 then 0 else size - 1 }

  function Min(a: nat, b: nat): nat { if a < b then a else b }

  /** The buffer after the call: what fits of the text, a NUL, and the bytes that were there. */
  function Stored(text: string, size: nat, before: string): (r: string)
    requires size <= |before| || |text| < |before|
    ensures |r| == |before|
  {
    if size == 0 then before
    else text[..Min(|text|, Room(size))] + ['\0'] + before[Min(|text|, Room(size)) + 1..]
  }

  /** As much of the text as leaves room for a NUL, the NUL, and nothing else written. */
  lemma BufferHolds(text: string, size: nat, before: string)
    requires size <= |before| || |text| < |before|
    ensures var r := Stored(text, size, before); var n := if |text| < size then |text| else size - 1;
            && |r| == |before| && (size == 0 ==> r == before)
            && (size > 0 ==> n < |r| && r[..n] == text[..n] && r[n] == '\0' && r[n + 1..] == before[n + 1..])
  {
    hide Min, Room;
    if size > 0 {
      var n := if |text| < size then |text| else size - 1;
      RoomFor(|text|, size);
      var r := text[..n] + ['\0'] + before[n + 1..];
      assert r[..n] == text[..n] && r[n + 1..] == before[n + 1..];
    }
  }

  lemma RoomFor(n: nat, size: nat)
    requires size > 0
    ensures Min(n, Room(size)) == if n < size then n else size - 1
  {
  }

  /** The cursor that `out_char` moves: a buffer (or none), the room left in it, the running count. */
  class Sink {
    const buf: array?<char>
    const size: nat
    var pos: nat
    var left: nat
    var count: nat
    ghost var written: string
    ghost const before: string

    /** The stated size may exceed the buffer, as long as the text does not. */
    constructor (buf: array?<char>, size: nat)
      requires buf != null ==> size <= buf.Length || 0 < buf.Length
      ensures Valid() && written == "" && this.buf == buf && this.size == size
      ensures buf != null ==> before == buf[..]
    {
      this.buf, this.size := buf, size;
      this.before := if buf == null then "" else buf[..];
      pos, left, count, written := 0, size, 0, "";
    }

    /** The buffer holds as much of the text so far as it has room for; the rest of it is untouched. */
    ghost predicate Valid()
      reads this, buf
    {
      && count == |written|
      && (buf != null ==>
            && buf.Length == |before| && (size <= buf.Length || |written| < buf.Length)
            && pos == Min(|written|, Room(size)) && left == size - pos
            && buf[..] == written[..pos] + before[pos..])
    }

    method OutChar(c: char)
      requires Valid()
      requires buf != null && size > buf.Length ==> |written| + 1 < buf.Length
      modifies this`pos, this`left, this`count, this`written, buf
      ensures Valid() && written == old(written) + [c]
    {
      if buf != null {
        if left > 1 {
          buf[pos] := c;
          pos := pos + 1;
          left := left - 1;
        }
      }
      count := count + 1;
      written := written + [c];
    }

    /** `*p = '\0'`, if there is a buffer with room for it. */
    method Terminate()
      requires Valid()
      modifies buf
      ensures count == |written|
      ensures buf != null ==> (size <= |before| || |written| < |before|) && buf[..] == Stored(written, size, before)
    {
      if buf != null && size != 0 {
        buf[pos] := '\0';
      }
    }

    method OutMem(s: string)
      requires Valid()
      requires buf != null && size > buf.Length ==> |written| + |s| < buf.Length
      modifies this`pos, this`left, this`count, this`written, buf
      ensures Valid() && written == old(written) + s
    {
      var i := 0;
      while i < |s|
        invariant 0 <= i <= |s| && Valid() && written == old(written) + s[..i]
      {
        OutChar(s[i]);
        i := i + 1;
        assert s[..i] == s[..i - 1] + [s[i - 1]];
      }
      assert s[..i] == s;
    }

    method OutRepeat(c: char, n0: int)
      requires Valid()
      requires buf != null && size > buf.Length ==> |written| + |Repeat(c, n0)| < buf.Length
      modifies this`pos, this`left, this`count, this`written, buf
      ensures Valid() && written == old(written) + Repeat(c, n0)
    {
      var n := n0;
      assert old(written) + Repeat(c, 0) == old(written);
      while n > 0
        invariant Valid() && (n == n0 || 0 <= n < n0) && written == old(written) + Repeat(c, n0 - n)
      {
        OutChar(c);
        n := n - 1;
        assert Repeat(c, n0 - n) == Repeat(c, n0 - n - 1) + [c];
      }
      assert Repeat(c, n0 - n) == Repeat(c, n0);
    }

    /** `len` is the length of the part of the string that counts. */
    method OutPadded(s: string, len: int, width: int, leftAdjust: bool, pad: char)
      requires Valid() && 0 <= len <= |s|
      requires buf != null && size > buf.Length ==> |written| + len + |Repeat(pad, width - len)| < buf.Length
      modifies this`pos, this`left, this`count, this`written, buf
      ensures Valid()
      ensures written == old(written) + (if leftAdjust then s[..len] + Repeat(' ', width - len)
                                         else Repeat(pad, width - len) + s[..len])
    {
      hide Sink.Valid, Repeat;
      var padding := if width > len then width - len else 0;
      if !leftAdjust {
        OutRepeat(pad, padding);
      }
      OutMem(s[..len]);
      if leftAdjust {
        OutRepeat(' ', padding);
      }
      RepeatCount(' ', width - len);
      RepeatCount(pad, width - len);
    }

    /** `sign` is NUL when there is none. */
    method OutUintFmt(v: u64, base: nat, sign: char, upper: bool, prefix: string, spec: Spec)
      requires Valid() && IsBase(base)
      requires buf != null && size > buf.Length ==>
                 |written| + |Field(v, base, upper, SignText(sign), prefix, spec)| < buf.Length
      modifies this`pos, this`left, this`count, this`written, buf
      ensures Valid() && written == old(written) + Field(v, base, upper, SignText(sign), prefix, spec)
    {
      hide *;
      var digits := new char[32](_ => '\0');
      var ndigits := 0;
      ReversedNone();
      assert digits[..0] == "";
      if !(spec.precision == 0 && v == 0) {
        ndigits := UtoaRev(digits, v, base, upper);
      }
      var zeroes := if spec.precision > ndigits then spec.precision - ndigits else 0;
      var signLen := if sign != '\0' then 1 else 0;
      SignLength(sign);
      var total := signLen + |prefix| + zeroes + ndigits;
      var padCount := if spec.width > total then spec.width - total else 0;
      var pad := if spec.zero && !spec.left && spec.precision < 0 then '0' else ' ';
      FieldParts(v, base, upper, SignText(sign), prefix, spec, ndigits, zeroes, padCount);
      if pad == '0' {
        OutZeroPadded(sign, prefix, padCount, zeroes, digits, ndigits);
        return;
      }
      OutSpacePadded(sign, prefix, padCount, zeroes, digits, ndigits, spec.left);
    }

    /** The zeros of the padding go between the prefix and the number. */
    method OutZeroPadded(sign: char, prefix: string, padCount: nat, zeroes: nat, digits: array<char>, ndigits: nat)
      requires Valid() && ndigits <= digits.Length && digits != buf
      requires buf != null && size > buf.Length ==>
                 |written| + |SignText(sign)| + |prefix| + padCount + zeroes + ndigits < buf.Length
      modifies this`pos, this`left, this`count, this`written, buf
      ensures Valid()
      ensures written == old(written) + (SignText(sign) + prefix + Repeat('0', padCount) + Repeat('0', zeroes)
                                         + Reversed(digits[..ndigits]))
    {
      hide *;
      AppendFive(written, SignText(sign), prefix, Repeat('0', padCount), Repeat('0', zeroes), Reversed(digits[..ndigits]));
      OutSign(sign);
      OutMem(prefix);
      OutRepeat('0', padCount);
      OutRepeat('0', zeroes);
      OutReversed(digits, ndigits);
    }

    method OutSpacePadded(sign: char, prefix: string, padCount: nat, zeroes: nat, digits: array<char>, ndigits: nat,
                          leftAdjust: bool)
      requires Valid() && ndigits <= digits.Length && digits != buf
      requires buf != null && size > buf.Length ==>
                 |written| + |SignText(sign)| + |prefix| + padCount + zeroes + ndigits < buf.Length
      modifies this`pos, this`left, this`count, this`written, buf
      ensures Valid()
      ensures written == old(written) + ((if leftAdjust then "" else Repeat(' ', padCount))
                                         + SignText(sign) + prefix + Repeat('0', zeroes) + Reversed(digits[..ndigits])
                                         + (if leftAdjust then Repeat(' ', padCount) else ""))
    {
      hide *;
      AppendSix(written, if leftAdjust then "" else Repeat(' ', padCount), SignText(sign), prefix, Repeat('0', zeroes),
                Reversed(digits[..ndigits]), if leftAdjust then Repeat(' ', padCount) else "");
      if !leftAdjust {
        OutRepeat(' ', padCount);
      }
      OutSign(sign);
      OutMem(prefix);
      OutRepeat('0', zeroes);
      OutReversed(digits, ndigits);
      if leftAdjust {
        OutRepeat(' ', padCount);
      }
    }

    method OutSign(sign: char)
      requires Valid()
      requires buf != null && size > buf.Length ==> |written| + |SignText(sign)| < buf.Length
      modifies this`pos, this`left, this`count, this`written, buf
      ensures Valid() && written == old(written) + SignText(sign)
    {
      if sign != '\0' {
        OutChar(sign);
      }
    }

    /** `while (n-- > 0) out_char(digits[n])`. */
    method OutReversed(digits: array<char>, n0: nat)
      requires Valid() && n0 <= digits.Length && digits != buf
      requires buf != null && size > buf.Length ==> |written| + n0 < buf.Length
      modifies this`pos, this`left, this`count, this`written, buf
      ensures Valid() && written == old(written) + Reversed(digits[..n0])
    {
      hide Sink.Valid, Reversed;
      ghost var all := digits[..n0];
      var n := n0;
      assert digits[n0..n0] == "";
      ReversedNone();
      while n > 0
        invariant 0 <= n <= n0 && Valid() && digits[..n0] == all
        invariant written == old(written) + Reversed(all[n..])
      {
        n := n - 1;
        OutChar(digits[n]);
        ReversedHead(all[n..]);
        assert all[n..][1..] == all[n + 1..];
      }
      assert all[0..] == all;
    }
  }

  function SignText(sign: char): string { if sign == '\0' then "" else [sign] }

  lemma SignLength(sign: char)
    ensures |SignText(sign)| == if sign == '\0' then 0 else 1
  {
  }

  lemma AppendFive(o: string, a: string, b: string, c: string, d: string, e: string)
    ensures o + (a + b + c + d + e) == o + a + b + c + d + e
  {
  }

  lemma AppendSix(o: string, a: string, b: string, c: string, d: string, e: string, f: string)
    ensures o + (a + b + c + d + e + f) == o + a + b + c + d + e + f
    ensures a == "" ==> o + a == o
    ensures f == "" ==> o + a + b + c + d + e + f == o + a + b + c + d + e
  {
  }

  lemma ReversedHead(s: string)
    requires s != ""
    ensures Reversed(s) == Reversed(s[1..]) + [s[0]]
  {
  }

  /** The field, piece by piece, in the order it is written. */
  lemma FieldParts(v: nat, base: nat, upper: bool, sign: string, prefix: string, spec: Spec,
                   ndigits: nat, zeroes: nat, padCount: nat)
    requires IsBase(base)
    requires var digits := if spec.precision == 0 && v == 0 then "" else Numeral(v, base, upper);
             && ndigits == |digits| && zeroes == (if spec.precision > ndigits then spec.precision - ndigits else 0)
             && padCount == (if spec.width > |sign| + |prefix| + zeroes + ndigits
                             then spec.width - (|sign| + |prefix| + zeroes + ndigits) else 0)
    ensures var digits := if spec.precision == 0 && v == 0 then "" else Numeral(v, base, upper);
            Field(v, base, upper, sign, prefix, spec) ==
            if spec.zero && !spec.left && spec.precision < 0
            then sign + prefix + Repeat('0', padCount) + Repeat('0', zeroes) + digits
            else (if spec.left then "" else Repeat(' ', padCount))
                 + sign + prefix + Repeat('0', zeroes) + digits
                 + (if spec.left then Repeat(' ', padCount) else "")
  {
    hide Numeral, Repeat, Field;
    var digits := if spec.precision == 0 && v == 0 then "" else Numeral(v, base, upper);
    RepeatCount('0', spec.precision - ndigits);
    var zs := Repeat('0', zeroes);
    var total := |sign| + |prefix| + zeroes + ndigits;
    RepeatCount('0', spec.width - total);
    RepeatCount(' ', spec.width - total);
    FieldOf(v, base, upper, sign, prefix, spec, digits, zs);
    Regrouped(sign, prefix, Repeat('0', padCount), zs, digits);
    Regrouped("", sign, prefix, zs, digits);
    Regrouped(Repeat(' ', padCount), sign, prefix, zs, digits);
  }

  lemma FieldOf(v: nat, base: nat, upper: bool, sign: string, prefix: string, spec: Spec, digits: string, zs: string)
    requires IsBase(base) && digits == if spec.precision == 0 && v == 0 then "" else Numeral(v, base, upper)
    requires zs == Repeat('0', spec.precision - |digits|)
    ensures var all, rest := sign + prefix + (zs + digits), spec.width - (|sign| + |prefix| + |zs| + |digits|);
            Field(v, base, upper, sign, prefix, spec)
            == if spec.zero && !spec.left && spec.precision < 0 then sign + prefix + Repeat('0', rest) + (zs + digits)
               else if spec.left then all + Repeat(' ', rest) else Repeat(' ', rest) + all
  {
    hide Numeral, Repeat;
    var all := sign + prefix + (zs + digits);
    assert |all| == |sign| + |prefix| + |zs| + |digits|;
  }

  lemma Regrouped(a: string, b: string, c: string, d: string, e: string)
    ensures a + b + c + (d + e) == a + b + c + d + e
    ensures a + (b + c + (d + e)) == a + b + c + d + e
    ensures a == "" ==> a + b + c + d + e == b + c + d + e
    ensures b + c + (d + e) + a == b + c + d + e + a
  {
  }

  lemma RepeatCount(c: char, n: int)
    ensures Repeat(c, if n > 0 then n else 0) == Repeat(c, n)
  {
  }

  // ----- numerals

  function Reversed(s: string): (r: string)
    ensures |r| == |s|
  {
    if s == "" then "" else Reversed(s[1..]) + [s[0]]
  }

  lemma ReversedNone()
    ensures Reversed("") == ""
  {
  }

  lemma {:induction false} ReversedSnoc(s: string, c: char)
    ensures Reversed(s + [c]) == [c] + Reversed(s)
    decreases |s|
  {
    if s == "" {
      assert s + [c] == [c];
      assert Reversed([c]) == Reversed("") + [c];
    } else {
      assert (s + [c])[1..] == s[1..] + [c];
      ReversedSnoc(s[1..], c);
    }
  }

  /** A 64-bit value has at most 22 digits. */
  lemma {:induction false} NumeralLength(v: nat, base: nat, upper: bool, n: nat)
    requires IsBase(base) && n > 0 && v < Pow2(3 * n)
    ensures |Numeral(v, base, upper)| <= n
    decreases n
  {
    assert Pow2(3) == 8;
    if v >= base {
      if n > 1 {
        Pow2Add(3, 3 * (n - 1));
        Shrinks(v, base);
        NumeralLength(v / base, base, upper, n - 1);
      }
    }
  }

  lemma Shrinks(v: nat, base: nat)
    requires IsBase(base)
    ensures 0 <= v / base <= v / 8 <= v && 0 <= v % base < base <= 16 && (v / base == 0 <==> v < base)
    ensures v > 0 ==> v / base < v
  {
  }

  /** One round of the digit loop. */
  lemma DigitRound(v: nat, base: nat, upper: bool, done: string)
    requires IsBase(base)
    ensures var q, d := v / base, v % base;
            && 0 <= d < 16 && 0 <= q <= v && (v > 0 ==> q < v)
            && Numeral(v, base, upper) + Reversed(done)
               == (if q == 0 then "" else Numeral(q, base, upper)) + Reversed(done + [Digit(d, upper)])
  {
    hide *;
    Shrinks(v, base);
    NumeralStep(v, base, upper);
    var q, d := v / base, v % base;
    var c, head := Digit(d, upper), if q == 0 then "" else Numeral(q, base, upper);
    ReversedSnoc(done, c);
    assert head + [c] + Reversed(done) == head + ([c] + Reversed(done));
  }

  lemma NumeralStep(v: nat, base: nat, upper: bool)
    requires IsBase(base)
    ensures 0 <= v / base && 0 <= v % base < 16
    ensures Numeral(v, base, upper)
         == (if v / base == 0 then "" else Numeral(v / base, base, upper)) + [Digit(v % base, upper)]
  {
    hide Digit;
    Shrinks(v, base);
  }

  lemma WholeLength(v: u64, base: nat, upper: bool)
    requires IsBase(base)
    ensures |Numeral(v, base, upper)| <= 22
  {
    Pow2Values();
    assert Pow2(66) == 4 * Pow2(64);
    NumeralLength(v, base, upper, 22);
  }

  /** The digits come out last one first. */
  method UtoaRev(tmp: array<char>, v0: u64, base: nat, upper: bool) returns (n: nat)
    requires IsBase(base) && tmp.Length == 32
    modifies tmp
    ensures n <= 32 && Reversed(tmp[..n]) == Numeral(v0, base, upper)
  {
    hide Numeral, Digit, Reversed, Pow2;
    n := 0;
    var v: nat := v0;
    WholeLength(v0, base, upper);
    ghost var whole := Numeral(v0, base, upper);
    assert tmp[..n] == "";
    ReversedNone();
    while true
      invariant n < |whole| && Numeral(v, base, upper) + Reversed(tmp[..n]) == whole
      decreases v
    {
      ghost var done := tmp[..n];
      DigitRound(v, base, upper, done);
      var d := v % base;
      tmp[n] := Digit(d, upper);
      n := n + 1;
      assert tmp[..n] == done + [Digit(d, upper)];
      v := v / base;
      if v == 0 {
        break;
      }
    }
  }

  // ----- directives

  /** The run of flags at `i0`. */
  method ReadFlags(fmt: string, i0: nat) returns (spec: Spec, i: nat)
    requires i0 <= |fmt|
    ensures (spec, i) == FlagsAt(fmt, i0, PLAIN)
  {
    spec, i := PLAIN, i0;
    while i < |fmt| && IsFlag(fmt[i])
      invariant i0 <= i <= |fmt| && FlagsAt(fmt, i, spec) == FlagsAt(fmt, i0, PLAIN)
    {
      if fmt[i] == '-' {
        spec := spec.(left := true);
      } else if fmt[i] == '0' {
        spec := spec.(zero := true);
      } else if fmt[i] == '#' {
        spec := spec.(alt := true);
      } else if fmt[i] == '+' {
        spec := spec.(plus := true);
      } else if fmt[i] == ' ' {
        spec := spec.(space := true);
      }
      i := i + 1;
    }
  }

  method ReadNumber(fmt: string, i0: nat) returns (n: int, i: nat)
    requires i0 <= |fmt|
    ensures (n, i) == NumberAt(fmt, i0, 0)
  {
    n, i := 0, i0;
    while i < |fmt| && IsDigitChar(fmt[i])
      invariant i0 <= i <= |fmt| && NumberAt(fmt, i, n) == NumberAt(fmt, i0, 0)
    {
      n := n * 10 + (fmt[i] as int - '0' as int);
      i := i + 1;
    }
  }

  method ReadWidth(fmt: string, r0: Reading, args: VaList) returns (r: Reading)
    requires r0.i <= |fmt|
    ensures r == WidthAt(fmt, r0, args)
  {
    r := r0;
    if At(fmt, r.i) == '*' {
      var width: int := SignedArg(args, r.k, 0);
      if width < 0 {
        r := r.(spec := r.spec.(left := true));
        width := -width;
      }
      r := Reading(r.spec.(width := width), r.i + 1, r.k + 1);
    } else {
      var width, i := ReadNumber(fmt, r.i);
      r := r.(spec := r.spec.(width := width), i := i);
    }
  }

  method ReadPrecision(fmt: string, r0: Reading, args: VaList) returns (r: Reading)
    requires r0.i <= |fmt|
    ensures r == PrecisionAt(fmt, r0, args)
  {
    r := r0;
    if At(fmt, r.i) == '.' {
      r := r.(spec := r.spec.(precision := 0), i := r.i + 1);
      if At(fmt, r.i) == '*' {
        r := Reading(r.spec.(precision := SignedArg(args, r.k, 0)), r.i + 1, r.k + 1);
      } else {
        var precision, i := ReadNumber(fmt, r.i);
        r := r.(spec := r.spec.(precision := precision), i := i);
      }
    }
  }

  method ReadLength(fmt: string, r0: Reading) returns (r: Reading)
    requires r0.i <= |fmt|
    ensures r == LengthAt(fmt, r0)
  {
    r := r0;
    if At(fmt, r.i) == 'l' {
      r := r.(spec := r.spec.(length := 1), i := r.i + 1);
      if At(fmt, r.i) == 'l' {
        r := r.(spec := r.spec.(length := 2), i := r.i + 1);
      }
    } else if At(fmt, r.i) == 'z' {
      r := r.(spec := r.spec.(length := 1), i := r.i + 1);
    }
  }

  /** Flags, width, precision and length of the directive whose percent sign stands before `i`. */
  method ReadDirective(fmt: string, i: nat, args: VaList, k: nat) returns (r: Reading)
    requires i <= |fmt|
    ensures r == DirectiveAt(fmt, i, args, k)
  {
    var spec, j := ReadFlags(fmt, i);
    r := ReadWidth(fmt, Reading(spec, j, k), args);
    r := ReadPrecision(fmt, r, args);
    r := ReadLength(fmt, r);
  }

  /** `v < 0 ? (unsigned long long)-v : (unsigned long long)v`, the negation wrapping. */
  lemma Magnitude(v: i64)
    ensures (if v < 0 then Wrap64(0 - (v as int)) else Wrap64(v)) == Abs(v)
  {
  }

  /** What a conversion prints, case by case. */
  lemma ConvertedText(c: char, spec: Spec, args: VaList, k: nat)
    ensures c == 's' ==>
              var t := args.text(k);
              var s := if t.Missing? then "(null)" else t.s;
              var len := if 0 <= spec.precision < |s| then spec.precision else |s|;
              Converted(c, spec, args, k) == (if spec.left then s[..len] + Repeat(' ', spec.width - len)
                                              else Repeat(' ', spec.width - len) + s[..len], 1)
    ensures c == 'c' ==>
              var s := [(args.number(k) % 256) as char];
              Converted(c, spec, args, k) == (if spec.left then s + Repeat(' ', spec.width - 1)
                                              else Repeat(' ', spec.width - 1) + s, 1)
    ensures c == 'd' || c == 'i' ==>
              var v := SignedArg(args, k, spec.length);
              Converted(c, spec, args, k) == (Field(Abs(v), 10, false, SignOf(v, spec), "", spec), 1)
    ensures IsUnsigned(c) ==>
              var v := UnsignedArg(args, k, spec.length);
              Converted(c, spec, args, k) == (Field(v, BaseOf(c), c == 'X', "", PrefixOf(v, c, spec), spec), 1)
    ensures c == 'p' ==>
              Converted(c, spec, args, k)
              == (Field(UnsignedArg(args, k, 1), 16, false, "", "0x",
                        spec.(width := if spec.width != 0 then spec.width else 1)), 1)
    ensures c !in {'s', 'c', 'd', 'i', 'p'} && !IsUnsigned(c) ==> Converted(c, spec, args, k) == ([c], 0)
  {
    hide Field, Repeat, SignedArg, UnsignedArg, SignOf, PrefixOf;
    if c == 's' {
      var t := args.text(k);
      var s := if t.Missing? then "(null)" else t.s;
      assert s[..|s|] == s;
    }
  }

  /** One conversion; `k` is the argument it takes, if any. */
  method Convert(sink: Sink, c: char, spec: Spec, args: VaList, k0: nat) returns (k: nat)
    requires sink.Valid()
    requires sink.buf != null && sink.size > sink.buf.Length ==>
               |sink.written| + |Converted(c, spec, args, k0).0| < sink.buf.Length
    modifies sink`pos, sink`left, sink`count, sink`written, sink.buf
    ensures sink.Valid() && sink.written == old(sink.written) + Converted(c, spec, args, k0).0
    ensures k == k0 + Converted(c, spec, args, k0).1
  {
    hide Sink.Valid, Field, Repeat, SignedArg, UnsignedArg, Converted;
    ConvertedText(c, spec, args, k0);
    k := k0;
    if c == 's' {
      var t := args.text(k);
      var s: string := if t.Missing? then "(null)" else t.s;
      var len := |s|;
      if spec.precision >= 0 && spec.precision < len {
        len := spec.precision;
      }
      sink.OutPadded(s, len, spec.width, spec.left, ' ');
      k := k + 1;
    } else if c == 'c' {
      var ch := (args.number(k) % 256) as char;
      sink.OutPadded([ch], 1, spec.width, spec.left, ' ');
      k := k + 1;
    } else if c == 'd' || c == 'i' {
      var v := SignedArg(args, k, spec.length);
      var sign := if v < 0 then '-' else if spec.plus then '+' else if spec.space then ' ' else '\0';
      Magnitude(v);
      sink.OutUintFmt(if v < 0 then Wrap64(0 - (v as int)) else Wrap64(v), 10, sign, false, "", spec);
      k := k + 1;
    } else if IsUnsigned(c) {
      var base := if c == 'o' then 8 else if c == 'u' then 10 else 16;
      var upper := c == 'X';
      var v := UnsignedArg(args, k, spec.length);
      var prefix := "";
      if spec.alt && v != 0 && (c == 'x' || c == 'X') {
        prefix := if upper then "0X" else "0x";
      } else if spec.alt && v != 0 && c == 'o' {
        prefix := "0";
      }
      sink.OutUintFmt(v, base, '\0', upper, prefix, spec);
      k := k + 1;
    } else if c == 'p' {
      var v := UnsignedArg(args, k, 1);
      sink.OutUintFmt(v, 16, '\0', false, "0x", spec.(width := if spec.width != 0 then spec.width else 1));
      k := k + 1;
    } else {
      sink.OutChar(c);
    }
  }

  /** The count is the length of the whole text, whatever the buffer holds. */
  method Vsnprintf(str: array?<char>, size: nat, fmt: string, args: VaList) returns (count: nat)
    requires IsCString(fmt) && (str != null ==> size <= str.Length || |Render(fmt, 0, args, 0)| < str.Length)
    modifies str
    ensures count == |Render(fmt, 0, args, 0)|
    ensures str != null ==> str[..] == Stored(Render(fmt, 0, args, 0), size, old(str[..]))
  {
    hide *;
    ghost var before := if str == null then "" else str[..];
    var sink := new Sink(str, size);
    var i, k := 0, 0;
    ghost var whole := Render(fmt, 0, args, 0);
    StartOf(whole);
    while i < |fmt|
      invariant 0 <= i <= |fmt| && sink.Valid() && sink.written + Render(fmt, i, args, k) == whole
    {
      RenderStep(fmt, i, args, k, sink.written);
      if fmt[i] != '%' {
        sink.OutChar(fmt[i]);
        i := i + 1;
        continue;
      }
      i := i + 1;
      var r := ReadDirective(fmt, i, args, k);
      i, k := r.i, r.k;
      k := Convert(sink, At(fmt, i), r.spec, args, k);
      if i < |fmt| {
        i := i + 1;
      }
    }
    RenderStep(fmt, i, args, k, sink.written);
    sink.Terminate();
    count := sink.count;
  }

  /** `sprintf` states the largest size there is, whatever the buffer's. */
  method Sprintf(str: array<char>, fmt: string, args: VaList) returns (count: nat)
    requires IsCString(fmt) && |Render(fmt, 0, args, 0)| < str.Length && str.Length <= 0xFFFF_FFFF
    modifies str
    ensures var text := Render(fmt, 0, args, 0);
            count == |text| && str[..] == text + ['\0'] + old(str[..])[|text| + 1..]
  {
    hide Render;
    count := Vsnprintf(str, 0xFFFF_FFFF, fmt, args);
  }

  lemma StartOf(s: string)
    ensures "" + s == s
  {
  }

  /** One step of the rendering, after what is already written. */
  lemma RenderStep(fmt: string, i: nat, args: VaList, k: nat, o: string)
    requires i <= |fmt|
    ensures i == |fmt| ==> o + Render(fmt, i, args, k) == o
    ensures i < |fmt| && fmt[i] != '%' ==> o + Render(fmt, i, args, k) == (o + [fmt[i]]) + Render(fmt, i + 1, args, k)
    ensures i < |fmt| && fmt[i] == '%' ==>
              var r := DirectiveAt(fmt, i + 1, args, k);
              var (text, taken) := Converted(At(fmt, r.i), r.spec, args, r.k);
              && i < r.i <= |fmt|
              && o + Render(fmt, i, args, k)
                 == (o + text) + Render(fmt, if r.i < |fmt| then r.i + 1 else r.i, args, r.k + taken)
  {
    hide DirectiveAt, Converted;
  }

  /** Two passes: one that only counts, and one into a buffer of exactly that size. */
  method Vasprintf(fmt: string, args: VaList, allocates: bool) returns (n: int, s: array?<char>)
    requires IsCString(fmt)
    ensures s == null || fresh(s)
    ensures if allocates then n == |Render(fmt, 0, args, 0)| && s != null && s[..] == Render(fmt, 0, args, 0) + ['\0']
            else n == -1 && s == null
  {
    n := Vsnprintf(null, 0, fmt, args);
    if !allocates {
      return -1, null;
    }
    s := new char[n + 1](_ => '\0');
    n := Vsnprintf(s, n + 1, fmt, args);
  }
}
