/**
 What a printf format and its arguments stand for, as text (lib/libc_stdio.c:174-319).
 */
module Format {
  import opened Bits
  import opened DivMod

  // ----- C strings and argument lists

  /** A C string: the byte after the last one is NUL. */
  function At(s: string, i: nat): char {
    if i < |s| then s[i] else '\0'
  }

  predicate IsCString(s: string) {
    forall c <- s :: c != '\0'
  }

  type CString = s: string | IsCString(s)

  datatype Text = Missing | Given(s: CString)

  /** The k-th argument, as the type the conversion asks for. */
  datatype VaList = VaList(number: nat -> i64, text: nat -> Text)

  /** `int` and `long` are 32 bits wide. */
  function SignedArg(args: VaList, k: nat, length: int): i64 {
    var v: int := args.number(k);
    if length == 2 then v
    else
      var low := Wrap32(v);
      if low < 0x8000_0000 then low else low - 0x1_0000_0000
  }

  function UnsignedArg(args: VaList, k: nat, length: int): u64 {
    var v: int := args.number(k);
    if length == 2 then Wrap64(v) else Wrap32(v)
  }

  // ----- numerals

  predicate IsBase(base: nat) { base == 8 || base == 10 || base == 16 }

  function Digit(d: nat, upper: bool): char
    requires d < 16
  {
    if d < 10 then '0' + d as char else (if upper then 'A' else 'a') + (d - 10) as char
  }

  /** The numeral of a value, most significant digit first. */
  function Numeral(v: nat, base: nat, upper: bool): (s: string)
    requires IsBase(base)
    ensures s != []
    decreases v
  {
    if v < base then [Digit(v, upper)] else Numeral(v / base, base, upper) + [Digit(v % base, upper)]
  }

  function Repeat(c: char, n: int): (s: string)
    ensures |s| == if n > 0 then n else 0
  {
    seq(if n > 0 then n else 0, _ => c)
  }

  // ----- directives

  datatype Spec = Spec(left: bool, zero: bool, alt: bool, plus: bool, space: bool,
                       width: int, precision: int, length: int)

  const PLAIN := Spec(false, false, false, false, false, 0, -1, 0)

  predicate IsFlag(c: char) { c == '-' || c == '+' || c == ' ' || c == '#' || c == '0' }

  predicate IsDigitChar(c: char) { '0' <= c <= '9' }

  function WithFlag(s: Spec, c: char): Spec {
    if c == '-' then s.(left := true)
    else if c == '0' then s.(zero := true)
    else if c == '#' then s.(alt := true)
    else if c == '+' then s.(plus := true)
    else s.(space := true)
  }

  function FlagsAt(fmt: string, i: nat, s: Spec): (r: (Spec, nat))
    requires i <= |fmt|
    ensures i <= r.1 <= |fmt|
    decreases |fmt| - i
  {
    if i < |fmt| && IsFlag(fmt[i]) then FlagsAt(fmt, i + 1, WithFlag(s, fmt[i])) else (s, i)
  }

  function NumberAt(fmt: string, i: nat, n: int): (r: (int, nat))
    requires i <= |fmt|
    ensures i <= r.1 <= |fmt|
    decreases |fmt| - i
  {
    if i < |fmt| && IsDigitChar(fmt[i]) then NumberAt(fmt, i + 1, n * 10 + (fmt[i] as int - '0' as int)) else (n, i)
  }

  /** A directive under way: what it says so far, the rest of the format, the next argument. */
  datatype Reading = Reading(spec: Spec, i: nat, k: nat)

  function WidthAt(fmt: string, r: Reading, args: VaList): (r': Reading)
    requires r.i <= |fmt|
    ensures r.i <= r'.i <= |fmt|
  {
    if At(fmt, r.i) == '*' then
      var w := SignedArg(args, r.k, 0);
      Reading(if w < 0 then r.spec.(left := true, width := -(w as int)) else r.spec.(width := w), r.i + 1, r.k + 1)
    else
      var (n, i) := NumberAt(fmt, r.i, 0);
      r.(spec := r.spec.(width := n), i := i)
  }

  function PrecisionAt(fmt: string, r: Reading, args: VaList): (r': Reading)
    requires r.i <= |fmt|
    ensures r.i <= r'.i <= |fmt|
  {
    if At(fmt, r.i) != '.' then r
    else if At(fmt, r.i + 1) == '*' then
      Reading(r.spec.(precision := SignedArg(args, r.k, 0)), r.i + 2, r.k + 1)
    else
      var (n, i) := NumberAt(fmt, r.i + 1, 0);
      r.(spec := r.spec.(precision := n), i := i)
  }

  function LengthAt(fmt: string, r: Reading): (r': Reading)
    requires r.i <= |fmt|
    ensures r.i <= r'.i <= |fmt|
  {
    if At(fmt, r.i) == 'l' then
      if At(fmt, r.i + 1) == 'l' then r.(spec := r.spec.(length := 2), i := r.i + 2)
      else r.(spec := r.spec.(length := 1), i := r.i + 1)
    else if At(fmt, r.i) == 'z' then r.(spec := r.spec.(length := 1), i := r.i + 1)
    else r
  }

  /** Everything between the percent sign and the conversion character. */
  function DirectiveAt(fmt: string, i: nat, args: VaList, k: nat): (r: Reading)
    requires i <= |fmt|
    ensures i <= r.i <= |fmt|
  {
    var (s, j) := FlagsAt(fmt, i, PLAIN);
    LengthAt(fmt, PrecisionAt(fmt, WidthAt(fmt, Reading(s, j, k), args), args))
  }

  // ----- conversions

  function Padded(s: string, spec: Spec): string {
    var pad := Repeat(' ', spec.width - |s|);
    if spec.left then s + pad else pad + s
  }

  /** A number: its sign, its prefix, zeros up to the precision, its digits, padded to the width. */
  function Field(v: nat, base: nat, upper: bool, sign: string, prefix: string, spec: Spec): string
    requires IsBase(base)
  {
    var digits := if spec.precision == 0 && v == 0 then "" else Numeral(v, base, upper);
    var number := Repeat('0', spec.precision - |digits|) + digits;
    var all := sign + prefix + number;
    if spec.zero && !spec.left && spec.precision < 0
    then sign + prefix + Repeat('0', spec.width - |all|) + number
    else Padded(all, spec)
  }

  function SignOf(v: i64, spec: Spec): string {
    if v < 0 then "-" else if spec.plus then "+" else if spec.space then " " else ""
  }

  function PrefixOf(v: u64, c: char, spec: Spec): string {
    if !spec.alt || v == 0 then "" else if c == 'x' then "0x" else if c == 'X' then "0X" else if c == 'o' then "0" else ""
  }

  predicate IsUnsigned(c: char) { c == 'u' || c == 'x' || c == 'X' || c == 'o' }

  function BaseOf(c: char): nat { if c == 'o' then 8 else if c == 'u' then 10 else 16 }

  function StringText(t: Text, spec: Spec): string {
    var s: string := if t.Missing? then "(null)" else t.s;
    Padded(if 0 <= spec.precision < |s| then s[..spec.precision] else s, spec)
  }

  /** The text of one conversion, and how many arguments it takes. */
  function Converted(c: char, spec: Spec, args: VaList, k: nat): (string, nat) {
    if c == 's' then (StringText(args.text(k), spec), 1)
    else if c == 'c' then (Padded([(args.number(k) % 256) as char], spec), 1)
    else if c == 'd' || c == 'i' then
      var v := SignedArg(args, k, spec.length);
      (Field(Abs(v), 10, false, SignOf(v, spec), "", spec), 1)
    else if IsUnsigned(c) then
      var v := UnsignedArg(args, k, spec.length);
      (Field(v, BaseOf(c), c == 'X', "", PrefixOf(v, c, spec), spec), 1)
    else if c == 'p' then
      (Field(UnsignedArg(args, k, 1), 16, false, "", "0x", spec.(width := if spec.width != 0 then spec.width else 1)), 1)
    else ([c], 0)
  }

  /** The whole output, without any bound. */
  function Render(fmt: string, i: nat, args: VaList, k: nat): string
    requires i <= |fmt|
    decreases |fmt| - i
  {
    if i == |fmt| then ""
    else if fmt[i] != '%' then [fmt[i]] + Render(fmt, i + 1, args, k)
    else
      var r := DirectiveAt(fmt, i + 1, args, k);
      var (text, taken) := Converted(At(fmt, r.i), r.spec, args, r.k);
      text + Render(fmt, if r.i < |fmt| then r.i + 1 else r.i, args, r.k + taken)
  }
}
