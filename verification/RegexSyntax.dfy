/**
 The pattern syntax, basic and extended: expressions, and a parser for every pattern the compiler
 reads, with its error codes (lib/libc_regex.c:120-476, 506-583, 631-720).
 */
module RegexSyntax {
  import opened Maybe
  import opened RegexVm

  // ----- expressions

  /** `Loop(min)` is `*` or `{min,}`. */
  datatype Quant = Once | Plus | Repeat(min: nat, max: nat) | Loop(min: nat)

  /** What an anchor asks of a position. */
  datatype Edge = LineStart | LineEnd | Boundary | NoBoundary

  datatype Atom =
    | Lit(c: byte)
    | Dot
    | Set(s: set<byte>)
    | Anchor(edge: Edge)
    | Group(body: Re)
    | Capture(inner: Atom)
    | Choice(first: Re, others: Alts)

  datatype Re = Empty | Cons(atom: Atom, quant: Quant, rest: Re)

  /** The branches of an alternation after the first. */
  datatype Alts = Last(re: Re) | More(re: Re, more: Alts)

  predicate QuantOk(q: Quant) {
    q.Repeat? ==> q.min <= q.max
  }

  predicate ReOk(re: Re) {
    re.Cons? ==> AtomOk(re.atom) && QuantOk(re.quant) && ReOk(re.rest)
  }

  predicate AtomOk(a: Atom) {
    && (a.Group? ==> ReOk(a.body))
    && (a.Capture? ==> AtomOk(a.inner))
    && (a.Choice? ==> ReOk(a.first) && AltsOk(a.others))
  }

  predicate AltsOk(alts: Alts) {
    ReOk(alts.re) && (alts.More? ==> AltsOk(alts.more))
  }

  function B(c: char): byte { c as int % 256 }

  function Bytes(s: string): seq<byte> {
    seq(|s|, i requires 0 <= i < |s| => B(s[i]))
  }

  /** A C string: the byte after the last one is NUL. */
  function At(pattern: seq<byte>, i: nat): byte {
    if i < |pattern| then pattern[i] else 0
  }

  predicate IsDigit(c: byte) { B('0') <= c <= B('9') }

  // ----- escapes and bracket sets

  function EscapeValue(c: byte): byte {
    if c == B('n') then 10
    else if c == B('t') then 9
    else if c == B('r') then 13
    else if c == B('f') then 12
    else if c == B('v') then 11
    else if c == B('a') then 7
    else if c == B('0') then 0
    else c
  }

  /** One byte, with its backslash if there is one; nothing after a trailing backslash. */
  function EscapeAt(pattern: seq<byte>, p: nat): (r: Option<(byte, nat)>)
    requires p < |pattern|
    ensures r.Some? ==> p < r.value.1 <= |pattern|
  {
    if pattern[p] != B('\\') then Some((pattern[p], p + 1))
    else if At(pattern, p + 1) == 0 then None
    else Some((EscapeValue(pattern[p + 1]), p + 2))
  }

  predicate Between(c: byte, first: byte, last: byte) { first <= c <= last }

  function Range(first: byte, last: byte): set<byte> {
    set c: byte | Between(c, first, last)
  }

  const CLASSES: seq<(string, char, char)> := [
    ("alpha:", 'a', 'z'), ("alpha:", 'A', 'Z'), ("digit:", '0', '9'), ("lower:", 'a', 'z'), ("upper:", 'A', 'Z'),
    ("space:", '\t', '\r'), ("space:", ' ', ' '), ("blank:", '\t', '\t'), ("blank:", ' ', ' '), ("punct:", '!', '/'),
    ("punct:", ':', '@'), ("punct:", '[', '`'), ("punct:", '{', '~'), ("cntrl:", '\0', '\U{1F}'),
    ("cntrl:", '\U{7F}', '\U{7F}'), ("xdigit:", '0', '9'), ("xdigit:", 'A', 'F'), ("xdigit:", 'a', 'f'),
    ("alnum:", '0', '9'), ("alnum:", 'A', 'Z'), ("alnum:", 'a', 'z'), ("print:", ' ', '~'), ("graph:", '!', '~')
  ]

  predicate HasName(pattern: seq<byte>, p: nat, name: string) {
    forall i :: 0 <= i < |name| ==> At(pattern, p + i) == B(name[i])
  }

  /** The first row of the table that the name at `p` matches. */
  function NamedRow(pattern: seq<byte>, p: nat, row: nat): (r: Option<(set<byte>, nat)>)
    requires row <= |CLASSES| && p <= |pattern|
    ensures r.Some? ==> p < r.value.1 <= |pattern|
    decreases |CLASSES| - row
  {
    if row == |CLASSES| then None
    else
      var (name, first, last) := CLASSES[row];
      if HasName(pattern, p, name) && At(pattern, p + |name|) == B(']')
      then Some((Range(B(first), B(last)), p + |name| + 1))
      else NamedRow(pattern, p, row + 1)
  }

  function NamedClassAt(pattern: seq<byte>, p: nat): (r: Option<(set<byte>, nat)>)
    requires p <= |pattern|
    ensures r.Some? ==> p < r.value.1 <= |pattern|
  {
    if At(pattern, p) == B('[') && At(pattern, p + 1) == B(':') then NamedRow(pattern, p + 2, 0) else None
  }

  datatype Parsed<T> = Ok(value: T, next: nat) | Fail(code: int)

  const REG_ECTYPE := 4
  const REG_EESCAPE := 5
  const REG_EBRACK := 7
  const REG_EPAREN := 8
  const REG_BADBR := 10
  const REG_ERANGE := 11

  /** The members of a bracket set from `p` on, added to `acc`; `next` is at the closing bracket or at the end. */
  function Members(pattern: seq<byte>, p: nat, acc: set<byte>): (r: Parsed<set<byte>>)
    requires p <= |pattern|
    ensures r.Ok? ==> p <= r.next <= |pattern|
    ensures r.Fail? ==> r.code > 0
    decreases |pattern| - p
  {
    if At(pattern, p) == 0 || At(pattern, p) == B(']') then Ok(acc, p)
    else if NamedClassAt(pattern, p).Some? then
      var (named, next) := NamedClassAt(pattern, p).value;
      Members(pattern, next, acc + named)
    else if At(pattern, p) == B('[') && At(pattern, p + 1) == B(':') then Fail(REG_ECTYPE)
    else match EscapeAt(pattern, p)
      case None => Fail(REG_EESCAPE)
      case Some((first, next)) =>
        if At(pattern, next) == B('-') && At(pattern, next + 1) != B(']') && At(pattern, next + 1) != 0 then
          match EscapeAt(pattern, next + 1)
          case None => Fail(REG_EESCAPE)
          case Some((last, after)) =>
            if last < first then Fail(REG_ERANGE) else Members(pattern, after, acc + Range(first, last))
        else Members(pattern, next, acc + {first})
  }

  /** A whole bracket set that starts at `p`. */
  function BracketAt(pattern: seq<byte>, p: nat): (r: Parsed<set<byte>>)
    requires p < |pattern|
    ensures r.Ok? ==> p < r.next <= |pattern|
    ensures r.Fail? ==> r.code > 0
  {
    var negated := At(pattern, p + 1) == B('^');
    var p1 := if negated then p + 2 else p + 1;
    var close := At(pattern, p1) == B(']');
    var p2 := if close then p1 + 1 else p1;
    match Members(pattern, p2, if close then {B(']')} else {})
    case Fail(code) => Fail(code)
    case Ok(s, next) =>
      if At(pattern, next) != B(']') then Fail(REG_EBRACK)
      else Ok(if negated then Range(0, 255) - s else s, next + 1)
  }

  // ----- intervals

  /** A run of digits, with the running value; past 10000 the interval is an error. */
  function Digits(pattern: seq<byte>, p: nat, value: nat): (r: Option<(nat, nat)>)
    requires p <= |pattern|
    ensures r.Some? ==> p <= r.value.1 <= |pattern|
    decreases |pattern| - p
  {
    if !IsDigit(At(pattern, p)) then Some((value, p))
    else
      var v: nat := value * 10 + (At(pattern, p) - B('0'));
      if v > 10000 then None else Digits(pattern, p + 1, v)
  }

  /** `m}`, `m,}` (no upper bound) or `m,n}`. */
  function IntervalAt(pattern: seq<byte>, p: nat): (r: Option<(nat, int, nat)>)
    requires p <= |pattern|
    ensures r.Some? ==> p < r.value.2 <= |pattern| && r.value.1 >= -1
  {
    match Digits(pattern, p, 0)
    case None => None
    case Some((min, p1)) =>
      if At(pattern, p1) == B(',') then
        if IsDigit(At(pattern, p1 + 1)) then
          match Digits(pattern, p1 + 1, 0)
          case None => None
          case Some((max, p2)) => if At(pattern, p2) == B('}') then Some((min, max, p2 + 1)) else None
        else if At(pattern, p1 + 1) == B('}') then Some((min, -1, p1 + 2)) else None
      else if At(pattern, p1) == B('}') then Some((min, min, p1 + 1)) else None
  }

  const SHORTHANDS := {B('w'), B('W'), B('s'), B('S'), B('d'), B('D')}

  /** The set of a shorthand. An upper-case letter names no set of its own, so its complement is everything. */
  function Shorthand(kind: byte): set<byte> {
    if kind == B('d') then Range(B('0'), B('9'))
    else if kind == B('w') then Range(B('0'), B('9')) + Range(B('a'), B('z')) + Range(B('A'), B('Z')) + {B('_')}
    else if kind == B('s') then {B(' '), B('\t'), B('\n'), B('\r'), 12, 11}
    else Range(0, 255)
  }

  // ----- what a delimiter is in either syntax

  predicate Escaped(pattern: seq<byte>, p: nat, c: byte) {
    At(pattern, p) == B('\\') && At(pattern, p + 1) == c
  }

  /** In the basic syntax an operator is written with a backslash, in the extended one without. */
  predicate OperatorAt(pattern: seq<byte>, p: nat, c: byte, extended: bool) {
    if extended then At(pattern, p) == c else Escaped(pattern, p, c)
  }

  function Width(extended: bool): nat {
    if extended then 1 else 2
  }

  predicate AltDelimiter(pattern: seq<byte>, p: nat, extended: bool) {
    OperatorAt(pattern, p, B('|'), extended)
  }

  predicate GroupClose(pattern: seq<byte>, p: nat, inGroup: bool, extended: bool) {
    inGroup && OperatorAt(pattern, p, B(')'), extended)
  }

  predicate SequenceEnds(pattern: seq<byte>, p: nat, inGroup: bool, extended: bool) {
    At(pattern, p) == 0 || AltDelimiter(pattern, p, extended) || GroupClose(pattern, p, inGroup, extended)
  }

  // ----- the parser

  /** Items up to a delimiter or the end. */
  function SequenceAt(pattern: seq<byte>, p: nat, inGroup: bool, extended: bool): (r: Parsed<Re>)
    requires p <= |pattern|
    ensures r.Ok? ==> p <= r.next <= |pattern| && ReOk(r.value) && SequenceEnds(pattern, r.next, inGroup, extended)
    ensures r.Fail? ==> r.code > 0
    decreases |pattern| - p, 1
  {
    if SequenceEnds(pattern, p, inGroup, extended) then Ok(Empty, p)
    else match AtomAt(pattern, p, extended)
      case Fail(code) => Fail(code)
      case Ok(a, p1) =>
        match QuantAt(pattern, p1, extended)
        case Fail(code) => Fail(code)
        case Ok(q, p2) =>
          match SequenceAt(pattern, p2, inGroup, extended)
          case Fail(code) => Fail(code)
          case Ok(rest, p3) => Ok(Cons(a, q, rest), p3)
  }

  /** One item without its quantifier. */
  function AtomAt(pattern: seq<byte>, p: nat, extended: bool): (r: Parsed<Atom>)
    requires p < |pattern|
    ensures r.Ok? ==> p < r.next <= |pattern| && AtomOk(r.value)
    ensures r.Fail? ==> r.code > 0
    decreases |pattern| - p, 0
  {
    var c, kind := pattern[p], At(pattern, p + 1);
    if c == B('^') then Ok(Anchor(LineStart), p + 1)
    else if c == B('$') then Ok(Anchor(LineEnd), p + 1)
    else if c == B('.') then Ok(Dot, p + 1)
    else if c == B('[') then
      match BracketAt(pattern, p)
      case Fail(code) => Fail(code)
      case Ok(s, next) => Ok(Set(s), next)
    else if OperatorAt(pattern, p, B('('), extended) then
      var bare := extended && kind == B('?') && At(pattern, p + 2) == B(':');
      var inside: nat := if bare then p + 3 else p + Width(extended);
      match AlternationAt(pattern, inside, true, extended)
      case Fail(code) => Fail(code)
      case Ok(a, next) =>
        if !OperatorAt(pattern, next, B(')'), extended) then Fail(REG_EPAREN)
        else Ok(if bare then a else Capture(a), next + Width(extended))
    else if c == B('\\') && kind in SHORTHANDS then Ok(Set(Shorthand(kind)), p + 2)
    else if c == B('\\') && kind == B('b') then Ok(Anchor(Boundary), p + 2)
    else if c == B('\\') && kind == B('B') then Ok(Anchor(NoBoundary), p + 2)
    else match EscapeAt(pattern, p)
      case None => Fail(REG_EESCAPE)
      case Some((ch, next)) => Ok(Lit(ch), next)
  }

  /** A sequence, or branches separated by delimiters. */
  function AlternationAt(pattern: seq<byte>, p: nat, inGroup: bool, extended: bool): (r: Parsed<Atom>)
    requires p <= |pattern|
    ensures r.Ok? ==> p <= r.next <= |pattern| && AtomOk(r.value)
    ensures r.Fail? ==> r.code > 0
    decreases |pattern| - p, 2
  {
    match SequenceAt(pattern, p, inGroup, extended)
    case Fail(code) => Fail(code)
    case Ok(first, p1) =>
      if !AltDelimiter(pattern, p1, extended) then Ok(Group(first), p1)
      else match BranchesAt(pattern, p1, inGroup, extended, 1)
        case Fail(code) => Fail(code)
        case Ok(others, p2) => Ok(Choice(first, others), p2)
  }

  const MAX_BRANCHES := 128

  /** The branches from a delimiter on, when `n` of them stand before it. */
  function BranchesAt(pattern: seq<byte>, p: nat, inGroup: bool, extended: bool, n: nat): (r: Parsed<Alts>)
    requires p < |pattern| && AltDelimiter(pattern, p, extended)
    ensures r.Ok? ==> p < r.next <= |pattern| && AltsOk(r.value)
    ensures r.Fail? ==> r.code > 0
    decreases |pattern| - p, 0
  {
    match SequenceAt(pattern, p + Width(extended), inGroup, extended)
    case Fail(code) => Fail(code)
    case Ok(re, p1) =>
      if n >= MAX_BRANCHES then Fail(REG_BADPAT)
      else if !AltDelimiter(pattern, p1, extended) then Ok(Last(re), p1)
      else match BranchesAt(pattern, p1, inGroup, extended, n + 1)
        case Fail(code) => Fail(code)
        case Ok(more, p2) => Ok(More(re, more), p2)
  }

  function QuantAt(pattern: seq<byte>, p: nat, extended: bool): (r: Parsed<Quant>)
    requires p <= |pattern|
    ensures r.Ok? ==> p <= r.next <= |pattern| && QuantOk(r.value)
    ensures r.Fail? ==> r.code > 0
  {
    var after := p + Width(extended);
    if At(pattern, p) == B('*') then Ok(Loop(0), p + 1)
    else if OperatorAt(pattern, p, B('+'), extended) then Ok(Plus, after)
    else if OperatorAt(pattern, p, B('?'), extended) then Ok(Repeat(0, 1), after)
    else if OperatorAt(pattern, p, B('{'), extended) then
      match IntervalAt(pattern, after)
      case None => Fail(REG_BADBR)
      case Some((min, max, next)) =>
        if max == -1 then Ok(Loop(min), next)
        else if max < min then Fail(REG_BADBR)
        else Ok(Repeat(min, max), next)
    else Ok(Once, p)
  }

  /** The expression of a whole pattern, or the error code of `regcomp`. */
  function Parse(pattern: seq<byte>, extended: bool): (r: Parsed<Atom>)
    ensures r.Ok? ==> AtomOk(r.value)
    ensures r.Fail? ==> r.code > 0
  {
    match AlternationAt(pattern, 0, false, extended)
    case Fail(code) => Fail(code)
    case Ok(a, next) => if At(pattern, next) != 0 then Fail(REG_BADPAT) else Ok(a, next)
  }

  /** Outside a group nothing but the end stops an alternation, so the check for a rest never fails. */
  lemma ReadToTheEnd(pattern: seq<byte>, extended: bool)
    requires forall b <- pattern :: b != 0
    ensures Parse(pattern, extended) == AlternationAt(pattern, 0, false, extended)
    ensures Parse(pattern, extended).Ok? ==> Parse(pattern, extended).next == |pattern|
  {
    hide SequenceAt, BranchesAt;
    forall i | 0 <= i < |pattern|
      ensures At(pattern, i) != 0
    {
      assert pattern[i] in pattern;
    }
    var first := SequenceAt(pattern, 0, false, extended);
    if first.Ok? && AltDelimiter(pattern, first.next, extended) {
      BranchesEnd(pattern, first.next, extended, 1);
    }
  }

  lemma {:induction false} BranchesEnd(pattern: seq<byte>, p: nat, extended: bool, n: nat)
    requires p < |pattern| && AltDelimiter(pattern, p, extended)
    ensures var r := BranchesAt(pattern, p, false, extended, n); r.Ok? ==> At(pattern, r.next) == 0
    decreases |pattern| - p
  {
    hide SequenceAt;
    var re := SequenceAt(pattern, p + Width(extended), false, extended);
    if re.Ok? && n < MAX_BRANCHES && AltDelimiter(pattern, re.next, extended) {
      BranchesEnd(pattern, re.next, extended, n + 1);
    }
  }
}
