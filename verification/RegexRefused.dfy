/**
 Patterns that are refused, and the codes they are refused with, in either syntax: what is wrong may stand
 behind any items that are in order (lib/libc_regex.c:139-298, 354-476, 631-720).
 */
module RegexRefused {
  import opened Maybe
  import opened RegexVm
  import opened RegexSyntax
  import opened RegexBrackets
  import opened RegexWritten

  /** Items in order, and then `tail`. */
  predicate Follows(pattern: seq<byte>, s: Sequence, extended: bool, tail: seq<byte>) {
    pattern == SequenceText(s, extended) + tail && SequenceOk(s, false, extended, tail)
  }

  lemma FollowsHere(pattern: seq<byte>, s: Sequence, extended: bool, tail: seq<byte>)
    requires Follows(pattern, s, extended, tail)
    ensures var q := |SequenceText(s, extended)|;
            Here(pattern, 0, SequenceText(s, extended), tail) && Here(pattern, q, tail, []) && q <= |pattern|
  {
    hide SequenceText, SequenceOk;
    assert pattern[0..] == pattern;
    HereBehind(pattern, 0, SequenceText(s, extended), tail);
  }

  /** An error behind items in order is the error of the pattern. */
  lemma RefusedBehind(pattern: seq<byte>, s: Sequence, extended: bool, tail: seq<byte>, q: nat, code: int)
    requires Follows(pattern, s, extended, tail) && q == |SequenceText(s, extended)| && code > 0
    requires q <= |pattern| ==> SequenceAt(pattern, q, false, extended) == Fail(code)
    ensures Parse(pattern, extended) == Fail(code)
  {
    hide SequenceAt, SequenceText, SequenceOk, Here;
    FollowsHere(pattern, s, extended, tail);
    ItemsRead(pattern, 0, s, false, extended, tail);
  }

  lemma AtomRefused(pattern: seq<byte>, p: nat, extended: bool, code: int)
    requires p < |pattern| && !SequenceEnds(pattern, p, false, extended) && AtomAt(pattern, p, extended) == Fail(code)
    ensures SequenceAt(pattern, p, false, extended) == Fail(code)
  {
    hide AtomAt, SequenceEnds;
  }

  lemma QuantRefused(pattern: seq<byte>, p: nat, extended: bool, a: Atom, q: nat, code: int)
    requires p < |pattern| && !SequenceEnds(pattern, p, false, extended) && AtomAt(pattern, p, extended) == Ok(a, q)
    requires q <= |pattern| && QuantAt(pattern, q, extended) == Fail(code)
    ensures SequenceAt(pattern, p, false, extended) == Fail(code)
  {
    hide AtomAt, QuantAt, SequenceEnds;
  }

  // ----- brackets

  lemma BracketRefused(pattern: seq<byte>, p: nat, extended: bool, code: int)
    requires p < |pattern| && pattern[p] == B('[') && BracketAt(pattern, p) == Fail(code)
    ensures SequenceAt(pattern, p, false, extended) == Fail(code)
  {
    hide BracketAt, SequenceAt, AlternationAt;
    AtomRefused(pattern, p, extended, code);
  }

  /** What a bracket expression breaks off with, and its code. */
  datatype Fault =
    | Unclosed
    | Reversed(first: Element, last: Element, rest: seq<byte>)
    | Unnamed(rest: seq<byte>)
    | CutOff

  function FaultText(f: Fault): seq<byte> {
    match f
    case Unclosed => []
    case Reversed(first, last, rest) => PieceText(Span(first, last)) + rest
    case Unnamed(rest) => Bytes("[:") + rest
    case CutOff => [B('\\')]
  }

  predicate FaultOk(f: Fault) {
    match f
    case Reversed(first, last, _) =>
      && ElementOk(first) && ElementOk(last) && first != Raw(B(']')) && last != Raw(B(']'))
      && ElementByte(last) < ElementByte(first)
    case Unnamed(rest) => forall name <- NAMES :: !NameHere(rest, 0, name)
    case _ => true
  }

  /** REG_EBRACK, REG_ERANGE, REG_ECTYPE or REG_EESCAPE. */
  function FaultCode(f: Fault): int {
    match f
    case Unclosed => 7
    case Reversed(_, _, _) => 11
    case Unnamed(_) => 4
    case CutOff => 5
  }

  lemma FaultyBracket(pattern: seq<byte>, s: Sequence, extended: bool, b: Bracket, f: Fault)
    requires var fault := FaultText(f); var inside := PiecesText(b.pieces) + fault;
             && Follows(pattern, s, extended, Opening(b) + inside) && FaultOk(f)
             && PiecesOk(b.pieces, fault) && OpeningEnds(b, inside)
    ensures Parse(pattern, extended) == Fail(FaultCode(f))
  {
    hide SequenceAt, SequenceText, SequenceOk, Here, Follows, Opening, PiecesText, PiecesOk, OpeningEnds, BracketAt,
         PieceText, Bytes, NAMES, NameHere, ElementByte, ElementOk, Parse;
    var q, fault := |SequenceText(s, extended)|, FaultText(f);
    var before := Opening(b) + PiecesText(b.pieces);
    assert Opening(b) + (PiecesText(b.pieces) + fault) == before + fault;
    FollowsHere(pattern, s, extended, before + fault);
    HereParts(pattern, q, before, fault, []);
    assert fault + [] == fault;
    HereOpening(pattern, q, b, fault);
    match f {
      case Unclosed =>
        assert PiecesText(b.pieces) + [] == PiecesText(b.pieces);
        BracketUnclosed(pattern, q, b);
      case Reversed(first, last, rest) => BracketReversed(pattern, q, b, first, last, rest);
      case Unnamed(rest) => BracketUnnamed(pattern, q, b, rest);
      case CutOff => BracketCutOff(pattern, q, b);
    }
    BracketRefused(pattern, q, extended, FaultCode(f));
    RefusedBehind(pattern, s, extended, Opening(b) + (PiecesText(b.pieces) + fault), q, FaultCode(f));
  }

  lemma HereOpening(pattern: seq<byte>, p: nat, b: Bracket, fault: seq<byte>)
    requires Here(pattern, p, Opening(b) + PiecesText(b.pieces), fault)
    ensures p < |pattern| && pattern[p] == B('[')
  {
    hide PiecesText;
    HereAt(pattern, p, Opening(b) + PiecesText(b.pieces), fault, 0);
  }

  // ----- backslashes, parentheses, intervals, branches

  /** A backslash at the end: REG_EESCAPE. */
  lemma LastBackslash(pattern: seq<byte>, s: Sequence, extended: bool)
    requires Follows(pattern, s, extended, [B('\\')])
    ensures Parse(pattern, extended) == Fail(5)
  {
    hide SequenceText, SequenceOk, Here, Follows, AlternationAt, BracketAt, SequenceAt, Parse;
    var q := |SequenceText(s, extended)|;
    FollowsHere(pattern, s, extended, [B('\\')]);
    HereAt(pattern, q, [B('\\')], [], 0);
    HereAt(pattern, q, [B('\\')], [], 1);
    AtomRefused(pattern, q, extended, 5);
    RefusedBehind(pattern, s, extended, [B('\\')], q, 5);
  }

  /** A parenthesis that is not closed: REG_EPAREN. */
  lemma OpenParen(pattern: seq<byte>, s: Sequence, extended: bool, captures: bool, body: Branches)
    requires var text := BranchesText(body, extended);
             && Follows(pattern, s, extended, ParenOpens(captures, extended) + text)
             && (if captures then extended ==> At(text, 0) != B('?') || At(text, 1) != B(':') else extended)
    requires BranchesOk(body, true, extended, []) && Count(body) <= 128
    ensures Parse(pattern, extended) == Fail(8)
  {
    hide SequenceText, SequenceOk, Here, Follows, BranchesText, SequenceAt, ParenOpens, AlternationAt, BranchesOk, Parse;
    var q, open, text := |SequenceText(s, extended)|, ParenOpens(captures, extended), BranchesText(body, extended);
    FollowsHere(pattern, s, extended, open + text);
    HereParts(pattern, q, open, text, []);
    assert text + [] == text;
    ParenLead(pattern, q, captures, extended, text);
    HereInside(pattern, q + |open|, text, []);
    BranchesRead(pattern, q + |open|, body, true, extended, []);
    HereBehind(pattern, q + |open|, text, []);
    var end := q + |open| + |text|;
    assert At(pattern, end + 0) == 0;
    NotClosed(pattern, q, captures, extended, BranchesMeaning(body), end);
    RefusedBehind(pattern, s, extended, open + text, q, 8);
  }

  lemma NotClosed(pattern: seq<byte>, p: nat, captures: bool, extended: bool, inside: Atom, end: nat)
    requires p < |pattern| && OperatorAt(pattern, p, B('('), extended) && At(pattern, end) == 0
    requires captures <==> !(extended && At(pattern, p + 1) == B('?') && At(pattern, p + 2) == B(':'))
    requires p + |ParenOpens(captures, extended)| <= |pattern|
    requires AlternationAt(pattern, p + |ParenOpens(captures, extended)|, true, extended) == Ok(inside, end)
    ensures SequenceAt(pattern, p, false, extended) == Fail(8)
  {
    hide AlternationAt, BracketAt, EscapeAt, SequenceAt;
    AtomRefused(pattern, p, extended, 8);
  }

  /** An interval that is too large or whose upper bound is below the lower one: REG_BADBR. */
  lemma WideInterval(pattern: seq<byte>, s: Sequence, extended: bool, a: Source, min: seq<byte>, u: Upper,
                     rest: seq<byte>)
    requires var braces := Operator('{', extended) + IntervalText(min, u) + rest;
             Follows(pattern, s, extended, SourceText(a, extended) + braces) && SourceOk(a, false, extended, braces)
    requires IntervalOk(min, u)
    requires Decimal(min) > 10000 || (u.UpTo? && (Decimal(u.digits) > 10000 || Decimal(u.digits) < Decimal(min)))
    ensures Parse(pattern, extended) == Fail(10)
  {
    hide SequenceText, SequenceOk, Here, Follows, SourceText, SourceOk, SequenceAt, IntervalText, Operator, AtomAt,
         QuantAt, Decimal, Parse;
    var open, text := Operator('{', extended), IntervalText(min, u);
    var q, r := ItemThen(pattern, s, extended, a, open + text + rest);
    assert open + text + rest == open + (text + rest);
    HereParts(pattern, r, open, text + rest, []);
    assert text + rest + [] == text + rest;
    HereBraces(pattern, r, extended, text + rest);
    HereParts(pattern, r + |open|, text, rest, []);
    assert rest + [] == rest;
    DecimalGrows(min, []);
    if u.UpTo? {
      DecimalGrows(u.digits, []);
    }
    IntervalRead(pattern, r + |open|, min, u, rest);
    BadBraces(pattern, r, extended);
    QuantRefused(pattern, q, extended, Meaning(a), r, 10);
    RefusedBehind(pattern, s, extended, SourceText(a, extended) + (open + text + rest), q, 10);
  }

  /** An item behind items in order. */
  lemma ItemThen(pattern: seq<byte>, s: Sequence, extended: bool, a: Source, tail: seq<byte>) returns (q: nat, r: nat)
    requires Follows(pattern, s, extended, SourceText(a, extended) + tail) && SourceOk(a, false, extended, tail)
    ensures q == |SequenceText(s, extended)| && q < |pattern| && r <= |pattern| && Here(pattern, r, tail, [])
    ensures !SequenceEnds(pattern, q, false, extended) && AtomAt(pattern, q, extended) == Ok(Meaning(a), r)
  {
    hide SequenceText, SequenceOk, Here, Follows, SourceText, SourceOk, AtomAt, SequenceEnds;
    q := |SequenceText(s, extended)|;
    var text := SourceText(a, extended);
    FollowsHere(pattern, s, extended, text + tail);
    HereParts(pattern, q, text, tail, []);
    assert tail + [] == tail;
    SourceRead(pattern, q, a, false, extended, tail);
    r := q + |text|;
    HereInside(pattern, r, tail, []);
  }

  lemma HereBraces(pattern: seq<byte>, p: nat, extended: bool, rest: seq<byte>)
    requires Here(pattern, p, Operator('{', extended), rest)
    ensures OperatorAt(pattern, p, B('{'), extended) && p + |Operator('{', extended)| <= |pattern|
    ensures |Operator('{', extended)| == Width(extended) && At(pattern, p) != B('*')
  {
    hide Here;
    HereAt(pattern, p, Operator('{', extended), rest, 0);
    HereAt(pattern, p, Operator('{', extended), rest, 1);
    HereBehind(pattern, p, Operator('{', extended), rest);
  }

  lemma BadBraces(pattern: seq<byte>, p: nat, extended: bool)
    requires p <= |pattern| && OperatorAt(pattern, p, B('{'), extended) && At(pattern, p) != B('*')
    requires var r := IntervalAt(pattern, p + Width(extended)); r.Some? ==> r.value.1 != -1 && r.value.1 < r.value.0
    ensures QuantAt(pattern, p, extended) == Fail(10)
  {
    hide IntervalAt;
  }

  /**
   An interval that is not closed by a brace behind its bounds: REG_BADBR. In the basic syntax that is so when
   the closing brace is written with a backslash.
   */
  lemma OpenInterval(pattern: seq<byte>, s: Sequence, extended: bool, a: Source, min: seq<byte>, u: Upper,
                     rest: seq<byte>)
    requires var braces := Operator('{', extended) + (min + UpperText(u)) + rest;
             Follows(pattern, s, extended, SourceText(a, extended) + braces) && SourceOk(a, false, extended, braces)
    requires IntervalOk(min, u) && At(rest, 0) != B('}') && !(48 <= At(rest, 0) <= 57)
    requires u.Same? ==> At(rest, 0) != B(',')
    ensures Parse(pattern, extended) == Fail(10)
  {
    hide SequenceText, SequenceOk, Here, Follows, SourceText, SourceOk, SequenceAt, UpperText, Operator, AtomAt, QuantAt,
         Decimal, Parse;
    var open, text := Operator('{', extended), min + UpperText(u);
    var q, r := ItemThen(pattern, s, extended, a, open + text + rest);
    assert open + text + rest == open + (text + rest);
    HereParts(pattern, r, open, text + rest, []);
    assert text + rest + [] == text + rest;
    HereBraces(pattern, r, extended, text + rest);
    HereParts(pattern, r + |open|, text, rest, []);
    assert rest + [] == rest;
    NotBraced(pattern, r + |open|, min, u, rest);
    BadBraces(pattern, r, extended);
    QuantRefused(pattern, q, extended, Meaning(a), r, 10);
    RefusedBehind(pattern, s, extended, SourceText(a, extended) + (open + text + rest), q, 10);
  }

  lemma NotBraced(pattern: seq<byte>, p: nat, min: seq<byte>, u: Upper, rest: seq<byte>)
    requires Here(pattern, p, min + UpperText(u), rest) && p <= |pattern|
    requires IntervalOk(min, u) && At(rest, 0) != B('}') && !(48 <= At(rest, 0) <= 57)
    requires u.Same? ==> At(rest, 0) != B(',')
    ensures IntervalAt(pattern, p).None?
  {
    hide Here, Digits, Decimal, AreDigits;
    var upper := UpperText(u);
    HereParts(pattern, p, min, upper, rest);
    var q := p + |min|;
    assert !(48 <= At(upper + rest, 0) <= 57);
    NumberRead(pattern, p, min, upper + rest);
    HereBehind(pattern, q, upper, rest);
    assert At(pattern, q + |upper| + 0) == At(rest, 0);
    if u.UpTo? {
      HereAt(pattern, q, upper, rest, 0);
      HereAt(pattern, q, upper, rest, 1);
      FirstDigit(u.digits);
      HereParts(pattern, q, [B(',')], u.digits, rest);
      NumberRead(pattern, q + 1, u.digits, rest);
    } else if u.Open? {
      HereAt(pattern, q, upper, rest, 0);
    }
  }

  lemma FirstDigit(ds: seq<byte>)
    requires ds != [] && AreDigits(ds)
    ensures 48 <= ds[0] <= 57
  {
  }

  /** More than 128 branches: REG_BADPAT. */
  lemma ManyBranches(b: Branches, extended: bool)
    requires BranchesOk(b, false, extended, []) && Count(b) > 128
    ensures Parse(BranchesText(b, extended), extended) == Fail(2)
  {
    hide SequenceText, SequenceOk, Here, SequenceAt, Operator, Ends, Begins, AltDelimiter, BranchesAt, SequenceMeaning;
    var pattern := BranchesText(b, extended);
    var text, bar, rest := SequenceText(b.sequence, extended), Operator('|', extended), BranchesText(b.more, extended);
    assert pattern[0..] == pattern + [] == pattern && Here(pattern, 0, pattern, []) by { WholeStands(pattern); }
    BarParts(pattern, 0, text, bar, rest, []);
    assert rest + [] == rest && bar + rest + [] == bar + rest;
    BarEnds(rest, false, extended);
    SequenceRead(pattern, 0, b.sequence, false, extended, bar + rest);
    BarBehind(pattern, |text|, bar + rest, extended);
    TooMany(pattern, |text|, b.more, extended, 1);
  }

  lemma WholeStands(pattern: seq<byte>)
    ensures pattern[0..] == pattern + [] == pattern && Here(pattern, 0, pattern, [])
  {
  }

  lemma {:induction false} TooMany(pattern: seq<byte>, p: nat, b: Branches, extended: bool, n: nat)
    requires Here(pattern, p, Operator('|', extended) + BranchesText(b, extended), [])
    requires BranchesOk(b, false, extended, []) && n + Count(b) > 128
    requires p < |pattern| && AltDelimiter(pattern, p, extended)
    ensures BranchesAt(pattern, p, false, extended, n) == Fail(2)
    decreases b
  {
    hide Here, SequenceAt, SequenceEnds, AltDelimiter, SequenceText, SequenceMeaning, Begins, SequenceOk, Ends;
    var bar := Operator('|', extended);
    HereParts(pattern, p, bar, BranchesText(b, extended), []);
    var q, text := p + Width(extended), SequenceText(b.sequence, extended);
    if b.Alone? {
      SequenceRead(pattern, q, b.sequence, false, extended, []);
    } else {
      var rest := BranchesText(b.more, extended);
      BarParts(pattern, q, text, bar, rest, []);
      assert rest + [] == rest && bar + rest + [] == bar + rest;
      BarEnds(rest, false, extended);
      SequenceRead(pattern, q, b.sequence, false, extended, bar + rest);
      BarBehind(pattern, q + |text|, bar + rest, extended);
      TooMany(pattern, q + |text|, b.more, extended, n + 1);
    }
  }

  /** `a\{1,2\}` of the basic syntax is refused, because of the backslash before the closing brace. */
  lemma BasicInterval()
    ensures Parse(Bytes("a\\{1,2\\}"), false) == Fail(10)
  {
    hide Parse;
    var min, u, rest := [B('1')], UpTo([B('2')]), [B('\\'), B('}')];
    var braces := Operator('{', false) + (min + UpperText(u)) + rest;
    assert Bytes("a\\{1,2\\}") == [] + ([B('a')] + braces);
    assert SequenceOk(Nil, false, false, [B('a')] + braces);
    OpenInterval(Bytes("a\\{1,2\\}"), Nil, false, Literal(Raw(B('a'))), min, u, rest);
  }
}
