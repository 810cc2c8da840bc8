/**
 Patterns as they are written, in either syntax, and the expressions they stand for: what is written is read
 back (lib/libc_regex.c:302-476, 506-583, 631-720).
 */
module RegexWritten {
  import opened Maybe
  import opened RegexVm
  import opened RegexSyntax
  import opened RegexBrackets

  // ----- written patterns

  /** One item without its quantifier. */
  datatype Source =
    | Literal(element: Element)
    | AnyByte
    | Class(bracket: Bracket)
    | Short(kind: byte)
    | Mark(edge: Edge)
    | Paren(captures: bool, body: Branches)

  datatype Sequence = Nil | Item(source: Source, times: Times, rest: Sequence)

  datatype Branches = Alone(sequence: Sequence) | Or(sequence: Sequence, more: Branches)

  datatype Times = Single | Star | OneOrMore | Optional | Interval(min: seq<byte>, upper: Upper)

  /** An operator, which the basic syntax writes with a backslash. */
  function Operator(c: char, extended: bool): seq<byte> {
    if extended then [B(c)] else [B('\\'), B(c)]
  }

  function SourceText(s: Source, extended: bool): seq<byte>
    decreases s, 0
  {
    match s
    case Literal(e) => ElementText(e)
    case AnyByte => [B('.')]
    case Class(b) => BracketText(b)
    case Short(kind) => [B('\\'), kind]
    case Mark(edge) =>
      (match edge
       case LineStart => [B('^')]
       case LineEnd => [B('$')]
       case Boundary => [B('\\'), B('b')]
       case NoBoundary => [B('\\'), B('B')])
    case Paren(captures, body) => ParenOpens(captures, extended) + BranchesText(body, extended) + Operator(')', extended)
  }

  function ParenOpens(captures: bool, extended: bool): seq<byte> {
    Operator('(', extended) + if captures then [] else [B('?'), B(':')]
  }

  function TimesText(t: Times, extended: bool): seq<byte> {
    match t
    case Single => []
    case Star => [B('*')]
    case OneOrMore => Operator('+', extended)
    case Optional => Operator('?', extended)
    case Interval(min, upper) => Operator('{', extended) + IntervalText(min, upper)
  }

  function SequenceText(s: Sequence, extended: bool): seq<byte>
    decreases s, 1
  {
    match s
    case Nil => []
    case Item(source, times, rest) =>
      SourceText(source, extended) + TimesText(times, extended) + SequenceText(rest, extended)
  }

  function BranchesText(b: Branches, extended: bool): seq<byte>
    decreases b, 2
  {
    match b
    case Alone(s) => SequenceText(s, extended)
    case Or(s, more) => SequenceText(s, extended) + Operator('|', extended) + BranchesText(more, extended)
  }

  // ----- what they stand for

  /** `\d`, `\w` and `\s`; every byte for the letters in upper case. */
  predicate InShort(kind: byte, c: byte) {
    if kind == B('d') then 48 <= c <= 57
    else if kind == B('w') then 48 <= c <= 57 || 65 <= c <= 90 || 97 <= c <= 122 || c == 95
    else if kind == B('s') then c == 32 || 9 <= c <= 13
    else true
  }

  function Meaning(s: Source): Atom
    decreases s, 0
  {
    match s
    case Literal(e) => Lit(ElementByte(e))
    case AnyByte => Dot
    case Class(b) => Set(BracketSet(b))
    case Short(kind) => Set(set c: byte | InShort(kind, c))
    case Mark(edge) => Anchor(edge)
    case Paren(captures, body) => if captures then Capture(BranchesMeaning(body)) else BranchesMeaning(body)
  }

  function TimesMeaning(t: Times): Quant {
    match t
    case Single => Once
    case Star => Loop(0)
    case OneOrMore => Plus
    case Optional => Repeat(0, 1)
    case Interval(min, upper) =>
      if upper.Open? then Loop(NatOf(Decimal(min))) else Repeat(NatOf(Decimal(min)), NatOf(UpperBound(min, upper)))
  }

  function NatOf(n: int): nat { if n < 0 then 0 else n }

  predicate TimesFit(t: Times) {
    t.Interval? ==>
      && IntervalOk(t.min, t.upper) && 0 <= Decimal(t.min) <= 10000
      && (t.upper.UpTo? ==> Decimal(t.min) <= Decimal(t.upper.digits) <= 10000)
  }

  function SequenceMeaning(s: Sequence): Re
    decreases s, 1
  {
    match s
    case Nil => Empty
    case Item(source, times, rest) =>
      Cons(Meaning(source), TimesMeaning(times), SequenceMeaning(rest))
  }

  function BranchesMeaning(b: Branches): Atom
    decreases b, 2
  {
    match b
    case Alone(s) => Group(SequenceMeaning(s))
    case Or(s, more) => Choice(SequenceMeaning(s), MoreMeaning(more))
  }

  function MoreMeaning(b: Branches): Alts
    decreases b, 2
  {
    match b
    case Alone(s) => Last(SequenceMeaning(s))
    case Or(s, more) => More(SequenceMeaning(s), MoreMeaning(more))
  }

  // ----- how the parts may stand together

  /** The text begins with an operator. */
  predicate Begins(text: seq<byte>, c: char, extended: bool) {
    if extended then At(text, 0) == B(c) else At(text, 0) == B('\\') && At(text, 1) == B(c)
  }

  /** Here a sequence ends: at the end, at a bar, or at the closing parenthesis of its group. */
  predicate Ends(text: seq<byte>, inGroup: bool, extended: bool) {
    At(text, 0) == 0 || Begins(text, '|', extended) || (inGroup && Begins(text, ')', extended))
  }

  predicate QuantifierBegins(text: seq<byte>, extended: bool) {
    || At(text, 0) == B('*') || Begins(text, '+', extended) || Begins(text, '?', extended)
    || Begins(text, '{', extended)
  }

  /** A byte that stands for itself is none that means something else where it stands. */
  predicate LiteralOk(e: Element, inGroup: bool, extended: bool) {
    match e
    case Raw(c) =>
      && c !in {0, B('\\'), B('^'), B('$'), B('.'), B('[')}
      && (extended ==> c != B('(') && c != B('|') && (inGroup ==> c != B(')')))
    case Escaped(k) =>
      && k !in {0, B('w'), B('W'), B('s'), B('S'), B('d'), B('D'), B('b'), B('B')}
      && (!extended ==> k != B('(') && k != B('|') && (inGroup ==> k != B(')')))
  }

  predicate SourceOk(s: Source, inGroup: bool, extended: bool, tail: seq<byte>)
    decreases s, 0
  {
    match s
    case Literal(e) => LiteralOk(e, inGroup, extended)
    case AnyByte => true
    case Class(b) => BracketOk(b)
    case Short(kind) => kind in {B('w'), B('W'), B('s'), B('S'), B('d'), B('D')}
    case Mark(_) => true
    case Paren(captures, body) =>
      var close := Operator(')', extended) + tail;
      var text := BranchesText(body, extended) + close;
      && BranchesOk(body, true, extended, close) && Count(body) <= 128
      && (if captures then extended ==> At(text, 0) != B('?') || At(text, 1) != B(':') else extended)
  }

  predicate SequenceOk(s: Sequence, inGroup: bool, extended: bool, tail: seq<byte>)
    decreases s, 1
  {
    match s
    case Nil => true
    case Item(source, times, rest) =>
      var behind := SequenceText(rest, extended) + tail;
      && SourceOk(source, inGroup, extended, TimesText(times, extended) + behind)
      && TimesFit(times) && (times.Single? ==> !QuantifierBegins(behind, extended))
      && SequenceOk(rest, inGroup, extended, tail)
  }

  predicate BranchesOk(b: Branches, inGroup: bool, extended: bool, tail: seq<byte>)
    decreases b, 2
  {
    match b
    case Alone(s) =>
      SequenceOk(s, inGroup, extended, tail) && Ends(tail, inGroup, extended) && !Begins(tail, '|', extended)
    case Or(s, more) =>
      && SequenceOk(s, inGroup, extended, Operator('|', extended) + BranchesText(more, extended) + tail)
      && BranchesOk(more, inGroup, extended, tail)
  }

  function Count(b: Branches): nat {
    if b.Alone? then 1 else 1 + Count(b.more)
  }

  // ----- reading operators

  lemma OperatorLead(pattern: seq<byte>, p: nat, part: seq<byte>, tail: seq<byte>, c: char, extended: bool)
    requires Here(pattern, p, part, tail)
    ensures OperatorAt(pattern, p, B(c), extended) <==> Begins(part + tail, c, extended)
  {
    hide Here, B;
    HereAt(pattern, p, part, tail, 0);
    HereAt(pattern, p, part, tail, 1);
  }

  lemma EndsHere(pattern: seq<byte>, p: nat, part: seq<byte>, tail: seq<byte>, inGroup: bool, extended: bool)
    requires Here(pattern, p, part, tail)
    ensures SequenceEnds(pattern, p, inGroup, extended) <==> Ends(part + tail, inGroup, extended)
    ensures AltDelimiter(pattern, p, extended) <==> Begins(part + tail, '|', extended)
  {
    hide Here, OperatorAt, Begins;
    HereAt(pattern, p, part, tail, 0);
    OperatorLead(pattern, p, part, tail, '|', extended);
    OperatorLead(pattern, p, part, tail, ')', extended);
  }

  // ----- reading quantifiers

  lemma TimesRead(pattern: seq<byte>, p: nat, t: Times, extended: bool, tail: seq<byte>)
    requires Here(pattern, p, TimesText(t, extended), tail) && TimesFit(t)
    requires t.Single? ==> !QuantifierBegins(tail, extended)
    ensures p <= |pattern| && QuantAt(pattern, p, extended) == Ok(TimesMeaning(t), p + |TimesText(t, extended)|)
  {
    hide Here, IntervalAt, IntervalText, Decimal;
    var text := TimesText(t, extended);
    HereInside(pattern, p, text, tail);
    HereAt(pattern, p, text, tail, 0);
    HereAt(pattern, p, text, tail, 1);
    if t.Single? {
      assert text + tail == tail;
    } else if t.Interval? {
      HereParts(pattern, p, Operator('{', extended), IntervalText(t.min, t.upper), tail);
      IntervalRead(pattern, p + Width(extended), t.min, t.upper, tail);
    }
  }

  // ----- reading items

  /** Items that are written with one or two bytes of their own. */
  lemma LeafRead(pattern: seq<byte>, p: nat, s: Source, inGroup: bool, extended: bool, tail: seq<byte>)
    requires !s.Paren? && !s.Class? && !s.Literal? && !s.Short?
    requires Here(pattern, p, SourceText(s, extended), tail)
    ensures p < |pattern| && !SequenceEnds(pattern, p, inGroup, extended)
    ensures AtomAt(pattern, p, extended) == Ok(Meaning(s), p + |SourceText(s, extended)|)
  {
    hide Here, BracketAt, AlternationAt, EscapeAt;
    HereAt(pattern, p, SourceText(s, extended), tail, 0);
    HereAt(pattern, p, SourceText(s, extended), tail, 1);
  }

  lemma ShortRead(pattern: seq<byte>, p: nat, kind: byte, inGroup: bool, extended: bool, tail: seq<byte>)
    requires kind in {B('w'), B('W'), B('s'), B('S'), B('d'), B('D')} && Here(pattern, p, [B('\\'), kind], tail)
    ensures p < |pattern| && !SequenceEnds(pattern, p, inGroup, extended)
    ensures AtomAt(pattern, p, extended) == Ok(Meaning(Short(kind)), p + 2)
  {
    hide Here, BracketAt, AlternationAt, EscapeAt, Shorthand;
    HereAt(pattern, p, [B('\\'), kind], tail, 0);
    HereAt(pattern, p, [B('\\'), kind], tail, 1);
    ShortSet(kind);
  }

  lemma ShortSet(kind: byte)
    requires kind in {B('w'), B('W'), B('s'), B('S'), B('d'), B('D')}
    ensures Shorthand(kind) == set c: byte | InShort(kind, c)
  {
  }

  lemma LiteralRead(pattern: seq<byte>, p: nat, e: Element, inGroup: bool, extended: bool, tail: seq<byte>)
    requires Here(pattern, p, ElementText(e), tail) && LiteralOk(e, inGroup, extended)
    ensures p < |pattern| && !SequenceEnds(pattern, p, inGroup, extended)
    ensures AtomAt(pattern, p, extended) == Ok(Lit(ElementByte(e)), p + |ElementText(e)|)
  {
    hide Here, BracketAt, AlternationAt, EscapeAt, ElementByte;
    ElementRead(pattern, p, e, tail);
    HereAt(pattern, p, ElementText(e), tail, 0);
    HereAt(pattern, p, ElementText(e), tail, 1);
  }

  lemma ClassRead(pattern: seq<byte>, p: nat, b: Bracket, inGroup: bool, extended: bool, tail: seq<byte>)
    requires Here(pattern, p, BracketText(b), tail) && BracketOk(b)
    ensures p < |pattern| && !SequenceEnds(pattern, p, inGroup, extended)
    ensures AtomAt(pattern, p, extended) == Ok(Set(BracketSet(b)), p + |BracketText(b)|)
  {
    hide Here, BracketAt, AlternationAt, EscapeAt, BracketText, BracketOk;
    BracketRead(pattern, p, b, tail);
  }

  /** The parenthesis, what is inside, and the closing one. */
  lemma ParenParts(pattern: seq<byte>, p: nat, captures: bool, body: Branches, extended: bool, tail: seq<byte>)
    requires Here(pattern, p, SourceText(Paren(captures, body), extended), tail)
    ensures var open, text := ParenOpens(captures, extended), BranchesText(body, extended);
            var close, inside := Operator(')', extended), p + |open|; var end := inside + |text|;
            && Here(pattern, p, open, text + (close + tail)) && Here(pattern, inside, text, close + tail)
            && Here(pattern, end, close, tail)
            && |SourceText(Paren(captures, body), extended)| == |open| + |text| + |close|
  {
    hide Here, BranchesText, Operator, ParenOpens;
    var open, text, close := ParenOpens(captures, extended), BranchesText(body, extended), Operator(')', extended);
    HereParts(pattern, p, open + text, close, tail);
    HereParts(pattern, p, open, text, close + tail);
    assert |open + text| == |open| + |text|;
  }

  /** What the opening parenthesis looks like. */
  lemma ParenLead(pattern: seq<byte>, p: nat, captures: bool, extended: bool, rest: seq<byte>)
    requires Here(pattern, p, ParenOpens(captures, extended), rest) && (!captures ==> extended)
    requires captures && extended ==> At(rest, 0) != B('?') || At(rest, 1) != B(':')
    ensures p < |pattern| && OperatorAt(pattern, p, B('('), extended)
    ensures captures <==> !(extended && At(pattern, p + 1) == B('?') && At(pattern, p + 2) == B(':'))
  {
    hide Here;
    var open := ParenOpens(captures, extended);
    HereAt(pattern, p, open, rest, 0);
    HereAt(pattern, p, open, rest, 1);
    HereAt(pattern, p, open, rest, 2);
  }

  lemma CloseLead(pattern: seq<byte>, p: nat, extended: bool, tail: seq<byte>)
    requires Here(pattern, p, Operator(')', extended), tail)
    ensures OperatorAt(pattern, p, B(')'), extended)
  {
    hide Here;
    HereAt(pattern, p, Operator(')', extended), tail, 0);
    HereAt(pattern, p, Operator(')', extended), tail, 1);
  }

  /** A parenthesis is read once its inside is. */
  lemma ParenRead(pattern: seq<byte>, p: nat, captures: bool, extended: bool, inGroup: bool, inside: Atom, close: nat)
    requires p < |pattern| && OperatorAt(pattern, p, B('('), extended)
    requires captures <==> !(extended && At(pattern, p + 1) == B('?') && At(pattern, p + 2) == B(':'))
    requires p + |ParenOpens(captures, extended)| <= |pattern|
    requires AlternationAt(pattern, p + |ParenOpens(captures, extended)|, true, extended) == Ok(inside, close)
    requires OperatorAt(pattern, close, B(')'), extended)
    ensures !SequenceEnds(pattern, p, inGroup, extended)
    ensures AtomAt(pattern, p, extended) == Ok(if captures then Capture(inside) else inside, close + Width(extended))
  {
    hide BracketAt, AlternationAt, EscapeAt;
  }

  lemma {:induction false} SourceRead(pattern: seq<byte>, p: nat, s: Source, inGroup: bool, extended: bool,
                                      tail: seq<byte>)
    requires Here(pattern, p, SourceText(s, extended), tail) && SourceOk(s, inGroup, extended, tail)
    ensures p < |pattern| && !SequenceEnds(pattern, p, inGroup, extended)
    ensures AtomAt(pattern, p, extended) == Ok(Meaning(s), p + |SourceText(s, extended)|)
    decreases s, 0
  {
    hide Here, AtomAt, AlternationAt, SequenceEnds, BranchesText, BracketOk, BracketText, ElementText, LiteralOk,
         OperatorAt, BranchesOk, BranchesMeaning;
    match s
    case Literal(e) => LiteralRead(pattern, p, e, inGroup, extended, tail);
    case Class(b) => ClassRead(pattern, p, b, inGroup, extended, tail);
    case Short(kind) => ShortRead(pattern, p, kind, inGroup, extended, tail);
    case Paren(captures, body) =>
      var close := Operator(')', extended) + tail;
      ParenParts(pattern, p, captures, body, extended, tail);
      ParenLead(pattern, p, captures, extended, BranchesText(body, extended) + close);
      var inside := p + |ParenOpens(captures, extended)|;
      CloseLead(pattern, inside + |BranchesText(body, extended)|, extended, tail);
      HereInside(pattern, inside, BranchesText(body, extended), close);
      BranchesRead(pattern, inside, body, true, extended, close);
      ParenRead(pattern, p, captures, extended, inGroup, BranchesMeaning(body), inside + |BranchesText(body, extended)|);
    case _ => LeafRead(pattern, p, s, inGroup, extended, tail);
  }

  lemma ItemRead(pattern: seq<byte>, p: nat, inGroup: bool, extended: bool, a: Atom, q: nat, times: Quant, r: nat)
    requires p < |pattern| && !SequenceEnds(pattern, p, inGroup, extended) && AtomAt(pattern, p, extended) == Ok(a, q)
    requires q <= |pattern| && QuantAt(pattern, q, extended) == Ok(times, r)
    ensures r <= |pattern|
    ensures SequenceAt(pattern, p, inGroup, extended)
         == match SequenceAt(pattern, r, inGroup, extended)
            case Fail(code) => Fail(code)
            case Ok(rest, end) => Ok(Cons(a, times, rest), end)
  {
    hide AtomAt, QuantAt, SequenceEnds;
  }

  /** A sequence is read as far as it is written, whatever follows it. */
  lemma {:induction false} ItemsRead(pattern: seq<byte>, p: nat, s: Sequence, inGroup: bool, extended: bool,
                                     tail: seq<byte>)
    requires Here(pattern, p, SequenceText(s, extended), tail) && SequenceOk(s, inGroup, extended, tail)
    ensures p + |SequenceText(s, extended)| <= |pattern|
    ensures SequenceAt(pattern, p, inGroup, extended)
         == match SequenceAt(pattern, p + |SequenceText(s, extended)|, inGroup, extended)
            case Fail(code) => Fail(code)
            case Ok(rest, end) => Ok(Joined(SequenceMeaning(s), rest), end)
    decreases s, 1
  {
    hide Here, AtomAt, QuantAt, SequenceAt, SequenceEnds, SourceText, TimesText, SourceOk, TimesFit, Meaning,
         TimesMeaning, QuantifierBegins;
    HereBehind(pattern, p, SequenceText(s, extended), tail);
    if s.Item? {
      var a, b, c := SourceText(s.source, extended), TimesText(s.times, extended), SequenceText(s.rest, extended);
      ItemParts(pattern, p, a, b, c, tail);
      SourceRead(pattern, p, s.source, inGroup, extended, b + (c + tail));
      TimesRead(pattern, p + |a|, s.times, extended, c + tail);
      ItemRead(pattern, p, inGroup, extended, Meaning(s.source), p + |a|, TimesMeaning(s.times), p + |a| + |b|);
      ItemsRead(pattern, p + |a| + |b|, s.rest, inGroup, extended, tail);
    }
  }

  function Joined(re: Re, more: Re): Re {
    if re.Empty? then more else re.(rest := Joined(re.rest, more))
  }

  lemma {:induction false} JoinedNothing(re: Re)
    ensures Joined(re, Empty) == re
    decreases re
  {
    if re.Cons? {
      JoinedNothing(re.rest);
    }
  }

  lemma ItemParts(pattern: seq<byte>, p: nat, a: seq<byte>, b: seq<byte>, c: seq<byte>, tail: seq<byte>)
    requires Here(pattern, p, a + b + c, tail)
    ensures Here(pattern, p, a, b + (c + tail)) && Here(pattern, p + |a|, b, c + tail)
    ensures Here(pattern, p + |a| + |b|, c, tail)
  {
    hide Here;
    HereParts(pattern, p, a + b, c, tail);
    HereParts(pattern, p, a, b, c + tail);
    assert |a + b| == |a| + |b|;
  }

  lemma SequenceRead(pattern: seq<byte>, p: nat, s: Sequence, inGroup: bool, extended: bool, tail: seq<byte>)
    requires Here(pattern, p, SequenceText(s, extended), tail) && SequenceOk(s, inGroup, extended, tail)
    requires Ends(tail, inGroup, extended)
    ensures p + |SequenceText(s, extended)| <= |pattern|
    ensures SequenceAt(pattern, p, inGroup, extended) == Ok(SequenceMeaning(s), p + |SequenceText(s, extended)|)
    decreases s, 2
  {
    hide Here, SequenceAt, SequenceEnds, Ends, SequenceOk, SequenceText, SequenceMeaning, Joined;
    ItemsRead(pattern, p, s, inGroup, extended, tail);
    HereBehind(pattern, p, SequenceText(s, extended), tail);
    var end := p + |SequenceText(s, extended)|;
    EndsHere(pattern, end, tail, [], inGroup, extended);
    assert tail + [] == tail;
    EndOfItems(pattern, end, inGroup, extended);
    JoinedNothing(SequenceMeaning(s));
  }

  lemma EndOfItems(pattern: seq<byte>, p: nat, inGroup: bool, extended: bool)
    requires p <= |pattern| && SequenceEnds(pattern, p, inGroup, extended)
    ensures SequenceAt(pattern, p, inGroup, extended) == Ok(Empty, p)
  {
    hide SequenceEnds;
  }

  /** The first branch and, behind a bar, the others. */
  lemma {:induction false} BranchesRead(pattern: seq<byte>, p: nat, b: Branches, inGroup: bool, extended: bool,
                                        tail: seq<byte>)
    requires Here(pattern, p, BranchesText(b, extended), tail) && BranchesOk(b, inGroup, extended, tail)
    requires Count(b) <= 128
    ensures p + |BranchesText(b, extended)| <= |pattern|
    ensures AlternationAt(pattern, p, inGroup, extended) == Ok(BranchesMeaning(b), p + |BranchesText(b, extended)|)
    decreases b, 3
  {
    hide Here, SequenceAt, SequenceEnds, AltDelimiter, SequenceText, Operator, SequenceMeaning, Begins, SequenceOk, Ends,
         BranchesAt;
    HereBehind(pattern, p, BranchesText(b, extended), tail);
    var text := SequenceText(b.sequence, extended);
    if b.Alone? {
      SequenceRead(pattern, p, b.sequence, inGroup, extended, tail);
      BarBehind(pattern, p + |text|, tail, extended);
    } else {
      var bar, rest := Operator('|', extended), BranchesText(b.more, extended);
      BarParts(pattern, p, text, bar, rest, tail);
      BarEnds(rest + tail, inGroup, extended);
      SequenceRead(pattern, p, b.sequence, inGroup, extended, bar + rest + tail);
      BarBehind(pattern, p + |text|, bar + rest + tail, extended);
      MoreRead(pattern, p + |text|, b.more, inGroup, extended, tail, 1);
    }
  }

  lemma BarParts(pattern: seq<byte>, p: nat, text: seq<byte>, bar: seq<byte>, rest: seq<byte>, tail: seq<byte>)
    requires Here(pattern, p, text + bar + rest, tail)
    ensures Here(pattern, p, text, bar + rest + tail) && Here(pattern, p + |text|, bar + rest, tail)
    ensures Here(pattern, p + |text|, bar + rest + tail, []) && bar + rest + tail == bar + (rest + tail)
    ensures bar != [] ==> p + |text| < |pattern|
  {
    assert text + bar + rest == text + (bar + rest);
    HereParts(pattern, p, text, bar + rest, tail);
    assert bar + rest + tail == bar + (rest + tail);
    HereBehind(pattern, p, text, bar + rest + tail);
  }

  lemma BarEnds(rest: seq<byte>, inGroup: bool, extended: bool)
    ensures var text := Operator('|', extended) + rest; Ends(text, inGroup, extended) && Begins(text, '|', extended)
    ensures |Operator('|', extended)| == Width(extended) > 0
  {
  }

  lemma BarBehind(pattern: seq<byte>, p: nat, tail: seq<byte>, extended: bool)
    requires Here(pattern, p, tail, [])
    ensures AltDelimiter(pattern, p, extended) <==> Begins(tail, '|', extended)
  {
    hide AltDelimiter, Begins;
    EndsHere(pattern, p, tail, [], false, extended);
    assert tail + [] == tail;
  }

  lemma {:induction false} MoreRead(pattern: seq<byte>, p: nat, b: Branches, inGroup: bool, extended: bool,
                                    tail: seq<byte>, n: nat)
    requires Here(pattern, p, Operator('|', extended) + BranchesText(b, extended), tail)
    requires BranchesOk(b, inGroup, extended, tail) && n + Count(b) <= 128
    requires p < |pattern| && AltDelimiter(pattern, p, extended)
    ensures BranchesAt(pattern, p, inGroup, extended, n)
         == Ok(MoreMeaning(b), p + |Operator('|', extended)| + |BranchesText(b, extended)|)
    decreases b, 3
  {
    hide Here, SequenceAt, SequenceEnds, AltDelimiter, SequenceText, SequenceMeaning, Begins, SequenceOk, Ends;
    var bar := Operator('|', extended);
    HereParts(pattern, p, bar, BranchesText(b, extended), tail);
    var q, text := p + Width(extended), SequenceText(b.sequence, extended);
    if b.Alone? {
      SequenceRead(pattern, q, b.sequence, inGroup, extended, tail);
      HereBehind(pattern, q, text, tail);
      BarBehind(pattern, q + |text|, tail, extended);
    } else {
      var rest := BranchesText(b.more, extended);
      BarParts(pattern, q, text, bar, rest, tail);
      BarEnds(rest + tail, inGroup, extended);
      SequenceRead(pattern, q, b.sequence, inGroup, extended, bar + rest + tail);
      BarBehind(pattern, q + |text|, bar + rest + tail, extended);
      MoreRead(pattern, q + |text|, b.more, inGroup, extended, tail, n + 1);
    }
  }

  // ----- whole patterns

  predicate PatternOk(b: Branches, extended: bool) {
    BranchesOk(b, false, extended, []) && Count(b) <= 128
  }

  /** A pattern as it is written stands for its expression, in either syntax. */
  lemma PatternRead(b: Branches, extended: bool)
    requires PatternOk(b, extended)
    ensures var text := BranchesText(b, extended); Parse(text, extended) == Ok(BranchesMeaning(b), |text|)
  {
    hide AlternationAt, BranchesOk, BranchesText;
    var text := BranchesText(b, extended);
    assert text[0..] == text + [] == text;
    BranchesRead(text, 0, b, false, extended, []);
  }

  /** Bytes that mean nothing special inside brackets. */
  predicate IsPlain(c: byte) {
    c !in {0, B('\\'), B('['), B(']'), B('^'), B('-')}
  }

  /** `[x-y]` is the set of exactly the bytes from x to y, and `[^x-y]` of exactly the others. */
  lemma SpanPattern(first: byte, last: byte, negated: bool, extended: bool) returns (members: set<byte>)
    requires IsPlain(first) && IsPlain(last) && first <= last
    ensures forall c: byte :: c in members <==> (first <= c <= last) != negated
    ensures var pattern := if negated then [B('['), B('^'), first, B('-'), last, B(']')]
                           else [B('['), first, B('-'), last, B(']')];
            Parse(pattern, extended) == Ok(Group(Cons(Set(members), Once, Empty)), |pattern|)
  {
    hide Parse, BracketSet, InPieces;
    var b := Bracket(negated, false, [Span(Raw(first), Raw(last))]);
    var pattern := Alone(Item(Source.Class(b), Single, Nil));
    var text := if negated then [B('['), B('^'), first, B('-'), last, B(']')] else [B('['), first, B('-'), last, B(']')];
    SpanText(first, last, b);
    SpanOk(first, last, b, extended);
    PatternRead(pattern, extended);
    members := BracketSet(b);
    SpanMembers(first, last, b);
    var item := Item(Source.Class(b), Single, Nil);
    assert SequenceText(item, extended) == text + [] + SequenceText(Nil, extended) && SequenceText(Nil, extended) == [];
    assert text + [] + [] == text && BranchesText(pattern, extended) == text;
    assert SequenceMeaning(item) == Cons(Set(members), Once, SequenceMeaning(Nil));
  }

  lemma SpanText(first: byte, last: byte, b: Bracket)
    requires b.pieces == [Span(Raw(first), Raw(last))] && !b.close
    ensures PiecesText(b.pieces) == [first, B('-'), last]
    ensures BracketText(b) == if b.negated then [B('['), B('^'), first, B('-'), last, B(']')]
                              else [B('['), first, B('-'), last, B(']')]
  {
    assert b.pieces[1..] == [];
    assert PiecesText(b.pieces) == [first, B('-'), last];
  }

  lemma SpanOk(first: byte, last: byte, b: Bracket, extended: bool)
    requires IsPlain(first) && IsPlain(last) && first <= last
    requires b.pieces == [Span(Raw(first), Raw(last))] && !b.close
    ensures PatternOk(Alone(Item(Source.Class(b), Single, Nil)), extended)
  {
    SpanText(first, last, b);
    var rest := b.pieces[1..];
    assert rest == [] && PiecesText(rest) == [] && PiecesOk(rest, [B(']')]);
    assert PieceOk(b.pieces[0], PiecesText(rest) + [B(']')]);
    assert BracketOk(b);
    hide BracketOk, BracketText;
    assert SequenceOk(Nil, false, extended, []);
    assert SequenceText(Nil, extended) + [] == [];
    assert !QuantifierBegins([], extended) && Ends([], false, extended) && !Begins([], '|', extended);
    assert SequenceOk(Item(Source.Class(b), Single, Nil), false, extended, []);
  }

  lemma SpanMembers(first: byte, last: byte, b: Bracket)
    requires b.pieces == [Span(Raw(first), Raw(last))] && !b.close
    ensures forall c: byte :: c in BracketSet(b) <==> (first <= c <= last) != b.negated
  {
    var p := Span(Raw(first), Raw(last));
    forall c: byte
      ensures InPieces(b.pieces, c) <==> first <= c <= last
    {
      assert p in b.pieces && InPiece(p, c) == (first <= c <= last);
    }
  }

  function Letter(c: char, rest: Sequence): Sequence {
    Item(Literal(Raw(B(c))), Single, rest)
  }

  /** In the basic syntax `ab+c` stands for its four bytes in a row, the `+` among them. */
  lemma BasicPlus()
    ensures Parse(Bytes("ab+c"), false)
         == Ok(Group(Cons(Lit(B('a')), Once, Cons(Lit(B('b')), Once, Cons(Lit(B('+')), Once,
                     Cons(Lit(B('c')), Once, Empty))))), 4)
  {
    hide Parse;
    var s1 := Letter('c', Nil);
    var s2 := Letter('+', s1);
    var s3 := Letter('b', s2);
    var s4 := Letter('a', s3);
    assert SequenceText(Nil, false) == [] && SequenceMeaning(Nil) == Empty && SequenceOk(Nil, false, false, []);
    LetterWritten('c', Nil);
    LetterWritten('+', s1);
    LetterWritten('b', s2);
    LetterWritten('a', s3);
    assert SequenceText(s4, false) == [B('a'), B('b'), B('+'), B('c')] == Bytes("ab+c");
    assert PatternOk(Alone(s4), false);
    PatternRead(Alone(s4), false);
  }

  lemma LetterWritten(c: char, rest: Sequence)
    requires c in {'a', 'b', 'c', '+'} && SequenceOk(rest, false, false, [])
    requires !QuantifierBegins(SequenceText(rest, false) + [], false)
    ensures SequenceText(Letter(c, rest), false) == [B(c)] + SequenceText(rest, false)
    ensures SequenceMeaning(Letter(c, rest)) == Cons(Lit(B(c)), Once, SequenceMeaning(rest))
    ensures SequenceOk(Letter(c, rest), false, false, [])
  {
    hide LiteralOk, QuantifierBegins, B, TimesFit, IntervalText;
    LetterOk(c);
    assert [B(c)] + [] == [B(c)];
  }

  lemma LetterOk(c: char)
    requires c in {'a', 'b', 'c', '+'}
    ensures LiteralOk(Raw(B(c)), false, false) && TimesFit(Single)
  {
  }

  // ----- what is written is a C string

  lemma OperatorBytes(extended: bool)
    ensures NoNul(Operator('|', extended)) && NoNul(Operator(')', extended)) && NoNul(Operator('{', extended))
    ensures NoNul(ParenOpens(true, extended)) && NoNul(ParenOpens(false, extended))
  {
  }

  lemma TimesBytes(t: Times, extended: bool)
    requires TimesFit(t)
    ensures NoNul(TimesText(t, extended))
  {
    hide IntervalText;
    if t.Interval? {
      IntervalBytes(t.min, t.upper);
    }
  }

  lemma {:induction false} SourceBytes(s: Source, inGroup: bool, extended: bool, tail: seq<byte>)
    requires SourceOk(s, inGroup, extended, tail)
    ensures NoNul(SourceText(s, extended))
    decreases s, 0
  {
    hide BracketText, BracketOk, BranchesText, BranchesOk, Operator, ParenOpens;
    if s.Class? {
      BracketBytes(s.bracket);
    } else if s.Paren? {
      hide NoNul;
      var open, body, close := ParenOpens(s.captures, extended), BranchesText(s.body, extended), Operator(')', extended);
      OperatorBytes(extended);
      BranchesBytes(s.body, true, extended, close + tail);
      NoNulJoin(open, body);
      NoNulJoin(open + body, close);
    }
  }

  lemma {:induction false} SequenceBytes(s: Sequence, inGroup: bool, extended: bool, tail: seq<byte>)
    requires SequenceOk(s, inGroup, extended, tail)
    ensures NoNul(SequenceText(s, extended))
    decreases s, 1
  {
    hide SourceText, SourceOk, TimesText, TimesFit, QuantifierBegins, NoNul;
    if s.Item? {
      var a, b, c := SourceText(s.source, extended), TimesText(s.times, extended), SequenceText(s.rest, extended);
      SourceBytes(s.source, inGroup, extended, b + (c + tail));
      TimesBytes(s.times, extended);
      SequenceBytes(s.rest, inGroup, extended, tail);
      NoNulJoin(a, b);
      NoNulJoin(a + b, c);
    } else {
      NoBytes();
    }
  }

  /** The text of a pattern in order has no NUL. */
  lemma {:induction false} BranchesBytes(b: Branches, inGroup: bool, extended: bool, tail: seq<byte>)
    requires BranchesOk(b, inGroup, extended, tail)
    ensures NoNul(BranchesText(b, extended))
    decreases b, 2
  {
    hide SequenceText, SequenceOk, Ends, Begins, Operator, NoNul;
    if b.Alone? {
      SequenceBytes(b.sequence, inGroup, extended, tail);
    } else {
      var a, bar, c := SequenceText(b.sequence, extended), Operator('|', extended), BranchesText(b.more, extended);
      SequenceBytes(b.sequence, inGroup, extended, bar + c + tail);
      OperatorBytes(extended);
      BranchesBytes(b.more, inGroup, extended, tail);
      NoNulJoin(a, bar);
      NoNulJoin(a + bar, c);
    }
  }
}
