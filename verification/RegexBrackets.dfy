/**
 Bracket expressions, escapes and intervals as they are written, and what they mean, by value
 (lib/libc_regex.c:120-298, 426-476).
 */
module RegexBrackets {
  import opened Maybe
  import opened RegexVm
  import opened RegexSyntax

  // ----- the rest of a pattern

  /** At `p` the pattern goes on with `part` and then `tail`. */
  predicate Here(pattern: seq<byte>, p: nat, part: seq<byte>, tail: seq<byte>) {
    p <= |pattern| && pattern[p..] == part + tail
  }

  lemma HereAt(pattern: seq<byte>, p: nat, part: seq<byte>, tail: seq<byte>, i: nat)
    requires Here(pattern, p, part, tail)
    ensures At(pattern, p + i) == At(part + tail, i)
    ensures i < |part| ==> p + i < |pattern| && pattern[p + i] == part[i] && At(pattern, p + i) == part[i]
  {
    if p + i < |pattern| {
      assert pattern[p..][i] == pattern[p + i];
    }
  }

  lemma HereBehind(pattern: seq<byte>, p: nat, part: seq<byte>, tail: seq<byte>)
    requires Here(pattern, p, part, tail)
    ensures p + |part| <= |pattern| && pattern[p + |part|..] == tail && Here(pattern, p + |part|, tail, [])
    ensures forall i: nat :: At(pattern, p + |part| + i) == At(tail, i)
  {
    assert pattern[p..][|part|..] == tail;
    assert pattern[p + |part|..] == pattern[p..][|part|..];
    assert tail == tail + [];
    forall i: nat
      ensures At(pattern, p + |part| + i) == At(tail, i)
    {
      if i < |tail| {
        assert pattern[p + |part|..][i] == pattern[p + |part| + i];
      }
    }
  }

  /** A part in two parts. */
  lemma HereParts(pattern: seq<byte>, p: nat, a: seq<byte>, b: seq<byte>, tail: seq<byte>)
    requires Here(pattern, p, a + b, tail)
    ensures Here(pattern, p, a, b + tail) && Here(pattern, p + |a|, b, tail)
  {
    assert a + b + tail == a + (b + tail);
    HereBehind(pattern, p, a, b + tail);
  }

  /** A C string has no NUL inside. */
  predicate NoNul(pattern: seq<byte>) {
    forall i :: 0 <= i < |pattern| ==> pattern[i] != 0
  }

  lemma NoNulJoin(a: seq<byte>, b: seq<byte>)
    requires NoNul(a) && NoNul(b)
    ensures NoNul(a + b)
  {
  }

  // ----- one byte

  /** A byte as it stands, or behind a backslash. */
  datatype Element = Raw(c: byte) | Escaped(k: byte)

  function ElementText(e: Element): seq<byte> {
    match e
    case Raw(c) => [c]
    case Escaped(k) => [B('\\'), k]
  }

  /** Newline, tab, carriage return, form feed, vertical tab, bell and NUL have letters; others stand for themselves. */
  function ElementByte(e: Element): byte {
    match e
    case Raw(c) => c
    case Escaped(k) =>
      if k == B('n') then 10 else if k == B('t') then 9 else if k == B('r') then 13 else if k == B('f') then 12
      else if k == B('v') then 11 else if k == B('a') then 7 else if k == B('0') then 0 else k
  }

  predicate ElementOk(e: Element) {
    match e
    case Raw(c) => c != 0 && c != B('\\')
    case Escaped(k) => k != 0
  }

  lemma ElementRead(pattern: seq<byte>, p: nat, e: Element, tail: seq<byte>)
    requires Here(pattern, p, ElementText(e), tail) && ElementOk(e)
    ensures p < |pattern| && EscapeAt(pattern, p) == Some((ElementByte(e), p + |ElementText(e)|))
  {
    hide Here;
    HereAt(pattern, p, ElementText(e), tail, 0);
    HereAt(pattern, p, ElementText(e), tail, 1);
  }

  // ----- pieces of a bracket expression

  datatype Piece = One(element: Element) | Span(first: Element, last: Element) | Named(name: string)

  const NAMES: set<string> := {"alpha", "digit", "lower", "upper", "space", "blank", "punct", "cntrl", "xdigit", "alnum",
                               "print", "graph"}

  /** The range the compiler takes for a class name: the first of those listed for it, and no other. */
  function NamedBounds(name: string): (byte, byte) {
    if name == "alpha" || name == "lower" then (97, 122)
    else if name == "upper" then (65, 90)
    else if name == "space" then (9, 13)
    else if name == "blank" then (9, 9)
    else if name == "punct" then (33, 47)
    else if name == "cntrl" then (0, 31)
    else if name == "print" then (32, 126)
    else if name == "graph" then (33, 126)
    else (48, 57)
  }

  /** The members a class has by its name. */
  predicate InClass(name: string, c: byte) {
    var lower, upper, digit := 97 <= c <= 122, 65 <= c <= 90, 48 <= c <= 57;
    if name == "alpha" then lower || upper
    else if name == "digit" then digit
    else if name == "lower" then lower
    else if name == "upper" then upper
    else if name == "space" then c == 32 || 9 <= c <= 13
    else if name == "blank" then c == 32 || c == 9
    else if name == "punct" then 33 <= c <= 126 && !lower && !upper && !digit
    else if name == "cntrl" then c < 32 || c == 127
    else if name == "xdigit" then digit || 97 <= c <= 102 || 65 <= c <= 70
    else if name == "alnum" then lower || upper || digit
    else if name == "print" then 32 <= c <= 126
    else name == "graph" && 33 <= c <= 126
  }

  function ClassText(name: string): seq<byte> {
    Bytes("[:") + Bytes(name) + Bytes(":]")
  }

  function PieceText(p: Piece): seq<byte> {
    match p
    case One(e) => ElementText(e)
    case Span(first, last) => ElementText(first) + [B('-')] + ElementText(last)
    case Named(name) => ClassText(name)
  }

  predicate InPiece(p: Piece, c: byte) {
    match p
    case One(e) => c == ElementByte(e)
    case Span(first, last) => ElementByte(first) <= c <= ElementByte(last)
    case Named(name) => NamedBounds(name).0 <= c <= NamedBounds(name).1
  }

  /** How a piece may stand before the text that follows it. */
  predicate PieceOk(p: Piece, tail: seq<byte>) {
    match p
    case One(e) =>
      && ElementOk(e) && e != Raw(B(']')) && (e == Raw(B('[')) ==> At(tail, 0) != B(':'))
      && (At(tail, 0) == B('-') ==> At(tail, 1) == B(']') || At(tail, 1) == 0)
    case Span(first, last) =>
      && ElementOk(first) && ElementOk(last) && first != Raw(B(']')) && last != Raw(B(']'))
      && ElementByte(first) <= ElementByte(last)
    case Named(name) => name in NAMES
  }

  function PiecesText(ps: seq<Piece>): seq<byte> {
    if ps == [] then [] else PieceText(ps[0]) + PiecesText(ps[1..])
  }

  predicate PiecesOk(ps: seq<Piece>, tail: seq<byte>) {
    ps != [] ==> PieceOk(ps[0], PiecesText(ps[1..]) + tail) && PiecesOk(ps[1..], tail)
  }

  predicate InPieces(ps: seq<Piece>, c: byte) {
    exists p <- ps :: InPiece(p, c)
  }

  // ----- class names

  /** The name, its colon and the closing bracket, from the place behind `[:` on. */
  predicate NameHere(pattern: seq<byte>, p: nat, name: string) {
    && (forall i :: 0 <= i < |name| ==> At(pattern, p + i) == B(name[i]))
    && At(pattern, p + |name|) == B(':') && At(pattern, p + |name| + 1) == B(']')
  }

  lemma {:induction false} RowFound(pattern: seq<byte>, p: nat, row: nat, found: nat)
    requires p <= |pattern| && row <= found < |CLASSES|
    requires forall r :: row <= r < found ==> !RowMatches(pattern, p, r)
    requires RowMatches(pattern, p, found)
    ensures var (name, first, last) := CLASSES[found];
            NamedRow(pattern, p, row) == Some((Range(B(first), B(last)), p + |name| + 1))
    decreases found - row
  {
    if row < found {
      assert !RowMatches(pattern, p, row);
      RowFound(pattern, p, row + 1, found);
    }
  }

  predicate RowMatches(pattern: seq<byte>, p: nat, row: nat)
    requires row < |CLASSES|
  {
    HasName(pattern, p, CLASSES[row].0) && At(pattern, p + |CLASSES[row].0|) == B(']')
  }

  /** Where the rows of a name begin. */
  function RowOf(name: string): nat {
    if name == "alpha" then 0 else if name == "digit" then 2 else if name == "lower" then 3 else if name == "upper" then 4
    else if name == "space" then 5 else if name == "blank" then 7 else if name == "punct" then 9
    else if name == "cntrl" then 13 else if name == "xdigit" then 15 else if name == "alnum" then 18
    else if name == "print" then 21 else 22
  }

  /** Letters, and a colon at the end only. */
  predicate IsTag(tag: string) {
    && |tag| >= 6 && tag[|tag| - 1] == ':'
    && forall i :: 0 <= i < |tag| - 1 ==> 'a' <= tag[i] <= 'z'
  }

  lemma TagsAre(row: nat)
    requires row < |CLASSES|
    ensures IsTag(CLASSES[row].0)
  {
  }

  lemma RowsBefore(name: string, row: nat)
    requires name in NAMES && row < RowOf(name)
    ensures |name| >= 3 && |CLASSES[row].0| >= 3
    ensures var tag := CLASSES[row].0; tag[0] != name[0] || tag[1] != name[1] || tag[2] != name[2]
  {
  }

  lemma RowIs(name: string)
    requires name in NAMES
    ensures var row := RowOf(name);
            && row < |CLASSES| && CLASSES[row].0 == name + ":"
            && (B(CLASSES[row].1), B(CLASSES[row].2)) == NamedBounds(name)
  {
    assert NameOf(RowOf(name)) == name;
    RowTag(RowOf(name));
    RowBounds(RowOf(name));
  }

  lemma RowBounds(row: nat)
    requires row in {0, 2, 3, 4, 5, 7, 9, 13, 15, 18, 21, 22}
    ensures row < |CLASSES| && (B(CLASSES[row].1), B(CLASSES[row].2)) == NamedBounds(NameOf(row))
  {
  }

  /** A class name stands for its range. */
  lemma NamedRead(pattern: seq<byte>, p: nat, name: string, tail: seq<byte>)
    requires name in NAMES && Here(pattern, p, ClassText(name), tail)
    ensures var (first, last) := NamedBounds(name);
            NamedClassAt(pattern, p) == Some((Range(first, last), p + |name| + 4))
  {
    hide Here, NamedRow, HasName, NamedBounds, B;
    NameStands(pattern, p, name, tail);
    var q, row := p + 2, RowOf(name);
    RowIs(name);
    forall r: nat | r < row
      ensures !RowMatches(pattern, q, r)
    {
      OtherRow(pattern, q, name, r);
    }
    RowHere(pattern, q, name, row);
    RowFound(pattern, q, 0, row);
  }

  lemma NameStands(pattern: seq<byte>, p: nat, name: string, tail: seq<byte>)
    requires Here(pattern, p, ClassText(name), tail)
    ensures p + 2 <= |pattern| && At(pattern, p) == B('[') && At(pattern, p + 1) == B(':')
    ensures NameHere(pattern, p + 2, name)
  {
    hide Here;
    var text, n := ClassText(name), |name|;
    HereAt(pattern, p, text, tail, 0);
    HereAt(pattern, p, text, tail, 1);
    HereAt(pattern, p, text, tail, n + 2);
    HereAt(pattern, p, text, tail, n + 3);
    forall i | 0 <= i < n
      ensures At(pattern, p + 2 + i) == B(name[i])
    {
      HereAt(pattern, p, text, tail, 2 + i);
    }
  }

  lemma RowHere(pattern: seq<byte>, p: nat, name: string, row: nat)
    requires row < |CLASSES| && CLASSES[row].0 == name + ":" && NameHere(pattern, p, name)
    ensures RowMatches(pattern, p, row)
  {
  }

  lemma OtherRow(pattern: seq<byte>, p: nat, name: string, row: nat)
    requires name in NAMES && row < RowOf(name) && NameHere(pattern, p, name)
    ensures !RowMatches(pattern, p, row)
  {
    hide B, RowOf;
    RowIs(name);
    RowsBefore(name, row);
    TagsAre(row);
    LettersOnly(name);
    var tag := CLASSES[row].0;
    if forall i :: 0 <= i < 3 ==> At(pattern, p + i) == B(tag[i]) {
      forall i | 0 <= i < 3
        ensures tag[i] == name[i]
      {
        SameLetter(tag[i], name[i]);
      }
    }
  }

  lemma LettersOnly(name: string)
    requires name in NAMES
    ensures |name| >= 5 && forall i :: 0 <= i < |name| ==> 'a' <= name[i] <= 'z'
  {
  }

  lemma SameLetter(a: char, b: char)
    requires 'a' <= a <= 'z' && 'a' <= b <= 'z' && B(a) == B(b)
    ensures a == b
  {
  }

  /** The compiler's range is the whole class for five of the twelve names. */
  lemma ClassComplete(name: string)
    requires name in NAMES
    ensures (forall c: byte :: InPiece(Named(name), c) ==> InClass(name, c))
    ensures (forall c: byte :: InPiece(Named(name), c) <==> InClass(name, c))
       <==> name in {"digit", "lower", "upper", "print", "graph"}
  {
    var missing: byte := if name == "alpha" then 65 else if name == "space" || name == "blank" then 32
                         else if name == "punct" then 58 else if name == "cntrl" then 127 else 65;
    assert name !in {"digit", "lower", "upper", "print", "graph"} ==>
        InClass(name, missing) && !InPiece(Named(name), missing);
  }

  // ----- the members of a bracket expression

  function PieceSet(p: Piece): set<byte> {
    set c: byte | InPiece(p, c)
  }

  function PiecesSet(ps: seq<Piece>): set<byte> {
    set c: byte | InPieces(ps, c)
  }

  lemma FirstInPieces(ps: seq<Piece>)
    ensures ps == [] ==> PiecesSet(ps) == {}
    ensures ps != [] ==> PiecesSet(ps) == PieceSet(ps[0]) + PiecesSet(ps[1..])
  {
    if ps != [] {
      assert ps == [ps[0]] + ps[1..];
      hide InPiece;
      forall c: byte
        ensures InPieces(ps, c) <==> InPiece(ps[0], c) || InPieces(ps[1..], c)
      {
      }
    }
  }

  /** What an element looks like where it begins. */
  lemma ElementLead(pattern: seq<byte>, p: nat, e: Element, tail: seq<byte>)
    requires Here(pattern, p, ElementText(e), tail) && ElementOk(e) && e != Raw(B(']'))
    requires e == Raw(B('[')) ==> At(tail, 0) != B(':')
    ensures At(pattern, p) != 0 && At(pattern, p) != B(']')
    ensures !(At(pattern, p) == B('[') && At(pattern, p + 1) == B(':'))
  {
    hide Here;
    HereAt(pattern, p, ElementText(e), tail, 0);
    HereAt(pattern, p, ElementText(e), tail, 1);
  }

  lemma NoNameHere(pattern: seq<byte>, p: nat)
    requires p <= |pattern| && !(At(pattern, p) == B('[') && At(pattern, p + 1) == B(':'))
    ensures NamedClassAt(pattern, p).None?
  {
    hide NamedRow;
  }

  lemma OneRead(pattern: seq<byte>, p: nat, e: Element, tail: seq<byte>, acc: set<byte>)
    requires Here(pattern, p, ElementText(e), tail) && PieceOk(One(e), tail)
    ensures p + |ElementText(e)| <= |pattern|
    ensures Members(pattern, p, acc) == Members(pattern, p + |ElementText(e)|, acc + {ElementByte(e)})
  {
    hide Here, EscapeAt, NamedClassAt, ElementText;
    ElementLead(pattern, p, e, tail);
    NoNameHere(pattern, p) by { HereInside(pattern, p, ElementText(e), tail); }
    ElementRead(pattern, p, e, tail);
    HereBehind(pattern, p, ElementText(e), tail);
    assert At(pattern, p + |ElementText(e)| + 0) == At(tail, 0) && At(pattern, p + |ElementText(e)| + 1) == At(tail, 1);
  }

  lemma HereInside(pattern: seq<byte>, p: nat, part: seq<byte>, tail: seq<byte>)
    requires Here(pattern, p, part, tail)
    ensures p <= |pattern|
  {
  }

  lemma SpanRead(pattern: seq<byte>, p: nat, first: Element, last: Element, tail: seq<byte>, acc: set<byte>)
    requires Here(pattern, p, PieceText(Span(first, last)), tail)
    requires ElementOk(first) && ElementOk(last) && first != Raw(B(']')) && last != Raw(B(']'))
    ensures var next := p + |PieceText(Span(first, last))|;
            && next <= |pattern|
            && Members(pattern, p, acc)
               == if ElementByte(last) < ElementByte(first) then Fail(REG_ERANGE)
                  else Members(pattern, next, acc + Range(ElementByte(first), ElementByte(last)))
  {
    hide Here, EscapeAt, NamedClassAt, ElementText, ElementByte, ElementOk, Members;
    SpanParts(pattern, p, first, last, tail);
    var a, b := ElementText(first), ElementText(last);
    var more := [B('-')] + (b + tail);
    ElementLead(pattern, p, first, more);
    NoNameHere(pattern, p) by { HereInside(pattern, p, a, more); }
    ElementRead(pattern, p, first, more);
    LastLead(pattern, p + |a| + 1, last, tail);
    ElementRead(pattern, p + |a| + 1, last, tail);
    HereBehind(pattern, p + |a| + 1, b, tail);
    SpanMembers(pattern, p, p + |a|, ElementByte(first), p + |a| + 1 + |b|, ElementByte(last), acc);
  }

  lemma SpanParts(pattern: seq<byte>, p: nat, first: Element, last: Element, tail: seq<byte>)
    requires Here(pattern, p, PieceText(Span(first, last)), tail)
    ensures var a, b := ElementText(first), ElementText(last);
            && Here(pattern, p, a, [B('-')] + (b + tail)) && Here(pattern, p + |a| + 1, b, tail)
            && At(pattern, p + |a|) == B('-') && |PieceText(Span(first, last))| == |a| + 1 + |b|
  {
    hide Here, ElementText;
    var a, b := ElementText(first), ElementText(last);
    HereParts(pattern, p, a + [B('-')], b, tail);
    HereParts(pattern, p, a, [B('-')], b + tail);
    HereAt(pattern, p + |a|, [B('-')], b + tail, 0);
    assert |a + [B('-')]| == |a| + 1;
  }

  lemma SpanMembers(pattern: seq<byte>, p: nat, q: nat, first: byte, next: nat, last: byte, acc: set<byte>)
    requires p < |pattern| && At(pattern, p) != 0 && At(pattern, p) != B(']') && NamedClassAt(pattern, p).None?
    requires !(At(pattern, p) == B('[') && At(pattern, p + 1) == B(':'))
    requires EscapeAt(pattern, p) == Some((first, q)) && At(pattern, q) == B('-')
    requires At(pattern, q + 1) != 0 && At(pattern, q + 1) != B(']')
    requires q + 1 < |pattern| && EscapeAt(pattern, q + 1) == Some((last, next)) && next <= |pattern|
    ensures Members(pattern, p, acc)
         == if last < first then Fail(REG_ERANGE) else Members(pattern, next, acc + Range(first, last))
  {
    hide EscapeAt, NamedClassAt, Range;
  }

  lemma LastLead(pattern: seq<byte>, p: nat, e: Element, tail: seq<byte>)
    requires Here(pattern, p, ElementText(e), tail) && ElementOk(e) && e != Raw(B(']'))
    ensures At(pattern, p) != 0 && At(pattern, p) != B(']')
  {
    hide Here;
    HereAt(pattern, p, ElementText(e), tail, 0);
  }

  lemma NameRead(pattern: seq<byte>, p: nat, name: string, tail: seq<byte>, acc: set<byte>)
    requires Here(pattern, p, ClassText(name), tail) && name in NAMES
    ensures var (first, last) := NamedBounds(name);
            && p + |ClassText(name)| <= |pattern|
            && Members(pattern, p, acc) == Members(pattern, p + |ClassText(name)|, acc + Range(first, last))
  {
    hide Here, NamedClassAt, NamedBounds;
    NamedRead(pattern, p, name, tail);
    HereBehind(pattern, p, ClassText(name), tail);
    HereAt(pattern, p, ClassText(name), tail, 0);
  }

  lemma PieceRead(pattern: seq<byte>, p: nat, piece: Piece, tail: seq<byte>, acc: set<byte>)
    requires Here(pattern, p, PieceText(piece), tail) && PieceOk(piece, tail)
    ensures p + |PieceText(piece)| <= |pattern|
    ensures Members(pattern, p, acc) == Members(pattern, p + |PieceText(piece)|, acc + PieceSet(piece))
  {
    hide Here, Members, ElementText, ClassText, NamedBounds, ElementByte;
    match piece
    case One(e) =>
      OneRead(pattern, p, e, tail, acc);
      assert PieceSet(piece) == {ElementByte(e)};
    case Span(first, last) =>
      SpanRead(pattern, p, first, last, tail, acc);
      assert PieceSet(piece) == Range(ElementByte(first), ElementByte(last));
    case Named(name) =>
      NameRead(pattern, p, name, tail, acc);
      assert PieceSet(piece) == Range(NamedBounds(name).0, NamedBounds(name).1);
  }

  /** The pieces are read one after the other, and their members added. */
  lemma {:induction false} PiecesRead(pattern: seq<byte>, p: nat, ps: seq<Piece>, tail: seq<byte>, acc: set<byte>)
    requires Here(pattern, p, PiecesText(ps), tail) && PiecesOk(ps, tail)
    ensures p + |PiecesText(ps)| <= |pattern|
    ensures Members(pattern, p, acc) == Members(pattern, p + |PiecesText(ps)|, acc + PiecesSet(ps))
    decreases |ps|
  {
    hide Here, Members, PieceText, PieceOk, PiecesSet, PieceSet;
    FirstInPieces(ps);
    HereBehind(pattern, p, PiecesText(ps), tail);
    if ps == [] {
      assert acc + {} == acc;
    } else {
      var text, rest := PieceText(ps[0]), PiecesText(ps[1..]);
      HereParts(pattern, p, text, rest, tail);
      PieceRead(pattern, p, ps[0], rest + tail, acc);
      PiecesRead(pattern, p + |text|, ps[1..], tail, acc + PieceSet(ps[0]));
      assert acc + PieceSet(ps[0]) + PiecesSet(ps[1..]) == acc + (PieceSet(ps[0]) + PiecesSet(ps[1..]));
    }
  }

  // ----- whole bracket expressions

  /** A bracket expression; `close` says that a closing bracket stands first and is a member. */
  datatype Bracket = Bracket(negated: bool, close: bool, pieces: seq<Piece>)

  function Opening(b: Bracket): seq<byte> {
    [B('[')] + (if b.negated then [B('^')] else []) + (if b.close then [B(']')] else [])
  }

  function BracketText(b: Bracket): seq<byte> {
    Opening(b) + PiecesText(b.pieces) + [B(']')]
  }

  /** The bytes a bracket expression stands for. */
  predicate InBracket(b: Bracket, c: byte) {
    ((b.close && c == B(']')) || InPieces(b.pieces, c)) != b.negated
  }

  function BracketSet(b: Bracket): set<byte> {
    set c: byte | InBracket(b, c)
  }

  /** What follows the opening is neither a `^` nor a closing bracket that would belong to it. */
  predicate OpeningEnds(b: Bracket, tail: seq<byte>) {
    && (!b.negated && !b.close ==> At(tail, 0) != B('^'))
    && (!b.close ==> At(tail, 0) != B(']'))
  }

  predicate BracketOk(b: Bracket) {
    PiecesOk(b.pieces, [B(']')]) && OpeningEnds(b, PiecesText(b.pieces) + [B(']')])
  }

  lemma OpeningStands(pattern: seq<byte>, p: nat, b: Bracket, tail: seq<byte>)
    requires Here(pattern, p, Opening(b), tail) && OpeningEnds(b, tail)
    ensures p < |pattern| && pattern[p] == B('[') && p + |Opening(b)| <= |pattern|
    ensures At(pattern, p + 1) == B('^') <==> b.negated
    ensures var p1 := if b.negated then p + 2 else p + 1;
            (At(pattern, p1) == B(']') <==> b.close) && p + |Opening(b)| == if b.close then p1 + 1 else p1
  {
    hide Here;
    HereAt(pattern, p, Opening(b), tail, 0);
    HereAt(pattern, p, Opening(b), tail, 1);
    HereAt(pattern, p, Opening(b), tail, 2);
    HereBehind(pattern, p, Opening(b), tail);
  }

  /** Behind the opening the members are read. */
  lemma OpeningRead(pattern: seq<byte>, p: nat, b: Bracket, tail: seq<byte>)
    requires Here(pattern, p, Opening(b), tail) && OpeningEnds(b, tail)
    ensures p < |pattern| && pattern[p] == B('[') && p + |Opening(b)| <= |pattern|
    ensures BracketAt(pattern, p)
         == match Members(pattern, p + |Opening(b)|, if b.close then {B(']')} else {})
            case Fail(code) => Fail(code)
            case Ok(s, next) => if At(pattern, next) != B(']') then Fail(REG_EBRACK)
                                else Ok(if b.negated then Range(0, 255) - s else s, next + 1)
  {
    hide Here, Members, Opening, OpeningEnds, Range;
    OpeningStands(pattern, p, b, tail);
  }

  lemma AllBytes(s: set<byte>)
    ensures Range(0, 255) - s == set c: byte | c !in s
  {
  }

  lemma BracketParts(pattern: seq<byte>, p: nat, b: Bracket, tail: seq<byte>)
    requires Here(pattern, p, BracketText(b), tail) && BracketOk(b)
    ensures var open, text, close := Opening(b), PiecesText(b.pieces), [B(']')];
            && Here(pattern, p, open, text + (close + tail)) && Here(pattern, p + |open|, text, close + tail)
            && At(pattern, p + |open| + |text|) == B(']') && |BracketText(b)| == |open| + |text| + 1
            && OpeningEnds(b, text + (close + tail)) && PiecesOk(b.pieces, close + tail)
  {
    hide Here, Opening, PiecesText, PieceOk, PiecesOk, OpeningEnds;
    var open, text, close := Opening(b), PiecesText(b.pieces), [B(']')];
    HereParts(pattern, p, open + text, close, tail);
    HereParts(pattern, p, open, text, close + tail);
    SameOpening(b, text + close, tail);
    SamePieces(b.pieces, close, tail);
    assert text + (close + tail) == (text + close) + tail && |open + text| == |open| + |text|;
    HereAt(pattern, p + |open + text|, close, tail, 0);
  }

  /** A bracket expression is read as the set of its bytes, in either syntax. */
  lemma BracketRead(pattern: seq<byte>, p: nat, b: Bracket, tail: seq<byte>)
    requires Here(pattern, p, BracketText(b), tail) && BracketOk(b)
    ensures p < |pattern| && pattern[p] == B('[')
    ensures BracketAt(pattern, p) == Ok(BracketSet(b), p + |BracketText(b)|)
  {
    hide Here, Members, Opening, PiecesText, BracketAt, InPieces, PiecesOk, BracketText, BracketOk, OpeningEnds, Range,
         BracketSet, PiecesSet;
    var open, text, close := Opening(b), PiecesText(b.pieces), [B(']')];
    BracketParts(pattern, p, b, tail);
    OpeningRead(pattern, p, b, text + (close + tail));
    var acc: set<byte> := if b.close then {B(']')} else {};
    PiecesRead(pattern, p + |open|, b.pieces, close + tail, acc);
    MembersEnd(pattern, p + |open| + |text|, acc + PiecesSet(b.pieces));
    BracketMembers(b, acc);
  }

  lemma MembersEnd(pattern: seq<byte>, p: nat, acc: set<byte>)
    requires p <= |pattern| && (At(pattern, p) == B(']') || At(pattern, p) == 0)
    ensures Members(pattern, p, acc) == Ok(acc, p)
  {
  }

  lemma BracketMembers(b: Bracket, acc: set<byte>)
    requires acc == if b.close then {B(']')} else {}
    ensures BracketSet(b) == if b.negated then Range(0, 255) - (acc + PiecesSet(b.pieces)) else acc + PiecesSet(b.pieces)
  {
    hide InPieces;
    AllBytes(acc + PiecesSet(b.pieces));
  }

  lemma SameOpening(b: Bracket, part: seq<byte>, tail: seq<byte>)
    requires OpeningEnds(b, part) && part != []
    ensures OpeningEnds(b, part + tail)
  {
  }

  /** What follows the closing bracket does not matter to the pieces. */
  lemma {:induction false} SamePieces(ps: seq<Piece>, close: seq<byte>, tail: seq<byte>)
    requires PiecesOk(ps, close) && close == [B(']')]
    ensures PiecesOk(ps, close + tail)
    decreases |ps|
  {
    hide PieceText;
    if ps != [] {
      SamePieces(ps[1..], close, tail);
      var rest := PiecesText(ps[1..]);
      assert rest + (close + tail) == (rest + close) + tail;
      SamePiece(ps[0], rest, close, tail);
    }
  }

  lemma SamePiece(p: Piece, rest: seq<byte>, close: seq<byte>, tail: seq<byte>)
    requires PieceOk(p, rest + close) && close == [B(']')]
    ensures PieceOk(p, (rest + close) + tail)
  {
  }

  // ----- bracket expressions that are refused

  /** Opening and pieces as they should be, and then something on which reading the members fails. */
  lemma BracketFails(pattern: seq<byte>, p: nat, b: Bracket, q: nat, tail: seq<byte>, code: int)
    requires Here(pattern, p, Opening(b) + PiecesText(b.pieces), tail)
    requires PiecesOk(b.pieces, tail) && OpeningEnds(b, PiecesText(b.pieces) + tail)
    requires q == p + |Opening(b)| + |PiecesText(b.pieces)| && q <= |pattern|
    requires forall acc :: Members(pattern, q, acc) == Fail(code)
    ensures p < |pattern| && BracketAt(pattern, p) == Fail(code)
  {
    hide Here, Members, Opening, PiecesText, PieceOk, BracketAt, InPieces, PiecesOk;
    var open, text := Opening(b), PiecesText(b.pieces);
    HereParts(pattern, p, open, text, tail);
    OpeningRead(pattern, p, b, text + tail);
    PiecesRead(pattern, p + |open|, b.pieces, tail, if b.close then {B(']')} else {});
  }

  /** Without its closing bracket: REG_EBRACK. */
  lemma BracketUnclosed(pattern: seq<byte>, p: nat, b: Bracket)
    requires Here(pattern, p, Opening(b) + PiecesText(b.pieces), [])
    requires PiecesOk(b.pieces, []) && OpeningEnds(b, PiecesText(b.pieces))
    ensures p < |pattern| && BracketAt(pattern, p) == Fail(7)
  {
    hide Here, Members, Opening, PiecesText, PieceOk, BracketAt, InPieces, PiecesOk;
    var open, text := Opening(b), PiecesText(b.pieces);
    HereBehind(pattern, p, open + text, []);
    assert |open + text| == |open| + |text| && text + [] == text;
    HereParts(pattern, p, open, text, []);
    OpeningRead(pattern, p, b, text + []);
    var acc: set<byte> := if b.close then {B(']')} else {};
    PiecesRead(pattern, p + |open|, b.pieces, [], acc);
    MembersEnd(pattern, p + |open| + |text|, acc + PiecesSet(b.pieces));
  }

  /** A range whose last byte comes before its first: REG_ERANGE. */
  lemma BracketReversed(pattern: seq<byte>, p: nat, b: Bracket, first: Element, last: Element, tail: seq<byte>)
    requires var span := PieceText(Span(first, last)) + tail;
             && Here(pattern, p, Opening(b) + PiecesText(b.pieces), span)
             && PiecesOk(b.pieces, span) && OpeningEnds(b, PiecesText(b.pieces) + span)
    requires ElementOk(first) && ElementOk(last) && first != Raw(B(']')) && last != Raw(B(']'))
    requires ElementByte(last) < ElementByte(first)
    ensures p < |pattern| && BracketAt(pattern, p) == Fail(11)
  {
    hide Here, Members, Opening, PiecesText, PieceOk, BracketAt, InPieces, PiecesOk, PieceText;
    var before, span := Opening(b) + PiecesText(b.pieces), PieceText(Span(first, last));
    HereParted(pattern, p, before, span, tail);
    var q := p + |before|;
    forall acc
      ensures Members(pattern, q, acc) == Fail(11)
    {
      SpanRead(pattern, q, first, last, tail, acc);
    }
    BracketFails(pattern, p, b, q, span + tail, 11);
  }

  lemma HereParted(pattern: seq<byte>, p: nat, a: seq<byte>, b: seq<byte>, tail: seq<byte>)
    requires Here(pattern, p, a, b + tail)
    ensures p + |a| <= |pattern| && Here(pattern, p + |a|, b, tail)
  {
    HereBehind(pattern, p, a, b + tail);
  }

  /** `[:` without one of the names behind it: REG_ECTYPE. */
  lemma BracketUnnamed(pattern: seq<byte>, p: nat, b: Bracket, tail: seq<byte>)
    requires var name := Bytes("[:") + tail;
             && Here(pattern, p, Opening(b) + PiecesText(b.pieces), name)
             && PiecesOk(b.pieces, name) && OpeningEnds(b, PiecesText(b.pieces) + name)
    requires forall name <- NAMES :: !NameHere(tail, 0, name)
    ensures p < |pattern| && BracketAt(pattern, p) == Fail(4)
  {
    hide Here, Members, Opening, PiecesText, PieceOk, BracketAt, InPieces, PiecesOk;
    hide NAMES, NameHere, Bytes;
    var before, open := Opening(b) + PiecesText(b.pieces), Bytes("[:");
    HereParted(pattern, p, before, open, tail);
    HereBehind(pattern, p, before, open + tail);
    var q := p + |before|;
    forall acc
      ensures Members(pattern, q, acc) == Fail(4)
    {
      UnnamedHere(pattern, q, tail, acc);
    }
    BracketFails(pattern, p, b, q, open + tail, 4);
  }

  lemma UnnamedHere(pattern: seq<byte>, q: nat, tail: seq<byte>, acc: set<byte>)
    requires Here(pattern, q, Bytes("[:"), tail) && q <= |pattern| && forall name <- NAMES :: !NameHere(tail, 0, name)
    ensures Members(pattern, q, acc) == Fail(4)
  {
    hide Here, Members, NAMES, NameHere;
    var open := Bytes("[:");
    HereAt(pattern, q, open, tail, 0);
    HereAt(pattern, q, open, tail, 1);
    HereBehind(pattern, q, open, tail);
    NoRow(pattern, q + 2, tail, 0);
    UnnamedMembers(pattern, q, acc);
  }

  lemma UnnamedMembers(pattern: seq<byte>, p: nat, acc: set<byte>)
    requires p + 2 <= |pattern| && At(pattern, p) == B('[') && At(pattern, p + 1) == B(':')
    requires NamedRow(pattern, p + 2, 0).None?
    ensures Members(pattern, p, acc) == Fail(4)
  {
    hide NamedRow, EscapeAt;
  }

  lemma {:induction false} NoRow(pattern: seq<byte>, p: nat, tail: seq<byte>, row: nat)
    requires row <= |CLASSES| && p <= |pattern| && forall i: nat :: At(pattern, p + i) == At(tail, i)
    requires forall name <- NAMES :: !NameHere(tail, 0, name)
    ensures NamedRow(pattern, p, row).None?
    decreases |CLASSES| - row
  {
    if row < |CLASSES| {
      NoRow(pattern, p, tail, row + 1);
      hide RowMatches, HasName, NameHere;
      RowNamed(pattern, p, tail, row);
      UnmatchedRow(pattern, p, row);
    }
  }

  lemma UnmatchedRow(pattern: seq<byte>, p: nat, row: nat)
    requires row < |CLASSES| && p <= |pattern| && !RowMatches(pattern, p, row)
    ensures NamedRow(pattern, p, row) == NamedRow(pattern, p, row + 1)
  {
  }

  /** A row matches only where its name stands. */
  lemma RowNamed(pattern: seq<byte>, p: nat, tail: seq<byte>, row: nat)
    requires row < |CLASSES| && forall i: nat :: At(pattern, p + i) == At(tail, i)
    ensures NameOf(row) in NAMES && (RowMatches(pattern, p, row) ==> NameHere(tail, 0, NameOf(row)))
  {
    var name := NameOf(row);
    var tag, n := name + ":", |name|;
    RowTag(row);
    hide B;
    if RowMatches(pattern, p, row) {
      assert At(pattern, p + n) == At(tail, n) == B(tag[n]);
      assert At(pattern, p + (n + 1)) == At(tail, n + 1);
      forall i | 0 <= i < n
        ensures At(tail, 0 + i) == B(name[i])
      {
        assert At(pattern, p + i) == B(tag[i]) && At(pattern, p + i) == At(tail, i);
      }
    }
  }

  function NameOf(row: nat): string {
    if row < 2 then "alpha" else if row < 3 then "digit" else if row < 4 then "lower" else if row < 5 then "upper"
    else if row < 7 then "space" else if row < 9 then "blank" else if row < 13 then "punct"
    else if row < 15 then "cntrl" else if row < 18 then "xdigit" else if row < 21 then "alnum"
    else if row < 22 then "print" else "graph"
  }

  lemma RowTag(row: nat)
    requires row < |CLASSES|
    ensures NameOf(row) in NAMES && CLASSES[row].0 == NameOf(row) + ":"
  {
  }

  /** A backslash at the end of the pattern: REG_EESCAPE. */
  lemma BracketCutOff(pattern: seq<byte>, p: nat, b: Bracket)
    requires var cut := [B('\\')];
             && Here(pattern, p, Opening(b) + PiecesText(b.pieces), cut)
             && PiecesOk(b.pieces, cut) && OpeningEnds(b, PiecesText(b.pieces) + cut)
    ensures p < |pattern| && BracketAt(pattern, p) == Fail(5)
  {
    hide Here, Members, Opening, PiecesText, PieceOk, BracketAt, InPieces, PiecesOk;
    var before, cut := Opening(b) + PiecesText(b.pieces), [B('\\')];
    HereBehind(pattern, p, before, cut);
    var q := p + |before|;
    assert At(pattern, q + 0) == At(cut, 0) && At(pattern, q + 1) == At(cut, 1);
    forall acc
      ensures Members(pattern, q, acc) == Fail(5)
    {
      CutOffMembers(pattern, q, acc);
    }
    BracketFails(pattern, p, b, q, cut, 5);
  }

  lemma CutOffMembers(pattern: seq<byte>, p: nat, acc: set<byte>)
    requires p < |pattern| && At(pattern, p) == B('\\') && At(pattern, p + 1) == 0
    ensures Members(pattern, p, acc) == Fail(5)
  {
    hide NamedRow;
  }

  // ----- intervals

  predicate AreDigits(ds: seq<byte>) {
    forall i :: 0 <= i < |ds| ==> 48 <= ds[i] <= 57
  }

  function Decimal(ds: seq<byte>): int {
    if ds == [] then 0 else Decimal(ds[..|ds| - 1]) * 10 + ds[|ds| - 1] - 48
  }

  lemma DecimalSnoc(ds: seq<byte>, d: byte)
    ensures Decimal(ds + [d]) == Decimal(ds) * 10 + d - 48
  {
    assert (ds + [d])[..|ds|] == ds;
  }

  lemma {:induction false} DecimalGrows(ds: seq<byte>, more: seq<byte>)
    requires AreDigits(ds) && AreDigits(more)
    ensures 0 <= Decimal(ds) <= Decimal(ds + more)
    decreases |ds| + |more|
  {
    if more != [] {
      var front := more[..|more| - 1];
      DecimalGrows(ds, front);
      assert ds + more == (ds + front) + [more[|more| - 1]];
      DecimalSnoc(ds + front, more[|more| - 1]);
    } else {
      assert ds + more == ds;
      if ds != [] {
        DecimalGrows(ds[..|ds| - 1], []);
      }
    }
  }

  /** A run of digits is read as its number; past 10000 it is refused. */
  lemma {:induction false} DigitsRead(pattern: seq<byte>, p: nat, done: seq<byte>, ds: seq<byte>, tail: seq<byte>)
    requires Here(pattern, p, ds, tail) && AreDigits(done) && AreDigits(ds) && !(48 <= At(tail, 0) <= 57)
    requires 0 <= Decimal(done) <= 10000
    ensures Digits(pattern, p, Decimal(done))
         == if Decimal(done + ds) > 10000 then None else Some((Decimal(done + ds), p + |ds|))
    decreases |ds|
  {
    hide Here, Decimal;
    HereBehind(pattern, p, ds, tail);
    if ds == [] {
      assert done + ds == done;
      assert At(pattern, p + 0) == At(tail, 0);
    } else {
      var d, rest := ds[0], ds[1..];
      assert ds == [d] + rest && done + ds == (done + [d]) + rest;
      HereAt(pattern, p, ds, tail, 0);
      HereParts(pattern, p, [d], rest, tail);
      DecimalSnoc(done, d);
      DecimalGrows(done + [d], rest);
      if Decimal(done + [d]) <= 10000 {
        DigitsRead(pattern, p + 1, done + [d], rest, tail);
      }
    }
  }

  lemma NumberRead(pattern: seq<byte>, p: nat, ds: seq<byte>, tail: seq<byte>)
    requires Here(pattern, p, ds, tail) && AreDigits(ds) && !(48 <= At(tail, 0) <= 57)
    ensures Decimal(ds) >= 0
    ensures Digits(pattern, p, 0) == if Decimal(ds) > 10000 then None else Some((Decimal(ds), p + |ds|))
  {
    hide Here, Digits;
    DecimalGrows(ds, []);
    DecimalGrows([], ds);
    assert [] + ds == ds && Decimal([]) == 0;
    DigitsRead(pattern, p, [], ds, tail);
  }

  /** The upper bound of an interval: the lower one again, none, or a number. */
  datatype Upper = Same | Open | UpTo(digits: seq<byte>)

  function UpperText(u: Upper): seq<byte> {
    match u
    case Same => []
    case Open => [B(',')]
    case UpTo(ds) => [B(',')] + ds
  }

  function IntervalText(min: seq<byte>, u: Upper): seq<byte> {
    min + UpperText(u) + [B('}')]
  }

  function UpperBound(min: seq<byte>, u: Upper): int {
    match u
    case Same => Decimal(min)
    case Open => -1
    case UpTo(ds) => Decimal(ds)
  }

  predicate IntervalOk(min: seq<byte>, u: Upper) {
    AreDigits(min) && (u.UpTo? ==> u.digits != [] && AreDigits(u.digits))
  }

  /** Behind the lower bound: the upper one and the closing brace. */
  lemma UpperRead(pattern: seq<byte>, q: nat, u: Upper, tail: seq<byte>)
    requires Here(pattern, q, UpperText(u) + [B('}')], tail) && (u.UpTo? ==> u.digits != [] && AreDigits(u.digits))
    ensures q < |pattern|
    ensures u.Same? ==> At(pattern, q) == B('}')
    ensures u.Open? ==> At(pattern, q) == B(',') && At(pattern, q + 1) == B('}')
    ensures u.UpTo? ==>
              var end := q + 1 + |u.digits|;
              && At(pattern, q) == B(',') && IsDigit(At(pattern, q + 1)) && q + 1 <= |pattern| && Decimal(u.digits) >= 0
              && Digits(pattern, q + 1, 0) == (if Decimal(u.digits) > 10000 then None else Some((Decimal(u.digits), end)))
              && At(pattern, end) == B('}')
  {
    hide Here, Digits, Decimal;
    var text, close := UpperText(u), [B('}')];
    HereAt(pattern, q, text + close, tail, 0);
    HereAt(pattern, q, text + close, tail, 1);
    if u.UpTo? {
      assert text + close == [B(',')] + (u.digits + close);
      HereParts(pattern, q, [B(',')], u.digits + close, tail);
      HereParts(pattern, q + 1, u.digits, close, tail);
      HereInside(pattern, q + 1, u.digits, close + tail);
      NumberRead(pattern, q + 1, u.digits, close + tail);
      HereAt(pattern, q + 1 + |u.digits|, close, tail, 0);
    }
  }

  /** Without digits the lower bound is 0. */
  lemma IntervalRead(pattern: seq<byte>, p: nat, min: seq<byte>, u: Upper, tail: seq<byte>)
    requires Here(pattern, p, IntervalText(min, u), tail) && IntervalOk(min, u)
    ensures Decimal(min) >= 0 && p <= |pattern| && UpperBound(min, u) >= -1
    ensures IntervalAt(pattern, p)
         == if Decimal(min) > 10000 || UpperBound(min, u) > 10000 then None
            else Some((Decimal(min), UpperBound(min, u), p + |IntervalText(min, u)|))
  {
    hide Here, Digits, Decimal;
    var text, rest := UpperText(u), UpperText(u) + [B('}')];
    IntervalParts(min, u);
    HereParts(pattern, p, min, rest, tail);
    HereInside(pattern, p, min, rest + tail);
    NoDigitLeads(u, tail);
    NumberRead(pattern, p, min, rest + tail);
    UpperRead(pattern, p + |min|, u, tail);
    hide UpperText, AreDigits, IntervalText;
  }

  lemma IntervalParts(min: seq<byte>, u: Upper)
    ensures IntervalText(min, u) == min + (UpperText(u) + [B('}')])
    ensures |IntervalText(min, u)| == |min| + 1 + match u case Same => 0 case Open => 1 case UpTo(ds) => 1 + |ds|
  {
    hide UpperText;
    assert |UpperText(u)| == match u case Same => 0 case Open => 1 case UpTo(ds) => 1 + |ds| by { UpperLength(u); }
  }

  lemma UpperLength(u: Upper)
    ensures |UpperText(u)| == match u case Same => 0 case Open => 1 case UpTo(ds) => 1 + |ds|
  {
  }

  lemma NoDigitLeads(u: Upper, tail: seq<byte>)
    ensures !(48 <= At(UpperText(u) + [B('}')] + tail, 0) <= 57)
  {
  }

  // ----- no NUL is written

  lemma PieceBytes(p: Piece, tail: seq<byte>)
    requires PieceOk(p, tail)
    ensures NoNul(PieceText(p))
  {
    hide Bytes;
    match p {
      case One(e) =>
      case Span(first, last) =>
      case Named(name) =>
        LettersOnly(name);
        NameBytes(name);
    }
  }

  lemma NameBytes(name: string)
    requires forall i :: 0 <= i < |name| ==> 'a' <= name[i] <= 'z'
    ensures NoNul(ClassText(name))
  {
  }

  lemma {:induction false} PiecesBytes(ps: seq<Piece>, tail: seq<byte>)
    requires PiecesOk(ps, tail)
    ensures NoNul(PiecesText(ps))
    decreases |ps|
  {
    hide PieceText, PieceOk, NoNul;
    if ps != [] {
      PieceBytes(ps[0], PiecesText(ps[1..]) + tail);
      PiecesBytes(ps[1..], tail);
      NoNulJoin(PieceText(ps[0]), PiecesText(ps[1..]));
    } else {
      assert NoNul([]) by { NoBytes(); }
    }
  }

  lemma NoBytes()
    ensures NoNul([])
  {
  }

  lemma BracketBytes(b: Bracket)
    requires BracketOk(b)
    ensures NoNul(BracketText(b))
  {
    hide PiecesText, PiecesOk, NoNul;
    PiecesBytes(b.pieces, [B(']')]);
    assert NoNul(Opening(b)) && NoNul([B(']')]) by { FrameBytes(b); }
    NoNulJoin(Opening(b), PiecesText(b.pieces));
    NoNulJoin(Opening(b) + PiecesText(b.pieces), [B(']')]);
  }

  lemma FrameBytes(b: Bracket)
    ensures NoNul(Opening(b)) && NoNul([B(']')])
  {
  }

  lemma IntervalBytes(min: seq<byte>, u: Upper)
    requires IntervalOk(min, u)
    ensures NoNul(IntervalText(min, u))
  {
  }
}
