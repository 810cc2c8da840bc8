/**
 Which patterns the compiler accepts: exactly those that can be written down by their parts, in either
 syntax (lib/libc_regex.c:139-298, 302-476, 506-583, 631-720).
 */
module RegexAccepted {
  import opened Maybe
  import opened RegexVm
  import opened RegexSyntax
  import opened RegexBrackets
  import opened RegexWritten

  lemma RestAt(pattern: seq<byte>, p: nat, i: nat)
    requires p <= |pattern|
    ensures At(pattern, p + i) == At(pattern[p..], i)
  {
    if p + i < |pattern| {
      assert pattern[p..][i] == pattern[p + i];
    }
  }

  lemma TwoSlices(s: seq<byte>, p: nat, q: nat, next: nat)
    requires p <= q <= next <= |s|
    ensures s[p..next] == s[p..q] + s[q..next] && s[q..] == s[q..next] + s[next..]
  {
  }

  lemma ThreeSlices(s: seq<byte>, p: nat, q: nat, r: nat, next: nat)
    requires p <= q <= r <= next <= |s|
    ensures s[p..next] == s[p..q] + s[q..r] + s[r..next]
    ensures s[r..] == s[r..next] + s[next..] && s[q..] == s[q..r] + (s[r..next] + s[next..])
  {
    assert s[q..] == s[q..r] + s[r..];
  }

  // ----- elements and pieces

  lemma ElementWritten(pattern: seq<byte>, p: nat) returns (e: Element)
    requires NoNul(pattern) && p < |pattern| && EscapeAt(pattern, p).Some?
    ensures var (c, next) := EscapeAt(pattern, p).value;
            && ElementOk(e) && ElementByte(e) == c && pattern[p..next] == ElementText(e)
            && (e == Raw(B(']')) ==> At(pattern, p) == B(']'))
            && (e == Raw(B('[')) ==> At(pattern, p) == B('[') && next == p + 1)
  {
    if pattern[p] != B('\\') {
      e := Raw(pattern[p]);
      assert pattern[p..p + 1] == [pattern[p]];
    } else {
      e := Escaped(pattern[p + 1]);
      assert pattern[p..p + 2] == [pattern[p], pattern[p + 1]];
    }
  }

  lemma {:induction false} NameWritten(pattern: seq<byte>, p: nat, row: nat) returns (name: string)
    requires p <= |pattern| && row <= |CLASSES| && NamedRow(pattern, p, row).Some?
    ensures var next := NamedRow(pattern, p, row).value.1;
            name in NAMES && next == p + |name| + 2 && pattern[p..next] == Bytes(name) + Bytes(":]")
    decreases |CLASSES| - row
  {
    if row < |CLASSES| {
      if RowMatches(pattern, p, row) {
        name := NameOf(row);
        RowText(pattern, p, row);
      } else {
        UnmatchedRow(pattern, p, row);
        name := NameWritten(pattern, p, row + 1);
      }
    } else {
      name := "";
    }
  }

  lemma RowText(pattern: seq<byte>, p: nat, row: nat)
    requires p <= |pattern| && row < |CLASSES| && RowMatches(pattern, p, row)
    ensures var name := NameOf(row); var next := p + |name| + 2;
            && name in NAMES && next <= |pattern| && pattern[p..next] == Bytes(name) + Bytes(":]")
            && NamedRow(pattern, p, row).Some? && NamedRow(pattern, p, row).value.1 == next
  {
    var name := NameOf(row);
    var tag, n := name + ":", |name|;
    RowTag(row);
    ColonAndBracket();
    hide B, NameOf;
    assert At(pattern, p + (n + 1)) == B(']') && NamedRow(pattern, p, row).value.1 == p + n + 2;
    forall i | 0 <= i < n + 2
      ensures pattern[p..p + n + 2][i] == (Bytes(name) + Bytes(":]"))[i]
    {
      if i <= n {
        assert At(pattern, p + i) == B(tag[i]);
        TagByte(pattern, p + i, tag[i], row, i);
      }
    }
  }

  lemma ColonAndBracket()
    ensures Bytes(":]") == [B(':'), B(']')] && B(']') != 0
  {
  }

  /** The bytes of a class name are not NUL. */
  lemma TagByte(pattern: seq<byte>, p: nat, c: char, row: nat, i: nat)
    requires row < |CLASSES| && i < |CLASSES[row].0| && CLASSES[row].0[i] == c && At(pattern, p) == B(c)
    ensures p < |pattern| && pattern[p] == B(c)
  {
    TagsAre(row);
  }

  lemma {:induction false} PiecesWritten(pattern: seq<byte>, p: nat, acc: set<byte>) returns (ps: seq<Piece>)
    requires NoNul(pattern) && p <= |pattern| && Members(pattern, p, acc).Ok?
    ensures var next := Members(pattern, p, acc).next;
            && pattern[p..next] == PiecesText(ps) && PiecesOk(ps, pattern[next..])
            && (At(pattern, next) == 0 || At(pattern, next) == B(']'))
    decreases |pattern| - p
  {
    hide PieceText, PieceOk, Range;
    var next := Members(pattern, p, acc).next;
    if At(pattern, p) == 0 || At(pattern, p) == B(']') {
      ps := [];
    } else {
      var piece, q, acc' := PieceWritten(pattern, p, acc);
      var rest := PiecesWritten(pattern, q, acc');
      ps := [piece] + rest;
      TwoSlices(pattern, p, q, next);
      MorePieces(piece, rest, pattern[next..]);
    }
  }

  lemma MorePieces(piece: Piece, rest: seq<Piece>, tail: seq<byte>)
    ensures PiecesText([piece] + rest) == PieceText(piece) + PiecesText(rest)
    ensures PiecesOk([piece] + rest, tail) <==> PieceOk(piece, PiecesText(rest) + tail) && PiecesOk(rest, tail)
  {
    hide PieceText, PieceOk;
    assert ([piece] + rest)[1..] == rest;
  }

  /** The first piece, and that the others are read behind it. */
  lemma PieceWritten(pattern: seq<byte>, p: nat, acc: set<byte>) returns (piece: Piece, q: nat, acc': set<byte>)
    requires NoNul(pattern) && p < |pattern| && Members(pattern, p, acc).Ok?
    requires At(pattern, p) != 0 && At(pattern, p) != B(']')
    ensures p < q <= |pattern| && pattern[p..q] == PieceText(piece) && PieceOk(piece, pattern[q..])
    ensures Members(pattern, q, acc') == Members(pattern, p, acc)
  {
    hide ElementText, ElementByte, NamedRow, Range, NAMES, Bytes, EscapeAt, Members;
    if NamedClassAt(pattern, p).Some? {
      var name := NameWritten(pattern, p + 2, 0);
      var (named, next) := NamedClassAt(pattern, p).value;
      piece, q, acc' := Named(name), next, acc + named;
      OpeningPair();
      assert pattern[p..next] == [pattern[p], pattern[p + 1]] + pattern[p + 2..next];
      assert Bytes("[:") + Bytes(name) + Bytes(":]") == Bytes("[:") + (Bytes(name) + Bytes(":]"));
      MembersStep(pattern, p, acc);
    } else {
      piece, q, acc' := PlainWritten(pattern, p, acc);
    }
  }

  /** One step of reading the members. */
  lemma MembersStep(pattern: seq<byte>, p: nat, acc: set<byte>)
    requires p < |pattern| && Members(pattern, p, acc).Ok? && At(pattern, p) != 0 && At(pattern, p) != B(']')
    ensures NamedClassAt(pattern, p).Some? ==>
              var (named, next) := NamedClassAt(pattern, p).value;
              Members(pattern, p, acc) == Members(pattern, next, acc + named)
    ensures NamedClassAt(pattern, p).None? ==>
              && EscapeAt(pattern, p).Some? && !(At(pattern, p) == B('[') && At(pattern, p + 1) == B(':'))
              && var (c, next) := EscapeAt(pattern, p).value;
                 if At(pattern, next) == B('-') && At(pattern, next + 1) != B(']') && At(pattern, next + 1) != 0
                 then && next + 1 < |pattern| && EscapeAt(pattern, next + 1).Some?
                      && var (d, after) := EscapeAt(pattern, next + 1).value;
                         c <= d && Members(pattern, p, acc) == Members(pattern, after, acc + Range(c, d))
                 else Members(pattern, p, acc) == Members(pattern, next, acc + {c})
  {
    hide NamedClassAt, EscapeAt, Range;
  }

  lemma PlainWritten(pattern: seq<byte>, p: nat, acc: set<byte>) returns (piece: Piece, q: nat, acc': set<byte>)
    requires NoNul(pattern) && p < |pattern| && Members(pattern, p, acc).Ok? && NamedClassAt(pattern, p).None?
    requires At(pattern, p) != 0 && At(pattern, p) != B(']')
    ensures p < q <= |pattern| && pattern[p..q] == PieceText(piece) && PieceOk(piece, pattern[q..])
    ensures Members(pattern, q, acc') == Members(pattern, p, acc)
  {
    hide ElementText, ElementByte, NamedClassAt, Range, EscapeAt, Members;
    MembersStep(pattern, p, acc);
    var first := ElementWritten(pattern, p);
    var (c, next) := EscapeAt(pattern, p).value;
    RestAt(pattern, next, 0);
    RestAt(pattern, next, 1);
    if At(pattern, next) == B('-') && At(pattern, next + 1) != B(']') && At(pattern, next + 1) != 0 {
      var last := ElementWritten(pattern, next + 1);
      var (d, after) := EscapeAt(pattern, next + 1).value;
      piece, q, acc' := Span(first, last), after, acc + Range(c, d);
      assert pattern[p..after] == pattern[p..next] + [pattern[next]] + pattern[next + 1..after];
    } else {
      piece, q, acc' := One(first), next, acc + {c};
    }
  }

  lemma OpeningPair()
    ensures Bytes("[:") == [B('['), B(':')]
  {
  }

  /** Where the members begin, as the opening is written. */
  lemma OpeningWritten(pattern: seq<byte>, p: nat) returns (b: Bracket, p2: nat)
    requires p < |pattern| && pattern[p] == B('[')
    ensures p < p2 <= |pattern| && b.pieces == [] && pattern[p..p2] == Opening(b)
    ensures BracketAt(pattern, p)
         == match Members(pattern, p2, if b.close then {B(']')} else {})
            case Fail(code) => Fail(code)
            case Ok(s, next) => if At(pattern, next) != B(']') then Fail(REG_EBRACK)
                                else Ok(if b.negated then Range(0, 255) - s else s, next + 1)
    ensures !b.negated && !b.close ==> At(pattern, p2) != B('^')
    ensures !b.close ==> At(pattern, p2) != B(']')
  {
    hide Members, Range;
    var negated := At(pattern, p + 1) == B('^');
    var p1 := if negated then p + 2 else p + 1;
    var close := At(pattern, p1) == B(']');
    p2 := if close then p1 + 1 else p1;
    b := Bracket(negated, close, []);
  }

  lemma BracketWritten(pattern: seq<byte>, p: nat) returns (b: Bracket)
    requires NoNul(pattern) && p < |pattern| && pattern[p] == B('[') && BracketAt(pattern, p).Ok?
    ensures pattern[p..BracketAt(pattern, p).next] == BracketText(b) && BracketOk(b)
  {
    hide Members, PiecesText, Range, PiecesOk, BracketAt, Opening;
    var frame, p2 := OpeningWritten(pattern, p);
    var acc := if frame.close then {B(']')} else {};
    var ps := PiecesWritten(pattern, p2, acc);
    b := frame.(pieces := ps);
    BracketJoined(pattern, p, p2, Members(pattern, p2, acc).next, frame, b);
  }

  lemma BracketJoined(pattern: seq<byte>, p: nat, p2: nat, next: nat, frame: Bracket, b: Bracket)
    requires p <= p2 <= next < |pattern| && pattern[next] == B(']')
    requires pattern[p..p2] == Opening(frame) && b == frame.(pieces := b.pieces)
    requires pattern[p2..next] == PiecesText(b.pieces) && PiecesOk(b.pieces, pattern[next..])
    requires !b.negated && !b.close ==> At(pattern, p2) != B('^')
    requires !b.close ==> At(pattern, p2) != B(']')
    ensures pattern[p..next + 1] == BracketText(b) && BracketOk(b)
  {
    hide PiecesText, PiecesOk;
    var close, tail := [B(']')], pattern[next + 1..];
    assert Opening(b) == Opening(frame);
    assert pattern[p..next + 1] == pattern[p..p2] + pattern[p2..next] + [pattern[next]];
    assert pattern[next..] == close + tail;
    BracketAlone(b.pieces, tail);
    assert pattern[p2..] == (pattern[p2..next] + close) + tail;
    SameLead(pattern[p2..next] + close, tail);
    RestAt(pattern, p2, 0);
  }

  lemma SameLead(part: seq<byte>, tail: seq<byte>)
    requires part != []
    ensures At(part + tail, 0) == At(part, 0)
  {
  }

  /** The pieces do not look past the closing bracket. */
  lemma {:induction false} BracketAlone(ps: seq<Piece>, tail: seq<byte>)
    requires PiecesOk(ps, [B(']')] + tail)
    ensures PiecesOk(ps, [B(']')])
    decreases |ps|
  {
    hide PieceText;
    if ps != [] {
      BracketAlone(ps[1..], tail);
      var rest := PiecesText(ps[1..]);
      assert rest + ([B(']')] + tail) == (rest + [B(']')]) + tail;
      PieceAlone(ps[0], rest, tail);
    }
  }

  lemma PieceAlone(p: Piece, rest: seq<byte>, tail: seq<byte>)
    requires PieceOk(p, (rest + [B(']')]) + tail)
    ensures PieceOk(p, rest + [B(']')])
  {
  }

  // ----- intervals and quantifiers

  lemma {:induction false} DigitsWritten(pattern: seq<byte>, p: nat, done: seq<byte>)
    requires p <= |pattern| && 0 <= Decimal(done) <= 10000 && Digits(pattern, p, Decimal(done)).Some?
    ensures var (v, q) := Digits(pattern, p, Decimal(done)).value;
            && AreDigits(pattern[p..q]) && v == Decimal(done + pattern[p..q]) <= 10000 && !IsDigit(At(pattern, q))
            && (IsDigit(At(pattern, p)) ==> p < q)
    decreases |pattern| - p
  {
    hide Decimal;
    var q := Digits(pattern, p, Decimal(done)).value.1;
    if IsDigit(At(pattern, p)) {
      var d := pattern[p];
      DecimalSnoc(done, d);
      DigitsWritten(pattern, p + 1, done + [d]);
      assert pattern[p..q] == [d] + pattern[p + 1..q];
      assert done + pattern[p..q] == (done + [d]) + pattern[p + 1..q];
    } else {
      assert done + pattern[p..p] == done;
    }
  }

  lemma NumberWritten(pattern: seq<byte>, p: nat)
    requires p <= |pattern| && Digits(pattern, p, 0).Some?
    ensures var (v, q) := Digits(pattern, p, 0).value;
            && AreDigits(pattern[p..q]) && v == Decimal(pattern[p..q]) <= 10000
            && (IsDigit(At(pattern, p)) ==> p < q)
  {
    hide Digits;
    assert Decimal([]) == 0;
    DigitsWritten(pattern, p, []);
    var q := Digits(pattern, p, 0).value.1;
    assert [] + pattern[p..q] == pattern[p..q];
  }

  lemma IntervalWritten(pattern: seq<byte>, p: nat) returns (min: seq<byte>, u: Upper)
    requires p <= |pattern| && IntervalAt(pattern, p).Some?
    ensures var (low, high, next) := IntervalAt(pattern, p).value;
            && IntervalOk(min, u) && pattern[p..next] == IntervalText(min, u)
            && low == Decimal(min) <= 10000 && high == UpperBound(min, u) <= 10000
  {
    hide Digits, Decimal, AreDigits;
    NumberWritten(pattern, p);
    var p1 := Digits(pattern, p, 0).value.1;
    var next := IntervalAt(pattern, p).value.2;
    min := pattern[p..p1];
    if At(pattern, p1) == B(',') {
      if IsDigit(At(pattern, p1 + 1)) {
        NumberWritten(pattern, p1 + 1);
        var p2 := Digits(pattern, p1 + 1, 0).value.1;
        u := UpTo(pattern[p1 + 1..p2]);
        assert pattern[p..next] == pattern[p..p1] + ([pattern[p1]] + pattern[p1 + 1..p2]) + [pattern[p2]];
      } else {
        u := Open;
        assert pattern[p..next] == pattern[p..p1] + [pattern[p1]] + [pattern[p1 + 1]];
      }
    } else {
      u := Same;
      assert pattern[p..next] == pattern[p..p1] + [] + [pattern[p1]];
    }
  }

  lemma QuantWritten(pattern: seq<byte>, p: nat, extended: bool) returns (t: Times)
    requires p <= |pattern| && QuantAt(pattern, p, extended).Ok?
    ensures var next := QuantAt(pattern, p, extended).next;
            && pattern[p..next] == TimesText(t, extended) && TimesFit(t)
            && (t.Single? ==> !QuantifierBegins(pattern[next..], extended))
  {
    hide IntervalAt, IntervalText, Decimal, AreDigits, TimesFit;
    RestAt(pattern, p, 0);
    RestAt(pattern, p, 1);
    if At(pattern, p) != B('*') && OperatorAt(pattern, p, B('{'), extended) {
      t := BracesWritten(pattern, p, extended);
    } else {
      t := if At(pattern, p) == B('*') then Star else if OperatorAt(pattern, p, B('+'), extended) then OneOrMore
           else if OperatorAt(pattern, p, B('?'), extended) then Optional else Single;
      assert TimesFit(t) by { NoInterval(t); }
    }
  }

  lemma NoInterval(t: Times)
    requires !t.Interval?
    ensures TimesFit(t)
  {
  }

  lemma BracesWritten(pattern: seq<byte>, p: nat, extended: bool) returns (t: Times)
    requires p <= |pattern| && QuantAt(pattern, p, extended).Ok? && At(pattern, p) != B('*')
    requires OperatorAt(pattern, p, B('{'), extended)
    ensures t.Interval? && pattern[p..QuantAt(pattern, p, extended).next] == TimesText(t, extended) && TimesFit(t)
  {
    hide IntervalAt, IntervalText, Decimal, AreDigits;
    var after, next := p + Width(extended), QuantAt(pattern, p, extended).next;
    var min, u := IntervalWritten(pattern, after);
    t := Interval(min, u);
    DecimalPositive(min, u);
    TwoSlices(pattern, p, after, next);
    assert pattern[p..after] == Operator('{', extended);
  }

  lemma DecimalPositive(min: seq<byte>, u: Upper)
    requires IntervalOk(min, u)
    ensures Decimal(min) >= 0 && (u.UpTo? ==> Decimal(u.digits) >= 0)
  {
    DecimalGrows(min, []);
    if u.UpTo? {
      DecimalGrows(u.digits, []);
    }
  }

  // ----- items, sequences and branches

  lemma {:induction false} SourceWritten(pattern: seq<byte>, p: nat, inGroup: bool, extended: bool) returns (s: Source)
    requires NoNul(pattern) && p < |pattern| && !SequenceEnds(pattern, p, inGroup, extended)
    requires AtomAt(pattern, p, extended).Ok?
    ensures var next := AtomAt(pattern, p, extended).next;
            pattern[p..next] == SourceText(s, extended) && SourceOk(s, inGroup, extended, pattern[next..])
    decreases |pattern| - p, 0
  {
    hide BracketAt, AlternationAt, EscapeAt, BracketText, BracketOk, BranchesText, BranchesOk, ElementText, ElementByte;
    var c, kind := pattern[p], At(pattern, p + 1);
    var next := AtomAt(pattern, p, extended).next;
    if c == B('^') || c == B('$') || c == B('.') {
      s := if c == B('^') then Mark(LineStart) else if c == B('$') then Mark(LineEnd) else AnyByte;
      assert pattern[p..p + 1] == [c];
    } else if c == B('[') {
      var b := BracketWritten(pattern, p);
      s := Source.Class(b);
    } else if OperatorAt(pattern, p, B('('), extended) {
      s := ParenWritten(pattern, p, inGroup, extended);
    } else if c == B('\\') && (kind in SHORTHANDS || kind == B('b') || kind == B('B')) {
      s := if kind == B('b') then Mark(Boundary) else if kind == B('B') then Mark(NoBoundary) else Short(kind);
      assert pattern[p..p + 2] == [c, kind];
    } else {
      var e := ElementWritten(pattern, p);
      s := Literal(e);
      LiteralWritten(pattern, p, e, inGroup, extended);
    }
  }

  /** A byte that is read as a literal may stand as one. */
  lemma LiteralWritten(pattern: seq<byte>, p: nat, e: Element, inGroup: bool, extended: bool)
    requires NoNul(pattern) && p < |pattern| && !SequenceEnds(pattern, p, inGroup, extended)
    requires EscapeAt(pattern, p).Some? && pattern[p..EscapeAt(pattern, p).value.1] == ElementText(e) && ElementOk(e)
    requires pattern[p] !in {B('^'), B('$'), B('.'), B('[')} && !OperatorAt(pattern, p, B('('), extended)
    requires pattern[p] == B('\\') ==> At(pattern, p + 1) !in SHORTHANDS && At(pattern, p + 1) != B('b')
                                       && At(pattern, p + 1) != B('B')
    ensures LiteralOk(e, inGroup, extended)
  {
    var next := EscapeAt(pattern, p).value.1;
    assert pattern[p..next][0] == pattern[p];
    if pattern[p] == B('\\') {
      assert pattern[p..next][1] == pattern[p + 1];
    }
  }

  lemma ParenFound(pattern: seq<byte>, p: nat, extended: bool) returns (captures: bool, inside: nat)
    requires p < |pattern| && OperatorAt(pattern, p, B('('), extended)
    requires AtomAt(pattern, p, extended).Ok? && pattern[p] !in {B('^'), B('$'), B('.'), B('[')}
    ensures p < inside <= |pattern| && pattern[p..inside] == ParenOpens(captures, extended) && (!captures ==> extended)
    ensures captures && extended ==> At(pattern, inside) != B('?') || At(pattern, inside + 1) != B(':')
    ensures AlternationAt(pattern, inside, true, extended).Ok?
    ensures var close := AlternationAt(pattern, inside, true, extended).next;
            && OperatorAt(pattern, close, B(')'), extended)
            && AtomAt(pattern, p, extended).next == close + Width(extended)
  {
    hide AlternationAt, BracketAt, EscapeAt;
    captures := !(extended && At(pattern, p + 1) == B('?') && At(pattern, p + 2) == B(':'));
    inside := if captures then p + Width(extended) else p + 3;
  }

  lemma OperatorWritten(pattern: seq<byte>, p: nat, c: char, extended: bool)
    requires p <= |pattern| && OperatorAt(pattern, p, B(c), extended) && B(c) != 0
    ensures p + Width(extended) <= |pattern| && pattern[p..p + Width(extended)] == Operator(c, extended)
  {
  }

  lemma ParenJoined(pattern: seq<byte>, p: nat, inside: nat, close: nat, next: nat, captures: bool, body: Branches,
                    extended: bool)
    requires p < inside <= close <= next <= |pattern| && next == close + Width(extended)
    requires OperatorAt(pattern, close, B(')'), extended)
    requires pattern[p..inside] == ParenOpens(captures, extended)
    requires pattern[inside..close] == BranchesText(body, extended)
    ensures pattern[p..next] == SourceText(Paren(captures, body), extended)
    ensures pattern[close..] == Operator(')', extended) + pattern[next..]
    ensures pattern[inside..] == BranchesText(body, extended) + (Operator(')', extended) + pattern[next..])
  {
    hide BranchesText, ParenOpens, Operator, OperatorAt;
    OperatorWritten(pattern, close, ')', extended);
    ThreeSlices(pattern, p, inside, close, next);
    TwoSlices(pattern, p, close, next);
  }

  lemma {:induction false} ParenWritten(pattern: seq<byte>, p: nat, inGroup: bool, extended: bool) returns (s: Source)
    requires NoNul(pattern) && p < |pattern| && OperatorAt(pattern, p, B('('), extended)
    requires AtomAt(pattern, p, extended).Ok? && pattern[p] !in {B('^'), B('$'), B('.'), B('[')}
    ensures var next := AtomAt(pattern, p, extended).next;
            pattern[p..next] == SourceText(s, extended) && SourceOk(s, inGroup, extended, pattern[next..])
    decreases |pattern| - p, -1
  {
    hide AlternationAt, BranchesText, BranchesOk, BracketAt, AtomAt, ParenOpens, OperatorAt, SourceText, Operator;
    var captures, inside := ParenFound(pattern, p, extended);
    var close := AlternationAt(pattern, inside, true, extended).next;
    var body := BranchesWritten(pattern, inside, true, extended);
    s := Paren(captures, body);
    ParenJoined(pattern, p, inside, close, close + Width(extended), captures, body, extended);
    RestAt(pattern, inside, 0);
    RestAt(pattern, inside, 1);
  }

  lemma {:induction false} SequenceWritten(pattern: seq<byte>, p: nat, inGroup: bool, extended: bool)
    returns (s: Sequence)
    requires NoNul(pattern) && p <= |pattern| && SequenceAt(pattern, p, inGroup, extended).Ok?
    ensures var next := SequenceAt(pattern, p, inGroup, extended).next;
            && pattern[p..next] == SequenceText(s, extended) && SequenceOk(s, inGroup, extended, pattern[next..])
            && Ends(pattern[next..], inGroup, extended)
    decreases |pattern| - p, 1
  {
    hide AtomAt, QuantAt, SequenceEnds, SourceText, SourceOk, TimesText, TimesFit, QuantifierBegins, Ends;
    var next := SequenceAt(pattern, p, inGroup, extended).next;
    if SequenceEnds(pattern, p, inGroup, extended) {
      s := Nil;
      WholeHere(pattern, p);
      EndsHere(pattern, p, pattern[p..], [], inGroup, extended);
    } else {
      var a := SourceWritten(pattern, p, inGroup, extended);
      var q := AtomAt(pattern, p, extended).next;
      var t := QuantWritten(pattern, q, extended);
      var r := QuantAt(pattern, q, extended).next;
      var rest := SequenceWritten(pattern, r, inGroup, extended);
      s := Item(a, t, rest);
      ThreeSlices(pattern, p, q, r, next);
    }
  }

  lemma WholeHere(pattern: seq<byte>, p: nat)
    requires p <= |pattern|
    ensures Here(pattern, p, pattern[p..], []) && pattern[p..] + [] == pattern[p..]
  {
  }

  lemma {:induction false} BranchesWritten(pattern: seq<byte>, p: nat, inGroup: bool, extended: bool)
    returns (b: Branches)
    requires NoNul(pattern) && p <= |pattern| && AlternationAt(pattern, p, inGroup, extended).Ok?
    ensures var next := AlternationAt(pattern, p, inGroup, extended).next;
            && pattern[p..next] == BranchesText(b, extended) && BranchesOk(b, inGroup, extended, pattern[next..])
            && Count(b) <= 128
    decreases |pattern| - p, 2
  {
    hide SequenceAt, SequenceText, SequenceOk, Ends, AltDelimiter, BranchesAt, Begins, Operator;
    var next := AlternationAt(pattern, p, inGroup, extended).next;
    var s := SequenceWritten(pattern, p, inGroup, extended);
    var q := SequenceAt(pattern, p, inGroup, extended).next;
    WholeHere(pattern, q);
    EndsHere(pattern, q, pattern[q..], [], inGroup, extended);
    if !AltDelimiter(pattern, q, extended) {
      b := Alone(s);
    } else {
      var more := MoreWritten(pattern, q, inGroup, extended, 1);
      b := Or(s, more);
      BranchJoined(pattern, p, q, next, extended, more);
    }
  }

  lemma BranchJoined(pattern: seq<byte>, p: nat, q: nat, next: nat, extended: bool, more: Branches)
    requires p <= q <= next <= |pattern| && pattern[q..next] == Operator('|', extended) + BranchesText(more, extended)
    ensures pattern[p..next] == pattern[p..q] + Operator('|', extended) + BranchesText(more, extended)
    ensures pattern[q..] == Operator('|', extended) + BranchesText(more, extended) + pattern[next..]
  {
    hide BranchesText, Operator;
    TwoSlices(pattern, p, q, next);
    var bar, text := Operator('|', extended), BranchesText(more, extended);
    assert pattern[p..q] + (bar + text) == pattern[p..q] + bar + text;
  }

  lemma {:induction false} MoreWritten(pattern: seq<byte>, p: nat, inGroup: bool, extended: bool, n: nat)
    returns (b: Branches)
    requires NoNul(pattern) && p < |pattern| && AltDelimiter(pattern, p, extended)
    requires BranchesAt(pattern, p, inGroup, extended, n).Ok?
    ensures var next := BranchesAt(pattern, p, inGroup, extended, n).next;
            && pattern[p..next] == Operator('|', extended) + BranchesText(b, extended)
            && BranchesOk(b, inGroup, extended, pattern[next..]) && n + Count(b) <= 128
    decreases |pattern| - p, 1
  {
    hide SequenceAt, SequenceText, SequenceOk, Ends, Begins, AltDelimiter;
    var next := BranchesAt(pattern, p, inGroup, extended, n).next;
    var r := p + Width(extended);
    BarWritten(pattern, p, extended);
    var s := SequenceWritten(pattern, r, inGroup, extended);
    var q := SequenceAt(pattern, r, inGroup, extended).next;
    WholeHere(pattern, q);
    EndsHere(pattern, q, pattern[q..], [], inGroup, extended);
    if !AltDelimiter(pattern, q, extended) {
      b := Alone(s);
      TwoSlices(pattern, p, r, next);
    } else {
      var more := MoreWritten(pattern, q, inGroup, extended, n + 1);
      b := Or(s, more);
      BranchJoined(pattern, r, q, next, extended, more);
      TwoSlices(pattern, p, r, next);
    }
  }

  lemma BarWritten(pattern: seq<byte>, p: nat, extended: bool)
    requires p <= |pattern| && AltDelimiter(pattern, p, extended)
    ensures p + Width(extended) <= |pattern| && pattern[p..p + Width(extended)] == Operator('|', extended)
  {
    OperatorWritten(pattern, p, '|', extended);
  }

  // ----- exactly the written patterns

  /** The expression is that of some way to write the pattern. */
  ghost predicate StandsFor(pattern: seq<byte>, extended: bool, a: Atom) {
    exists b :: PatternOk(b, extended) && BranchesText(b, extended) == pattern && BranchesMeaning(b) == a
  }

  /** The compiler accepts a pattern, as an expression, exactly when the pattern is a way to write that expression. */
  lemma AcceptedPatterns(pattern: seq<byte>, extended: bool, a: Atom)
    requires NoNul(pattern)
    ensures Parse(pattern, extended) == Ok(a, |pattern|) <==> StandsFor(pattern, extended, a)
    ensures Parse(pattern, extended).Ok? ==> Parse(pattern, extended).next == |pattern|
  {
    hide Parse, AlternationAt, BranchesText, BranchesOk, BranchesMeaning;
    forall b | PatternOk(b, extended) && BranchesText(b, extended) == pattern
      ensures Parse(pattern, extended) == Ok(BranchesMeaning(b), |pattern|)
    {
      PatternRead(b, extended);
    }
    ReadToTheEnd(pattern, extended) by { NulFree(pattern); }
    if Parse(pattern, extended).Ok? {
      var b := BranchesWritten(pattern, 0, false, extended);
      assert pattern[0..|pattern|] == pattern && pattern[|pattern|..] == [];
      assert PatternOk(b, extended);
    }
  }

  lemma NulFree(pattern: seq<byte>)
    requires NoNul(pattern)
    ensures forall b <- pattern :: b != 0
  {
  }
}
