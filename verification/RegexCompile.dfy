/**
 The one-pass compiler (lib/libc_regex.c:40-118, 199-433, 478-778): on every pattern of either syntax it
 returns the parser's error code, or the program that RegexBuild describes.
 */
module RegexCompile {
  import opened Maybe
  import opened RegexVm
  import opened RegexSyntax
  import opened RegexBuild

  class Compiler {
    const pattern: seq<byte>
    const extended: bool
    var program: seq<Inst>
    var cursor: nat
    var groups: nat
    var error: int

    constructor (pattern: seq<byte>, extended: bool)
      ensures this.pattern == pattern && this.extended == extended
      ensures program == [] && cursor == 0 && groups == 0 && error == 0
    {
      this.pattern, this.extended := pattern, extended;
      program, cursor, groups, error := [], 0, 0, 0;
    }

    /** Between two steps: no error so far, and the cursor within the pattern. */
    predicate Ready()
      reads this
    {
      cursor <= |pattern| && error == 0
    }

    function Out(): Output
      reads this
    {
      Output(program, groups)
    }

    // ----- emitting

    method Emit(op: Op) returns (index: nat)
      modifies this`program
      ensures program == old(program) + [Plain(op)] && index == |old(program)|
    {
      index := |program|;
      program := program + [Plain(op)];
    }

    method Insert(index: nat) returns (r: nat)
      requires index <= |program|
      modifies this`program
      ensures program == Inserted(old(program), index) && r == index
    {
      program := program[..index] + [Plain(Char)] + program[index..];
      ghost var wide := program;
      for i := 0 to |program|
        invariant |program| == |wide|
        invariant forall j :: 0 <= j < i ==> program[j] == Bumped(wide[j], index)
        invariant forall j :: i <= j < |wide| ==> program[j] == wide[j]
      {
        if program[i].x >= index {
          program := program[i := program[i].(x := program[i].x + 1)];
        }
        if program[i].y >= index {
          program := program[i := program[i].(y := program[i].y + 1)];
        }
      }
      return index;
    }

    method CopyBlock(start: nat, end: nat) returns (r: nat)
      requires start <= end <= |program| && error == 0
      modifies this`program
      ensures r == |old(program)| && program == Copied(old(program), start, end)
    {
      var count := end - start;
      var oldLength := |program|;
      var delta := oldLength - start;
      if count == 0 || error != 0 {
        assert program[start..end] == [];
        return oldLength;
      }
      ghost var block := program[start..end];
      program := program + program[start..end];
      for i := oldLength to oldLength + count
        invariant |program| == oldLength + count
        invariant forall j :: 0 <= j < oldLength ==> program[j] == old(program)[j]
        invariant forall j :: oldLength <= j < i ==> program[j] == Shifted(block[j - oldLength], start, end, delta)
        invariant forall j :: i <= j < |program| ==> program[j] == block[j - oldLength]
      {
        ghost var was := program;
        if start <= program[i].x <= end {
          program := program[i := program[i].(x := program[i].x + delta)];
        }
        if start <= program[i].y <= end {
          program := program[i := program[i].(y := program[i].y + delta)];
        }
        assert program == was[i := Shifted(was[i], start, end, delta)];
      }
      assert program == old(program) + program[oldLength..];
      assert program[oldLength..] == ShiftedAll(block, start, end, delta);
      return oldLength;
    }

    // ----- atoms without parentheses

    /** The members of a bracket set, up to its closing bracket. */
    method ReadMembers(p0: nat, members0: set<byte>) returns (r: Parsed<set<byte>>)
      requires p0 <= |pattern|
      ensures r == Members(pattern, p0, members0)
    {
      var p, members := p0, members0;
      while At(pattern, p) != 0 && At(pattern, p) != B(']')
        invariant p <= |pattern| && Members(pattern, p, members) == Members(pattern, p0, members0)
        decreases |pattern| - p
      {
        var named := NamedClassAt(pattern, p);
        if named.Some? {
          members := members + named.value.0;
          p := named.value.1;
          continue;
        }
        if At(pattern, p) == B('[') && At(pattern, p + 1) == B(':') {
          return Fail(REG_ECTYPE);
        }
        var first := EscapeAt(pattern, p);
        if first.None? {
          return Fail(REG_EESCAPE);
        }
        p := first.value.1;
        if At(pattern, p) == B('-') && At(pattern, p + 1) != B(']') && At(pattern, p + 1) != 0 {
          p := p + 1;
          var last := EscapeAt(pattern, p);
          if last.None? {
            return Fail(REG_EESCAPE);
          }
          p := last.value.1;
          if last.value.0 < first.value.0 {
            return Fail(REG_ERANGE);
          }
          members := members + Range(first.value.0, last.value.0);
        } else {
          members := members + {first.value.0};
        }
      }
      return Ok(members, p);
    }

    method CompileClass() returns (r: int)
      requires Ready() && program != [] && At(pattern, cursor) == B('[')
      modifies this
      ensures match BracketAt(pattern, old(cursor))
              case Ok(s, next) => r == |old(program)| && Ready() && cursor == next && groups == old(groups)
                                  && program == old(program) + [Plain(Class).(cls := s)]
              case Fail(code) => r == -1 && error == code && program == old(program) && cursor == old(cursor)
    {
      hide Members;
      var p := cursor + 1;
      var members: set<byte> := {};
      var negated := false;
      if At(pattern, p) == B('^') {
        negated := true;
        p := p + 1;
      }
      if At(pattern, p) == B(']') {
        members := members + {B(']')};
        p := p + 1;
      }
      assert members == if At(pattern, p - 1) == B(']') && p > cursor + (if negated then 2 else 1) then {B(']')} else {};
      var read := ReadMembers(p, members);
      if read.Fail? {
        error := read.code;
        return -1;
      }
      members, p := read.value, read.next;
      if At(pattern, p) != B(']') {
        error := REG_EBRACK;
        return -1;
      }
      p := p + 1;
      if negated {
        members := Range(0, 255) - members;
      }
      var index := Emit(Class);
      program := program[index := program[index].(cls := members)];
      cursor := p;
      return index;
    }

    method CompileSimpleClass(kind: byte, negate: bool)
      modifies this`program
      ensures kind in SHORTHANDS && (negate <==> kind < B('a')) ==>
                program == old(program) + [Plain(Class).(cls := Shorthand(kind))]
    {
      hide Range;
      var members: set<byte> := {};
      if kind == B('w') || kind == B('d') {
        members := members + Range(B('0'), B('9'));
        if kind == B('w') {
          members := members + Range(B('a'), B('z')) + Range(B('A'), B('Z')) + {B('_')};
        }
      } else if kind == B('s') {
        members := {B(' '), B('\t'), B('\n'), B('\r'), 12, 11};
      }
      assert {} + Range(B('0'), B('9')) == Range(B('0'), B('9')) && Range(0, 255) - {} == Range(0, 255);
      if negate {
        members := Range(0, 255) - members;
      }
      var index := Emit(Class);
      program := program[index := program[index].(cls := members)];
    }

    // ----- delimiters

    predicate IsAltDelimiter()
      reads this
      ensures IsAltDelimiter() <==> AltDelimiter(pattern, cursor, extended)
    {
      if extended then At(pattern, cursor) == B('|')
      else At(pattern, cursor) == B('\\') && At(pattern, cursor + 1) == B('|')
    }

    predicate IsGroupClose(inGroup: bool)
      reads this
      ensures IsGroupClose(inGroup) <==> GroupClose(pattern, cursor, inGroup, extended)
    {
      inGroup && (if extended then At(pattern, cursor) == B(')')
                  else At(pattern, cursor) == B('\\') && At(pattern, cursor + 1) == B(')'))
    }

    // ----- atoms

    /** What a step that reads an atom makes of the parser's answer. */
    twostate predicate AtomRead(r: int, here: Parsed<Atom>)
      reads this
    {
      match here
      case Fail(code) => r < 0 && error == code
      case Ok(a, next) => r >= 0 && Ready() && cursor == next && Out() == BuildAtom(a, old(Out()))
    }

    /** Zero stands for the end of a sequence. */
    method CompileAtom(inGroup: bool) returns (r: int)
      requires Ready() && program != []
      modifies this
      ensures if SequenceEnds(pattern, old(cursor), inGroup, extended)
              then r == 0 && cursor == old(cursor) && Out() == old(Out()) && error == 0
              else r != 0 && AtomRead(r, AtomAt(pattern, old(cursor), extended))
      decreases |pattern| - cursor, 2
    {
      var p := cursor;
      if At(pattern, p) == 0 || IsAltDelimiter() || IsGroupClose(inGroup) {
        return 0;
      }
      hide AlternationAt, BracketAt;
      var c := pattern[p];
      if c == B('^') {
        cursor := p + 1;
        r := Emit(Bol);
        return;
      }
      if c == B('$') {
        cursor := p + 1;
        r := Emit(Eol);
        return;
      }
      if c == B('.') {
        cursor := p + 1;
        r := Emit(Any);
        return;
      }
      if c == B('[') {
        r := CompileClass();
        return;
      }
      if c == B('(') && extended {
        r := CompileExtendedGroup();
        return;
      }
      if c == B('\\') && At(pattern, p + 1) == B('(') && !extended {
        r := CompileBasicGroup();
        return;
      }
      r := CompileEscape();
    }

    /** A shorthand, a word boundary, or one byte that stands for itself. */
    method CompileEscape() returns (r: int)
      requires Ready() && program != [] && cursor < |pattern| && pattern[cursor] != 0
      requires pattern[cursor] !in {B('^'), B('$'), B('.'), B('[')} && !OperatorAt(pattern, cursor, B('('), extended)
      modifies this
      ensures r != 0 && AtomRead(r, AtomAt(pattern, old(cursor), extended))
    {
      hide AlternationAt, BracketAt, Shorthand;
      var p := cursor;
      var c := pattern[p];
      if c == B('\\') && At(pattern, p + 1) != 0 {
        var kind := At(pattern, p + 1);
        if kind in {B('w'), B('W'), B('s'), B('S'), B('d'), B('D')} {
          cursor := p + 2;
          CompileSimpleClass(kind, B('A') <= kind <= B('Z'));
          return 1;
        }
        if kind in {B('b'), B('B')} {
          cursor := p + 2;
          r := Emit(if kind == B('b') then WordB else NotWordB);
          return;
        }
      }
      var ch := EscapeAt(pattern, cursor);
      if ch.None? {
        error := REG_EESCAPE;
        return -1;
      }
      cursor := ch.value.1;
      var index := Emit(Char);
      program := program[index := program[index].(ch := ch.value.0)];
      return 1;
    }

    /** `(...)`, capturing, and `(?:...)`. */
    method CompileExtendedGroup() returns (r: int)
      requires Ready() && program != [] && extended && At(pattern, cursor) == B('(')
      modifies this
      ensures r != 0 && AtomRead(r, AtomAt(pattern, old(cursor), extended))
      decreases |pattern| - cursor, 1
    {
      hide AlternationAt, BracketAt, BuildAtom;
      ghost var first := Out();
      var capture := true;
      var p := cursor + 1;
      if At(pattern, p) == B('?') && At(pattern, p + 1) == B(':') {
        capture := false;
        p := p + 2;
      }
      cursor := p;
      if capture {
        groups := groups + 1;
        var save := Emit(Save);
        program := program[save := program[save].(x := groups * 2)];
        assert Out() == CaptureOpened(first);
      }
      ghost var here := AlternationAt(pattern, cursor, true, extended);
      CompileAlternation(true);
      if here.Ok? {
        CaptureBuilt(here.value, first);
      }
      if error != 0 {
        return -1;
      }
      if At(pattern, cursor) != B(')') {
        error := REG_EPAREN;
        return -1;
      }
      cursor := cursor + 1;
      if capture {
        ghost var inside := Out();
        var save := Emit(Save);
        program := program[save := program[save].(x := groups * 2 + 1)];
        assert Out() == CaptureClosed(inside);
      }
      return 1;
    }

    /** The parentheses of the basic syntax, which are escaped. */
    method CompileBasicGroup() returns (r: int)
      requires Ready() && program != [] && !extended
      requires At(pattern, cursor) == B('\\') && At(pattern, cursor + 1) == B('(')
      modifies this
      ensures r != 0 && AtomRead(r, AtomAt(pattern, old(cursor), extended))
      decreases |pattern| - cursor, 1
    {
      hide AlternationAt, BracketAt, BuildAtom;
      ghost var first := Out();
      cursor := cursor + 2;
      groups := groups + 1;
      var save := Emit(Save);
      program := program[save := program[save].(x := groups * 2)];
      assert Out() == CaptureOpened(first);
      ghost var here := AlternationAt(pattern, cursor, true, extended);
      CompileAlternation(true);
      if here.Ok? {
        CaptureBuilt(here.value, first);
      }
      if error != 0 {
        return -1;
      }
      if At(pattern, cursor) != B('\\') || At(pattern, cursor + 1) != B(')') {
        error := REG_EPAREN;
        return -1;
      }
      cursor := cursor + 2;
      ghost var inside := Out();
      save := Emit(Save);
      program := program[save := program[save].(x := groups * 2 + 1)];
      assert Out() == CaptureClosed(inside);
      return 1;
    }

    // ----- quantifiers

    /** `None` stands for the failure return, with the error code set. */
    method ParseInterval() returns (r: Option<(nat, int)>)
      requires Ready()
      modifies this`cursor, this`error
      ensures match IntervalAt(pattern, old(cursor))
              case Some((min, max, next)) => r == Some((min, max)) && cursor == next && error == 0
              case None => r == None && error == REG_BADBR
    {
      var p := cursor;
      var first := ReadDigits(p);
      if first.None? {
        error := REG_BADBR;
        return None;
      }
      var min: nat := first.value.0;
      var max: int;
      p := first.value.1;
      if At(pattern, p) == B(',') {
        p := p + 1;
        if IsDigit(At(pattern, p)) {
          var second := ReadDigits(p);
          if second.None? {
            error := REG_BADBR;
            return None;
          }
          p := second.value.1;
          max := second.value.0;
        } else {
          max := -1;
        }
      } else {
        max := min;
      }
      if At(pattern, p) != B('}') {
        error := REG_BADBR;
        return None;
      }
      cursor := p + 1;
      return Some((min, max));
    }

    method ReadDigits(p0: nat) returns (r: Option<(nat, nat)>)
      requires p0 <= |pattern|
      ensures r == Digits(pattern, p0, 0)
    {
      var p, value := p0, 0;
      while IsDigit(At(pattern, p))
        invariant p <= |pattern| && value >= 0 && Digits(pattern, p, value) == Digits(pattern, p0, 0)
        decreases |pattern| - p
      {
        value := value * 10 + (At(pattern, p) - B('0'));
        if value > 10000 {
          return None;
        }
        p := p + 1;
      }
      return Some((value, p));
    }

    method WrapOptional(start: nat)
      requires start <= |program|
      modifies this`program
      ensures program == Optioned(old(program), start)
    {
      var split := Insert(start);
      program := program[split := program[split].(op := Split)];
      program := program[split := program[split].(x := start + 1)];
      program := program[split := program[split].(y := |program|)];
    }

    method WrapStar(start: nat)
      requires start <= |program|
      modifies this`program
      ensures program == Starred(old(program), start)
    {
      hide Inserted;
      WrapOptional(start);
      var jump := Emit(Jmp);
      program := program[jump := program[jump].(x := start)];
    }

    /** A SPLIT that may skip the copy of the block that follows it. */
    method AddOption(atomStart: nat, atomEnd: nat)
      requires atomStart <= atomEnd <= |program| && error == 0
      modifies this`program
      ensures program == OptionAdded(old(program), atomStart, atomEnd)
    {
      var split := Emit(Split);
      var body := CopyBlock(atomStart, atomEnd);
      assert program[split] == Plain(Split);
      program := program[split := program[split].(x := body)];
      program := program[split := program[split].(y := |program|)];
    }

    /** `count` copies more, then `options` optional ones. */
    method AddCopies(atomStart: nat, atomEnd: nat, count: nat, options: nat)
      requires atomStart <= atomEnd <= |program| && error == 0
      modifies this`program
      ensures program == OptionsAdded(CopiedTimes(old(program), atomStart, atomEnd, count), atomStart, atomEnd, options)
    {
      hide Copied, OptionAdded;
      for i := 0 to count
        invariant program == CopiedTimes(old(program), atomStart, atomEnd, i)
      {
        var start := CopyBlock(atomStart, atomEnd);
      }
      for i := 0 to options
        invariant program == OptionsAdded(CopiedTimes(old(program), atomStart, atomEnd, count), atomStart, atomEnd, i)
      {
        AddOption(atomStart, atomEnd);
      }
    }

    method CompileQuantifier(atomStart: nat) returns (r: int)
      requires Ready() && atomStart <= |program|
      modifies this
      ensures match QuantAt(pattern, old(cursor), extended)
              case Fail(code) => r < 0 && error == code
              case Ok(q, next) =>
                r >= 0 && Ready() && cursor == next && groups == old(groups)
                && program == Quantified(old(program), atomStart, q)
    {
      hide IntervalAt, Copied, OptionAdded, Optioned, CopiedTimes, OptionsAdded;
      var c := At(pattern, cursor);
      if c == B('*') {
        cursor := cursor + 1;
        WrapStar(atomStart);
        return 0;
      }
      var plus, question, interval := false, false, false;
      var escaped := At(pattern, cursor + 1);
      if c == B('+') && extended {
        plus := true;
      } else if c == B('?') && extended {
        question := true;
      } else if c == B('\\') && !extended && (escaped == B('+') || escaped == B('?')) {
        plus := escaped == B('+');
        question := escaped == B('?');
      } else if (c == B('{') && extended) || (c == B('\\') && escaped == B('{') && !extended) {
        interval := true;
      } else {
        return 0;
      }
      if plus {
        cursor := cursor + (if extended then 1 else 2);
        var split := Emit(Split);
        program := program[split := program[split].(x := atomStart)];
        program := program[split := program[split].(y := |program|)];
        return 1;
      }
      NoCopiesOf(Optioned(program, atomStart), atomStart, |program|);
      if question {
        cursor := cursor + (if extended then 1 else 2);
        WrapOptional(atomStart);
        return 1;
      }
      r := CompileInterval(atomStart);
    }

    /** `{m}`, `{m,}` or `{m,n}` behind the item that begins at `atomStart`. */
    method CompileInterval(atomStart: nat) returns (r: int)
      requires Ready() && atomStart <= |program| && OperatorAt(pattern, cursor, B('{'), extended)
      modifies this
      ensures match QuantAt(pattern, old(cursor), extended)
              case Fail(code) => r < 0 && error == code
              case Ok(q, next) =>
                r >= 0 && Ready() && cursor == next && groups == old(groups)
                && program == Quantified(old(program), atomStart, q)
    {
      hide IntervalAt, Copied, OptionAdded, Optioned, CopiedTimes, OptionsAdded;
      NoCopiesOf(Optioned(program, atomStart), atomStart, |program|);
      cursor := cursor + (if extended then 1 else 2);
      var bounds := ParseInterval();
      if bounds.None? {
        return -1;
      }
      var (min, max) := bounds.value;
      if max != -1 && max < min {
        error := REG_BADBR;
        return -1;
      }
      var atomEnd := |program|;
      if min == 0 {
        if max == -1 {
          WrapStar(atomStart);
        } else {
          WrapOptional(atomStart);
          if max > 1 {
            AddCopies(atomStart, atomEnd, 0, max - 1);
          }
        }
        return 1;
      }
      if max == -1 {
        AddCopies(atomStart, atomEnd, min - 1, 0);
        var split := |program|;
        NoCopiesOf(CopiedTimes(old(program), atomStart, atomEnd, min - 1), atomStart, atomEnd);
        AddOption(atomStart, atomEnd);
        var jump := Emit(Jmp);
        program := program[jump := program[jump].(x := split)];
      } else {
        AddCopies(atomStart, atomEnd, min - 1, max - min);
      }
      return 1;
    }

    // ----- sequences and alternations

    method CompileSequence(inGroup: bool)
      requires Ready() && program != []
      modifies this
      ensures match SequenceAt(pattern, old(cursor), inGroup, extended)
              case Fail(code) => error == code
              case Ok(re, next) => Ready() && cursor == next && Out() == BuildRe(re, old(Out()))
      decreases |pattern| - cursor, 3
    {
      hide AtomAt, QuantAt, BuildAtom, Quantified;
      ghost var whole := SequenceAt(pattern, cursor, inGroup, extended);
      while error == 0 && At(pattern, cursor) != 0 && !IsAltDelimiter() && !IsGroupClose(inGroup)
        invariant Ready() && program != [] && old(cursor) <= cursor
        invariant SequenceLeft(inGroup, whole, old(Out()))
        decreases |pattern| - cursor
      {
        var atomStart := |program|;
        ghost var before, here := Out(), SequenceAt(pattern, cursor, inGroup, extended);
        var atom := CompileAtom(inGroup);
        if atom < 0 {
          return;
        }
        if atom == 0 {
          break;
        }
        var quantified := CompileQuantifier(atomStart);
        if quantified < 0 {
          return;
        }
        assert here.Ok? ==> Out() == BuildItem(here.value.atom, here.value.quant, before);
      }
    }

    /** What is still to be read, after the output so far, gives what the whole gives after the output at first. */
    ghost predicate SequenceLeft(inGroup: bool, whole: Parsed<Re>, first: Output)
      requires cursor <= |pattern|
      reads this
    {
      match SequenceAt(pattern, cursor, inGroup, extended)
      case Fail(code) => whole == Fail(code)
      case Ok(re, next) => whole.Ok? && whole.next == next && BuildRe(re, Out()) == BuildRe(whole.value, first)
    }

    method CompileAlternation(inGroup: bool)
      requires Ready() && program != []
      modifies this
      ensures match AlternationAt(pattern, old(cursor), inGroup, extended)
              case Fail(code) => error == code
              case Ok(a, next) => Ready() && cursor == next && Out() == BuildAtom(a, old(Out()))
      decreases |pattern| - cursor, 5
    {
      hide SequenceAt, BranchesAt, BuildRe, BuildAtom, BuildBranches, Closed, FirstBranch;
      var firstStart := |program|;
      ghost var here, before := AlternationAt(pattern, cursor, inGroup, extended), Out();
      CompileSequence(inGroup);
      if here.Ok? {
        AlternationBuilt(here.value, before);
      }
      if error != 0 || !IsAltDelimiter() {
        return;
      }
      CompileChoice(inGroup, firstStart);
    }

    /** The first branch is there; a SPLIT is put in front of it, and the other branches follow. */
    method CompileChoice(inGroup: bool, firstStart: nat)
      requires Ready() && firstStart <= |program| && cursor < |pattern| && AltDelimiter(pattern, cursor, extended)
      modifies this
      ensures match BranchesAt(pattern, old(cursor), inGroup, extended, 1)
              case Fail(code) => error == code
              case Ok(others, next) =>
                Ready() && cursor == next && Out() == Closed(BuildBranches(others, FirstBranch(old(Out()), firstStart)))
      decreases |pattern| - cursor, 4
    {
      hide SequenceAt, BranchesAt, BuildBranches, Closed, Inserted, AltDelimiter;
      ghost var first := Out();
      var firstSplit := Insert(firstStart);
      program := program[firstSplit := program[firstSplit].(op := Split)];
      program := program[firstSplit := program[firstSplit].(x := firstStart + 1)];
      program := program[firstSplit := program[firstSplit].(y := |program|)];
      var jumps := new nat[128];
      jumps[0] := Emit(Jmp);
      assert Chained(firstSplit, [jumps[0]]) == FirstBranch(first, firstStart);
      var lastSplit, jumpCount := CompileBranches(inGroup, firstSplit, jumps);
      if error == 0 {
        CloseBranches(lastSplit, jumps, jumpCount);
      }
    }

    /** What the branches so far amount to. */
    function Chained(lastSplit: nat, jumps: seq<nat>): Chain
      reads this
    {
      Chain(Out(), lastSplit, jumps)
    }

    /** The branches after the first; each ends in a JMP whose place is kept in `jumps`. */
    method CompileBranches(inGroup: bool, firstSplit: nat, jumps: array<nat>) returns (lastSplit: nat, jumpCount: nat)
      requires Ready() && firstSplit < |program| && cursor < |pattern| && AltDelimiter(pattern, cursor, extended)
      requires jumps.Length == MAX_BRANCHES && jumps[0] < |program|
      modifies this, jumps
      ensures match BranchesAt(pattern, old(cursor), inGroup, extended, 1)
              case Fail(code) => error == code
              case Ok(alts, next) =>
                && Ready() && cursor == next && lastSplit < |program| && jumpCount <= MAX_BRANCHES
                && (forall i :: 0 <= i < jumpCount ==> jumps[i] < |program|)
                && Chained(lastSplit, jumps[..jumpCount]) == BuildBranches(alts, old(Chained(firstSplit, [jumps[0]])))
      decreases |pattern| - cursor, 3
    {
      hide SequenceAt, BranchOpened, BranchDone, BuildRe, BranchesAt, BuildBranches, BranchesLeft, AltDelimiter;
      ghost var whole := BranchesAt(pattern, cursor, inGroup, extended, 1);
      ghost var first := Chained(firstSplit, [jumps[0]]);
      lastSplit, jumpCount := firstSplit, 1;
      assert jumps[..1] == [jumps[0]];
      AllBranchesLeft(pattern, cursor, inGroup, extended, first);
      while IsAltDelimiter()
        invariant Ready() && old(cursor) <= cursor && lastSplit < |program|
        invariant 0 < jumpCount <= MAX_BRANCHES
        invariant forall i :: 0 <= i < jumpCount ==> jumps[i] < |program|
        invariant BranchesLeft(pattern, cursor, inGroup, extended, jumpCount, whole,
                               Chained(lastSplit, jumps[..jumpCount]), first)
        decreases |pattern| - cursor
      {
        ghost var kept := jumps[..jumpCount];
        BranchesStep(pattern, cursor, inGroup, extended, jumpCount, whole, Chained(lastSplit, kept), first);
        var split, jump := CompileBranch(inGroup, lastSplit, kept);
        if error != 0 {
          return;
        }
        lastSplit := split;
        if jumpCount >= 128 {
          error := REG_BADPAT;
          return;
        }
        jumps[jumpCount] := jump;
        jumpCount := jumpCount + 1;
        assert jumps[..jumpCount] == kept + [jump];
        if !IsAltDelimiter() {
          break;
        }
      }
      NoBranchLeft(pattern, cursor, inGroup, extended, jumpCount, whole, Chained(lastSplit, jumps[..jumpCount]), first);
    }

    /** One more branch: its SPLIT, to which the last one now leads, its code, and its JMP. */
    method CompileBranch(inGroup: bool, lastSplit: nat, ghost jumps: seq<nat>) returns (split: nat, jump: nat)
      requires Ready() && lastSplit < |program| && AltDelimiter(pattern, cursor, extended)
      modifies this
      ensures match SequenceAt(pattern, old(cursor) + Width(extended), inGroup, extended)
              case Fail(code) => error == code
              case Ok(re, next) =>
                && Ready() && cursor == next && |old(program)| <= split < |program| && jump < |program|
                && Chained(split, jumps + [jump])
                   == BranchDone(BuildRe(re, BranchOpened(old(Chained(lastSplit, jumps)))), |old(program)|, jumps)
      decreases |pattern| - cursor, 2
    {
      hide SequenceAt, BuildRe;
      cursor := cursor + (if extended then 1 else 2);
      split := Emit(Split);
      program := program[lastSplit := program[lastSplit].(y := split)];
      assert Out() == BranchOpened(old(Chained(lastSplit, jumps)));
      var body := |program|;
      CompileSequence(inGroup);
      if error != 0 {
        return split, split;
      }
      program := program[split := program[split].(x := body)];
      program := program[split := program[split].(y := |program|)];
      jump := Emit(Jmp);
    }

    /** Every branch ends after the last one, and so does the last way out of the splits. */
    method CloseBranches(lastSplit: nat, jumps: array<nat>, jumpCount: nat)
      requires lastSplit < |program| && jumpCount <= jumps.Length
      requires forall i :: 0 <= i < jumpCount ==> jumps[i] < |program|
      modifies this`program
      ensures Out() == Closed(old(Chained(lastSplit, jumps[..jumpCount])))
    {
      var end := |program|;
      ghost var all: seq<int> := jumps[..jumpCount];
      program := program[lastSplit := program[lastSplit].(y := end)];
      ghost var open := program;
      assert all[0..] == all;
      for i := 0 to jumpCount
        invariant |program| == end && Patched(program, all[i..], end) == Patched(open, all, end)
      {
        assert all[i..][0] == jumps[i] && all[i..][1..] == all[i + 1..];
        program := program[jumps[i] := program[jumps[i]].(x := end)];
      }
      assert all[jumpCount..] == [];
    }
  }

  lemma AlternationBuilt(a: Atom, o: Output)
    ensures a.Group? ==> BuildAtom(a, o) == BuildRe(a.body, o)
    ensures a.Choice? ==> BuildAtom(a, o) == Closed(BuildBranches(a.others, FirstBranch(BuildRe(a.first, o), |o.program|)))
  {
    hide BuildAtom;
    if a.Group? {
      GroupBuilt(a.body, o);
    } else if a.Choice? {
      ChoiceBuilt(a, o);
    }
  }

  /** The branches to be read from `p` on complete the alternation. */
  ghost predicate BranchesLeft(pattern: seq<byte>, p: nat, inGroup: bool, extended: bool, n: nat, whole: Parsed<Alts>,
                               now: Chain, first: Chain)
  {
    && p <= |pattern| && now.lastSplit < |now.out.program| && first.lastSplit < |first.out.program|
    && if AltDelimiter(pattern, p, extended) then
         p < |pattern| &&
         match BranchesAt(pattern, p, inGroup, extended, n)
         case Fail(code) => whole == Fail(code)
         case Ok(alts, next) =>
           whole.Ok? && whole.next == next && BuildBranches(alts, now) == BuildBranches(whole.value, first)
       else whole.Ok? && p == whole.next && now == BuildBranches(whole.value, first)
  }

  lemma AllBranchesLeft(pattern: seq<byte>, p: nat, inGroup: bool, extended: bool, first: Chain)
    requires p < |pattern| && AltDelimiter(pattern, p, extended) && first.lastSplit < |first.out.program|
    ensures BranchesLeft(pattern, p, inGroup, extended, 1, BranchesAt(pattern, p, inGroup, extended, 1), first, first)
  {
  }

  lemma NoBranchLeft(pattern: seq<byte>, p: nat, inGroup: bool, extended: bool, n: nat, whole: Parsed<Alts>,
                     now: Chain, first: Chain)
    requires BranchesLeft(pattern, p, inGroup, extended, n, whole, now, first) && !AltDelimiter(pattern, p, extended)
    ensures whole.Ok? && p == whole.next && now.lastSplit < |now.out.program| && first.lastSplit < |first.out.program|
    ensures now == BuildBranches(whole.value, first)
  {
  }

  lemma BranchesStep(pattern: seq<byte>, p: nat, inGroup: bool, extended: bool, n: nat, whole: Parsed<Alts>,
                     now: Chain, first: Chain)
    requires AltDelimiter(pattern, p, extended) && BranchesLeft(pattern, p, inGroup, extended, n, whole, now, first)
    ensures p + Width(extended) <= |pattern| && now.lastSplit < |now.out.program|
    ensures match SequenceAt(pattern, p + Width(extended), inGroup, extended)
            case Fail(code) => whole == Fail(code)
            case Ok(re, next) =>
              if n >= MAX_BRANCHES then whole == Fail(REG_BADPAT)
              else BranchesLeft(pattern, next, inGroup, extended, n + 1, whole,
                                BranchDone(BuildRe(re, BranchOpened(now)), |now.out.program|, now.jumps), first)
  {
    hide SequenceAt, BranchOpened, BranchDone, BuildRe;
  }

  lemma NoCopiesOf(program: seq<Inst>, start: nat, end: nat)
    requires start <= end <= |program|
    ensures CopiedTimes(program, start, end, 0) == program && OptionsAdded(program, start, end, 0) == program
  {
  }

  // ----- regcomp

  /** `program` is the compiled program, or nothing when `code` is the error of the pattern. */
  method RegComp(pattern: seq<byte>, extended: bool) returns (code: int, program: Option<seq<Inst>>, nsub: nat)
    requires forall b <- pattern :: b != 0
    ensures match Parse(pattern, extended)
            case Fail(c) => code == c > 0 && program == None && nsub == 0
            case Ok(a, _) => code == 0 && program == Some(Compiled(a).program) && nsub == Compiled(a).groups
  {
    hide AlternationAt, BuildAtom;
    var c := new Compiler(pattern, extended);
    var save := c.Emit(Save);
    c.program := c.program[save := c.program[save].(x := 0)];
    assert c.program == [Plain(Save)];
    c.CompileAlternation(false);
    if c.error == 0 && At(pattern, c.cursor) != 0 {
      c.error := REG_BADPAT;
    }
    if c.error != 0 {
      return c.error, None, 0;
    }
    ghost var body := c.program;
    save := c.Emit(Save);
    c.program := c.program[save := c.program[save].(x := 1)];
    var match_ := c.Emit(Match);
    assert c.program == body + [SaveTo(1)] + [Plain(Match)];
    return 0, Some(c.program), c.groups;
  }
}
