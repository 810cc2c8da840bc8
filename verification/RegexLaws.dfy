/**
 Compiler and matcher together: what `regexec` reports for a pattern, in either syntax
 (lib/libc_regex.c:722-778, 905-971; tests/regex.c).
 */
module RegexLaws {
  import opened Maybe
  import opened RegexVm
  import opened RegexExec
  import opened RegexSyntax
  import opened RegexBuild
  import opened RegexSafety
  import opened RegexSlots
  import opened RegexCompile
  import opened RegexCode
  import opened RegexLayout
  import opened RegexRuns
  import opened RegexLanguage

  /** A compiled program is what `regexec` expects of its length. */
  lemma CompleteEnds(program: seq<Inst>)
    requires Complete(program)
    ensures EndsAtMatch(program, |program|)
  {
  }

  // ----- paths and counted runs

  lemma {:induction false} PathAccepts(m: Machine, s: State, p: seq<State>)
    requires Accepting(m, s, p)
    ensures Accepts(m, s, |p| - 1, p[|p| - 1].pos)
    decreases |p|
  {
    if |p| > 1 {
      assert p[1] in Next(m, p[0]);
      var rest := p[1..];
      forall i | 0 <= i < |rest| - 1
        ensures rest[i + 1] in Next(m, rest[i])
      {
        assert p[i + 2] in Next(m, p[i + 1]);
      }
      PathAccepts(m, p[1], rest);
      AcceptStep(m, s, p[1], |p| - 2, p[|p| - 1].pos);
    }
  }

  lemma {:induction false} AcceptsPath(m: Machine, s: State, k: nat, end: nat) returns (p: seq<State>)
    requires Accepts(m, s, k, end)
    ensures Accepting(m, s, p)
    decreases k
  {
    if k == 0 {
      p := [s];
    } else {
      var n :| n in Next(m, s) && Accepts(m, n, k - 1, end);
      var rest := AcceptsPath(m, n, k - 1, end);
      Extend(m, s, rest);
      p := [s] + rest;
    }
  }

  /** Some word of the expression begins at `i`. */
  ghost predicate StartsWord(a: Atom, f: Flags, text: seq<byte>, i: nat) {
    exists j: nat :: Word(a, f, text, i, j)
  }

  /** A match is found from `start` exactly when some word of the expression begins there. */
  lemma ReachesWord(m: Machine, a: Atom, start: nat)
    requires m.program == Compiled(a).program && start <= |m.text|
    ensures Reaches(m, State(0, start)) <==> StartsWord(a, m.flags, m.text, start)
  {
    hide Compiled, Word, Next, Accepts;
    if Reaches(m, State(0, start)) {
      var p: seq<State> :| Accepting(m, State(0, start), p);
      PathAccepts(m, State(0, start), p);
      ProgramLanguage(m, a, start, p[|p| - 1].pos);
    }
    if StartsWord(a, m.flags, m.text, start) {
      var end: nat :| Word(a, m.flags, m.text, start, end);
      ProgramLanguage(m, a, start, end);
      var k: nat :| Accepts(m, State(0, start), k, end);
      var p := AcceptsPath(m, State(0, start), k, end);
    }
  }

  lemma WordRange(a: Atom, f: Flags, text: seq<byte>, i: nat, j: nat)
    requires Word(a, f, text, i, j)
    ensures i <= j <= |text|
  {
    hide ReadsAtom;
    AtomRange(a, f, text, Fall, i, if ReadsAtom(a, f, text, Fall, i, Fall, j) then Fall else Jump, j);
  }

  // ----- the reported match

  /** Between the first SAVE and the one at `after` a run stays there, and touches only the captures of groups. */
  predicate Inside(m: Machine, after: nat) {
    && 1 <= after && |m.program| == after + 2
    && m.program[0] == Plain(Save) && m.program[after] == SaveTo(1) && m.program[after + 1] == Plain(Match)
    && forall i :: 1 <= i < after ==> StaysInside(m.program[i], after)
  }

  predicate StaysInside(inst: Inst, after: nat) {
    && inst.op != Match && (inst.op == Save ==> inst.x >= 2)
    && (inst.op == Split ==> 1 <= inst.x <= after && 1 <= inst.y <= after)
    && (inst.op == Jmp ==> 1 <= inst.x <= after)
  }

  lemma CompiledInside(m: Machine, a: Atom)
    requires m.program == Compiled(a).program
    ensures |m.program| >= 3 && Inside(m, |m.program| - 2)
  {
    hide AtomFragment, Compiled;
    CompiledComplete(a);
    CompiledLayout(a);
    AtomCompact(a);
    var f := AtomFragment(a);
    var after := |m.program| - 2;
    assert after == 1 + |f.code|;
    forall i | 1 <= i < after
      ensures StaysInside(m.program[i], after)
    {
      assert Blinded(m.program)[i] == Put(f.code[i - 1], 1, after);
      assert InstFits(f.code[i - 1], |f.code|);
    }
  }

  lemma InsideStep(m: Machine, after: nat, s: State)
    requires Inside(m, after) && 1 <= s.pc < after && s.pos <= |m.text|
    ensures Valid(m, s) && !IsMatch(m, s) && (m.program[s.pc].op == Save ==> m.program[s.pc].x >= 2)
    ensures forall n <- Next(m, s) :: 1 <= n.pc <= after && n.pos <= |m.text|
  {
    assert StaysInside(m.program[s.pc], after);
  }

  lemma {:induction false} CapturesOfTail(m: Machine, after: nat, p: seq<State>, caps: seq<int>)
    requires Inside(m, after) && p != [] && Accepting(m, p[0], p) && p[0].pos <= |m.text|
    requires 1 <= p[0].pc <= after && |caps| >= 2
    ensures var r := Captured(m, p, caps); |r| == |caps| && r[0] == caps[0] && r[1] == p[|p| - 1].pos
    decreases |p|
  {
    var s := p[0];
    var rest := p[1..];
    if s.pc < after {
      hide Inside;
      InsideStep(m, after, s);
      assert |p| > 1 && p[1] in Next(m, s);
      TailAccepting(m, p);
      CapturesOfTail(m, after, rest, AfterSave(m, s, caps));
    } else {
      assert Next(m, s) == [State(after + 1, s.pos)] && Next(m, State(after + 1, s.pos)) == [];
      assert |p| > 1 && p[1] in Next(m, s);
      EndOfPath(m, p, 1);
      assert rest == [p[1]] && rest[1..] == [];
      var caps' := AfterSave(m, s, caps);
      assert caps' == caps[1 := s.pos] && p[1] == State(after + 1, s.pos);
      assert Captured(m, rest, caps') == Captured(m, [], AfterSave(m, p[1], caps'));
    }
  }

  lemma EndOfPath(m: Machine, p: seq<State>, i: nat)
    requires IsPath(m, p) && i < |p|
    ensures |p| == i + 1 || p[i + 1] in Next(m, p[i])
  {
  }

  lemma TailAccepting(m: Machine, p: seq<State>)
    requires |p| > 1 && Accepting(m, p[0], p)
    ensures Accepting(m, p[1], p[1..]) && p[1] in Next(m, p[0])
  {
    var rest := p[1..];
    forall i | 0 <= i < |rest| - 1
      ensures rest[i + 1] in Next(m, rest[i])
    {
      assert p[i + 2] in Next(m, p[i + 1]);
    }
  }

  /** The first two captures are the start and the end of the path found. */
  lemma ReportedEnds(m: Machine, a: Atom, nsub: nat, start: nat)
    requires m.program == Compiled(a).program && start <= |m.text| && Reaches(m, State(0, start))
    ensures FirstPath(m, State(0, start), {}).Some? && FirstPath(m, State(0, start), {}).value != []
    ensures var caps := MatchCaptures(m, start, nsub); var p := FirstPath(m, State(0, start), {}).value;
            |caps| == (nsub + 1) * 2 && caps[0] == start && caps[1] == p[|p| - 1].pos
  {
    hide Compiled, FirstPath, Inside;
    SearchFindsFirst(m, State(0, start));
    var p := FirstPath(m, State(0, start), {}).value;
    CompiledInside(m, a);
    FirstSave(m, |m.program| - 2, start);
    var caps := StartCaptures((nsub + 1) * 2, start);
    assert |p| > 1 by { assert !IsMatch(m, State(0, start)); }
    TailAccepting(m, p);
    assert p[1] == State(1, start) && AfterSave(m, p[0], caps) == caps;
    CapturesOfTail(m, |m.program| - 2, p[1..], caps);
  }

  /** The first two captures `regexec` reports delimit a word of the expression. */
  lemma ReportedWord(m: Machine, a: Atom, nsub: nat, start: nat)
    requires m.program == Compiled(a).program && start <= |m.text| && Reaches(m, State(0, start))
    ensures var caps := MatchCaptures(m, start, nsub);
            |caps| == (nsub + 1) * 2 && caps[0] == start && caps[1] >= 0 && Word(a, m.flags, m.text, start, caps[1])
  {
    hide Compiled, Word, FirstPath, Inside, MatchCaptures;
    SearchFindsFirst(m, State(0, start));
    var p := FirstPath(m, State(0, start), {}).value;
    PathAccepts(m, State(0, start), p);
    ProgramLanguage(m, a, start, p[|p| - 1].pos);
    ReportedEnds(m, a, nsub, start);
  }

  lemma FirstSave(m: Machine, after: nat, start: nat)
    requires Inside(m, after) && start <= |m.text|
    ensures after >= 1 && Next(m, State(0, start)) == [State(1, start)] && !IsMatch(m, State(0, start))
    ensures Valid(m, State(0, start)) && m.program[0] == Plain(Save)
  {
  }

  /** Some word of the expression lies within the text. */
  ghost predicate HasWord(a: Atom, f: Flags, text: seq<byte>) {
    exists i: nat, j: nat :: Word(a, f, text, i, j)
  }

  /** A match starts at the leftmost position at which a word begins, and the reported bounds delimit a word. */
  lemma LeftmostWord(a: Atom, m: Machine, nsub: nat, start: nat)
    requires m.program == Compiled(a).program && IsLeftmost(m, start)
    ensures var caps := MatchCaptures(m, start, nsub);
            && |caps| == (nsub + 1) * 2 && caps[0] == start && caps[1] >= 0
            && Word(a, m.flags, m.text, start, caps[1])
            && forall i: nat, j: nat :: i < start ==> !Word(a, m.flags, m.text, i, j)
  {
    hide Word, Compiled, MatchCaptures, Reaches, FirstPath;
    ReportedWord(m, a, nsub, start);
    forall i: nat, j: nat | i < start
      ensures !Word(a, m.flags, m.text, i, j)
    {
      ReachesWord(m, a, i);
      assert !StartsWord(a, m.flags, m.text, i);
    }
  }

  ghost predicate HasMatch(m: Machine) {
    exists i: nat :: i <= |m.text| && Reaches(m, State(0, i))
  }

  /** There is a match exactly when the text contains a word of the expression. */
  lemma MatchMeansWord(a: Atom, m: Machine)
    requires m.program == Compiled(a).program
    ensures HasMatch(m) <==> HasWord(a, m.flags, m.text)
  {
    hide Compiled, Word, Reaches, FirstPath;
    if HasMatch(m) {
      var i: nat :| i <= |m.text| && Reaches(m, State(0, i));
      ReachesWord(m, a, i);
      var end: nat :| Word(a, m.flags, m.text, i, end);
      assert HasWord(a, m.flags, m.text);
    }
    forall i: nat, j: nat | Word(a, m.flags, m.text, i, j)
      ensures HasMatch(m)
    {
      WordRange(a, m.flags, m.text, i, j);
      ReachesWord(m, a, i);
      assert StartsWord(a, m.flags, m.text, i);
    }
  }

  // ----- regcomp, then regexec

  lemma SlotsForExec(program: seq<Inst>, nsub: nat)
    requires SlotsWithin(program, nsub)
    ensures forall inst <- program :: inst.op == Save ==> 0 <= inst.x < (nsub + 1) * 2
  {
    forall inst | inst in program && inst.op == Save
      ensures 0 <= inst.x < (nsub + 1) * 2
    {
      var i :| 0 <= i < |program| && program[i] == inst;
      assert SlotWithin(program[i], nsub);
    }
  }

  /**
   Compiling a pattern and searching a text with it: the error code is the parser's; otherwise nothing is
   found exactly when the text holds no word of the expression, and else a word that starts leftmost is.
   */
  method CompileAndSearch(pattern: seq<byte>, extended: bool, text: seq<byte>, f: Flags)
    returns (code: int, found: Option<RegMatch>)
    requires forall b <- pattern :: b != 0
    requires var r := Parse(pattern, extended);
             r.Ok? ==> SlotsWithin(Compiled(r.value).program, Compiled(r.value).groups)
    ensures match Parse(pattern, extended)
            case Fail(c) => code == c > 0 && found == None
            case Ok(a, _) =>
              && code == 0 && (found.None? <==> !HasWord(a, f, text))
              && (found.Some? ==>
                    var start, end := found.value.so, found.value.eo;
                    && 0 <= start <= end <= |text| && Word(a, f, text, start, end)
                    && (forall i: nat, j: nat :: i < start ==> !Word(a, f, text, i, j))
                    && var m := Machine(Compiled(a).program, text, f);
                       var caps := MatchCaptures(m, start, Compiled(a).groups);
                       IsLeftmost(m, start) && |caps| >= 2 && found.value == RegMatch(caps[0], caps[1]))
  {
    hide Compiled, Word, Parse, Complete, EndsAtMatch, SlotsWithin, IsLeftmost, MatchCaptures, Reported, HasWord, Reaches;
    var program, nsub;
    code, program, nsub := RegComp(pattern, extended);
    if program.None? {
      return code, None;
    }
    ghost var a := Parse(pattern, extended).value;
    var length := |program.value|;
    var regex := Regex(program, nsub, f.icase, f.newline, false);
    CompiledComplete(a);
    CompleteEnds(program.value);
    SlotsForExec(program.value, nsub);
    var captures := new int[(nsub + 1) * 2](_ => -1);
    var generations := new int[length * (|text| + 1)](_ => 0);
    var pmatch := new RegMatch[1](_ => RegMatch(-1, -1));
    ghost var before := pmatch[..];
    var result, start := RegExec(regex, text, 1, pmatch, f.notBol, f.notEol, captures, generations, length);
    ghost var m := MachineOf(regex, length, text, f.notBol, f.notEol);
    assert m == Machine(program.value, text, f);
    MatchMeansWord(a, m);
    if result == REG_OK {
      LeftmostWord(a, m, nsub, start);
      LeftmostMatches(m, start);
      EntriesReported(before, pmatch[..], 1, MatchCaptures(m, start, nsub));
      WordRange(a, f, text, start, MatchCaptures(m, start, nsub)[1]);
      return code, Some(pmatch[0]);
    }
    return code, None;
  }

  lemma LeftmostMatches(m: Machine, start: nat)
    requires IsLeftmost(m, start)
    ensures HasMatch(m)
  {
    hide Reaches;
  }

  /** Each group's entry is the pair of its two slots, and the entries past the last group are left alone. */
  lemma EntriesReported(before: seq<RegMatch>, after: seq<RegMatch>, count: nat, caps: seq<int>)
    requires Reported(before, after, count, caps)
    ensures |after| == |before| && 2 * count <= |caps| && count <= |after|
    ensures forall i :: 0 <= i < count ==> after[i].so == caps[2 * i] && after[i].eo == caps[2 * i + 1]
    ensures forall i :: count <= i < |after| ==> after[i] == before[i]
  {
  }
}
