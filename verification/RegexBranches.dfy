/**
 Which branch of an alternation is taken: the first one that can match where the search starts, whatever
 the branches are (lib/libc_regex.c:631-720, 847-853).
 */
module RegexBranches {
  import opened Maybe
  import opened RegexVm
  import opened RegexExec
  import opened RegexSyntax
  import opened RegexBuild
  import opened RegexCode
  import opened RegexLayout
  import opened RegexRuns
  import opened RegexLanguage
  import opened RegexLaws
  import opened RegexPriority
  import Repeats = RegexRepeats

  // ----- the search does not look at capture slots

  lemma SameStates(m: Machine, s: State)
    ensures Valid(Unslotted(m), s) == Valid(m, s) && AllStates(Unslotted(m)) == AllStates(m)
  {
  }

  lemma {:induction false} SameFirst(m: Machine, s: State, above: set<State>)
    ensures FirstPath(Unslotted(m), s, above) == FirstPath(m, s, above)
    decreases |AllStates(m) - above|, 1
  {
    SameStates(m, s);
    SameSteps(m, s);
    if Valid(m, s) && s !in above && !IsMatch(m, s) {
      hide Next, AllStates, IsMatch, Unslotted, FirstPath, FirstOf;
      FirstUnfold(m, s, above);
      FirstUnfold(Unslotted(m), s, above);
      SameFirstOf(m, Next(m, s), above + {s});
    }
  }

  lemma {:induction false} SameFirstOf(m: Machine, choices: seq<State>, above: set<State>)
    ensures FirstOf(Unslotted(m), choices, above) == FirstOf(m, choices, above)
    decreases |AllStates(m) - above|, 2, |choices|
  {
    if choices != [] {
      hide AllStates, Unslotted, FirstPath;
      SameFirst(m, choices[0], above);
      SameFirstOf(m, choices[1..], above);
    }
  }

  // ----- going forward only

  /** From `c` on no reference leads back before `c`. */
  predicate Forward(m: Machine, c: int) {
    forall pc :: c <= pc < |m.program| && 0 <= pc ==> ForwardInst(m.program[pc], c)
  }

  predicate ForwardInst(inst: Inst, c: int) {
    (inst.op == Split ==> inst.x >= c && inst.y >= c) && (inst.op == Jmp ==> inst.x >= c)
  }

  lemma ForwardStep(m: Machine, c: int, s: State, n: State)
    requires Forward(m, c) && s.pc >= c && n in Next(m, s)
    ensures n.pc >= c
  {
    assert ForwardInst(m.program[s.pc], c);
  }

  lemma {:induction false} ForwardPath(m: Machine, c: int, r: seq<State>, i: nat)
    requires Forward(m, c) && IsPath(m, r) && i < |r| && r[0].pc >= c
    ensures r[i].pc >= c
    decreases i
  {
    hide Next, Forward;
    if i > 0 {
      ForwardPath(m, c, r, i - 1);
      assert r[i - 1 + 1] in Next(m, r[i - 1]);
      ForwardStep(m, c, r[i - 1], r[i]);
    }
  }

  /** An accepting run from the first target, past all that the path has seen, would have been a better way. */
  lemma AheadIsBetter(m: Machine, q: seq<State>, k: nat, n: nat, end: nat)
    requires k < |q| && Valid(m, q[k]) && m.program[q[k].pc].op == Split
    requires var x := m.program[q[k].pc].x;
             && Forward(m, x) && Accepts(m, State(x, q[k].pos), n, end)
             && forall i :: 0 <= i <= k ==> q[i].pc < x
    ensures Better(m, q, k)
  {
    hide Next, Forward;
    var s := State(m.program[q[k].pc].x, q[k].pos);
    var r := AcceptsPath(m, s, n, end);
    r := CutLoops(m, s, r);
    var head := q[..k + 1];
    forall i, j | 0 <= i < |head| && 0 <= j < |r|
      ensures head[i] != r[j]
    {
      ForwardPath(m, s.pc, r, j);
      assert head[i] == q[i];
    }
    assert Apart(head, r);
  }

  // ----- branches

  function BranchesOf(alts: Alts): seq<Re> {
    if alts.More? then [alts.re] + BranchesOf(alts.more) else [alts.re]
  }

  /** Some word of the branch begins at `i`. */
  ghost predicate BranchStarts(re: Re, f: Flags, text: seq<byte>, i: nat) {
    exists j: nat :: ReadsBranch(re, f, text, Fall, i, j)
  }

  /** The match is of the first branch that has one, or empty when none has. */
  ghost predicate FirstTaken(branches: seq<Re>, f: Flags, text: seq<byte>, i: nat, end: nat) {
    if branches == [] then end == i
    else if BranchStarts(branches[0], f, text, i) then ReadsBranch(branches[0], f, text, Fall, i, end)
    else FirstTaken(branches[1..], f, text, i, end)
  }

  /** The branches stand at `base`, and behind them the end of the program. */
  ghost predicate AltsStand(m: Machine, alts: Alts, base: nat) {
    var exit := base + |AltsFragment(alts).code|;
    && Holds(m, base, exit, AltsFragment(alts)) && |m.program| == exit + 2
    && InstAt(m, exit, Plain(Save)) && InstAt(m, exit + 1, Plain(Match))
  }

  function Others(alts: Alts): Fragment { if alts.More? then AltsFragment(alts.more) else Fragment([], 0) }

  /** A branch at `base`: its SPLIT, its code, its JMP, and the branches behind it. */
  lemma BranchStands(m: Machine, alts: Alts, base: nat)
    requires AltsStand(m, alts, base)
    ensures var n, exit := |ReFragment(alts.re).code|, base + |AltsFragment(alts).code|; var jump := base + 1 + n;
            && exit == jump + 1 + |Others(alts).code| && (alts.Last? ==> exit == jump + 1)
            && InstAt(m, base, SplitTo(base + 1, jump + 1)) && Holds(m, base + 1, jump, ReFragment(alts.re))
            && InstAt(m, jump, JmpTo(exit)) && (alts.More? ==> AltsStand(m, alts.more, jump + 1))
            && Inlet(ReFragment(alts.re), Fall, base + 1, jump) == base + 1 && Forward(m, base + 1)
  {
    hide Holds, Compact, ReFragment, Inlet, Outlet, Forward, AltsFragment;
    var f, g := ReFragment(alts.re), Others(alts);
    var n, exit := |f.code|, base + |AltsFragment(alts).code|;
    AltsBranch(alts);
    ReCompact(alts.re);
    if alts.More? {
      AltsCompact(alts.more);
      AltsSize(alts.more);
    } else {
      NothingFits();
    }
    BranchHolds(m, base, exit, f, g);
    InletFall(f, base + 1, base + 1 + n);
    BranchForward(m, base, exit, f, g);
  }

  lemma AltsBranch(alts: Alts)
    ensures AltsFragment(alts) == BranchOf(ReFragment(alts.re), Others(alts))
    ensures |AltsFragment(alts).code| == |ReFragment(alts.re).code| + 2 + |Others(alts).code|
  {
    hide ReFragment;
  }

  lemma BranchForward(m: Machine, base: nat, exit: int, f: Fragment, g: Fragment)
    requires exit == base + 2 + |f.code| + |g.code| && |m.program| == exit + 2
    requires Holds(m, base + 1, base + 1 + |f.code|, f) && InstAt(m, base + 1 + |f.code|, JmpTo(exit))
    requires Holds(m, base + 2 + |f.code|, exit, g)
    requires InstAt(m, exit, Plain(Save)) && InstAt(m, exit + 1, Plain(Match))
    ensures Forward(m, base + 1)
  {
    forall pc | base + 1 <= pc < |m.program|
      ensures ForwardInst(m.program[pc], base + 1)
    {
      var i := pc - (base + 1);
      if i < |f.code| {
        assert m.program[base + 1 + i] == Put(f.code[i], base + 1, base + 1 + |f.code|);
      } else if |f.code| < i < |f.code| + 1 + |g.code| {
        var j := i - |f.code| - 1;
        assert m.program[base + 2 + |f.code| + j] == Put(g.code[j], base + 2 + |f.code|, exit);
      }
    }
  }

  /** The rest of the found path from a state on it. */
  lemma RestAccepts(m: Machine, s: State, p: seq<State>, k: nat)
    requires Accepting(m, s, p) && k < |p|
    ensures Accepts(m, p[k], |p| - 1 - k, p[|p| - 1].pos)
  {
    hide Next;
    var r := p[k..];
    forall i | 0 <= i < |r| - 1
      ensures r[i + 1] in Next(m, r[i])
    {
      assert p[k + i + 1] in Next(m, p[k + i]);
    }
    PathAccepts(m, p[k], r);
  }

  lemma {:induction false} AltsTaken(m: Machine, s: State, p: seq<State>, k: nat, alts: Alts, base: nat, start: nat)
    requires FirstPath(m, s, {}) == Some(p) && k < |p| && p[k] == State(base, start) && start <= |m.text|
    requires AltsStand(m, alts, base) && forall i :: 0 <= i <= k ==> p[i].pc <= base
    ensures FirstTaken(BranchesOf(alts), m.flags, m.text, start, p[|p| - 1].pos)
    decreases alts
  {
    hide FirstPath, Next, AltsStand, ReFragment, AltsFragment, Accepts, ReadsBranch, Better, Holds, Forward, Inlet;
    var n, exit := |ReFragment(alts.re).code|, base + |AltsFragment(alts).code|;
    var jump, end := base + 1 + n, p[|p| - 1].pos;
    BranchStands(m, alts, base);
    ExitStands(m, alts, base);
    FoundPath(m, s, p);
    SplitTaken(m, s, p, k);
    var bs := BranchesOf(alts);
    assert bs[0] == alts.re && (alts.More? ==> bs[1..] == BranchesOf(alts.more));
    RestAccepts(m, s, p, k + 1);
    if p[k + 1] == State(base + 1, start) {
      var j, k' := BranchSound(m, alts.re, base + 1, exit, Fall, start, |p| - 2 - k, end);
      LastSteps(m, exit, j, k', end);
    } else {
      forall j: nat | ReadsBranch(alts.re, m.flags, m.text, Fall, start, j)
        ensures false
      {
        BranchRange(alts.re, m.flags, m.text, Fall, start, j);
        LastSteps(m, exit, j, 1, j);
        var k' := BranchRuns(m, alts.re, base + 1, exit, Fall, start, j, 1, j);
        AheadIsBetter(m, p, k, k', j);
      }
      if alts.More? {
        AltsTaken(m, s, p, k + 1, alts.more, jump + 1, start);
      } else {
        LastSteps(m, exit, start, |p| - 2 - k, end);
        assert bs[1..] == [];
      }
    }
  }

  lemma ExitStands(m: Machine, alts: Alts, base: nat)
    requires AltsStand(m, alts, base)
    ensures var exit := base + |AltsFragment(alts).code|;
            InstAt(m, exit, Plain(Save)) && InstAt(m, exit + 1, Plain(Match))
  {
    hide AltsFragment;
  }

  /** A path goes on from a SPLIT to one of its targets. */
  lemma SplitTaken(m: Machine, s: State, p: seq<State>, k: nat)
    requires Accepting(m, s, p) && k < |p| && Valid(m, p[k]) && m.program[p[k].pc].op == Split
    ensures k + 1 < |p|
    ensures var inst, pos := m.program[p[k].pc], p[k].pos;
            p[k + 1] == State(inst.x, pos) || p[k + 1] == State(inst.y, pos)
  {
    if k + 1 < |p| {
      assert p[k + 1] in Next(m, p[k]);
    }
  }

  /** An alternation reports a match of the first branch that has one from the start on, or an empty one. */
  lemma BranchTaken(m: Machine, first: Re, others: Alts, nsub: nat, start: nat)
    requires m.program == Compiled(Choice(first, others)).program && start <= |m.text|
    ensures var caps := MatchCaptures(m, start, nsub);
            && |caps| == (nsub + 1) * 2 && caps[0] == start <= caps[1]
            && FirstTaken([first] + BranchesOf(others), m.flags, m.text, start, caps[1])
  {
    hide Compiled, FirstPath, AtomFragment, AltsFragment, Next, AltsStand, MatchCaptures, FirstTaken, BranchesOf;
    var a, alts, u := Choice(first, others), More(first, others), Unslotted(m);
    var s := State(0, start);
    StartReaches(m, first, others, start);
    ReportedEnds(m, a, nsub, start);
    ReportedWord(m, a, nsub, start);
    WordRange(a, m.flags, m.text, start, MatchCaptures(m, start, nsub)[1]);
    var p := FirstPath(m, s, {}).value;
    SameFirst(m, s, {});
    FirstPathSound(u, s, {});
    CompiledLayout(a);
    ChoiceStands(u, first, others);
    OneStepOn(u, s, p);
    AltsTaken(u, s, p, 1, alts, 1, start);
    assert BranchesOf(alts) == [first] + BranchesOf(others) by { BranchesCons(first, others); }
  }

  lemma BranchesCons(first: Re, others: Alts)
    ensures BranchesOf(More(first, others)) == [first] + BranchesOf(others)
  {
  }

  /** The first SAVE leads on. */
  lemma OneStepOn(u: Machine, s: State, p: seq<State>)
    requires Accepting(u, s, p) && InstAt(u, 0, Plain(Save)) && s.pc == 0 && s.pos <= |u.text|
    ensures |p| > 1 && p[0] == s && p[1] == State(1, s.pos)
  {
    GoesOn(u, s, p);
  }

  lemma ChoiceStands(u: Machine, first: Re, others: Alts)
    requires u.program == Framed(AtomFragment(Choice(first, others)))
    ensures InstAt(u, 0, Plain(Save)) && AltsStand(u, More(first, others), 1)
  {
    hide Framed, Compact, Holds;
    AtomCompact(Choice(first, others));
    FramedHolds(u, AtomFragment(Choice(first, others)));
    assert AtomFragment(Choice(first, others)) == AltsFragment(More(first, others)) by { SameAlternation(first, others); }
  }

  lemma SameAlternation(first: Re, others: Alts)
    ensures AtomFragment(Choice(first, others)) == AltsFragment(More(first, others))
  {
    hide ReFragment, BranchOf;
  }

  /** An alternation matches everywhere. */
  lemma StartReaches(m: Machine, first: Re, others: Alts, start: nat)
    requires m.program == Compiled(Choice(first, others)).program && start <= |m.text|
    ensures Reaches(m, State(0, start))
  {
    hide Compiled, Reads, ReadsBranch, ReadsSome, Reaches;
    assert ReadsAtom(Choice(first, others), m.flags, m.text, Fall, start, Jump, start);
    assert Word(Choice(first, others), m.flags, m.text, start, start);
    ReachesWord(m, Choice(first, others), start);
  }

  // ----- branches that are words

  function WordAlts(ws: seq<seq<byte>>): Alts
    requires ws != []
  {
    if |ws| == 1 then Last(Repeats.Letters(ws[0])) else More(Repeats.Letters(ws[0]), WordAlts(ws[1..]))
  }

  predicate WordStands(w: seq<byte>, f: Flags, text: seq<byte>, i: nat) {
    i + |w| <= |text| && forall k :: 0 <= k < |w| ==> SameByte(text[i + k], w[k], f.icase)
  }

  /** The end of the first word in the list that stands at `i`; `i` itself if none does. */
  function FirstWordEnd(ws: seq<seq<byte>>, f: Flags, text: seq<byte>, i: nat): nat {
    if ws == [] then i else if WordStands(ws[0], f, text, i) then i + |ws[0]| else FirstWordEnd(ws[1..], f, text, i)
  }

  lemma WordBranch(w: seq<byte>, f: Flags, text: seq<byte>, i: nat, j: nat)
    requires i <= |text|
    ensures ReadsBranch(Repeats.Letters(w), f, text, Fall, i, j) <==> WordStands(w, f, text, i) && j == i + |w|
  {
    hide Reads, Repeats.Letters, Repeats.SameByte, SameByte;
    if w == [] {
      NothingRead(f, text);
      NoLetters();
    } else {
      Repeats.LettersRead(w, f, text, Fall, i, Fall, j);
      Repeats.LettersRead(w, f, text, Fall, i, Jump, j);
      forall a: byte, b: byte
        ensures Repeats.SameByte(f, a, b) == SameByte(a, b, f.icase)
      {
        OneSameByte(f, a, b);
      }
    }
  }

  lemma NoLetters()
    ensures Repeats.Letters([]) == Empty
  {
  }

  lemma OneSameByte(f: Flags, a: byte, b: byte)
    ensures Repeats.SameByte(f, a, b) == SameByte(a, b, f.icase)
  {
    CaseFolded(a, b);
    SameOrFolded(a, b, f.icase);
  }

  lemma {:induction false} FirstWordTaken(ws: seq<seq<byte>>, f: Flags, text: seq<byte>, i: nat, end: nat)
    requires ws != [] && i <= |text|
    ensures FirstTaken(BranchesOf(WordAlts(ws)), f, text, i, end) <==> end == FirstWordEnd(ws, f, text, i)
    decreases |ws|
  {
    hide ReadsBranch, Repeats.Letters, WordStands;
    var bs := BranchesOf(WordAlts(ws));
    assert bs[0] == Repeats.Letters(ws[0]);
    WordBranch(ws[0], f, text, i, end);
    WordBranch(ws[0], f, text, i, i + |ws[0]|);
    forall j: nat
      ensures ReadsBranch(bs[0], f, text, Fall, i, j) <==> WordStands(ws[0], f, text, i) && j == i + |ws[0]|
    {
      WordBranch(ws[0], f, text, i, j);
    }
    assert BranchStarts(bs[0], f, text, i) <==> WordStands(ws[0], f, text, i);
    if |ws| > 1 {
      assert bs[1..] == BranchesOf(WordAlts(ws[1..]));
      FirstWordTaken(ws[1..], f, text, i, end);
    } else {
      assert bs[1..] == [] && ws[1..] == [];
    }
  }

  /** Of words written as branches, in their order, the first one that stands at the start is reported. */
  lemma WordTaken(m: Machine, ws: seq<seq<byte>>, nsub: nat, start: nat)
    requires |ws| >= 2 && start <= |m.text|
    requires m.program == Compiled(Choice(Repeats.Letters(ws[0]), WordAlts(ws[1..]))).program
    ensures var caps := MatchCaptures(m, start, nsub);
            |caps| == (nsub + 1) * 2 && caps[0] == start && caps[1] == FirstWordEnd(ws, m.flags, m.text, start)
  {
    hide Compiled, MatchCaptures, FirstTaken, WordAlts, FirstWordEnd, Repeats.Letters, BranchesOf;
    BranchTaken(m, Repeats.Letters(ws[0]), WordAlts(ws[1..]), nsub, start);
    MoreWords(ws);
    FirstWordTaken(ws, m.flags, m.text, start, MatchCaptures(m, start, nsub)[1]);
  }

  lemma MoreWords(ws: seq<seq<byte>>)
    requires |ws| >= 2
    ensures BranchesOf(WordAlts(ws)) == [Repeats.Letters(ws[0])] + BranchesOf(WordAlts(ws[1..]))
  {
    hide Repeats.Letters;
  }
}
