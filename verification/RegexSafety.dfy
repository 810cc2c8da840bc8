/**
 What every compiled program satisfies, whatever the pattern (lib/libc_regex.c:722-778).
 */
module RegexSafety {
  import opened RegexVm
  import opened RegexSyntax
  import opened RegexBuild

  /**
   Targets leave the program by at most one, no capture slot is that of the whole match, and there are none
   unless `saves`.
   */
  predicate InstOk(saves: bool, inst: Inst, length: int) {
    && inst.op != Match && inst.x >= 0 && inst.y >= 0
    && (inst.op == Save ==> saves && inst.x >= 2)
    && (inst.op == Split ==> inst.x <= length && inst.y <= length)
    && (inst.op == Jmp ==> inst.x <= length)
  }

  /** A program under construction. */
  predicate WellFormed(saves: bool, program: seq<Inst>) {
    && program != [] && program[0] == Plain(Save)
    && forall i :: 1 <= i < |program| ==> InstOk(saves, program[i], |program|)
  }

  lemma AppendOk(saves: bool, p: seq<Inst>, inst: Inst)
    requires WellFormed(saves, p) && InstOk(saves, inst, |p| + 1)
    ensures WellFormed(saves, p + [inst])
  {
    forall i | 1 <= i < |p|
      ensures InstOk(saves, p[i], |p| + 1)
    {
      assert InstOk(saves, p[i], |p|);
    }
  }

  lemma OptionedOk(saves: bool, p: seq<Inst>, start: nat)
    requires WellFormed(saves, p) && 0 < start <= |p|
    ensures WellFormed(saves, Optioned(p, start))
  {
    var wide := p[..start] + [Plain(Char)] + p[start..];
    forall i | 1 <= i < |wide|
      ensures InstOk(saves, Bumped(wide[i], start), |p| + 1)
    {
      if i < start {
        assert InstOk(saves, p[i], |p|);
      } else if i > start {
        assert wide[i] == p[i - 1] && InstOk(saves, p[i - 1], |p|);
      }
    }
    assert wide[0] == p[0];
  }

  lemma CopiedOk(saves: bool, p: seq<Inst>, start: nat, end: nat)
    requires WellFormed(saves, p) && 0 < start <= end <= |p|
    ensures WellFormed(saves, Copied(p, start, end))
  {
    var r := Copied(p, start, end);
    forall i | 1 <= i < |r|
      ensures InstOk(saves, r[i], |r|)
    {
      if i < |p| {
        assert InstOk(saves, p[i], |p|);
      } else {
        assert p[start..end][i - |p|] == p[start + i - |p|];
        assert InstOk(saves, p[start + i - |p|], |p|);
      }
    }
  }

  lemma OptionAddedOk(saves: bool, p: seq<Inst>, start: nat, end: nat)
    requires WellFormed(saves, p) && 0 < start <= end <= |p|
    ensures WellFormed(saves, OptionAdded(p, start, end))
  {
    hide Copied;
    AppendOk(saves, p, Plain(Split));
    CopiedOk(saves, p + [Plain(Split)], start, end);
  }

  lemma {:induction false} CopiesOk(saves: bool, p: seq<Inst>, start: nat, end: nat, n: nat)
    requires WellFormed(saves, p) && 0 < start <= end <= |p|
    ensures WellFormed(saves, CopiedTimes(p, start, end, n))
  {
    if n > 0 {
      hide Copied, WellFormed;
      CopiesOk(saves, p, start, end, n - 1);
      CopiedOk(saves, CopiedTimes(p, start, end, n - 1), start, end);
    }
  }

  lemma {:induction false} OptionsOk(saves: bool, p: seq<Inst>, start: nat, end: nat, n: nat)
    requires WellFormed(saves, p) && 0 < start <= end <= |p|
    ensures WellFormed(saves, OptionsAdded(p, start, end, n))
  {
    if n > 0 {
      hide OptionAdded, WellFormed;
      OptionsOk(saves, p, start, end, n - 1);
      OptionAddedOk(saves, OptionsAdded(p, start, end, n - 1), start, end);
    }
  }

  lemma QuantifiedOk(saves: bool, p: seq<Inst>, start: nat, q: Quant)
    requires WellFormed(saves, p) && 0 < start <= |p|
    ensures WellFormed(saves, Quantified(p, start, q))
  {
    hide Optioned, CopiedTimes, OptionsAdded, OptionAdded, WellFormed;
    var end := |p|;
    match q
    case Once =>
    case Plus => AppendOk(saves, p, SplitTo(start, end + 1));
    case Repeat(min, max) =>
      if min == 0 {
        OptionedOk(saves, p, start);
        OptionsOk(saves, Optioned(p, start), start, end, if max > 1 then max - 1 else 0);
      } else {
        CopiesOk(saves, p, start, end, min - 1);
        OptionsOk(saves, CopiedTimes(p, start, end, min - 1), start, end, if max > min then max - min else 0);
      }
    case Loop(min) =>
      if min == 0 {
        OptionedOk(saves, p, start);
        AppendOk(saves, Optioned(p, start), JmpTo(start));
      } else {
        var copies := CopiedTimes(p, start, end, min - 1);
        CopiesOk(saves, p, start, end, min - 1);
        OptionAddedOk(saves, copies, start, end);
        AppendOk(saves, OptionAdded(copies, start, end), JmpTo(|copies|));
      }
  }

  // ----- alternations

  predicate ChainSafe(saves: bool, c: Chain) {
    && WellFormed(saves, c.out.program) && 0 < c.lastSplit < |c.out.program|
    && forall i :: 0 <= i < |c.jumps| ==> 0 < c.jumps[i]
  }

  lemma UpdateOk(saves: bool, p: seq<Inst>, i: nat, inst: Inst)
    requires WellFormed(saves, p) && 0 < i < |p| && InstOk(saves, inst, |p|)
    ensures WellFormed(saves, p[i := inst])
  {
  }

  lemma BranchOpenedOk(saves: bool, c: Chain)
    requires ChainSafe(saves, c)
    ensures WellFormed(saves, BranchOpened(c).program)
  {
    hide WellFormed;
    var p := c.out.program;
    AppendOk(saves, p, Plain(Split));
    SafeAt(saves, p + [Plain(Split)], c.lastSplit);
    UpdateOk(saves, p + [Plain(Split)], c.lastSplit, Aim(p[c.lastSplit], |p|));
  }

  lemma SafeAt(saves: bool, p: seq<Inst>, i: nat)
    requires WellFormed(saves, p) && 0 < i < |p|
    ensures InstOk(saves, p[i], |p|) && |p| >= 2
  {
  }

  lemma BranchDoneOk(saves: bool, o: Output, split: nat, jumps: seq<nat>)
    requires WellFormed(saves, o.program) && 0 < split < |o.program| && forall i :: 0 <= i < |jumps| ==> 0 < jumps[i]
    ensures ChainSafe(saves, BranchDone(o, split, jumps))
  {
    hide WellFormed;
    var p, end := o.program, |o.program|;
    SafeAt(saves, p, split);
    var inst := p[split].(x := split + 1, y := end);
    UpdateOk(saves, p, split, inst);
    AppendOk(saves, p[split := inst], Plain(Jmp));
  }

  lemma {:induction false} PatchedOk(saves: bool, p: seq<Inst>, jumps: seq<int>, t: int)
    requires WellFormed(saves, p) && 2 <= t <= |p| && forall i :: 0 <= i < |jumps| ==> 0 < jumps[i]
    ensures WellFormed(saves, Patched(p, jumps, t))
    decreases |jumps|
  {
    hide WellFormed;
    if jumps != [] {
      var j := jumps[0];
      if j < |p| {
        SafeAt(saves, p, j);
        UpdateOk(saves, p, j, p[j].(x := t));
        PatchedOk(saves, p[j := p[j].(x := t)], jumps[1..], t);
      } else {
        PatchedOk(saves, p, jumps[1..], t);
      }
    }
  }

  lemma ClosedOk(saves: bool, c: Chain)
    requires ChainSafe(saves, c)
    ensures WellFormed(saves, Closed(c).program)
  {
    hide WellFormed;
    var p := c.out.program;
    SafeAt(saves, p, c.lastSplit);
    UpdateOk(saves, p, c.lastSplit, Aim(p[c.lastSplit], |p|));
    PatchedOk(saves, p[c.lastSplit := Aim(p[c.lastSplit], |p|)], c.jumps, |p|);
  }

  lemma FirstBranchOk(saves: bool, o: Output, start: nat)
    requires WellFormed(saves, o.program) && 0 < start <= |o.program|
    ensures ChainSafe(saves, FirstBranch(o, start))
  {
    hide WellFormed, Optioned;
    OptionedOk(saves, o.program, start);
    AppendOk(saves, Optioned(o.program, start), Plain(Jmp));
  }

  // ----- expressions

  /** No capturing group. */
  predicate NoGroups(re: Re)
    decreases re, 0
  {
    re.Cons? ==> NoGroupsAtom(re.atom) && NoGroups(re.rest)
  }

  predicate NoGroupsAtom(a: Atom)
    decreases a, 0
  {
    !a.Capture? && (a.Group? ==> NoGroups(a.body)) && (a.Choice? ==> NoGroups(a.first) && NoGroupsAlts(a.others))
  }

  predicate NoGroupsAlts(alts: Alts)
    decreases alts, 0
  {
    NoGroups(alts.re) && (alts.More? ==> NoGroupsAlts(alts.more))
  }

  lemma {:induction false} ReBuilt(saves: bool, re: Re, o: Output)
    requires WellFormed(saves, o.program) && (saves || NoGroups(re))
    ensures WellFormed(saves, BuildRe(re, o).program)
    decreases re, 0
  {
    hide WellFormed, BuildItem;
    if re.Cons? {
      ItemBuilt(saves, re.atom, re.quant, o);
      ReBuilt(saves, re.rest, BuildItem(re.atom, re.quant, o));
    }
  }

  lemma {:induction false} ItemBuilt(saves: bool, a: Atom, q: Quant, o: Output)
    requires WellFormed(saves, o.program) && (saves || NoGroupsAtom(a))
    ensures WellFormed(saves, BuildItem(a, q, o).program)
    decreases a, 2
  {
    hide Quantified;
    AtomBuilt(saves, a, o);
    QuantifiedOk(saves, BuildAtom(a, o).program, |o.program|, q);
  }

  /** Every pattern: whatever is compiled behind a well-formed program leaves it well formed. */
  lemma {:induction false} AtomBuilt(saves: bool, a: Atom, o: Output)
    requires WellFormed(saves, o.program) && (saves || NoGroupsAtom(a))
    ensures WellFormed(saves, BuildAtom(a, o).program)
    decreases a, 0
  {
    hide Closed, FirstBranch, BranchDone;
    NotEmpty(saves, o.program);
    match a
    case Lit(c) => AppendOk(saves, o.program, Plain(Char).(ch := c));
    case Dot => AppendOk(saves, o.program, Plain(Any));
    case Set(s) => AppendOk(saves, o.program, Plain(Class).(cls := s));
    case Anchor(e) => AppendOk(saves, o.program, Plain(EdgeOp(e)));
    case Group(body) => ReBuilt(saves, body, o);
    case Capture(inner) =>
      var before := CaptureOpened(o);
      AppendOk(saves, o.program, SaveTo((o.groups + 1) * 2));
      AtomBuilt(saves, inner, before);
      var inside := BuildAtom(inner, before);
      AppendOk(saves, inside.program, SaveTo(inside.groups * 2 + 1));
    case Choice(first, others) =>
      ReBuilt(saves, first, o);
      FirstBranchOk(saves, BuildRe(first, o), |o.program|);
      var c := FirstBranch(BuildRe(first, o), |o.program|);
      BranchesBuilt(saves, others, c);
      ClosedOk(saves, BuildBranches(others, c));
  }

  lemma NotEmpty(saves: bool, p: seq<Inst>)
    requires WellFormed(saves, p)
    ensures |p| > 0
  {
  }

  lemma {:induction false} BranchesBuilt(saves: bool, alts: Alts, c: Chain)
    requires ChainSafe(saves, c) && (saves || NoGroupsAlts(alts))
    ensures ChainSafe(saves, BuildBranches(alts, c))
    decreases alts, 0
  {
    hide WellFormed, BranchOpened, BranchDone, BuildRe;
    BranchOpenedOk(saves, c);
    ReBuilt(saves, alts.re, BranchOpened(c));
    BranchDoneOk(saves, BuildRe(alts.re, BranchOpened(c)), |c.out.program|, c.jumps);
    if alts.More? {
      BranchesBuilt(saves, alts.more, BranchDone(BuildRe(alts.re, BranchOpened(c)), |c.out.program|, c.jumps));
    }
  }

  // ----- compiled programs

  /** SAVE 0 is first; SAVE 1 and the only MATCH are last; every target is an instruction; other slots start at 2. */
  predicate Complete(program: seq<Inst>) {
    && |program| >= 3 && program[0] == Plain(Save)
    && program[|program| - 2] == SaveTo(1) && program[|program| - 1] == Plain(Match)
    && forall i :: 1 <= i < |program| - 2 ==> Within(program[i], |program| - 2)
  }

  predicate Within(inst: Inst, end: int) {
    && inst.op != Match && inst.x >= 0 && inst.y >= 0
    && (inst.op == Save ==> inst.x >= 2)
    && (inst.op == Split ==> inst.x <= end && inst.y <= end)
    && (inst.op == Jmp ==> inst.x <= end)
  }

  /** Whatever the pattern, the compiled program is complete, and without groups it saves nothing else. */
  lemma CompiledComplete(a: Atom)
    ensures var program := Compiled(a).program;
            && Complete(program)
            && (NoGroupsAtom(a) ==> forall i :: 1 <= i < |program| - 2 ==> program[i].op != Save)
  {
    var start := Output([Plain(Save)], 0);
    var body := BuildAtom(a, start).program;
    var saves := !NoGroupsAtom(a);
    AtomBuilt(saves, a, start);
    hide BuildAtom, NoGroupsAtom;
    var program := Compiled(a).program;
    forall i | 1 <= i < |program| - 2
      ensures Within(program[i], |program| - 2) && (program[i].op == Save ==> saves)
    {
      assert program[i] == body[i] && InstOk(saves, program[i], |body|);
    }
  }
}
