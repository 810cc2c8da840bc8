/**
 What the compiler makes of an expression, step by step: the whole program after every emission,
 insertion, copy and patch, capture slots included (lib/libc_regex.c:40-118, 478-504, 534-628, 649-720).
 */
module RegexBuild {
  import opened RegexVm
  import opened RegexSyntax

  /** The program and the number of groups so far. */
  datatype Output = Output(program: seq<Inst>, groups: nat)

  function Plain(op: Op): Inst { Inst(op, 0, {}, 0, 0) }

  function SplitTo(x: int, y: int): Inst { Inst(Split, 0, {}, x, y) }

  function JmpTo(x: int): Inst { Plain(Jmp).(x := x) }

  function SaveTo(slot: int): Inst { Plain(Save).(x := slot) }

  function EdgeOp(e: Edge): Op {
    match e
    case LineStart => Bol
    case LineEnd => Eol
    case Boundary => WordB
    case NoBoundary => NotWordB
  }

  // ----- insertion and copying

  function Bumped(inst: Inst, index: int): Inst {
    inst.(x := if inst.x >= index then inst.x + 1 else inst.x,
          y := if inst.y >= index then inst.y + 1 else inst.y)
  }

  function BumpedAll(code: seq<Inst>, index: int): seq<Inst> {
    seq(|code|, i requires 0 <= i < |code| => Bumped(code[i], index))
  }

  /** A blank instruction put in at `index`, with every reference at or past it moved up. */
  function Inserted(program: seq<Inst>, index: nat): (r: seq<Inst>)
    requires index <= |program|
    ensures |r| == |program| + 1
  {
    BumpedAll(program[..index] + [Plain(Char)] + program[index..], index)
  }

  /** What `re_copy_block` does to one instruction of the block `start ..= end`. */
  function Shifted(inst: Inst, start: int, end: int, delta: int): Inst {
    inst.(x := if start <= inst.x <= end then inst.x + delta else inst.x,
          y := if start <= inst.y <= end then inst.y + delta else inst.y)
  }

  function ShiftedAll(code: seq<Inst>, start: int, end: int, delta: int): seq<Inst> {
    seq(|code|, i requires 0 <= i < |code| => Shifted(code[i], start, end, delta))
  }

  /** The block `start .. end` once more at the end. */
  function Copied(program: seq<Inst>, start: nat, end: nat): (r: seq<Inst>)
    requires start <= end <= |program|
    ensures |r| == |program| + (end - start)
  {
    program + ShiftedAll(program[start..end], start, end, |program| - start)
  }

  // ----- quantifiers

  /** `re_wrap_optional`. */
  function Optioned(program: seq<Inst>, start: nat): (r: seq<Inst>)
    requires start <= |program|
    ensures |r| == |program| + 1
  {
    var wide := Inserted(program, start);
    wide[start := wide[start].(op := Split, x := start + 1, y := |wide|)]
  }

  /** `re_wrap_star`: the SPLIT's second target is the JMP that leads back to it. */
  function Starred(program: seq<Inst>, start: nat): (r: seq<Inst>)
    requires start <= |program|
    ensures |r| == |program| + 2
  {
    Optioned(program, start) + [JmpTo(start)]
  }

  /** `n` more copies of a block. */
  function CopiedTimes(program: seq<Inst>, start: nat, end: nat, n: nat): (r: seq<Inst>)
    requires start <= end <= |program|
    ensures |r| >= |program|
  {
    if n == 0 then program else Copied(CopiedTimes(program, start, end, n - 1), start, end)
  }

  /** A SPLIT that may skip the copy of the block behind it. */
  function OptionAdded(program: seq<Inst>, start: nat, end: nat): (r: seq<Inst>)
    requires start <= end <= |program|
    ensures |r| >= |program|
  {
    var p := Copied(program + [Plain(Split)], start, end);
    p[|program| := SplitTo(|program| + 1, |p|)]
  }

  function OptionsAdded(program: seq<Inst>, start: nat, end: nat, n: nat): (r: seq<Inst>)
    requires start <= end <= |program|
    ensures |r| >= |program|
  {
    if n == 0 then program else OptionAdded(OptionsAdded(program, start, end, n - 1), start, end)
  }

  /** The program after the quantifier of the item that begins at `start`. */
  function Quantified(program: seq<Inst>, start: nat, q: Quant): (r: seq<Inst>)
    requires start <= |program|
    ensures |r| >= |program|
  {
    var end := |program|;
    match q
    case Once => program
    case Plus => program + [SplitTo(start, end + 1)]
    case Repeat(min, max) =>
      if min == 0 then
        // the block that was moved up is copied at its old place
        OptionsAdded(Optioned(program, start), start, end, if max > 1 then max - 1 else 0)
      else OptionsAdded(CopiedTimes(program, start, end, min - 1), start, end, if max > min then max - min else 0)
    case Loop(min) =>
      if min == 0 then Starred(program, start)
      else
        var p := CopiedTimes(program, start, end, min - 1);
        OptionAdded(p, start, end) + [JmpTo(|p|)]
  }

  // ----- alternations under construction

  /** Which SPLIT is still to be led to the next branch, and where the JMPs to the end stand. */
  datatype Chain = Chain(out: Output, lastSplit: nat, jumps: seq<nat>)

  function Aim(inst: Inst, t: int): Inst { inst.(y := t) }

  /** The first branch stands at `start`. */
  function FirstBranch(o: Output, start: nat): (r: Chain)
    requires start <= |o.program|
    ensures r.lastSplit < |r.out.program| && |o.program| < |r.out.program|
  {
    var p := Optioned(o.program, start);
    Chain(Output(p + [Plain(Jmp)], o.groups), start, [|p|])
  }

  /** The next branch begins: the last SPLIT leads to the new one. */
  function BranchOpened(c: Chain): (r: Output)
    requires c.lastSplit < |c.out.program|
    ensures |r.program| == |c.out.program| + 1
  {
    var p, split := c.out.program, |c.out.program|;
    Output((p + [Plain(Split)])[c.lastSplit := Aim(p[c.lastSplit], split)], c.out.groups)
  }

  /** The branch whose SPLIT stands at `split` has been emitted. */
  function BranchDone(o: Output, split: nat, jumps: seq<nat>): (r: Chain)
    requires split < |o.program|
    ensures r.lastSplit < |r.out.program| && |o.program| < |r.out.program|
  {
    var p, end := o.program, |o.program|;
    Chain(Output(p[split := p[split].(x := split + 1, y := end)] + [Plain(Jmp)], o.groups), split, jumps + [end])
  }

  /** The listed instructions get the target `t`. */
  function Patched(program: seq<Inst>, jumps: seq<int>, t: int): (r: seq<Inst>)
    ensures |r| == |program|
    decreases |jumps|
  {
    if jumps == [] then program
    else
      var j := jumps[0];
      Patched(if 0 <= j < |program| then program[j := program[j].(x := t)] else program, jumps[1..], t)
  }

  /** The last SPLIT and the JMPs lead to the end. */
  function Closed(c: Chain): (r: Output)
    requires c.lastSplit < |c.out.program|
    ensures |r.program| == |c.out.program|
  {
    var p, end := c.out.program, |c.out.program|;
    Output(Patched(p[c.lastSplit := Aim(p[c.lastSplit], end)], c.jumps, end), c.out.groups)
  }

  // ----- expressions

  function BuildRe(re: Re, o: Output): (r: Output)
    ensures |r.program| >= |o.program| && r.groups >= o.groups
    decreases re, 0
  {
    match re
    case Empty => o
    case Cons(a, q, rest) => BuildRe(rest, BuildItem(a, q, o))
  }

  function BuildItem(a: Atom, q: Quant, o: Output): (r: Output)
    ensures |r.program| >= |o.program| && r.groups >= o.groups
    decreases a, 2
  {
    var o' := BuildAtom(a, o);
    Output(Quantified(o'.program, |o.program|, q), o'.groups)
  }

  function BuildAtom(a: Atom, o: Output): (r: Output)
    ensures |r.program| >= |o.program| && r.groups >= o.groups
    decreases a, 0
  {
    match a
    case Lit(c) => Added(o, Plain(Char).(ch := c))
    case Dot => Added(o, Plain(Any))
    case Set(s) => Added(o, Plain(Class).(cls := s))
    case Anchor(e) => Added(o, Plain(EdgeOp(e)))
    case Group(body) => BuildRe(body, o)
    case Capture(inner) => CaptureClosed(BuildAtom(inner, CaptureOpened(o)))
    case Choice(first, others) => Closed(BuildBranches(others, FirstBranch(BuildRe(first, o), |o.program|)))
  }

  function Added(o: Output, inst: Inst): (r: Output)
    ensures |r.program| == |o.program| + 1
  {
    Output(o.program + [inst], o.groups)
  }

  function CaptureOpened(o: Output): (r: Output)
    ensures |r.program| == |o.program| + 1
  {
    Output(o.program + [SaveTo((o.groups + 1) * 2)], o.groups + 1)
  }

  /** The closing slot is that of the group numbered last, whichever group closes. */
  function CaptureClosed(o: Output): (r: Output)
    ensures |r.program| == |o.program| + 1
  {
    Added(o, SaveTo(o.groups * 2 + 1))
  }

  function BuildBranches(alts: Alts, c: Chain): (r: Chain)
    requires c.lastSplit < |c.out.program|
    ensures r.lastSplit < |r.out.program| && |c.out.program| < |r.out.program|
    ensures r.out.groups >= c.out.groups
    decreases alts, 0
  {
    var c' := BranchDone(BuildRe(alts.re, BranchOpened(c)), |c.out.program|, c.jumps);
    if alts.More? then BuildBranches(alts.more, c') else c'
  }

  /** SAVE 0, the code of the expression, SAVE 1, MATCH. */
  function Compiled(a: Atom): Output {
    Added(Added(BuildAtom(a, Output([Plain(Save)], 0)), SaveTo(1)), Plain(Match))
  }

  // ----- single steps

  lemma CaptureBuilt(inner: Atom, o: Output)
    ensures BuildAtom(Capture(inner), o) == CaptureClosed(BuildAtom(inner, CaptureOpened(o)))
  {
  }

  lemma ChoiceBuilt(a: Atom, o: Output)
    requires a.Choice?
    ensures BuildAtom(a, o) == Closed(BuildBranches(a.others, FirstBranch(BuildRe(a.first, o), |o.program|)))
  {
    hide BuildBranches, FirstBranch, Closed;
  }

  lemma GroupBuilt(re: Re, o: Output)
    ensures BuildAtom(Group(re), o) == BuildRe(re, o)
  {
  }
}
