/**
 The largest capture slot of a compiled program, from the sizes and places of the items alone, and so when a
 pattern's slots fit the captures that `regexec` allocates (lib/libc_regex.c:73-80, 345-405, 924-931).
 */
module RegexMarks {
  import opened RegexVm
  import opened RegexSyntax
  import opened RegexBuild
  import opened RegexSafety
  import opened RegexSlots
  import opened RegexCode
  import opened RegexLayout

  // ----- the calculation

  /** How long the program is, how many groups it has, and its largest slot. */
  datatype Mark = Mark(length: nat, groups: nat, top: int)

  function Larger(a: int, b: int): int { if a < b then b else a }

  /** An insertion at `index` moves the slots at or past it. */
  function Lifted(top: int, index: int): int { if top >= index then top + 1 else top }

  predicate Inserts(q: Quant) { (q.Repeat? || q.Loop?) && q.min == 0 }

  function MarkRe(re: Re, k: Mark): Mark
    decreases re, 0
  {
    if re.Cons? then MarkRe(re.rest, MarkItem(re.atom, re.quant, k)) else k
  }

  function MarkItem(a: Atom, q: Quant, k: Mark): Mark
    decreases a, 2
  {
    var u := MarkAtom(a, k);
    Mark(k.length + |ItemFragment(a, q).code|, u.groups, if Inserts(q) then Lifted(u.top, k.length) else u.top)
  }

  function MarkAtom(a: Atom, k: Mark): Mark
    decreases a, 0
  {
    match a
    case Group(body) => MarkRe(body, k)
    case Capture(inner) =>
      var u := MarkAtom(inner, Mark(k.length + 1, k.groups + 1, Larger(k.top, (k.groups + 1) * 2)));
      Mark(u.length + 1, u.groups, Larger(u.top, u.groups * 2 + 1))
    case Choice(first, others) =>
      var u := MarkRe(first, k);
      MarkAlts(others, Mark(u.length + 2, u.groups, Lifted(u.top, k.length)))
    case _ => Mark(k.length + 1, k.groups, k.top)
  }

  function MarkAlts(alts: Alts, k: Mark): Mark
    decreases alts, 0
  {
    var u := MarkRe(alts.re, Mark(k.length + 1, k.groups, k.top));
    var v := Mark(u.length + 1, u.groups, u.top);
    if alts.More? then MarkAlts(alts.more, v) else v
  }

  /** No group is copied. */
  predicate Uncopied(re: Re)
    decreases re, 0
  {
    re.Cons? ==> UncopiedItem(re.atom, re.quant) && Uncopied(re.rest)
  }

  predicate UncopiedItem(a: Atom, q: Quant)
    decreases a, 2
  {
    UncopiedAtom(a) && (Copies(q) ==> NoGroupsAtom(a))
  }

  predicate Copies(q: Quant) {
    (q.Repeat? && q.max > 1) || (q.Loop? && q.min > 0)
  }

  predicate UncopiedAtom(a: Atom)
    decreases a, 0
  {
    && (a.Group? ==> Uncopied(a.body))
    && (a.Capture? ==> UncopiedAtom(a.inner))
    && (a.Choice? ==> Uncopied(a.first) && UncopiedAlts(a.others))
  }

  predicate UncopiedAlts(alts: Alts)
    decreases alts, 0
  {
    Uncopied(alts.re) && (alts.More? ==> UncopiedAlts(alts.more))
  }

  // ----- what it says of a program

  predicate SlotBelow(inst: Inst, top: int) { inst.op == Save ==> inst.x <= top }

  /** The largest slot is `top`. */
  predicate Tops(p: seq<Inst>, top: int) {
    && (exists i :: 0 <= i < |p| && p[i].op == Save && p[i].x == top)
    && forall i :: 0 <= i < |p| ==> SlotBelow(p[i], top)
  }

  predicate Marks(o: Output, k: Mark) {
    |o.program| == k.length && o.groups == k.groups && Tops(o.program, k.top)
  }

  predicate NoSave(code: seq<Inst>) {
    forall i :: 0 <= i < |code| ==> code[i].op != Save
  }

  lemma TopsAppend(p: seq<Inst>, code: seq<Inst>, top: int)
    requires Tops(p, top) && NoSave(code)
    ensures Tops(p + code, top)
  {
    var r := p + code;
    var i :| 0 <= i < |p| && p[i].op == Save && p[i].x == top;
    assert r[i] == p[i];
    forall j | 0 <= j < |r|
      ensures SlotBelow(r[j], top)
    {
      if j < |p| {
        assert SlotBelow(p[j], top);
      } else {
        assert r[j] == code[j - |p|];
      }
    }
  }

  lemma TopsSave(p: seq<Inst>, top: int, slot: int)
    requires Tops(p, top)
    ensures Tops(p + [SaveTo(slot)], Larger(top, slot))
  {
    var r, t := p + [SaveTo(slot)], Larger(top, slot);
    var i :| 0 <= i < |p| && p[i].op == Save && p[i].x == top;
    assert r[i] == p[i] && r[|p|] == SaveTo(slot);
    forall j | 0 <= j < |r|
      ensures SlotBelow(r[j], t)
    {
      if j < |p| {
        assert SlotBelow(p[j], top);
      }
    }
  }

  lemma OptionedAt(p: seq<Inst>, start: nat, i: nat)
    requires start <= |p| && i <= |p|
    ensures i < start ==> Optioned(p, start)[i] == Bumped(p[i], start)
    ensures i > start ==> Optioned(p, start)[i] == Bumped(p[i - 1], start)
    ensures i == start ==> Optioned(p, start)[i].op == Split
  {
  }

  lemma TopsOptioned(p: seq<Inst>, start: nat, top: int)
    requires Tops(p, top) && start <= |p|
    ensures Tops(Optioned(p, start), Lifted(top, start))
  {
    hide Optioned;
    var r, t := Optioned(p, start), Lifted(top, start);
    var i :| 0 <= i < |p| && p[i].op == Save && p[i].x == top;
    var i' := if i < start then i else i + 1;
    OptionedAt(p, start, i');
    assert r[i'].op == Save && r[i'].x == t;
    forall j | 0 <= j < |r|
      ensures SlotBelow(r[j], t)
    {
      OptionedAt(p, start, j);
      if j != start {
        assert SlotBelow(p[if j < start then j else j - 1], top);
      }
    }
  }

  lemma TopsCopied(p: seq<Inst>, start: nat, end: nat, top: int)
    requires Tops(p, top) && start <= end <= |p| && NoSave(p[start..end])
    ensures Tops(Copied(p, start, end), top) && Copied(p, start, end)[..|p|] == p
  {
    var code := ShiftedAll(p[start..end], start, end, |p| - start);
    forall i | 0 <= i < |code|
      ensures code[i].op != Save
    {
      assert code[i].op == p[start..end][i].op;
    }
    TopsAppend(p, code, top);
  }

  lemma TopsOption(p: seq<Inst>, start: nat, end: nat, top: int)
    requires Tops(p, top) && start <= end <= |p| && NoSave(p[start..end])
    ensures Tops(OptionAdded(p, start, end), top) && OptionAdded(p, start, end)[..|p|] == p
  {
    hide Copied, Tops;
    var wide := p + [Plain(Split)];
    assert NoSave([Plain(Split)]);
    TopsAppend(p, [Plain(Split)], top);
    assert wide[start..end] == p[start..end];
    TopsCopied(wide, start, end, top);
    var r := Copied(wide, start, end);
    assert r[..|p| + 1] == wide;
    assert r[|p|] == r[..|p| + 1][|p|] == Plain(Split);
    TopsSplit(r, |p|, SplitTo(|p| + 1, |r|), top);
    assert OptionAdded(p, start, end)[..|p|] == r[..|p| + 1][..|p|];
  }

  lemma TopsSplit(p: seq<Inst>, i: nat, inst: Inst, top: int)
    requires Tops(p, top) && i < |p| && p[i].op != Save && inst.op != Save
    ensures Tops(p[i := inst], top)
  {
    var r := p[i := inst];
    var s :| 0 <= s < |p| && p[s].op == Save && p[s].x == top;
    assert r[s] == p[s];
    forall j | 0 <= j < |r|
      ensures SlotBelow(r[j], top)
    {
      assert SlotBelow(p[j], top);
    }
  }

  lemma SamePart(p: seq<Inst>, q: seq<Inst>, r: seq<Inst>, start: nat, end: nat)
    requires |p| <= |q| <= |r| && q[..|p|] == p && r[..|q|] == q && start <= end <= |p|
    ensures q[start..end] == p[start..end] && r[..|p|] == p
  {
    assert forall i :: 0 <= i < |p| ==> q[i] == q[..|p|][i] == p[i];
    assert forall i :: 0 <= i < |q| ==> r[i] == r[..|q|][i] == q[i];
  }

  lemma Whole(p: seq<Inst>)
    ensures p[..|p|] == p
  {
  }

  lemma {:induction false} TopsCopies(p: seq<Inst>, start: nat, end: nat, n: nat, top: int)
    requires Tops(p, top) && start <= end <= |p| && NoSave(p[start..end])
    ensures Tops(CopiedTimes(p, start, end, n), top) && CopiedTimes(p, start, end, n)[..|p|] == p
    decreases n
  {
    hide *;
    CopiesTop(p, start, end, n);
    Whole(p);
    if n > 0 {
      TopsCopies(p, start, end, n - 1, top);
      var q := CopiedTimes(p, start, end, n - 1);
      Whole(q);
      SamePart(p, q, q, start, end);
      TopsCopied(q, start, end, top);
      SamePart(p, q, Copied(q, start, end), start, end);
    }
  }

  lemma CopiesTop(p: seq<Inst>, start: nat, end: nat, n: nat)
    requires start <= end <= |p|
    ensures CopiedTimes(p, start, end, n) == if n == 0 then p else Copied(CopiedTimes(p, start, end, n - 1), start, end)
    ensures OptionsAdded(p, start, end, n)
         == if n == 0 then p else OptionAdded(OptionsAdded(p, start, end, n - 1), start, end)
  {
    hide Copied, OptionAdded;
  }

  lemma {:induction false} TopsOptions(p: seq<Inst>, start: nat, end: nat, n: nat, top: int)
    requires Tops(p, top) && start <= end <= |p| && (n > 0 ==> NoSave(p[start..end]))
    ensures Tops(OptionsAdded(p, start, end, n), top) && OptionsAdded(p, start, end, n)[..|p|] == p
    decreases n
  {
    hide *;
    CopiesTop(p, start, end, n);
    Whole(p);
    if n > 0 {
      TopsOptions(p, start, end, n - 1, top);
      var q := OptionsAdded(p, start, end, n - 1);
      Whole(q);
      SamePart(p, q, q, start, end);
      TopsOption(q, start, end, top);
      SamePart(p, q, OptionAdded(q, start, end), start, end);
    }
  }

  /** A quantifier lifts the slots when it puts a SPLIT in, and copies none. */
  lemma TopsQuantified(p: seq<Inst>, start: nat, q: Quant, top: int)
    requires Tops(p, top) && start <= |p| && (Copies(q) ==> NoSave(p[start..])) && QuantOk(q)
    ensures Tops(Quantified(p, start, q), if Inserts(q) then Lifted(top, start) else top)
  {
    hide Optioned, OptionsAdded, CopiedTimes, OptionAdded, Tops;
    var end := |p|;
    assert p[start..end] == p[start..];
    match q
    case Once =>
    case Plus =>
      assert NoSave([SplitTo(start, end + 1)]);
      TopsAppend(p, [SplitTo(start, end + 1)], top);
    case Repeat(min, max) =>
      if min == 0 {
        TopsOptioned(p, start, top);
        if max > 1 {
          NoSaveOptioned(p, start);
        }
        TopsOptions(Optioned(p, start), start, end, if max > 1 then max - 1 else 0, Lifted(top, start));
      } else if max > 1 {
        TopsCopies(p, start, end, min - 1, top);
        var c := CopiedTimes(p, start, end, min - 1);
        Whole(c);
        SamePart(p, c, c, start, end);
        TopsOptions(c, start, end, if max > min then max - min else 0, top);
      } else {
        NothingCopied(p, start, end);
      }
    case Loop(min) =>
      if min == 0 {
        TopsOptioned(p, start, top);
        assert NoSave([JmpTo(start)]);
        TopsAppend(Optioned(p, start), [JmpTo(start)], Lifted(top, start));
      } else {
        TopsCopies(p, start, end, min - 1, top);
        var c := CopiedTimes(p, start, end, min - 1);
        Whole(c);
        SamePart(p, c, c, start, end);
        TopsOption(c, start, end, top);
        assert NoSave([JmpTo(|c|)]);
        TopsAppend(OptionAdded(c, start, end), [JmpTo(|c|)], top);
      }
  }

  lemma NothingCopied(p: seq<Inst>, start: nat, end: nat)
    requires start <= end <= |p|
    ensures CopiedTimes(p, start, end, 0) == p && OptionsAdded(p, start, end, 0) == p
  {
  }

  lemma NoSaveOptioned(p: seq<Inst>, start: nat)
    requires start <= |p| && NoSave(p[start..])
    ensures NoSave(Optioned(p, start)[start..|p|])
  {
    hide Optioned;
    forall i | 0 <= i < |p| - start
      ensures Optioned(p, start)[start..|p|][i].op != Save
    {
      OptionedAt(p, start, start + i);
      if i > 0 {
        assert p[start..][i - 1] == p[start + i - 1];
      }
    }
  }

  // ----- expressions

  lemma NoSaveFragment(a: Atom)
    requires NoGroupsAtom(a)
    ensures NoSave(AtomFragment(a).code)
  {
    hide NoGroupsAtom, AtomFragment, BuildAtom;
    var start, f := Output([Plain(Save)], 0), AtomFragment(a);
    assert Blinded(start.program) == [Plain(Save)];
    AtomBehind(a, start);
    AtomBuilt(false, a, start);
    var r := BuildAtom(a, start).program;
    forall i | 0 <= i < |f.code|
      ensures f.code[i].op != Save
    {
      ExtendedAt([Plain(Save)], f, 1 + i);
      assert Blinded(r)[1 + i].op == r[1 + i].op && InstOk(false, r[1 + i], |r|);
    }
  }

  /** What a group-free item appends saves nothing. */
  lemma NoSaveBuilt(a: Atom, o: Output)
    requires NoGroupsAtom(a) && Neat(Blinded(o.program))
    ensures NoSave(BuildAtom(a, o).program[|o.program|..])
  {
    hide NoGroupsAtom, AtomFragment, BuildAtom, Neat;
    NoSaveFragment(a);
    AtomBehind(a, o);
    var r, f := BuildAtom(a, o).program, AtomFragment(a);
    forall i | 0 <= i < |r| - |o.program|
      ensures r[|o.program|..][i].op != Save
    {
      ExtendedAt(Blinded(o.program), f, |o.program| + i);
      assert Blinded(r)[|o.program| + i].op == r[|o.program| + i].op;
    }
  }

  lemma ItemNeat(a: Atom, q: Quant, o: Output)
    requires Neat(Blinded(o.program))
    ensures Neat(Blinded(BuildAtom(a, o).program)) && Neat(Blinded(BuildItem(a, q, o).program))
    ensures |BuildAtom(a, o).program| == |o.program| + |AtomFragment(a).code|
    ensures |BuildItem(a, q, o).program| == |o.program| + |ItemFragment(a, q).code|
  {
    hide Neat, Compact, BuildAtom, BuildItem, AtomFragment, ItemFragment;
    AtomBehind(a, o);
    AtomCompact(a);
    NeatExtended(Blinded(o.program), AtomFragment(a));
    ItemBehind(a, q, o);
    ItemCompact(a, q);
    NeatExtended(Blinded(o.program), ItemFragment(a, q));
  }

  lemma {:induction false} ReMarked(re: Re, o: Output, k: Mark)
    requires Uncopied(re) && ReOk(re) && Neat(Blinded(o.program)) && Marks(o, k)
    ensures Marks(BuildRe(re, o), MarkRe(re, k))
    decreases re, 0
  {
    hide Neat, Marks, UncopiedItem, BuildItem, MarkItem, AtomOk;
    if re.Cons? {
      ItemMarked(re.atom, re.quant, o, k);
      ItemNeat(re.atom, re.quant, o);
      ReMarked(re.rest, BuildItem(re.atom, re.quant, o), MarkItem(re.atom, re.quant, k));
    }
  }

  lemma {:induction false} ItemMarked(a: Atom, q: Quant, o: Output, k: Mark)
    requires UncopiedItem(a, q) && AtomOk(a) && QuantOk(q) && Neat(Blinded(o.program)) && Marks(o, k)
    ensures Marks(BuildItem(a, q, o), MarkItem(a, q, k))
    decreases a, 2
  {
    hide Neat, UncopiedAtom, BuildAtom, MarkAtom, AtomOk, Quantified, Tops, ItemFragment, AtomFragment, NoGroupsAtom, NoSave;
    AtomMarked(a, o, k);
    ItemNeat(a, q, o);
    if Copies(q) {
      NoSaveBuilt(a, o);
    }
    TopsQuantified(BuildAtom(a, o).program, |o.program|, q, MarkAtom(a, k).top);
  }

  lemma LeafMarked(a: Atom, o: Output, k: Mark)
    requires !a.Group? && !a.Capture? && !a.Choice? && Marks(o, k)
    ensures Marks(BuildAtom(a, o), Mark(k.length + 1, k.groups, k.top))
    ensures MarkAtom(a, k) == Mark(k.length + 1, k.groups, k.top)
  {
    hide Tops;
    var inst := AtomFragment(a).code[0];
    assert NoSave([inst]);
    TopsAppend(o.program, [inst], k.top);
  }

  /** The calculation gives length, groups and largest slot of what the compiler makes of an item. */
  lemma {:induction false} AtomMarked(a: Atom, o: Output, k: Mark)
    requires UncopiedAtom(a) && AtomOk(a) && Neat(Blinded(o.program)) && Marks(o, k)
    ensures Marks(BuildAtom(a, o), MarkAtom(a, k))
    decreases a, 1
  {
    hide Neat, Marks, Uncopied, UncopiedAlts, ReOk, AltsOk;
    match a
    case Group(body) => ReMarked(body, o, k);
    case Capture(inner) => CaptureMarked(a, o, k);
    case Choice(first, others) => ChoiceMarked(a, o, k);
    case _ => LeafMarked(a, o, k);
  }

  lemma {:induction false} CaptureMarked(a: Atom, o: Output, k: Mark)
    requires a.Capture? && UncopiedAtom(a.inner) && AtomOk(a.inner) && Neat(Blinded(o.program)) && Marks(o, k)
    ensures Marks(BuildAtom(a, o), MarkAtom(a, k))
    decreases a, 0
  {
    hide Neat, Tops, UncopiedAtom, AtomOk;
    var slot := (k.groups + 1) * 2;
    var before, k1 := CaptureOpened(o), Mark(k.length + 1, k.groups + 1, Larger(k.top, slot));
    TopsSave(o.program, k.top, slot);
    CaptureNeat(o);
    AtomMarked(a.inner, before, k1);
    var inside, u := BuildAtom(a.inner, before), MarkAtom(a.inner, k1);
    TopsSave(inside.program, u.top, u.groups * 2 + 1);
  }

  lemma CaptureNeat(o: Output)
    requires Neat(Blinded(o.program))
    ensures Neat(Blinded(CaptureOpened(o).program))
  {
    hide Neat;
    var slot := SaveTo((o.groups + 1) * 2);
    BlindAppend(o.program, [slot]);
    BlindOne(slot);
    NothingFits();
    CaptureBehind(Blinded(o.program), Fragment([], 0));
  }

  // ----- alternations

  lemma TopsAimed(c: Chain, top: int)
    requires ChainOk(c) && Tops(c.out.program, top)
    ensures Tops(BranchOpened(c).program, top)
    ensures forall t :: Tops(c.out.program[c.lastSplit := Aim(c.out.program[c.lastSplit], t)], top)
  {
    hide Tops;
    var p := c.out.program;
    assert NoSave([Plain(Split)]);
    TopsAppend(p, [Plain(Split)], top);
    TopsSplit(p + [Plain(Split)], c.lastSplit, Aim(p[c.lastSplit], |p|), top);
    forall t
      ensures Tops(p[c.lastSplit := Aim(p[c.lastSplit], t)], top)
    {
      TopsSplit(p, c.lastSplit, Aim(p[c.lastSplit], t), top);
    }
  }

  lemma TopsDone(o: Output, split: nat, jumps: seq<nat>, top: int)
    requires split < |o.program| && o.program[split].op == Split && Tops(o.program, top)
    ensures Tops(BranchDone(o, split, jumps).out.program, top)
  {
    hide Tops;
    var p, end := o.program, |o.program|;
    var inst := p[split].(x := split + 1, y := end);
    TopsSplit(p, split, inst, top);
    assert NoSave([Plain(Jmp)]);
    TopsAppend(p[split := inst], [Plain(Jmp)], top);
  }

  lemma {:induction false} TopsPatched(p: seq<Inst>, jumps: seq<int>, t: int, top: int)
    requires Tops(p, top) && forall i :: 0 <= i < |jumps| ==> 0 <= jumps[i] < |p| && p[jumps[i]].op == Jmp
    ensures Tops(Patched(p, jumps, t), top)
    decreases |jumps|
  {
    hide Tops;
    if jumps != [] {
      var j := jumps[0];
      TopsSplit(p, j, p[j].(x := t), top);
      TopsPatched(p[j := p[j].(x := t)], jumps[1..], t, top);
    }
  }

  lemma TopsClosed(c: Chain, top: int)
    requires ChainOk(c) && Tops(c.out.program, top)
    ensures Tops(Closed(c).program, top)
  {
    hide Tops;
    var p, end := c.out.program, |c.out.program|;
    TopsAimed(c, top);
    TopsPatched(p[c.lastSplit := Aim(p[c.lastSplit], end)], c.jumps, end, top);
  }

  /** The new SPLIT is still a SPLIT once its branch has been emitted. */
  lemma SplitStays(re: Re, c: Chain)
    requires ChainOk(c) && Neat(Open(c))
    ensures Neat(Blinded(BranchOpened(c).program))
    ensures var r := BuildRe(re, BranchOpened(c)).program; |c.out.program| < |r| && r[|c.out.program|].op == Split
  {
    hide Neat, BuildRe, ReFragment, Placed;
    BlindOpened(c);
    OpenedBehind(Open(c), ReFragment(re));
    ReBehind(re, BranchOpened(c));
    var r := BuildRe(re, BranchOpened(c)).program;
    assert Blinded(r)[|c.out.program|] == Plain(Split);
  }

  lemma {:induction false} AltsMarked(alts: Alts, c: Chain, k: Mark)
    requires UncopiedAlts(alts) && AltsOk(alts) && ChainOk(c) && Neat(Open(c)) && Marks(c.out, k)
    ensures var d := BuildBranches(alts, c); ChainOk(d) && Marks(d.out, MarkAlts(alts, k))
    decreases alts, 0
  {
    hide Neat, Tops, Uncopied, ReOk, ChainOk, Open, BuildRe, MarkRe;
    ChainFits(c);
    TopsAimed(c, k.top);
    SplitStays(alts.re, c);
    ReMarked(alts.re, BranchOpened(c), Mark(k.length + 1, k.groups, k.top));
    var o, u := BuildRe(alts.re, BranchOpened(c)), MarkRe(alts.re, Mark(k.length + 1, k.groups, k.top));
    TopsDone(o, |c.out.program|, c.jumps, u.top);
    BranchStep(alts.re, c);
    if alts.More? {
      AltsMarked(alts.more, BranchDone(o, |c.out.program|, c.jumps), Mark(u.length + 1, u.groups, u.top));
    }
  }

  lemma ChainFits(c: Chain)
    requires ChainOk(c)
    ensures c.lastSplit < |c.out.program|
  {
  }

  lemma {:induction false} ChoiceMarked(a: Atom, o: Output, k: Mark)
    requires a.Choice? && Uncopied(a.first) && UncopiedAlts(a.others) && ReOk(a.first) && AltsOk(a.others)
    requires Neat(Blinded(o.program)) && Marks(o, k)
    ensures Marks(BuildAtom(a, o), MarkAtom(a, k))
    decreases a, 0
  {
    hide Neat, Tops, Uncopied, UncopiedAlts, ReOk, AltsOk, ChainOk, Open, BuildRe, MarkRe, MarkAlts, BuildBranches, Closed,
         Optioned;
    var p, first, u := Blinded(o.program), BuildRe(a.first, o), MarkRe(a.first, k);
    ReMarked(a.first, o, k);
    ReBehind(a.first, o);
    ReCompact(a.first);
    FirstBehind(p, ReFragment(a.first), first);
    TopsOptioned(first.program, |o.program|, u.top);
    assert NoSave([Plain(Jmp)]);
    TopsAppend(Optioned(first.program, |o.program|), [Plain(Jmp)], Lifted(u.top, |o.program|));
    var c := FirstBranch(first, |o.program|);
    AltsMarked(a.others, c, Mark(u.length + 2, u.groups, Lifted(u.top, k.length)));
    TopsClosed(BuildBranches(a.others, c), MarkAlts(a.others, Mark(u.length + 2, u.groups, Lifted(u.top, k.length))).top);
    ChoiceBuilt(a, o);
    ClosedGroups(BuildBranches(a.others, c));
  }

  lemma ClosedGroups(c: Chain)
    requires ChainOk(c)
    ensures c.lastSplit < |c.out.program| && Closed(c).groups == c.out.groups && |Closed(c).program| == |c.out.program|
  {
  }

  // ----- compiled programs

  /** Before anything is compiled there is SAVE 0. */
  const BEGIN := Mark(1, 0, 0)

  /** The slots of a pattern that copies no group fit exactly when the calculated largest one does. */
  lemma CompiledSlots(a: Atom)
    requires AtomOk(a) && UncopiedAtom(a)
    ensures SlotsWithin(Compiled(a).program, Compiled(a).groups) <==> MarkAtom(a, BEGIN).top <= GroupsOf(a) * 2 + 1
  {
    hide UncopiedAtom, AtomOk, BuildAtom, MarkAtom, GroupsOf, Tops, Complete;
    var start, k := Output([Plain(Save)], 0), MarkAtom(a, BEGIN);
    FirstMark();
    assert Blinded(start.program) == [Plain(Save)];
    AtomMarked(a, start, BEGIN);
    CountedAtom(a, start);
    var body := BuildAtom(a, start);
    TopsSave(body.program, k.top, 1);
    assert NoSave([Plain(Match)]);
    TopsAppend(body.program + [SaveTo(1)], [Plain(Match)], Larger(k.top, 1));
    CompiledComplete(a);
    TopsWithin(Compiled(a).program, Larger(k.top, 1), GroupsOf(a));
  }

  lemma FirstMark()
    ensures Tops([Plain(Save)], 0)
  {
    assert [Plain(Save)][0].op == Save && [Plain(Save)][0].x == 0;
  }

  lemma TopsWithin(p: seq<Inst>, top: int, nsub: nat)
    requires Tops(p, top) && Complete(p)
    ensures SlotsWithin(p, nsub) <==> top <= nsub * 2 + 1
  {
    forall i | 0 <= i < |p|
      ensures p[i].op == Save ==> p[i].x >= 0
    {
      if 1 <= i < |p| - 2 {
        assert Within(p[i], |p| - 2);
      }
    }
    if SlotsWithin(p, nsub) {
      var i :| 0 <= i < |p| && p[i].op == Save && p[i].x == top;
      assert SlotWithin(p[i], nsub);
    }
    if top <= nsub * 2 + 1 {
      forall i | 0 <= i < |p|
        ensures SlotWithin(p[i], nsub)
      {
        assert SlotBelow(p[i], top);
      }
    }
  }

  // ----- patterns without an insertion or a copy

  lemma {:induction false} StraightMark(re: Re, k: Mark)
    requires Straight(re)
    ensures MarkRe(re, k).groups == k.groups + Groups(re) && MarkRe(re, k).length >= k.length
    ensures MarkRe(re, k).top == if Groups(re) == 0 then k.top else Larger(k.top, (k.groups + Groups(re)) * 2 + 1)
    decreases re, 0
  {
    hide StraightAtom, MarkAtom, ItemFragment, GroupsOf;
    if re.Cons? {
      StraightMarkAtom(re.atom, k);
      StraightMark(re.rest, MarkItem(re.atom, re.quant, k));
    }
  }

  lemma {:induction false} StraightMarkAtom(a: Atom, k: Mark)
    requires StraightAtom(a)
    ensures MarkAtom(a, k).groups == k.groups + GroupsOf(a) && MarkAtom(a, k).length >= k.length
    ensures MarkAtom(a, k).top == if GroupsOf(a) == 0 then k.top else Larger(k.top, (k.groups + GroupsOf(a)) * 2 + 1)
    decreases a, 0
  {
    hide Straight, MarkRe, Groups;
    match a
    case Group(body) => StraightMark(body, k);
    case Capture(inner) =>
      StraightMarkAtom(inner, Mark(k.length + 1, k.groups + 1, Larger(k.top, (k.groups + 1) * 2)));
    case _ =>
  }

  lemma {:induction false} StraightMarkAlts(alts: Alts, k: Mark)
    requires StraightAlts(alts)
    ensures MarkAlts(alts, k).groups == k.groups + GroupsIn(alts)
    ensures MarkAlts(alts, k).top
         == if GroupsIn(alts) == 0 then k.top else Larger(k.top, (k.groups + GroupsIn(alts)) * 2 + 1)
    decreases alts, 0
  {
    hide Straight, MarkRe, Groups;
    var k1 := Mark(k.length + 1, k.groups, k.top);
    StraightMark(alts.re, k1);
    if alts.More? {
      var u := MarkRe(alts.re, k1);
      StraightMarkAlts(alts.more, Mark(u.length + 1, u.groups, u.top));
    }
  }

  lemma {:induction false} StraightUncopied(re: Re)
    requires Straight(re)
    ensures Uncopied(re)
    decreases re, 0
  {
    if re.Cons? {
      StraightUncopiedAtom(re.atom);
      StraightUncopied(re.rest);
    }
  }

  lemma {:induction false} StraightUncopiedAtom(a: Atom)
    requires StraightAtom(a)
    ensures UncopiedAtom(a)
    decreases a, 0
  {
    if a.Group? {
      StraightUncopied(a.body);
    } else if a.Capture? {
      StraightUncopiedAtom(a.inner);
    }
  }

  lemma {:induction false} StraightUncopiedAlts(alts: Alts)
    requires StraightAlts(alts)
    ensures UncopiedAlts(alts)
    decreases alts, 0
  {
    StraightUncopied(alts.re);
    if alts.More? {
      StraightUncopiedAlts(alts.more);
    }
  }

  /** Without groups, or without anything to insert or copy, the slots stay. */
  lemma SlotsStay(a: Atom)
    requires AtomOk(a) && (StraightAtom(a) || NoGroupsAtom(a))
    ensures SlotsWithin(Compiled(a).program, Compiled(a).groups)
  {
    hide StraightAtom, NoGroupsAtom, BuildAtom, MarkAtom, GroupsOf, AtomOk, UncopiedAtom;
    if StraightAtom(a) {
      StraightUncopiedAtom(a);
      StraightMarkAtom(a, BEGIN);
      CompiledSlots(a);
    } else {
      CompiledComplete(a);
      hide Compiled;
      var p, n := Compiled(a).program, Compiled(a).groups;
      forall i | 0 <= i < |p|
        ensures SlotWithin(p[i], n)
      {
      }
    }
  }

  /**
   Branches without insertions of their own: the SPLIT in front moves the slots of the first one past the
   captures, unless groups in the others make room.
   */
  lemma ChoiceSlots(first: Re, others: Alts)
    requires ReOk(first) && AltsOk(others) && Straight(first) && StraightAlts(others)
    ensures var r := Compiled(Choice(first, others));
            SlotsWithin(r.program, r.groups) <==> Groups(first) == 0 || GroupsIn(others) > 0
  {
    hide Straight, StraightAlts, Uncopied, UncopiedAlts, ReOk, AltsOk, MarkRe, MarkAlts, Groups, GroupsIn, Compiled,
         SlotsWithin;
    var a := Choice(first, others);
    StraightUncopied(first);
    StraightUncopiedAlts(others);
    CompiledSlots(a);
    StraightMark(first, BEGIN);
    var u := MarkRe(first, BEGIN);
    StraightMarkAlts(others, Mark(u.length + 2, u.groups, Lifted(u.top, 1)));
    assert GroupsOf(a) == Groups(first) + GroupsIn(others);
    assert MarkAtom(a, BEGIN) == MarkAlts(others, Mark(u.length + 2, u.groups, Lifted(u.top, 1)));
  }
}
