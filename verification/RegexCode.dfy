/**
 The code of an expression as a relocatable fragment, and the layout theorem: whatever stands before an
 item, the compiler appends the item's fragment and leads every reference that pointed to the end
 past the SPLITs it put in front of the item (lib/libc_regex.c:73-118, 478-504, 534-628, 649-720).

 Capture slots are left aside here, since insertions and copies shift them as if they were targets.
 */
module RegexCode {
  import opened RegexVm
  import opened RegexSyntax
  import opened RegexBuild

  // ----- fragments

  /** A reference to where the fragment ends, which may still move. */
  const EXIT := -1

  /**
   References are relative to the beginning of the code. `skip` is where a reference arrives that led
   to the place of the fragment before it was there: past the SPLITs that were put in front.
   */
  datatype Fragment = Fragment(code: seq<Inst>, skip: nat)

  function Ref(r: int, base: int, exit: int): int {
    if r < 0 then exit else base + r
  }

  function Put(inst: Inst, base: int, exit: int): Inst {
    if inst.op == Split then inst.(x := Ref(inst.x, base, exit), y := Ref(inst.y, base, exit))
    else if inst.op == Jmp then inst.(x := Ref(inst.x, base, exit))
    else inst
  }

  /** The code at `base`, with its exits leading to `exit`. */
  function Placed(code: seq<Inst>, base: int, exit: int): (r: seq<Inst>)
    ensures |r| == |code|
  {
    seq(|code|, i requires 0 <= i < |code| => Put(code[i], base, exit))
  }

  predicate InstFits(inst: Inst, n: int) {
    if inst.op == Split then EXIT <= inst.x < n && EXIT <= inst.y < n
    else inst.op != Match && inst.y == 0 && (if inst.op == Jmp then EXIT <= inst.x < n else inst.x == 0)
  }

  /** Every reference is an exit or leads to an instruction of the fragment. */
  predicate Compact(f: Fragment) {
    f.skip <= |f.code| && forall i :: 0 <= i < |f.code| ==> InstFits(f.code[i], |f.code|)
  }

  // ----- how fragments combine

  function One(inst: Inst): Fragment { Fragment([inst], 0) }

  function Front(f: Fragment): Fragment { f.(skip := 0) }

  /** Where references to `at` lead once `g` stands there. */
  function Entrance(g: Fragment, at: int, exit: int): int {
    if g.skip == |g.code| then exit else at + g.skip
  }

  function Then(f: Fragment, g: Fragment): Fragment {
    var n := |f.code|;
    Fragment(Placed(f.code, 0, Entrance(g, n, EXIT)) + Placed(g.code, n, EXIT),
             if f.skip == n then n + g.skip else f.skip)
  }

  function PlusOf(f: Fragment): Fragment {
    Fragment(Placed(f.code, 0, |f.code|) + [SplitTo(0, EXIT)], f.skip)
  }

  function OptionOf(f: Fragment): Fragment {
    Fragment([SplitTo(if f.code == [] then EXIT else 1, EXIT)] + Placed(f.code, 1, EXIT), 1 + f.skip)
  }

  /** The SPLIT's second branch is the JMP that leads back to the SPLIT. */
  function StarOf(f: Fragment): Fragment {
    var n := |f.code|;
    Fragment([SplitTo(1, n + 1)] + Placed(f.code, 1, n + 1) + [JmpTo(0)], 1 + f.skip)
  }

  function CopiesOf(f: Fragment, n: nat): Fragment {
    if n <= 1 then f else Then(CopiesOf(f, n - 1), Front(f))
  }

  /** `min` copies and `extra` optional ones. */
  function RepeatOf(f: Fragment, min: nat, extra: nat): Fragment {
    if extra == 0 then CopiesOf(f, min) else Then(RepeatOf(f, min, extra - 1), Front(OptionOf(f)))
  }

  function LoopOf(f: Fragment, min: nat): Fragment {
    if min == 0 then StarOf(f) else Then(CopiesOf(f, min), Front(StarOf(f)))
  }

  /** Where a copied reference of the item leads: on when it led to the instruction left out, `back` when out of the item. */
  function CutRef(r: int, last: int, base: int, ahead: int, back: int): int {
    if r < 0 then back else if r == last then ahead else base + r
  }

  function PutCut(inst: Inst, last: int, base: int, ahead: int, back: int): Inst {
    if inst.op == Split then
      inst.(x := CutRef(inst.x, last, base, ahead, back), y := CutRef(inst.y, last, base, ahead, back))
    else if inst.op == Jmp then inst.(x := CutRef(inst.x, last, base, ahead, back))
    else inst
  }

  /** The code without its last instruction. */
  function PlacedCut(code: seq<Inst>, base: int, ahead: int, back: int): (r: seq<Inst>)
    requires code != []
    ensures |r| == |code| - 1
  {
    seq(|code| - 1, i requires 0 <= i < |code| - 1 => PutCut(code[i], |code| - 1, base, ahead, back))
  }

  /**
   What `{0,n}` adds for each repetition, at `n`: a SPLIT, and a copy of what stands at the item's old place,
   which is the SPLIT in front of it and the item without its last instruction.
   */
  function BlockOf(f: Fragment, n: nat): (r: seq<Inst>)
    ensures |r| == |f.code| + 1
  {
    var size := |f.code|;
    if size == 0 then [SplitTo(EXIT, EXIT)]
    else [SplitTo(n + 1, EXIT), SplitTo(if size == 1 then EXIT else n + 2, size + 1)]
         + PlacedCut(f.code, n + 2, EXIT, size + 1)
  }

  /** `{0,k+1}`. */
  function RetriesOf(f: Fragment, k: nat): Fragment {
    if k == 0 then OptionOf(f)
    else
      var g := RetriesOf(f, k - 1);
      Fragment(Placed(g.code, 0, |g.code|) + BlockOf(f, |g.code|), g.skip)
  }

  function CaptureOf(f: Fragment): Fragment {
    var n := |f.code|;
    Fragment([Plain(Save)] + Placed(f.code, 1, n + 1) + [Plain(Save)], 0)
  }

  /** A branch, and those after it; without any, the SPLIT's second target is the end. */
  function BranchOf(f: Fragment, others: Fragment): Fragment {
    var after := |f.code| + 2;
    Fragment([SplitTo(1, if others.code == [] then EXIT else after)] + Placed(f.code, 1, after - 1) + [JmpTo(EXIT)]
             + Placed(others.code, after, EXIT), 1 + f.skip)
  }

  // ----- the fragment of an expression

  function ReFragment(re: Re): Fragment
    decreases re, 0
  {
    match re
    case Empty => Fragment([], 0)
    case Cons(a, q, rest) => Then(ItemFragment(a, q), ReFragment(rest))
  }

  function ItemFragment(a: Atom, q: Quant): Fragment
    decreases a, 2
  {
    QuantFragment(AtomFragment(a), q)
  }

  function QuantFragment(f: Fragment, q: Quant): Fragment {
    match q
    case Once => f
    case Plus => PlusOf(f)
    case Repeat(min, max) =>
      if min == 0 then RetriesOf(f, if max > 1 then max - 1 else 0)
      else RepeatOf(f, min, if max > min then max - min else 0)
    case Loop(min) => LoopOf(f, min)
  }

  function AtomFragment(a: Atom): Fragment
    decreases a, 0
  {
    match a
    case Lit(c) => One(Plain(Char).(ch := c))
    case Dot => One(Plain(Any))
    case Set(s) => One(Plain(Class).(cls := s))
    case Anchor(e) => One(Plain(EdgeOp(e)))
    case Group(body) => ReFragment(body)
    case Capture(inner) => CaptureOf(AtomFragment(inner))
    case Choice(first, others) => BranchOf(ReFragment(first), AltsFragment(others))
  }

  function AltsFragment(alts: Alts): Fragment
    decreases alts, 0
  {
    BranchOf(ReFragment(alts.re), if alts.More? then AltsFragment(alts.more) else Fragment([], 0))
  }

  // ----- fragments are compact

  lemma ThenCompact(f: Fragment, g: Fragment)
    requires Compact(f) && Compact(g)
    ensures Compact(Then(f, g))
  {
  }

  lemma PlusCompact(f: Fragment)
    requires Compact(f)
    ensures Compact(PlusOf(f))
  {
  }

  lemma OptionCompact(f: Fragment)
    requires Compact(f)
    ensures Compact(OptionOf(f)) && Compact(Front(OptionOf(f)))
  {
  }

  lemma StarCompact(f: Fragment)
    requires Compact(f)
    ensures Compact(StarOf(f)) && Compact(Front(StarOf(f)))
  {
  }

  lemma CaptureCompact(f: Fragment)
    requires Compact(f)
    ensures Compact(CaptureOf(f))
  {
  }

  lemma BranchCompact(f: Fragment, others: Fragment)
    requires Compact(f) && Compact(others)
    ensures Compact(BranchOf(f, others))
  {
  }

  lemma {:induction false} CopiesCompact(f: Fragment, n: nat)
    requires Compact(f)
    ensures Compact(CopiesOf(f, n))
  {
    if n > 1 {
      CopiesCompact(f, n - 1);
      ThenCompact(CopiesOf(f, n - 1), Front(f));
    }
  }

  lemma {:induction false} RepeatCompact(f: Fragment, min: nat, extra: nat)
    requires Compact(f)
    ensures Compact(RepeatOf(f, min, extra))
  {
    if extra == 0 {
      CopiesCompact(f, min);
    } else {
      RepeatCompact(f, min, extra - 1);
      OptionCompact(f);
      ThenCompact(RepeatOf(f, min, extra - 1), Front(OptionOf(f)));
    }
  }

  lemma BlockCompact(f: Fragment, n: nat, i: nat)
    requires Compact(f) && i <= |f.code| && n >= |f.code| + 1
    ensures InstFits(BlockOf(f, n)[i], n + |f.code| + 1)
  {
    if i > 1 {
      assert InstFits(f.code[i - 2], |f.code|);
    }
  }

  lemma {:induction false} RetriesCompact(f: Fragment, k: nat)
    requires Compact(f)
    ensures Compact(RetriesOf(f, k)) && |RetriesOf(f, k).code| >= |f.code| + 1 && RetriesOf(f, k).skip == 1 + f.skip
    ensures k > 0 ==> |RetriesOf(f, k).code| == |RetriesOf(f, k - 1).code| + |f.code| + 1
  {
    OptionCompact(f);
    if k > 0 {
      RetriesCompact(f, k - 1);
      var g, r := RetriesOf(f, k - 1), RetriesOf(f, k);
      hide RetriesOf, BlockOf;
      forall i | 0 <= i < |r.code|
        ensures InstFits(r.code[i], |r.code|)
      {
        RetriesPart(f, k, i);
        if i < |g.code| {
          assert InstFits(g.code[i], |g.code|);
        } else {
          BlockCompact(f, |g.code|, i - |g.code|);
        }
      }
    }
  }

  lemma RetriesPart(f: Fragment, k: nat, i: nat)
    requires k > 0 && i < |RetriesOf(f, k).code|
    ensures var g := RetriesOf(f, k - 1);
            && |RetriesOf(f, k).code| == |g.code| + |f.code| + 1 && RetriesOf(f, k).skip == g.skip
            && RetriesOf(f, k).code[i] == if i < |g.code| then Put(g.code[i], 0, |g.code|)
                                          else BlockOf(f, |g.code|)[i - |g.code|]
  {
    hide BlockOf;
  }

  lemma QuantCompact(f: Fragment, q: Quant)
    requires Compact(f)
    ensures Compact(QuantFragment(f, q))
  {
    hide Compact, PlusOf, StarOf, OptionOf;
    match q
    case Once =>
    case Plus => PlusCompact(f);
    case Repeat(min, max) =>
      if min == 0 {
        RetriesCompact(f, if max > 1 then max - 1 else 0);
      } else {
        RepeatCompact(f, min, if max > min then max - min else 0);
      }
    case Loop(min) =>
      StarCompact(f);
      if min > 0 {
        CopiesCompact(f, min);
        ThenCompact(CopiesOf(f, min), Front(StarOf(f)));
      }
  }

  lemma {:induction false} ReCompact(re: Re)
    ensures Compact(ReFragment(re))
    decreases re, 0
  {
    if re.Cons? {
      ItemCompact(re.atom, re.quant);
      ReCompact(re.rest);
      ThenCompact(ItemFragment(re.atom, re.quant), ReFragment(re.rest));
    }
  }

  lemma {:induction false} ItemCompact(a: Atom, q: Quant)
    ensures Compact(ItemFragment(a, q))
    decreases a, 2
  {
    AtomCompact(a);
    QuantCompact(AtomFragment(a), q);
  }

  lemma {:induction false} AtomCompact(a: Atom)
    ensures Compact(AtomFragment(a))
    decreases a, 0
  {
    if a.Group? {
      ReCompact(a.body);
    } else if a.Capture? {
      AtomCompact(a.inner);
      CaptureCompact(AtomFragment(a.inner));
    } else if a.Choice? {
      ReCompact(a.first);
      AltsCompact(a.others);
      BranchCompact(ReFragment(a.first), AltsFragment(a.others));
    }
  }

  lemma {:induction false} AltsCompact(alts: Alts)
    ensures Compact(AltsFragment(alts))
    decreases alts, 0
  {
    ReCompact(alts.re);
    if alts.More? {
      AltsCompact(alts.more);
      BranchCompact(ReFragment(alts.re), AltsFragment(alts.more));
    } else {
      BranchCompact(ReFragment(alts.re), Fragment([], 0));
    }
  }
}
