/**
 What the compiler emits is the fragment of the expression, put behind the program so far
 (lib/libc_regex.c:73-118, 478-504, 534-628, 649-720).
 */
module RegexLayout {
  import opened RegexVm
  import opened RegexSyntax
  import opened RegexBuild
  import opened RegexCode

  // ----- programs without capture slots

  function Blind(inst: Inst): Inst {
    if inst.op == Save then inst.(x := 0) else inst
  }

  /** The program with its capture slots left out. */
  function Blinded(program: seq<Inst>): (r: seq<Inst>)
    ensures |r| == |program|
  {
    seq(|program|, i requires 0 <= i < |program| => Blind(program[i]))
  }

  lemma BlindAppend(p: seq<Inst>, q: seq<Inst>)
    ensures Blinded(p + q) == Blinded(p) + Blinded(q)
  {
  }

  lemma BlindOptioned(p: seq<Inst>, start: nat)
    requires 0 < start <= |p|
    ensures Blinded(Optioned(p, start)) == Optioned(Blinded(p), start)
  {
  }

  lemma BlindCopied(p: seq<Inst>, start: nat, end: nat)
    requires 0 < start <= end <= |p|
    ensures Blinded(Copied(p, start, end)) == Copied(Blinded(p), start, end)
  {
  }

  lemma BlindOptionAdded(p: seq<Inst>, start: nat, end: nat)
    requires 0 < start <= end <= |p|
    ensures Blinded(OptionAdded(p, start, end)) == OptionAdded(Blinded(p), start, end)
  {
    hide Copied;
    var wide := p + [Plain(Split)];
    BlindCopied(wide, start, end);
    BlindAppend(p, [Plain(Split)]);
    assert Blinded([Plain(Split)]) == [Plain(Split)];
  }

  lemma {:induction false} BlindCopies(p: seq<Inst>, start: nat, end: nat, n: nat)
    requires 0 < start <= end <= |p|
    ensures Blinded(CopiedTimes(p, start, end, n)) == CopiedTimes(Blinded(p), start, end, n)
  {
    if n > 0 {
      hide Copied;
      BlindCopies(p, start, end, n - 1);
      BlindCopied(CopiedTimes(p, start, end, n - 1), start, end);
    }
  }

  lemma {:induction false} BlindOptions(p: seq<Inst>, start: nat, end: nat, n: nat)
    requires 0 < start <= end <= |p|
    ensures Blinded(OptionsAdded(p, start, end, n)) == OptionsAdded(Blinded(p), start, end, n)
  {
    if n > 0 {
      hide OptionAdded;
      BlindOptions(p, start, end, n - 1);
      BlindOptionAdded(OptionsAdded(p, start, end, n - 1), start, end);
    }
  }

  lemma BlindQuantified(p: seq<Inst>, start: nat, q: Quant)
    requires 0 < start <= |p|
    ensures Blinded(Quantified(p, start, q)) == Quantified(Blinded(p), start, q)
  {
    hide Blinded, Optioned, CopiedTimes, OptionsAdded, OptionAdded;
    var end := |p|;
    match q
    case Once =>
    case Plus =>
      var split := [SplitTo(start, end + 1)];
      BlindAppend(p, split);
      BlindOne(split[0]);
    case Repeat(min, max) =>
      if min == 0 {
        BlindOptioned(p, start);
        BlindOptions(Optioned(p, start), start, end, if max > 1 then max - 1 else 0);
      } else {
        BlindCopies(p, start, end, min - 1);
        BlindOptions(CopiedTimes(p, start, end, min - 1), start, end, if max > min then max - min else 0);
      }
    case Loop(min) =>
      if min == 0 {
        BlindOptioned(p, start);
        BlindAppend(Optioned(p, start), [JmpTo(start)]);
        BlindOne(JmpTo(start));
      } else {
        var copies := CopiedTimes(p, start, end, min - 1);
        BlindCopies(p, start, end, min - 1);
        BlindOptionAdded(copies, start, end);
        BlindAppend(OptionAdded(copies, start, end), [JmpTo(|copies|)]);
        BlindOne(JmpTo(|copies|));
      }
  }

  lemma BlindOne(inst: Inst)
    ensures Blinded([inst]) == [Blind(inst)]
  {
  }

  // ----- a fragment behind a program

  /** No reference leads past the end. */
  predicate Neat(program: seq<Inst>) {
    program != [] && forall i :: 0 <= i < |program| ==> 0 <= program[i].x <= |program| && 0 <= program[i].y <= |program|
  }

  function Led(inst: Inst, at: int, t: int): Inst {
    inst.(x := if inst.x >= at then t else inst.x, y := if inst.y >= at then t else inst.y)
  }

  /** References to the end lead to `t`. */
  function AllLed(program: seq<Inst>, t: int): (r: seq<Inst>)
    ensures |r| == |program|
  {
    seq(|program|, i requires 0 <= i < |program| => Led(program[i], |program|, t))
  }

  /** The fragment behind the program, whose exits now lead where the fragment lets references in. */
  function Extended(p: seq<Inst>, f: Fragment): (r: seq<Inst>)
    ensures |r| == |p| + |f.code|
  {
    AllLed(p, |p| + f.skip) + Placed(f.code, |p|, |p| + |f.code|)
  }

  lemma NeatExtended(p: seq<Inst>, f: Fragment)
    requires Neat(p) && Compact(f)
    ensures Neat(Extended(p, f))
  {
    forall i | 0 <= i < |p| + |f.code|
      ensures var inst := Extended(p, f)[i]; 0 <= inst.x <= |p| + |f.code| && 0 <= inst.y <= |p| + |f.code|
    {
      if i >= |p| {
        assert InstFits(f.code[i - |p|], |f.code|);
      }
    }
  }

  lemma NothingBehind(p: seq<Inst>)
    requires Neat(p)
    ensures Extended(p, Fragment([], 0)) == p
  {
  }

  lemma OneBehind(p: seq<Inst>, inst: Inst)
    requires Neat(p) && inst.op !in {Split, Jmp}
    ensures Extended(p, One(inst)) == p + [inst]
  {
  }

  lemma ThenBehind(p: seq<Inst>, f: Fragment, g: Fragment)
    requires Neat(p) && Compact(f) && Compact(g)
    ensures Extended(Extended(p, f), g) == Extended(p, Then(f, g))
  {
    var left, right := Extended(Extended(p, f), g), Extended(p, Then(f, g));
    forall i | 0 <= i < |p| + |f.code| + |g.code|
      ensures left[i] == right[i]
    {
      ThenAt(p, f, g, i);
    }
  }

  lemma ThenAt(p: seq<Inst>, f: Fragment, g: Fragment, i: nat)
    requires Neat(p) && Compact(f) && Compact(g) && i < |p| + |f.code| + |g.code|
    ensures Extended(Extended(p, f), g)[i] == Extended(p, Then(f, g))[i]
  {
    if |p| <= i < |p| + |f.code| {
      assert InstFits(f.code[i - |p|], |f.code|);
    } else if i >= |p| {
      assert InstFits(g.code[i - |p| - |f.code|], |g.code|);
    }
  }

  // ----- quantifiers

  lemma PlusBehind(p: seq<Inst>, f: Fragment)
    requires Neat(p) && Compact(f)
    ensures Extended(p, f) + [SplitTo(|p|, |p| + |f.code| + 1)] == Extended(p, PlusOf(f))
  {
    forall i | 0 <= i < |f.code|
      ensures Put(f.code[i], |p|, |p| + |f.code|) == Put(Put(f.code[i], 0, |f.code|), |p|, |p| + |f.code| + 1)
    {
      assert InstFits(f.code[i], |f.code|);
    }
  }

  /** The insertion in front of an item leads the earlier exits past the new SPLIT. */
  lemma OptionBehind(p: seq<Inst>, f: Fragment)
    requires Neat(p) && Compact(f)
    ensures Optioned(Extended(p, f), |p|) == Extended(p, OptionOf(f))
  {
    var left, right := Optioned(Extended(p, f), |p|), Extended(p, OptionOf(f));
    forall i | 0 <= i < |p| + |f.code| + 1
      ensures left[i] == right[i]
    {
      OptionAt(p, f, i);
    }
  }

  lemma OptionAt(p: seq<Inst>, f: Fragment, i: nat)
    requires Neat(p) && Compact(f) && i < |p| + |f.code| + 1
    ensures Optioned(Extended(p, f), |p|)[i] == Extended(p, OptionOf(f))[i]
  {
    if i > |p| {
      assert InstFits(f.code[i - |p| - 1], |f.code|);
    }
  }

  lemma StarBehind(p: seq<Inst>, f: Fragment)
    requires Neat(p) && Compact(f)
    ensures Starred(Extended(p, f), |p|) == Extended(p, StarOf(f))
  {
    hide Optioned;
    OptionBehind(p, f);
    var left, right := Starred(Extended(p, f), |p|), Extended(p, StarOf(f));
    forall i | 0 <= i < |p| + |f.code| + 2
      ensures left[i] == right[i]
    {
      if |p| < i <= |p| + |f.code| {
        assert InstFits(f.code[i - |p| - 1], |f.code|);
      }
    }
  }

  /** The first copy of the atom stands behind `p`. */
  predicate FirstCopy(program: seq<Inst>, p: seq<Inst>, f: Fragment) {
    |p| + |f.code| <= |program| && program[|p|..|p| + |f.code|] == Placed(f.code, |p|, |p| + |f.code|)
  }

  lemma FirstStays(program: seq<Inst>, more: seq<Inst>, p: seq<Inst>, f: Fragment)
    requires FirstCopy(program, p, f) && |program| <= |more| && more[..|program|] == program
    ensures FirstCopy(more, p, f)
  {
    forall i | |p| <= i < |p| + |f.code|
      ensures more[i] == program[i]
    {
      assert more[..|program|][i] == program[i];
    }
    assert more[|p|..|p| + |f.code|] == program[|p|..|p| + |f.code|];
  }

  lemma OptionAddedAt(program: seq<Inst>, start: nat, end: nat, i: nat)
    requires start <= end <= |program| && i <= |program| + (end - start)
    ensures var r, len := OptionAdded(program, start, end), |program|;
            && |r| == len + 1 + (end - start)
            && r[i] == if i < len then program[i]
                       else if i == len then SplitTo(len + 1, len + 1 + (end - start))
                       else Shifted(program[start + (i - len - 1)], start, end, len + 1 - start)
  {
    var wide := program + [Plain(Split)];
    assert wide[start..end] == program[start..end];
  }

  /** One instruction of the first copy, shifted to a copy at `base`. */
  lemma CopyAt(program: seq<Inst>, p: seq<Inst>, f: Fragment, k: nat, base: nat)
    requires Neat(p) && Compact(f) && FirstCopy(program, p, f) && k < |f.code| && base >= |p|
    ensures Shifted(program[|p| + k], |p|, |p| + |f.code|, base - |p|) == Put(f.code[k], base, base + |f.code|)
  {
    assert program[|p|..|p| + |f.code|][k] == Put(f.code[k], |p|, |p| + |f.code|);
    assert InstFits(f.code[k], |f.code|);
  }

  lemma ThenParts(p: seq<Inst>, c: Fragment, g: Fragment, i: nat)
    requires Neat(p) && Compact(c) && Compact(g) && g.skip == 0 && i < |p| + |c.code| + |g.code|
    ensures Extended(p, Then(c, g))[i] == if i < |p| + |c.code| then Extended(p, c)[i]
                                          else Put(g.code[i - |p| - |c.code|], |p| + |c.code|, |p| + |c.code| + |g.code|)
  {
    ThenAt(p, c, g, i);
    if |p| <= i < |p| + |c.code| {
      assert InstFits(c.code[i - |p|], |c.code|);
    }
  }

  lemma OptionPart(f: Fragment, k: nat, base: int)
    requires Compact(f) && k <= |f.code|
    ensures |OptionOf(f).code| == |f.code| + 1
    ensures Put(OptionOf(f).code[k], base, base + 1 + |f.code|)
         == if k == 0 then SplitTo(base + 1, base + 1 + |f.code|) else Put(f.code[k - 1], base + 1, base + 1 + |f.code|)
  {
    if k > 0 {
      assert InstFits(f.code[k - 1], |f.code|);
    }
  }

  lemma StarPart(f: Fragment, k: nat, base: int, exit: int)
    requires Compact(f) && k <= |f.code| + 1
    ensures |StarOf(f).code| == |f.code| + 2
    ensures Put(StarOf(f).code[k], base, exit)
         == if k == 0 then SplitTo(base + 1, base + 1 + |f.code|)
            else if k == |f.code| + 1 then JmpTo(base)
            else Put(f.code[k - 1], base + 1, base + 1 + |f.code|)
  {
    if 0 < k <= |f.code| {
      assert InstFits(f.code[k - 1], |f.code|);
    }
  }

  lemma Fronted(f: Fragment)
    ensures Front(f).code == f.code && Front(f).skip == 0
  {
  }

  lemma CopyBehind(p: seq<Inst>, c: Fragment, f: Fragment)
    requires Neat(p) && Compact(f) && Compact(c) && FirstCopy(Extended(p, c), p, f)
    ensures var r := Copied(Extended(p, c), |p|, |p| + |f.code|); r == Extended(p, Then(c, Front(f))) && FirstCopy(r, p, f)
  {
    hide *;
    FirstFits(Extended(p, c), p, f);
    var program, end, g := Extended(p, c), |p| + |f.code|, Front(f);
    var left, right := Copied(program, |p|, end), Extended(p, Then(c, g));
    Fronted(f);
    FrontCompact(f);
    ThenSize(c, g);
    forall i | 0 <= i < |program| + |f.code|
      ensures left[i] == right[i]
      ensures i < |program| ==> left[i] == program[i]
    {
      CopiedAt(program, |p|, end, i);
      ThenParts(p, c, g, i);
      if i >= |program| {
        CopyAt(program, p, f, i - |program|, |program|);
      }
    }
    assert left == right;
    assert left[..|program|] == program;
    FirstStays(program, left, p, f);
  }

  lemma FrontCompact(f: Fragment)
    requires Compact(f)
    ensures Compact(Front(f))
  {
  }

  lemma CopiedAt(program: seq<Inst>, start: nat, end: nat, i: nat)
    requires start <= end <= |program| && i < |program| + (end - start)
    ensures Copied(program, start, end)[i]
         == if i < |program| then program[i] else Shifted(program[start + (i - |program|)], start, end, |program| - start)
  {
  }

  lemma AddedBehind(p: seq<Inst>, c: Fragment, f: Fragment)
    requires Neat(p) && Compact(f) && Compact(c) && FirstCopy(Extended(p, c), p, f)
    ensures var r := OptionAdded(Extended(p, c), |p|, |p| + |f.code|);
            r == Extended(p, Then(c, Front(OptionOf(f)))) && FirstCopy(r, p, f)
  {
    hide *;
    FirstFits(Extended(p, c), p, f);
    var program, end, g := Extended(p, c), |p| + |f.code|, Front(OptionOf(f));
    var left, right := OptionAdded(program, |p|, end), Extended(p, Then(c, g));
    OptionCompact(f);
    OptionPart(f, 0, 0);
    Fronted(OptionOf(f));
    OptionAddedAt(program, |p|, end, 0);
    ThenSize(c, g);
    forall i | 0 <= i < |program| + |f.code| + 1
      ensures left[i] == right[i]
    {
      OptionAddedAt(program, |p|, end, i);
      ThenParts(p, c, g, i);
      if i >= |program| {
        OptionPart(f, i - |program|, |program|);
        if i > |program| {
          CopyAt(program, p, f, i - |program| - 1, |program| + 1);
        }
      }
    }
    assert left == right;
    forall i | 0 <= i < |program|
      ensures left[i] == program[i]
    {
      OptionAddedAt(program, |p|, end, i);
    }
    assert left[..|program|] == program;
    FirstStays(program, left, p, f);
  }

  lemma FirstFits(program: seq<Inst>, p: seq<Inst>, f: Fragment)
    requires FirstCopy(program, p, f)
    ensures |p| + |f.code| <= |program|
  {
  }

  lemma ThenSize(c: Fragment, g: Fragment)
    ensures |Then(c, g).code| == |c.code| + |g.code|
  {
  }

  /** The loop of `{m,}`: the optional copy is followed by a JMP back to its SPLIT. */
  lemma LoopBehind(p: seq<Inst>, c: Fragment, f: Fragment)
    requires Neat(p) && Compact(f) && Compact(c) && FirstCopy(Extended(p, c), p, f)
    ensures OptionAdded(Extended(p, c), |p|, |p| + |f.code|) + [JmpTo(|p| + |c.code|)]
         == Extended(p, Then(c, Front(StarOf(f))))
  {
    hide *;
    FirstFits(Extended(p, c), p, f);
    var program, end, g := Extended(p, c), |p| + |f.code|, Front(StarOf(f));
    var left := OptionAdded(program, |p|, end) + [JmpTo(|program|)];
    var right := Extended(p, Then(c, g));
    StarCompact(f);
    StarPart(f, 0, 0, 0);
    Fronted(StarOf(f));
    OptionAddedAt(program, |p|, end, 0);
    ThenSize(c, g);
    forall i | 0 <= i < |program| + |f.code| + 2
      ensures left[i] == right[i]
    {
      if i <= |program| + |f.code| {
        OptionAddedAt(program, |p|, end, i);
      }
      ThenParts(p, c, g, i);
      if i >= |program| {
        StarPart(f, i - |program|, |program|, |program| + |f.code| + 2);
        if |program| < i <= |program| + |f.code| {
          CopyAt(program, p, f, i - |program| - 1, |program| + 1);
        }
      }
    }
    assert left == right;
  }

  lemma {:induction false} CopiesBehind(p: seq<Inst>, f: Fragment, n: nat)
    requires Neat(p) && Compact(f) && n >= 1
    ensures var r := CopiedTimes(Extended(p, f), |p|, |p| + |f.code|, n - 1);
            r == Extended(p, CopiesOf(f, n)) && FirstCopy(r, p, f)
  {
    hide Extended, Copied, Compact, Neat;
    if n == 1 {
      FirstOfAll(p, f);
    } else {
      CopiesBehind(p, f, n - 1);
      CopiesCompact(f, n - 1);
      CopyBehind(p, CopiesOf(f, n - 1), f);
    }
  }

  lemma FirstOfAll(p: seq<Inst>, f: Fragment)
    ensures FirstCopy(Extended(p, f), p, f)
  {
  }

  lemma {:induction false} RepeatBehind(p: seq<Inst>, f: Fragment, min: nat, extra: nat)
    requires Neat(p) && Compact(f) && min >= 1
    ensures var end := |p| + |f.code|;
            var r := OptionsAdded(CopiedTimes(Extended(p, f), |p|, end, min - 1), |p|, end, extra);
            r == Extended(p, RepeatOf(f, min, extra)) && FirstCopy(r, p, f)
  {
    hide Extended, OptionAdded, CopiedTimes, Compact, Neat, OptionOf;
    if extra == 0 {
      CopiesBehind(p, f, min);
    } else {
      RepeatBehind(p, f, min, extra - 1);
      RepeatCompact(f, min, extra - 1);
      AddedBehind(p, RepeatOf(f, min, extra - 1), f);
    }
  }

  /** The SPLIT in front of the item, and the item, stand behind `p`. */
  predicate OptionFirst(program: seq<Inst>, p: seq<Inst>, f: Fragment) {
    && |p| + |f.code| + 1 <= |program|
    && forall i :: 0 <= i <= |f.code| ==> program[|p| + i] == Put(OptionOf(f).code[i], |p|, |p| + |f.code| + 1)
  }

  /** One instruction that `{0,n}` copies, from the item's old place to `base + 1`. */
  lemma BlockAt(program: seq<Inst>, p: seq<Inst>, f: Fragment, n: nat, k: nat)
    requires Neat(p) && Compact(f) && OptionFirst(program, p, f) && k < |f.code| && n >= |f.code| + 1
    ensures Shifted(program[|p| + k], |p|, |p| + |f.code|, n + 1)
         == Put(BlockOf(f, n)[1 + k], |p|, |p| + n + |f.code| + 1)
  {
    assert program[|p| + k] == Put(OptionOf(f).code[k], |p|, |p| + |f.code| + 1);
    hide OptionOf, BlockOf, OptionFirst, Compact;
    OptionPart(f, k, |p|);
    if k == 0 {
      SecondSplit(f, n);
    } else {
      CutPart(f, n, k);
      FitsAt(f, k - 1);
    }
  }

  lemma FitsAt(f: Fragment, i: nat)
    requires Compact(f) && i < |f.code|
    ensures InstFits(f.code[i], |f.code|)
  {
  }

  lemma SecondSplit(f: Fragment, n: nat)
    requires f.code != []
    ensures BlockOf(f, n)[0] == SplitTo(n + 1, EXIT)
    ensures BlockOf(f, n)[1] == SplitTo(if |f.code| == 1 then EXIT else n + 2, |f.code| + 1)
  {
  }

  lemma CutPart(f: Fragment, n: nat, k: nat)
    requires 0 < k < |f.code|
    ensures BlockOf(f, n)[1 + k] == PutCut(f.code[k - 1], |f.code| - 1, n + 2, EXIT, |f.code| + 1)
  {
  }

  lemma FirstInBlock(f: Fragment, n: nat)
    ensures BlockOf(f, n)[0] == SplitTo(if f.code == [] then EXIT else n + 1, EXIT)
  {
  }

  /** Copying at the item's old place: the SPLIT and all of the item but its last instruction. */
  lemma RetryBehind(p: seq<Inst>, f: Fragment, k: nat)
    requires Neat(p) && Compact(f) && OptionFirst(Extended(p, RetriesOf(f, k)), p, f)
    ensures var r := OptionAdded(Extended(p, RetriesOf(f, k)), |p|, |p| + |f.code|);
            r == Extended(p, RetriesOf(f, k + 1)) && OptionFirst(r, p, f)
  {
    hide RetriesOf, OptionAdded, BlockOf, Compact, Neat, Extended, OptionFirst;
    OptionFits(Extended(p, RetriesOf(f, k)), p, f);
    var g := RetriesOf(f, k);
    var program, n, end := Extended(p, g), |g.code|, |p| + |f.code|;
    var left, right := OptionAdded(program, |p|, end), Extended(p, RetriesOf(f, k + 1));
    RetriesCompact(f, k);
    RetriesCompact(f, k + 1);
    OptionAddedAt(program, |p|, end, 0);
    forall i | 0 <= i < |program| + |f.code| + 1
      ensures left[i] == right[i]
      ensures i < |program| ==> left[i] == program[i]
    {
      OptionAddedAt(program, |p|, end, i);
      RetryPart(p, f, k, i);
      if i == |program| {
        FirstInBlock(f, n);
      } else if i > |program| {
        BlockAt(program, p, f, n, i - |program| - 1);
      }
    }
    assert left == right;
    OptionStays(program, left, p, f);
  }

  lemma OptionFits(program: seq<Inst>, p: seq<Inst>, f: Fragment)
    requires OptionFirst(program, p, f)
    ensures |p| + |f.code| + 1 <= |program|
  {
  }

  lemma OptionStays(program: seq<Inst>, more: seq<Inst>, p: seq<Inst>, f: Fragment)
    requires OptionFirst(program, p, f) && |program| <= |more|
    requires forall i :: 0 <= i < |program| ==> more[i] == program[i]
    ensures OptionFirst(more, p, f)
  {
  }

  lemma RetryPart(p: seq<Inst>, f: Fragment, k: nat, i: nat)
    requires Neat(p) && Compact(f) && i < |p| + |RetriesOf(f, k).code| + |f.code| + 1
    ensures var g := RetriesOf(f, k); var len := |p| + |g.code|;
            && |RetriesOf(f, k + 1).code| == |g.code| + |f.code| + 1
            && Extended(p, RetriesOf(f, k + 1))[i]
               == if i < len then Extended(p, g)[i]
                  else Put(BlockOf(f, |g.code|)[i - len], |p|, len + |f.code| + 1)
  {
    hide RetriesOf, BlockOf, Extended, Compact, Neat;
    RetriesCompact(f, k);
    RetriesCompact(f, k + 1);
    var g, h := RetriesOf(f, k), RetriesOf(f, k + 1);
    ExtendedAt(p, h, i);
    if i < |p| {
      ExtendedAt(p, g, i);
      RetriesPart(f, k + 1, 0);
    } else {
      RetriesPart(f, k + 1, i - |p|);
      if i < |p| + |g.code| {
        ExtendedAt(p, g, i);
        PlacedAgain(g, i - |p|, |p|, |p| + |h.code|);
      }
    }
  }

  lemma ExtendedAt(p: seq<Inst>, f: Fragment, i: nat)
    requires i < |p| + |f.code|
    ensures Extended(p, f)[i] == if i < |p| then Led(p[i], |p|, |p| + f.skip)
                                 else Put(f.code[i - |p|], |p|, |p| + |f.code|)
  {
  }

  lemma PlacedAgain(g: Fragment, k: nat, base: int, exit: int)
    requires Compact(g) && k < |g.code|
    ensures Put(g.code[k], base, base + |g.code|) == Put(Put(g.code[k], 0, |g.code|), base, exit)
  {
    assert InstFits(g.code[k], |g.code|);
  }

  lemma {:induction false} RetriesBehind(p: seq<Inst>, f: Fragment, k: nat)
    requires Neat(p) && Compact(f)
    ensures var r := OptionsAdded(Optioned(Extended(p, f), |p|), |p|, |p| + |f.code|, k);
            r == Extended(p, RetriesOf(f, k)) && OptionFirst(r, p, f)
  {
    hide Extended, OptionAdded, Optioned, Compact, Neat, OptionFirst;
    if k == 0 {
      OptionBehind(p, f);
      OptionStands(p, f);
    } else {
      RetriesBehind(p, f, k - 1);
      RetryBehind(p, f, k - 1);
    }
  }

  lemma OptionStands(p: seq<Inst>, f: Fragment)
    ensures OptionFirst(Extended(p, OptionOf(f)), p, f)
  {
  }

  lemma QuantBehind(p: seq<Inst>, f: Fragment, q: Quant)
    requires Neat(p) && Compact(f)
    ensures Quantified(Extended(p, f), |p|, q) == Extended(p, QuantFragment(f, q))
  {
    hide Extended, Neat, Compact, OptionAdded, OptionsAdded, CopiedTimes, PlusOf, StarOf, CopiesOf, RepeatOf, RetriesOf,
         Starred, Optioned;
    var end := |p| + |f.code|;
    match q
    case Once =>
    case Plus => PlusBehind(p, f);
    case Repeat(min, max) =>
      if min == 0 {
        RetriesBehind(p, f, if max > 1 then max - 1 else 0);
      } else {
        RepeatBehind(p, f, min, if max > min then max - min else 0);
      }
    case Loop(min) =>
      if min == 0 {
        StarBehind(p, f);
      } else {
        CopiesBehind(p, f, min);
        CopiesCompact(f, min);
        LoopBehind(p, CopiesOf(f, min), f);
      }
  }

  // ----- captures and alternations

  lemma CaptureBehind(p: seq<Inst>, f: Fragment)
    requires Neat(p) && Compact(f)
    ensures Neat(p + [Plain(Save)])
    ensures Extended(p + [Plain(Save)], f) + [Plain(Save)] == Extended(p, CaptureOf(f))
  {
    var left, right := Extended(p + [Plain(Save)], f) + [Plain(Save)], Extended(p, CaptureOf(f));
    forall i | 0 <= i < |p| + |f.code| + 2
      ensures left[i] == right[i]
    {
      if |p| < i <= |p| + |f.code| {
        assert InstFits(f.code[i - |p| - 1], |f.code|);
      }
    }
  }

  /** Jumps in the part in front are patched there, the last one behind it. */
  lemma {:induction false} PatchedParts(a: seq<Inst>, b: seq<Inst>, jumps: seq<int>, last: int, t: int)
    requires |a| <= last < |a| + |b| && forall i :: 0 <= i < |jumps| ==> 0 <= jumps[i] < |a|
    ensures Patched(a + b, jumps + [last], t) == Patched(a, jumps, t) + b[last - |a| := b[last - |a|].(x := t)]
    decreases |jumps|
  {
    var k := last - |a|;
    if jumps == [] {
      assert (a + b)[last := b[k].(x := t)] == a + b[k := b[k].(x := t)];
      assert ([] + [last])[1..] == [];
    } else {
      var j := jumps[0];
      var a' := a[j := a[j].(x := t)];
      PatchedParts(a', b, jumps[1..], last, t);
      assert (a + b)[j := a[j].(x := t)] == a' + b;
      assert (jumps + [last])[1..] == jumps[1..] + [last];
    }
  }

  /** The jumps are JMPs of the program, and the last SPLIT is one. */
  predicate ChainOk(c: Chain) {
    && c.lastSplit < |c.out.program| && c.out.program[c.lastSplit].op == Split
    && forall i :: 0 <= i < |c.jumps| ==> c.jumps[i] < |c.out.program| && c.out.program[c.jumps[i]].op == Jmp
  }

  /** The program with the last SPLIT leading to its end. */
  function Open(c: Chain): (r: seq<Inst>)
    requires c.lastSplit < |c.out.program|
    ensures |r| == |c.out.program|
  {
    var p := Blinded(c.out.program);
    p[c.lastSplit := Aim(p[c.lastSplit], |p|)]
  }

  lemma {:induction false} BlindPatched(p: seq<Inst>, jumps: seq<int>, t: int)
    requires forall i :: 0 <= i < |jumps| ==> 0 <= jumps[i] < |p| && p[jumps[i]].op == Jmp
    ensures Blinded(Patched(p, jumps, t)) == Patched(Blinded(p), jumps, t)
    decreases |jumps|
  {
    if jumps != [] {
      var j := jumps[0];
      var p' := p[j := p[j].(x := t)];
      assert Blinded(p') == Blinded(p)[j := Blinded(p)[j].(x := t)];
      BlindPatched(p', jumps[1..], t);
    }
  }

  lemma BlindClosed(c: Chain)
    requires ChainOk(c)
    ensures Blinded(Closed(c).program) == Patched(Open(c), c.jumps, |c.out.program|)
  {
    var p := c.out.program;
    var q := p[c.lastSplit := Aim(p[c.lastSplit], |p|)];
    assert Blinded(q) == Open(c);
    BlindPatched(q, c.jumps, |p|);
  }

  /** An open branch: its SPLIT leads behind it, its JMP nowhere yet. */
  function BranchCode(f: Fragment, base: int): seq<Inst> {
    var n := |f.code|;
    [SplitTo(base + 1, base + n + 2)] + Placed(f.code, base + 1, base + n + 1) + [Plain(Jmp)]
  }

  lemma BranchPart(f: Fragment, others: Fragment, base: nat, end: int, i: nat)
    requires Compact(f) && Compact(others) && i < |f.code| + 2 + |others.code|
    requires end == base + |f.code| + 2 + |others.code|
    ensures |BranchOf(f, others).code| == |f.code| + 2 + |others.code|
    ensures var n := |f.code|;
            Put(BranchOf(f, others).code[i], base, end)
            == if i == 0 then SplitTo(base + 1, base + n + 2)
               else if i <= n then Put(f.code[i - 1], base + 1, base + n + 1)
               else if i == n + 1 then JmpTo(end)
               else Put(others.code[i - n - 2], base + n + 2, end)
  {
    if 0 < i <= |f.code| {
      assert InstFits(f.code[i - 1], |f.code|);
    } else if i > |f.code| + 1 {
      assert InstFits(others.code[i - |f.code| - 2], |others.code|);
    }
  }

  /** A finished branch: its JMP leads to the end. */
  function FinalBranch(f: Fragment, base: int, end: int): seq<Inst> {
    var n := |f.code|;
    [SplitTo(base + 1, base + n + 2)] + Placed(f.code, base + 1, base + n + 1) + [JmpTo(end)]
  }

  lemma BranchPlaced(f: Fragment, others: Fragment, base: nat, end: int)
    requires Compact(f) && Compact(others) && end == base + |f.code| + 2 + |others.code|
    ensures FinalBranch(f, base, end) + Placed(others.code, base + |f.code| + 2, end)
         == Placed(BranchOf(f, others).code, base, end)
  {
    hide BranchOf, Compact;
    BranchPart(f, others, base, end, 0);
    var n := |f.code|;
    var left := FinalBranch(f, base, end) + Placed(others.code, base + n + 2, end);
    var right := Placed(BranchOf(f, others).code, base, end);
    forall i | 0 <= i < n + 2 + |others.code|
      ensures left[i] == right[i]
    {
      BranchPart(f, others, base, end, i);
    }
  }

  lemma BranchPatched(p: seq<Inst>, jumps: seq<int>, f: Fragment, last: int, end: int)
    requires last == |p| + |f.code| + 1 && forall i :: 0 <= i < |jumps| ==> 0 <= jumps[i] < |p|
    ensures Patched(p + BranchCode(f, |p|), jumps + [last], end) == Patched(p, jumps, end) + FinalBranch(f, |p|, end)
  {
    hide *;
    var b, k := BranchCode(f, |p|), |f.code| + 1;
    BranchEnds(f, |p|, end);
    PatchedParts(p, b, jumps, last, end);
    assert last - |p| == k;
  }

  lemma BranchEnds(f: Fragment, base: int, end: int)
    ensures var b, k := BranchCode(f, base), |f.code| + 1;
            |b| == k + 1 && b[k := b[k].(x := end)] == FinalBranch(f, base, end)
  {
    hide Placed;
  }

  /** Behind a new SPLIT no reference to the end is left. */
  lemma OpenedBehind(p: seq<Inst>, f: Fragment)
    requires Neat(p)
    ensures Neat(p + [Plain(Split)])
    ensures Extended(p + [Plain(Split)], f)
         == p + [Plain(Split)] + Placed(f.code, |p| + 1, |p| + 1 + |f.code|)
  {
  }

  lemma NeatOpen(p: seq<Inst>, f: Fragment)
    requires Neat(p) && Compact(f)
    ensures Neat(p + BranchCode(f, |p|))
  {
    forall i | 0 <= i < |f.code|
      ensures var inst := Put(f.code[i], |p| + 1, |p| + 1 + |f.code|);
              0 <= inst.x <= |p| + 1 + |f.code| && 0 <= inst.y <= |p| + 1 + |f.code|
    {
      assert InstFits(f.code[i], |f.code|);
    }
  }

  lemma BlindOpened(c: Chain)
    requires ChainOk(c)
    ensures Blinded(BranchOpened(c).program) == Open(c) + [Plain(Split)]
  {
  }

  /** A branch of the chain is finished behind its new SPLIT. */
  lemma DoneBehind(c: Chain, o: Output, f: Fragment)
    requires ChainOk(c)
    requires Blinded(o.program)
          == Open(c) + [Plain(Split)] + Placed(f.code, |Open(c)| + 1, |Open(c)| + 1 + |f.code|)
    ensures var d := BranchDone(o, |c.out.program|, c.jumps);
            && ChainOk(d) && Open(d) == Open(c) + BranchCode(f, |Open(c)|)
            && d.jumps == c.jumps + [|Open(c)| + |f.code| + 1]
  {
    var p, split := o.program, |c.out.program|;
    var d := BranchDone(o, split, c.jumps);
    forall i | 0 <= i < split
      ensures p[i].op == c.out.program[i].op
    {
      assert Blinded(p)[i] == Open(c)[i];
    }
    assert Blinded(p)[split] == Plain(Split);
    var left, right := Open(d), Open(c) + BranchCode(f, |Open(c)|);
    forall i | 0 <= i < |left|
      ensures left[i] == right[i]
    {
      if i < |p| && i != split {
        assert left[i] == Blinded(p)[i];
      }
    }
  }

  lemma {:induction false} BranchStep(re: Re, c: Chain)
    requires ChainOk(c) && Neat(Open(c))
    ensures var p, f := Open(c), ReFragment(re);
            var d := BranchDone(BuildRe(re, BranchOpened(c)), |c.out.program|, c.jumps);
            && ChainOk(d) && Neat(Open(d)) && Compact(f)
            && Open(d) == p + BranchCode(f, |p|) && d.jumps == c.jumps + [|p| + |f.code| + 1]
    decreases re, 1
  {
    hide Neat, Open, BranchOpened, BranchDone, Placed, Compact, BranchCode, Extended;
    var p, f := Open(c), ReFragment(re);
    BlindOpened(c);
    OpenedBehind(p, f);
    ReBehind(re, BranchOpened(c));
    ReCompact(re);
    DoneBehind(c, BuildRe(re, BranchOpened(c)), f);
    NeatOpen(p, f);
  }

  lemma Regrouped(a: seq<Inst>, b: seq<Inst>, c: seq<Inst>, d: seq<Inst>)
    requires b + c == d
    ensures a + b + c == a + d
  {
  }

  lemma PatchedBranch(p: seq<Inst>, jumps: seq<int>, f: Fragment, others: Fragment, last: int, end: int)
    requires Compact(f) && Compact(others) && last == |p| + |f.code| + 1 && end == last + 1 + |others.code|
    requires forall i :: 0 <= i < |jumps| ==> 0 <= jumps[i] < |p|
    ensures Patched(p + BranchCode(f, |p|), jumps + [last], end) + Placed(others.code, last + 1, end)
         == Patched(p, jumps, end) + Placed(BranchOf(f, others).code, |p|, end)
  {
    hide *;
    BranchPatched(p, jumps, f, last, end);
    BranchPlaced(f, others, |p|, end);
    assert last + 1 == |p| + |f.code| + 2;
    Regrouped(Patched(p, jumps, end), FinalBranch(f, |p|, end), Placed(others.code, last + 1, end),
              Placed(BranchOf(f, others).code, |p|, end));
  }

  lemma {:induction false} BranchesBehind(alts: Alts, c: Chain)
    requires ChainOk(c) && Neat(Open(c))
    ensures var f, base := AltsFragment(alts), |Open(c)|;
            Blinded(Closed(BuildBranches(alts, c)).program)
            == Patched(Open(c), c.jumps, base + |f.code|) + Placed(f.code, base, base + |f.code|)
    decreases alts, 0
  {
    hide Neat, Open, BranchOpened, BranchDone, Closed, Placed, Compact, Patched, BranchCode, BranchOf, ReFragment,
         BuildRe;
    var p, f := Open(c), ReFragment(alts.re);
    var others := if alts.More? then AltsFragment(alts.more) else Fragment([], 0);
    var end := |p| + |BranchOf(f, others).code|;
    BranchStep(alts.re, c);
    var d := BranchDone(BuildRe(alts.re, BranchOpened(c)), |c.out.program|, c.jumps);
    BranchSize(f, others, |p|);
    JumpsInside(c);
    if alts.More? {
      AltsCompact(alts.more);
      BranchesBehind(alts.more, d);
      PatchedBranch(p, c.jumps, f, others, |p| + |f.code| + 1, end);
    } else {
      BlindClosed(d);
      NothingFits();
      PatchedBranch(p, c.jumps, f, others, |p| + |f.code| + 1, end);
      PlacedNothing(end);
    }
  }

  lemma JumpsInside(c: Chain)
    requires ChainOk(c)
    ensures forall i :: 0 <= i < |c.jumps| ==> 0 <= c.jumps[i] < |Open(c)|
  {
  }

  lemma BranchSize(f: Fragment, others: Fragment, base: int)
    ensures |BranchOf(f, others).code| == |f.code| + 2 + |others.code| && |BranchCode(f, base)| == |f.code| + 2
  {
  }

  lemma NothingFits()
    ensures Compact(Fragment([], 0))
  {
  }

  lemma PlacedNothing(base: int)
    ensures Placed([], base, base) == []
  {
  }

  /** The first branch, with the SPLIT that was put in front of it. */
  lemma FirstBehind(p: seq<Inst>, f: Fragment, o: Output)
    requires Neat(p) && Compact(f) && Blinded(o.program) == Extended(p, f)
    ensures var c, t := FirstBranch(o, |p|), |p| + 1 + f.skip;
            && ChainOk(c) && Neat(Open(c)) && c.jumps == [|p| + |f.code| + 1]
            && Open(c) == AllLed(p, t) + BranchCode(f, |p|)
  {
    var c, t := FirstBranch(o, |p|), |p| + 1 + f.skip;
    var wide := Optioned(o.program, |p|);
    assert wide[|p|].op == Split;
    FirstOpen(p, f, o);
    forall i | 0 <= i < |Open(c)|
      ensures var inst := Open(c)[i]; 0 <= inst.x <= |Open(c)| && 0 <= inst.y <= |Open(c)|
    {
      if |p| < i <= |p| + |f.code| {
        assert InstFits(f.code[i - |p| - 1], |f.code|);
      }
    }
  }

  lemma FirstOpen(p: seq<Inst>, f: Fragment, o: Output)
    requires Neat(p) && Compact(f) && Blinded(o.program) == Extended(p, f)
    ensures var c, t := FirstBranch(o, |p|), |p| + 1 + f.skip;
            Open(c) == AllLed(p, t) + BranchCode(f, |p|)
  {
    hide Optioned, Extended;
    OptionBehind(p, f);
    BlindOptioned(o.program, |p|);
    OptionBehindParts(p, f);
    var wide := Optioned(o.program, |p|);
    BlindAppend(wide, [Plain(Jmp)]);
    BlindOne(Plain(Jmp));
  }

  lemma OptionBehindParts(p: seq<Inst>, f: Fragment)
    requires Neat(p) && Compact(f)
    ensures Extended(p, OptionOf(f))
         == AllLed(p, |p| + 1 + f.skip) + [SplitTo(|p| + 1, |p| + 1 + |f.code|)]
            + Placed(f.code, |p| + 1, |p| + 1 + |f.code|)
  {
    var left := Extended(p, OptionOf(f));
    forall i | |p| <= i < |p| + 1 + |f.code|
      ensures left[i] == if i == |p| then SplitTo(|p| + 1, |p| + 1 + |f.code|)
                         else Put(f.code[i - |p| - 1], |p| + 1, |p| + 1 + |f.code|)
    {
      OptionPart(f, i - |p|, |p|);
    }
  }

  // ----- the layout of an expression

  lemma {:induction false} ReBehind(re: Re, o: Output)
    requires Neat(Blinded(o.program))
    ensures Blinded(BuildRe(re, o).program) == Extended(Blinded(o.program), ReFragment(re))
    decreases re, 0
  {
    hide Neat, Extended, Compact, Then, ItemFragment, BuildItem;
    var p := Blinded(o.program);
    if re.Cons? {
      var f := ItemFragment(re.atom, re.quant);
      ItemBehind(re.atom, re.quant, o);
      ItemCompact(re.atom, re.quant);
      NeatExtended(p, f);
      ReBehind(re.rest, BuildItem(re.atom, re.quant, o));
      ReCompact(re.rest);
      ThenBehind(p, f, ReFragment(re.rest));
    } else {
      NothingBehind(p);
    }
  }

  lemma {:induction false} ItemBehind(a: Atom, q: Quant, o: Output)
    requires Neat(Blinded(o.program))
    ensures Blinded(BuildItem(a, q, o).program) == Extended(Blinded(o.program), ItemFragment(a, q))
    decreases a, 2
  {
    hide Extended, Compact, QuantFragment, Quantified;
    AtomBehind(a, o);
    AtomCompact(a);
    BlindQuantified(BuildAtom(a, o).program, |o.program|, q);
    QuantBehind(Blinded(o.program), AtomFragment(a), q);
  }

  lemma {:induction false} AtomBehind(a: Atom, o: Output)
    requires Neat(Blinded(o.program))
    ensures Blinded(BuildAtom(a, o).program) == Extended(Blinded(o.program), AtomFragment(a))
    decreases a, 1
  {
    hide Neat, Extended, Compact, CaptureOf, BranchOf, Closed, FirstBranch;
    var p := Blinded(o.program);
    if a.Group? {
      ReBehind(a.body, o);
    } else if a.Capture? {
      CaptureLayout(a, o);
    } else if a.Choice? {
      ChoiceLayout(a, o);
    } else {
      LeafLayout(a, o);
    }
  }

  lemma LeafLayout(a: Atom, o: Output)
    requires !a.Group? && !a.Capture? && !a.Choice? && Neat(Blinded(o.program))
    ensures Blinded(BuildAtom(a, o).program) == Extended(Blinded(o.program), AtomFragment(a))
  {
    hide Neat, Extended;
    var inst := AtomFragment(a).code[0];
    OneBehind(Blinded(o.program), inst);
    BlindAppend(o.program, [inst]);
    BlindOne(inst);
  }

  lemma {:induction false} CaptureLayout(a: Atom, o: Output)
    requires a.Capture? && Neat(Blinded(o.program))
    ensures Blinded(BuildAtom(a, o).program) == Extended(Blinded(o.program), AtomFragment(a))
    decreases a, 0
  {
    hide Neat, Extended, Compact, CaptureOf;
    var p, f := Blinded(o.program), AtomFragment(a.inner);
    var before := CaptureOpened(o);
    AtomCompact(a.inner);
    CaptureBehind(p, f);
    BlindAppend(o.program, [SaveTo((o.groups + 1) * 2)]);
    BlindOne(SaveTo((o.groups + 1) * 2));
    AtomBehind(a.inner, before);
    var inside := BuildAtom(a.inner, before);
    BlindAppend(inside.program, [SaveTo(inside.groups * 2 + 1)]);
    BlindOne(SaveTo(inside.groups * 2 + 1));
  }

  lemma {:induction false} ChoiceLayout(a: Atom, o: Output)
    requires a.Choice? && Neat(Blinded(o.program))
    ensures Blinded(BuildAtom(a, o).program) == Extended(Blinded(o.program), AtomFragment(a))
    decreases a, 0
  {
    hide Neat, Compact, BranchOf, Closed, FirstBranch, BranchCode, Patched, Open, ChainOk, AllLed, Placed;
    var p, f, others := Blinded(o.program), ReFragment(a.first), AltsFragment(a.others);
    ReBehind(a.first, o);
    ReCompact(a.first);
    AltsCompact(a.others);
    var first := BuildRe(a.first, o);
    FirstBehind(p, f, first);
    var c := FirstBranch(first, |p|);
    BranchesBehind(a.others, c);
    BranchSize(f, others, |p|);
    var end := |p| + |BranchOf(f, others).code|;
    NoJumps(AllLed(p, |p| + 1 + f.skip), end);
    PatchedBranch(AllLed(p, |p| + 1 + f.skip), [], f, others, |p| + |f.code| + 1, end);
    assert [] + [|p| + |f.code| + 1] == c.jumps;
    BranchSkip(f, others);
  }

  lemma NoJumps(p: seq<Inst>, t: int)
    ensures Patched(p, [], t) == p
  {
  }

  lemma BranchSkip(f: Fragment, others: Fragment)
    ensures BranchOf(f, others).skip == 1 + f.skip
  {
  }
}
