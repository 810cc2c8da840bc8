/**
 What `{0,n}` makes of the item behind its first SPLIT: blocks of a SPLIT, a copy of the SPLIT in front of
 the item, and the item without its last instruction; the copied SPLIT, and whatever leads out of the
 item, lead back to the first block (lib/libc_regex.c:561-585).
 */
module RegexCuts {
  import opened RegexVm
  import opened RegexSyntax
  import opened RegexBuild
  import opened RegexCode
  import opened RegexRuns

  // ----- the item without its last instruction

  /** References to the instruction left out, and out of the item. */
  const AHEAD := -2
  const BACK := -1

  /** How a run through the shortened item ends: off its end, by a reference to its end, or out of the item. */
  datatype Ending = Past | Ahead | Back

  function EndingPc(e: Ending, size: nat): int {
    match e
    case Past => size - 1
    case Ahead => AHEAD
    case Back => BACK
  }

  /** `k` steps lead from `s` to `t`. */
  ghost predicate Leads(m: Machine, s: State, t: State, k: nat)
    decreases k
  {
    if k == 0 then s == t else exists n :: n in Next(m, s) && Leads(m, n, t, k - 1)
  }

  function CutMachine(f: Fragment, flags: Flags, text: seq<byte>): Machine
    requires f.code != []
  {
    Machine(PlacedCut(f.code, 0, AHEAD, BACK), text, flags)
  }

  /** `text[i..j]` is read by the shortened item, entered at its first instruction. */
  ghost predicate ReadsCut(f: Fragment, flags: Flags, text: seq<byte>, i: nat, e: Ending, j: nat) {
    if |f.code| <= 1 then |f.code| == 1 && e == Ahead && i == j <= |text|
    else exists k: nat :: Leads(CutMachine(f, flags, text), State(0, i), State(EndingPc(e, |f.code|), j), k)
  }

  // ----- the blocks

  /**
   Shortened items that lead back to the first block, or on to a block from which another can be reached;
   with a single block (`many` is false) only the former.
   */
  ghost predicate Strays(f: Fragment, flags: Flags, text: seq<byte>, i: nat, j: nat, many: bool, n: nat)
    decreases n
  {
    if n == 0 then i == j <= |text|
    else
      var less: nat := n - 1;
      exists k: nat, e: Ending ::
        i <= k <= j && ReadsCut(f, flags, text, i, e, k) && (many || e == Back) && Strays(f, flags, text, k, j, many, less)
  }

  /** The last block is skipped, or read and left forward. */
  ghost predicate LeavesBy(f: Fragment, flags: Flags, text: seq<byte>, i: nat, w: Way, j: nat) {
    (w == Jump && i == j <= |text|) || ReadsCut(f, flags, text, i, if w == Fall then Past else Ahead, j)
  }

  /** What is read from the first block on. */
  ghost predicate Retried(f: Fragment, flags: Flags, text: seq<byte>, i: nat, w: Way, j: nat, many: bool) {
    exists k: nat, n: nat :: i <= k <= j && Strays(f, flags, text, i, k, many, n) && LeavesBy(f, flags, text, k, w, j)
  }

  /** Nothing is left of a single instruction, so the blocks read nothing. */
  lemma SingleRetried(f: Fragment, flags: Flags, text: seq<byte>, i: nat, w: Way, j: nat, many: bool)
    requires |f.code| <= 1
    ensures Retried(f, flags, text, i, w, j, many) <==> w == Jump && i == j <= |text|
  {
    hide Strays;
    if Retried(f, flags, text, i, w, j, many) {
      var k: nat, n: nat :| i <= k <= j && Strays(f, flags, text, i, k, many, n) && LeavesBy(f, flags, text, k, w, j);
      SingleStrays(f, flags, text, i, k, many, n);
    }
    if w == Jump && i == j <= |text| {
      RetriedNow(f, flags, text, i, w, j, many);
    }
  }

  lemma {:induction false} SingleStrays(f: Fragment, flags: Flags, text: seq<byte>, i: nat, j: nat, many: bool, n: nat)
    requires |f.code| <= 1 && Strays(f, flags, text, i, j, many, n)
    ensures i == j <= |text|
    decreases n
  {
    if n > 0 {
      var e, k := FirstStray(f, flags, text, i, j, many, n);
      SingleStrays(f, flags, text, k, j, many, n - 1);
    }
  }

  lemma {:induction false} LeadsRange(m: Machine, s: State, t: State, k: nat)
    requires Leads(m, s, t, k) && s.pos <= |m.text|
    ensures s.pos <= t.pos <= |m.text|
    decreases k
  {
    if k > 0 {
      var n :| n in Next(m, s) && Leads(m, n, t, k - 1);
      StepRange(m, s, n);
      LeadsRange(m, n, t, k - 1);
    }
  }

  lemma StepRange(m: Machine, s: State, n: State)
    requires n in Next(m, s)
    ensures s.pos <= n.pos <= |m.text|
  {
  }

  lemma CutRange(f: Fragment, flags: Flags, text: seq<byte>, i: nat, e: Ending, j: nat)
    requires ReadsCut(f, flags, text, i, e, j)
    ensures i <= j <= |text| && f.code != []
  {
    if |f.code| > 1 {
      var m := CutMachine(f, flags, text);
      var s, t := State(0, i), State(EndingPc(e, |f.code|), j);
      var k: nat :| Leads(m, s, t, k);
      var n :| n in Next(m, s) && Leads(m, n, t, k - 1);
      StepRange(m, s, n);
      LeadsRange(m, n, t, k - 1);
    }
  }

  lemma {:induction false} StraysRange(f: Fragment, flags: Flags, text: seq<byte>, i: nat, j: nat, many: bool, n: nat)
    requires Strays(f, flags, text, i, j, many, n)
    ensures i <= j <= |text|
    decreases n
  {
    hide ReadsCut;
    if n > 0 {
      var e, k := FirstStray(f, flags, text, i, j, many, n);
      StraysRange(f, flags, text, k, j, many, n - 1);
    }
  }

  lemma FirstStray(f: Fragment, flags: Flags, text: seq<byte>, i: nat, j: nat, many: bool, n: nat)
    returns (e: Ending, k: nat)
    requires n > 0 && Strays(f, flags, text, i, j, many, n)
    ensures i <= k <= j && ReadsCut(f, flags, text, i, e, k) && (many || e == Back)
    ensures Strays(f, flags, text, k, j, many, n - 1)
  {
    hide ReadsCut;
    k, e :| i <= k <= j && ReadsCut(f, flags, text, i, e, k) && (many || e == Back)
            && Strays(f, flags, text, k, j, many, n - 1);
  }

  lemma RetriedNow(f: Fragment, flags: Flags, text: seq<byte>, i: nat, w: Way, j: nat, many: bool)
    requires i <= |text| && i <= j && LeavesBy(f, flags, text, i, w, j)
    ensures Retried(f, flags, text, i, w, j, many)
  {
    hide LeavesBy;
    assert Strays(f, flags, text, i, i, many, 0);
  }

  lemma RetriedLater(f: Fragment, flags: Flags, text: seq<byte>, i: nat, e: Ending, k: nat, w: Way, j: nat, many: bool)
    requires ReadsCut(f, flags, text, i, e, k) && (many || e == Back) && Retried(f, flags, text, k, w, j, many)
    ensures Retried(f, flags, text, i, w, j, many)
  {
    hide ReadsCut, LeavesBy;
    CutRange(f, flags, text, i, e, k);
    var k1: nat, n: nat :| k <= k1 <= j && Strays(f, flags, text, k, k1, many, n) && LeavesBy(f, flags, text, k1, w, j);
    assert Strays(f, flags, text, i, k1, many, n + 1);
  }

  // ----- a shortened item in a program

  predicate CutAt(m: Machine, base: int, ahead: int, back: int, f: Fragment) {
    && f.code != [] && 0 <= base && base + |f.code| - 1 <= |m.program|
    && forall i :: 0 <= i < |f.code| - 1 ==> m.program[base + i] == PutCut(f.code[i], |f.code| - 1, base, ahead, back)
  }

  /** Where a state of the shortened item is in the program. */
  function CutPc(pc: int, base: int, ahead: int, back: int): int {
    if pc == AHEAD then ahead else if pc == BACK then back else base + pc
  }

  function CutState(s: State, base: int, ahead: int, back: int): State {
    s.(pc := CutPc(s.pc, base, ahead, back))
  }

  lemma CutStep(m: Machine, base: int, ahead: int, back: int, f: Fragment, pc: nat, i: nat)
    requires CutAt(m, base, ahead, back, f) && Compact(f) && pc < |f.code| - 1 && i <= |m.text|
    ensures var c, s := CutMachine(f, m.flags, m.text), State(pc, i);
            && !IsMatch(m, State(base + pc, i)) && |Next(m, State(base + pc, i))| == |Next(c, s)|
            && (forall x :: 0 <= x < |Next(c, s)| ==>
                  && Next(m, State(base + pc, i))[x] == CutState(Next(c, s)[x], base, ahead, back)
                  && AHEAD <= Next(c, s)[x].pc <= |f.code| - 1)
  {
    assert m.program[base + pc] == PutCut(f.code[pc], |f.code| - 1, base, ahead, back);
    assert InstFits(f.code[pc], |f.code|);
  }

  lemma {:induction false} CutSound(m: Machine, base: int, ahead: int, back: int, f: Fragment, pc: nat, i: nat,
                                    k: nat, end: nat)
    returns (e: Ending, j: nat, k1: nat, k': nat)
    requires CutAt(m, base, ahead, back, f) && Compact(f) && pc < |f.code| && i <= |m.text|
    requires Accepts(m, State(base + pc, i), k, end)
    ensures i <= j <= |m.text| && k' <= k
    ensures Leads(CutMachine(f, m.flags, m.text), State(pc, i), State(EndingPc(e, |f.code|), j), k1)
    ensures Accepts(m, State(CutPc(EndingPc(e, |f.code|), base, ahead, back), j), k', end)
    decreases k
  {
    hide CutAt, Compact, Next, IsMatch;
    if pc == |f.code| - 1 {
      e, j, k1, k' := Past, i, 0, k;
    } else {
      var c, s := CutMachine(f, m.flags, m.text), State(pc, i);
      CutStep(m, base, ahead, back, f, pc, i);
      var n :| n in Next(m, State(base + pc, i)) && Accepts(m, n, k - 1, end);
      var x :| 0 <= x < |Next(m, State(base + pc, i))| && Next(m, State(base + pc, i))[x] == n;
      var t := Next(c, s)[x];
      StepRange(c, s, t);
      if t.pc == AHEAD {
        e, j, k1, k' := Ahead, t.pos, 0, k - 1;
      } else if t.pc == BACK {
        e, j, k1, k' := Back, t.pos, 0, k - 1;
      } else {
        e, j, k1, k' := CutSound(m, base, ahead, back, f, t.pc, t.pos, k - 1, end);
      }
      k1 := k1 + 1;
      assert t in Next(c, s);
    }
  }

  lemma CutStepBack(m: Machine, base: int, ahead: int, back: int, f: Fragment, pc: int, i: nat, t: State, k: nat, end: nat)
    requires CutAt(m, base, ahead, back, f) && Compact(f) && i <= |m.text|
    requires t in Next(CutMachine(f, m.flags, m.text), State(pc, i)) && Accepts(m, CutState(t, base, ahead, back), k, end)
    ensures 0 <= pc < |f.code| - 1 && Accepts(m, State(base + pc, i), k + 1, end)
    ensures AHEAD <= t.pc < |f.code| && t.pos <= |m.text|
  {
    hide CutAt, Compact, Accepts, IsMatch;
    var c, s := CutMachine(f, m.flags, m.text), State(pc, i);
    assert Valid(c, s);
    hide Next;
    CutStep(m, base, ahead, back, f, pc, i);
    StepRange(c, s, t);
    var x :| 0 <= x < |Next(c, s)| && Next(c, s)[x] == t;
    AcceptStep(m, State(base + pc, i), CutState(t, base, ahead, back), k, end);
  }

  lemma {:induction false} CutRuns(m: Machine, base: int, ahead: int, back: int, f: Fragment, s: State,
                                   e: Ending, j: nat, k1: nat, k: nat, end: nat)
    returns (k': nat)
    requires CutAt(m, base, ahead, back, f) && Compact(f) && s.pos <= |m.text|
    requires Leads(CutMachine(f, m.flags, m.text), s, State(EndingPc(e, |f.code|), j), k1)
    requires Accepts(m, State(CutPc(EndingPc(e, |f.code|), base, ahead, back), j), k, end)
    ensures Accepts(m, CutState(s, base, ahead, back), k', end)
    decreases k1
  {
    hide Compact, Accepts, IsMatch, Next, CutMachine, EndingPc;
    k' := k;
    if k1 > 0 {
      var t :| t in Next(CutMachine(f, m.flags, m.text), s)
               && Leads(CutMachine(f, m.flags, m.text), t, State(EndingPc(e, |f.code|), j), k1 - 1);
      StepRange(CutMachine(f, m.flags, m.text), s, t);
      CutText(f, m.flags, m.text);
      k' := CutRuns(m, base, ahead, back, f, t, e, j, k1 - 1, k, end);
      CutStepBack(m, base, ahead, back, f, s.pc, s.pos, t, k', end);
      k' := k' + 1;
    }
  }

  lemma CutText(f: Fragment, flags: Flags, text: seq<byte>)
    requires f.code != []
    ensures CutMachine(f, flags, text).text == text
  {
  }

  // ----- the blocks in a program

  /** Where block `t` begins, counted from 1. */
  function BlockStart(f: Fragment, t: nat): nat
    requires t > 0
  {
    |RetriesOf(f, t - 1).code|
  }

  lemma BlockStarts(f: Fragment, t: nat)
    requires Compact(f) && t > 0
    ensures BlockStart(f, 1) == |f.code| + 1 && BlockStart(f, t + 1) == BlockStart(f, t) + |f.code| + 1
  {
    hide RetriesOf, Compact;
    RetriesCompact(f, t);
    FirstRetry(f);
    OptionSize(f);
  }

  lemma FirstRetry(f: Fragment)
    ensures RetriesOf(f, 0) == OptionOf(f)
  {
  }

  lemma OptionSize(f: Fragment)
    ensures |OptionOf(f).code| == |f.code| + 1
  {
  }

  /** Block `t` of `k`: it leads on to `next`, and back to the first one. */
  predicate BlockHolds(m: Machine, f: Fragment, b: int, next: int, first: int) {
    && InstAt(m, b, SplitTo(if f.code == [] then next else b + 1, next))
    && (f.code != [] ==> InstAt(m, b + 1, SplitTo(if |f.code| == 1 then next else b + 2, first))
                         && CutAt(m, b + 2, next, first, f))
  }

  lemma BlockPart(f: Fragment, n: nat, i: nat, base: nat, exit: int)
    requires Compact(f) && i <= |f.code|
    ensures Put(BlockOf(f, n)[i], base, exit)
         == if i == 0 then SplitTo(if f.code == [] then exit else base + n + 1, exit)
            else if i == 1 then SplitTo(if |f.code| == 1 then exit else base + n + 2, base + |f.code| + 1)
            else PutCut(f.code[i - 2], |f.code| - 1, base + n + 2, exit, base + |f.code| + 1)
  {
    if i > 1 {
      assert InstFits(f.code[i - 2], |f.code|);
    }
  }

  lemma LastBlock(m: Machine, base: nat, exit: int, f: Fragment, k: nat)
    requires Compact(f) && k > 0 && Holds(m, base, exit, RetriesOf(f, k))
    ensures var last := base + BlockStart(f, k);
            && Holds(m, base, last, RetriesOf(f, k - 1)) && BlockHolds(m, f, last, exit, base + |f.code| + 1)
  {
    hide RetriesOf, BlockOf, Compact;
    var g, r := RetriesOf(f, k - 1), RetriesOf(f, k);
    var n := |g.code|;
    RetriesCompact(f, k - 1);
    RetriesCompact(f, k);
    forall i | 0 <= i < n
      ensures m.program[base + i] == Put(g.code[i], base, base + n)
    {
      RetriesPart(f, k, i);
      assert m.program[base + i] == Put(r.code[i], base, exit);
      FitsIn(g, i);
      PutTwice(g.code[i], n, 0, n, base, exit);
    }
    forall i | 0 <= i <= |f.code|
      ensures m.program[base + n + i] == Put(BlockOf(f, n)[i], base, exit)
    {
      RetriesPart(f, k, n + i);
      assert m.program[base + (n + i)] == Put(r.code[n + i], base, exit);
    }
    BlockPart(f, n, 0, base, exit);
    assert m.program[base + n + 0] == Put(BlockOf(f, n)[0], base, exit);
    if f.code != [] {
      BlockPart(f, n, 1, base, exit);
      assert m.program[base + n + 1] == Put(BlockOf(f, n)[1], base, exit);
      forall i | 0 <= i < |f.code| - 1
        ensures m.program[base + n + 2 + i] == PutCut(f.code[i], |f.code| - 1, base + n + 2, exit, base + |f.code| + 1)
      {
        BlockPart(f, n, i + 2, base, exit);
        assert m.program[base + n + (i + 2)] == Put(BlockOf(f, n)[i + 2], base, exit);
      }
    }
  }

  lemma FitsIn(f: Fragment, i: nat)
    requires Compact(f) && i < |f.code|
    ensures InstFits(f.code[i], |f.code|)
  {
  }

  /** Where block `t` of `k` leads on. */
  function NextBlock(f: Fragment, base: nat, exit: int, k: nat, t: nat): int
    requires 0 < t
  {
    if t == k then exit else base + BlockStart(f, t + 1)
  }

  lemma {:induction false} BlocksHold(m: Machine, base: nat, exit: int, f: Fragment, k: nat, t: nat)
    requires Compact(f) && 0 < t <= k && Holds(m, base, exit, RetriesOf(f, k))
    ensures BlockHolds(m, f, base + BlockStart(f, t), NextBlock(f, base, exit, k, t), base + |f.code| + 1)
    ensures Holds(m, base, base + |f.code| + 1, OptionOf(f))
    decreases k
  {
    hide Holds, BlockHolds, RetriesOf, BlockOf, Compact, BlockStart, OptionOf;
    LastBlock(m, base, exit, f, k);
    FirstRetry(f);
    BlockStarts(f, k);
    if t < k {
      BlocksHold(m, base, base + BlockStart(f, k), f, k - 1, t);
    } else if k > 1 {
      BlocksHold(m, base, base + BlockStart(f, k), f, k - 1, 1);
    }
  }

  // ----- runs through the blocks

  /** A run from block `t` reads what `Retried` says, and leaves the last block. */
  lemma {:induction false} RetriesPass(m: Machine, f: Fragment, base: nat, exit: int, k: nat, t: nat, i: nat,
                                       steps: nat, end: nat)
    returns (w: Way, j: nat, steps': nat)
    requires Compact(f) && 0 < t <= k && Holds(m, base, exit, RetriesOf(f, k)) && i <= |m.text|
    requires Accepts(m, State(base + BlockStart(f, t), i), steps, end)
    ensures i <= j <= |m.text| && steps' <= steps && Retried(f, m.flags, m.text, i, w, j, k > 1)
    ensures Accepts(m, State(Outlet(RetriesOf(f, k), w, base, exit), j), steps', end)
    decreases steps, 0
  {
    hide Accepts, Holds, CutAt, RetriesOf, Compact, BlockStart, ReadsCut, Retried, LeavesBy, Leads;
    var b, next, first := base + BlockStart(f, t), NextBlock(f, base, exit, k, t), base + |f.code| + 1;
    BlocksHold(m, base, exit, f, k, t);
    BlockStarts(f, t);
    SplitStep(m, b, i, if f.code == [] then next else b + 1, next);
    if Accepts(m, State(next, i), steps - 1, end) {
      w, j, steps' := Onward(m, f, base, exit, k, t, i, steps - 1, end);
    } else {
      SplitStep(m, b + 1, i, if |f.code| == 1 then next else b + 2, first);
      if Accepts(m, State(first, i), steps - 2, end) {
        w, j, steps' := RetriesPass(m, f, base, exit, k, 1, i, steps - 2, end);
      } else if |f.code| == 1 {
        w, j, steps' := Onward(m, f, base, exit, k, t, i, steps - 2, end);
      } else {
        var e, j1, k1, steps1 := CutSound(m, b + 2, next, first, f, 0, i, steps - 2, end);
        CutRead(f, m.flags, m.text, i, e, j1, k1);
        if e == Back {
          w, j, steps' := RetriesPass(m, f, base, exit, k, 1, j1, steps1, end);
          RetriedLater(f, m.flags, m.text, i, e, j1, w, j, k > 1);
        } else if t < k {
          LandsOn(f, b, next, first, e);
          w, j, steps' := RetriesPass(m, f, base, exit, k, t + 1, j1, steps1, end);
          RetriedLater(f, m.flags, m.text, i, e, j1, w, j, k > 1);
        } else {
          w, j, steps' := if e == Past then Fall else Jump, j1, steps1;
          LeavesForward(f, m.flags, m.text, i, e, j1);
          RetriedNow(f, m.flags, m.text, i, w, j, k > 1);
          OutletOfLast(f, base, exit, k);
        }
      }
    }
  }

  /** On to the next block, or out of the last one. */
  lemma {:induction false} Onward(m: Machine, f: Fragment, base: nat, exit: int, k: nat, t: nat, i: nat,
                                  steps: nat, end: nat)
    returns (w: Way, j: nat, steps': nat)
    requires Compact(f) && 0 < t <= k && Holds(m, base, exit, RetriesOf(f, k)) && i <= |m.text|
    requires Accepts(m, State(NextBlock(f, base, exit, k, t), i), steps, end)
    ensures i <= j <= |m.text| && steps' <= steps && Retried(f, m.flags, m.text, i, w, j, k > 1)
    ensures Accepts(m, State(Outlet(RetriesOf(f, k), w, base, exit), j), steps', end)
    decreases steps, 1
  {
    hide Accepts, Holds, RetriesOf, Compact, BlockStart, ReadsCut, Retried;
    if t < k {
      w, j, steps' := RetriesPass(m, f, base, exit, k, t + 1, i, steps, end);
    } else {
      w, j, steps' := Jump, i, steps;
      RetriedNow(f, m.flags, m.text, i, w, j, k > 1);
    }
  }

  lemma CutRead(f: Fragment, flags: Flags, text: seq<byte>, i: nat, e: Ending, j: nat, k: nat)
    requires |f.code| > 1 && Leads(CutMachine(f, flags, text), State(0, i), State(EndingPc(e, |f.code|), j), k)
    ensures ReadsCut(f, flags, text, i, e, j)
  {
  }

  /** Both forward endings of a block but the last lead to the next one. */
  lemma LandsOn(f: Fragment, b: int, next: int, first: int, e: Ending)
    requires |f.code| > 1 && e != Back && next == b + |f.code| + 1
    ensures CutPc(EndingPc(e, |f.code|), b + 2, next, first) == next
  {
  }

  lemma LeavesForward(f: Fragment, flags: Flags, text: seq<byte>, i: nat, e: Ending, j: nat)
    requires e != Back && ReadsCut(f, flags, text, i, e, j)
    ensures LeavesBy(f, flags, text, i, if e == Past then Fall else Jump, j)
  {
    hide ReadsCut;
  }

  lemma OutletOfLast(f: Fragment, base: nat, exit: int, k: nat)
    requires Compact(f) && k > 0
    ensures Outlet(RetriesOf(f, k), Fall, base, exit) == base + BlockStart(f, k) + |f.code| + 1
    ensures Outlet(RetriesOf(f, k), Jump, base, exit) == exit
  {
    hide RetriesOf, Compact;
    RetriesCompact(f, k);
  }

  lemma {:induction false} SkipBack(m: Machine, f: Fragment, base: nat, exit: int, k: nat, t: nat, i: nat,
                                    steps: nat, end: nat)
    returns (steps': nat)
    requires Compact(f) && 0 < t <= k && Holds(m, base, exit, RetriesOf(f, k)) && i <= |m.text|
    requires Accepts(m, State(NextBlock(f, base, exit, k, t), i), steps, end)
    ensures Accepts(m, State(base + BlockStart(f, 1), i), steps', end)
    decreases t
  {
    hide Accepts, Holds, RetriesOf, Compact, BlockStart;
    var b, next := base + BlockStart(f, t), NextBlock(f, base, exit, k, t);
    BlocksHold(m, base, exit, f, k, t);
    SplitStep(m, b, i, if f.code == [] then next else b + 1, next);
    steps' := steps + 1;
    if t > 1 {
      steps' := SkipBack(m, f, base, exit, k, t - 1, i, steps', end);
    }
  }

  /** A shortened item in block `t`, from the first block on. */
  lemma CutFromFirst(m: Machine, f: Fragment, base: nat, exit: int, k: nat, t: nat, i: nat, e: Ending, j: nat,
                     steps: nat, end: nat)
    returns (steps': nat)
    requires Compact(f) && 0 < t <= k && Holds(m, base, exit, RetriesOf(f, k)) && i <= |m.text|
    requires ReadsCut(f, m.flags, m.text, i, e, j)
    requires var next := NextBlock(f, base, exit, k, t);
             Accepts(m, State(match e
                              case Past => base + BlockStart(f, t) + |f.code| + 1
                              case Ahead => next
                              case Back => base + |f.code| + 1, j), steps, end)
    ensures Accepts(m, State(base + BlockStart(f, 1), i), steps', end)
  {
    hide Accepts, Holds, RetriesOf, Compact, BlockStart, CutAt, Leads;
    var b, next, first := base + BlockStart(f, t), NextBlock(f, base, exit, k, t), base + |f.code| + 1;
    BlocksHold(m, base, exit, f, k, t);
    CutRange(f, m.flags, m.text, i, e, j);
    SplitStep(m, b, i, b + 1, next);
    SplitStep(m, b + 1, i, if |f.code| == 1 then next else b + 2, first);
    if |f.code| == 1 {
      steps' := steps + 2;
    } else {
      var k1 := CutSteps(f, m.flags, m.text, i, e, j);
      steps' := CutRuns(m, b + 2, next, first, f, State(0, i), e, j, k1, steps, end);
      steps' := steps' + 2;
    }
    if t > 1 {
      BlockStarts(f, t - 1);
      steps' := SkipBack(m, f, base, exit, k, t - 1, i, steps', end);
    }
  }

  lemma CutSteps(f: Fragment, flags: Flags, text: seq<byte>, i: nat, e: Ending, j: nat) returns (k: nat)
    requires |f.code| > 1 && ReadsCut(f, flags, text, i, e, j)
    ensures Leads(CutMachine(f, flags, text), State(0, i), State(EndingPc(e, |f.code|), j), k)
  {
    k :| Leads(CutMachine(f, flags, text), State(0, i), State(EndingPc(e, |f.code|), j), k);
  }

  lemma {:induction false} StraysRun(m: Machine, f: Fragment, base: nat, exit: int, k: nat, i: nat, j: nat, n: nat,
                                     steps: nat, end: nat)
    returns (steps': nat)
    requires Compact(f) && k > 0 && Holds(m, base, exit, RetriesOf(f, k))
    requires Strays(f, m.flags, m.text, i, j, k > 1, n) && Accepts(m, State(base + BlockStart(f, 1), j), steps, end)
    ensures Accepts(m, State(base + BlockStart(f, 1), i), steps', end)
    decreases n
  {
    hide Accepts, Holds, RetriesOf, Compact, BlockStart, ReadsCut;
    steps' := steps;
    if n > 0 {
      var e, j1 := FirstStray(f, m.flags, m.text, i, j, k > 1, n);
      CutRange(f, m.flags, m.text, i, e, j1);
      steps' := StraysRun(m, f, base, exit, k, j1, j, n - 1, steps, end);
      BlockStarts(f, 1);
      if e != Back {
        steps' := SecondFromFirst(m, f, base, exit, k, j1, steps', end);
      }
      steps' := CutFromFirst(m, f, base, exit, k, 1, i, e, j1, steps', end);
    }
  }

  /** The second block leads back to the first, by way of its copied SPLIT. */
  lemma SecondFromFirst(m: Machine, f: Fragment, base: nat, exit: int, k: nat, i: nat, steps: nat, end: nat)
    returns (steps': nat)
    requires Compact(f) && k > 1 && Holds(m, base, exit, RetriesOf(f, k)) && i <= |m.text| && f.code != []
    requires Accepts(m, State(base + BlockStart(f, 1), i), steps, end)
    ensures Accepts(m, State(base + BlockStart(f, 2), i), steps', end)
  {
    hide Accepts, Holds, RetriesOf, Compact, BlockStart, CutAt;
    var b, next := base + BlockStart(f, 2), NextBlock(f, base, exit, k, 2);
    BlocksHold(m, base, exit, f, k, 2);
    BlockStarts(f, 1);
    SplitStep(m, b, i, b + 1, next);
    SplitStep(m, b + 1, i, if |f.code| == 1 then next else b + 2, base + |f.code| + 1);
    steps' := steps + 2;
  }

  /** What `Retried` says is read by a run from the first block. */
  lemma RetriesRun(m: Machine, f: Fragment, base: nat, exit: int, k: nat, i: nat, w: Way, j: nat, steps: nat, end: nat)
    returns (steps': nat)
    requires Compact(f) && k > 0 && Holds(m, base, exit, RetriesOf(f, k))
    requires Retried(f, m.flags, m.text, i, w, j, k > 1)
    requires Accepts(m, State(Outlet(RetriesOf(f, k), w, base, exit), j), steps, end)
    ensures Accepts(m, State(base + BlockStart(f, 1), i), steps', end)
  {
    hide Accepts, Holds, RetriesOf, Compact, BlockStart, ReadsCut, Strays, Outlet;
    var j1: nat, n: nat :| i <= j1 <= j && Strays(f, m.flags, m.text, i, j1, k > 1, n)
                           && LeavesBy(f, m.flags, m.text, j1, w, j);
    StraysRange(f, m.flags, m.text, i, j1, k > 1, n);
    OutletOfLast(f, base, exit, k);
    if w == Jump && j1 == j {
      steps' := SkipBack(m, f, base, exit, k, k, j, steps, end);
    } else {
      steps' := CutFromFirst(m, f, base, exit, k, k, j1, if w == Fall then Past else Ahead, j, steps, end);
    }
    steps' := StraysRun(m, f, base, exit, k, i, j1, n, steps', end);
  }
}
