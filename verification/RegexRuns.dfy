/**
 Accepting runs of the matcher's step graph, and fragments that stand somewhere in a program
 (lib/libc_regex.c:801-903).
 */
module RegexRuns {
  import opened RegexVm
  import opened RegexSyntax
  import opened RegexBuild
  import opened RegexCode
  import opened RegexLayout

  /** How an item is left, by falling off its end or by a jump to its end, and how the next one is entered then. */
  datatype Way = Fall | Jump

  // ----- accepting runs

  /** `k` steps lead from `s` to a MATCH at position `end`. */
  ghost predicate Accepts(m: Machine, s: State, k: nat, end: nat)
    decreases k
  {
    if k == 0 then IsMatch(m, s) && s.pos == end
    else exists n :: n in Next(m, s) && Accepts(m, n, k - 1, end)
  }

  lemma AcceptStep(m: Machine, s: State, n: State, k: nat, end: nat)
    requires n in Next(m, s) && Accepts(m, n, k, end)
    ensures Accepts(m, s, k + 1, end)
  {
  }

  predicate InstAt(m: Machine, pc: int, inst: Inst) {
    0 <= pc < |m.program| && m.program[pc] == inst
  }

  /** A run from a SPLIT goes on at one of its two targets. */
  lemma SplitStep(m: Machine, pc: int, i: nat, x: int, y: int)
    requires InstAt(m, pc, SplitTo(x, y)) && i <= |m.text|
    ensures forall k: nat, end: nat :: Accepts(m, State(pc, i), k, end) ==>
              k > 0 && (Accepts(m, State(x, i), k - 1, end) || Accepts(m, State(y, i), k - 1, end))
    ensures forall k: nat, end: nat :: Accepts(m, State(x, i), k, end) ==> Accepts(m, State(pc, i), k + 1, end)
    ensures forall k: nat, end: nat :: Accepts(m, State(y, i), k, end) ==> Accepts(m, State(pc, i), k + 1, end)
  {
    var s := State(pc, i);
    assert Next(m, s) == [State(x, i), State(y, i)];
    forall k: nat, end: nat | Accepts(m, State(x, i), k, end)
      ensures Accepts(m, s, k + 1, end)
    {
      AcceptStep(m, s, State(x, i), k, end);
    }
    forall k: nat, end: nat | Accepts(m, State(y, i), k, end)
      ensures Accepts(m, s, k + 1, end)
    {
      AcceptStep(m, s, State(y, i), k, end);
    }
  }

  /** A JMP goes to its target, a SAVE to the next instruction. */
  lemma OneStep(m: Machine, pc: int, i: nat, to: int)
    requires InstAt(m, pc, JmpTo(to)) || (InstAt(m, pc, Plain(Save)) && to == pc + 1)
    requires i <= |m.text|
    ensures forall k: nat, end: nat :: Accepts(m, State(pc, i), k, end) ==> k > 0 && Accepts(m, State(to, i), k - 1, end)
    ensures forall k: nat, end: nat :: Accepts(m, State(to, i), k, end) ==> Accepts(m, State(pc, i), k + 1, end)
  {
    var s := State(pc, i);
    assert Next(m, s) == [State(to, i)];
    forall k: nat, end: nat | Accepts(m, State(to, i), k, end)
      ensures Accepts(m, s, k + 1, end)
    {
      AcceptStep(m, s, State(to, i), k, end);
    }
  }

  // ----- fragments in a program

  /** The fragment stands at `base`, and its exits lead to `exit`. */
  predicate Holds(m: Machine, base: int, exit: int, f: Fragment) {
    && 0 <= base && base + |f.code| <= |m.program|
    && forall i :: 0 <= i < |f.code| ==> m.program[base + i] == Put(f.code[i], base, exit)
  }

  /** Where the fragment is entered, and where it is left. */
  function Inlet(f: Fragment, v: Way, base: int, exit: int): int {
    if v == Fall then base else Entrance(f, base, exit)
  }

  function Outlet(f: Fragment, w: Way, base: int, exit: int): int {
    if w == Fall then base + |f.code| else exit
  }

  lemma PutTwice(inst: Inst, n: nat, base: nat, exit: int, base': int, exit': int)
    requires InstFits(inst, n) && exit >= EXIT
    ensures Put(Put(inst, base, exit), base', exit') == Put(inst, base + base', Ref(exit, base', exit'))
  {
  }

  lemma ThenHolds(m: Machine, base: int, exit: int, f: Fragment, g: Fragment)
    requires Compact(f) && Compact(g) && Holds(m, base, exit, Then(f, g))
    ensures var after := base + |f.code|; var mid := Entrance(g, after, exit);
            && Holds(m, base, mid, f) && Holds(m, after, exit, g)
            && (forall v :: Inlet(Then(f, g), v, base, exit) == Inlet(f, v, base, mid))
            && (forall u :: Outlet(f, u, base, mid) == Inlet(g, u, after, exit))
            && (forall w :: Outlet(Then(f, g), w, base, exit) == Outlet(g, w, after, exit))
  {
    var n := |f.code|;
    var t := Then(f, g);
    forall i | 0 <= i < n
      ensures m.program[base + i] == Put(f.code[i], base, Entrance(g, base + n, exit))
    {
      assert m.program[base + i] == Put(t.code[i], base, exit);
      PutTwice(f.code[i], n, 0, Entrance(g, n, EXIT), base, exit);
    }
    forall i | 0 <= i < |g.code|
      ensures m.program[base + n + i] == Put(g.code[i], base + n, exit)
    {
      assert m.program[base + (n + i)] == Put(t.code[n + i], base, exit);
      PutTwice(g.code[i], |g.code|, n, EXIT, base, exit);
    }
  }

  lemma PlusHolds(m: Machine, base: int, exit: int, f: Fragment)
    requires Compact(f) && Holds(m, base, exit, PlusOf(f))
    ensures var split := base + |f.code|;
            && Holds(m, base, split, f) && InstAt(m, split, SplitTo(base, exit))
            && (forall v :: Inlet(PlusOf(f), v, base, exit) == Inlet(f, v, base, split))
            && (forall w :: Outlet(f, w, base, split) == split)
            && Outlet(PlusOf(f), Jump, base, exit) == exit
  {
    var n := |f.code|;
    forall i | 0 <= i < n
      ensures m.program[base + i] == Put(f.code[i], base, base + n)
    {
      assert m.program[base + i] == Put(PlusOf(f).code[i], base, exit);
      PutTwice(f.code[i], n, 0, n, base, exit);
    }
    assert m.program[base + n] == Put(PlusOf(f).code[n], base, exit);
  }

  lemma OptionHolds(m: Machine, base: int, exit: int, f: Fragment)
    requires Compact(f) && Holds(m, base, exit, OptionOf(f))
    ensures InstAt(m, base, SplitTo(if f.code == [] then exit else base + 1, exit)) && Holds(m, base + 1, exit, f)
    ensures Inlet(OptionOf(f), Fall, base, exit) == base
    ensures Inlet(OptionOf(f), Jump, base, exit) == Inlet(f, Jump, base + 1, exit)
    ensures forall w :: Outlet(OptionOf(f), w, base, exit) == Outlet(f, w, base + 1, exit)
  {
    var n := |f.code|;
    assert m.program[base + 0] == Put(OptionOf(f).code[0], base, exit);
    forall i | 0 <= i < n
      ensures m.program[base + 1 + i] == Put(f.code[i], base + 1, exit)
    {
      assert m.program[base + (1 + i)] == Put(OptionOf(f).code[1 + i], base, exit);
      PutTwice(f.code[i], n, 1, EXIT, base, exit);
    }
  }

  lemma StarHolds(m: Machine, base: int, exit: int, f: Fragment)
    requires Compact(f) && Holds(m, base, exit, StarOf(f))
    ensures var at, jump := base + 1, base + 1 + |f.code|;
            && InstAt(m, base, SplitTo(base + 1, jump)) && Holds(m, base + 1, jump, f) && InstAt(m, jump, JmpTo(base))
            && (forall w :: Outlet(f, w, at, jump) == jump)
            && Inlet(StarOf(f), Fall, base, exit) == base
            && Inlet(StarOf(f), Jump, base, exit) == Inlet(f, Jump, base + 1, jump)
  {
    var n := |f.code|;
    assert m.program[base + 0] == Put(StarOf(f).code[0], base, exit);
    assert m.program[base + (n + 1)] == Put(StarOf(f).code[n + 1], base, exit);
    forall i | 0 <= i < n
      ensures m.program[base + 1 + i] == Put(f.code[i], base + 1, base + 1 + n)
    {
      assert m.program[base + (1 + i)] == Put(StarOf(f).code[1 + i], base, exit);
      PutTwice(f.code[i], n, 1, n + 1, base, exit);
    }
  }

  lemma CaptureHolds(m: Machine, base: int, exit: int, f: Fragment)
    requires Compact(f) && Holds(m, base, exit, CaptureOf(f))
    ensures var at, save := base + 1, base + 1 + |f.code|;
            && InstAt(m, base, Plain(Save)) && Holds(m, base + 1, save, f) && InstAt(m, save, Plain(Save))
            && (forall w :: Outlet(f, w, at, save) == save)
            && (forall v :: Inlet(CaptureOf(f), v, base, exit) == base)
            && Outlet(CaptureOf(f), Fall, base, exit) == save + 1
            && Inlet(f, Fall, base + 1, save) == base + 1
  {
    var n := |f.code|;
    assert m.program[base + 0] == Put(CaptureOf(f).code[0], base, exit);
    assert m.program[base + (n + 1)] == Put(CaptureOf(f).code[n + 1], base, exit);
    forall i | 0 <= i < n
      ensures m.program[base + 1 + i] == Put(f.code[i], base + 1, base + 1 + n)
    {
      assert m.program[base + (1 + i)] == Put(CaptureOf(f).code[1 + i], base, exit);
      PutTwice(f.code[i], n, 1, n + 1, base, exit);
    }
  }

  lemma BranchHolds(m: Machine, base: int, exit: int, f: Fragment, others: Fragment)
    requires Compact(f) && Compact(others) && Holds(m, base, exit, BranchOf(f, others))
    ensures var at, jump := base + 1, base + 1 + |f.code|;
            && InstAt(m, base, SplitTo(base + 1, if others.code == [] then exit else jump + 1))
            && Holds(m, base + 1, jump, f) && InstAt(m, jump, JmpTo(exit)) && Holds(m, jump + 1, exit, others)
            && (forall w :: Outlet(f, w, at, jump) == jump)
            && Inlet(BranchOf(f, others), Fall, base, exit) == base
            && Inlet(BranchOf(f, others), Jump, base, exit) == Inlet(f, Jump, base + 1, jump)
  {
    var n, b := |f.code|, BranchOf(f, others);
    assert m.program[base + 0] == Put(b.code[0], base, exit);
    assert m.program[base + (n + 1)] == Put(b.code[n + 1], base, exit);
    forall i | 0 <= i < n
      ensures m.program[base + 1 + i] == Put(f.code[i], base + 1, base + 1 + n)
    {
      assert m.program[base + (1 + i)] == Put(b.code[1 + i], base, exit);
      PutTwice(f.code[i], n, 1, n + 1, base, exit);
    }
    forall i | 0 <= i < |others.code|
      ensures m.program[base + n + 2 + i] == Put(others.code[i], base + n + 2, exit)
    {
      assert m.program[base + (n + 2 + i)] == Put(b.code[n + 2 + i], base, exit);
      PutTwice(others.code[i], |others.code|, n + 2, EXIT, base, exit);
    }
  }

  lemma SameCode(m: Machine, base: int, exit: int, f: Fragment, g: Fragment)
    requires f.code == g.code && Holds(m, base, exit, f)
    ensures Holds(m, base, exit, g)
  {
    forall i | 0 <= i < |g.code|
      ensures m.program[base + i] == Put(g.code[i], base, exit)
    {
      assert m.program[base + i] == Put(f.code[i], base, exit);
    }
  }

  lemma FrontHolds(m: Machine, base: int, exit: int, f: Fragment)
    requires Compact(f)
    ensures Compact(Front(f)) && (Holds(m, base, exit, Front(f)) <==> Holds(m, base, exit, f))
    ensures forall w :: Outlet(Front(f), w, base, exit) == Outlet(f, w, base, exit)
    ensures f.code != [] ==> forall v :: Inlet(Front(f), v, base, exit) == base
    ensures Inlet(f, Fall, base, exit) == base
  {
    hide Holds, Compact;
    FrontCompact(f);
    Fronted(f);
    if f.code != [] {
      forall v
        ensures Inlet(Front(f), v, base, exit) == base
      {
        hide Inlet;
        FrontInlet(f, v, base, exit);
      }
    }
    if Holds(m, base, exit, f) {
      SameCode(m, base, exit, f, Front(f));
    }
    if Holds(m, base, exit, Front(f)) {
      SameCode(m, base, exit, Front(f), f);
    }
  }

  lemma FrontInlet(f: Fragment, v: Way, base: int, exit: int)
    requires f.code != []
    ensures Inlet(Front(f), v, base, exit) == base
  {
    Fronted(f);
    assert |f.code| > 0;
  }
}
