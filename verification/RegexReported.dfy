/**
 What `regexec` reports for repetitions of a single byte: the longest run, from the leftmost place on
 (lib/libc_regex.c:478-484, 550-583, 847-853, 905-971).
 */
module RegexReported {
  import opened Maybe
  import opened RegexVm
  import opened RegexExec
  import opened RegexSyntax
  import opened RegexBuild
  import opened RegexLaws
  import opened RegexPatterns
  import opened RegexPriority
  import RegexLanguage

  /** An expression for one byte. */
  predicate IsByte(a: Atom) { a.Lit? || a.Dot? || a.Set? }

  function ByteInst(a: Atom): Inst
    requires IsByte(a)
  {
    match a
    case Lit(c) => Plain(Char).(ch := c)
    case Dot => Plain(Any)
    case Set(s) => Plain(Class).(cls := s)
  }

  /** The byte at a position is one of those the expression stands for. */
  predicate TakenAt(m: Machine, a: Atom, pos: nat)
    requires IsByte(a)
  {
    && pos < |m.text|
    && var c := m.text[pos];
       match a
       case Lit(b) => SameByte(c, b, m.flags.icase)
       case Dot => !(m.flags.newline && c == 10)
       case Set(s) => exists b <- s :: SameByte(c, b, m.flags.icase)
  }

  /** All of `[start, end)` is taken. */
  predicate AllTaken(m: Machine, a: Atom, start: nat, end: nat)
    requires IsByte(a)
  {
    forall i: nat :: start <= i < end ==> TakenAt(m, a, i)
  }

  lemma ByteSteps(m: Machine, s: State, a: Atom, n: State)
    requires IsByte(a) && Valid(m, s) && m.program[s.pc] == ByteInst(a)
    ensures n in Next(m, s) <==> TakenAt(m, a, s.pos) && n == State(s.pc + 1, s.pos + 1)
  {
    hide Next;
    StepMeaning(m, s, n);
  }

  /** Where the byte is not taken, no path leads on. */
  lemma ByteDead(m: Machine, s: State, a: Atom)
    requires IsByte(a) && Valid(m, s) && m.program[s.pc] == ByteInst(a) && !TakenAt(m, a, s.pos)
    ensures !Reaches(m, s)
  {
    hide Next, TakenAt;
    forall p | Accepting(m, s, p)
      ensures false
    {
      if |p| > 1 {
        assert p[0 + 1] in Next(m, p[0]);
        ByteSteps(m, s, a, p[1]);
      }
    }
  }

  // ----- c+

  function PlusProgram(a: Atom): seq<Inst>
    requires IsByte(a)
  {
    [Plain(Save), ByteInst(a), SplitTo(1, 3), SaveTo(1), Plain(Match)]
  }

  lemma PlusCompiled(a: Atom)
    requires IsByte(a)
    ensures Compiled(Just(Cons(a, Plus, Empty))) == Output(PlusProgram(a), 0)
  {
    var o := Output([Plain(Save)], 0);
    assert BuildAtom(a, o) == Output([Plain(Save), ByteInst(a)], 0);
    assert BuildItem(a, Plus, o) == Output([Plain(Save), ByteInst(a), SplitTo(1, 3)], 0);
    assert BuildRe(Cons(a, Plus, Empty), o) == BuildRe(Empty, BuildItem(a, Plus, o));
  }

  /** The path that goes round the loop for every byte of `[start, end)`. */
  function PlusPath(start: nat, end: nat): seq<State>
    requires start < end
  {
    seq(2 * (end - start) + 3, i requires 0 <= i => PlusState(start, end, i))
  }

  function PlusState(start: nat, end: nat, i: nat): State
    requires start < end
  {
    if i == 0 then State(0, start)
    else if i == 2 * (end - start) + 1 then State(3, end)
    else if i == 2 * (end - start) + 2 then State(4, end)
    else State(if i % 2 == 1 then 1 else 2, start + i / 2)
  }

  lemma PlusPathRuns(m: Machine, a: Atom, start: nat, end: nat)
    requires IsByte(a) && m.program == PlusProgram(a) && start < end <= |m.text| && AllTaken(m, a, start, end)
    ensures var p := PlusPath(start, end); Accepting(m, State(0, start), p) && CycleFree(p)
  {
    hide Next, TakenAt;
    var p := PlusPath(start, end);
    forall i | 0 <= i < |p| - 1
      ensures p[i + 1] in Next(m, p[i])
    {
      StepMeaning(m, p[i], p[i + 1]);
      if i % 2 == 1 && i < 2 * (end - start) + 1 {
        assert TakenAt(m, a, start + i / 2);
        ByteSteps(m, p[i], a, p[i + 1]);
      }
    }
  }

  lemma PlusPathFound(m: Machine, a: Atom, start: nat, end: nat)
    requires IsByte(a) && m.program == PlusProgram(a) && start < end <= |m.text| && AllTaken(m, a, start, end)
    requires !TakenAt(m, a, end)
    ensures FirstPath(m, State(0, start), {}) == Some(PlusPath(start, end))
  {
    hide FirstPath, Reaches, TakenAt, Accepting, CycleFree;
    var p := PlusPath(start, end);
    PlusPathRuns(m, a, start, end);
    forall k: nat | Declines(m, p, k)
      ensures !Reaches(m, State(m.program[p[k].pc].x, p[k].pos))
    {
      assert k == 2 * (end - start);
      ByteDead(m, State(1, end), a);
    }
    GreedyPath(m, State(0, start), p);
  }

  lemma PlusCaptures(m: Machine, a: Atom, nsub: nat, start: nat, end: nat)
    requires IsByte(a) && m.program == PlusProgram(a) && start < end <= |m.text| && AllTaken(m, a, start, end)
    requires !TakenAt(m, a, end)
    ensures var caps := MatchCaptures(m, start, nsub); |caps| == (nsub + 1) * 2 && caps[0] == start && caps[1] == end
  {
    hide FirstPath, TakenAt, MatchCaptures, SavesTo, PlusState;
    var p, n := PlusPath(start, end), 2 * (end - start);
    PlusPathFound(m, a, start, end);
    forall i | 0 <= i < |p|
      ensures SavesTo(m, p[i], 0) <==> i == 0
      ensures SavesTo(m, p[i], 1) <==> i == n + 1
    {
      PlusSaves(m, a, start, end, i);
    }
    PlusPlaces(start, end);
    ReportedSlot(m, start, nsub, p, 0);
    ReportedSlot(m, start, nsub, p, 1);
    assert LastSave(m, p, 0, 0);
    assert LastSave(m, p, 1, n + 1);
  }

  lemma PlusSaves(m: Machine, a: Atom, start: nat, end: nat, i: nat)
    requires IsByte(a) && m.program == PlusProgram(a) && start < end <= |m.text| && i < 2 * (end - start) + 3
    ensures SavesTo(m, PlusState(start, end, i), 0) <==> i == 0
    ensures SavesTo(m, PlusState(start, end, i), 1) <==> i == 2 * (end - start) + 1
  {
  }

  lemma PlusPlaces(start: nat, end: nat)
    requires start < end
    ensures PlusState(start, end, 0).pos == start && PlusState(start, end, 2 * (end - start) + 1).pos == end
  {
  }

  /** Where the run of taken bytes from `start` on ends. */
  lemma {:induction false} RunEnd(m: Machine, a: Atom, start: nat) returns (end: nat)
    requires IsByte(a) && start <= |m.text|
    ensures start <= end <= |m.text| && AllTaken(m, a, start, end) && !TakenAt(m, a, end)
    ensures TakenAt(m, a, start) ==> start < end
    decreases |m.text| - start
  {
    end := start;
    if TakenAt(m, a, start) {
      hide TakenAt;
      end := RunEnd(m, a, start + 1);
    }
  }

  /** `X+` reports the whole run of bytes of X at the leftmost place where one stands. */
  lemma PlusReports(m: Machine, a: Atom, nsub: nat, start: nat)
    requires IsByte(a) && m.program == Compiled(Just(Cons(a, Plus, Empty))).program && IsLeftmost(m, start)
    ensures var caps := MatchCaptures(m, start, nsub);
            && |caps| == (nsub + 1) * 2 && caps[0] == start < caps[1] <= |m.text| && AllTaken(m, a, start, caps[1])
            && !TakenAt(m, a, caps[1]) && forall i: nat :: i < start ==> !TakenAt(m, a, i)
  {
    hide Compiled, FirstPath, TakenAt, Reaches, MatchCaptures;
    PlusCompiled(a);
    forall i: nat | i <= |m.text|
      ensures Reaches(m, State(0, i)) <==> TakenAt(m, a, i)
    {
      PlusStarts(m, a, i);
    }
    var end := RunEnd(m, a, start);
    PlusCaptures(m, a, nsub, start, end);
    assert forall i: nat :: i < start ==> !Reaches(m, State(0, i));
  }

  lemma PlusStarts(m: Machine, a: Atom, i: nat)
    requires IsByte(a) && m.program == PlusProgram(a) && i <= |m.text|
    ensures Reaches(m, State(0, i)) <==> TakenAt(m, a, i)
  {
    hide Next, TakenAt;
    if TakenAt(m, a, i) {
      assert AllTaken(m, a, i, i + 1);
      assert i < |m.text| by { TakenInside(m, a, i); }
      PlusPathRuns(m, a, i, i + 1);
    }
    if Reaches(m, State(0, i)) {
      var p :| Accepting(m, State(0, i), p);
      assert p[0 + 1] in Next(m, p[0]);
      StepMeaning(m, p[0], p[1]);
      TailAccepting(m, p);
      if !TakenAt(m, a, i) {
        ByteDead(m, State(1, i), a);
      }
    }
  }

  lemma TakenInside(m: Machine, a: Atom, i: nat)
    requires IsByte(a) && TakenAt(m, a, i)
    ensures i < |m.text|
  {
  }

  // ----- paths without loops

  /** Along a path on which the instruction only ever goes forward no state repeats. */
  lemma {:induction false} ForwardOnly(p: seq<State>, i: nat, j: nat)
    requires forall k :: 0 <= k < |p| - 1 ==> p[k].pc < p[k + 1].pc
    requires i < j < |p|
    ensures p[i].pc < p[j].pc
    decreases j - i
  {
    if i + 1 < j {
      ForwardOnly(p, i, j - 1);
    }
  }

  lemma ForwardCycleFree(p: seq<State>)
    requires forall k :: 0 <= k < |p| - 1 ==> p[k].pc < p[k + 1].pc
    ensures CycleFree(p)
  {
    forall i, j | 0 <= i < j < |p|
      ensures p[i] != p[j]
    {
      ForwardOnly(p, i, j);
    }
  }

  // ----- c?

  function OptionProgram(a: Atom): seq<Inst>
    requires IsByte(a)
  {
    [Plain(Save), SplitTo(2, 3), ByteInst(a), SaveTo(1), Plain(Match)]
  }

  lemma OptionCompiled(a: Atom)
    requires IsByte(a)
    ensures Compiled(Just(Cons(a, Repeat(0, 1), Empty))) == Output(OptionProgram(a), 0)
  {
    var o := Output([Plain(Save)], 0);
    assert BuildAtom(a, o) == Output([Plain(Save), ByteInst(a)], 0);
    assert Optioned([Plain(Save), ByteInst(a)], 1) == [Plain(Save), SplitTo(2, 3), ByteInst(a)];
    assert BuildItem(a, Repeat(0, 1), o) == Output([Plain(Save), SplitTo(2, 3), ByteInst(a)], 0);
    assert BuildRe(Cons(a, Repeat(0, 1), Empty), o) == BuildRe(Empty, BuildItem(a, Repeat(0, 1), o));
  }

  function OptionPath(start: nat, taken: bool): seq<State> {
    if taken then [State(0, start), State(1, start), State(2, start), State(3, start + 1), State(4, start + 1)]
    else [State(0, start), State(1, start), State(3, start), State(4, start)]
  }

  lemma OptionPathFound(m: Machine, a: Atom, start: nat)
    requires IsByte(a) && m.program == OptionProgram(a) && start <= |m.text|
    ensures FirstPath(m, State(0, start), {}) == Some(OptionPath(start, TakenAt(m, a, start)))
  {
    hide Next, FirstPath, Reaches, TakenAt;
    var p := OptionPath(start, TakenAt(m, a, start));
    TakenWithin(m, a, start);
    forall i | 0 <= i < |p| - 1
      ensures p[i + 1] in Next(m, p[i])
    {
      StepMeaning(m, p[i], p[i + 1]);
      if p[i].pc == 2 {
        assert p[i + 1] == State(3, start + 1);
        ByteSteps(m, p[i], a, p[i + 1]);
      }
    }
    ForwardCycleFree(p);
    forall k: nat | Declines(m, p, k)
      ensures !Reaches(m, State(m.program[p[k].pc].x, p[k].pos))
    {
      ByteDead(m, State(2, start), a);
    }
    GreedyPath(m, State(0, start), p);
  }

  lemma TakenWithin(m: Machine, a: Atom, i: nat)
    requires IsByte(a)
    ensures TakenAt(m, a, i) ==> i < |m.text|
  {
  }

  /** `X?` matches at the very beginning, and takes the byte if it stands there. */
  lemma OptionReports(m: Machine, a: Atom, nsub: nat, start: nat)
    requires IsByte(a) && m.program == Compiled(Just(Cons(a, Repeat(0, 1), Empty))).program && IsLeftmost(m, start)
    ensures var caps := MatchCaptures(m, start, nsub);
            && |caps| == (nsub + 1) * 2 && start == caps[0] == 0 && caps[1] == if TakenAt(m, a, 0) then 1 else 0
  {
    hide Compiled, FirstPath, TakenAt, MatchCaptures, Next;
    OptionCompiled(a);
    OptionPathFound(m, a, 0);
    FirstPathSound(m, State(0, 0), {});
    assert Reaches(m, State(0, 0));
    var p := OptionPath(0, TakenAt(m, a, 0));
    ReportedSlot(m, 0, nsub, p, 0);
    ReportedSlot(m, 0, nsub, p, 1);
    assert LastSave(m, p, 0, 0);
    assert LastSave(m, p, 1, |p| - 2);
  }

  // ----- c{min,max}

  /** One instruction of the program of `X{min,max}` with `extra` more than `min`. */
  function RepeatInst(a: Atom, min: nat, extra: nat, i: nat): Inst
    requires IsByte(a)
  {
    if i == 0 then Plain(Save)
    else if i <= min then ByteInst(a)
    else if i <= min + 2 * extra then (if (i - min) % 2 == 1 then SplitTo(i + 1, i + 2) else ByteInst(a))
    else if i == min + 2 * extra + 1 then SaveTo(1)
    else Plain(Match)
  }

  function RepeatCode(a: Atom, min: nat, extra: nat, n: nat): (r: seq<Inst>)
    requires IsByte(a)
    ensures |r| == n
  {
    seq(n, i requires 0 <= i => RepeatInst(a, min, extra, i))
  }

  lemma ByteCopied(p: seq<Inst>, a: Atom)
    requires IsByte(a) && |p| >= 2 && p[1] == ByteInst(a)
    ensures Copied(p, 1, 2) == p + [ByteInst(a)]
  {
    assert p[1..2] == [ByteInst(a)];
    assert ShiftedAll([ByteInst(a)], 1, 2, |p| - 1) == [ByteInst(a)];
  }

  lemma ByteOptionAdded(p: seq<Inst>, a: Atom)
    requires IsByte(a) && |p| >= 2 && p[1] == ByteInst(a)
    ensures OptionAdded(p, 1, 2) == p + [SplitTo(|p| + 1, |p| + 2), ByteInst(a)]
  {
    hide Copied;
    var k, q := |p|, p + [Plain(Split)];
    ByteCopied(q, a);
    assert (q + [ByteInst(a)])[k := SplitTo(k + 1, k + 2)] == p + [SplitTo(k + 1, k + 2), ByteInst(a)];
  }

  lemma CodeMore(a: Atom, min: nat, extra: nat, n: nat)
    requires IsByte(a)
    ensures RepeatCode(a, min, extra, n + 1) == RepeatCode(a, min, extra, n) + [RepeatInst(a, min, extra, n)]
    ensures forall i :: 0 <= i < n ==> RepeatCode(a, min, extra, n)[i] == RepeatInst(a, min, extra, i)
  {
    hide RepeatInst;
  }

  lemma {:induction false} CopiesWritten(a: Atom, min: nat, n: nat)
    requires IsByte(a) && n < min
    ensures CopiedTimes([Plain(Save), ByteInst(a)], 1, 2, n) == RepeatCode(a, min, 0, n + 2)
    decreases n
  {
    hide Copied, RepeatCode, ByteInst;
    CodeMore(a, min, 0, n + 1);
    if n > 0 {
      CopiesWritten(a, min, n - 1);
      ByteCopied(RepeatCode(a, min, 0, n + 1), a);
    } else {
      CodeMore(a, min, 0, 0);
      NoCode(a, min);
    }
  }

  lemma NoCode(a: Atom, min: nat)
    requires IsByte(a)
    ensures RepeatCode(a, min, 0, 0) == []
  {
  }

  lemma {:induction false} OptionsWrittenOut(a: Atom, min: nat, extra: nat, n: nat)
    requires IsByte(a) && 0 < min && n <= extra
    ensures OptionsAdded(RepeatCode(a, min, extra, min + 1), 1, 2, n) == RepeatCode(a, min, extra, min + 1 + 2 * n)
    decreases n
  {
    hide OptionAdded, RepeatCode, ByteInst;
    if n > 0 {
      OptionsWrittenOut(a, min, extra, n - 1);
      var k: nat := min + 2 * n - 1;
      var p := RepeatCode(a, min, extra, k);
      CodeMore(a, min, extra, k);
      CodeMore(a, min, extra, k + 1);
      assert p[1] == ByteInst(a);
      ByteOptionAdded(p, a);
      OptionPair(a, min, extra, n);
      assert p + [SplitTo(k + 1, k + 2)] + [ByteInst(a)] == p + [SplitTo(k + 1, k + 2), ByteInst(a)];
    }
  }

  lemma OptionPair(a: Atom, min: nat, extra: nat, n: nat)
    requires IsByte(a) && 0 < min && 0 < n <= extra
    ensures var k := min + 2 * n - 1;
            RepeatInst(a, min, extra, k) == SplitTo(k + 1, k + 2) && RepeatInst(a, min, extra, k + 1) == ByteInst(a)
  {
  }

  lemma RepeatCompiled(a: Atom, min: nat, max: nat)
    requires IsByte(a) && 0 < min <= max
    ensures Compiled(Just(Cons(a, Repeat(min, max), Empty)))
         == Output(RepeatCode(a, min, max - min, min + 2 * (max - min) + 3), 0)
  {
    hide CopiedTimes, OptionsAdded, RepeatCode;
    var o, extra := Output([Plain(Save)], 0), max - min;
    var first := [Plain(Save), ByteInst(a)];
    assert BuildAtom(a, o) == Output(first, 0);
    CopiesWritten(a, min, min - 1);
    SameCopies(a, min, extra);
    OptionsWrittenOut(a, min, extra, extra);
    assert Quantified(first, 1, Repeat(min, max)) == RepeatCode(a, min, extra, min + 1 + 2 * extra);
    assert BuildItem(a, Repeat(min, max), o) == Output(RepeatCode(a, min, extra, min + 1 + 2 * extra), 0);
    assert BuildRe(Cons(a, Repeat(min, max), Empty), o) == BuildRe(Empty, BuildItem(a, Repeat(min, max), o));
    LastInsts(a, min, extra);
  }

  lemma SameCopies(a: Atom, min: nat, extra: nat)
    requires IsByte(a)
    ensures RepeatCode(a, min, 0, min + 1) == RepeatCode(a, min, extra, min + 1)
  {
  }

  lemma LastInsts(a: Atom, min: nat, extra: nat)
    requires IsByte(a)
    ensures RepeatCode(a, min, extra, min + 1 + 2 * extra) + [SaveTo(1)] + [Plain(Match)]
         == RepeatCode(a, min, extra, min + 2 * extra + 3)
  {
  }

  /** The state at place `i` of the path that takes `min + t` bytes, and then leaves the other SPLITs by `y`. */
  function RepeatState(min: nat, extra: nat, t: nat, start: nat, i: nat): State
    requires t <= extra
  {
    if i == 0 then State(0, start)
    else if i <= min then State(i, start + i - 1)
    else if i <= min + 2 * t then State(i, start + min + (i - min - 1) / 2)
    else if i <= min + t + extra + 1 then State(min + 1 + 2 * t + 2 * (i - min - 1 - 2 * t), start + min + t)
    else State(min + 2 * extra + 2, start + min + t)
  }

  function RepeatPath(min: nat, extra: nat, t: nat, start: nat): seq<State>
    requires t <= extra
  {
    seq(min + t + extra + 3, i requires 0 <= i => RepeatState(min, extra, t, start, i))
  }

  /** The instruction at the state, and the next state. */
  lemma RepeatPlace(a: Atom, min: nat, extra: nat, t: nat, start: nat, i: nat)
    requires IsByte(a) && 0 < min && t <= extra && i < min + t + extra + 2
    ensures var p, q := RepeatState(min, extra, t, start, i), RepeatState(min, extra, t, start, i + 1);
            && p.pc < q.pc && 0 <= p.pc <= min + 2 * extra + 1 && start <= p.pos <= start + min + t
            && match RepeatInst(a, min, extra, p.pc).op
               case Save => q == State(p.pc + 1, p.pos)
               case Split => RepeatInst(a, min, extra, p.pc) == SplitTo(p.pc + 1, p.pc + 2)
                             && (q == State(p.pc + 1, p.pos)
                                 || (q == State(p.pc + 2, p.pos) && p.pos == start + min + t && t < extra))
               case _ => && RepeatInst(a, min, extra, p.pc) == ByteInst(a)
                         && p.pos < start + min + t && q == State(p.pc + 1, p.pos + 1)
  {
  }

  lemma RepeatStep(m: Machine, a: Atom, min: nat, extra: nat, t: nat, start: nat, i: nat)
    requires IsByte(a) && m.program == RepeatCode(a, min, extra, min + 2 * extra + 3) && 0 < min && t <= extra
    requires start + min + t <= |m.text| && AllTaken(m, a, start, start + min + t) && i < min + t + extra + 2
    ensures var p, q := RepeatState(min, extra, t, start, i), RepeatState(min, extra, t, start, i + 1);
            q in Next(m, p) && p.pc < q.pc
  {
    hide Next, TakenAt, RepeatInst, RepeatState;
    var p, q := RepeatState(min, extra, t, start, i), RepeatState(min, extra, t, start, i + 1);
    RepeatPlace(a, min, extra, t, start, i);
    StepMeaning(m, p, q);
    if m.program[p.pc] == ByteInst(a) {
      assert TakenAt(m, a, p.pos);
      ByteSteps(m, p, a, q);
    }
  }

  lemma RepeatPathFound(m: Machine, a: Atom, min: nat, extra: nat, t: nat, start: nat)
    requires IsByte(a) && m.program == RepeatCode(a, min, extra, min + 2 * extra + 3) && 0 < min && t <= extra
    requires start + min + t <= |m.text| && AllTaken(m, a, start, start + min + t)
    requires t < extra ==> !TakenAt(m, a, start + min + t)
    ensures FirstPath(m, State(0, start), {}) == Some(RepeatPath(min, extra, t, start))
  {
    hide FirstPath, Reaches, TakenAt, Accepting, CycleFree, RepeatInst, RepeatState, RepeatPath;
    var p := RepeatPath(min, extra, t, start);
    RepeatPathRuns(m, a, min, extra, t, start);
    forall k: nat | Declines(m, p, k)
      ensures !Reaches(m, State(m.program[p[k].pc].x, p[k].pos))
    {
      DeclinedSplit(m, a, min, extra, t, start, k);
      ByteDead(m, State(p[k].pc + 1, start + min + t), a);
    }
    GreedyPath(m, State(0, start), p);
  }

  lemma RepeatPathRuns(m: Machine, a: Atom, min: nat, extra: nat, t: nat, start: nat)
    requires IsByte(a) && m.program == RepeatCode(a, min, extra, min + 2 * extra + 3) && 0 < min && t <= extra
    requires start + min + t <= |m.text| && AllTaken(m, a, start, start + min + t)
    ensures var p := RepeatPath(min, extra, t, start); Accepting(m, State(0, start), p) && CycleFree(p)
  {
    hide Next, TakenAt, RepeatInst, RepeatState, CycleFree, AllTaken;
    var p := RepeatPath(min, extra, t, start);
    forall i | 0 <= i < |p| - 1
      ensures p[i + 1] in Next(m, p[i]) && p[i].pc < p[i + 1].pc
    {
      RepeatStep(m, a, min, extra, t, start, i);
    }
    ForwardCycleFree(p);
    RepeatBounds(a, min, extra, t, start);
  }

  lemma RepeatBounds(a: Atom, min: nat, extra: nat, t: nat, start: nat)
    requires IsByte(a) && 0 < min && t <= extra
    ensures RepeatState(min, extra, t, start, 0) == State(0, start)
    ensures RepeatState(min, extra, t, start, min + t + extra + 2) == State(min + 2 * extra + 2, start + min + t)
    ensures RepeatInst(a, min, extra, min + 2 * extra + 2) == Plain(Match)
  {
  }

  /** A SPLIT is left by its second target only behind the bytes taken. */
  lemma DeclinedSplit(m: Machine, a: Atom, min: nat, extra: nat, t: nat, start: nat, k: nat)
    requires IsByte(a) && m.program == RepeatCode(a, min, extra, min + 2 * extra + 3) && 0 < min && t <= extra
    requires start + min + t <= |m.text| && Declines(m, RepeatPath(min, extra, t, start), k)
    ensures var s := RepeatPath(min, extra, t, start)[k];
            && s.pos == start + min + t && t < extra && m.program[s.pc].x == s.pc + 1
            && s.pc + 1 < |m.program| && m.program[s.pc + 1] == ByteInst(a)
  {
    hide RepeatInst, RepeatState;
    assert RepeatPath(min, extra, t, start)[k] == RepeatState(min, extra, t, start, k);
    assert RepeatPath(min, extra, t, start)[k + 1] == RepeatState(min, extra, t, start, k + 1);
    RepeatPlace(a, min, extra, t, start, k);
    ByteBehind(a, min, extra, RepeatState(min, extra, t, start, k).pc);
  }

  /** Behind each SPLIT stands the byte. */
  lemma ByteBehind(a: Atom, min: nat, extra: nat, pc: nat)
    requires IsByte(a) && RepeatInst(a, min, extra, pc).op == Split
    ensures pc < min + 2 * extra && RepeatInst(a, min, extra, pc + 1) == ByteInst(a)
  {
  }

  /** A match from `start` needs the bytes that must be there. */
  lemma {:induction false} RepeatNeeds(m: Machine, a: Atom, min: nat, extra: nat, j: nat, pos: nat)
    requires IsByte(a) && m.program == RepeatCode(a, min, extra, min + 2 * extra + 3) && 1 <= j <= min + 1
    requires pos <= |m.text| && Reaches(m, State(j, pos))
    ensures pos + (min + 1 - j) <= |m.text| && AllTaken(m, a, pos, pos + (min + 1 - j))
    decreases min + 1 - j
  {
    hide Next, TakenAt;
    if j <= min {
      var s := State(j, pos);
      if !TakenAt(m, a, pos) {
        ByteDead(m, s, a);
      } else {
        TakenWithin(m, a, pos);
        var p :| Accepting(m, s, p);
        assert p[0 + 1] in Next(m, p[0]);
        ByteSteps(m, s, a, p[1]);
        TailAccepting(m, p);
        RepeatNeeds(m, a, min, extra, j + 1, pos + 1);
      }
    }
  }

  predicate ManyTaken(m: Machine, a: Atom, i: nat, n: nat)
    requires IsByte(a)
  {
    AllTaken(m, a, i, i + n)
  }

  /** How many bytes are taken from `start` on, up to a bound. */
  lemma {:induction false} TakenUpTo(m: Machine, a: Atom, start: nat, bound: nat) returns (n: nat)
    requires IsByte(a) && start <= |m.text|
    ensures n <= bound && start + n <= |m.text| && AllTaken(m, a, start, start + n)
    ensures n < bound ==> !TakenAt(m, a, start + n)
    decreases bound
  {
    n := 0;
    if bound > 0 && TakenAt(m, a, start) {
      hide TakenAt;
      n := TakenUpTo(m, a, start + 1, bound - 1);
      n := n + 1;
    }
  }

  /**
   `X{min,max}` with 0 < min reports the bytes of X at the leftmost place where `min` of them stand: as many
   as there are, but at most `max`.
   */
  lemma RepeatReports(m: Machine, a: Atom, min: nat, max: nat, nsub: nat, start: nat)
    requires IsByte(a) && 0 < min <= max && IsLeftmost(m, start)
    requires m.program == Compiled(Just(Cons(a, Repeat(min, max), Empty))).program
    ensures var caps := MatchCaptures(m, start, nsub); |caps| == (nsub + 1) * 2 && caps[0] == start
    ensures var end := MatchCaptures(m, start, nsub)[1];
            && start + min <= end <= start + max && end <= |m.text| && AllTaken(m, a, start, end)
            && (end < start + max ==> !TakenAt(m, a, end))
            && forall i: nat :: i < start ==> !ManyTaken(m, a, i, min)
  {
    hide Compiled, FirstPath, TakenAt, Reaches, MatchCaptures, Next, AllTaken, RepeatCode;
    RepeatCompiled(a, min, max);
    var extra := max - min;
    RepeatStarts(m, a, min, extra, start);
    forall i: nat | i < start
      ensures !ManyTaken(m, a, i, min)
    {
      RepeatStarts(m, a, min, extra, i);
    }
    var t := TakenUpTo(m, a, start + min, extra);
    JoinTaken(m, a, start, start + min, start + min + t);
    RepeatPathFound(m, a, min, extra, t, start);
    RepeatCaptures(m, a, min, extra, t, nsub, start);
  }

  lemma JoinTaken(m: Machine, a: Atom, i: nat, j: nat, k: nat)
    requires IsByte(a) && AllTaken(m, a, i, j) && AllTaken(m, a, j, k)
    ensures AllTaken(m, a, i, k)
  {
  }

  lemma RepeatStarts(m: Machine, a: Atom, min: nat, extra: nat, i: nat)
    requires IsByte(a) && m.program == RepeatCode(a, min, extra, min + 2 * extra + 3) && 0 < min && i <= |m.text|
    ensures Reaches(m, State(0, i)) <==> AllTaken(m, a, i, i + min)
    ensures AllTaken(m, a, i, i + min) ==> i + min <= |m.text|
  {
    hide Next, TakenAt, FirstPath, RepeatCode;
    if AllTaken(m, a, i, i + min) {
      assert TakenAt(m, a, i + min - 1);
      TakenWithin(m, a, i + min - 1);
      var t := TakenUpTo(m, a, i + min, extra);
      JoinTaken(m, a, i, i + min, i + min + t);
      RepeatPathFound(m, a, min, extra, t, i);
      FirstPathSound(m, State(0, i), {});
    }
    if Reaches(m, State(0, i)) {
      var p :| Accepting(m, State(0, i), p);
      FirstIsSave(a, min, extra);
      assert p[0 + 1] in Next(m, p[0]);
      StepMeaning(m, p[0], p[1]);
      TailAccepting(m, p);
      RepeatNeeds(m, a, min, extra, 1, i);
    }
  }

  lemma FirstIsSave(a: Atom, min: nat, extra: nat)
    requires IsByte(a)
    ensures RepeatCode(a, min, extra, min + 2 * extra + 3)[0] == Plain(Save)
  {
  }

  lemma RepeatCaptures(m: Machine, a: Atom, min: nat, extra: nat, t: nat, nsub: nat, start: nat)
    requires IsByte(a) && m.program == RepeatCode(a, min, extra, min + 2 * extra + 3) && 0 < min && t <= extra
    requires start + min + t <= |m.text| && FirstPath(m, State(0, start), {}) == Some(RepeatPath(min, extra, t, start))
    ensures var caps := MatchCaptures(m, start, nsub);
            |caps| == (nsub + 1) * 2 && caps[0] == start && caps[1] == start + min + t
  {
    hide FirstPath, MatchCaptures, SavesTo, RepeatState, RepeatCode;
    var p := RepeatPath(min, extra, t, start);
    forall i | 0 <= i < |p|
      ensures SavesTo(m, p[i], 0) <==> i == 0
      ensures SavesTo(m, p[i], 1) <==> i == min + t + extra + 1
    {
      RepeatSaves(m, a, min, extra, t, start, i);
    }
    RepeatEnds(min, extra, t, start);
    ReportedSlot(m, start, nsub, p, 0);
    ReportedSlot(m, start, nsub, p, 1);
    assert LastSave(m, p, 0, 0);
    assert LastSave(m, p, 1, min + t + extra + 1);
  }

  lemma RepeatSaves(m: Machine, a: Atom, min: nat, extra: nat, t: nat, start: nat, i: nat)
    requires IsByte(a) && m.program == RepeatCode(a, min, extra, min + 2 * extra + 3) && 0 < min && t <= extra
    requires start + min + t <= |m.text| && i < min + t + extra + 3
    ensures SavesTo(m, RepeatState(min, extra, t, start, i), 0) <==> i == 0
    ensures SavesTo(m, RepeatState(min, extra, t, start, i), 1) <==> i == min + t + extra + 1
  {
  }

  lemma RepeatEnds(min: nat, extra: nat, t: nat, start: nat)
    requires 0 < min && t <= extra
    ensures RepeatState(min, extra, t, start, 0).pos == start
    ensures RepeatState(min, extra, t, start, min + t + extra + 1).pos == start + min + t
  {
  }
}
