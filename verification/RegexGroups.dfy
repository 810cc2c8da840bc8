/**
 What `regexec` reports for a capturing group behind another item, and which branch of an alternation it
 takes (lib/libc_regex.c:354-396, 631-720, 847-871, 953-967).
 */
module RegexGroups {
  import opened Maybe
  import opened RegexVm
  import opened RegexExec
  import opened RegexSyntax
  import opened RegexBuild
  import opened RegexLaws
  import opened RegexPatterns
  import opened RegexPriority
  import opened RegexReported

  // ----- Y(X+)

  /** An item and then a group around a repetition. */
  function ItemAndGroup(b: Atom, a: Atom): Atom {
    Just(Cons(b, Once, Cons(Capture(Just(Cons(a, Plus, Empty))), Once, Empty)))
  }

  function GroupProgram(b: Atom, a: Atom): seq<Inst>
    requires IsByte(a) && IsByte(b)
  {
    [Plain(Save), ByteInst(b), SaveTo(2), ByteInst(a), SplitTo(3, 5), SaveTo(3), SaveTo(1), Plain(Match)]
  }

  lemma GroupCompiled(b: Atom, a: Atom)
    requires IsByte(a) && IsByte(b)
    ensures Compiled(ItemAndGroup(b, a)) == Output(GroupProgram(b, a), 1)
  {
    var o := Output([Plain(Save)], 0);
    var o1 := Output([Plain(Save), ByteInst(b)], 0);
    var group := Capture(Just(Cons(a, Plus, Empty)));
    LoneItem(b, o);
    GroupItem(b, a);
    hide BuildItem, GroupProgram;
    var o5 := BuildItem(group, Once, o1);
    assert BuildRe(Cons(group, Once, Empty), o1) == BuildRe(Empty, o5) == o5;
    assert BuildRe(Cons(b, Once, Cons(group, Once, Empty)), o) == BuildRe(Cons(group, Once, Empty), o1);
    GroupBuilt(Cons(b, Once, Cons(group, Once, Empty)), o);
    GroupEnds(b, a, o5.program);
  }

  lemma LoneItem(b: Atom, o: Output)
    requires IsByte(b) && o.program == [Plain(Save)] && o.groups == 0
    ensures BuildItem(b, Once, o) == Output([Plain(Save), ByteInst(b)], 0)
  {
  }

  lemma GroupItem(b: Atom, a: Atom)
    requires IsByte(a) && IsByte(b)
    ensures BuildItem(Capture(Just(Cons(a, Plus, Empty))), Once, Output([Plain(Save), ByteInst(b)], 0))
         == Output([Plain(Save), ByteInst(b), SaveTo(2), ByteInst(a), SplitTo(3, 5), SaveTo(3)], 1)
  {
    var o1 := Output([Plain(Save), ByteInst(b)], 0);
    var o2 := Output([Plain(Save), ByteInst(b), SaveTo(2)], 1);
    var inner := Cons(a, Plus, Empty);
    assert CaptureOpened(o1) == o2;
    PlusItem(b, a);
    assert BuildRe(inner, o2) == BuildRe(Empty, BuildItem(a, Plus, o2));
    GroupBuilt(inner, o2);
    CaptureBuilt(Just(inner), o1);
    assert BuildItem(Capture(Just(inner)), Once, o1) == BuildAtom(Capture(Just(inner)), o1);
  }

  lemma PlusItem(b: Atom, a: Atom)
    requires IsByte(a) && IsByte(b)
    ensures BuildItem(a, Plus, Output([Plain(Save), ByteInst(b), SaveTo(2)], 1))
         == Output([Plain(Save), ByteInst(b), SaveTo(2), ByteInst(a), SplitTo(3, 5)], 1)
  {
    var o2 := Output([Plain(Save), ByteInst(b), SaveTo(2)], 1);
    assert BuildAtom(a, o2) == Output([Plain(Save), ByteInst(b), SaveTo(2), ByteInst(a)], 1);
  }

  lemma GroupEnds(b: Atom, a: Atom, p: seq<Inst>)
    requires IsByte(a) && IsByte(b)
    requires p == [Plain(Save), ByteInst(b), SaveTo(2), ByteInst(a), SplitTo(3, 5), SaveTo(3)]
    ensures p + [SaveTo(1)] + [Plain(Match)] == GroupProgram(b, a)
  {
  }

  function GroupState(start: nat, end: nat, i: nat): State
    requires start + 1 < end
  {
    if i <= 1 then State(i, start)
    else if i == 2 then State(2, start + 1)
    else if i < 2 * (end - start) + 1 then State(if i % 2 == 1 then 3 else 4, start + i / 2)
    else State(5 + (i - (2 * (end - start) + 1)), end)
  }

  /** The path that takes the item at `start` and all of `[start + 1, end)` inside the group. */
  function GroupPath(start: nat, end: nat): seq<State>
    requires start + 1 < end
  {
    seq(2 * (end - start) + 4, i requires 0 <= i => GroupState(start, end, i))
  }

  lemma GroupStep(m: Machine, b: Atom, a: Atom, start: nat, end: nat, i: nat)
    requires IsByte(a) && IsByte(b) && m.program == GroupProgram(b, a) && start + 1 < end <= |m.text|
    requires TakenAt(m, b, start) && AllTaken(m, a, start + 1, end) && i < 2 * (end - start) + 3
    ensures GroupState(start, end, i + 1) in Next(m, GroupState(start, end, i))
  {
    hide Next, TakenAt;
    var p, q := GroupState(start, end, i), GroupState(start, end, i + 1);
    StepMeaning(m, p, q);
    if p.pc == 1 {
      ByteSteps(m, p, b, q);
    } else if p.pc == 3 {
      assert TakenAt(m, a, p.pos);
      ByteSteps(m, p, a, q);
    }
  }

  lemma GroupPathRuns(m: Machine, b: Atom, a: Atom, start: nat, end: nat)
    requires IsByte(a) && IsByte(b) && m.program == GroupProgram(b, a) && start + 1 < end <= |m.text|
    requires TakenAt(m, b, start) && AllTaken(m, a, start + 1, end)
    ensures var p := GroupPath(start, end); Accepting(m, State(0, start), p) && CycleFree(p)
  {
    hide Next, TakenAt;
    var p := GroupPath(start, end);
    forall i | 0 <= i < |p| - 1
      ensures p[i + 1] in Next(m, p[i])
    {
      GroupStep(m, b, a, start, end, i);
    }
  }

  lemma GroupPathFound(m: Machine, b: Atom, a: Atom, start: nat, end: nat)
    requires IsByte(a) && IsByte(b) && m.program == GroupProgram(b, a) && start + 1 < end <= |m.text|
    requires TakenAt(m, b, start) && AllTaken(m, a, start + 1, end) && !TakenAt(m, a, end)
    ensures FirstPath(m, State(0, start), {}) == Some(GroupPath(start, end))
  {
    hide FirstPath, Reaches, TakenAt, Accepting, CycleFree;
    var p := GroupPath(start, end);
    GroupPathRuns(m, b, a, start, end);
    forall k: nat | Declines(m, p, k)
      ensures !Reaches(m, State(m.program[p[k].pc].x, p[k].pos))
    {
      assert k == 2 * (end - start);
      ByteDead(m, State(3, end), a);
    }
    GreedyPath(m, State(0, start), p);
  }

  lemma GroupStarts(m: Machine, b: Atom, a: Atom, i: nat)
    requires IsByte(a) && IsByte(b) && m.program == GroupProgram(b, a) && i <= |m.text|
    ensures Reaches(m, State(0, i)) <==> TakenAt(m, b, i) && TakenAt(m, a, i + 1)
  {
    hide Next, TakenAt;
    if TakenAt(m, b, i) && TakenAt(m, a, i + 1) {
      assert AllTaken(m, a, i + 1, i + 2);
      TakenWithin(m, a, i + 1);
      GroupPathRuns(m, b, a, i, i + 2);
    }
    if Reaches(m, State(0, i)) {
      GroupNeeds(m, b, a, i);
    }
  }

  lemma GroupNeeds(m: Machine, b: Atom, a: Atom, i: nat)
    requires IsByte(a) && IsByte(b) && m.program == GroupProgram(b, a) && i <= |m.text| && Reaches(m, State(0, i))
    ensures TakenAt(m, b, i) && TakenAt(m, a, i + 1)
  {
    hide Next, TakenAt, Accepting;
    StepsOn(m, State(0, i), State(1, i)) by { StepFrom(m, State(0, i)); }
    if !TakenAt(m, b, i) {
      ByteDead(m, State(1, i), b);
    } else {
      TakenWithin(m, b, i);
      StepsOn(m, State(1, i), State(2, i + 1)) by { ByteFrom(m, State(1, i), b); }
      StepsOn(m, State(2, i + 1), State(3, i + 1)) by { StepFrom(m, State(2, i + 1)); }
      if !TakenAt(m, a, i + 1) {
        ByteDead(m, State(3, i + 1), a);
      }
    }
  }

  /** What reaches a MATCH by way of one next state only does so from there. */
  lemma StepsOn(m: Machine, s: State, n: State)
    requires Reaches(m, s) && !IsMatch(m, s) && forall x :: x in Next(m, s) ==> x == n
    ensures Reaches(m, n)
  {
    hide Next;
    var p :| Accepting(m, s, p);
    GoesOn(m, s, p);
  }

  lemma StepFrom(m: Machine, s: State)
    requires Valid(m, s) && m.program[s.pc].op == Save
    ensures forall x :: x in Next(m, s) ==> x == State(s.pc + 1, s.pos)
  {
  }

  lemma ByteFrom(m: Machine, s: State, a: Atom)
    requires IsByte(a) && Valid(m, s) && m.program[s.pc] == ByteInst(a)
    ensures forall x :: x in Next(m, s) ==> x == State(s.pc + 1, s.pos + 1)
  {
    hide TakenAt;
    forall x | x in Next(m, s)
      ensures x == State(s.pc + 1, s.pos + 1)
    {
      ByteSteps(m, s, a, x);
    }
  }

  /** `Y(X+)` reports for its group the run of X behind the Y. */
  lemma GroupReports(m: Machine, b: Atom, a: Atom, nsub: nat, start: nat)
    requires IsByte(a) && IsByte(b) && nsub >= 1 && IsLeftmost(m, start)
    requires m.program == Compiled(ItemAndGroup(b, a)).program
    ensures var caps := MatchCaptures(m, start, nsub);
            && |caps| == (nsub + 1) * 2 && caps[0] == start && caps[2] == start + 1 && caps[3] == caps[1]
            && (forall i :: 4 <= i < |caps| ==> caps[i] == -1)
    ensures var end := MatchCaptures(m, start, nsub)[1];
            && start + 1 < end <= |m.text| && TakenAt(m, b, start) && AllTaken(m, a, start + 1, end)
            && !TakenAt(m, a, end) && forall i: nat :: i < start ==> !TakenAt(m, b, i) || !TakenAt(m, a, i + 1)
  {
    hide Compiled, FirstPath, TakenAt, Reaches, MatchCaptures, Next;
    GroupCompiled(b, a);
    GroupStarts(m, b, a, start);
    forall i: nat | i < start
      ensures !TakenAt(m, b, i) || !TakenAt(m, a, i + 1)
    {
      GroupStarts(m, b, a, i);
    }
    TakenWithin(m, b, start);
    var end := RunEnd(m, a, start + 1);
    GroupPathFound(m, b, a, start, end);
    GroupCaptures(m, b, a, nsub, start, end);
  }

  lemma GroupCaptures(m: Machine, b: Atom, a: Atom, nsub: nat, start: nat, end: nat)
    requires IsByte(a) && IsByte(b) && nsub >= 1 && m.program == GroupProgram(b, a) && start + 1 < end <= |m.text|
    requires FirstPath(m, State(0, start), {}) == Some(GroupPath(start, end))
    ensures var caps := MatchCaptures(m, start, nsub);
            && |caps| == (nsub + 1) * 2 && caps[0] == start && caps[1] == end && caps[2] == start + 1 && caps[3] == end
            && forall i :: 4 <= i < |caps| ==> caps[i] == -1
  {
    hide FirstPath, MatchCaptures, SavesTo, GroupState;
    var p, n := GroupPath(start, end), 2 * (end - start);
    forall i, slot: nat | 0 <= i < |p|
      ensures SavesTo(m, p[i], slot)
         <==> (slot == 0 && i == 0) || (slot == 2 && i == 2) || (slot == 3 && i == n + 1) || (slot == 1 && i == n + 2)
    {
      GroupSaves(m, b, a, start, end, i, slot);
    }
    GroupPlaces(start, end);
    forall slot: nat | slot < (nsub + 1) * 2
      ensures |MatchCaptures(m, start, nsub)| == (nsub + 1) * 2
      ensures MatchCaptures(m, start, nsub)[slot]
              == if slot == 0 then start else if slot == 1 then end else if slot == 2 then start + 1
                 else if slot == 3 then end else -1
    {
      ReportedSlot(m, start, nsub, p, slot);
      assert slot == 0 ==> LastSave(m, p, slot, 0);
      assert slot == 1 ==> LastSave(m, p, slot, n + 2);
      assert slot == 2 ==> LastSave(m, p, slot, 2);
      assert slot == 3 ==> LastSave(m, p, slot, n + 1);
    }
  }

  lemma GroupSaves(m: Machine, b: Atom, a: Atom, start: nat, end: nat, i: nat, slot: nat)
    requires IsByte(a) && IsByte(b) && m.program == GroupProgram(b, a) && start + 1 < end <= |m.text|
    requires i < 2 * (end - start) + 4
    ensures var n := 2 * (end - start);
            SavesTo(m, GroupState(start, end, i), slot)
            <==> (slot == 0 && i == 0) || (slot == 2 && i == 2) || (slot == 3 && i == n + 1) || (slot == 1 && i == n + 2)
  {
  }

  lemma GroupPlaces(start: nat, end: nat)
    requires start + 1 < end
    ensures var n := 2 * (end - start);
            && GroupState(start, end, 0).pos == start && GroupState(start, end, 2).pos == start + 1
            && GroupState(start, end, n + 1).pos == end && GroupState(start, end, n + 2).pos == end
  {
  }
}
