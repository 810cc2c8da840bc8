/**
 `re_run` with its stamp table, and the search for the leftmost start in `regexec`
 (lib/libc_regex.c:801-971).
 */
module RegexExec {
  import opened Maybe
  import opened RegexVm

  // ----- the stamp table

  function Slot(m: Machine, s: State): int {
    s.pc * (|m.text| + 1) + s.pos
  }

  lemma SlotRange(m: Machine, s: State)
    requires Valid(m, s)
    ensures 0 <= Slot(m, s) < |m.program| * (|m.text| + 1)
  {
    RowOrder(s.pc, |m.program|, |m.text| + 1);
    RowOrder(-1, s.pc, |m.text| + 1);
  }

  /** Row `y` starts after the end of row `x`. */
  lemma RowOrder(x: int, y: int, width: int)
    requires width > 0
    ensures x < y ==> x * width + width <= y * width
  {
    assert x < y ==> (y - x - 1) * width >= 0;
  }

  lemma SlotUnique(m: Machine, s: State, t: State)
    requires Valid(m, s) && Valid(m, t) && Slot(m, s) == Slot(m, t)
    ensures s == t
  {
    RowOrder(s.pc, t.pc, |m.text| + 1);
    RowOrder(t.pc, s.pc, |m.text| + 1);
  }

  predicate Sized(m: Machine, stamps: seq<int>) {
    |stamps| == |m.program| * (|m.text| + 1)
  }

  /** The states that carry the current generation. */
  ghost function Stamped(m: Machine, stamps: seq<int>, generation: int): set<State> {
    set s | s in AllStates(m) && StampedAt(m, stamps, generation, s)
  }

  ghost predicate StampedAt(m: Machine, stamps: seq<int>, generation: int, s: State) {
    0 <= Slot(m, s) < |stamps| && stamps[Slot(m, s)] == generation
  }

  lemma StampOne(m: Machine, stamps: seq<int>, generation: int, s: State)
    requires Sized(m, stamps) && Valid(m, s)
    ensures 0 <= Slot(m, s) < |stamps|
    ensures stamps[Slot(m, s)] == generation <==> s in Stamped(m, stamps, generation)
    ensures Stamped(m, stamps[Slot(m, s) := generation], generation) == Stamped(m, stamps, generation) + {s}
  {
    SlotRange(m, s);
    InAllStates(m, s);
    var after := stamps[Slot(m, s) := generation];
    forall t | t in AllStates(m)
      ensures StampedAt(m, after, generation, t) <==> StampedAt(m, stamps, generation, t) || t == s
    {
      InAllStates(m, t);
      if Slot(m, t) == Slot(m, s) {
        SlotUnique(m, s, t);
      }
    }
  }

  // ----- what a failed part of the search leaves behind

  /**
   Every stamped state that is not on the current path has failed for good: it does not accept, and
   all its successors are stamped as well.
   */
  ghost predicate Exhausted(m: Machine, stamped: set<State>, above: set<State>) {
    forall s <- stamped - above :: Spent(m, s, stamped)
  }

  ghost predicate Spent(m: Machine, s: State, stamped: set<State>) {
    !IsMatch(m, s) && forall n <- Next(m, s) :: Valid(m, n) ==> n in stamped
  }

  /** A failed state has no accepting path that avoids the current one, so skipping it loses nothing. */
  lemma {:induction false} StampedFails(m: Machine, s: State, stamped: set<State>, above: set<State>, more: set<State>)
    requires s in stamped && Exhausted(m, stamped, above) && above <= more
    ensures FirstPath(m, s, more).None?
    decreases |AllStates(m) - more|, 1
  {
    if Valid(m, s) && s !in more {
      assert Spent(m, s, stamped);
      InAllStates(m, s);
      Smaller(AllStates(m) - more, s);
      assert AllStates(m) - (more + {s}) == AllStates(m) - more - {s};
      ChoicesFail(m, Next(m, s), stamped, above, more + {s});
    }
  }

  lemma {:induction false} ChoicesFail(m: Machine, choices: seq<State>, stamped: set<State>, above: set<State>, more: set<State>)
    requires forall n <- choices :: Valid(m, n) ==> n in stamped
    requires Exhausted(m, stamped, above) && above <= more
    ensures FirstOf(m, choices, more).None?
    decreases |AllStates(m) - more|, 2, |choices|
  {
    if choices != [] {
      if Valid(m, choices[0]) {
        StampedFails(m, choices[0], stamped, above, more);
      }
      ChoicesFail(m, choices[1..], stamped, above, more);
    }
  }

  predicate SlotsFit(m: Machine, captures: nat) {
    forall inst <- m.program :: inst.op == Save ==> 0 <= inst.x < captures
  }

  /** The matcher was entered in a state where the stamps are those of failed states and of the path. */
  ghost predicate Ready(m: Machine, stamps: seq<int>, generation: int, above: set<State>) {
    && Sized(m, stamps) && above <= Stamped(m, stamps, generation)
    && Exhausted(m, Stamped(m, stamps, generation), above)
  }

  /** What one call of the matcher does to the two tables. */
  ghost predicate Ran(m: Machine, s: State, above: set<State>, generation: int,
                      ok: bool, caps: seq<int>, caps': seq<int>, stamps: seq<int>, stamps': seq<int>) {
    && |caps'| == |caps| && Sized(m, stamps')
    && (forall i :: 0 <= i < |stamps'| && i < |stamps| ==> stamps'[i] == stamps[i] || stamps'[i] == generation)
    && var r := FirstPath(m, s, above);
       if ok then r.Some? && caps' == Captured(m, r.value, caps)
       else && r.None? && caps' == caps
            && Ready(m, stamps', generation, above)
            && Stamped(m, stamps, generation) <= Stamped(m, stamps', generation)
            && (Valid(m, s) ==> s in Stamped(m, stamps', generation))
  }

  /** How many states can still be stamped. */
  ghost function Left(m: Machine, stamps: seq<int>, generation: int): nat {
    |AllStates(m) - Stamped(m, stamps, generation)|
  }

  method ReRun(m: Machine, pc: int, pos: nat, captures: array<int>, generations: array<int>, generation: int,
               ghost above: set<State>)
    returns (ok: bool)
    requires captures != generations && pos <= |m.text|
    requires SlotsFit(m, captures.Length)
    requires Ready(m, generations[..], generation, above)
    modifies captures, generations
    ensures Ran(m, State(pc, pos), above, generation, ok, old(captures[..]), captures[..],
                old(generations[..]), generations[..])
    decreases Left(m, generations[..], generation)
  {
    hide Ran, Ready, FirstPath, FirstOf, Left, Stamped, StampedAt, Exhausted, Captured, AllStates;
    ghost var s := State(pc, pos);
    ghost var caps, stamps0 := captures[..], generations[..];
    if pc < 0 || pc >= |m.program| {
      NoSuchState(m, s, above, generation, caps, stamps0);
      return false;
    }
    StampOne(m, stamps0, generation, s) by { ReadySized(m, stamps0, generation, above); }
    var state := pc * (|m.text| + 1) + pos;
    if generations[state] == generation {
      StampedBefore(m, s, above, generation, caps, stamps0);
      return false;
    }
    generations[state] := generation;
    ghost var stamps1 := generations[..];
    ghost var inner := above + {s};
    assert stamps1 == stamps0[Slot(m, s) := generation];
    EnterState(m, s, above, generation, stamps0);
    DeadEnd(m, s, above, generation, caps, stamps0);

    var inst := m.program[pc];
    match inst.op {
      case Char =>
        if pos >= |m.text| {
          return false;
        }
        if m.flags.icase {
          if ToLower(m.text[pos]) != ToLower(inst.ch) {
            return false;
          }
        } else if m.text[pos] != inst.ch {
          return false;
        }
        ok := ReRun(m, pc + 1, pos + 1, captures, generations, generation, inner);
        OneChoice(m, s, above, generation, ok, caps, captures[..], stamps0, generations[..]);
      case Any =>
        if pos >= |m.text| || (m.flags.newline && m.text[pos] == NEWLINE) {
          return false;
        }
        ok := ReRun(m, pc + 1, pos + 1, captures, generations, generation, inner);
        OneChoice(m, s, above, generation, ok, caps, captures[..], stamps0, generations[..]);
      case Class =>
        if pos >= |m.text| || !ClassMatch(inst, m.text[pos], m.flags.icase) {
          return false;
        }
        ok := ReRun(m, pc + 1, pos + 1, captures, generations, generation, inner);
        OneChoice(m, s, above, generation, ok, caps, captures[..], stamps0, generations[..]);
      case Split =>
        ok := ReRun(m, inst.x, pos, captures, generations, generation, inner);
        ghost var stamps2 := generations[..];
        if ok {
          FirstChoice(m, s, above, generation, caps, captures[..], stamps0, stamps2);
          return true;
        }
        AfterFailure(m, State(inst.x, pos), inner, generation, caps, captures[..], stamps1, stamps2);
        ok := ReRun(m, inst.y, pos, captures, generations, generation, inner);
        SecondChoice(m, s, above, generation, ok, caps, captures[..], stamps0, stamps2, generations[..]);
      case Jmp =>
        ok := ReRun(m, inst.x, pos, captures, generations, generation, inner);
        OneChoice(m, s, above, generation, ok, caps, captures[..], stamps0, generations[..]);
      case Save =>
        var saved := captures[inst.x];
        captures[inst.x] := pos;
        assert captures[..] == AfterSave(m, s, caps);
        ok := ReRun(m, pc + 1, pos, captures, generations, generation, inner);
        OneChoice(m, s, above, generation, ok, caps, captures[..], stamps0, generations[..]);
        if ok {
          return true;
        }
        AfterFailure(m, State(pc + 1, pos), inner, generation, AfterSave(m, s, caps), captures[..], stamps1, generations[..]);
        captures[inst.x] := saved;
        assert captures[..] == caps;
      case Bol =>
        if pos == 0 {
          if m.flags.notBol {
            return false;
          }
        } else if !m.flags.newline || m.text[pos - 1] != NEWLINE {
          return false;
        }
        ok := ReRun(m, pc + 1, pos, captures, generations, generation, inner);
        OneChoice(m, s, above, generation, ok, caps, captures[..], stamps0, generations[..]);
      case Eol =>
        if pos == |m.text| {
          if m.flags.notEol {
            return false;
          }
        } else if !m.flags.newline || m.text[pos] != NEWLINE {
          return false;
        }
        ok := ReRun(m, pc + 1, pos, captures, generations, generation, inner);
        OneChoice(m, s, above, generation, ok, caps, captures[..], stamps0, generations[..]);
      case WordB =>
        if !AtBoundary(m, pos) {
          return false;
        }
        ok := ReRun(m, pc + 1, pos, captures, generations, generation, inner);
        OneChoice(m, s, above, generation, ok, caps, captures[..], stamps0, generations[..]);
      case NotWordB =>
        if AtBoundary(m, pos) {
          return false;
        }
        ok := ReRun(m, pc + 1, pos, captures, generations, generation, inner);
        OneChoice(m, s, above, generation, ok, caps, captures[..], stamps0, generations[..]);
      case Match =>
        return true;
    }
  }

  // ----- the cases of one call

  lemma ReadySized(m: Machine, stamps: seq<int>, generation: int, above: set<State>)
    requires Ready(m, stamps, generation, above)
    ensures Sized(m, stamps)
  {
  }

  lemma NoSuchState(m: Machine, s: State, above: set<State>, generation: int, caps: seq<int>, stamps: seq<int>)
    requires !Valid(m, s) && Ready(m, stamps, generation, above)
    ensures Ran(m, s, above, generation, false, caps, caps, stamps, stamps)
  {
  }

  lemma StampedBefore(m: Machine, s: State, above: set<State>, generation: int, caps: seq<int>, stamps: seq<int>)
    requires Ready(m, stamps, generation, above) && s in Stamped(m, stamps, generation)
    ensures Ran(m, s, above, generation, false, caps, caps, stamps, stamps)
  {
    hide FirstPath;
    StampedFails(m, s, Stamped(m, stamps, generation), above, above);
  }

  lemma EnterState(m: Machine, s: State, above: set<State>, generation: int, stamps: seq<int>)
    requires Valid(m, s) && s !in Stamped(m, stamps, generation) && Ready(m, stamps, generation, above)
    requires 0 <= Slot(m, s) < |stamps|
    ensures var stamps1 := stamps[Slot(m, s) := generation];
            Ready(m, stamps1, generation, above + {s}) && Left(m, stamps1, generation) < Left(m, stamps, generation)
  {
    var before := Stamped(m, stamps, generation);
    StampOne(m, stamps, generation, s);
    InAllStates(m, s);
    hide AllStates, Stamped;
    Smaller(AllStates(m) - before, s);
    assert AllStates(m) - (before + {s}) == AllStates(m) - before - {s};
    forall t | t in (before + {s}) - (above + {s})
      ensures Spent(m, t, before + {s})
    {
      assert t in before - above && Spent(m, t, before);
    }
  }

  /** What holds after entering a state from which no step leads on, or which accepts. */
  lemma DeadEnd(m: Machine, s: State, above: set<State>, generation: int, caps: seq<int>, stamps: seq<int>)
    requires Valid(m, s) && s !in Stamped(m, stamps, generation) && Ready(m, stamps, generation, above)
    requires 0 <= Slot(m, s) < |stamps|
    ensures var stamps1 := stamps[Slot(m, s) := generation];
            (IsMatch(m, s) ==> Ran(m, s, above, generation, true, caps, caps, stamps, stamps1))
            && (Next(m, s) == [] && !IsMatch(m, s) ==> Ran(m, s, above, generation, false, caps, caps, stamps, stamps1))
  {
    StampOne(m, stamps, generation, s);
    hide Stamped, AllStates, Slot;
    if IsMatch(m, s) {
      assert s !in above;
      assert FirstPath(m, s, above) == Some([s]);
      assert Captured(m, [s], caps) == Captured(m, [], AfterSave(m, s, caps)) == caps;
    } else if Next(m, s) == [] {
      LeaveState(m, s, above, generation, stamps, stamps[Slot(m, s) := generation]);
      assert s !in above && FirstOf(m, [], above + {s}).None?;
      StepPath(m, s, above, caps);
    }
  }

  /** Leaving a state all of whose choices have failed. */
  lemma LeaveState(m: Machine, s: State, above: set<State>, generation: int, stamps: seq<int>, stamps': seq<int>)
    requires Ready(m, stamps', generation, above + {s}) || Next(m, s) == []
    requires Ready(m, stamps, generation, above) && Sized(m, stamps') && !IsMatch(m, s)
    requires s !in Stamped(m, stamps, generation)
    requires if Next(m, s) == [] then Stamped(m, stamps', generation) == Stamped(m, stamps, generation) + {s}
             else Stamped(m, stamps, generation) + {s} <= Stamped(m, stamps', generation)
    requires forall n <- Next(m, s) :: Valid(m, n) ==> n in Stamped(m, stamps', generation)
    ensures Ready(m, stamps', generation, above)
  {
    var after := Stamped(m, stamps', generation);
    hide Stamped, Next;
    forall t | t in after - above
      ensures Spent(m, t, after)
    {
      if t != s {
        if Next(m, s) == [] {
          assert Spent(m, t, Stamped(m, stamps, generation));
        } else {
          assert Spent(m, t, after);
        }
      }
    }
  }

  /** What a failed call promises its caller. */
  lemma AfterFailure(m: Machine, s: State, above: set<State>, generation: int,
                     caps: seq<int>, caps': seq<int>, stamps: seq<int>, stamps': seq<int>)
    requires Ran(m, s, above, generation, false, caps, caps', stamps, stamps')
    ensures caps' == caps && Ready(m, stamps', generation, above) && |stamps'| == |m.program| * (|m.text| + 1)
    ensures Left(m, stamps', generation) <= Left(m, stamps, generation)
  {
    hide FirstPath, AllStates, Stamped;
    var a, b := AllStates(m) - Stamped(m, stamps', generation), AllStates(m) - Stamped(m, stamps, generation);
    SubsetSize(a, b);
  }

  lemma SubsetSize<T>(a: set<T>, b: set<T>)
    requires a <= b
    ensures |a| <= |b|
    decreases |a|
  {
    if a != {} {
      var x :| x in a;
      SubsetSize(a - {x}, b - {x});
    }
  }

  /** A state with one way on does what that way does. */
  lemma OneChoice(m: Machine, s: State, above: set<State>, generation: int, ok: bool,
                  caps: seq<int>, caps': seq<int>, stamps: seq<int>, stamps': seq<int>)
    requires Valid(m, s) && |Next(m, s)| == 1
    requires Ready(m, stamps, generation, above) && s !in Stamped(m, stamps, generation)
    requires 0 <= Slot(m, s) < |stamps|
    requires Ran(m, Next(m, s)[0], above + {s}, generation, ok, AfterSave(m, s, caps), caps',
                 stamps[Slot(m, s) := generation], stamps')
    ensures Ran(m, s, above, generation, ok, caps, if ok then caps' else caps, stamps, stamps')
    ensures !ok ==> caps' == AfterSave(m, s, caps)
  {
    var n := Next(m, s)[0];
    var stamps1 := stamps[Slot(m, s) := generation];
    StampOne(m, stamps, generation, s);
    hide AllStates, Stamped, Slot, Next;
    assert s !in above;
    assert Next(m, s)[1..] == [];
    assert FirstOf(m, Next(m, s), above + {s}) == FirstPath(m, n, above + {s}) by { FirstOfOne(m, n, above + {s}); }
    StepPath(m, s, above, caps);
    if !ok {
      LeaveState(m, s, above, generation, stamps, stamps');
    }
  }

  lemma FirstOfOne(m: Machine, n: State, above: set<State>)
    ensures forall choices :: choices == [n] ==> FirstOf(m, choices, above) == FirstPath(m, n, above)
  {
    assert FirstOf(m, [], above).None?;
    assert [n][1..] == [];
  }

  /** One step of the reference search and of the captures along its path. */
  lemma StepPath(m: Machine, s: State, above: set<State>, caps: seq<int>)
    requires Valid(m, s) && s !in above && !IsMatch(m, s)
    ensures var r := FirstOf(m, Next(m, s), above + {s});
            FirstPath(m, s, above) == (if r.Some? then Some([s] + r.value) else None)
            && (r.Some? ==> Captured(m, [s] + r.value, caps) == Captured(m, r.value, AfterSave(m, s, caps)))
  {
    var r := FirstOf(m, Next(m, s), above + {s});
    if r.Some? {
      assert ([s] + r.value)[1..] == r.value;
    }
  }

  lemma FirstChoice(m: Machine, s: State, above: set<State>, generation: int,
                    caps: seq<int>, caps': seq<int>, stamps: seq<int>, stamps': seq<int>)
    requires Valid(m, s) && m.program[s.pc].op == Split
    requires Ready(m, stamps, generation, above) && s !in Stamped(m, stamps, generation)
    requires 0 <= Slot(m, s) < |stamps|
    requires Ran(m, Next(m, s)[0], above + {s}, generation, true, caps, caps', stamps[Slot(m, s) := generation], stamps')
    ensures Ran(m, s, above, generation, true, caps, caps', stamps, stamps')
  {
    StampOne(m, stamps, generation, s);
    hide AllStates, Stamped, Slot;
    assert s !in above;
    StepPath(m, s, above, caps);
  }

  lemma SecondChoice(m: Machine, s: State, above: set<State>, generation: int, ok: bool,
                     caps: seq<int>, caps': seq<int>, stamps: seq<int>, stamps2: seq<int>, stamps': seq<int>)
    requires Valid(m, s) && m.program[s.pc].op == Split
    requires Ready(m, stamps, generation, above) && s !in Stamped(m, stamps, generation)
    requires 0 <= Slot(m, s) < |stamps|
    requires Ran(m, Next(m, s)[0], above + {s}, generation, false, caps, caps, stamps[Slot(m, s) := generation], stamps2)
    requires Ran(m, Next(m, s)[1], above + {s}, generation, ok, caps, caps', stamps2, stamps')
    ensures Ran(m, s, above, generation, ok, caps, caps', stamps, stamps')
  {
    StampOne(m, stamps, generation, s);
    hide AllStates, Stamped, Slot;
    assert s !in above;
    StepPath(m, s, above, caps);
    SecondOf(m, s, above + {s});
    if !ok {
      LeaveState(m, s, above, generation, stamps, stamps');
    }
  }

  lemma SecondOf(m: Machine, s: State, above: set<State>)
    requires |Next(m, s)| == 2 && FirstPath(m, Next(m, s)[0], above).None?
    ensures FirstOf(m, Next(m, s), above) == FirstPath(m, Next(m, s)[1], above)
  {
    hide Next;
    var choices := Next(m, s);
    assert choices[1..] == [choices[1]];
    FirstOfOne(m, choices[1], above);
  }

  // ----- regexec

  datatype Regex = Regex(program: Option<seq<Inst>>, nsub: nat, icase: bool, newline: bool, nosub: bool)

  datatype RegMatch = RegMatch(so: int, eo: int)

  /** The program up to and including its first MATCH. */
  predicate EndsAtMatch(program: seq<Inst>, length: nat) {
    0 < length <= |program| && program[length - 1].op == Match && forall i :: 0 <= i < length - 1 ==> program[i].op != Match
  }

  function MachineOf(re: Regex, length: nat, text: seq<byte>, notBol: bool, notEol: bool): Machine
    requires re.program.Some? && length <= |re.program.value|
  {
    Machine(re.program.value[..length], text, Flags(re.icase, re.newline, notBol, notEol))
  }

  /** The smallest position from which a MATCH can be reached. */
  ghost predicate IsLeftmost(m: Machine, start: nat) {
    && start <= |m.text| && Reaches(m, State(0, start))
    && forall i :: 0 <= i < start ==> !Reaches(m, State(0, i))
  }

  function StartCaptures(count: nat, start: nat): seq<int>
    requires count > 0
  {
    seq(count, _ => -1)[0 := start]
  }

  /** The captures of the preferred match from `start`. */
  ghost function MatchCaptures(m: Machine, start: nat, nsub: nat): seq<int> {
    match FirstPath(m, State(0, start), {})
    case None => []
    case Some(p) => Captured(m, p, StartCaptures((nsub + 1) * 2, start))
  }

  lemma {:induction false} CapturedLength(m: Machine, path: seq<State>, caps: seq<int>)
    ensures |Captured(m, path, caps)| == |caps|
  {
    if path != [] {
      CapturedLength(m, path[1..], AfterSave(m, path[0], caps));
    }
  }

  /** What `pmatch` holds afterwards. */
  ghost predicate Reported(before: seq<RegMatch>, after: seq<RegMatch>, count: nat, caps: seq<int>) {
    && |after| == |before| && count <= |after| && 2 * count <= |caps|
    && (forall i :: 0 <= i < count ==> after[i] == RegMatch(caps[2 * i], caps[2 * i + 1]))
    && (forall i :: count <= i < |after| ==> after[i] == before[i])
  }

  /** One turn of the search loop: fresh captures, then a run from `from`. */
  method TryAt(m: Machine, nsub: nat, from: nat, captures: array<int>, generations: array<int>, generation: int)
    returns (ok: bool)
    requires captures != generations && from <= |m.text|
    requires captures.Length == (nsub + 1) * 2 && SlotsFit(m, captures.Length)
    requires Sized(m, generations[..]) && forall i :: 0 <= i < generations.Length ==> generations[i] != generation
    modifies captures, generations
    ensures ok <==> Reaches(m, State(0, from))
    ensures ok ==> captures[..] == MatchCaptures(m, from, nsub)
    ensures forall i :: 0 <= i < generations.Length ==>
              generations[i] == old(generations[i]) || generations[i] == generation
  {
    hide Ran, FirstPath, Stamped, Ready, Reaches, Next, AllStates;
    forall i | 0 <= i < captures.Length {
      captures[i] := -1;
    }
    captures[0] := from;
    assert captures[..] == StartCaptures((nsub + 1) * 2, from);
    ghost var caps, stamps := captures[..], generations[..];
    NothingStamped(m, stamps, generation);
    ok := ReRun(m, 0, from, captures, generations, generation, {});
    RunFromStart(m, from, generation, ok, caps, captures[..], stamps, generations[..]);
  }

  lemma RunFromStart(m: Machine, from: nat, generation: int, ok: bool,
                     caps: seq<int>, caps': seq<int>, stamps: seq<int>, stamps': seq<int>)
    requires Ran(m, State(0, from), {}, generation, ok, caps, caps', stamps, stamps')
    requires |stamps| == |stamps'|
    ensures ok <==> Reaches(m, State(0, from))
    ensures ok ==> FirstPath(m, State(0, from), {}).Some?
                   && caps' == Captured(m, FirstPath(m, State(0, from), {}).value, caps)
    ensures forall i :: 0 <= i < |stamps'| ==> stamps'[i] == stamps[i] || stamps'[i] == generation
  {
    hide FirstPath, Stamped, Ready, Reaches, Captured;
    SearchDecides(m, State(0, from));
  }

  /**
   `regexec`. The two tables are parameters: captures as wide as the groups ask for, and a stamp for each
   state of the program up to its first MATCH, none of them equal to a generation still to come.
   */
  method RegExec(re: Regex, text: seq<byte>, nmatch: nat, pmatch: array?<RegMatch>, notBol: bool, notEol: bool,
                 captures: array<int>, generations: array<int>, ghost length: nat)
    returns (result: int, ghost start: nat)
    requires pmatch != null ==> nmatch <= pmatch.Length
    requires captures != generations && captures.Length == (re.nsub + 1) * 2
    requires forall i :: 0 <= i < generations.Length ==> !(1 <= generations[i] <= |text| + 1)
    requires re.program.Some? ==>
               && EndsAtMatch(re.program.value, length)
               && generations.Length == length * (|text| + 1)
               && forall inst <- re.program.value :: inst.op == Save ==> 0 <= inst.x < captures.Length
    modifies captures, generations, pmatch
    ensures re.program.None? <==> result == REG_BADPAT
    ensures re.program.Some? ==>
              var m := MachineOf(re, length, text, notBol, notEol);
              && (result == REG_OK || result == REG_NOMATCH)
              && (result == REG_OK ==> IsLeftmost(m, start))
              && (result == REG_NOMATCH ==> forall i :: 0 <= i <= |text| ==> !Reaches(m, State(0, i)))
    ensures pmatch != null ==>
              if result == REG_OK && re.program.Some? && !re.nosub
              then Reported(old(pmatch[..]), pmatch[..], if nmatch > re.nsub + 1 then re.nsub + 1 else nmatch,
                            MatchCaptures(MachineOf(re, length, text, notBol, notEol), start, re.nsub))
              else pmatch[..] == old(pmatch[..])
  {
    hide Reaches, MatchCaptures;
    start := 0;
    if re.program.None? {
      return REG_BADPAT, start;
    }
    var program := re.program.value;
    var programLength := 0;
    while program[programLength].op != Match
      invariant programLength < length
      decreases length - programLength
    {
      programLength := programLength + 1;
    }
    programLength := programLength + 1;
    assert programLength == length;
    var m := MachineOf(re, programLength, text, notBol, notEol);

    result := REG_NOMATCH;
    var generation := 0;
    var from := 0;
    while from <= |text| && result == REG_NOMATCH
      invariant 0 <= generation < 0x1_0000_0000 && 0 <= from <= |text| + 1 && (generation <= from || result == REG_OK)
      invariant forall i :: 0 <= i < generations.Length ==> generations[i] <= generation || generations[i] > |text| + 1
      invariant result == REG_OK || result == REG_NOMATCH
      invariant result == REG_NOMATCH ==> forall i :: 0 <= i < from ==> !Reaches(m, State(0, i))
      invariant result == REG_OK ==> IsLeftmost(m, start) && captures[..] == MatchCaptures(m, start, re.nsub)
      invariant pmatch != null ==> pmatch[..] == old(pmatch[..])
      decreases |text| + 1 - from, result
    {
      generation := (generation + 1) % 0x1_0000_0000;
      if generation == 0 {
        forall i | 0 <= i < generations.Length {
          generations[i] := 0;
        }
        generation := 1;
      }
      var ok := TryAt(m, re.nsub, from, captures, generations, generation);
      if ok {
        result := REG_OK;
        start := from;
      } else {
        from := from + 1;
      }
    }

    if result == REG_OK && !re.nosub && pmatch != null {
      var count := nmatch;
      if count > re.nsub + 1 {
        count := re.nsub + 1;
      }
      for i := 0 to count
        invariant captures[..] == MatchCaptures(m, start, re.nsub)
        invariant forall j :: 0 <= j < i ==> pmatch[j] == RegMatch(captures[2 * j], captures[2 * j + 1])
        invariant forall j :: i <= j < pmatch.Length ==> pmatch[j] == old(pmatch[..])[j]
      {
        pmatch[i] := RegMatch(captures[i * 2], captures[i * 2 + 1]);
      }
    }
  }

  lemma NothingStamped(m: Machine, stamps: seq<int>, generation: int)
    requires Sized(m, stamps) && forall i :: 0 <= i < |stamps| ==> stamps[i] != generation
    ensures Ready(m, stamps, generation, {})
  {
    assert Stamped(m, stamps, generation) == {};
  }
}
