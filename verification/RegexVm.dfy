/**
 The backtracking matcher: `re_run` explores the graph of (instruction, position) states depth
 first and stamps every state it enters (lib/libc_regex.c:780-903).

 The reference is a search that knows nothing of stamps: `FirstPath` tries the branches of a SPLIT
 in order and only refuses to step on a state that is already on the current path.
 */
module RegexVm {
  import Bits
  import opened Maybe

  type byte = Bits.byte

  datatype Op = Char | Any | Class | Split | Jmp | Save | Bol | Eol | WordB | NotWordB | Match

  /** One instruction; the 256-bit class bitmap is a set of bytes. */
  datatype Inst = Inst(op: Op, ch: byte, cls: set<byte>, x: int, y: int)

  datatype Flags = Flags(icase: bool, newline: bool, notBol: bool, notEol: bool)

  datatype Machine = Machine(program: seq<Inst>, text: seq<byte>, flags: Flags)

  datatype State = State(pc: int, pos: nat)

  const REG_OK := 0
  const REG_NOMATCH := 1
  const REG_BADPAT := 2

  function ToLower(c: byte): byte {
    if 'A' as int <= c <= 'Z' as int then c + 32 else c
  }

  function ToUpper(c: byte): byte {
    if 'a' as int <= c <= 'z' as int then c - 32 else c
  }

  predicate IsWord(c: byte) {
    'a' as int <= c <= 'z' as int || 'A' as int <= c <= 'Z' as int || '0' as int <= c <= '9' as int || c == '_' as int
  }

  predicate ClassMatch(inst: Inst, c: byte, icase: bool) {
    c in inst.cls || (icase && (ToLower(c) in inst.cls || ToUpper(c) in inst.cls))
  }

  const NEWLINE: byte := 10

  predicate Valid(m: Machine, s: State) {
    0 <= s.pc < |m.program| && s.pos <= |m.text|
  }

  predicate IsMatch(m: Machine, s: State) {
    Valid(m, s) && m.program[s.pc].op == Match
  }

  /** Whether an instruction that reads a byte or tests a position lets the run go on. */
  predicate Passes(m: Machine, s: State)
    requires Valid(m, s)
  {
    var inst := m.program[s.pc];
    match inst.op
    case Char =>
      s.pos < |m.text| && (if m.flags.icase then ToLower(m.text[s.pos]) == ToLower(inst.ch)
                           else m.text[s.pos] == inst.ch)
    case Any => s.pos < |m.text| && !(m.flags.newline && m.text[s.pos] == NEWLINE)
    case Class => s.pos < |m.text| && ClassMatch(inst, m.text[s.pos], m.flags.icase)
    case Bol =>
      if s.pos == 0 then !m.flags.notBol else m.flags.newline && m.text[s.pos - 1] == NEWLINE
    case Eol =>
      if s.pos == |m.text| then !m.flags.notEol else m.flags.newline && m.text[s.pos] == NEWLINE
    case WordB => AtBoundary(m, s.pos)
    case NotWordB => !AtBoundary(m, s.pos)
    case _ => true
  }

  predicate AtBoundary(m: Machine, pos: nat)
    requires pos <= |m.text|
  {
    (pos > 0 && IsWord(m.text[pos - 1])) != (pos < |m.text| && IsWord(m.text[pos]))
  }

  /** The states a run can go to, the preferred one first. */
  function Next(m: Machine, s: State): (r: seq<State>)
    ensures |r| <= 2
    ensures Valid(m, s) ==> forall n <- r :: n.pos <= |m.text|
    ensures IsMatch(m, s) ==> r == []
  {
    if !Valid(m, s) then []
    else
      var inst := m.program[s.pc];
      match inst.op
      case Match => []
      case Split => [State(inst.x, s.pos), State(inst.y, s.pos)]
      case Jmp => [State(inst.x, s.pos)]
      case Char => if Passes(m, s) then [State(s.pc + 1, s.pos + 1)] else []
      case Any => if Passes(m, s) then [State(s.pc + 1, s.pos + 1)] else []
      case Class => if Passes(m, s) then [State(s.pc + 1, s.pos + 1)] else []
      case Save => [State(s.pc + 1, s.pos)]
      case _ => if Passes(m, s) then [State(s.pc + 1, s.pos)] else []
  }

  // ----- the reference search

  function AllStates(m: Machine): set<State> {
    set pc, pos | 0 <= pc < |m.program| && 0 <= pos <= |m.text| :: State(pc, pos)
  }

  lemma InAllStates(m: Machine, s: State)
    ensures s in AllStates(m) <==> Valid(m, s)
  {
  }

  /** The accepting path found first when no state may repeat on a path; `above` is the path so far. */
  function FirstPath(m: Machine, s: State, above: set<State>): (r: Option<seq<State>>)
    decreases |AllStates(m) - above|, 1
  {
    if !Valid(m, s) || s in above then None
    else if IsMatch(m, s) then Some([s])
    else
      InAllStates(m, s);
      Smaller(AllStates(m) - above, s);
      assert AllStates(m) - (above + {s}) == AllStates(m) - above - {s};
      match FirstOf(m, Next(m, s), above + {s})
      case None => None
      case Some(p) => Some([s] + p)
  }

  function FirstOf(m: Machine, choices: seq<State>, above: set<State>): (r: Option<seq<State>>)
    decreases |AllStates(m) - above|, 2, |choices|
  {
    if choices == [] then None
    else
      var r := FirstPath(m, choices[0], above);
      if r.Some? then r else FirstOf(m, choices[1..], above)
  }

  lemma Smaller<T>(s: set<T>, x: T)
    requires x in s
    ensures |s - {x}| < |s|
  {
  }

  /** The captures after a run along a path. */
  function Captured(m: Machine, path: seq<State>, caps: seq<int>): seq<int> {
    if path == [] then caps
    else Captured(m, path[1..], AfterSave(m, path[0], caps))
  }

  function AfterSave(m: Machine, s: State, caps: seq<int>): seq<int> {
    if Valid(m, s) && m.program[s.pc].op == Save && 0 <= m.program[s.pc].x < |caps|
    then caps[m.program[s.pc].x := s.pos]
    else caps
  }

  // ----- what the search finds

  predicate IsPath(m: Machine, path: seq<State>) {
    forall i :: 0 <= i < |path| - 1 ==> path[i + 1] in Next(m, path[i])
  }

  predicate Accepting(m: Machine, s: State, path: seq<State>) {
    path != [] && path[0] == s && IsPath(m, path) && IsMatch(m, path[|path| - 1])
  }

  ghost predicate Reaches(m: Machine, s: State) {
    exists path :: Accepting(m, s, path)
  }

  predicate CycleFree(path: seq<State>) {
    forall i, j :: 0 <= i < j < |path| ==> path[i] != path[j]
  }

  predicate Avoids(path: seq<State>, above: set<State>) {
    forall s <- path :: s !in above
  }

  /** `p` is `q`, or takes the first target of the SPLIT at which the two part. */
  ghost predicate Precedes(m: Machine, p: seq<State>, q: seq<State>) {
    p == q || exists k :: Parts(m, p, q, k)
  }

  /** The paths agree up to a SPLIT, where `p` goes on to its `x` and `q` to its `y`. */
  predicate Parts(m: Machine, p: seq<State>, q: seq<State>, k: int) {
    && 0 < k < |p| && k < |q| && p[..k] == q[..k] && Valid(m, p[k - 1])
    && var inst, pos := m.program[p[k - 1].pc], p[k - 1].pos;
       inst.op == Split && p[k] == State(inst.x, pos) && q[k] == State(inst.y, pos) && p[k] != q[k]
  }

  /** What the search returns is an accepting cycle-free path that avoids the states above it. */
  lemma {:induction false} FirstPathSound(m: Machine, s: State, above: set<State>)
    ensures var r := FirstPath(m, s, above);
            r.Some? ==> Accepting(m, s, r.value) && CycleFree(r.value) && Avoids(r.value, above)
    decreases |AllStates(m) - above|, 1
  {
    if Valid(m, s) && s !in above && !IsMatch(m, s) {
      InAllStates(m, s);
      Smaller(AllStates(m) - above, s);
      assert AllStates(m) - (above + {s}) == AllStates(m) - above - {s};
      FirstOfSound(m, Next(m, s), above + {s});
      var r := FirstOf(m, Next(m, s), above + {s});
      if r.Some? {
        Extend(m, s, r.value);
      }
    }
  }

  lemma {:induction false} FirstOfSound(m: Machine, choices: seq<State>, above: set<State>)
    ensures var r := FirstOf(m, choices, above);
            r.Some? ==> && r.value != [] && r.value[0] in choices && Accepting(m, r.value[0], r.value)
                        && CycleFree(r.value) && Avoids(r.value, above)
    decreases |AllStates(m) - above|, 2, |choices|
  {
    if choices != [] {
      FirstPathSound(m, choices[0], above);
      FirstOfSound(m, choices[1..], above);
    }
  }

  lemma Extend(m: Machine, s: State, p: seq<State>)
    requires p != [] && p[0] in Next(m, s) && Accepting(m, p[0], p)
    ensures Accepting(m, s, [s] + p)
  {
    var path := [s] + p;
    forall i | 0 <= i < |path| - 1
      ensures path[i + 1] in Next(m, path[i])
    {
      if i > 0 {
        assert path[i] == p[i - 1] && path[i + 1] == p[i];
      }
    }
  }

  /** The search misses no accepting cycle-free path, and what it returns comes before all of them. */
  lemma {:induction false} FirstPathFirst(m: Machine, s: State, above: set<State>, q: seq<State>)
    requires Accepting(m, s, q) && CycleFree(q) && Avoids(q, above)
    ensures FirstPath(m, s, above).Some? && Precedes(m, FirstPath(m, s, above).value, q)
    decreases |AllStates(m) - above|, 1
  {
    if !IsMatch(m, s) {
      StepOf(m, s, q);
      FirstUnfold(m, s, above);
      hide Next, AllStates, FirstPath, FirstOf, Precedes, IsMatch;
      var rest := q[1..];
      FirstOfFirst(m, Next(m, s), above + {s}, rest);
      var first := FirstOf(m, Next(m, s), above + {s}).value;
      assert q == [s] + rest;
      PrependStep(m, s, first, rest);
    } else {
      LastState(m, s, q);
      assert q == [s];
    }
  }

  /** The rest of a path that does not end at once. */
  lemma StepOf(m: Machine, s: State, q: seq<State>)
    requires Accepting(m, s, q) && !IsMatch(m, s)
    ensures |q| > 1 && q[1] in Next(m, s) && Valid(m, s) && Accepting(m, q[1], q[1..])
    ensures CycleFree(q) ==> CycleFree(q[1..])
    ensures forall above :: CycleFree(q) && Avoids(q, above) ==> Avoids(q[1..], above + {s})
  {
    hide Next;
    var rest := q[1..];
    assert q[0 + 1] in Next(m, q[0]);
    forall i | 0 <= i < |rest| - 1
      ensures rest[i + 1] in Next(m, rest[i])
    {
      assert q[i + 2] in Next(m, q[i + 1]);
    }
    ValidStep(m, s, q[1]);
  }

  lemma ValidStep(m: Machine, s: State, n: State)
    requires n in Next(m, s)
    ensures Valid(m, s) && !IsMatch(m, s)
  {
  }

  lemma LastState(m: Machine, s: State, q: seq<State>)
    requires Accepting(m, s, q) && IsMatch(m, s)
    ensures |q| == 1
  {
    assert Next(m, s) == [];
    SecondState(m, q);
  }

  lemma SecondState(m: Machine, q: seq<State>)
    requires q != [] && IsPath(m, q)
    ensures |q| == 1 || q[1] in Next(m, q[0])
  {
    hide Next;
    if |q| > 1 {
      assert q[0 + 1] in Next(m, q[0]);
    }
  }

  lemma FirstUnfold(m: Machine, s: State, above: set<State>)
    requires Valid(m, s) && !IsMatch(m, s) && s !in above
    ensures |AllStates(m) - (above + {s})| < |AllStates(m) - above|
    ensures FirstPath(m, s, above)
         == match FirstOf(m, Next(m, s), above + {s}) case None => None case Some(p) => Some([s] + p)
  {
    hide Next, AllStates;
    InAllStates(m, s);
    Smaller(AllStates(m) - above, s);
    assert AllStates(m) - (above + {s}) == AllStates(m) - above - {s};
  }

  /** Along one list of choices: the first one with a path decides. */
  ghost predicate Before(m: Machine, choices: seq<State>, p: seq<State>, q: seq<State>) {
    && p != [] && q != []
    && (if p[0] == q[0] then Precedes(m, p, q)
        else exists i, j :: 0 <= i < j < |choices| && choices[i] == p[0] && choices[j] == q[0])
  }

  lemma {:induction false} FirstOfFirst(m: Machine, choices: seq<State>, above: set<State>, q: seq<State>)
    requires q != [] && q[0] in choices && Accepting(m, q[0], q) && CycleFree(q) && Avoids(q, above)
    ensures FirstOf(m, choices, above).Some? && Before(m, choices, FirstOf(m, choices, above).value, q)
    decreases |AllStates(m) - above|, 2, |choices|
  {
    FirstPathSound(m, choices[0], above);
    if choices[0] == q[0] {
      FirstPathFirst(m, choices[0], above, q);
    } else {
      var j :| 0 <= j < |choices| && choices[j] == q[0];
      assert choices[1..][j - 1] == q[0];
      FirstOfFirst(m, choices[1..], above, q);
      if FirstPath(m, choices[0], above).None? {
        var p := FirstOf(m, choices[1..], above).value;
        if p[0] != q[0] {
          var i, k :| 0 <= i < k < |choices[1..]| && choices[1..][i] == p[0] && choices[1..][k] == q[0];
          assert choices[i + 1] == p[0] && choices[k + 1] == q[0];
        }
      }
    }
  }

  lemma PrependStep(m: Machine, s: State, p: seq<State>, q: seq<State>)
    requires Before(m, Next(m, s), p, q)
    ensures Precedes(m, [s] + p, [s] + q)
  {
    var p', q' := [s] + p, [s] + q;
    if p[0] == q[0] {
      if p != q {
        var k :| Parts(m, p, q, k);
        assert p'[..k + 1] == [s] + p[..k] && q'[..k + 1] == [s] + q[..k];
        assert Parts(m, p', q', k + 1);
      }
    } else {
      assert p'[..1] == [s] == q'[..1];
      TwoWays(m, s, p[0], q[0]);
      assert Parts(m, p', q', 1);
    }
  }

  /** Only a SPLIT has two ways on, to its `x` before its `y`. */
  lemma TwoWays(m: Machine, s: State, a: State, b: State)
    requires exists i, j :: 0 <= i < j < |Next(m, s)| && Next(m, s)[i] == a && Next(m, s)[j] == b
    ensures Valid(m, s)
    ensures var inst := m.program[s.pc]; inst.op == Split && a == State(inst.x, s.pos) && b == State(inst.y, s.pos)
  {
  }

  /** Cutting out the loops of an accepting path. */
  lemma {:induction false} CutLoops(m: Machine, s: State, p: seq<State>) returns (q: seq<State>)
    requires Accepting(m, s, p)
    ensures Accepting(m, s, q) && CycleFree(q)
    decreases |p|
  {
    hide Next;
    if CycleFree(p) {
      q := p;
    } else {
      var i, j :| 0 <= i < j < |p| && p[i] == p[j];
      var shorter := p[..i] + p[j..];
      forall k | 0 <= k < |shorter| - 1
        ensures shorter[k + 1] in Next(m, shorter[k])
      {
        if k < i {
          assert shorter[k] == p[k] && shorter[k + 1] == p[k + 1];
        } else {
          assert shorter[k] == p[k - i + j] && shorter[k + 1] == p[k - i + j + 1];
        }
      }
      assert shorter[|shorter| - 1] == p[|p| - 1];
      assert shorter[0] == s;
      q := CutLoops(m, s, shorter);
    }
  }

  /** The search decides reachability of a MATCH, cycles or not. */
  lemma SearchDecides(m: Machine, s: State)
    ensures FirstPath(m, s, {}).Some? <==> Reaches(m, s)
  {
    FirstPathSound(m, s, {});
    if Reaches(m, s) {
      var p :| Accepting(m, s, p);
      var q := CutLoops(m, s, p);
      FirstPathFirst(m, s, {}, q);
    }
  }

  /** The path found, over all accepting cycle-free paths, is the first in priority order. */
  lemma SearchFindsFirst(m: Machine, s: State)
    requires Reaches(m, s)
    ensures FirstPath(m, s, {}).Some?
    ensures var p := FirstPath(m, s, {}).value;
            && Accepting(m, s, p) && CycleFree(p)
            && forall q :: Accepting(m, s, q) && CycleFree(q) ==> Precedes(m, p, q)
  {
    SearchDecides(m, s);
    FirstPathSound(m, s, {});
    forall q | Accepting(m, s, q) && CycleFree(q)
      ensures Precedes(m, FirstPath(m, s, {}).value, q)
    {
      FirstPathFirst(m, s, {}, q);
    }
  }
}