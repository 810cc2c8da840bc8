/**
 The order of the search, on the fields of the program: what one step may do, which path is found, and what
 the captures hold after it (lib/libc_regex.c:743-903).
 */
module RegexPriority {
  import opened Maybe
  import opened RegexVm
  import opened RegexExec

  // ----- one step, by value

  /** A letter of the ASCII alphabet in its other case. */
  predicate OtherCase(a: byte, b: byte) {
    (65 <= a <= 90 && b == a + 32) || (97 <= a <= 122 && b == a - 32)
  }

  predicate SameByte(a: byte, b: byte, icase: bool) {
    a == b || (icase && OtherCase(a, b))
  }

  /** A letter, a digit or the underscore. */
  predicate IsWordByte(c: byte) { 97 <= c <= 122 || 65 <= c <= 90 || 48 <= c <= 57 || c == 95 }

  predicate WordAt(text: seq<byte>, i: int) { 0 <= i < |text| && IsWordByte(text[i]) }

  predicate NewlineAt(text: seq<byte>, i: int) { 0 <= i < |text| && text[i] == 10 }

  /** What a single-byte instruction takes. */
  predicate Takes(inst: Inst, c: byte, f: Flags) {
    match inst.op
    case Char => SameByte(c, inst.ch, f.icase)
    case Any => !(f.newline && c == 10)
    case Class => exists b <- inst.cls :: SameByte(c, b, f.icase)
    case _ => false
  }

  /** Where the tests of positions hold. */
  predicate TestHolds(op: Op, text: seq<byte>, pos: nat, f: Flags) {
    match op
    case Bol => if pos == 0 then !f.notBol else f.newline && NewlineAt(text, pos - 1)
    case Eol => if pos == |text| then !f.notEol else f.newline && NewlineAt(text, pos)
    case WordB => WordAt(text, pos - 1) != WordAt(text, pos)
    case NotWordB => WordAt(text, pos - 1) == WordAt(text, pos)
    case _ => false
  }

  /** One step of a run. */
  predicate Steps(m: Machine, s: State, n: State) {
    && Valid(m, s)
    && var inst := m.program[s.pc];
       match inst.op
       case Match => false
       case Split => n == State(inst.x, s.pos) || n == State(inst.y, s.pos)
       case Jmp => n == State(inst.x, s.pos)
       case Save => n == State(s.pc + 1, s.pos)
       case Char => s.pos < |m.text| && Takes(inst, m.text[s.pos], m.flags) && n == State(s.pc + 1, s.pos + 1)
       case Any => s.pos < |m.text| && Takes(inst, m.text[s.pos], m.flags) && n == State(s.pc + 1, s.pos + 1)
       case Class => s.pos < |m.text| && Takes(inst, m.text[s.pos], m.flags) && n == State(s.pc + 1, s.pos + 1)
       case _ => TestHolds(inst.op, m.text, s.pos, m.flags) && n == State(s.pc + 1, s.pos)
  }

  lemma CaseFolded(a: byte, b: byte)
    ensures ToLower(a) == ToLower(b) <==> SameByte(a, b, true)
    ensures OtherCase(a, b) <==> a != b && (ToLower(a) == b || ToUpper(a) == b)
  {
  }

  lemma ClassTakes(inst: Inst, c: byte, f: Flags)
    requires inst.op == Class
    ensures ClassMatch(inst, c, f.icase) <==> Takes(inst, c, f)
  {
    CaseFolded(c, ToLower(c));
    CaseFolded(c, ToUpper(c));
    forall b | b in inst.cls
      ensures OtherCase(c, b) <==> c != b && (ToLower(c) == b || ToUpper(c) == b)
    {
      CaseFolded(c, b);
    }
    if ClassMatch(inst, c, f.icase) {
      if c in inst.cls {
        assert SameByte(c, c, f.icase);
      } else if ToLower(c) in inst.cls {
        assert SameByte(c, ToLower(c), f.icase);
      } else {
        assert SameByte(c, ToUpper(c), f.icase);
      }
    }
  }

  lemma BoundaryAt(m: Machine, pos: nat)
    requires pos <= |m.text|
    ensures AtBoundary(m, pos) <==> WordAt(m.text, pos - 1) != WordAt(m.text, pos)
  {
  }

  /** The ways on from a state, by the fields of its instruction, the text and the flags. */
  lemma StepMeaning(m: Machine, s: State, n: State)
    ensures n in Next(m, s) <==> Steps(m, s, n)
  {
    hide ClassMatch, ToLower, IsWord, AtBoundary, WordAt, SameByte;
    if Valid(m, s) {
      var inst := m.program[s.pc];
      BoundaryAt(m, s.pos);
      if s.pos < |m.text| {
        CaseFolded(m.text[s.pos], inst.ch);
        SameOrFolded(m.text[s.pos], inst.ch, m.flags.icase);
        if inst.op == Class {
          ClassTakes(inst, m.text[s.pos], m.flags);
        }
      }
    }
  }

  lemma SameOrFolded(a: byte, b: byte, icase: bool)
    ensures SameByte(a, b, icase) <==> if icase then SameByte(a, b, true) else a == b
  {
  }

  /** A path that has not come to a MATCH goes on. */
  lemma GoesOn(m: Machine, s: State, p: seq<State>)
    requires Accepting(m, s, p) && !IsMatch(m, s)
    ensures |p| > 1 && p[1] in Next(m, s) && Accepting(m, p[1], p[1..])
  {
    hide Next;
    StepOf(m, s, p);
  }

  // ----- which path is found

  /** From the first target of the SPLIT at `q[k]` an accepting path avoids the states of `q` so far. */
  ghost predicate Better(m: Machine, q: seq<State>, k: nat) {
    && k < |q| && Valid(m, q[k])
    && exists r :: Accepting(m, State(m.program[q[k].pc].x, q[k].pos), r) && CycleFree(r) && Apart(q[..k + 1], r)
  }

  predicate Apart(p: seq<State>, r: seq<State>) {
    forall i, j :: 0 <= i < |p| && 0 <= j < |r| ==> p[i] != r[j]
  }

  /** At `q[k]` the path leaves a SPLIT by its second target. */
  predicate Declines(m: Machine, q: seq<State>, k: int) {
    && 0 <= k < |q| - 1 && Valid(m, q[k])
    && var inst := m.program[q[k].pc];
       inst.op == Split && inst.x != inst.y && q[k + 1] == State(inst.y, q[k].pos)
  }

  /**
   The search finds exactly the accepting cycle-free path that leaves a SPLIT by its second target only where no
   such path goes on from the first one.
   */
  lemma FoundPath(m: Machine, s: State, q: seq<State>)
    ensures FirstPath(m, s, {}) == Some(q)
       <==> Accepting(m, s, q) && CycleFree(q) && forall k: nat :: Declines(m, q, k) ==> !Better(m, q, k)
  {
    hide FirstPath, Next, Better, Declines;
    if FirstPath(m, s, {}) == Some(q) {
      FirstPathSound(m, s, {});
      forall k: nat | Declines(m, q, k)
        ensures !Better(m, q, k)
      {
        NoneBetter(m, s, q, k);
      }
    }
    if Accepting(m, s, q) && CycleFree(q) && forall k: nat :: Declines(m, q, k) ==> !Better(m, q, k) {
      SearchFindsFirst(m, s) by { assert Reaches(m, s); }
      var p := FirstPath(m, s, {}).value;
      if p != q {
        var k :| Parts(m, p, q, k);
        PartsBetter(m, s, p, q, k);
      }
    }
  }

  lemma NoneBetter(m: Machine, s: State, q: seq<State>, k: nat)
    requires FirstPath(m, s, {}) == Some(q) && Accepting(m, s, q) && CycleFree(q) && Declines(m, q, k)
    ensures !Better(m, q, k)
  {
    hide FirstPath;
    if Better(m, q, k) {
      var inst := m.program[q[k].pc];
      var r :| Accepting(m, State(inst.x, q[k].pos), r) && CycleFree(r) && Apart(q[..k + 1], r);
      Spliced(m, s, q, k, r);
      var other := q[..k + 1] + r;
      SearchFindsFirst(m, s) by { assert Reaches(m, s); }
      assert other[k + 1] == r[0] != q[k + 1];
      var j :| Parts(m, q, other, j);
      hide Next;
      SamePrefix(q, other, j, k + 1);
    }
  }

  lemma Agree(q: seq<State>, other: seq<State>, k: int)
    requires 0 <= k <= |q| && k <= |other| && q[..k] == other[..k]
    ensures forall i :: 0 <= i < k ==> q[i] == other[i]
  {
    forall i | 0 <= i < k
      ensures q[i] == other[i]
    {
      assert q[..k][i] == other[..k][i];
    }
  }

  /** Two sequences part at one place only. */
  lemma SamePrefix(q: seq<State>, other: seq<State>, j: int, k: int)
    requires 0 <= j < |q| && j < |other| && q[..j] == other[..j] && q[j] != other[j]
    requires 0 <= k < |q| && k < |other| && q[..k] == other[..k] && q[k] != other[k]
    ensures j == k
  {
    Agree(q, other, j);
    Agree(q, other, k);
  }

  /** A path that goes on another way from `q[k]`. */
  lemma Spliced(m: Machine, s: State, q: seq<State>, k: nat, r: seq<State>)
    requires Accepting(m, s, q) && CycleFree(q) && CycleFree(r) && k < |q| && Apart(q[..k + 1], r)
    requires r != [] && Accepting(m, r[0], r) && r[0] in Next(m, q[k])
    ensures Accepting(m, s, q[..k + 1] + r) && CycleFree(q[..k + 1] + r)
  {
    hide Next;
    var head := q[..k + 1];
    var other := head + r;
    forall i | 0 <= i < |other| - 1
      ensures other[i + 1] in Next(m, other[i])
    {
      if i < k {
        assert other[i] == q[i] && other[i + 1] == q[i + 1];
      } else if i > k {
        assert other[i] == r[i - k - 1] && other[i + 1] == r[i - k];
      }
    }
    forall i, j | 0 <= i < j < |other|
      ensures other[i] != other[j]
    {
      if j <= k {
        assert other[i] == q[i] && other[j] == q[j];
      } else if i > k {
        assert other[i] == r[i - k - 1] && other[j] == r[j - k - 1];
      } else {
        assert other[i] == head[i] && other[j] == r[j - k - 1];
      }
    }
    assert other[|other| - 1] == r[|r| - 1];
  }

  /** Where the found path parts from another one, it shows a better way. */
  lemma PartsBetter(m: Machine, s: State, p: seq<State>, q: seq<State>, k: int)
    requires Accepting(m, s, p) && CycleFree(p) && Parts(m, p, q, k)
    ensures Declines(m, q, k - 1) && Better(m, q, k - 1)
  {
    hide Next;
    var r := p[k..];
    assert p[..k][k - 1] == p[k - 1] && q[..k][k - 1] == q[k - 1];
    forall i | 0 <= i < |r| - 1
      ensures r[i + 1] in Next(m, r[i])
    {
      assert p[k + i + 1] in Next(m, p[k + i]);
    }
    forall i, j | 0 <= i < |q[..k]| && 0 <= j < |r|
      ensures q[..k][i] != r[j]
    {
      assert q[..k][i] == p[..k][i] == p[i] && r[j] == p[k + j];
    }
    assert q[..k - 1 + 1] == q[..k];
    assert Accepting(m, r[0], r) && CycleFree(r);
  }

  /** A path that leaves a SPLIT by the second target only where the first one leads nowhere is the one found. */
  lemma GreedyPath(m: Machine, s: State, q: seq<State>)
    requires Accepting(m, s, q) && CycleFree(q)
    requires forall k: nat :: Declines(m, q, k) ==> !Reaches(m, State(m.program[q[k].pc].x, q[k].pos))
    ensures FirstPath(m, s, {}) == Some(q)
  {
    hide FirstPath, CycleFree, Accepting;
    forall k: nat | Declines(m, q, k)
      ensures !Better(m, q, k)
    {
    }
    FoundPath(m, s, q);
  }

  // ----- captures, by value

  predicate SavesTo(m: Machine, s: State, slot: nat) {
    Valid(m, s) && m.program[s.pc].op == Save && m.program[s.pc].x == slot
  }

  /** At `path[i]` the slot is saved for the last time. */
  predicate LastSave(m: Machine, path: seq<State>, slot: nat, i: int) {
    0 <= i < |path| && SavesTo(m, path[i], slot) && forall j :: i < j < |path| ==> !SavesTo(m, path[j], slot)
  }

  /** A slot holds the position of the last SAVE for it on the path, or what it held before. */
  lemma {:induction false} CapturedSlot(m: Machine, path: seq<State>, caps: seq<int>, slot: nat)
    requires slot < |caps|
    ensures |Captured(m, path, caps)| == |caps|
    ensures (forall i :: 0 <= i < |path| ==> !SavesTo(m, path[i], slot)) ==> Captured(m, path, caps)[slot] == caps[slot]
    ensures forall i :: LastSave(m, path, slot, i) ==> Captured(m, path, caps)[slot] == path[i].pos
    decreases |path|
  {
    if path != [] {
      var rest := path[1..];
      var caps' := AfterSave(m, path[0], caps);
      CapturedSlot(m, rest, caps', slot);
      hide SavesTo;
      SavedSlot(m, path[0], caps, slot);
      if forall i :: 0 <= i < |path| ==> !SavesTo(m, path[i], slot) {
        assert !SavesTo(m, path[0], slot);
        forall i | 0 <= i < |rest|
          ensures !SavesTo(m, rest[i], slot)
        {
          assert rest[i] == path[i + 1];
        }
      }
      forall i | LastSave(m, path, slot, i)
        ensures Captured(m, path, caps)[slot] == path[i].pos
      {
        forall j | i <= j < |rest|
          ensures !SavesTo(m, rest[j], slot)
        {
          assert rest[j] == path[j + 1];
        }
        if i > 0 {
          assert rest[i - 1] == path[i] && LastSave(m, rest, slot, i - 1);
        }
      }
    }
  }

  lemma SavedSlot(m: Machine, s: State, caps: seq<int>, slot: nat)
    requires slot < |caps|
    ensures |AfterSave(m, s, caps)| == |caps|
    ensures AfterSave(m, s, caps)[slot] == if SavesTo(m, s, slot) then s.pos else caps[slot]
  {
  }

  /** Before a run the first slot holds the start and the others hold nothing. */
  lemma FreshCaptures(count: nat, start: nat, slot: nat)
    requires slot < count
    ensures |StartCaptures(count, start)| == count
    ensures StartCaptures(count, start)[slot] == if slot == 0 then start else -1
  {
  }

  /** What `regexec` reports for a group: the last positions its two slots were saved at on the path found, or -1. */
  lemma ReportedSlot(m: Machine, start: nat, nsub: nat, path: seq<State>, slot: nat)
    requires FirstPath(m, State(0, start), {}) == Some(path) && slot < (nsub + 1) * 2
    ensures |MatchCaptures(m, start, nsub)| == (nsub + 1) * 2
    ensures var r := MatchCaptures(m, start, nsub)[slot];
            && ((forall i :: 0 <= i < |path| ==> !SavesTo(m, path[i], slot)) ==> r == if slot == 0 then start else -1)
            && forall i :: LastSave(m, path, slot, i) ==> r == path[i].pos
  {
    hide FirstPath, SavesTo, Captured;
    FreshCaptures((nsub + 1) * 2, start, slot);
    CapturedSlot(m, path, StartCaptures((nsub + 1) * 2, start), slot);
  }
}
