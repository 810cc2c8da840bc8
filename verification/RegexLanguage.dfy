/**
 What the code of an expression reads: the accepting runs of a compiled program are exactly the words
 of a language defined on the expression alone (lib/libc_regex.c:478-720, 801-903).

 An item can be left in two ways, by falling off its end or by a jump to its end. What follows is
 entered at its first instruction in the one case, and past the SPLITs put in front of it in the other.
 */
module RegexLanguage {
  import opened RegexVm
  import opened RegexSyntax
  import opened RegexBuild
  import opened RegexCode
  import opened RegexLayout
  import opened RegexRuns
  import opened RegexCuts

  // ----- the language

  /** `text[i..j]` is read by the expression when it is entered by `v` and left by `w`. */
  ghost predicate Reads(re: Re, f: Flags, text: seq<byte>, v: Way, i: nat, w: Way, j: nat)
    decreases re, 0
  {
    match re
    case Empty => i == j <= |text| && v == w
    case Cons(a, q, rest) =>
      exists k: nat, u: Way :: i <= k <= j && ReadsItem(a, q, f, text, v, i, u, k) && Reads(rest, f, text, u, k, w, j)
  }

  ghost predicate ReadsItem(a: Atom, q: Quant, f: Flags, text: seq<byte>, v: Way, i: nat, w: Way, j: nat)
    decreases a, 3
  {
    match q
    case Once => ReadsAtom(a, f, text, v, i, w, j)
    case Plus => w == Jump && exists n: nat, u: Way :: n >= 1 && Times(a, f, text, v, i, u, j, n)
    case Repeat(min, max) =>
      if min > 0 then ReadsRepeat(a, f, text, v, i, w, j, min, if max > min then max - min else 0)
      else if max <= 1 then ReadsOption(a, f, text, v, i, w, j)
      else ReadsRetries(a, f, text, v, i, w, j, max > 2)
    case Loop(_) => false
  }

  /** The atom has no instruction of its own. */
  predicate Bare(a: Atom) { AtomFragment(a).code == [] }

  /** Skipped, which only the SPLIT in front allows, or read once. */
  ghost predicate ReadsOption(a: Atom, f: Flags, text: seq<byte>, v: Way, i: nat, w: Way, j: nat)
    decreases a, 1
  {
    || (v == Fall && w == Jump && i == j <= |text|)
    || ReadsAtom(a, f, text, if Bare(a) then Jump else v, i, w, j)
  }

  /** `{0,n}` for `n` above 1: optional once, and then what the shortened copies read. */
  ghost predicate ReadsRetries(a: Atom, f: Flags, text: seq<byte>, v: Way, i: nat, w: Way, j: nat, many: bool)
    decreases a, 2
  {
    exists k: nat, u: Way ::
      i <= k <= j && ReadsOption(a, f, text, v, i, u, k) && Retried(AtomFragment(a), f, text, k, w, j, many)
  }

  /** A copy behind another one begins at its first instruction, if it has one. */
  function Anew(a: Atom, u: Way): Way { if Bare(a) then u else Fall }

  /** `n` copies, the first one entered by `v`. */
  ghost predicate Times(a: Atom, f: Flags, text: seq<byte>, v: Way, i: nat, w: Way, j: nat, n: nat)
    decreases a, 1, n
  {
    if n <= 1 then ReadsAtom(a, f, text, v, i, w, j)
    else exists k: nat, u: Way ::
           i <= k <= j && Times(a, f, text, v, i, u, k, n - 1) && ReadsAtom(a, f, text, Anew(a, u), k, w, j)
  }

  /** `min` copies, then `extra` optional ones. */
  ghost predicate ReadsRepeat(a: Atom, f: Flags, text: seq<byte>, v: Way, i: nat, w: Way, j: nat, min: nat, extra: nat)
    decreases a, 2, extra
  {
    if extra == 0 then Times(a, f, text, v, i, w, j, min)
    else
      var less: nat := extra - 1;
      exists k: nat, u: Way ::
        i <= k <= j && ReadsRepeat(a, f, text, v, i, u, k, min, less) && ReadsOption(a, f, text, Fall, k, w, j)
  }

  ghost predicate ReadsAtom(a: Atom, f: Flags, text: seq<byte>, v: Way, i: nat, w: Way, j: nat)
    decreases a, 0
  {
    match a
    case Group(body) => Reads(body, f, text, v, i, w, j)
    case Capture(inner) =>
      w == Fall && (ReadsAtom(inner, f, text, Fall, i, Fall, j) || ReadsAtom(inner, f, text, Fall, i, Jump, j))
    case Choice(first, others) =>
      && w == Jump
      && (ReadsBranch(first, f, text, v, i, j)
          || (v == Fall && (i == j <= |text| || ReadsSome(others, f, text, i, j))))
    case _ => w == Fall && ReadsLeaf(a, f, text, i, j)
  }

  /** A branch can be left either way: its JMP follows. */
  ghost predicate ReadsBranch(re: Re, f: Flags, text: seq<byte>, v: Way, i: nat, j: nat)
    decreases re, 1
  {
    Reads(re, f, text, v, i, Fall, j) || Reads(re, f, text, v, i, Jump, j)
  }

  ghost predicate ReadsSome(alts: Alts, f: Flags, text: seq<byte>, i: nat, j: nat)
    decreases alts, 0
  {
    ReadsBranch(alts.re, f, text, Fall, i, j) || (alts.More? && ReadsSome(alts.more, f, text, i, j))
  }

  predicate IsLeaf(a: Atom) { !a.Group? && !a.Capture? && !a.Choice? }

  /** One byte, or a test of the position. */
  predicate ReadsLeaf(a: Atom, f: Flags, text: seq<byte>, i: nat, j: nat) {
    match a
    case Lit(c) => j == i + 1 <= |text| && (if f.icase then ToLower(text[i]) == ToLower(c) else text[i] == c)
    case Dot => j == i + 1 <= |text| && !(f.newline && text[i] == NEWLINE)
    case Set(s) => j == i + 1 <= |text|
                   && (text[i] in s || (f.icase && (ToLower(text[i]) in s || ToUpper(text[i]) in s)))
    case Anchor(e) => i == j <= |text| && EdgeAt(e, f, text, i)
    case _ => false
  }

  /** `^` and `$` also hold next to a newline under REG_NEWLINE; a boundary has a word byte on one side only. */
  predicate EdgeAt(e: Edge, f: Flags, text: seq<byte>, i: nat)
    requires i <= |text|
  {
    var before, after := i > 0 && IsWord(text[i - 1]), i < |text| && IsWord(text[i]);
    match e
    case LineStart => (i == 0 && !f.notBol) || (i > 0 && f.newline && text[i - 1] == NEWLINE)
    case LineEnd => (i == |text| && !f.notEol) || (i < |text| && f.newline && text[i] == NEWLINE)
    case Boundary => before != after
    case NoBoundary => before == after
  }

  // ----- words lie within the text

  lemma {:induction false} ReadsRange(re: Re, f: Flags, text: seq<byte>, v: Way, i: nat, w: Way, j: nat)
    requires Reads(re, f, text, v, i, w, j)
    ensures i <= j <= |text|
    decreases re
  {
    if re.Cons? {
      hide ReadsItem;
      var k: nat, u: Way :|
        i <= k <= j && ReadsItem(re.atom, re.quant, f, text, v, i, u, k) && Reads(re.rest, f, text, u, k, w, j);
      ReadsRange(re.rest, f, text, u, k, w, j);
    }
  }

  lemma {:induction false} AtomRange(a: Atom, f: Flags, text: seq<byte>, v: Way, i: nat, w: Way, j: nat)
    requires ReadsAtom(a, f, text, v, i, w, j)
    ensures i <= j <= |text|
    decreases a, 0
  {
    hide Reads;
    match a
    case Group(body) => ReadsRange(body, f, text, v, i, w, j);
    case Capture(inner) =>
      AtomRange(inner, f, text, Fall, i, if ReadsAtom(inner, f, text, Fall, i, Fall, j) then Fall else Jump, j);
    case Choice(first, others) =>
      if ReadsBranch(first, f, text, v, i, j) {
        BranchRange(first, f, text, v, i, j);
      } else if i != j || j > |text| {
        SomeRange(others, f, text, i, j);
      }
    case _ =>
  }

  lemma BranchRange(re: Re, f: Flags, text: seq<byte>, v: Way, i: nat, j: nat)
    requires ReadsBranch(re, f, text, v, i, j)
    ensures i <= j <= |text|
  {
    ReadsRange(re, f, text, v, i, if Reads(re, f, text, v, i, Fall, j) then Fall else Jump, j);
  }

  lemma {:induction false} SomeRange(alts: Alts, f: Flags, text: seq<byte>, i: nat, j: nat)
    requires ReadsSome(alts, f, text, i, j)
    ensures i <= j <= |text|
    decreases alts
  {
    if ReadsBranch(alts.re, f, text, Fall, i, j) {
      BranchRange(alts.re, f, text, Fall, i, j);
    } else {
      SomeRange(alts.more, f, text, i, j);
    }
  }

  lemma OptionRange(a: Atom, f: Flags, text: seq<byte>, v: Way, i: nat, w: Way, j: nat)
    requires ReadsOption(a, f, text, v, i, w, j)
    ensures i <= j <= |text|
  {
    hide ReadsAtom, Bare;
    if !(v == Fall && w == Jump && i == j <= |text|) {
      AtomRange(a, f, text, if Bare(a) then Jump else v, i, w, j);
    }
  }

  // ----- the language, one step at a time

  lemma ConsReads(a: Atom, q: Quant, rest: Re, f: Flags, text: seq<byte>, v: Way, i: nat, u: Way, k: nat, w: Way, j: nat)
    requires ReadsItem(a, q, f, text, v, i, u, k) && Reads(rest, f, text, u, k, w, j) && i <= k <= j
    ensures Reads(Cons(a, q, rest), f, text, v, i, w, j)
  {
  }

  lemma ReadsCons(a: Atom, q: Quant, rest: Re, f: Flags, text: seq<byte>, v: Way, i: nat, w: Way, j: nat)
    returns (u: Way, k: nat)
    requires Reads(Cons(a, q, rest), f, text, v, i, w, j)
    ensures ReadsItem(a, q, f, text, v, i, u, k) && Reads(rest, f, text, u, k, w, j) && i <= k <= j
  {
    k, u :| i <= k <= j && ReadsItem(a, q, f, text, v, i, u, k) && Reads(rest, f, text, u, k, w, j);
  }

  lemma NothingRead(f: Flags, text: seq<byte>)
    ensures forall v, i: nat, w, j: nat :: Reads(Empty, f, text, v, i, w, j) <==> i == j <= |text| && v == w
    ensures ReFragment(Empty) == Fragment([], 0)
  {
  }

  lemma OneTime(a: Atom, f: Flags, text: seq<byte>)
    ensures forall v, i: nat, w, j: nat :: Times(a, f, text, v, i, w, j, 1) <==> ReadsAtom(a, f, text, v, i, w, j)
  {
  }

  lemma TimesMore(a: Atom, f: Flags, text: seq<byte>, v: Way, i: nat, u: Way, k: nat, w: Way, j: nat, n: nat)
    requires n >= 1 && Times(a, f, text, v, i, u, k, n) && ReadsAtom(a, f, text, Anew(a, u), k, w, j) && i <= k <= j
    ensures Times(a, f, text, v, i, w, j, n + 1)
  {
  }

  lemma TimesLast(a: Atom, f: Flags, text: seq<byte>, v: Way, i: nat, w: Way, j: nat, n: nat) returns (u: Way, k: nat)
    requires n > 1 && Times(a, f, text, v, i, w, j, n)
    ensures Times(a, f, text, v, i, u, k, n - 1) && ReadsAtom(a, f, text, Anew(a, u), k, w, j) && i <= k <= j
  {
    k, u :| i <= k <= j && Times(a, f, text, v, i, u, k, n - 1) && ReadsAtom(a, f, text, Anew(a, u), k, w, j);
  }

  lemma {:induction false} TimesRange(a: Atom, f: Flags, text: seq<byte>, v: Way, i: nat, w: Way, j: nat, n: nat)
    requires Times(a, f, text, v, i, w, j, n)
    ensures i <= j <= |text|
    decreases n
  {
    hide ReadsAtom, Anew;
    if n > 1 {
      var u, k := TimesLast(a, f, text, v, i, w, j, n);
      AtomRange(a, f, text, Anew(a, u), k, w, j);
    } else {
      AtomRange(a, f, text, v, i, w, j);
    }
  }

  lemma RepeatMore(a: Atom, f: Flags, text: seq<byte>, v: Way, i: nat, u: Way, k: nat, w: Way, j: nat, min: nat, extra: nat)
    requires ReadsRepeat(a, f, text, v, i, u, k, min, extra) && ReadsOption(a, f, text, Fall, k, w, j) && i <= k <= j
    ensures ReadsRepeat(a, f, text, v, i, w, j, min, extra + 1)
  {
    hide ReadsOption;
  }

  lemma RepeatLast(a: Atom, f: Flags, text: seq<byte>, v: Way, i: nat, w: Way, j: nat, min: nat, extra: nat)
    returns (u: Way, k: nat)
    requires extra > 0 && ReadsRepeat(a, f, text, v, i, w, j, min, extra)
    ensures ReadsRepeat(a, f, text, v, i, u, k, min, extra - 1) && ReadsOption(a, f, text, Fall, k, w, j) && i <= k <= j
  {
    hide ReadsOption;
    k, u :| i <= k <= j && ReadsRepeat(a, f, text, v, i, u, k, min, extra - 1) && ReadsOption(a, f, text, Fall, k, w, j);
  }

  /** Where a copy behind another one is entered. */
  lemma AnewInlet(a: Atom, u: Way, base: int, exit: int)
    requires Compact(AtomFragment(a))
    ensures Inlet(AtomFragment(a), Anew(a, u), base, exit) == Inlet(Front(AtomFragment(a)), u, base, exit)
  {
    hide AtomFragment;
  }

  // ----- every accepting run reads a word

  lemma {:induction false} ReSound(m: Machine, re: Re, base: nat, exit: int, v: Way, i: nat, k: nat, end: nat)
    returns (w: Way, j: nat, k': nat)
    requires Holds(m, base, exit, ReFragment(re)) && i <= |m.text|
    requires Accepts(m, State(Inlet(ReFragment(re), v, base, exit), i), k, end)
    ensures i <= j <= |m.text| && k' <= k && Reads(re, m.flags, m.text, v, i, w, j)
    ensures Accepts(m, State(Outlet(ReFragment(re), w, base, exit), j), k', end)
    decreases re, 0
  {
    hide Reads, ItemFragment, ReadsItem, Accepts, Holds, Compact, Then;
    match re
    case Empty =>
      NothingRead(m.flags, m.text);
      w, j, k' := v, i, k;
    case Cons(a, q, rest) =>
      var f, g := ItemFragment(a, q), ReFragment(rest);
      ItemCompact(a, q);
      ReCompact(rest);
      ThenHolds(m, base, exit, f, g);
      var after := base + |f.code|;
      var u, j1, k1 := ItemSound(m, a, q, base, Entrance(g, after, exit), v, i, k, end);
      w, j, k' := ReSound(m, rest, after, exit, u, j1, k1, end);
      ConsReads(a, q, rest, m.flags, m.text, v, i, u, j1, w, j);
  }

  lemma {:induction false} ItemSound(m: Machine, a: Atom, q: Quant, base: nat, exit: int, v: Way, i: nat, k: nat, end: nat)
    returns (w: Way, j: nat, k': nat)
    requires Holds(m, base, exit, ItemFragment(a, q)) && i <= |m.text|
    requires Accepts(m, State(Inlet(ItemFragment(a, q), v, base, exit), i), k, end)
    ensures i <= j <= |m.text| && k' <= k && ReadsItem(a, q, m.flags, m.text, v, i, w, j)
    ensures Accepts(m, State(Outlet(ItemFragment(a, q), w, base, exit), j), k', end)
    decreases a, 3
  {
    hide ReadsAtom, AtomFragment, Accepts, Holds, Compact, Then, Inlet, Outlet, RepeatOf, CopiesOf, OptionOf, StarOf,
         ReadsOption, ReadsRepeat, Times;
    var f := AtomFragment(a);
    match q
    case Once => w, j, k' := AtomSound(m, a, base, exit, v, i, k, end);
    case Plus =>
      AtomCompact(a);
      PlusHolds(m, base, exit, f);
      var u, j1, k1 := AtomSound(m, a, base, base + |f.code|, v, i, k, end);
      OneTime(a, m.flags, m.text);
      var u', n;
      u', j, k', n := PlusSound(m, a, base, exit, v, i, u, j1, 1, k1, end);
      w := Jump;
      assert Times(a, m.flags, m.text, v, i, u', j, n);
    case Repeat(min, max) =>
      if min > 0 {
        w, j, k' := RepeatSound(m, a, base, exit, min, if max > min then max - min else 0, v, i, k, end);
      } else if max <= 1 {
        w, j, k' := OptionSound(m, a, base, exit, v, i, k, end);
      } else {
        w, j, k' := RetriesSound(m, a, base, exit, max - 1, v, i, k, end);
      }
    case Loop(min) =>
      LoopStuck(m, a, base, exit, min, v, i, k, end);
      assert false;
  }

  /** At the SPLIT behind `n` words. */
  lemma {:induction false} PlusSound(m: Machine, a: Atom, base: nat, exit: int, v: Way, start: nat, u: Way, i: nat, n: nat,
                                     k: nat, end: nat)
    returns (u': Way, j: nat, k': nat, n': nat)
    requires Holds(m, base, exit, PlusOf(AtomFragment(a))) && i <= |m.text|
    requires n >= 1 && start <= i && Times(a, m.flags, m.text, v, start, u, i, n)
    requires Accepts(m, State(base + |AtomFragment(a).code|, i), k, end)
    ensures i <= j <= |m.text| && k' <= k && n' >= 1 && Times(a, m.flags, m.text, v, start, u', j, n')
    ensures Accepts(m, State(exit, j), k', end)
    decreases a, 1, k
  {
    hide ReadsAtom, AtomFragment, Accepts, Holds, Compact, Outlet, Times, PlusOf, Anew;
    var f := AtomFragment(a);
    var split := base + |f.code|;
    AtomCompact(a);
    PlusHolds(m, base, exit, f);
    SplitStep(m, split, i, base, exit);
    if Accepts(m, State(exit, i), k - 1, end) {
      u', j, k', n' := u, i, k - 1, n;
    } else {
      PlusAgain(a, u, base);
      var u1, j1, k1 := AtomSound(m, a, base, split, Anew(a, u), i, k - 1, end);
      TimesMore(a, m.flags, m.text, v, start, u, i, u1, j1, n);
      u', j, k', n' := PlusSound(m, a, base, exit, v, start, u1, j1, n + 1, k1, end);
    }
  }

  /** A further round of `+` begins at the first instruction. */
  lemma PlusAgain(a: Atom, u: Way, base: int)
    requires Compact(AtomFragment(a))
    ensures var f := AtomFragment(a); Inlet(f, Anew(a, u), base, base + |f.code|) == base
  {
    hide AtomFragment;
  }

  lemma {:induction false} OptionSound(m: Machine, a: Atom, base: nat, exit: int, v: Way, i: nat, k: nat, end: nat)
    returns (w: Way, j: nat, k': nat)
    requires Holds(m, base, exit, OptionOf(AtomFragment(a))) && i <= |m.text|
    requires Accepts(m, State(Inlet(OptionOf(AtomFragment(a)), v, base, exit), i), k, end)
    ensures i <= j <= |m.text| && k' <= k && ReadsOption(a, m.flags, m.text, v, i, w, j)
    ensures Accepts(m, State(Outlet(OptionOf(AtomFragment(a)), w, base, exit), j), k', end)
    decreases a, 1
  {
    hide ReadsAtom, AtomFragment, Accepts, Holds, Compact, OptionOf;
    var f := AtomFragment(a);
    AtomCompact(a);
    OptionHolds(m, base, exit, f);
    if v == Fall {
      SplitStep(m, base, i, if f.code == [] then exit else base + 1, exit);
      if Accepts(m, State(exit, i), k - 1, end) {
        w, j, k' := Jump, i, k - 1;
      } else {
        w, j, k' := AtomSound(m, a, base + 1, exit, Fall, i, k - 1, end);
      }
    } else {
      w, j, k' := AtomSound(m, a, base + 1, exit, Jump, i, k, end);
    }
  }

  lemma {:induction false} CopiesSound(m: Machine, a: Atom, base: nat, exit: int, n: nat, v: Way, i: nat, k: nat, end: nat)
    returns (w: Way, j: nat, k': nat)
    requires Holds(m, base, exit, CopiesOf(AtomFragment(a), n)) && i <= |m.text|
    requires Accepts(m, State(Inlet(CopiesOf(AtomFragment(a), n), v, base, exit), i), k, end)
    ensures i <= j <= |m.text| && k' <= k && Times(a, m.flags, m.text, v, i, w, j, n)
    ensures Accepts(m, State(Outlet(CopiesOf(AtomFragment(a), n), w, base, exit), j), k', end)
    decreases a, 1, n
  {
    hide ReadsAtom, AtomFragment, Accepts, Holds, Compact, Outlet, Inlet, Then, Anew, Front;
    var f := AtomFragment(a);
    if n <= 1 {
      w, j, k' := AtomSound(m, a, base, exit, v, i, k, end);
    } else {
      hide Times;
      var c := CopiesOf(f, n - 1);
      AtomCompact(a);
      CopiesCompact(f, n - 1);
      var after := base + |c.code|;
      FrontHolds(m, after, exit, f);
      ThenHolds(m, base, exit, c, Front(f));
      var u, j1, k1 := CopiesSound(m, a, base, Entrance(Front(f), after, exit), n - 1, v, i, k, end);
      AnewInlet(a, u, after, exit);
      w, j, k' := AtomSound(m, a, after, exit, Anew(a, u), j1, k1, end);
      TimesMore(a, m.flags, m.text, v, i, u, j1, w, j, n - 1);
    }
  }

  lemma {:induction false} RepeatSound(m: Machine, a: Atom, base: nat, exit: int, min: nat, extra: nat, v: Way, i: nat,
                                       k: nat, end: nat)
    returns (w: Way, j: nat, k': nat)
    requires Holds(m, base, exit, RepeatOf(AtomFragment(a), min, extra)) && i <= |m.text|
    requires Accepts(m, State(Inlet(RepeatOf(AtomFragment(a), min, extra), v, base, exit), i), k, end)
    ensures i <= j <= |m.text| && k' <= k && ReadsRepeat(a, m.flags, m.text, v, i, w, j, min, extra)
    ensures Accepts(m, State(Outlet(RepeatOf(AtomFragment(a), min, extra), w, base, exit), j), k', end)
    decreases a, 2, extra
  {
    hide ReadsOption, AtomFragment, Accepts, Holds, Compact, Outlet, Inlet, Then, Front, Times, CopiesOf;
    var f := AtomFragment(a);
    if extra == 0 {
      w, j, k' := CopiesSound(m, a, base, exit, min, v, i, k, end);
    } else {
      hide ReadsRepeat;
      var c, g := RepeatOf(f, min, extra - 1), OptionOf(f);
      AtomCompact(a);
      RepeatCompact(f, min, extra - 1);
      OptionCompact(f);
      var after := base + |c.code|;
      FrontHolds(m, after, exit, g);
      ThenHolds(m, base, exit, c, Front(g));
      var u, j1, k1 := RepeatSound(m, a, base, Entrance(Front(g), after, exit), min, extra - 1, v, i, k, end);
      w, j, k' := OptionSound(m, a, after, exit, Fall, j1, k1, end);
      RepeatMore(a, m.flags, m.text, v, i, u, j1, w, j, min, extra - 1);
    }
  }

  // ----- `{0,n}`

  lemma RetriesMore(a: Atom, f: Flags, text: seq<byte>, v: Way, i: nat, u: Way, k: nat, w: Way, j: nat, many: bool)
    requires ReadsOption(a, f, text, v, i, u, k) && Retried(AtomFragment(a), f, text, k, w, j, many) && i <= k <= j
    ensures ReadsRetries(a, f, text, v, i, w, j, many)
  {
  }

  lemma RetriesFirst(a: Atom, f: Flags, text: seq<byte>, v: Way, i: nat, w: Way, j: nat, many: bool)
    returns (u: Way, k: nat)
    requires ReadsRetries(a, f, text, v, i, w, j, many)
    ensures ReadsOption(a, f, text, v, i, u, k) && Retried(AtomFragment(a), f, text, k, w, j, many) && i <= k <= j
  {
    hide ReadsOption, Retried, AtomFragment;
    k, u :| i <= k <= j && ReadsOption(a, f, text, v, i, u, k) && Retried(AtomFragment(a), f, text, k, w, j, many);
  }

  /** The optional item in front of the blocks: both its exits lead to the first block. */
  lemma RetriesFront(m: Machine, f: Fragment, base: nat, exit: int, n: nat)
    requires Compact(f) && n > 0 && Holds(m, base, exit, RetriesOf(f, n))
    ensures var first := base + BlockStart(f, 1);
            && Holds(m, base, first, OptionOf(f)) && first == base + |f.code| + 1
            && (forall v :: Inlet(RetriesOf(f, n), v, base, exit) == Inlet(OptionOf(f), v, base, first))
            && (forall w :: Outlet(OptionOf(f), w, base, first) == first)
  {
    hide Holds, RetriesOf, BlockStart;
    BlocksHold(m, base, exit, f, n, 1);
    BlockStarts(f, 1);
    RetriesCompact(f, n);
    RetriesCompact(f, n - 1);
  }

  lemma {:induction false} RetriesSound(m: Machine, a: Atom, base: nat, exit: int, n: nat, v: Way, i: nat, k: nat, end: nat)
    returns (w: Way, j: nat, k': nat)
    requires n > 0 && Holds(m, base, exit, RetriesOf(AtomFragment(a), n)) && i <= |m.text|
    requires Accepts(m, State(Inlet(RetriesOf(AtomFragment(a), n), v, base, exit), i), k, end)
    ensures i <= j <= |m.text| && k' <= k && ReadsRetries(a, m.flags, m.text, v, i, w, j, n > 1)
    ensures Accepts(m, State(Outlet(RetriesOf(AtomFragment(a), n), w, base, exit), j), k', end)
    decreases a, 2
  {
    hide ReadsOption, AtomFragment, Accepts, Holds, Compact, Inlet, Outlet, RetriesOf, Retried, BlockStart;
    var f := AtomFragment(a);
    AtomCompact(a);
    RetriesFront(m, f, base, exit, n);
    var u, j1, k1 := OptionSound(m, a, base, base + BlockStart(f, 1), v, i, k, end);
    w, j, k' := RetriesPass(m, f, base, exit, n, 1, j1, k1, end);
    RetriesMore(a, m.flags, m.text, v, i, u, j1, w, j, n > 1);
  }

  // ----- loops

  /** From the SPLIT of a loop no run ever accepts. */
  lemma {:induction false} StarStuck(m: Machine, a: Atom, base: nat, exit: int, i: nat, k: nat, end: nat)
    requires Holds(m, base, exit, StarOf(AtomFragment(a))) && i <= |m.text|
    ensures !Accepts(m, State(base, i), k, end)
    decreases a, 1, k
  {
    hide ReadsAtom, AtomFragment, Accepts, Holds, Compact, StarOf, Outlet;
    if Accepts(m, State(base, i), k, end) {
      var f := AtomFragment(a);
      var jump := base + 1 + |f.code|;
      AtomCompact(a);
      StarHolds(m, base, exit, f);
      SplitStep(m, base, i, base + 1, jump);
      var j, k' := i, k - 1;
      if Accepts(m, State(base + 1, i), k - 1, end) {
        var w;
        w, j, k' := AtomSound(m, a, base + 1, jump, Fall, i, k - 1, end);
      }
      OneStep(m, jump, j, base);
      StarStuck(m, a, base, exit, j, k' - 1, end);
    }
  }

  lemma {:induction false} StarNeverLeft(m: Machine, a: Atom, base: nat, exit: int, v: Way, i: nat, k: nat, end: nat)
    requires Holds(m, base, exit, StarOf(AtomFragment(a))) && i <= |m.text|
    ensures !Accepts(m, State(Inlet(StarOf(AtomFragment(a)), v, base, exit), i), k, end)
    decreases a, 2, 0
  {
    hide ReadsAtom, AtomFragment, Accepts, Holds, Compact, StarOf, Outlet, Inlet;
    var f := AtomFragment(a);
    AtomCompact(a);
    StarHolds(m, base, exit, f);
    StarStuck(m, a, base, exit, i, k, end);
    if v == Jump && Accepts(m, State(Inlet(StarOf(f), v, base, exit), i), k, end) {
      var jump := base + 1 + |f.code|;
      var w, j, k' := AtomSound(m, a, base + 1, jump, Jump, i, k, end);
      OneStep(m, jump, j, base);
      StarStuck(m, a, base, exit, j, k' - 1, end);
    }
  }

  lemma {:induction false} LoopStuck(m: Machine, a: Atom, base: nat, exit: int, min: nat, v: Way, i: nat, k: nat, end: nat)
    requires Holds(m, base, exit, LoopOf(AtomFragment(a), min)) && i <= |m.text|
    ensures !Accepts(m, State(Inlet(LoopOf(AtomFragment(a), min), v, base, exit), i), k, end)
    decreases a, 2, 1
  {
    hide ReadsAtom, AtomFragment, Accepts, Holds, Compact, StarOf, Outlet, Inlet, Then, CopiesOf, Front, Times;
    var f := AtomFragment(a);
    if min == 0 {
      StarNeverLeft(m, a, base, exit, v, i, k, end);
    } else if Accepts(m, State(Inlet(LoopOf(f, min), v, base, exit), i), k, end) {
      var c, g := CopiesOf(f, min), StarOf(f);
      AtomCompact(a);
      CopiesCompact(f, min);
      StarCompact(f);
      var after := base + |c.code|;
      FrontHolds(m, after, exit, g);
      ThenHolds(m, base, exit, c, Front(g));
      var u, j, k' := CopiesSound(m, a, base, Entrance(Front(g), after, exit), min, v, i, k, end);
      StarSize(f);
      StarStuck(m, a, after, exit, j, k', end);
    }
  }

  lemma StarSize(f: Fragment)
    ensures StarOf(f).code != [] && OptionOf(f).code != []
  {
  }

  // ----- atoms

  lemma {:induction false} AtomSound(m: Machine, a: Atom, base: nat, exit: int, v: Way, i: nat, k: nat, end: nat)
    returns (w: Way, j: nat, k': nat)
    requires Holds(m, base, exit, AtomFragment(a)) && i <= |m.text|
    requires Accepts(m, State(Inlet(AtomFragment(a), v, base, exit), i), k, end)
    ensures i <= j <= |m.text| && k' <= k && ReadsAtom(a, m.flags, m.text, v, i, w, j)
    ensures Accepts(m, State(Outlet(AtomFragment(a), w, base, exit), j), k', end)
    decreases a, 0
  {
    hide Reads, ReFragment, AltsFragment, ReadsBranch, ReadsSome, Accepts, Holds, Compact, CaptureOf, BranchOf,
         Inlet, Outlet, One;
    match a
    case Group(body) => w, j, k' := ReSound(m, body, base, exit, v, i, k, end);
    case Capture(inner) =>
      var f := AtomFragment(inner);
      AtomCompact(inner);
      CaptureHolds(m, base, exit, f);
      OneStep(m, base, i, base + 1);
      var u, k1;
      u, j, k1 := AtomSound(m, inner, base + 1, base + 1 + |f.code|, Fall, i, k - 1, end);
      OneStep(m, base + 1 + |f.code|, j, base + 2 + |f.code|);
      assert u == Fall || u == Jump;
      w, k' := Fall, k1 - 1;
    case Choice(first, others) =>
      var f, g := ReFragment(first), AltsFragment(others);
      ReCompact(first);
      AltsCompact(others);
      AltsSize(others);
      BranchHolds(m, base, exit, f, g);
      OutletJump(AtomFragment(a), base, exit);
      w := Jump;
      if v == Jump {
        j, k' := BranchSound(m, first, base + 1, exit, Jump, i, k, end);
      } else {
        SplitStep(m, base, i, base + 1, base + 2 + |f.code|);
        InletFall(f, base + 1, base + 1 + |f.code|);
        if Accepts(m, State(base + 1, i), k - 1, end) {
          j, k' := BranchSound(m, first, base + 1, exit, Fall, i, k - 1, end);
        } else {
          j, k' := AltsSound(m, others, base + 2 + |f.code|, exit, i, k - 1, end);
        }
      }
    case _ =>
      var j';
      j', k' := LeafSound(m, a, base, exit, v, i, k, end);
      w, j := Fall, j';
  }

  lemma AltsSize(alts: Alts)
    ensures AltsFragment(alts).code != []
  {
  }

  lemma OutletJump(f: Fragment, base: int, exit: int)
    ensures Outlet(f, Jump, base, exit) == exit
  {
  }

  lemma InletFall(f: Fragment, base: int, exit: int)
    ensures Inlet(f, Fall, base, exit) == base
  {
  }

  /** A single instruction lets the run go on exactly when the leaf reads. */
  lemma LeafNext(m: Machine, a: Atom, base: nat, exit: int, i: nat)
    requires IsLeaf(a) && Holds(m, base, exit, AtomFragment(a)) && i <= |m.text|
    ensures var j := if a.Anchor? then i else i + 1;
            && |AtomFragment(a).code| == 1 && AtomFragment(a).skip == 0 && !IsMatch(m, State(base, i))
            && Next(m, State(base, i)) == if ReadsLeaf(a, m.flags, m.text, i, j) then [State(base + 1, j)] else []
    ensures forall j: nat :: ReadsLeaf(a, m.flags, m.text, i, j) ==> j == if a.Anchor? then i else i + 1
  {
    hide ReFragment, AltsFragment;
    assert m.program[base + 0] == Put(AtomFragment(a).code[0], base, exit);
  }

  /** A single instruction. */
  lemma LeafSound(m: Machine, a: Atom, base: nat, exit: int, v: Way, i: nat, k: nat, end: nat) returns (j: nat, k': nat)
    requires IsLeaf(a) && Holds(m, base, exit, AtomFragment(a)) && i <= |m.text|
    requires Accepts(m, State(Inlet(AtomFragment(a), v, base, exit), i), k, end)
    ensures i <= j <= |m.text| && k' <= k && ReadsLeaf(a, m.flags, m.text, i, j)
    ensures Accepts(m, State(Outlet(AtomFragment(a), Fall, base, exit), j), k', end)
  {
    hide AtomFragment, ReadsLeaf, Next, IsMatch;
    LeafNext(m, a, base, exit, i);
    j := if a.Anchor? then i else i + 1;
    k' := k - 1;
    LeafWithin(a, m.flags, m.text, i, j);
  }

  lemma LeafWithin(a: Atom, f: Flags, text: seq<byte>, i: nat, j: nat)
    ensures ReadsLeaf(a, f, text, i, j) ==> i <= j <= |text|
  {
  }

  /** A branch, up to behind its JMP. */
  lemma {:induction false} BranchSound(m: Machine, re: Re, base: nat, exit: int, v: Way, i: nat, k: nat, end: nat)
    returns (j: nat, k': nat)
    requires Holds(m, base, base + |ReFragment(re).code|, ReFragment(re)) && i <= |m.text|
    requires InstAt(m, base + |ReFragment(re).code|, JmpTo(exit))
    requires Accepts(m, State(Inlet(ReFragment(re), v, base, base + |ReFragment(re).code|), i), k, end)
    ensures i <= j <= |m.text| && k' <= k && ReadsBranch(re, m.flags, m.text, v, i, j)
    ensures Accepts(m, State(exit, j), k', end)
    decreases re, 1
  {
    hide Reads, ReFragment, Accepts, Holds, Inlet;
    var jump := base + |ReFragment(re).code|;
    var w, k1;
    w, j, k1 := ReSound(m, re, base, jump, v, i, k, end);
    OneStep(m, jump, j, exit);
    k' := k1 - 1;
  }

  lemma {:induction false} AltsSound(m: Machine, alts: Alts, base: nat, exit: int, i: nat, k: nat, end: nat)
    returns (j: nat, k': nat)
    requires Holds(m, base, exit, AltsFragment(alts)) && i <= |m.text|
    requires Accepts(m, State(base, i), k, end)
    ensures i <= j <= |m.text| && k' <= k && (i == j || ReadsSome(alts, m.flags, m.text, i, j))
    ensures Accepts(m, State(exit, j), k', end)
    decreases alts, 0
  {
    hide Reads, ReFragment, ReadsBranch, Accepts, Holds, Compact, BranchOf, Inlet, Outlet;
    var f := ReFragment(alts.re);
    var others := if alts.More? then AltsFragment(alts.more) else Fragment([], 0);
    ReCompact(alts.re);
    if alts.More? {
      AltsCompact(alts.more);
      AltsSize(alts.more);
    } else {
      NothingFits();
    }
    BranchHolds(m, base, exit, f, others);
    SplitStep(m, base, i, base + 1, if others.code == [] then exit else base + 2 + |f.code|);
    InletFall(f, base + 1, base + 1 + |f.code|);
    if Accepts(m, State(base + 1, i), k - 1, end) {
      j, k' := BranchSound(m, alts.re, base + 1, exit, Fall, i, k - 1, end);
    } else if alts.More? {
      j, k' := AltsSound(m, alts.more, base + 2 + |f.code|, exit, i, k - 1, end);
    } else {
      j, k' := i, k - 1;
    }
  }

  // ----- every word is read by an accepting run

  lemma {:induction false} ReRuns(m: Machine, re: Re, base: nat, exit: int, v: Way, i: nat, w: Way, j: nat, k: nat, end: nat)
    returns (k': nat)
    requires Holds(m, base, exit, ReFragment(re)) && Reads(re, m.flags, m.text, v, i, w, j)
    requires Accepts(m, State(Outlet(ReFragment(re), w, base, exit), j), k, end)
    ensures Accepts(m, State(Inlet(ReFragment(re), v, base, exit), i), k', end)
    decreases re, 0
  {
    hide Reads, ItemFragment, ReadsItem, Accepts, Holds, Compact, Then;
    match re
    case Empty =>
      NothingRead(m.flags, m.text);
      k' := k;
    case Cons(a, q, rest) =>
      var f, g := ItemFragment(a, q), ReFragment(rest);
      ItemCompact(a, q);
      ReCompact(rest);
      ThenHolds(m, base, exit, f, g);
      var after := base + |f.code|;
      var u, j1 := ReadsCons(a, q, rest, m.flags, m.text, v, i, w, j);
      var k1 := ReRuns(m, rest, after, exit, u, j1, w, j, k, end);
      k' := ItemRuns(m, a, q, base, Entrance(g, after, exit), v, i, u, j1, k1, end);
  }

  lemma {:induction false} ItemRuns(m: Machine, a: Atom, q: Quant, base: nat, exit: int, v: Way, i: nat, w: Way, j: nat,
                                    k: nat, end: nat)
    returns (k': nat)
    requires Holds(m, base, exit, ItemFragment(a, q)) && ReadsItem(a, q, m.flags, m.text, v, i, w, j)
    requires Accepts(m, State(Outlet(ItemFragment(a, q), w, base, exit), j), k, end)
    ensures Accepts(m, State(Inlet(ItemFragment(a, q), v, base, exit), i), k', end)
    decreases a, 4
  {
    hide ReadsAtom, AtomFragment, Accepts, Holds, Compact, Then, Inlet, Outlet, RepeatOf, CopiesOf, OptionOf, StarOf, PlusOf,
         ReadsOption, ReadsRepeat, Times, RetriesOf;
    var f := AtomFragment(a);
    match q
    case Once => k' := AtomRuns(m, a, base, exit, v, i, w, j, k, end);
    case Plus =>
      AtomCompact(a);
      PlusHolds(m, base, exit, f);
      var n: nat, u: Way :| n >= 1 && Times(a, m.flags, m.text, v, i, u, j, n);
      TimesRange(a, m.flags, m.text, v, i, u, j, n);
      SplitStep(m, base + |f.code|, j, base, exit);
      k' := PlusRuns(m, a, base, exit, v, i, u, j, n, k + 1, end);
    case Repeat(min, max) =>
      NoRetries(f);
      if min > 0 {
        k' := RepeatRuns(m, a, base, exit, min, if max > min then max - min else 0, v, i, w, j, k, end);
      } else if max <= 1 {
        k' := OptionRuns(m, a, base, exit, v, i, w, j, k, end);
      } else {
        k' := RetriesRuns(m, a, base, exit, max - 1, v, i, w, j, k, end);
      }
    case Loop(min) =>
      k' := k;
  }

  lemma NoRetries(f: Fragment)
    ensures RetriesOf(f, 0) == OptionOf(f)
  {
  }

  /** From the SPLIT behind `n` words back to the first of them. */
  lemma {:induction false} PlusRuns(m: Machine, a: Atom, base: nat, exit: int, v: Way, i: nat, w: Way, j: nat, n: nat,
                                    k: nat, end: nat)
    returns (k': nat)
    requires Holds(m, base, exit, PlusOf(AtomFragment(a))) && n >= 1
    requires Times(a, m.flags, m.text, v, i, w, j, n) && Accepts(m, State(base + |AtomFragment(a).code|, j), k, end)
    ensures Accepts(m, State(Inlet(AtomFragment(a), v, base, base + |AtomFragment(a).code|), i), k', end)
    decreases a, 2, n
  {
    hide ReadsAtom, AtomFragment, Accepts, Holds, Compact, Outlet, Times, PlusOf, Anew;
    var f := AtomFragment(a);
    var split := base + |f.code|;
    AtomCompact(a);
    PlusHolds(m, base, exit, f);
    if n == 1 {
      OneTime(a, m.flags, m.text);
      k' := AtomRuns(m, a, base, split, v, i, w, j, k, end);
    } else {
      var u, j1 := TimesLast(a, m.flags, m.text, v, i, w, j, n);
      var k1 := AtomRuns(m, a, base, split, Anew(a, u), j1, w, j, k, end);
      PlusAgain(a, u, base);
      AtomRange(a, m.flags, m.text, Anew(a, u), j1, w, j);
      SplitStep(m, split, j1, base, exit);
      k' := PlusRuns(m, a, base, exit, v, i, u, j1, n - 1, k1 + 1, end);
    }
  }

  lemma {:induction false} OptionRuns(m: Machine, a: Atom, base: nat, exit: int, v: Way, i: nat, w: Way, j: nat,
                                      k: nat, end: nat)
    returns (k': nat)
    requires Holds(m, base, exit, OptionOf(AtomFragment(a))) && ReadsOption(a, m.flags, m.text, v, i, w, j)
    requires Accepts(m, State(Outlet(OptionOf(AtomFragment(a)), w, base, exit), j), k, end)
    ensures Accepts(m, State(Inlet(OptionOf(AtomFragment(a)), v, base, exit), i), k', end)
    decreases a, 2
  {
    hide ReadsAtom, AtomFragment, Accepts, Holds, Compact, OptionOf, Inlet;
    var f := AtomFragment(a);
    AtomCompact(a);
    OptionHolds(m, base, exit, f);
    OptionRange(a, m.flags, m.text, v, i, w, j);
    SplitStep(m, base, i, if f.code == [] then exit else base + 1, exit);
    if v == Fall && w == Jump && i == j {
      k' := k + 1;
    } else {
      var u := if Bare(a) then Jump else v;
      k' := AtomRuns(m, a, base + 1, exit, u, i, w, j, k, end);
      OptionInlet(f, base + 1, exit);
      if v == Fall {
        k' := k' + 1;
      }
    }
  }

  lemma OptionInlet(f: Fragment, base: int, exit: int)
    requires Compact(f)
    ensures Inlet(f, Fall, base, exit) == base && (f.code == [] ==> Inlet(f, Jump, base, exit) == exit)
  {
  }

  lemma {:induction false} CopiesRun(m: Machine, a: Atom, base: nat, exit: int, n: nat, v: Way, i: nat, w: Way, j: nat,
                                     k: nat, end: nat)
    returns (k': nat)
    requires Holds(m, base, exit, CopiesOf(AtomFragment(a), n)) && Times(a, m.flags, m.text, v, i, w, j, n)
    requires Accepts(m, State(Outlet(CopiesOf(AtomFragment(a), n), w, base, exit), j), k, end)
    ensures Accepts(m, State(Inlet(CopiesOf(AtomFragment(a), n), v, base, exit), i), k', end)
    decreases a, 2, n
  {
    hide ReadsAtom, AtomFragment, Accepts, Holds, Compact, Outlet, Inlet, Then, Anew, Front;
    var f := AtomFragment(a);
    if n <= 1 {
      k' := AtomRuns(m, a, base, exit, v, i, w, j, k, end);
    } else {
      hide Times;
      var c := CopiesOf(f, n - 1);
      AtomCompact(a);
      CopiesCompact(f, n - 1);
      var after := base + |c.code|;
      FrontHolds(m, after, exit, f);
      ThenHolds(m, base, exit, c, Front(f));
      var u, j1 := TimesLast(a, m.flags, m.text, v, i, w, j, n);
      AnewInlet(a, u, after, exit);
      var k1 := AtomRuns(m, a, after, exit, Anew(a, u), j1, w, j, k, end);
      k' := CopiesRun(m, a, base, Entrance(Front(f), after, exit), n - 1, v, i, u, j1, k1, end);
    }
  }

  lemma {:induction false} RepeatRuns(m: Machine, a: Atom, base: nat, exit: int, min: nat, extra: nat, v: Way, i: nat,
                                      w: Way, j: nat, k: nat, end: nat)
    returns (k': nat)
    requires Holds(m, base, exit, RepeatOf(AtomFragment(a), min, extra))
    requires ReadsRepeat(a, m.flags, m.text, v, i, w, j, min, extra)
    requires Accepts(m, State(Outlet(RepeatOf(AtomFragment(a), min, extra), w, base, exit), j), k, end)
    ensures Accepts(m, State(Inlet(RepeatOf(AtomFragment(a), min, extra), v, base, exit), i), k', end)
    decreases a, 3, extra
  {
    hide ReadsOption, AtomFragment, Accepts, Holds, Compact, Outlet, Inlet, Then, Front, Times, CopiesOf;
    var f := AtomFragment(a);
    if extra == 0 {
      k' := CopiesRun(m, a, base, exit, min, v, i, w, j, k, end);
    } else {
      hide ReadsRepeat;
      var c, g := RepeatOf(f, min, extra - 1), OptionOf(f);
      AtomCompact(a);
      RepeatCompact(f, min, extra - 1);
      OptionCompact(f);
      StarSize(f);
      var after := base + |c.code|;
      FrontHolds(m, after, exit, g);
      ThenHolds(m, base, exit, c, Front(g));
      var u, j1 := RepeatLast(a, m.flags, m.text, v, i, w, j, min, extra);
      var k1 := OptionRuns(m, a, after, exit, Fall, j1, w, j, k, end);
      k' := RepeatRuns(m, a, base, Entrance(Front(g), after, exit), min, extra - 1, v, i, u, j1, k1, end);
    }
  }

  lemma {:induction false} RetriesRuns(m: Machine, a: Atom, base: nat, exit: int, n: nat, v: Way, i: nat, w: Way, j: nat,
                                       k: nat, end: nat)
    returns (k': nat)
    requires n > 0 && Holds(m, base, exit, RetriesOf(AtomFragment(a), n))
    requires ReadsRetries(a, m.flags, m.text, v, i, w, j, n > 1)
    requires Accepts(m, State(Outlet(RetriesOf(AtomFragment(a), n), w, base, exit), j), k, end)
    ensures Accepts(m, State(Inlet(RetriesOf(AtomFragment(a), n), v, base, exit), i), k', end)
    decreases a, 3
  {
    hide ReadsOption, AtomFragment, Accepts, Holds, Compact, Inlet, Outlet, RetriesOf, Retried, BlockStart;
    var f := AtomFragment(a);
    AtomCompact(a);
    RetriesFront(m, f, base, exit, n);
    var u, j1 := RetriesFirst(a, m.flags, m.text, v, i, w, j, n > 1);
    var k1 := RetriesRun(m, f, base, exit, n, j1, w, j, k, end);
    k' := OptionRuns(m, a, base, base + BlockStart(f, 1), v, i, u, j1, k1, end);
  }

  lemma {:induction false} AtomRuns(m: Machine, a: Atom, base: nat, exit: int, v: Way, i: nat, w: Way, j: nat,
                                    k: nat, end: nat)
    returns (k': nat)
    requires Holds(m, base, exit, AtomFragment(a)) && ReadsAtom(a, m.flags, m.text, v, i, w, j)
    requires Accepts(m, State(Outlet(AtomFragment(a), w, base, exit), j), k, end)
    ensures Accepts(m, State(Inlet(AtomFragment(a), v, base, exit), i), k', end)
    decreases a, 1
  {
    hide Reads, ReFragment, AltsFragment, ReadsBranch, ReadsSome, Accepts, Holds, Compact, CaptureOf, BranchOf,
         Inlet, Outlet, One;
    match a
    case Group(body) => k' := ReRuns(m, body, base, exit, v, i, w, j, k, end);
    case Capture(inner) =>
      var f := AtomFragment(inner);
      var save := base + 1 + |f.code|;
      AtomCompact(inner);
      CaptureHolds(m, base, exit, f);
      AtomRange(a, m.flags, m.text, v, i, w, j);
      OneStep(m, save, j, save + 1);
      var u := if ReadsAtom(inner, m.flags, m.text, Fall, i, Fall, j) then Fall else Jump;
      k' := AtomRuns(m, inner, base + 1, save, Fall, i, u, j, k + 1, end);
      OneStep(m, base, i, base + 1);
      k' := k' + 1;
    case Choice(first, others) =>
      k' := ChoiceRuns(m, first, others, base, exit, v, i, j, k, end);
    case _ => k' := LeafRuns(m, a, base, exit, v, i, j, k, end);
  }

  lemma {:induction false} ChoiceRuns(m: Machine, first: Re, others: Alts, base: nat, exit: int, v: Way, i: nat, j: nat,
                                      k: nat, end: nat)
    returns (k': nat)
    requires Holds(m, base, exit, AtomFragment(Choice(first, others)))
    requires ReadsAtom(Choice(first, others), m.flags, m.text, v, i, Jump, j)
    requires Accepts(m, State(Outlet(AtomFragment(Choice(first, others)), Jump, base, exit), j), k, end)
    ensures Accepts(m, State(Inlet(AtomFragment(Choice(first, others)), v, base, exit), i), k', end)
    decreases Choice(first, others), 0
  {
    hide Reads, ReFragment, AltsFragment, ReadsBranch, ReadsSome, Accepts, Holds, Compact, BranchOf,
         Inlet, Outlet;
    var f, g := ReFragment(first), AltsFragment(others);
    ReCompact(first);
    AltsCompact(others);
    AltsSize(others);
    BranchHolds(m, base, exit, f, g);
    OutletJump(BranchOf(f, g), base, exit);
    AtomRange(Choice(first, others), m.flags, m.text, v, i, Jump, j);
    SplitStep(m, base, i, base + 1, base + 2 + |f.code|);
    if ReadsBranch(first, m.flags, m.text, v, i, j) {
      k' := BranchRuns(m, first, base + 1, exit, v, i, j, k, end);
      InletFall(f, base + 1, base + 1 + |f.code|);
      if v == Fall {
        k' := k' + 1;
      }
    } else {
      k' := AltsRun(m, others, base + 2 + |f.code|, exit, i, j, k, end);
      k' := k' + 1;
    }
  }

  lemma LeafRuns(m: Machine, a: Atom, base: nat, exit: int, v: Way, i: nat, j: nat, k: nat, end: nat) returns (k': nat)
    requires IsLeaf(a) && Holds(m, base, exit, AtomFragment(a)) && ReadsLeaf(a, m.flags, m.text, i, j)
    requires Accepts(m, State(Outlet(AtomFragment(a), Fall, base, exit), j), k, end)
    ensures Accepts(m, State(Inlet(AtomFragment(a), v, base, exit), i), k', end)
  {
    hide AtomFragment, ReadsLeaf, Next, IsMatch, Accepts;
    LeafWithin(a, m.flags, m.text, i, j);
    LeafNext(m, a, base, exit, i);
    AcceptStep(m, State(base, i), State(base + 1, j), k, end);
    k' := k + 1;
  }

  lemma {:induction false} BranchRuns(m: Machine, re: Re, base: nat, exit: int, v: Way, i: nat, j: nat, k: nat, end: nat)
    returns (k': nat)
    requires Holds(m, base, base + |ReFragment(re).code|, ReFragment(re))
    requires InstAt(m, base + |ReFragment(re).code|, JmpTo(exit))
    requires ReadsBranch(re, m.flags, m.text, v, i, j) && Accepts(m, State(exit, j), k, end)
    ensures Accepts(m, State(Inlet(ReFragment(re), v, base, base + |ReFragment(re).code|), i), k', end)
    decreases re, 1
  {
    hide Reads, ReFragment, Accepts, Holds, Inlet;
    var jump := base + |ReFragment(re).code|;
    BranchRange(re, m.flags, m.text, v, i, j);
    OneStep(m, jump, j, exit);
    var w := if Reads(re, m.flags, m.text, v, i, Fall, j) then Fall else Jump;
    k' := ReRuns(m, re, base, jump, v, i, w, j, k + 1, end);
  }

  lemma {:induction false} AltsRun(m: Machine, alts: Alts, base: nat, exit: int, i: nat, j: nat, k: nat, end: nat)
    returns (k': nat)
    requires Holds(m, base, exit, AltsFragment(alts))
    requires i == j <= |m.text| || ReadsSome(alts, m.flags, m.text, i, j)
    requires Accepts(m, State(exit, j), k, end)
    ensures Accepts(m, State(base, i), k', end)
    decreases alts, 0
  {
    hide Reads, ReFragment, ReadsBranch, Accepts, Holds, Compact, BranchOf, Inlet, Outlet;
    var f := ReFragment(alts.re);
    var others := if alts.More? then AltsFragment(alts.more) else Fragment([], 0);
    ReCompact(alts.re);
    if alts.More? {
      AltsCompact(alts.more);
      AltsSize(alts.more);
    } else {
      NothingFits();
    }
    BranchHolds(m, base, exit, f, others);
    if ReadsBranch(alts.re, m.flags, m.text, Fall, i, j) {
      BranchRange(alts.re, m.flags, m.text, Fall, i, j);
      k' := BranchRuns(m, alts.re, base + 1, exit, Fall, i, j, k, end);
      InletFall(f, base + 1, base + 1 + |f.code|);
    } else {
      if !(i == j <= |m.text|) {
        SomeRange(alts, m.flags, m.text, i, j);
      }
      k' := k;
      if alts.More? {
        k' := AltsRun(m, alts.more, base + 2 + |f.code|, exit, i, j, k, end);
      }
    }
    SplitStep(m, base, i, base + 1, if others.code == [] then exit else base + 2 + |f.code|);
    k' := k' + 1;
  }

  // ----- whole programs

  /** SAVE, the fragment, SAVE, MATCH, without slots. */
  function Framed(f: Fragment): seq<Inst> {
    [Plain(Save)] + Placed(f.code, 1, 1 + |f.code|) + [Plain(Save), Plain(Match)]
  }

  /** The compiled program is the fragment of the expression between two SAVEs. */
  lemma CompiledLayout(a: Atom)
    ensures Blinded(Compiled(a).program) == Framed(AtomFragment(a))
  {
    hide AtomFragment, BuildAtom, Compact;
    var start := Output([Plain(Save)], 0);
    assert Blinded(start.program) == [Plain(Save)];
    AtomBehind(a, start);
    AtomCompact(a);
    var body := BuildAtom(a, start).program;
    assert AllLed([Plain(Save)], 1 + AtomFragment(a).skip) == [Plain(Save)];
    BlindAppend(body, [SaveTo(1)]);
    BlindAppend(body + [SaveTo(1)], [Plain(Match)]);
    BlindOne(SaveTo(1));
    BlindOne(Plain(Match));
  }

  ghost predicate HasRun(m: Machine, start: nat, end: nat) {
    exists k: nat :: Accepts(m, State(0, start), k, end)
  }

  /** The machine without its capture slots, which no step looks at. */
  function Unslotted(m: Machine): Machine { m.(program := Blinded(m.program)) }

  lemma SameSteps(m: Machine, s: State)
    ensures Next(Unslotted(m), s) == Next(m, s) && (IsMatch(Unslotted(m), s) <==> IsMatch(m, s))
  {
    if Valid(m, s) {
      assert Blinded(m.program)[s.pc] == Blind(m.program[s.pc]);
    }
  }

  lemma {:induction false} SameRuns(m: Machine, s: State, k: nat, end: nat)
    ensures Accepts(Unslotted(m), s, k, end) <==> Accepts(m, s, k, end)
    decreases k
  {
    hide Next, IsMatch, Unslotted;
    SameSteps(m, s);
    if k > 0 {
      forall n | n in Next(m, s)
        ensures Accepts(Unslotted(m), n, k - 1, end) <==> Accepts(m, n, k - 1, end)
      {
        SameRuns(m, n, k - 1, end);
      }
    }
  }

  /** `text[i..j]` is read by the expression on its own. */
  ghost predicate Word(a: Atom, f: Flags, text: seq<byte>, i: nat, j: nat) {
    ReadsAtom(a, f, text, Fall, i, Fall, j) || ReadsAtom(a, f, text, Fall, i, Jump, j)
  }

  lemma FramedHolds(m: Machine, f: Fragment)
    requires m.program == Framed(f) && Compact(f)
    ensures var after := 1 + |f.code|;
            && InstAt(m, 0, Plain(Save)) && Holds(m, 1, after, f) && InstAt(m, after, Plain(Save))
            && InstAt(m, after + 1, Plain(Match)) && |m.program| == after + 2
            && Inlet(f, Fall, 1, after) == 1 && Outlet(f, Fall, 1, after) == Outlet(f, Jump, 1, after) == after
  {
  }

  /** The last two instructions accept where they stand, and nowhere else. */
  lemma LastSteps(m: Machine, after: nat, j: nat, k: nat, end: nat)
    requires InstAt(m, after, Plain(Save)) && InstAt(m, after + 1, Plain(Match)) && j <= |m.text|
    ensures Accepts(m, State(after, j), 1, j)
    ensures Accepts(m, State(after, j), k, end) ==> end == j
  {
    assert Next(m, State(after, j)) == [State(after + 1, j)] && Next(m, State(after + 1, j)) == [];
    assert Accepts(m, State(after + 1, j), 0, j);
    AcceptStep(m, State(after, j), State(after + 1, j), 0, j);
    assert k > 1 ==> !Accepts(m, State(after + 1, j), k - 1, end);
  }

  lemma FramedReads(m: Machine, a: Atom, start: nat, k: nat, end: nat)
    requires m.program == Framed(AtomFragment(a)) && start <= |m.text|
    requires Accepts(m, State(0, start), k, end)
    ensures Word(a, m.flags, m.text, start, end)
  {
    hide AtomFragment, Accepts, Holds, Framed, Compact, ReadsAtom, Inlet, Outlet;
    var f := AtomFragment(a);
    AtomCompact(a);
    FramedHolds(m, f);
    OneStep(m, 0, start, 1);
    var w, j, k' := AtomSound(m, a, 1, 1 + |f.code|, Fall, start, k - 1, end);
    assert w == Fall || w == Jump;
    LastSteps(m, 1 + |f.code|, j, k', end);
  }

  lemma FramedRuns(m: Machine, a: Atom, start: nat, end: nat) returns (k: nat)
    requires m.program == Framed(AtomFragment(a)) && Word(a, m.flags, m.text, start, end)
    ensures Accepts(m, State(0, start), k, end)
  {
    hide AtomFragment, Accepts, Holds, Framed, Compact, ReadsAtom, Inlet, Outlet;
    var f := AtomFragment(a);
    AtomCompact(a);
    FramedHolds(m, f);
    var w := if ReadsAtom(a, m.flags, m.text, Fall, start, Fall, end) then Fall else Jump;
    AtomRange(a, m.flags, m.text, Fall, start, w, end);
    LastSteps(m, 1 + |f.code|, end, 1, end);
    var k1 := AtomRuns(m, a, 1, 1 + |f.code|, Fall, start, w, end, 1, end);
    OneStep(m, 0, start, 1);
    k := k1 + 1;
  }

  /** A run from `start` to a MATCH at `end` exists exactly when `text[start..end]` is a word. */
  lemma ProgramLanguage(m: Machine, a: Atom, start: nat, end: nat)
    requires m.program == Compiled(a).program && start <= |m.text|
    ensures HasRun(m, start, end) <==> Word(a, m.flags, m.text, start, end)
  {
    hide Accepts, Framed, Compiled, AtomFragment, ReadsAtom, Blinded;
    CompiledLayout(a);
    var blind := Unslotted(m);
    if HasRun(m, start, end) {
      var k: nat :| Accepts(m, State(0, start), k, end);
      SameRuns(m, State(0, start), k, end);
      FramedReads(blind, a, start, k, end);
    }
    if Word(a, m.flags, m.text, start, end) {
      var k := FramedRuns(blind, a, start, end);
      SameRuns(m, State(0, start), k, end);
    }
  }
}
