/**
 Forms whose code departs from the usual language, as the compiler writes it.

 `*` and `{m,}` send the SPLIT's second branch to the JMP that leads back to the SPLIT, so the loop has no
 way out (lib/libc_regex.c:489-504, 594-611). A `?` is put in after the earlier jumps to its place, which
 then step over it (478-487). The last SPLIT of an alternation leads past every branch (712-719). An
 upper-case shorthand names the whole byte range.
 */
module RegexForms {
  import opened Maybe
  import opened RegexVm
  import opened RegexSyntax
  import opened RegexBuild
  import opened RegexCode
  import opened RegexLayout
  import opened RegexRuns
  import opened RegexLanguage
  import opened RegexUsual
  import opened RegexLaws
  import opened RegexPatterns
  import opened RegexSlots
  import opened RegexMarks

  // ----- an optional item behind an exit

  /** Some reference in the program points to its end. */
  predicate HasExit(p: seq<Inst>) {
    exists i :: 0 <= i < |p| && (p[i].x >= |p| || p[i].y >= |p|)
  }

  /** The insertion makes the item optional and nothing else exactly when no earlier reference leads to its place. */
  lemma OptionInserted(p: seq<Inst>, f: Fragment)
    requires Neat(p) && Compact(f)
    ensures var code := p + Placed(f.code, |p|, |p| + |f.code|);
            Optioned(code, |p|) == p + Placed(OptionOf(f).code, |p|, |p| + 1 + |f.code|) <==> !HasExit(p)
  {
    hide Optioned, Compact, OptionOf;
    var g := Front(f);
    FrontCompact(f);
    assert AllLed(p, |p|) == p;
    OptionBehind(p, g);
    OptionFronted(f);
    var option := Placed(OptionOf(f).code, |p|, |p| + 1 + |f.code|);
    assert Optioned(p + Placed(f.code, |p|, |p| + |f.code|), |p|) == AllLed(p, |p| + 1) + option;
    if HasExit(p) {
      var i :| 0 <= i < |p| && (p[i].x >= |p| || p[i].y >= |p|);
      assert (AllLed(p, |p| + 1) + option)[i] == Led(p[i], |p|, |p| + 1) != p[i] == (p + option)[i];
    } else {
      assert AllLed(p, |p| + 1) == p;
    }
  }

  lemma OptionFronted(f: Fragment)
    ensures OptionOf(Front(f)).code == OptionOf(f).code && OptionOf(Front(f)).skip == 1
    ensures |OptionOf(f).code| == 1 + |f.code|
  {
  }

  /** Behind `X+` an optional item is entered past its SPLIT, whatever X, Y and the rest are: it is not optional. */
  lemma OptionAfterPlus(x: Atom, y: Atom, rest: Re, f: Flags, text: seq<byte>, v: Way, i: nat, w: Way, j: nat)
    ensures Reads(Cons(x, Plus, Cons(y, Repeat(0, 1), rest)), f, text, v, i, w, j)
       <==> Reads(Cons(x, Plus, Cons(y, Once, rest)), f, text, v, i, w, j)
  {
    hide ReadsAtom, Times, Bare;
    var option, once := Cons(y, Repeat(0, 1), rest), Cons(y, Once, rest);
    forall k: nat, w', j': nat
      ensures ReadsItem(y, Repeat(0, 1), f, text, Jump, k, w', j') == ReadsItem(y, Once, f, text, Jump, k, w', j')
    {
      assert (if Bare(y) then Jump else Jump) == Jump;
    }
    if Reads(Cons(x, Plus, option), f, text, v, i, w, j) {
      var u, k := ReadsCons(x, Plus, option, f, text, v, i, w, j);
      var u', k' := ReadsCons(y, Repeat(0, 1), rest, f, text, u, k, w, j);
      ConsReads(y, Once, rest, f, text, u, k, u', k', w, j);
      ConsReads(x, Plus, once, f, text, v, i, u, k, w, j);
    }
    if Reads(Cons(x, Plus, once), f, text, v, i, w, j) {
      var u, k := ReadsCons(x, Plus, once, f, text, v, i, w, j);
      var u', k' := ReadsCons(y, Once, rest, f, text, u, k, w, j);
      ConsReads(y, Repeat(0, 1), rest, f, text, u, k, u', k', w, j);
      ConsReads(x, Plus, option, f, text, v, i, u, k, w, j);
    }
  }

  /** The program of `X+Y?` matches exactly the words of `X+Y`. */
  lemma PlusThenOption(m: Machine, x: Atom, y: Atom, start: nat, end: nat)
    requires AtomOk(x) && AtomOk(y) && TameAtom(x, Bare(x)) && TameAtom(y, true) && start <= |m.text|
    requires m.program == Compiled(Just(Cons(x, Plus, Cons(y, Repeat(0, 1), Empty)))).program
    ensures HasRun(m, start, end)
       <==> In(Cons(x, Plus, Cons(y, Once, Empty)), m.flags, m.text, start, end)
  {
    hide HasRun, Compiled, ReadsAtom, ReadsItem, InItem, TameAtom, AtomOk, Bare, NoExtrasAtom;
    var written, read := Cons(x, Plus, Cons(y, Repeat(0, 1), Empty)), Cons(x, Plus, Cons(y, Once, Empty));
    TwoItems(x, y);
    ProgramLanguage(m, Just(written), start, end);
    OptionAfterPlus(x, y, Empty, m.flags, m.text, Fall, start, Fall, end);
    OptionAfterPlus(x, y, Empty, m.flags, m.text, Fall, start, Jump, end);
    JustWord(written, m.flags, m.text, start, end);
    JustWord(read, m.flags, m.text, start, end);
    if Word(Just(read), m.flags, m.text, start, end) {
      var w := if Reads(read, m.flags, m.text, Fall, start, Fall, end) then Fall else Jump;
      ReadsIn(read, m.flags, m.text, Fall, start, w, end);
    }
    if In(read, m.flags, m.text, start, end) {
      var w := InReads(read, false, m.flags, m.text, Fall, start, end);
      assert w == Fall || w == Jump;
    }
  }

  lemma JustWord(re: Re, f: Flags, text: seq<byte>, i: nat, j: nat)
    ensures Word(Just(re), f, text, i, j) <==> Reads(re, f, text, Fall, i, Fall, j) || Reads(re, f, text, Fall, i, Jump, j)
  {
    hide Reads;
  }

  lemma TwoItems(x: Atom, y: Atom)
    requires AtomOk(x) && AtomOk(y) && TameAtom(x, Bare(x)) && TameAtom(y, true)
    ensures var re := Cons(x, Plus, Cons(y, Once, Empty)); ReOk(re) && NoExtras(re) && Tame(re, false)
  {
    hide AtomOk, NoExtras, TameAtom, Bare, Tame;
    TameItems(x, y);
    TameRe(Cons(x, Plus, Cons(y, Once, Empty)), false);
    assert ReOk(Cons(y, Once, Empty));
  }

  lemma TameItems(x: Atom, y: Atom)
    requires TameAtom(x, Bare(x)) && TameAtom(y, true)
    ensures Tame(Cons(x, Plus, Cons(y, Once, Empty)), false)
  {
    hide *;
    TameOne(y);
    PlusTame(x);
    TameParts(x, Plus, Cons(y, Once, Empty), false);
  }

  lemma PlusTame(x: Atom)
    requires TameAtom(x, Bare(x))
    ensures TameItem(x, Plus, false) && LeavesItem(x, Plus, false)
  {
    hide TameAtom, Bare;
  }

  lemma TameOne(y: Atom)
    requires TameAtom(y, true)
    ensures Tame(Cons(y, Once, Empty), true)
  {
    hide TameAtom;
  }

  // ----- patterns as they are written

  /** `c+d?` compiles and does not match `c`, although `d` is written as optional. */
  lemma OptionNotTaken(m: Machine)
    requires m.text == Bytes("c")
    ensures Parse(Bytes("c+d?"), true).Ok?
    ensures m.program == Compiled(Parse(Bytes("c+d?"), true).value).program ==> !HasMatch(m)
  {
    hide AtomAt, QuantAt, SequenceAt, Parse, HasMatch, HasRun, In, Compiled;
    var pattern, x, y := Bytes("c+d?"), Lit(B('c')), Lit(B('d'));
    QuantParsed(pattern, 1);
    QuantParsed(pattern, 3);
    EndParsed(pattern, 4, false, true);
    ItemParsed(pattern, 2, false, true, Repeat(0, 1), 4, Empty, 4);
    ItemParsed(pattern, 0, false, true, Plus, 2, Cons(y, Repeat(0, 1), Empty), 4);
    WholeParsed(pattern, true, Cons(x, Plus, Cons(y, Repeat(0, 1), Empty)));
    if m.program == Compiled(Parse(pattern, true).value).program && HasMatch(m) {
      var i, j := RunOfMatch(m);
      PlusThenOption(m, x, y, i, j);
      var k := ConsFirst(x, Plus, Cons(y, Once, Empty), m.flags, m.text, i, j);
      SecondRead(x, y, m.flags, m.text, k, j);
    }
  }

  lemma SecondRead(x: Atom, y: Atom, f: Flags, text: seq<byte>, k: nat, j: nat)
    requires y == Lit(B('d')) && text == Bytes("c")
    ensures !In(Cons(y, Once, Empty), f, text, k, j)
  {
  }

  lemma RunOfMatch(m: Machine) returns (i: nat, j: nat)
    requires HasMatch(m)
    ensures i <= |m.text| && HasRun(m, i, j)
  {
    i :| i <= |m.text| && Reaches(m, State(0, i));
    var p: seq<State> :| Accepting(m, State(0, i), p);
    PathAccepts(m, State(0, i), p);
    j := p[|p| - 1].pos;
  }

  // ----- loops without a way out

  /** Every word of the expression has to pass a loop. */
  predicate MustLoop(re: Re)
    decreases re, 0
  {
    re.Cons? && (MustLoopItem(re.atom, re.quant) || MustLoop(re.rest))
  }

  predicate MustLoopItem(a: Atom, q: Quant)
    decreases a, 2
  {
    match q
    case Loop(_) => true
    case Repeat(min, _) => min > 0 && MustLoopAtom(a)
    case _ => MustLoopAtom(a)
  }

  predicate MustLoopAtom(a: Atom)
    decreases a, 0
  {
    (a.Group? && MustLoop(a.body)) || (a.Capture? && MustLoopAtom(a.inner))
  }

  lemma {:induction false} LoopReadsNothing(re: Re, f: Flags, text: seq<byte>, v: Way, i: nat, w: Way, j: nat)
    requires MustLoop(re)
    ensures !Reads(re, f, text, v, i, w, j)
    decreases re, 0
  {
    hide ReadsItem, MustLoopItem;
    if Reads(re, f, text, v, i, w, j) {
      var u, k := ReadsCons(re.atom, re.quant, re.rest, f, text, v, i, w, j);
      if MustLoopItem(re.atom, re.quant) {
        LoopItemReadsNothing(re.atom, re.quant, f, text, v, i, u, k);
      } else {
        LoopReadsNothing(re.rest, f, text, u, k, w, j);
      }
    }
  }

  lemma {:induction false} LoopItemReadsNothing(a: Atom, q: Quant, f: Flags, text: seq<byte>, v: Way, i: nat, w: Way, j: nat)
    requires MustLoopItem(a, q)
    ensures !ReadsItem(a, q, f, text, v, i, w, j)
    decreases a, 3
  {
    hide ReadsAtom, MustLoopAtom, Times, ReadsRepeat;
    match q
    case Once => LoopAtomReadsNothing(a, f, text, v, i, w, j);
    case Plus =>
      forall n: nat, u: Way | n >= 1
        ensures !Times(a, f, text, v, i, u, j, n)
      {
        LoopTimes(a, f, text, v, i, u, j, n);
      }
    case Repeat(min, max) => LoopRepeat(a, f, text, v, i, w, j, min, if max > min then max - min else 0);
    case Loop(_) =>
  }

  lemma {:induction false} LoopTimes(a: Atom, f: Flags, text: seq<byte>, v: Way, i: nat, w: Way, j: nat, n: nat)
    requires MustLoopAtom(a)
    ensures !Times(a, f, text, v, i, w, j, n)
    decreases a, 1, n
  {
    hide ReadsAtom, MustLoopAtom;
    if n <= 1 {
      LoopAtomReadsNothing(a, f, text, v, i, w, j);
    } else if Times(a, f, text, v, i, w, j, n) {
      var u, k := TimesLast(a, f, text, v, i, w, j, n);
      LoopTimes(a, f, text, v, i, u, k, n - 1);
    }
  }

  lemma {:induction false} LoopRepeat(a: Atom, f: Flags, text: seq<byte>, v: Way, i: nat, w: Way, j: nat, min: nat,
                                      extra: nat)
    requires MustLoopAtom(a)
    ensures !ReadsRepeat(a, f, text, v, i, w, j, min, extra)
    decreases a, 2, extra
  {
    hide ReadsAtom, MustLoopAtom, Times, ReadsOption;
    if extra == 0 {
      LoopTimes(a, f, text, v, i, w, j, min);
    } else if ReadsRepeat(a, f, text, v, i, w, j, min, extra) {
      var u, k := RepeatLast(a, f, text, v, i, w, j, min, extra);
      LoopRepeat(a, f, text, v, i, u, k, min, extra - 1);
    }
  }

  lemma {:induction false} LoopAtomReadsNothing(a: Atom, f: Flags, text: seq<byte>, v: Way, i: nat, w: Way, j: nat)
    requires MustLoopAtom(a)
    ensures !ReadsAtom(a, f, text, v, i, w, j)
    decreases a, 0
  {
    hide Reads, MustLoop;
    if a.Group? {
      LoopReadsNothing(a.body, f, text, v, i, w, j);
    } else {
      LoopAtomReadsNothing(a.inner, f, text, Fall, i, Fall, j);
      LoopAtomReadsNothing(a.inner, f, text, Fall, i, Jump, j);
    }
  }

  /** A pattern whose words all pass a `*` or a `{m,}` matches nothing, in any text, not even the empty word. */
  lemma LoopNeverMatches(m: Machine, a: Atom)
    requires MustLoopAtom(a) && m.program == Compiled(a).program
    ensures !HasMatch(m)
  {
    hide HasMatch, HasRun, ReadsAtom, MustLoopAtom, Compiled;
    if HasMatch(m) {
      var i, j := RunOfMatch(m);
      ProgramLanguage(m, a, i, j);
      LoopAtomReadsNothing(a, m.flags, m.text, Fall, i, Fall, j);
      LoopAtomReadsNothing(a, m.flags, m.text, Fall, i, Jump, j);
    }
  }

  /** `a*` in the basic syntax, which tests/regex.c:39 expects to match, is such a pattern. */
  lemma StarNeverMatches(m: Machine)
    ensures Parse(Bytes("a*"), false).Ok?
    ensures m.program == Compiled(Parse(Bytes("a*"), false).value).program ==> !HasMatch(m)
  {
    hide AtomAt, QuantAt, SequenceAt, Parse, HasMatch, HasRun, Compiled;
    var pattern, re := Bytes("a*"), Cons(Lit(B('a')), Loop(0), Empty);
    QuantParsed(pattern, 1);
    EndParsed(pattern, 2, false, false);
    ItemParsed(pattern, 0, false, false, Loop(0), 2, Empty, 2);
    WholeParsed(pattern, false, re);
    assert MustLoop(re);
    if m.program == Compiled(Just(re)).program {
      LoopNeverMatches(m, Just(re));
    }
  }

  // ----- alternations

  /**
   A top-level alternation matches the words of its branches and, since its last SPLIT leads to the end,
   the empty word at every position as well.
   */
  lemma AlternationLanguage(m: Machine, first: Re, others: Alts, start: nat, end: nat)
    requires m.program == Compiled(Choice(first, others)).program
    requires start <= |m.text|
    ensures HasRun(m, start, end)
       <==> start == end || ReadsBranch(first, m.flags, m.text, Fall, start, end)
            || ReadsSome(others, m.flags, m.text, start, end)
  {
    hide Compiled, HasRun, ReadsBranch, ReadsSome;
    ProgramLanguage(m, Choice(first, others), start, end);
  }

  // ----- negated shorthands

  /** `\W`, `\S` and `\D` take every byte, those of `\w`, `\s` and `\d` included. */
  lemma NegatedShorthand(upper: byte, c: byte)
    requires upper in {B('W'), B('S'), B('D')}
    ensures c in Shorthand(upper)
  {
  }

  // ----- capture slots

  /** `(a)|b` compiles, and its program saves outside the captures of its one group. */
  lemma BranchMovesSlots()
    ensures Parse(Bytes("(a)|b"), true).Ok?
    ensures var r := Compiled(Parse(Bytes("(a)|b"), true).value); r.groups == 1 && !SlotsWithin(r.program, r.groups)
  {
    hide Compiled, SlotsWithin, Parse;
    var first, other := GroupOf(B('a')), Cons(Lit(B('b')), Once, Empty);
    BranchesParsed();
    LetterBranches();
    ChoiceSlots(first, Last(other));
    CompiledGroups(Choice(first, Last(other)));
  }

  /** A letter in capturing parentheses. */
  function GroupOf(c: byte): Re { Cons(Capture(Just(Cons(Lit(c), Once, Empty))), Once, Empty) }

  lemma LetterBranches()
    ensures var first, others := GroupOf(B('a')), Last(Cons(Lit(B('b')), Once, Empty));
            && Straight(first) && StraightAlts(others) && Groups(first) == 1 && GroupsIn(others) == 0
            && GroupsOf(Choice(first, others)) == 1 && ReOk(first) && AltsOk(others)
  {
    var a := Cons(Lit(B('a')), Once, Empty);
    assert Straight(a) && Groups(a) == 0 && ReOk(a);
    assert StraightAtom(Just(a)) && GroupsOf(Just(a)) == 0 && AtomOk(Just(a));
    assert StraightAtom(Capture(Just(a))) && GroupsOf(Capture(Just(a))) == 1 && AtomOk(Capture(Just(a)));
    assert Straight(GroupOf(B('a'))) && Groups(GroupOf(B('a'))) == 1 && ReOk(GroupOf(B('a')));
    var b := Cons(Lit(B('b')), Once, Empty);
    assert Straight(b) && Groups(b) == 0 && ReOk(b);
  }

  lemma CompiledGroups(a: Atom)
    ensures Compiled(a).groups == GroupsOf(a)
  {
    hide BuildAtom;
    CountedAtom(a, Output([Plain(Save)], 0));
  }

  lemma BranchesParsed()
    ensures Parse(Bytes("(a)|b"), true) == Ok(Choice(GroupOf(B('a')), Last(Cons(Lit(B('b')), Once, Empty))), 5)
  {
    var pattern, inside := Bytes("(a)|b"), Cons(Lit(B('a')), Once, Empty);
    hide SequenceAt, AtomAt, QuantAt;
    EndParsed(pattern, 2, true, true);
    LetterThen(pattern, 1, true, true, Empty, 2);
    QuantParsed(pattern, 3);
    EndParsed(pattern, 3, false, true);
    GroupParsed(pattern, 0, false, inside, 2, Once, 3, Empty, 3);
    EndParsed(pattern, 5, false, true);
    LetterThen(pattern, 4, false, true, Empty, 5);
    assert BranchesAt(pattern, 3, false, true, 1) == Ok(Last(Cons(Lit(B('b')), Once, Empty)), 5);
  }

  /** `(a)b?` puts a SPLIT in, too, but behind the slots of its group, which stay. */
  lemma OptionKeepsSlots()
    ensures var a := Just(Cons(Capture(Just(Cons(Lit(B('a')), Once, Empty))), Once,
                               Cons(Lit(B('b')), Repeat(0, 1), Empty)));
            Parse(Bytes("(a)b?"), true) == Ok(a, 5) && SlotsWithin(Compiled(a).program, Compiled(a).groups)
  {
    hide SequenceAt, AtomAt, QuantAt, Compiled, SlotsWithin;
    var pattern, inside, option := Bytes("(a)b?"), Cons(Lit(B('a')), Once, Empty), Cons(Lit(B('b')), Repeat(0, 1), Empty);
    EndParsed(pattern, 2, true, true);
    LetterThen(pattern, 1, true, true, Empty, 2);
    QuantParsed(pattern, 3);
    QuantParsed(pattern, 4);
    EndParsed(pattern, 5, false, true);
    ItemParsed(pattern, 3, false, true, Repeat(0, 1), 5, Empty, 5);
    GroupParsed(pattern, 0, false, inside, 2, Once, 3, option, 5);
    WholeParsed(pattern, true, Cons(Capture(Just(inside)), Once, option));
    OptionMark();
    CompiledSlots(Just(Cons(Capture(Just(inside)), Once, option)));
  }

  lemma OptionMark()
    ensures var inside, option := Cons(Lit(B('a')), Once, Empty), Cons(Lit(B('b')), Repeat(0, 1), Empty);
            var a := Just(Cons(Capture(Just(inside)), Once, option));
            AtomOk(a) && UncopiedAtom(a) && MarkAtom(a, BEGIN).top <= GroupsOf(a) * 2 + 1
  {
    hide MarkAtom, AtomFragment, ItemFragment, AtomOk, UncopiedAtom, GroupsOf;
    var inside, option := Cons(Lit(B('a')), Once, Empty), Cons(Lit(B('b')), Repeat(0, 1), Empty);
    var group := Capture(Just(inside));
    GroupMark();
    OptionTop(Mark(4, 1, 3));
    var re := Cons(group, Once, option);
    assert ReOk(re) && Uncopied(re) && Groups(re) == 1;
    assert MarkRe(re, BEGIN) == MarkRe(option, Mark(4, 1, 3));
    JustMark(re, BEGIN);
  }

  lemma JustMark(re: Re, k: Mark)
    ensures MarkAtom(Just(re), k) == MarkRe(re, k) && GroupsOf(Just(re)) == Groups(re)
    ensures (AtomOk(Just(re)) <==> ReOk(re)) && (UncopiedAtom(Just(re)) <==> Uncopied(re))
  {
    hide MarkRe, Groups, ReOk, Uncopied;
  }

  /** After the group four instructions, one group, and the slots up to 3. */
  lemma GroupMark()
    ensures var group := Capture(Just(Cons(Lit(B('a')), Once, Empty)));
            && MarkItem(group, Once, BEGIN) == Mark(4, 1, 3) && GroupsOf(group) == 1
            && AtomOk(group) && UncopiedItem(group, Once)
  {
    var inside := Cons(Lit(B('a')), Once, Empty);
    var group := Capture(Just(inside));
    assert Straight(inside) && Groups(inside) == 0 && ReOk(inside);
    assert StraightAtom(Just(inside)) && GroupsOf(Just(inside)) == 0 && AtomOk(Just(inside));
    assert StraightAtom(group) && GroupsOf(group) == 1 && AtomOk(group);
    hide Straight, StraightAtom, MarkAtom, ItemFragment, AtomFragment;
    StraightMarkAtom(group, BEGIN);
    StraightUncopiedAtom(group);
    GroupLength();
  }

  lemma OptionTop(k: Mark)
    requires k == Mark(4, 1, 3)
    ensures var option := Cons(Lit(B('b')), Repeat(0, 1), Empty);
            MarkRe(option, k).top == 3 && ReOk(option) && Uncopied(option) && Groups(option) == 0
  {
    hide ItemFragment;
    var b := Lit(B('b'));
    assert MarkAtom(b, k).top == 3 && AtomOk(b) && UncopiedItem(b, Repeat(0, 1)) && GroupsOf(b) == 0;
    assert MarkItem(b, Repeat(0, 1), k).top == 3;
  }

  lemma GroupLength()
    ensures |ItemFragment(Capture(Just(Cons(Lit(B('a')), Once, Empty))), Once).code| == 3
  {
    var inside := Cons(Lit(B('a')), Once, Empty);
    assert |ItemFragment(Lit(B('a')), Once).code| == 1;
    assert |ReFragment(inside).code| == 1;
    assert |AtomFragment(Just(inside)).code| == 1;
  }
}
