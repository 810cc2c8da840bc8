/**
 `{0,n}`, which copies what stands at the item's old place instead of the item (lib/libc_regex.c:561-585).
 */
module RegexRepeats {
  import opened Maybe
  import opened RegexVm
  import opened RegexSyntax
  import opened RegexBuild
  import opened RegexCode
  import opened RegexLayout
  import opened RegexRuns
  import opened RegexCuts
  import opened RegexLanguage
  import opened RegexUsual
  import opened RegexLaws
  import opened RegexPatterns
  import opened RegexForms

  // ----- what is written

  /** `n` optional copies of the item, one after the other. */
  function OptionalCopies(f: Fragment, n: nat): Fragment {
    if n <= 1 then OptionOf(f) else Then(OptionalCopies(f, n - 1), Front(OptionOf(f)))
  }

  /** `{0,n}` writes `n` optional copies exactly when one is asked for or the item is empty, and no earlier exit is there. */
  lemma OptionsWritten(p: seq<Inst>, f: Fragment, n: nat)
    requires Neat(p) && Compact(f) && n >= 1
    ensures var copies := OptionalCopies(f, n).code;
            Quantified(p + Placed(f.code, |p|, |p| + |f.code|), |p|, Repeat(0, n)) == p + Placed(copies, |p|, |p| + |copies|)
            <==> !HasExit(p) && (n == 1 || f.code == [])
  {
    hide Compact, Neat, OptionOf, OptionalCopies, RetriesOf, Placed, AllLed, OptionsAdded, Optioned, Quantified;
    var g, copies := RetriesOf(f, n - 1).code, OptionalCopies(f, n).code;
    Written(p, f, n);
    SameSize(f, n);
    if n == 1 {
      FirstRetry(f);
      OneCopy(f);
    } else if f.code == [] {
      EmptyCopies(f, n);
    } else {
      CopiesDiffer(f, n);
      PlacedDiffer(f, n, |p|);
    }
    LedApart(p, g, copies);
  }

  /** The program that `{0,n}` leaves. */
  lemma Written(p: seq<Inst>, f: Fragment, n: nat)
    requires Neat(p) && Compact(f) && n >= 1
    ensures var g := RetriesOf(f, n - 1).code;
            Quantified(p + Placed(f.code, |p|, |p| + |f.code|), |p|, Repeat(0, n))
            == AllLed(p, |p| + 1) + Placed(g, |p|, |p| + |g|)
  {
    hide Compact, OptionOf, Optioned, OptionsAdded, RetriesOf;
    FrontCompact(f);
    assert AllLed(p, |p|) == p;
    RetriesBehind(p, Front(f), n - 1);
    RetriesCompact(Front(f), n - 1);
    SameRetries(f, n - 1);
    assert Extended(p, Front(f)) == p + Placed(f.code, |p|, |p| + |f.code|);
  }

  lemma {:induction false} SameRetries(f: Fragment, k: nat)
    ensures RetriesOf(Front(f), k).code == RetriesOf(f, k).code
  {
    hide OptionOf, BlockOf;
    OptionFronted(f);
    SameBlocks(f, if k > 0 then |RetriesOf(f, k - 1).code| else 0);
    if k > 0 {
      SameRetries(f, k - 1);
    }
  }

  lemma SameBlocks(f: Fragment, n: nat)
    ensures BlockOf(Front(f), n) == BlockOf(f, n)
  {
  }

  lemma OneCopy(f: Fragment)
    ensures OptionalCopies(f, 1) == OptionOf(f)
  {
  }

  lemma {:induction false} SameSize(f: Fragment, n: nat)
    requires Compact(f) && n >= 1
    ensures |OptionalCopies(f, n).code| == |RetriesOf(f, n - 1).code| >= n
  {
    hide Compact, RetriesOf, OptionOf;
    OptionSize(f);
    FirstRetry(f);
    if n > 1 {
      SameSize(f, n - 1);
      RetriesCompact(f, n - 1);
    }
  }

  lemma {:induction false} EmptyCopies(f: Fragment, n: nat)
    requires Compact(f) && f.code == [] && n >= 1
    ensures OptionalCopies(f, n).code == RetriesOf(f, n - 1).code
    decreases n
  {
    if n > 1 {
      EmptyCopies(f, n - 1);
      SameSize(f, n - 1);
      var c := OptionalCopies(f, n - 1).code;
      assert OptionOf(f).code == [SplitTo(EXIT, EXIT)];
      assert Placed([SplitTo(EXIT, EXIT)], |c|, EXIT) == [SplitTo(EXIT, EXIT)];
    }
  }

  /** Behind the SPLIT of the first block stands a SPLIT that leads back to it, and not the item. */
  lemma CopiesDiffer(f: Fragment, n: nat)
    requires Compact(f) && f.code != [] && n >= 2
    ensures var at := |f.code| + 2;
            && at < |RetriesOf(f, n - 1).code| == |OptionalCopies(f, n).code|
            && RetriesOf(f, n - 1).code[at].op == Split && RetriesOf(f, n - 1).code[at].y == |f.code| + 1
            && (OptionalCopies(f, n).code[at].op == Split ==>
                  OptionalCopies(f, n).code[at].y != |f.code| + 1 && OptionalCopies(f, n).code[at].y >= EXIT)
  {
    hide RetriesOf, OptionalCopies, Compact;
    SameSize(f, n);
    RetryAt(f, n - 1);
    CopyHere(f, n);
  }

  lemma {:induction false} RetryAt(f: Fragment, k: nat)
    requires Compact(f) && f.code != [] && k >= 1
    ensures var at := |f.code| + 2;
            at < |RetriesOf(f, k).code| && RetriesOf(f, k).code[at].op == Split && RetriesOf(f, k).code[at].y == |f.code| + 1
  {
    hide Compact, RetriesOf, BlockOf;
    var at := |f.code| + 2;
    RetriesCompact(f, k);
    RetriesCompact(f, k - 1);
    RetriesPart(f, k, at);
    if k > 1 {
      RetryAt(f, k - 1);
    } else {
      FirstRetry(f);
      OptionSize(f);
      SecondSplit(f, |f.code| + 1);
    }
  }

  lemma {:induction false} CopyHere(f: Fragment, n: nat)
    requires Compact(f) && f.code != [] && n >= 2
    ensures var c, at := OptionalCopies(f, n).code, |f.code| + 2;
            && at < |c|
            && (c[at].op == Split ==> (c[at].y > |f.code| + 1 || c[at].y == EXIT))
  {
    var at := |f.code| + 2;
    if n > 2 {
      CopyHere(f, n - 1);
      hide OptionOf, Compact;
      OptionSize(f);
    } else {
      assert InstFits(f.code[0], |f.code|);
      var c := OptionOf(f);
      assert OptionalCopies(f, 1) == c && OptionalCopies(f, 2) == Then(c, Front(c));
      assert OptionalCopies(f, 2).code[at] == Put(Put(f.code[0], 1, EXIT), |f.code| + 1, EXIT);
    }
  }

  lemma PlacedDiffer(f: Fragment, n: nat, base: nat)
    requires Compact(f) && f.code != [] && n >= 2
    ensures var g, c := RetriesOf(f, n - 1).code, OptionalCopies(f, n).code;
            Placed(g, base, base + |g|) != Placed(c, base, base + |c|)
  {
    hide RetriesOf, OptionalCopies, Compact;
    CopiesDiffer(f, n);
    var g, c, at := RetriesOf(f, n - 1).code, OptionalCopies(f, n).code, |f.code| + 2;
    assert Placed(g, base, base + |g|)[at] == Put(g[at], base, base + |g|);
    assert Placed(c, base, base + |c|)[at] == Put(c[at], base, base + |c|);
  }

  lemma LedApart(p: seq<Inst>, g: seq<Inst>, c: seq<Inst>)
    requires Neat(p) && |g| == |c|
    ensures var end := |p| + |g|;
            AllLed(p, |p| + 1) + Placed(g, |p|, end) == p + Placed(c, |p|, end)
            <==> !HasExit(p) && Placed(g, |p|, end) == Placed(c, |p|, end)
  {
    var end := |p| + |g|;
    var left, right := AllLed(p, |p| + 1) + Placed(g, |p|, end), p + Placed(c, |p|, end);
    if left == right {
      assert left[..|p|] == AllLed(p, |p| + 1) && right[..|p|] == p;
      assert left[|p|..] == Placed(g, |p|, end) && right[|p|..] == Placed(c, |p|, end);
      assert forall i :: 0 <= i < |p| ==> Led(p[i], |p|, |p| + 1) == p[i];
    } else if !HasExit(p) {
      assert AllLed(p, |p| + 1) == p;
    }
  }

  // ----- single instructions

  /** A single byte, set or anchor under `{0,n}` is read at most once, whatever `n` is, 0 included. */
  lemma AtMostOnce(m: Machine, x: Atom, n: nat, start: nat, end: nat)
    requires IsLeaf(x) && m.program == Compiled(Just(Cons(x, Repeat(0, n), Empty))).program && start <= |m.text|
    ensures HasRun(m, start, end) <==> start == end || ReadsLeaf(x, m.flags, m.text, start, end)
  {
    hide HasRun, Compiled, ReadsLeaf, Reads, ReadsItem;
    var re, f, text := Cons(x, Repeat(0, n), Empty), m.flags, m.text;
    LeafSize(x);
    ProgramLanguage(m, Just(re), start, end);
    JustWord(re, f, text, start, end);
    LeafWithin(x, f, text, start, end);
    LeafOption(x, n, f, text, start, Fall, end);
    LeafOption(x, n, f, text, start, Jump, end);
    OneItem(x, Repeat(0, n), f, text, start, Fall, end);
    OneItem(x, Repeat(0, n), f, text, start, Jump, end);
  }

  lemma LeafSize(x: Atom)
    requires IsLeaf(x)
    ensures |AtomFragment(x).code| == 1 && !Bare(x)
  {
  }

  lemma LeafOption(x: Atom, n: nat, f: Flags, text: seq<byte>, i: nat, w: Way, j: nat)
    requires IsLeaf(x)
    ensures ReadsItem(x, Repeat(0, n), f, text, Fall, i, w, j)
       <==> (w == Jump && i == j <= |text|) || (ReadsLeaf(x, f, text, i, j) && w == if n <= 1 then Fall else Jump)
  {
    hide ReadsLeaf, ReadsAtom, Bare, AtomFragment, Retried;
    LeafSize(x);
    LeafReads(x, f, text, Fall, i, Fall, j);
    LeafReads(x, f, text, Fall, i, Jump, j);
    if n > 1 {
      SingleRetries(x, f, text, Fall, i, w, j, n > 2);
    }
  }

  /** Behind a single instruction the blocks read nothing. */
  lemma SingleRetries(a: Atom, f: Flags, text: seq<byte>, v: Way, i: nat, w: Way, j: nat, many: bool)
    requires |AtomFragment(a).code| == 1
    ensures ReadsRetries(a, f, text, v, i, w, j, many)
       <==> w == Jump && (ReadsOption(a, f, text, v, i, Fall, j) || ReadsOption(a, f, text, v, i, Jump, j))
  {
    hide AtomFragment, ReadsOption, Retried, ReadsRetries;
    if ReadsRetries(a, f, text, v, i, w, j, many) {
      var u, k := RetriesFirst(a, f, text, v, i, w, j, many);
      SingleRetried(AtomFragment(a), f, text, k, w, j, many);
      assert u == Fall || u == Jump;
    }
    if w == Jump && (ReadsOption(a, f, text, v, i, Fall, j) || ReadsOption(a, f, text, v, i, Jump, j)) {
      var u := if ReadsOption(a, f, text, v, i, Fall, j) then Fall else Jump;
      OptionRange(a, f, text, v, i, u, j);
      SingleRetried(AtomFragment(a), f, text, j, w, j, many);
      RetriesMore(a, f, text, v, i, u, j, w, j, many);
    }
  }

  lemma LeafReads(x: Atom, f: Flags, text: seq<byte>, v: Way, i: nat, w: Way, j: nat)
    requires IsLeaf(x)
    ensures ReadsAtom(x, f, text, v, i, w, j) <==> w == Fall && ReadsLeaf(x, f, text, i, j)
  {
    hide ReadsLeaf;
  }

  lemma OneItem(a: Atom, q: Quant, f: Flags, text: seq<byte>, i: nat, w: Way, j: nat)
    ensures Reads(Cons(a, q, Empty), f, text, Fall, i, w, j)
       <==> i <= j <= |text| && ReadsItem(a, q, f, text, Fall, i, w, j)
  {
    hide ReadsItem, Reads;
    NothingRead(f, text);
    if Reads(Cons(a, q, Empty), f, text, Fall, i, w, j) {
      var u, k := ReadsCons(a, q, Empty, f, text, Fall, i, w, j);
    }
    if i <= j <= |text| && ReadsItem(a, q, f, text, Fall, i, w, j) {
      ConsReads(a, q, Empty, f, text, Fall, i, w, j, w, j);
    }
  }

  // ----- code without branches

  predicate Straightforward(code: seq<Inst>) {
    forall i :: 0 <= i < |code| ==> code[i].op in {Char, Save} && code[i].x == 0 && code[i].y == 0
  }

  predicate SameByte(f: Flags, c: byte, d: byte) {
    if f.icase then ToLower(c) == ToLower(d) else c == d
  }

  /** What such code reads from its instruction `pc` on. */
  predicate LineReads(code: seq<Inst>, f: Flags, text: seq<byte>, pc: nat, i: nat, j: nat)
    requires pc <= |code|
    decreases |code| - pc
  {
    if pc == |code| then i == j <= |text|
    else if code[pc].op == Save then i <= |text| && LineReads(code, f, text, pc + 1, i, j)
    else i < |text| && SameByte(f, text[i], code[pc].ch) && LineReads(code, f, text, pc + 1, i + 1, j)
  }

  lemma {:induction false} LineLeads(m: Machine, pc: nat, i: nat, t: int, j: nat, k: nat)
    requires Straightforward(m.program) && pc <= |m.program| && i <= |m.text| && !(0 <= t < |m.program|)
    requires Leads(m, State(pc, i), State(t, j), k)
    ensures t == |m.program| && LineReads(m.program, m.flags, m.text, pc, i, j)
    decreases k
  {
    if k > 0 {
      var n :| n in Next(m, State(pc, i)) && Leads(m, n, State(t, j), k - 1);
      assert pc < |m.program| && n.pc == pc + 1;
      LineLeads(m, pc + 1, n.pos, t, j, k - 1);
    }
  }

  lemma {:induction false} LeadsLine(m: Machine, pc: nat, i: nat, j: nat) returns (k: nat)
    requires Straightforward(m.program) && pc <= |m.program| && LineReads(m.program, m.flags, m.text, pc, i, j)
    ensures Leads(m, State(pc, i), State(|m.program|, j), k)
    decreases |m.program| - pc
  {
    k := 0;
    if pc < |m.program| {
      var n := State(pc + 1, if m.program[pc].op == Save then i else i + 1);
      assert Next(m, State(pc, i)) == [n];
      k := LeadsLine(m, pc + 1, n.pos, j);
      assert n in Next(m, State(pc, i));
      k := k + 1;
    }
  }

  // ----- words

  function Letters(w: seq<byte>): Re {
    if w == [] then Empty else Cons(Lit(w[0]), Once, Letters(w[1..]))
  }

  /** A word in parentheses, capturing or not. */
  function Spelled(w: seq<byte>, captured: bool): Atom {
    if captured then Capture(Just(Letters(w))) else Just(Letters(w))
  }

  function Chars(w: seq<byte>): (r: seq<Inst>)
    ensures |r| == |w|
  {
    seq(|w|, i requires 0 <= i < |w| => Plain(Char).(ch := w[i]))
  }

  predicate Spelt(w: seq<byte>, f: Flags, text: seq<byte>, i: nat, j: nat) {
    j == i + |w| <= |text| && forall k :: 0 <= k < |w| ==> SameByte(f, text[i + k], w[k])
  }

  lemma {:induction false} LettersFragment(w: seq<byte>)
    ensures ReFragment(Letters(w)) == Fragment(Chars(w), 0)
    decreases |w|
  {
    if w != [] {
      LettersFragment(w[1..]);
      var head, tail := One(Plain(Char).(ch := w[0])), Fragment(Chars(w[1..]), 0);
      assert ItemFragment(Lit(w[0]), Once) == head;
      assert Chars(w) == [Plain(Char).(ch := w[0])] + Chars(w[1..]);
      assert Placed(tail.code, 1, EXIT) == tail.code;
      assert Then(head, tail) == Fragment(Chars(w), 0);
    }
  }

  lemma SpelledFragment(w: seq<byte>, captured: bool)
    ensures AtomFragment(Spelled(w, captured))
         == Fragment(if captured then [Plain(Save)] + Chars(w) + [Plain(Save)] else Chars(w), 0)
  {
    LettersFragment(w);
    hide Letters, ReFragment;
    CharsPlaced(w, 1, |w| + 1);
  }

  lemma CharsPlaced(w: seq<byte>, base: int, exit: int)
    ensures Placed(Chars(w), base, exit) == Chars(w)
  {
    forall i | 0 <= i < |w|
      ensures Placed(Chars(w), base, exit)[i] == Chars(w)[i]
    {
      assert Chars(w)[i] == Plain(Char).(ch := w[i]);
      assert Chars(w)[i].op == Char;
      assert Placed(Chars(w), base, exit)[i] == Put(Chars(w)[i], base, exit);
    }
  }

  lemma {:induction false} LettersRead(w: seq<byte>, f: Flags, text: seq<byte>, v: Way, i: nat, u: Way, j: nat)
    requires w != []
    ensures Reads(Letters(w), f, text, v, i, u, j) <==> u == Fall && Spelt(w, f, text, i, j)
    decreases |w|
  {
    hide Reads, Spelt;
    var rest := w[1..];
    SpeltHead(w, f, text, i, j);
    LetterRead(w[0], f, text, v, i);
    if rest == [] {
      NothingRead(f, text);
      EmptySpelt(f, text, i + 1, j);
    } else {
      LettersRead(rest, f, text, Fall, i + 1, u, j);
    }
    if Reads(Letters(w), f, text, v, i, u, j) {
      var u1, k := ReadsCons(Lit(w[0]), Once, Letters(rest), f, text, v, i, u, j);
    }
    if u == Fall && Spelt(w, f, text, i, j) {
      SpeltRange(w, f, text, i, j);
      ConsReads(Lit(w[0]), Once, Letters(rest), f, text, v, i, Fall, i + 1, u, j);
    }
  }

  lemma LetterRead(c: byte, f: Flags, text: seq<byte>, v: Way, i: nat)
    ensures forall u, k: nat :: ReadsItem(Lit(c), Once, f, text, v, i, u, k)
                             <==> u == Fall && k == i + 1 <= |text| && SameByte(f, text[i], c)
  {
  }

  lemma SpeltHead(w: seq<byte>, f: Flags, text: seq<byte>, i: nat, j: nat)
    requires w != []
    ensures Spelt(w, f, text, i, j)
       <==> i < |text| && SameByte(f, text[i], w[0]) && Spelt(w[1..], f, text, i + 1, j)
  {
    if i < |text| && SameByte(f, text[i], w[0]) && Spelt(w[1..], f, text, i + 1, j) {
      forall k | 0 <= k < |w|
        ensures SameByte(f, text[i + k], w[k])
      {
        if k > 0 {
          assert SameByte(f, text[i + 1 + (k - 1)], w[1..][k - 1]);
        }
      }
    }
    if Spelt(w, f, text, i, j) {
      assert SameByte(f, text[i + 0], w[0]);
      forall k | 0 <= k < |w[1..]|
        ensures SameByte(f, text[i + 1 + k], w[1..][k])
      {
        assert SameByte(f, text[i + (k + 1)], w[k + 1]);
      }
    }
  }

  lemma EmptySpelt(f: Flags, text: seq<byte>, i: nat, j: nat)
    ensures Spelt([], f, text, i, j) <==> i == j <= |text|
  {
  }

  lemma SpeltRange(w: seq<byte>, f: Flags, text: seq<byte>, i: nat, j: nat)
    requires Spelt(w, f, text, i, j)
    ensures j == i + |w| <= |text|
  {
  }

  lemma {:induction false} LettersIn(w: seq<byte>, f: Flags, text: seq<byte>, i: nat, j: nat)
    ensures In(Letters(w), f, text, i, j) <==> Spelt(w, f, text, i, j)
    decreases |w|
  {
    if w == [] {
      EmptySpelt(f, text, i, j);
    } else {
      hide In, Spelt;
      SpeltHead(w, f, text, i, j);
      LettersIn(w[1..], f, text, i + 1, j);
      LetterIn(w[0], f, text, i);
      if In(Letters(w), f, text, i, j) {
        var k := ConsFirst(Lit(w[0]), Once, Letters(w[1..]), f, text, i, j);
      }
      if Spelt(w, f, text, i, j) {
        SpeltRange(w, f, text, i, j);
        ConsWord(Lit(w[0]), Once, Letters(w[1..]), f, text, i, i + 1, j);
      }
    }
  }

  lemma LetterIn(c: byte, f: Flags, text: seq<byte>, i: nat)
    ensures forall k: nat :: InItem(Lit(c), Once, f, text, i, k) <==> k == i + 1 <= |text| && SameByte(f, text[i], c)
  {
  }

  /** A word in parentheses reads itself, and is left by falling off its end. */
  lemma SpelledReads(w: seq<byte>, captured: bool, f: Flags, text: seq<byte>, v: Way, i: nat, u: Way, j: nat)
    requires w != []
    ensures ReadsAtom(Spelled(w, captured), f, text, v, i, u, j) <==> u == Fall && Spelt(w, f, text, i, j)
    ensures InAtom(Spelled(w, captured), f, text, i, j) <==> Spelt(w, f, text, i, j)
    ensures !Bare(Spelled(w, captured))
  {
    hide Spelt, Letters, Reads, In, AtomFragment;
    SpelledFragment(w, captured);
    LettersIn(w, f, text, i, j);
    LettersRead(w, f, text, v, i, u, j);
    LettersRead(w, f, text, Fall, i, Fall, j);
    LettersRead(w, f, text, Fall, i, Jump, j);
  }

  // ----- the shortened word

  lemma {:induction false} CharsRead(code: seq<Inst>, w: seq<byte>, f: Flags, text: seq<byte>, pc: nat, i: nat, j: nat)
    requires pc <= |code| && code[pc..] == Chars(w)
    ensures LineReads(code, f, text, pc, i, j) <==> Spelt(w, f, text, i, j)
    decreases |w|
  {
    assert |code[pc..]| == |w|;
    if w == [] {
      EmptySpelt(f, text, i, j);
    } else {
      hide Spelt;
      SpeltHead(w, f, text, i, j);
      assert code[pc..][0] == Plain(Char).(ch := w[0]);
      assert code[pc + 1..] == code[pc..][1..] == Chars(w[1..]);
      CharsRead(code, w[1..], f, text, pc + 1, i + 1, j);
    }
  }

  /** Without its last instruction a captured word is whole, and a bare one lacks its last letter. */
  lemma SpelledCut(w: seq<byte>, captured: bool, f: Flags, text: seq<byte>, i: nat, e: Ending, j: nat)
    requires w != []
    ensures var s := if captured then w else w[..|w| - 1];
            ReadsCut(AtomFragment(Spelled(w, captured)), f, text, i, e, j)
            <==> if s == [] then e == Ahead && i == j <= |text| else e == Past && Spelt(s, f, text, i, j)
  {
    hide Spelt, LineReads, Leads;
    SpelledFragment(w, captured);
    hide AtomFragment, Spelled;
    var s := if captured then w else w[..|w| - 1];
    var g := AtomFragment(Spelled(w, captured));
    if |g.code| > 1 {
      CutOfSpelled(g.code, w, captured);
      var m := CutMachine(g, f, text);
      LineSpells(m.program, s, captured, f, text, i, j);
      if ReadsCut(g, f, text, i, e, j) {
        CutRange(g, f, text, i, e, j);
        var k := CutSteps(g, f, text, i, e, j);
        LineLeads(m, 0, i, EndingPc(e, |g.code|), j, k);
      }
      if e == Past && LineReads(m.program, f, text, 0, i, j) {
        var k := LeadsLine(m, 0, i, j);
        CutRead(g, f, text, i, e, j, k);
      }
    }
  }

  lemma CutOfSpelled(code: seq<Inst>, w: seq<byte>, captured: bool)
    requires w != [] && code == if captured then [Plain(Save)] + Chars(w) + [Plain(Save)] else Chars(w)
    ensures var c := PlacedCut(code, 0, AHEAD, BACK);
            && Straightforward(c)
            && c == if captured then [Plain(Save)] + Chars(w) else Chars(w[..|w| - 1])
  {
    var c := PlacedCut(code, 0, AHEAD, BACK);
    forall i | 0 <= i < |c|
      ensures c[i] == code[i] && code[i].op in {Char, Save} && code[i].x == 0 && code[i].y == 0
    {
      assert code[i] == if captured && i == 0 then Plain(Save) else Plain(Char).(ch := w[if captured then i - 1 else i]);
    }
  }

  lemma LineSpells(code: seq<Inst>, s: seq<byte>, captured: bool, f: Flags, text: seq<byte>, i: nat, j: nat)
    requires code == (if captured then [Plain(Save)] else []) + Chars(s)
    ensures LineReads(code, f, text, 0, i, j) <==> Spelt(s, f, text, i, j)
  {
    hide Spelt;
    if captured {
      assert code[1..] == Chars(s);
      CharsRead(code, s, f, text, 1, i, j);
      if Spelt(s, f, text, i, j) {
        SpeltRange(s, f, text, i, j);
      }
      if LineReads(code, f, text, 1, i, j) {
        assert i <= |text| by { hide LineReads; if Spelt(s, f, text, i, j) { SpeltRange(s, f, text, i, j); } }
      }
    } else {
      assert code[0..] == Chars(s);
      CharsRead(code, s, f, text, 0, i, j);
    }
  }

  // ----- when the program of `{0,n}` has the usual language

  /** The program matches exactly the words of the expression, in every text. */
  ghost predicate UsualProgram(a: Atom) {
    forall m: Machine, start: nat, end: nat ::
      m.program == Compiled(a).program && start <= |m.text| ==>
        (HasRun(m, start, end) <==> InAtom(a, m.flags, m.text, start, end))
  }

  const PLAIN := Flags(false, false, false, false)

  lemma NotUsual(a: Atom, text: seq<byte>, i: nat, j: nat)
    requires i <= |text| && (Word(a, PLAIN, text, i, j) <==> !InAtom(a, PLAIN, text, i, j))
    ensures !UsualProgram(a)
  {
    hide Word, InAtom, Compiled, HasRun;
    var m := Machine(Compiled(a).program, text, PLAIN);
    ProgramLanguage(m, a, i, j);
  }

  lemma IsUsual(a: Atom)
    requires forall f, text, i: nat, j: nat :: i <= |text| ==> (Word(a, f, text, i, j) <==> InAtom(a, f, text, i, j))
    ensures UsualProgram(a)
  {
    hide Word, InAtom, Compiled, HasRun;
    forall m: Machine, start: nat, end: nat | m.program == Compiled(a).program && start <= |m.text|
      ensures HasRun(m, start, end) <==> InAtom(a, m.flags, m.text, start, end)
    {
      ProgramLanguage(m, a, start, end);
    }
  }

  /** A word in parentheses, repeated up to `n` times. */
  function Repetition(w: seq<byte>, captured: bool, n: nat): Atom {
    Just(Cons(Spelled(w, captured), Repeat(0, n), Empty))
  }

  lemma RepetitionWord(w: seq<byte>, captured: bool, n: nat, f: Flags, text: seq<byte>, i: nat, j: nat)
    ensures var a := Spelled(w, captured);
            Word(Repetition(w, captured, n), f, text, i, j)
            <==> i <= j <= |text| && (ReadsItem(a, Repeat(0, n), f, text, Fall, i, Fall, j)
                                      || ReadsItem(a, Repeat(0, n), f, text, Fall, i, Jump, j))
  {
    hide ReadsItem, Reads, Spelled;
    var a := Spelled(w, captured);
    JustWord(Cons(a, Repeat(0, n), Empty), f, text, i, j);
    OneItem(a, Repeat(0, n), f, text, i, Fall, j);
    OneItem(a, Repeat(0, n), f, text, i, Jump, j);
  }

  lemma RepetitionIn(w: seq<byte>, captured: bool, n: nat, f: Flags, text: seq<byte>, i: nat, j: nat)
    ensures InAtom(Repetition(w, captured, n), f, text, i, j)
       <==> i <= j <= |text| && InItem(Spelled(w, captured), Repeat(0, n), f, text, i, j)
  {
    hide InItem, In, Spelled;
    var a := Spelled(w, captured);
    NoWord(f, text, j, j);
    if In(Cons(a, Repeat(0, n), Empty), f, text, i, j) {
      var k := ConsFirst(a, Repeat(0, n), Empty, f, text, i, j);
      NoWord(f, text, k, j);
    }
    if i <= j <= |text| && InItem(a, Repeat(0, n), f, text, i, j) {
      ConsWord(a, Repeat(0, n), Empty, f, text, i, j, j);
    }
  }

  function Rep(w: seq<byte>, n: nat): seq<byte> {
    if n == 0 then [] else Rep(w, n - 1) + w
  }

  lemma {:induction false} RepPrefix(w: seq<byte>, t: nat, n: nat)
    requires t <= n
    ensures |Rep(w, t)| <= |Rep(w, n)| && Rep(w, n)[..|Rep(w, t)|] == Rep(w, t)
    ensures w != [] && t < n ==> |Rep(w, t)| < |Rep(w, n)|
    decreases n
  {
    if t < n {
      RepPrefix(w, t, n - 1);
      assert Rep(w, n)[..|Rep(w, t)|] == Rep(w, n - 1)[..|Rep(w, t)|];
    }
  }

  lemma RepSpelt(w: seq<byte>, f: Flags, t: nat, n: nat)
    requires t < n
    ensures Spelt(w, f, Rep(w, n), |Rep(w, t)|, |Rep(w, t + 1)|)
  {
    RepPrefix(w, t + 1, n);
    var text := Rep(w, n);
    forall k | 0 <= k < |w|
      ensures text[|Rep(w, t)| + k] == w[k]
    {
      assert text[..|Rep(w, t + 1)|][|Rep(w, t)| + k] == (Rep(w, t) + w)[|Rep(w, t)| + k];
    }
  }

  /** `c` words end where `c` repetitions do. */
  lemma {:induction false} WordsEnd(w: seq<byte>, captured: bool, f: Flags, text: seq<byte>, i: nat, j: nat, c: nat)
    requires w != [] && Words(Spelled(w, captured), f, text, i, j, c)
    ensures j == i + |Rep(w, c)|
    decreases c
  {
    if c > 0 {
      hide InAtom, Spelled, Spelt;
      var k := LastWord(Spelled(w, captured), f, text, i, j, c);
      WordsEnd(w, captured, f, text, i, k, c - 1);
      SpelledReads(w, captured, f, text, Fall, k, Fall, j);
      SpeltRange(w, f, text, k, j);
    }
  }

  /** An optional word that is read. */
  lemma OptionReads(w: seq<byte>, captured: bool, f: Flags, text: seq<byte>, i: nat, j: nat)
    requires w != [] && Spelt(w, f, text, i, j)
    ensures ReadsOption(Spelled(w, captured), f, text, Fall, i, Fall, j)
  {
    hide ReadsAtom, Spelt, Spelled, Bare;
    SpelledReads(w, captured, f, text, Fall, i, Fall, j);
  }

  lemma OneIsUsual(w: seq<byte>, captured: bool)
    ensures UsualProgram(Repetition(w, captured, 1))
  {
    hide Compiled, HasRun, InAtom, Spelled, Letters, Tame, ReOk, TameAtom, AtomOk, Repetition;
    LettersTame(w, false);
    LettersTame(w, true);
    SpelledTame(w, captured);
    var a := Repetition(w, captured, 1);
    RepetitionTame(w, captured);
    forall m: Machine, start: nat, end: nat | m.program == Compiled(a).program && start <= |m.text|
      ensures HasRun(m, start, end) <==> InAtom(a, m.flags, m.text, start, end)
    {
      UsualLanguage(m, a, start, end);
    }
  }

  lemma {:induction false} LettersTame(w: seq<byte>, open: bool)
    ensures Tame(Letters(w), open) && ReOk(Letters(w))
    decreases |w|
  {
    if w != [] {
      LettersTame(w[1..], false);
      hide Tame;
      TameParts(Lit(w[0]), Once, Letters(w[1..]), open);
      assert TameItem(Lit(w[0]), Once, open) && !LeavesItem(Lit(w[0]), Once, open);
    }
  }

  lemma SpelledTame(w: seq<byte>, captured: bool)
    requires Tame(Letters(w), false) && Tame(Letters(w), true) && ReOk(Letters(w))
    ensures TameAtom(Spelled(w, captured), false) && TameAtom(Spelled(w, captured), true) && AtomOk(Spelled(w, captured))
  {
    hide Tame, ReOk, Letters;
  }

  lemma RepetitionTame(w: seq<byte>, captured: bool)
    requires TameAtom(Spelled(w, captured), false) && TameAtom(Spelled(w, captured), true) && AtomOk(Spelled(w, captured))
    ensures TameAtom(Repetition(w, captured, 1), false) && AtomOk(Repetition(w, captured, 1))
  {
    hide Spelled, Bare, LeavesItem;
    var a := Spelled(w, captured);
    TameParts(a, Repeat(0, 1), Empty, false);
    assert TameItem(a, Repeat(0, 1), false) && Tame(Empty, LeavesItem(a, Repeat(0, 1), false));
  }

  /** `{0}` reads the word once. */
  lemma NoneReadsOne(w: seq<byte>, captured: bool)
    requires w != []
    ensures !UsualProgram(Repetition(w, captured, 0))
  {
    hide UsualProgram, Spelled, Word, InAtom, ReadsOption, Words, Repetition;
    var a := Spelled(w, captured);
    assert Spelt(w, PLAIN, w, 0, |w|);
    OptionReads(w, captured, PLAIN, w, 0, |w|);
    RepetitionWord(w, captured, 0, PLAIN, w, 0, |w|);
    RepetitionIn(w, captured, 0, PLAIN, w, 0, |w|);
    if InItem(a, Repeat(0, 0), PLAIN, w, 0, |w|) {
      NoWords(a, PLAIN, w, 0, |w|);
    }
    NotUsual(Repetition(w, captured, 0), w, 0, |w|);
  }

  /** A single letter is not read twice. */
  lemma LetterNotTwice(w: seq<byte>, n: nat)
    requires |w| == 1 && n >= 2
    ensures !UsualProgram(Repetition(w, false, n))
  {
    hide UsualProgram, Spelled, Word, InAtom, ReadsOption, Words, Repetition, ReadsAtom, Spelt, AtomFragment, ReadsRetries;
    var a, text := Spelled(w, false), Rep(w, 2);
    RepSpelt(w, PLAIN, 0, 2);
    RepSpelt(w, PLAIN, 1, 2);
    RepPrefix(w, 0, 2);
    TwoWords(w, false, PLAIN, text, |Rep(w, 0)|, |Rep(w, 1)|, |Rep(w, 2)|);
    RepetitionIn(w, false, n, PLAIN, text, 0, |text|);
    CountedWord(a, Repeat(0, n), PLAIN, text, 0, |text|, 2);
    RepetitionWord(w, false, n, PLAIN, text, 0, |text|);
    SpelledFragment(w, false);
    RepPrefix(w, 1, 2);
    SingleRetries(a, PLAIN, text, Fall, 0, Fall, |text|, n > 2);
    SingleRetries(a, PLAIN, text, Fall, 0, Jump, |text|, n > 2);
    LongOption(w, false, PLAIN, text, 0, Fall, |text|);
    LongOption(w, false, PLAIN, text, 0, Jump, |text|);
    NotUsual(Repetition(w, false, n), text, 0, |text|);
  }

  lemma TwoWords(w: seq<byte>, captured: bool, f: Flags, text: seq<byte>, i: nat, k: nat, j: nat)
    requires w != [] && Spelt(w, f, text, i, k) && Spelt(w, f, text, k, j)
    ensures Words(Spelled(w, captured), f, text, i, j, 2) && j == i + 2 * |w| <= |text|
  {
    hide InAtom, Spelled, Words;
    SpelledReads(w, captured, f, text, Fall, i, Fall, k);
    SpelledReads(w, captured, f, text, Fall, k, Fall, j);
    OneWord(Spelled(w, captured), f, text, i, k);
    WordsMore(Spelled(w, captured), f, text, i, k, j, 1);
  }

  /** An optional word reads nothing or the word. */
  lemma LongOption(w: seq<byte>, captured: bool, f: Flags, text: seq<byte>, i: nat, u: Way, j: nat)
    requires w != []
    ensures ReadsOption(Spelled(w, captured), f, text, Fall, i, u, j) ==> j == i || j == i + |w|
  {
    hide ReadsAtom, Spelled, Bare;
    SpelledReads(w, captured, f, text, Fall, i, u, j);
  }

  // ----- a bare word

  /** The word, and then the word without its last letter. */
  function WordAndCut(w: seq<byte>): seq<byte>
    requires w != []
  {
    w + w[..|w| - 1]
  }

  /** The program of `(?:w){0,n}` matches all of `w` followed by `w` without its last letter. */
  lemma HalfRead(w: seq<byte>, n: nat, f: Flags)
    requires |w| >= 2 && n >= 2
    ensures Word(Repetition(w, false, n), f, WordAndCut(w), 0, 2 * |w| - 1)
  {
    hide Spelled, ReadsOption, ReadsRetries, Retried, AtomFragment, ReadsCut, Repetition, Word;
    var a, text, end := Spelled(w, false), WordAndCut(w), 2 * |w| - 1;
    assert Spelt(w, f, text, 0, |w|);
    assert Spelt(w[..|w| - 1], f, text, |w|, end);
    hide Spelt;
    OptionReads(w, false, f, text, 0, |w|);
    SpelledCut(w, false, f, text, |w|, Past, end);
    RetriedNow(AtomFragment(a), f, text, |w|, Fall, end, n > 2);
    RetriesMore(a, f, text, Fall, 0, Fall, |w|, Fall, end, n > 2);
    RepetitionWord(w, false, n, f, text, 0, end);
  }

  lemma RepSizes(w: seq<byte>, c: nat)
    ensures |Rep(w, c)| == 0 || |Rep(w, c)| == |w| || |Rep(w, c)| >= 2 * |w|
  {
    if c >= 2 {
      RepPrefix(w, 2, c);
    }
  }

  lemma HalfNotIn(w: seq<byte>, n: nat, f: Flags)
    requires |w| >= 2
    ensures !InAtom(Repetition(w, false, n), f, WordAndCut(w), 0, 2 * |w| - 1)
  {
    hide Spelled, InAtom, InItem, Words, Repetition;
    var a, text, end := Spelled(w, false), WordAndCut(w), 2 * |w| - 1;
    RepetitionIn(w, false, n, f, text, 0, end);
    if InItem(a, Repeat(0, n), f, text, 0, end) {
      var c := WordCount(a, Repeat(0, n), f, text, 0, end);
      RepSizes(w, c);
      WordsEnd(w, false, f, text, 0, end, c);
    }
  }

  /** For every word and every `n`, `(?:w){0,n}` is compiled to a program for its language exactly when `n` is 1. */
  lemma LiteralRepetition(w: seq<byte>, n: nat)
    requires w != []
    ensures UsualProgram(Repetition(w, false, n)) <==> n == 1
  {
    hide UsualProgram, Word, InAtom, Repetition;
    if n == 0 {
      NoneReadsOne(w, false);
    } else if n == 1 {
      OneIsUsual(w, false);
    } else if |w| == 1 {
      LetterNotTwice(w, n);
    } else {
      HalfRead(w, n, PLAIN);
      HalfNotIn(w, n, PLAIN);
      NotUsual(Repetition(w, false, n), WordAndCut(w), 0, 2 * |w| - 1);
    }
  }

  // ----- a captured word

  /** A captured word never leads back, so two repetitions are two options. */
  lemma {:induction false} NeverBack(w: seq<byte>, f: Flags, text: seq<byte>, i: nat, j: nat, n: nat)
    requires w != [] && Strays(AtomFragment(Spelled(w, true)), f, text, i, j, false, n)
    ensures n == 0 && i == j <= |text|
  {
    hide AtomFragment, Spelled, ReadsCut, Spelt;
    if n > 0 {
      var e, k := FirstStray(AtomFragment(Spelled(w, true)), f, text, i, j, false, n);
      SpelledCut(w, true, f, text, i, e, k);
    }
  }

  lemma TwiceReadsIn(w: seq<byte>, f: Flags, text: seq<byte>, i: nat, u: Way, j: nat)
    requires w != [] && ReadsRetries(Spelled(w, true), f, text, Fall, i, u, j, false)
    ensures InItem(Spelled(w, true), Repeat(0, 2), f, text, i, j)
  {
    hide AtomFragment, Spelled, ReadsCut, Spelt, ReadsOption, InItem, InAtom, Words, Strays, NoExtrasAtom, AtomOk;
    var a := Spelled(w, true);
    var u1, k := RetriesFirst(a, f, text, Fall, i, u, j, false);
    SpelledKept(w, true);
    var c := OptionIn(a, f, text, Fall, i, u1, k);
    OptionRange(a, f, text, Fall, i, u1, k);
    var k1: nat, n: nat :| k <= k1 <= j && Strays(AtomFragment(a), f, text, k, k1, false, n)
                           && LeavesBy(AtomFragment(a), f, text, k1, u, j);
    NeverBack(w, f, text, k, k1, n);
    if u == Jump && k1 == j {
      CountedWord(a, Repeat(0, 2), f, text, i, j, c);
    } else {
      SpelledCut(w, true, f, text, k, if u == Fall then Past else Ahead, j);
      SpelledReads(w, true, f, text, Fall, k, Fall, j);
      WordsMore(a, f, text, i, k, j, c);
      CountedWord(a, Repeat(0, 2), f, text, i, j, c + 1);
    }
  }

  lemma SpelledKept(w: seq<byte>, captured: bool)
    ensures NoExtrasAtom(Spelled(w, captured)) && AtomOk(Spelled(w, captured))
  {
    hide Spelled, TameAtom, NoExtrasAtom, AtomOk, Letters, Tame, ReOk;
    LettersTame(w, false);
    LettersTame(w, true);
    SpelledTame(w, captured);
    TameAtomOnly(Spelled(w, captured), false);
  }

  lemma InReadsTwice(w: seq<byte>, f: Flags, text: seq<byte>, i: nat, j: nat) returns (u: Way)
    requires w != [] && InItem(Spelled(w, true), Repeat(0, 2), f, text, i, j)
    ensures ReadsRetries(Spelled(w, true), f, text, Fall, i, u, j, false)
  {
    hide AtomFragment, Spelled, ReadsCut, Spelt, ReadsAtom, InItem, InAtom, Words, Retried;
    var a := Spelled(w, true);
    var c := WordCount(a, Repeat(0, 2), f, text, i, j);
    WordsRange(a, f, text, i, j, c);
    if c == 0 {
      NoWords(a, f, text, i, j);
      u := Jump;
      RetriedNow(AtomFragment(a), f, text, i, u, j, false);
      RetriesMore(a, f, text, Fall, i, Jump, i, u, j, false);
    } else {
      var k := LastWord(a, f, text, i, j, c);
      SpelledReads(w, true, f, text, Fall, k, Fall, j);
      if c == 1 {
        u := Jump;
        OptionReads(w, true, f, text, i, j);
        RetriedNow(AtomFragment(a), f, text, j, u, j, false);
        RetriesMore(a, f, text, Fall, i, Fall, j, u, j, false);
      } else {
        u := Fall;
        var k0 := LastWord(a, f, text, i, k, 1);
        SpelledReads(w, true, f, text, Fall, i, Fall, k);
        OptionReads(w, true, f, text, i, k);
        SpelledCut(w, true, f, text, k, Past, j);
        WordsRange(a, f, text, i, k, 1);
        RetriedNow(AtomFragment(a), f, text, k, u, j, false);
        RetriesMore(a, f, text, Fall, i, Fall, k, u, j, false);
      }
    }
  }

  lemma TwoIsUsual(w: seq<byte>)
    requires w != []
    ensures UsualProgram(Repetition(w, true, 2))
  {
    hide UsualProgram, Word, InAtom, InItem, ReadsRetries, Spelled, Repetition;
    var a := Spelled(w, true);
    forall f, text, i: nat, j: nat | i <= |text|
      ensures Word(Repetition(w, true, 2), f, text, i, j) <==> InAtom(Repetition(w, true, 2), f, text, i, j)
    {
      RepetitionWord(w, true, 2, f, text, i, j);
      RepetitionIn(w, true, 2, f, text, i, j);
      TwiceUsual(w, f, text, i, j);
    }
    IsUsual(Repetition(w, true, 2));
  }

  lemma TwiceUsual(w: seq<byte>, f: Flags, text: seq<byte>, i: nat, j: nat)
    requires w != []
    ensures var a := Spelled(w, true);
            ReadsItem(a, Repeat(0, 2), f, text, Fall, i, Fall, j) || ReadsItem(a, Repeat(0, 2), f, text, Fall, i, Jump, j)
            <==> InItem(a, Repeat(0, 2), f, text, i, j)
  {
    hide InItem, ReadsRetries, Spelled;
    var a := Spelled(w, true);
    if ReadsItem(a, Repeat(0, 2), f, text, Fall, i, Fall, j) || ReadsItem(a, Repeat(0, 2), f, text, Fall, i, Jump, j) {
      TwiceReadsIn(w, f, text, i, if ReadsItem(a, Repeat(0, 2), f, text, Fall, i, Fall, j) then Fall else Jump, j);
    }
    if InItem(a, Repeat(0, 2), f, text, i, j) {
      var u := InReadsTwice(w, f, text, i, j);
      assert u == Fall || u == Jump;
    }
  }

  lemma {:induction false} StraysOfRep(w: seq<byte>, f: Flags, t: nat, s: nat, n: nat)
    requires w != [] && t <= s <= n
    ensures Strays(AtomFragment(Spelled(w, true)), f, Rep(w, n), |Rep(w, t)|, |Rep(w, s)|, true, s - t)
    decreases s - t
  {
    hide AtomFragment, Spelled, ReadsCut, Spelt, Rep;
    RepPrefix(w, t, n);
    if t < s {
      RepPrefix(w, t, s);
      RepPrefix(w, t + 1, s);
      RepPrefix(w, t, t + 1);
      RepSpelt(w, f, t, n);
      SpelledCut(w, true, f, Rep(w, n), |Rep(w, t)|, Past, |Rep(w, t + 1)|);
      StraysOfRep(w, f, t + 1, s, n);
    }
  }

  /** With `n` above 2 the blocks lead back without end: one word more than `n` is read, too. */
  lemma OneTooMany(w: seq<byte>, n: nat)
    requires w != [] && n >= 3
    ensures !UsualProgram(Repetition(w, true, n))
  {
    hide UsualProgram, Word, InAtom, InItem, ReadsRetries, Retried, Spelled, Repetition, AtomFragment, ReadsCut, Spelt, Rep,
         Strays, Words, ReadsOption, LeavesBy;
    var a, f, text := Spelled(w, true), PLAIN, Rep(w, n + 1);
    var g, end := AtomFragment(a), |Rep(w, n + 1)|;
    RepNone(w);
    RepSpelt(w, f, 0, n + 1);
    RepPrefix(w, 0, 1);
    RepPrefix(w, 1, n + 1);
    OptionReads(w, true, f, text, 0, |Rep(w, 1)|);
    StraysOfRep(w, f, 1, n + 1, n + 1);
    RetriedBy(g, f, text, |Rep(w, 1)|, end, n);
    RetriesMore(a, f, text, Fall, 0, Fall, |Rep(w, 1)|, Jump, end, true);
    RepetitionWord(w, true, n, f, text, 0, end);
    RepetitionIn(w, true, n, f, text, 0, end);
    if InItem(a, Repeat(0, n), f, text, 0, end) {
      var c := WordCount(a, Repeat(0, n), f, text, 0, end);
      WordsEnd(w, true, f, text, 0, end, c);
      RepPrefix(w, c, n + 1);
    }
    NotUsual(Repetition(w, true, n), text, 0, end);
  }

  lemma RepNone(w: seq<byte>)
    ensures Rep(w, 0) == []
  {
  }

  lemma RetriedBy(g: Fragment, f: Flags, text: seq<byte>, i: nat, j: nat, n: nat)
    requires i <= j <= |text| && Strays(g, f, text, i, j, true, n)
    ensures Retried(g, f, text, i, Jump, j, true)
  {
    hide ReadsCut, Strays;
  }

  /** For every word and every `n`, `(w){0,n}` is compiled to a program for its language exactly when `n` is 1 or 2. */
  lemma CapturedRepetition(w: seq<byte>, n: nat)
    requires w != []
    ensures UsualProgram(Repetition(w, true, n)) <==> n == 1 || n == 2
  {
    hide UsualProgram, Repetition;
    if n == 0 {
      NoneReadsOne(w, true);
    } else if n == 1 {
      OneIsUsual(w, true);
    } else if n == 2 {
      TwoIsUsual(w);
    } else {
      OneTooMany(w, n);
    }
  }

  // ----- as it is written

  /** `(?:cd){0,2}` compiles and matches all of `cdc`, which is no repetition of `cd`. */
  lemma HalfRepetition(m: Machine)
    requires m.text == Bytes("cdc")
    ensures Parse(Bytes("(?:cd){0,2}"), true).Ok?
    ensures m.program == Compiled(Parse(Bytes("(?:cd){0,2}"), true).value).program ==>
              HasRun(m, 0, 3) && !InAtom(Parse(Bytes("(?:cd){0,2}"), true).value, m.flags, m.text, 0, 3)
  {
    hide Compiled, HasRun, InAtom, Word, Parse, SequenceAt, AtomAt, QuantAt, Repetition;
    var pattern, w := Bytes("(?:cd){0,2}"), Bytes("cd");
    TwoLettersParsed(pattern);
    assert m.text == WordAndCut(w);
    HalfRead(w, 2, m.flags);
    HalfNotIn(w, 2, m.flags);
    if m.program == Compiled(Parse(pattern, true).value).program {
      ProgramLanguage(m, Repetition(w, false, 2), 0, 3);
    }
  }

  lemma TwoLettersParsed(pattern: seq<byte>)
    requires pattern == Bytes("(?:cd){0,2}")
    ensures Parse(pattern, true) == Ok(Repetition(Bytes("cd"), false, 2), |pattern|)
  {
    hide Parse, SequenceAt, AtomAt, QuantAt;
    var rest := Cons(Lit(B('d')), Once, Empty);
    EndParsed(pattern, 5, true, true);
    LetterThen(pattern, 4, true, true, Empty, 5);
    LetterThen(pattern, 3, true, true, rest, 5);
    BoundsParsed(pattern);
    EndParsed(pattern, 11, false, true);
    LettersOfTwo();
    var inside := Cons(Lit(B('c')), Once, rest);
    GroupParsed(pattern, 0, false, inside, 5, Repeat(0, 2), 11, Empty, 11);
    WholeParsed(pattern, true, Cons(Just(inside), Repeat(0, 2), Empty));
  }

  lemma LettersOfTwo()
    ensures Letters(Bytes("cd")) == Cons(Lit(B('c')), Once, Cons(Lit(B('d')), Once, Empty))
  {
    assert Bytes("cd")[1..] == [B('d')] && [B('d')][1..] == [];
  }

  lemma BoundsParsed(pattern: seq<byte>)
    requires pattern == Bytes("(?:cd){0,2}")
    ensures QuantAt(pattern, 6, true) == Ok(Repeat(0, 2), 11)
  {
    assert Digits(pattern, 8, 0) == Some((0, 8));
    assert Digits(pattern, 7, 0) == Some((0, 8));
    assert Digits(pattern, 10, 2) == Some((2, 10));
    assert Digits(pattern, 9, 0) == Some((2, 10));
    assert IntervalAt(pattern, 7) == Some((0, 2, 11));
  }
}
