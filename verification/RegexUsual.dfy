/**
 The usual language of an expression (POSIX.1-2017 XBD section 9.4), and how the language of the compiled
 program compares with it: without `{0}` nothing else is read, and everything is read where no SPLIT is put
 in at a place to which an earlier item jumps and no loop occurs (lib/libc_regex.c:73-80, 478-504, 534-628).

 One liberty is taken: an alternation also reads the empty word, as its code does.
 */
module RegexUsual {
  import opened RegexVm
  import opened RegexSyntax
  import opened RegexBuild
  import opened RegexCode
  import opened RegexRuns
  import opened RegexCuts
  import opened RegexLanguage

  // ----- the usual language

  /** `text[i..j]` is a word of the expression. */
  ghost predicate In(re: Re, f: Flags, text: seq<byte>, i: nat, j: nat)
    decreases re, 0
  {
    match re
    case Empty => i == j <= |text|
    case Cons(a, q, rest) => exists k: nat :: i <= k <= j && InItem(a, q, f, text, i, k) && In(rest, f, text, k, j)
  }

  ghost predicate InItem(a: Atom, q: Quant, f: Flags, text: seq<byte>, i: nat, j: nat)
    decreases a, 2
  {
    match q
    case Once => InAtom(a, f, text, i, j)
    case Plus => exists n: nat :: n >= 1 && Words(a, f, text, i, j, n)
    case Repeat(min, max) => exists n: nat :: min <= n <= max && Words(a, f, text, i, j, n)
    case Loop(min) => exists n: nat :: min <= n && Words(a, f, text, i, j, n)
  }

  /** A concatenation of `n` words of the atom. */
  ghost predicate Words(a: Atom, f: Flags, text: seq<byte>, i: nat, j: nat, n: nat)
    decreases a, 1, n
  {
    if n == 0 then i == j <= |text|
    else exists k: nat :: i <= k <= j && Words(a, f, text, i, k, n - 1) && InAtom(a, f, text, k, j)
  }

  ghost predicate InAtom(a: Atom, f: Flags, text: seq<byte>, i: nat, j: nat)
    decreases a, 0
  {
    match a
    case Group(body) => In(body, f, text, i, j)
    case Capture(inner) => InAtom(inner, f, text, i, j)
    case Choice(first, others) => i == j <= |text| || In(first, f, text, i, j) || InBranch(others, f, text, i, j)
    case _ => ReadsLeaf(a, f, text, i, j)
  }

  /** A word of some branch. */
  ghost predicate InBranch(alts: Alts, f: Flags, text: seq<byte>, i: nat, j: nat)
    decreases alts, 0
  {
    In(alts.re, f, text, i, j) || (alts.More? && InBranch(alts.more, f, text, i, j))
  }

  // ----- nothing else is read

  /** Not `{0}`, nor `{0,n}` with `n` above 1 on more than one instruction: these read more than they say. */
  predicate QuantExact(a: Atom, q: Quant) {
    q.Repeat? && q.min == 0 ==> q.max == 1 || (q.max > 1 && |AtomFragment(a).code| <= 1)
  }

  predicate NoExtras(re: Re)
    decreases re, 0
  {
    re.Cons? ==> NoExtrasAtom(re.atom) && QuantExact(re.atom, re.quant) && NoExtras(re.rest)
  }

  predicate NoExtrasAtom(a: Atom)
    decreases a, 0
  {
    && (a.Group? ==> NoExtras(a.body))
    && (a.Capture? ==> NoExtrasAtom(a.inner))
    && (a.Choice? ==> NoExtras(a.first) && NoExtrasAlts(a.others))
  }

  predicate NoExtrasAlts(alts: Alts)
    decreases alts, 0
  {
    NoExtras(alts.re) && (alts.More? ==> NoExtrasAlts(alts.more))
  }

  lemma ConsWord(a: Atom, q: Quant, rest: Re, f: Flags, text: seq<byte>, i: nat, k: nat, j: nat)
    requires i <= k <= j && InItem(a, q, f, text, i, k) && In(rest, f, text, k, j)
    ensures In(Cons(a, q, rest), f, text, i, j)
  {
  }

  lemma WordsMore(a: Atom, f: Flags, text: seq<byte>, i: nat, k: nat, j: nat, n: nat)
    requires i <= k <= j && Words(a, f, text, i, k, n) && InAtom(a, f, text, k, j)
    ensures Words(a, f, text, i, j, n + 1)
  {
  }

  lemma OneWord(a: Atom, f: Flags, text: seq<byte>, i: nat, j: nat)
    requires i <= j && i <= |text| && InAtom(a, f, text, i, j)
    ensures Words(a, f, text, i, j, 1)
  {
    assert Words(a, f, text, i, i, 0);
  }

  /** How often a quantifier repeats its atom. */
  predicate CountOk(q: Quant, n: nat) {
    match q
    case Once => n == 1
    case Plus => n >= 1
    case Repeat(min, max) => min <= n <= max
    case Loop(min) => min <= n
  }

  lemma CountedWord(a: Atom, q: Quant, f: Flags, text: seq<byte>, i: nat, j: nat, n: nat)
    requires !q.Once? && Words(a, f, text, i, j, n) && CountOk(q, n)
    ensures InItem(a, q, f, text, i, j)
  {
  }

  lemma {:induction false} ReadsIn(re: Re, f: Flags, text: seq<byte>, v: Way, i: nat, w: Way, j: nat)
    requires NoExtras(re) && ReOk(re) && Reads(re, f, text, v, i, w, j)
    ensures In(re, f, text, i, j)
    decreases re, 0
  {
    if re.Cons? {
      hide Reads, ReadsItem, InItem, In;
      var u, k := ReadsCons(re.atom, re.quant, re.rest, f, text, v, i, w, j);
      ItemReadsIn(re.atom, re.quant, f, text, v, i, u, k);
      ReadsIn(re.rest, f, text, u, k, w, j);
      ConsWord(re.atom, re.quant, re.rest, f, text, i, k, j);
    }
  }

  lemma {:induction false} ItemReadsIn(a: Atom, q: Quant, f: Flags, text: seq<byte>, v: Way, i: nat, w: Way, j: nat)
    requires NoExtrasAtom(a) && AtomOk(a) && QuantOk(q) && QuantExact(a, q)
    requires ReadsItem(a, q, f, text, v, i, w, j)
    ensures InItem(a, q, f, text, i, j)
    decreases a, 3
  {
    hide ReadsAtom, ReadsRepeat, ReadsOption, ReadsRetries, Times, NoExtrasAtom, AtomOk, InItem, InAtom, Words, Retried,
         AtomFragment;
    match q
    case Once =>
      AtomReadsIn(a, f, text, v, i, w, j);
      OnceWord(a, f, text, i, j);
    case Plus =>
      var n: nat, u: Way :| n >= 1 && Times(a, f, text, v, i, u, j, n);
      TimesIn(a, f, text, v, i, u, j, n);
      CountedWord(a, q, f, text, i, j, n);
    case Repeat(min, max) =>
      var n;
      if min > 0 {
        n := RepeatIn(a, f, text, v, i, w, j, min, if max > min then max - min else 0);
      } else if max <= 1 {
        n := OptionIn(a, f, text, v, i, w, j);
      } else {
        var u, k := RetriesFirst(a, f, text, v, i, w, j, max > 2);
        SingleRetried(AtomFragment(a), f, text, k, w, j, max > 2);
        n := OptionIn(a, f, text, v, i, u, k);
      }
      CountedWord(a, q, f, text, i, j, n);
    case Loop(_) =>
  }

  lemma OnceWord(a: Atom, f: Flags, text: seq<byte>, i: nat, j: nat)
    ensures InItem(a, Once, f, text, i, j) <==> InAtom(a, f, text, i, j)
  {
  }

  lemma {:induction false} OptionIn(a: Atom, f: Flags, text: seq<byte>, v: Way, i: nat, w: Way, j: nat) returns (n: nat)
    requires NoExtrasAtom(a) && AtomOk(a) && ReadsOption(a, f, text, v, i, w, j)
    ensures n <= 1 && Words(a, f, text, i, j, n)
    decreases a, 1
  {
    hide ReadsAtom, NoExtrasAtom, AtomOk, InAtom, Bare;
    OptionRange(a, f, text, v, i, w, j);
    if v == Fall && w == Jump && i == j {
      n := 0;
    } else {
      AtomReadsIn(a, f, text, if Bare(a) then Jump else v, i, w, j);
      OneWord(a, f, text, i, j);
      n := 1;
    }
  }

  lemma {:induction false} TimesIn(a: Atom, f: Flags, text: seq<byte>, v: Way, i: nat, w: Way, j: nat, n: nat)
    requires n >= 1 && NoExtrasAtom(a) && AtomOk(a) && Times(a, f, text, v, i, w, j, n)
    ensures Words(a, f, text, i, j, n)
    decreases a, 1, n
  {
    hide ReadsAtom, NoExtrasAtom, AtomOk, InAtom, Words, Anew, Times;
    TimesRange(a, f, text, v, i, w, j, n);
    if n == 1 {
      OneTime(a, f, text);
      AtomReadsIn(a, f, text, v, i, w, j);
      OneWord(a, f, text, i, j);
    } else {
      var u, k := TimesLast(a, f, text, v, i, w, j, n);
      TimesIn(a, f, text, v, i, u, k, n - 1);
      AtomReadsIn(a, f, text, Anew(a, u), k, w, j);
      WordsMore(a, f, text, i, k, j, n - 1);
    }
  }

  lemma {:induction false} RepeatIn(a: Atom, f: Flags, text: seq<byte>, v: Way, i: nat, w: Way, j: nat, min: nat, extra: nat)
    returns (n: nat)
    requires min >= 1 && NoExtrasAtom(a) && AtomOk(a) && ReadsRepeat(a, f, text, v, i, w, j, min, extra)
    ensures min <= n <= min + extra && Words(a, f, text, i, j, n)
    decreases a, 2, extra
  {
    hide ReadsAtom, NoExtrasAtom, AtomOk, InAtom, Words, Times, ReadsOption;
    if extra == 0 {
      TimesIn(a, f, text, v, i, w, j, min);
      n := min;
    } else {
      hide ReadsRepeat;
      var u, k := RepeatLast(a, f, text, v, i, w, j, min, extra);
      n := RepeatIn(a, f, text, v, i, u, k, min, extra - 1);
      var one := OptionIn(a, f, text, Fall, k, w, j);
      AddWord(a, f, text, i, k, j, n, one);
      n := n + one;
    }
  }

  lemma AddWord(a: Atom, f: Flags, text: seq<byte>, i: nat, k: nat, j: nat, n: nat, one: nat)
    requires i <= k <= j && Words(a, f, text, i, k, n) && one <= 1 && Words(a, f, text, k, j, one)
    ensures Words(a, f, text, i, j, n + one)
  {
    hide InAtom;
    if one == 1 {
      var k': nat :| k <= k' <= j && Words(a, f, text, k, k', 0) && InAtom(a, f, text, k', j);
      WordsMore(a, f, text, i, k, j, n);
    }
  }

  lemma {:induction false} AtomReadsIn(a: Atom, f: Flags, text: seq<byte>, v: Way, i: nat, w: Way, j: nat)
    requires NoExtrasAtom(a) && AtomOk(a) && ReadsAtom(a, f, text, v, i, w, j)
    ensures InAtom(a, f, text, i, j)
    decreases a, 0
  {
    hide Reads, In, InBranch, NoExtras, NoExtrasAlts, ReadsSome, ReOk, AltsOk, ReadsLeaf;
    match a
    case Group(body) => ReadsIn(body, f, text, v, i, w, j);
    case Capture(inner) =>
      AtomReadsIn(inner, f, text, Fall, i, if ReadsAtom(inner, f, text, Fall, i, Fall, j) then Fall else Jump, j);
    case Choice(first, others) =>
      if ReadsBranch(first, f, text, v, i, j) {
        ReadsIn(first, f, text, v, i, if Reads(first, f, text, v, i, Fall, j) then Fall else Jump, j);
      } else if ReadsSome(others, f, text, i, j) {
        SomeIn(others, f, text, i, j);
      }
    case _ =>
  }

  lemma {:induction false} SomeIn(alts: Alts, f: Flags, text: seq<byte>, i: nat, j: nat)
    requires NoExtrasAlts(alts) && AltsOk(alts) && ReadsSome(alts, f, text, i, j)
    ensures InBranch(alts, f, text, i, j)
    decreases alts, 0
  {
    hide Reads, In, NoExtras, ReOk;
    if ReadsBranch(alts.re, f, text, Fall, i, j) {
      ReadsIn(alts.re, f, text, Fall, i, if Reads(alts.re, f, text, Fall, i, Fall, j) then Fall else Jump, j);
    } else {
      SomeIn(alts.more, f, text, i, j);
    }
  }

  // ----- where everything is read

  /** Whether an item can be left by a jump, given whether a jump leads to it. */
  function LeavesRe(re: Re, open: bool): bool
    decreases re, 0
  {
    match re
    case Empty => open
    case Cons(a, q, rest) => LeavesRe(rest, LeavesItem(a, q, open))
  }

  function LeavesItem(a: Atom, q: Quant, open: bool): bool
    decreases a, 2
  {
    match q
    case Once => LeavesAtom(a, open)
    case Repeat(min, max) => if 0 < min == max then LeavesAtom(a, open || Bare(a)) else true
    case _ => true
  }

  function LeavesAtom(a: Atom, open: bool): bool
    decreases a, 0
  {
    if a.Group? then LeavesRe(a.body, open) else a.Choice?
  }

  /** No loop, and no SPLIT put in where a jump leads. */
  predicate Tame(re: Re, open: bool)
    decreases re, 0
  {
    re.Cons? ==> TameItem(re.atom, re.quant, open) && Tame(re.rest, LeavesItem(re.atom, re.quant, open))
  }

  predicate TameItem(a: Atom, q: Quant, open: bool)
    decreases a, 2
  {
    match q
    case Once => TameAtom(a, open)
    case Plus => TameAtom(a, open || Bare(a))
    case Repeat(min, max) => TameAtom(a, open || Bare(a)) && (min == 0 ==> max == 1 && !open)
    case Loop(_) => false
  }

  predicate TameAtom(a: Atom, open: bool)
    decreases a, 0
  {
    && (a.Group? ==> Tame(a.body, open))
    && (a.Capture? ==> TameAtom(a.inner, false))
    && (a.Choice? ==> !open && Tame(a.first, false) && TameAlts(a.others))
  }

  predicate TameAlts(alts: Alts)
    decreases alts, 0
  {
    Tame(alts.re, false) && (alts.More? ==> TameAlts(alts.more))
  }

  lemma ConsFirst(a: Atom, q: Quant, rest: Re, f: Flags, text: seq<byte>, i: nat, j: nat) returns (k: nat)
    requires In(Cons(a, q, rest), f, text, i, j)
    ensures i <= k <= j && InItem(a, q, f, text, i, k) && In(rest, f, text, k, j)
  {
    k :| i <= k <= j && InItem(a, q, f, text, i, k) && In(rest, f, text, k, j);
  }

  lemma WordCount(a: Atom, q: Quant, f: Flags, text: seq<byte>, i: nat, j: nat) returns (n: nat)
    requires !q.Once? && InItem(a, q, f, text, i, j)
    ensures Words(a, f, text, i, j, n) && CountOk(q, n)
  {
    match q
    case Plus => n :| n >= 1 && Words(a, f, text, i, j, n);
    case Repeat(min, max) => n :| min <= n <= max && Words(a, f, text, i, j, n);
    case Loop(min) => n :| min <= n && Words(a, f, text, i, j, n);
  }

  lemma LastWord(a: Atom, f: Flags, text: seq<byte>, i: nat, j: nat, n: nat) returns (k: nat)
    requires n > 0 && Words(a, f, text, i, j, n)
    ensures i <= k <= j && Words(a, f, text, i, k, n - 1) && InAtom(a, f, text, k, j)
    ensures n == 1 ==> k == i
  {
    k :| i <= k <= j && Words(a, f, text, i, k, n - 1) && InAtom(a, f, text, k, j);
  }

  lemma TameParts(a: Atom, q: Quant, rest: Re, open: bool)
    ensures Tame(Cons(a, q, rest), open) <==> TameItem(a, q, open) && Tame(rest, LeavesItem(a, q, open))
    ensures ReOk(Cons(a, q, rest)) <==> AtomOk(a) && QuantOk(q) && ReOk(rest)
    ensures LeavesRe(Cons(a, q, rest), open) == LeavesRe(rest, LeavesItem(a, q, open))
  {
    hide TameItem, LeavesItem, AtomOk;
  }

  lemma {:induction false} InReads(re: Re, open: bool, f: Flags, text: seq<byte>, v: Way, i: nat, j: nat) returns (w: Way)
    requires Tame(re, open) && ReOk(re) && (v == Jump ==> open) && In(re, f, text, i, j)
    ensures Reads(re, f, text, v, i, w, j) && (w == Jump ==> LeavesRe(re, open))
    decreases re, 0
  {
    hide *;
    match re
    case Empty =>
      w := v;
      NothingRead(f, text);
      NoWord(f, text, i, j);
      EmptyLeaves(open);
    case Cons(a, q, rest) =>
      TameParts(a, q, rest, open);
      var k := ConsFirst(a, q, rest, f, text, i, j);
      var u := ItemInReads(a, q, open, f, text, v, i, k);
      w := InReads(rest, LeavesItem(a, q, open), f, text, u, k, j);
      ConsReads(a, q, rest, f, text, v, i, u, k, w, j);
  }

  lemma EmptyLeaves(open: bool)
    ensures LeavesRe(Empty, open) == open
  {
  }

  lemma NoWord(f: Flags, text: seq<byte>, i: nat, j: nat)
    ensures In(Empty, f, text, i, j) <==> i == j <= |text|
  {
  }

  lemma {:induction false} ItemInReads(a: Atom, q: Quant, open: bool, f: Flags, text: seq<byte>, v: Way, i: nat, j: nat)
    returns (w: Way)
    requires TameItem(a, q, open) && AtomOk(a) && QuantOk(q) && (v == Jump ==> open) && InItem(a, q, f, text, i, j)
    ensures ReadsItem(a, q, f, text, v, i, w, j) && (w == Jump ==> LeavesItem(a, q, open))
    decreases a, 3
  {
    hide TameAtom, InItem, AtomOk, ReadsAtom, Times, ReadsRepeat, InAtom, LeavesAtom, Words, Bare;
    match q
    case Once =>
      OnceWord(a, f, text, i, j);
      w := AtomInReads(a, open, f, text, v, i, j);
    case Plus =>
      var n := WordCount(a, q, f, text, i, j);
      var u := WordsInTimes(a, open, f, text, v, i, j, n);
      w := Jump;
    case Repeat(min, max) =>
      var n := WordCount(a, q, f, text, i, j);
      if min > 0 {
        w := WordsInRepeat(a, open, f, text, v, i, j, n, min, max - min);
      } else if n == 0 {
        NoWords(a, f, text, i, j);
        w := Jump;
      } else {
        var k := LastWord(a, f, text, i, j, n);
        w := AtomInReads(a, open || Bare(a), f, text, if Bare(a) then Jump else v, i, j);
      }
    case Loop(_) =>
      w := v;
  }

  lemma NoWords(a: Atom, f: Flags, text: seq<byte>, i: nat, j: nat)
    ensures Words(a, f, text, i, j, 0) <==> i == j <= |text|
  {
  }

  lemma {:induction false} WordsInTimes(a: Atom, open: bool, f: Flags, text: seq<byte>, v: Way, i: nat, j: nat, n: nat)
    returns (w: Way)
    requires n >= 1 && TameAtom(a, open || Bare(a)) && AtomOk(a) && (v == Jump ==> open) && Words(a, f, text, i, j, n)
    ensures Times(a, f, text, v, i, w, j, n) && (w == Jump ==> LeavesAtom(a, open || Bare(a)))
    decreases a, 1, n
  {
    hide TameAtom, AtomOk, ReadsAtom, Times, InAtom, LeavesAtom, Words, Bare;
    var k := LastWord(a, f, text, i, j, n);
    if n == 1 {
      w := AtomInReads(a, open || Bare(a), f, text, v, i, j);
      OneTime(a, f, text);
    } else {
      var u := WordsInTimes(a, open, f, text, v, i, k, n - 1);
      w := AtomInReads(a, open || Bare(a), f, text, Anew(a, u), k, j);
      TimesMore(a, f, text, v, i, u, k, w, j, n - 1);
    }
  }

  lemma {:induction false} WordsInRepeat(a: Atom, open: bool, f: Flags, text: seq<byte>, v: Way, i: nat, j: nat, n: nat,
                                         min: nat, extra: nat)
    returns (w: Way)
    requires 1 <= min <= n <= min + extra && TameAtom(a, open || Bare(a)) && AtomOk(a)
    requires (v == Jump ==> open) && Words(a, f, text, i, j, n)
    ensures ReadsRepeat(a, f, text, v, i, w, j, min, extra)
    ensures w == Jump && extra == 0 ==> LeavesAtom(a, open || Bare(a))
    decreases a, 2, extra
  {
    hide TameAtom, AtomOk, ReadsAtom, Times, InAtom, LeavesAtom, Words, Bare;
    if extra == 0 {
      w := WordsInTimes(a, open, f, text, v, i, j, n);
    } else if n == min + extra {
      hide ReadsRepeat;
      var k := LastWord(a, f, text, i, j, n);
      var u := WordsInRepeat(a, open, f, text, v, i, k, n - 1, min, extra - 1);
      w := AtomInReads(a, open || Bare(a), f, text, if Bare(a) then Jump else Fall, k, j);
      RepeatMore(a, f, text, v, i, u, k, w, j, min, extra - 1);
    } else {
      hide ReadsRepeat;
      var u := WordsInRepeat(a, open, f, text, v, i, j, n, min, extra - 1);
      w := Jump;
      WordsRange(a, f, text, i, j, n);
      RepeatMore(a, f, text, v, i, u, j, w, j, min, extra - 1);
    }
  }

  lemma {:induction false} WordsRange(a: Atom, f: Flags, text: seq<byte>, i: nat, j: nat, n: nat)
    requires Words(a, f, text, i, j, n)
    ensures i <= j <= |text|
    decreases a, 1, n
  {
    hide InAtom;
    if n > 0 {
      var k := LastWord(a, f, text, i, j, n);
      WordsRange(a, f, text, i, k, n - 1);
      InAtomRange(a, f, text, k, j);
    }
  }

  lemma {:induction false} InAtomRange(a: Atom, f: Flags, text: seq<byte>, i: nat, j: nat)
    requires InAtom(a, f, text, i, j)
    ensures i <= j <= |text|
    decreases a, 0
  {
    hide In, InBranch;
    match a
    case Group(body) => InRange(body, f, text, i, j);
    case Capture(inner) => InAtomRange(inner, f, text, i, j);
    case Choice(first, others) =>
      if In(first, f, text, i, j) {
        InRange(first, f, text, i, j);
      } else if !(i == j <= |text|) {
        BranchInRange(others, f, text, i, j);
      }
    case _ =>
  }

  lemma {:induction false} InRange(re: Re, f: Flags, text: seq<byte>, i: nat, j: nat)
    requires In(re, f, text, i, j)
    ensures i <= j <= |text|
    decreases re
  {
    hide InItem;
    if re.Cons? {
      var k := ConsFirst(re.atom, re.quant, re.rest, f, text, i, j);
      InRange(re.rest, f, text, k, j);
    }
  }

  lemma {:induction false} BranchInRange(alts: Alts, f: Flags, text: seq<byte>, i: nat, j: nat)
    requires InBranch(alts, f, text, i, j)
    ensures i <= j <= |text|
    decreases alts
  {
    hide In;
    if In(alts.re, f, text, i, j) {
      InRange(alts.re, f, text, i, j);
    } else {
      BranchInRange(alts.more, f, text, i, j);
    }
  }

  lemma {:induction false} AtomInReads(a: Atom, open: bool, f: Flags, text: seq<byte>, v: Way, i: nat, j: nat)
    returns (w: Way)
    requires TameAtom(a, open) && AtomOk(a) && (v == Jump ==> open) && InAtom(a, f, text, i, j)
    ensures ReadsAtom(a, f, text, v, i, w, j) && (w == Jump ==> LeavesAtom(a, open))
    decreases a, 0
  {
    hide Tame, In, InBranch, ReOk, AltsOk, Reads, LeavesRe, ReadsSome, TameAlts, ReadsLeaf;
    match a
    case Group(body) => w := InReads(body, open, f, text, v, i, j);
    case Capture(inner) =>
      var u := AtomInReads(inner, false, f, text, Fall, i, j);
      assert u == Fall || u == Jump;
      w := Fall;
    case Choice(first, others) =>
      w := Jump;
      if In(first, f, text, i, j) {
        var u := InReads(first, false, f, text, Fall, i, j);
        assert u == Fall || u == Jump;
      } else if !(i == j <= |text|) {
        BranchInReads(others, f, text, i, j);
      }
    case _ => w := Fall;
  }

  lemma {:induction false} BranchInReads(alts: Alts, f: Flags, text: seq<byte>, i: nat, j: nat)
    requires TameAlts(alts) && AltsOk(alts) && InBranch(alts, f, text, i, j)
    ensures ReadsSome(alts, f, text, i, j)
    decreases alts, 0
  {
    hide Tame, In, ReOk, Reads;
    if In(alts.re, f, text, i, j) {
      var u := InReads(alts.re, false, f, text, Fall, i, j);
      assert u == Fall || u == Jump;
    } else {
      BranchInReads(alts.more, f, text, i, j);
    }
  }

  // ----- tame expressions have exact quantifiers

  lemma {:induction false} TameRe(re: Re, open: bool)
    requires Tame(re, open)
    ensures NoExtras(re)
    decreases re, 0
  {
    if re.Cons? {
      TameAtomOnly(re.atom, if re.quant.Once? then open else open || Bare(re.atom));
      TameRe(re.rest, LeavesItem(re.atom, re.quant, open));
    }
  }

  lemma {:induction false} TameAtomOnly(a: Atom, open: bool)
    requires TameAtom(a, open)
    ensures NoExtrasAtom(a)
    decreases a, 0
  {
    if a.Group? {
      TameRe(a.body, open);
    } else if a.Capture? {
      TameAtomOnly(a.inner, false);
    } else if a.Choice? {
      TameRe(a.first, false);
      TameBranches(a.others);
    }
  }

  lemma {:induction false} TameBranches(alts: Alts)
    requires TameAlts(alts)
    ensures NoExtrasAlts(alts)
    decreases alts, 0
  {
    TameRe(alts.re, false);
    if alts.More? {
      TameBranches(alts.more);
    }
  }

  // ----- the two languages

  /** Without such quantifiers nothing but words of the expression is read, loops and misplaced SPLITs included. */
  lemma WordIsUsual(a: Atom, f: Flags, text: seq<byte>, i: nat, j: nat)
    requires AtomOk(a) && NoExtrasAtom(a) && Word(a, f, text, i, j)
    ensures InAtom(a, f, text, i, j)
  {
    hide ReadsAtom, InAtom, NoExtrasAtom, AtomOk;
    AtomReadsIn(a, f, text, Fall, i, if ReadsAtom(a, f, text, Fall, i, Fall, j) then Fall else Jump, j);
  }

  /** A tame expression reads exactly its words. */
  lemma TameWords(a: Atom, f: Flags, text: seq<byte>, i: nat, j: nat)
    requires AtomOk(a) && TameAtom(a, false)
    ensures Word(a, f, text, i, j) <==> InAtom(a, f, text, i, j)
  {
    hide ReadsAtom, InAtom, NoExtrasAtom, AtomOk, TameAtom;
    TameAtomOnly(a, false);
    if Word(a, f, text, i, j) {
      WordIsUsual(a, f, text, i, j);
    }
    if InAtom(a, f, text, i, j) {
      var w := AtomInReads(a, false, f, text, Fall, i, j);
      assert w == Fall || w == Jump;
    }
  }

  /** Whatever a compiled pattern matches is a word of its expression. */
  lemma OnlyUsualWords(m: Machine, a: Atom, start: nat, end: nat)
    requires AtomOk(a) && NoExtrasAtom(a) && m.program == Compiled(a).program && start <= |m.text|
    ensures HasRun(m, start, end) ==> InAtom(a, m.flags, m.text, start, end)
  {
    hide HasRun, Compiled, Word, InAtom, NoExtrasAtom, AtomOk;
    ProgramLanguage(m, a, start, end);
    if HasRun(m, start, end) {
      WordIsUsual(a, m.flags, m.text, start, end);
    }
  }

  /** A tame pattern matches exactly the words of its expression. */
  lemma UsualLanguage(m: Machine, a: Atom, start: nat, end: nat)
    requires AtomOk(a) && TameAtom(a, false) && m.program == Compiled(a).program && start <= |m.text|
    ensures HasRun(m, start, end) <==> InAtom(a, m.flags, m.text, start, end)
  {
    hide HasRun, Compiled, Word, InAtom, AtomOk, TameAtom;
    TameAtomOnly(a, false);
    ProgramLanguage(m, a, start, end);
    TameWords(a, m.flags, m.text, start, end);
  }
}
