/**
 From a written pattern to the reported match: repetitions of one byte, whatever way the byte is written, in
 either syntax (lib/libc_regex.c:302-476, 506-583, 905-971).
 */
module RegexSearches {
  import opened Maybe
  import opened RegexVm
  import opened RegexExec
  import opened RegexSyntax
  import opened RegexBuild
  import opened RegexSlots
  import opened RegexLaws
  import opened RegexReported
  import opened RegexWritten
  import Brackets = RegexBrackets

  /** An item for one byte: a literal, a dot, a bracket expression or a shorthand. */
  predicate OneByte(s: Source) { s.Literal? || s.AnyByte? || s.Class? || s.Short? }

  function OneItem(s: Source, t: Times): Branches { Alone(Item(s, t, Nil)) }

  /** What the item takes at a position of the text. */
  predicate ByteAt(s: Source, f: Flags, text: seq<byte>, i: nat)
    requires OneByte(s)
  {
    TakenAt(Machine([], text, f), Meaning(s), i)
  }

  predicate AllAt(s: Source, f: Flags, text: seq<byte>, start: nat, end: nat)
    requires OneByte(s)
  {
    forall i: nat :: start <= i < end ==> ByteAt(s, f, text, i)
  }

  lemma SameTaken(m: Machine, s: Source, i: nat)
    requires OneByte(s)
    ensures IsByte(Meaning(s)) && (TakenAt(m, Meaning(s), i) <==> ByteAt(s, m.flags, m.text, i))
  {
  }

  /** The pattern of one quantified item is accepted, and its program keeps to its own two slots. */
  lemma Prepared(s: Source, t: Times, extended: bool)
    requires OneByte(s) && SourceOk(s, false, extended, TimesText(t, extended)) && TimesFit(t)
    requires !t.Single? && !t.Star? && Runs(TimesMeaning(t))
    ensures var pattern := BranchesText(OneItem(s, t), extended); var a := BranchesMeaning(OneItem(s, t));
            && Parse(pattern, extended) == Ok(a, |pattern|) && (forall b <- pattern :: b != 0)
            && a == Group(Cons(Meaning(s), TimesMeaning(t), Empty))
            && SlotsWithin(Compiled(a).program, Compiled(a).groups) && Compiled(a).groups == 0
  {
    hide SourceText, TimesText, SourceOk, TimesFit, Meaning, TimesMeaning, Compiled, SlotsWithin, Parse, BranchesOk;
    var b := OneItem(s, t);
    AloneOk(s, t, extended);
    PatternRead(b, extended);
    BranchesBytes(b, false, extended, []);
    assert SequenceMeaning(Item(s, t, Nil)) == Cons(Meaning(s), TimesMeaning(t), SequenceMeaning(Nil));
    SlotsKept(Meaning(s), TimesMeaning(t)) by { ByteMeaning(s); }
  }

  lemma AloneOk(s: Source, t: Times, extended: bool)
    requires SourceOk(s, false, extended, TimesText(t, extended)) && TimesFit(t) && !t.Single?
    ensures PatternOk(OneItem(s, t), extended)
  {
    hide SourceText, SourceOk, TimesFit, QuantifierBegins;
    NothingBehind(extended);
    var times := TimesText(t, extended);
    assert SequenceText(Nil, extended) + [] == [] && times + [] == times;
    assert SequenceOk(Nil, false, extended, []);
    assert SequenceOk(Item(s, t, Nil), false, extended, []);
  }

  lemma NothingBehind(extended: bool)
    ensures Ends([], false, extended) && !Begins([], '|', extended) && !QuantifierBegins([], extended)
  {
  }

  lemma ByteMeaning(s: Source)
    requires OneByte(s)
    ensures IsByte(Meaning(s))
  {
  }

  /** The quantifiers whose reports are known: `+`, `?`, and an interval that asks for at least one. */
  predicate Runs(q: Quant) {
    q.Plus? || q == Repeat(0, 1) || (q.Repeat? && 0 < q.min <= q.max)
  }

  lemma SlotsKept(a: Atom, q: Quant)
    requires IsByte(a) && Runs(q)
    ensures var c := Compiled(Group(Cons(a, q, Empty))); c.groups == 0 && SlotsWithin(c.program, 0)
  {
    hide Compiled;
    match q {
      case Plus => PlusCompiled(a);
      case Repeat(min, max) =>
        if min == 0 {
          OptionCompiled(a);
        } else {
          RepeatCompiled(a, min, max);
        }
    }
  }

  // ----- the searches

  lemma WordsAreMatches(a: Atom, f: Flags, text: seq<byte>)
    ensures var m := Machine(Compiled(a).program, text, f); HasMatch(m) <==> HasWord(a, f, text)
  {
    hide Compiled, HasMatch, HasWord;
    MatchMeansWord(a, Machine(Compiled(a).program, text, f));
  }

  lemma PlusMatches(m: Machine, a: Atom)
    requires IsByte(a) && m.program == Compiled(Group(Cons(a, Plus, Empty))).program
    ensures HasMatch(m) <==> exists i: nat :: TakenAt(m, a, i)
  {
    hide Compiled, Reaches, TakenAt;
    PlusCompiled(a);
    forall i: nat | i <= |m.text|
      ensures Reaches(m, State(0, i)) <==> TakenAt(m, a, i)
    {
      PlusStarts(m, a, i);
    }
    forall i: nat | TakenAt(m, a, i)
      ensures i < |m.text|
    {
      TakenInside(m, a, i);
    }
  }

  /** `X+`: nothing is found exactly when no byte of X is in the text; else the first run of them as a whole. */
  method SearchPlus(s: Source, extended: bool, text: seq<byte>, f: Flags) returns (code: int, found: Option<RegMatch>)
    requires OneByte(s) && SourceOk(s, false, extended, TimesText(OneOrMore, extended))
    ensures code == 0 && (found.None? <==> forall i: nat :: !ByteAt(s, f, text, i))
    ensures found.Some? ==>
              var start, end := found.value.so, found.value.eo;
              && 0 <= start < end <= |text| && AllAt(s, f, text, start, end) && !ByteAt(s, f, text, end)
              && forall i: nat :: i < start ==> !ByteAt(s, f, text, i)
  {
    hide *;
    var pattern := BranchesText(OneItem(s, OneOrMore), extended);
    ghost var a := BranchesMeaning(OneItem(s, OneOrMore));
    PreparedPlus(s, extended);
    code, found := CompileAndSearch(pattern, extended, text, f);
    ghost var m := Machine(Compiled(a).program, text, f);
    WordsAreMatches(a, f, text);
    PlusFound(s, m);
    if found.Some? {
      PlusFoundAt(s, m, found.value.so, Compiled(a).groups);
    }
  }

  lemma PreparedPlus(s: Source, extended: bool)
    requires OneByte(s) && SourceOk(s, false, extended, TimesText(OneOrMore, extended))
    ensures var b := OneItem(s, OneOrMore); var pattern, a := BranchesText(b, extended), BranchesMeaning(b);
            && Parse(pattern, extended) == Ok(a, |pattern|) && (forall b <- pattern :: b != 0)
            && a == Group(Cons(Meaning(s), Plus, Empty)) && SlotsWithin(Compiled(a).program, Compiled(a).groups)
  {
    hide SourceOk, Parse, Compiled, BranchesText, BranchesMeaning, SlotsWithin, Meaning;
    Prepared(s, OneOrMore, extended);
  }

  lemma TakenEverywhere(m: Machine, s: Source)
    requires OneByte(s)
    ensures IsByte(Meaning(s)) && forall i: nat :: TakenAt(m, Meaning(s), i) <==> ByteAt(s, m.flags, m.text, i)
  {
    hide TakenAt, ByteAt, Meaning;
    ByteMeaning(s);
    forall i: nat
      ensures IsByte(Meaning(s)) && (TakenAt(m, Meaning(s), i) <==> ByteAt(s, m.flags, m.text, i))
    {
      SameTaken(m, s, i);
    }
  }

  lemma PlusFound(s: Source, m: Machine)
    requires OneByte(s) && m.program == Compiled(Group(Cons(Meaning(s), Plus, Empty))).program
    ensures HasMatch(m) <==> !(forall i: nat :: !ByteAt(s, m.flags, m.text, i))
  {
    hide Compiled, HasMatch, TakenAt, ByteAt, Meaning;
    TakenEverywhere(m, s);
    PlusMatches(m, Meaning(s));
  }

  lemma PlusFoundAt(s: Source, m: Machine, start: nat, nsub: nat)
    requires OneByte(s) && m.program == Compiled(Group(Cons(Meaning(s), Plus, Empty))).program && IsLeftmost(m, start)
    ensures var caps := MatchCaptures(m, start, nsub);
            && |caps| >= 2 && caps[0] == start < caps[1] <= |m.text| && AllAt(s, m.flags, m.text, start, caps[1])
            && !ByteAt(s, m.flags, m.text, caps[1]) && forall i: nat :: i < start ==> !ByteAt(s, m.flags, m.text, i)
  {
    hide Compiled, TakenAt, ByteAt, MatchCaptures, IsLeftmost, Meaning;
    TakenEverywhere(m, s);
    PlusReports(m, Meaning(s), nsub, start);
  }

  /** `X?`: a match at the very beginning, which takes the byte if it stands there. */
  method SearchOptional(s: Source, extended: bool, text: seq<byte>, f: Flags)
    returns (code: int, found: Option<RegMatch>)
    requires OneByte(s) && SourceOk(s, false, extended, TimesText(Optional, extended))
    ensures code == 0 && found == Some(RegMatch(0, if ByteAt(s, f, text, 0) then 1 else 0))
  {
    hide *;
    var pattern := BranchesText(OneItem(s, Optional), extended);
    ghost var a := BranchesMeaning(OneItem(s, Optional));
    PreparedOption(s, extended);
    code, found := CompileAndSearch(pattern, extended, text, f);
    ghost var m := Machine(Compiled(a).program, text, f);
    WordsAreMatches(a, f, text);
    OptionMatches(s, m);
    if found.Some? {
      OptionFoundAt(s, m, found.value.so, Compiled(a).groups);
    }
  }

  lemma PreparedOption(s: Source, extended: bool)
    requires OneByte(s) && SourceOk(s, false, extended, TimesText(Optional, extended))
    ensures var b := OneItem(s, Optional); var pattern, a := BranchesText(b, extended), BranchesMeaning(b);
            && Parse(pattern, extended) == Ok(a, |pattern|) && (forall b <- pattern :: b != 0)
            && a == Group(Cons(Meaning(s), Repeat(0, 1), Empty)) && SlotsWithin(Compiled(a).program, Compiled(a).groups)
  {
    hide SourceOk, Parse, Compiled, BranchesText, BranchesMeaning, SlotsWithin, Meaning;
    Prepared(s, Optional, extended);
  }

  lemma OptionMatches(s: Source, m: Machine)
    requires OneByte(s) && m.program == Compiled(Group(Cons(Meaning(s), Repeat(0, 1), Empty))).program
    ensures HasMatch(m)
  {
    hide Compiled, TakenAt, FirstPath, Meaning, Reaches;
    ByteMeaning(s);
    OptionCompiled(Meaning(s));
    OptionPathFound(m, Meaning(s), 0);
    SearchDecides(m, State(0, 0));
    assert Reaches(m, State(0, 0));
  }

  lemma OptionFoundAt(s: Source, m: Machine, start: nat, nsub: nat)
    requires OneByte(s) && m.program == Compiled(Group(Cons(Meaning(s), Repeat(0, 1), Empty))).program
    requires IsLeftmost(m, start)
    ensures var caps := MatchCaptures(m, start, nsub);
            |caps| >= 2 && start == caps[0] == 0 && caps[1] == if ByteAt(s, m.flags, m.text, 0) then 1 else 0
  {
    hide Compiled, TakenAt, ByteAt, MatchCaptures, IsLeftmost, Meaning;
    TakenEverywhere(m, s);
    OptionReports(m, Meaning(s), nsub, start);
  }

  predicate ManyAt(s: Source, f: Flags, text: seq<byte>, i: nat, n: nat)
    requires OneByte(s)
  {
    AllAt(s, f, text, i, i + n)
  }

  /** The bounds of a closed interval that asks for at least one. */
  predicate Bounded(t: Times, low: nat, high: nat) {
    t.Interval? && !t.upper.Open? && TimesFit(t) && TimesMeaning(t) == Repeat(low, high) && 0 < low <= high
  }

  /** `X{low,high}`: the bytes of X at the first place where `low` of them stand, at most `high`. */
  method SearchRepeated(s: Source, t: Times, low: nat, high: nat, extended: bool, text: seq<byte>, f: Flags)
    returns (code: int, found: Option<RegMatch>)
    requires OneByte(s) && SourceOk(s, false, extended, TimesText(t, extended)) && Bounded(t, low, high)
    ensures code == 0 && (found.None? <==> forall i: nat :: i <= |text| ==> !ManyAt(s, f, text, i, low))
    ensures found.Some? ==>
              var start, end := found.value.so, found.value.eo;
              && 0 <= start && start + low <= end <= start + high && end <= |text| && AllAt(s, f, text, start, end)
              && (end < start + high ==> !ByteAt(s, f, text, end))
              && forall i: nat :: i < start ==> !ManyAt(s, f, text, i, low)
  {
    hide *;
    var pattern := BranchesText(OneItem(s, t), extended);
    ghost var a := BranchesMeaning(OneItem(s, t));
    PreparedRepeat(s, t, low, high, extended);
    code, found := CompileAndSearch(pattern, extended, text, f);
    ghost var m := Machine(Compiled(a).program, text, f);
    WordsAreMatches(a, f, text);
    RepeatMatches(s, m, low, high);
    if found.Some? {
      RepeatFoundAt(s, m, low, high, found.value.so, Compiled(a).groups);
    }
  }

  lemma PreparedRepeat(s: Source, t: Times, low: nat, high: nat, extended: bool)
    requires OneByte(s) && SourceOk(s, false, extended, TimesText(t, extended)) && Bounded(t, low, high)
    ensures var pattern := BranchesText(OneItem(s, t), extended); var a := BranchesMeaning(OneItem(s, t));
            && Parse(pattern, extended) == Ok(a, |pattern|) && (forall b <- pattern :: b != 0) && 0 < low <= high
            && a == Group(Cons(Meaning(s), Repeat(low, high), Empty))
            && SlotsWithin(Compiled(a).program, Compiled(a).groups)
  {
    hide SourceOk, Parse, Compiled, BranchesText, BranchesMeaning, SlotsWithin, Meaning, TimesFit, TimesMeaning;
    Prepared(s, t, extended);
  }

  lemma RepeatMatches(s: Source, m: Machine, low: nat, high: nat)
    requires OneByte(s) && m.program == Compiled(Group(Cons(Meaning(s), Repeat(low, high), Empty))).program
    requires 0 < low <= high
    ensures HasMatch(m) <==> !(forall i: nat :: i <= |m.text| ==> !ManyAt(s, m.flags, m.text, i, low))
  {
    hide Compiled, TakenAt, ByteAt, Reaches, Meaning, RepeatCode;
    TakenEverywhere(m, s);
    var a := Meaning(s);
    RepeatCompiled(a, low, high);
    forall i: nat | i <= |m.text|
      ensures Reaches(m, State(0, i)) <==> ManyAt(s, m.flags, m.text, i, low)
    {
      RepeatStarts(m, a, low, high - low, i);
      SameRun(s, m, i, i + low);
    }
  }

  lemma SameRun(s: Source, m: Machine, i: nat, j: nat)
    requires OneByte(s) && IsByte(Meaning(s))
    ensures AllTaken(m, Meaning(s), i, j) <==> AllAt(s, m.flags, m.text, i, j)
  {
    hide TakenAt, ByteAt, Meaning;
    TakenEverywhere(m, s);
  }

  lemma RepeatFoundAt(s: Source, m: Machine, low: nat, high: nat, start: nat, nsub: nat)
    requires OneByte(s) && m.program == Compiled(Group(Cons(Meaning(s), Repeat(low, high), Empty))).program
    requires IsLeftmost(m, start) && 0 < low <= high
    ensures var caps := MatchCaptures(m, start, nsub); |caps| >= 2 && caps[0] == start
    ensures var end := MatchCaptures(m, start, nsub)[1];
            && start + low <= end <= start + high && end <= |m.text| && AllAt(s, m.flags, m.text, start, end)
            && (end < start + high ==> !ByteAt(s, m.flags, m.text, end))
            && forall i: nat :: i < start ==> !ManyAt(s, m.flags, m.text, i, low)
  {
    hide Compiled, TakenAt, ByteAt, MatchCaptures, IsLeftmost, Meaning, AllTaken, AllAt;
    TakenEverywhere(m, s);
    RepeatReports(m, Meaning(s), low, high, nsub, start);
    var end := MatchCaptures(m, start, nsub)[1];
    SameRun(s, m, start, end);
    forall i: nat | i < start
      ensures !ManyAt(s, m.flags, m.text, i, low)
    {
      SameRun(s, m, i, i + low);
      assert !ManyTaken(m, Meaning(s), i, low);
    }
  }
}
