/**
 Patterns as they are written: the expressions of letters, groups and quantifiers (lib/libc_regex.c:302-476).
 */
module RegexPatterns {
  import opened Maybe
  import opened RegexVm
  import opened RegexSyntax

  /** A group that captures nothing. */
  function Just(re: Re): Atom { Group(re) }

  /** At a delimiter, or at the end, nothing more belongs to the sequence. */
  lemma EndParsed(pattern: seq<byte>, p: nat, inGroup: bool, extended: bool)
    requires p <= |pattern| && SequenceEnds(pattern, p, inGroup, extended)
    ensures SequenceAt(pattern, p, inGroup, extended) == Ok(Empty, p)
  {
  }

  /** A letter or digit stands for itself. */
  lemma LetterParsed(pattern: seq<byte>, p: nat, extended: bool)
    requires p < |pattern| && IsWord(pattern[p])
    ensures AtomAt(pattern, p, extended) == Ok(Lit(pattern[p]), p + 1)
    ensures forall inGroup :: !SequenceEnds(pattern, p, inGroup, extended)
  {
    hide AlternationAt, BracketAt;
  }

  /** A letter and its quantifier, and then the rest. */
  lemma ItemParsed(pattern: seq<byte>, p: nat, inGroup: bool, extended: bool, q: Quant, p': nat, rest: Re, next: nat)
    requires p < |pattern| && IsWord(pattern[p]) && QuantAt(pattern, p + 1, extended) == Ok(q, p')
    requires SequenceAt(pattern, p', inGroup, extended) == Ok(rest, next)
    ensures SequenceAt(pattern, p, inGroup, extended) == Ok(Cons(Lit(pattern[p]), q, rest), next)
  {
    hide AtomAt, QuantAt, SequenceEnds;
    LetterParsed(pattern, p, extended);
  }

  /** A letter without a quantifier, and then the rest. */
  lemma LetterThen(pattern: seq<byte>, p: nat, inGroup: bool, extended: bool, rest: Re, next: nat)
    requires p < |pattern| && IsWord(pattern[p]) && NoQuantAt(pattern, p + 1)
    requires SequenceAt(pattern, p + 1, inGroup, extended) == Ok(rest, next)
    ensures SequenceAt(pattern, p, inGroup, extended) == Ok(Cons(Lit(pattern[p]), Once, rest), next)
  {
    hide AtomAt, SequenceEnds, SequenceAt;
    ItemParsed(pattern, p, inGroup, extended, Once, p + 1, rest, next);
  }

  predicate NoQuantAt(pattern: seq<byte>, p: nat) {
    At(pattern, p) !in {B('*'), B('+'), B('?'), B('{'), B('\\')}
  }

  /** `(...)` or `(?:...)` around a sequence, in the extended syntax, with its quantifier, and then the rest. */
  lemma GroupParsed(pattern: seq<byte>, p: nat, inGroup: bool, re: Re, close: nat, q: Quant, p': nat, rest: Re, next: nat)
    requires p < |pattern| && pattern[p] == B('(')
    requires var bare := At(pattern, p + 1) == B('?') && At(pattern, p + 2) == B(':');
             var inside := if bare then p + 3 else p + 1;
             inside <= |pattern| && SequenceAt(pattern, inside, true, true) == Ok(re, close)
    requires At(pattern, close) == B(')') && close < |pattern| && QuantAt(pattern, close + 1, true) == Ok(q, p')
    requires SequenceAt(pattern, p', inGroup, true) == Ok(rest, next)
    ensures var bare := At(pattern, p + 1) == B('?') && At(pattern, p + 2) == B(':');
            SequenceAt(pattern, p, inGroup, true) == Ok(Cons(if bare then Just(re) else Capture(Just(re)), q, rest), next)
  {
    hide QuantAt, BracketAt;
    var bare := At(pattern, p + 1) == B('?') && At(pattern, p + 2) == B(':');
    var inside: nat := if bare then p + 3 else p + 1;
    assert !SequenceEnds(pattern, p, inGroup, true);
    assert AlternationAt(pattern, inside, true, true) == Ok(Just(re), close);
    hide SequenceAt, AlternationAt;
    assert AtomAt(pattern, p, true) == Ok(if bare then Just(re) else Capture(Just(re)), close + 1);
    SequenceOf(pattern, p, inGroup, true);
  }

  lemma SequenceOf(pattern: seq<byte>, p: nat, inGroup: bool, extended: bool)
    requires p < |pattern| && !SequenceEnds(pattern, p, inGroup, extended) && AtomAt(pattern, p, extended).Ok?
    requires QuantAt(pattern, AtomAt(pattern, p, extended).next, extended).Ok?
    ensures var a := AtomAt(pattern, p, extended); var q := QuantAt(pattern, a.next, extended);
            var rest := SequenceAt(pattern, q.next, inGroup, extended);
            rest.Ok? ==> SequenceAt(pattern, p, inGroup, extended) == Ok(Cons(a.value, q.value, rest.value), rest.next)
  {
    hide AtomAt, QuantAt, SequenceEnds;
  }

  /** A pattern without a top-level delimiter. */
  lemma WholeParsed(pattern: seq<byte>, extended: bool, re: Re)
    requires SequenceAt(pattern, 0, false, extended) == Ok(re, |pattern|)
    ensures Parse(pattern, extended) == Ok(Just(re), |pattern|)
  {
    hide SequenceAt;
  }

  lemma QuantParsed(pattern: seq<byte>, p: nat)
    requires p <= |pattern|
    ensures forall extended :: At(pattern, p) == B('*') ==> QuantAt(pattern, p, extended) == Ok(Loop(0), p + 1)
    ensures At(pattern, p) == B('+') ==> QuantAt(pattern, p, true) == Ok(Plus, p + 1)
    ensures At(pattern, p) == B('?') ==> QuantAt(pattern, p, true) == Ok(Repeat(0, 1), p + 1)
    ensures forall extended :: NoQuantAt(pattern, p) ==> QuantAt(pattern, p, extended) == Ok(Once, p)
  {
    hide IntervalAt;
  }
}
