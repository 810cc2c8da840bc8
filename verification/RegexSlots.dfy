/**
 Capture slots. `re_insert` and `re_copy_block` shift the slot of a SAVE as if it were a target, and a group
 closes with the slot of the group numbered last; so a slot can leave the captures that `regexec`
 allocates, or be that of another group (lib/libc_regex.c:73-80, 109-116, 345-405, 924-931).
 */
module RegexSlots {
  import opened RegexVm
  import opened RegexSyntax
  import opened RegexBuild
  import opened RegexSafety

  /** The capture slots of a program fit the captures `regexec` allocates for `nsub` groups. */
  predicate SlotsWithin(program: seq<Inst>, nsub: nat) {
    forall i :: 0 <= i < |program| ==> SlotWithin(program[i], nsub)
  }

  predicate SlotWithin(inst: Inst, nsub: nat) {
    inst.op == Save ==> 0 <= inst.x < (nsub + 1) * 2
  }

  // ----- one insertion

  /** An insertion keeps the slots within bounds exactly when the last slot is not at or past the place. */
  lemma InsertedSlots(p: seq<Inst>, index: nat, nsub: nat)
    requires SlotsWithin(p, nsub) && index <= |p|
    ensures SlotsWithin(Inserted(p, index), nsub)
       <==> forall i :: 0 <= i < |p| ==> !(p[i].op == Save && p[i].x == nsub * 2 + 1 && index <= nsub * 2 + 1)
  {
    var r := Inserted(p, index);
    forall i | 0 <= i < |p|
      ensures r[if i < index then i else i + 1] == Bumped(p[i], index)
    {
    }
    forall i | 0 <= i < |p|
      ensures SlotWithin(Bumped(p[i], index), nsub)
         <==> !(p[i].op == Save && p[i].x == nsub * 2 + 1 && index <= nsub * 2 + 1)
    {
      assert SlotWithin(p[i], nsub);
    }
    if SlotsWithin(r, nsub) {
      forall i | 0 <= i < |p|
        ensures !(p[i].op == Save && p[i].x == nsub * 2 + 1 && index <= nsub * 2 + 1)
      {
        assert SlotWithin(r[if i < index then i else i + 1], nsub);
      }
    }
    if forall i :: 0 <= i < |p| ==> !(p[i].op == Save && p[i].x == nsub * 2 + 1 && index <= nsub * 2 + 1) {
      forall k | 0 <= k < |r|
        ensures SlotWithin(r[k], nsub)
      {
        if k != index {
          var i := if k < index then k else k - 1;
          assert r[k] == Bumped(p[i], index);
        }
      }
    }
  }

  // ----- one copy

  /** A copy keeps the slots within bounds exactly when no slot taken for a target in the block is moved past them. */
  lemma CopiedSlots(p: seq<Inst>, start: nat, end: nat, nsub: nat)
    requires SlotsWithin(p, nsub) && start <= end <= |p|
    ensures SlotsWithin(Copied(p, start, end), nsub)
       <==> forall i :: start <= i < end ==>
              !(p[i].op == Save && start <= p[i].x <= end && p[i].x + (|p| - start) >= (nsub + 1) * 2)
  {
    var r, delta := Copied(p, start, end), |p| - start;
    forall i | start <= i < end
      ensures r[|p| + (i - start)] == Shifted(p[i], start, end, delta)
      ensures SlotWithin(Shifted(p[i], start, end, delta), nsub)
         <==> !(p[i].op == Save && start <= p[i].x <= end && p[i].x + delta >= (nsub + 1) * 2)
    {
      assert p[start..end][i - start] == p[i];
      assert SlotWithin(p[i], nsub);
    }
    if SlotsWithin(r, nsub) {
      forall i | start <= i < end
        ensures !(p[i].op == Save && start <= p[i].x <= end && p[i].x + delta >= (nsub + 1) * 2)
      {
        assert SlotWithin(r[|p| + (i - start)], nsub);
      }
    }
    if forall i :: start <= i < end ==>
         !(p[i].op == Save && start <= p[i].x <= end && p[i].x + delta >= (nsub + 1) * 2) {
      forall k | 0 <= k < |r|
        ensures SlotWithin(r[k], nsub)
      {
        if k < |p| {
          assert r[k] == p[k] && SlotWithin(p[k], nsub);
        } else {
          var i := start + (k - |p|);
          assert r[|p| + (i - start)] == Shifted(p[i], start, end, delta);
        }
      }
    }
  }

  // ----- patterns without an insertion or a copy

  /** No insertion and no copy: only `+`, groups and single items. */
  predicate Straight(re: Re)
    decreases re, 0
  {
    re.Cons? ==> StraightAtom(re.atom) && re.quant in {Once, Plus} && Straight(re.rest)
  }

  predicate StraightAtom(a: Atom)
    decreases a, 0
  {
    !a.Choice? && (a.Group? ==> Straight(a.body)) && (a.Capture? ==> StraightAtom(a.inner))
  }

  predicate StraightAlts(alts: Alts)
    decreases alts, 0
  {
    Straight(alts.re) && (alts.More? ==> StraightAlts(alts.more))
  }

  // ----- the closing slot

  /** The number of capturing groups. */
  function Groups(re: Re): nat
    decreases re, 0
  {
    if re.Cons? then GroupsOf(re.atom) + Groups(re.rest) else 0
  }

  function GroupsOf(a: Atom): nat
    decreases a, 0
  {
    match a
    case Group(body) => Groups(body)
    case Capture(inner) => 1 + GroupsOf(inner)
    case Choice(first, others) => Groups(first) + GroupsIn(others)
    case _ => 0
  }

  function GroupsIn(alts: Alts): nat
    decreases alts, 0
  {
    Groups(alts.re) + (if alts.More? then GroupsIn(alts.more) else 0)
  }

  lemma {:induction false} CountedRe(re: Re, o: Output)
    ensures BuildRe(re, o).groups == o.groups + Groups(re)
    decreases re, 0
  {
    if re.Cons? {
      CountedAtom(re.atom, o);
      CountedRe(re.rest, BuildItem(re.atom, re.quant, o));
    }
  }

  lemma {:induction false} CountedAtom(a: Atom, o: Output)
    ensures BuildAtom(a, o).groups == o.groups + GroupsOf(a)
    decreases a, 0
  {
    match a
    case Group(body) => CountedRe(body, o);
    case Capture(inner) => CountedAtom(inner, CaptureOpened(o));
    case Choice(first, others) =>
      CountedRe(first, o);
      CountedAlts(others, FirstBranch(BuildRe(first, o), |o.program|));
    case _ =>
  }

  lemma {:induction false} CountedAlts(alts: Alts, c: Chain)
    requires c.lastSplit < |c.out.program|
    ensures BuildBranches(alts, c).out.groups == c.out.groups + GroupsIn(alts)
    decreases alts, 0
  {
    CountedRe(alts.re, BranchOpened(c));
    if alts.More? {
      CountedAlts(alts.more, BranchDone(BuildRe(alts.re, BranchOpened(c)), |c.out.program|, c.jumps));
    }
  }

  /** A group closes with its own slot, the one after its opening slot, exactly when no group lies inside it. */
  lemma ClosingSlot(inner: Atom, o: Output)
    ensures var slot := (o.groups + 1) * 2; var r := BuildAtom(Capture(inner), o).program;
            && CaptureOpened(o).program == o.program + [SaveTo(slot)]
            && |r| > 0 && r[|r| - 1].op == Save
            && (r[|r| - 1].x == slot + 1 <==> GroupsOf(inner) == 0)
  {
    hide BuildAtom, GroupsOf;
    CountedAtom(inner, CaptureOpened(o));
    CaptureBuilt(inner, o);
    var inside := BuildAtom(inner, CaptureOpened(o));
    assert BuildAtom(Capture(inner), o).program == inside.program + [SaveTo(inside.groups * 2 + 1)];
    assert inside.groups == o.groups + 1 + GroupsOf(inner);
  }
}
