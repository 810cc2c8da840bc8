/**
 The block list of the first-fit heap as a value: what each operation makes of it, and what every
 run of operations keeps (lib/libc_stdlib.c:10-86).
 */
module HeapList {
  import opened Bits

  const HEADER: nat := 12
  const ARENA: nat := 262144
  const MAX_REQUEST: nat := 0xFFFF_FFF0

  // ----- sizes, in 32-bit arithmetic

  /** Masking off the two lowest bits rounds down to a multiple of four. */
  function Align4(n: u32): (r: u32)
    ensures r == Wrap32(n + 3) - Wrap32(n + 3) % 4
  {
    AlignMask(Wrap32(n + 3));
    And(Wrap32(n + 3), 0xFFFF_FFFC)
  }

  /** The payload malloc looks for. */
  function Wanted(size: u32): u32 {
    Align4(if size == 0 then 1 else size)
  }

  /** What a new block takes from the arena. */
  function Footprint(payload: u32): u32 {
    Align4(Wrap32(HEADER + payload))
  }

  lemma AlignMask(n: u32)
    ensures And(n, 0xFFFF_FFFC) == n - n % 4
  {
    hide And, Low, Shr;
    var m: nat := n;
    var q := m / 2 / 2;
    AndDouble(m, 0x7FFF_FFFE, 0);
    AndDouble(m / 2, 0x3FFF_FFFF, 0);
    ThirtyBits(q);
  }

  lemma ThirtyBits(q: nat)
    requires q < 0x4000_0000
    ensures And(q, 0x3FFF_FFFF) == q
  {
    hide And, Low, Shr, Pow2;
    Pow2Values();
    Pow2Add(22, 8);
    AndMask(q, 30);
    ShrSplit(q, 30);
    ShrLess(q, 30, 1);
  }

  lemma AlignUp(n: u32)
    ensures Align4(n) >= n <==> n <= 0xFFFF_FFFC
    ensures n <= 0xFFFF_FFFC ==> Align4(n) < n + 4 && Align4(n) % 4 == 0
  {
    hide And;
  }

  /** The least positive multiple of four that is not smaller. */
  function RoundedUp(n: int): int {
    if n == 0 then 4 else (n + 3) / 4 * 4
  }

  /** A new block has room for its header and the request exactly when the request is at most MAX_REQUEST. */
  lemma RequestFits(size: u32)
    ensures Footprint(Wanted(size)) >= HEADER + size <==> size <= MAX_REQUEST
    ensures size <= MAX_REQUEST ==>
              && 4 <= Wanted(size) && size <= Wanted(size) < size + 5 && Wanted(size) % 4 == 0
              && Footprint(Wanted(size)) == HEADER + Wanted(size)
  {
    hide And, Align4;
    var n: u32 := if size == 0 then 1 else size;
    AlignUp(n);
    if size <= MAX_REQUEST {
      AlignUp(HEADER + Wanted(size));
    }
  }

  lemma WantedRounded(size: u32)
    requires size <= MAX_REQUEST
    ensures Wanted(size) == RoundedUp(size)
  {
    hide Align4;
    AlignUp(if size == 0 then 1 else size);
  }

  // ----- block lists

  /** A header at address `at`, followed by `size` bytes of payload. */
  datatype Block = Block(at: nat, size: nat, free: bool)

  function Past(b: Block): nat { b.at + HEADER + b.size }

  /** The pointer handed out for a block. */
  function Payload(b: Block): nat { b.at + HEADER }

  /** The blocks fill `[lo, hi)` in address order, without gaps. */
  predicate Tiled(bs: seq<Block>, lo: nat, hi: nat) {
    && (if bs == [] then lo == hi else bs[0].at == lo && Past(bs[|bs| - 1]) == hi)
    && (forall i :: 0 <= i < |bs| - 1 ==> bs[i + 1].at == Past(bs[i]))
    && (forall i :: 0 <= i < |bs| ==> bs[i].size >= 4 && bs[i].size % 4 == 0)
  }

  /** No two neighbours are both free. */
  predicate Calm(bs: seq<Block>) {
    forall i :: 0 <= i < |bs| - 1 ==> !(bs[i].free && bs[i + 1].free)
  }

  function Live(bs: seq<Block>): set<Block> {
    set b | b in bs && !b.free
  }

  lemma {:induction false} InOrder(bs: seq<Block>, lo: nat, hi: nat, i: nat, j: nat)
    requires Tiled(bs, lo, hi) && i < j < |bs|
    ensures Past(bs[i]) <= bs[j].at
    decreases j - i
  {
    if i + 1 < j {
      InOrder(bs, lo, hi, i + 1, j);
    }
  }

  lemma Inside(bs: seq<Block>, lo: nat, hi: nat, i: nat)
    requires Tiled(bs, lo, hi) && i < |bs|
    ensures lo <= bs[i].at && Past(bs[i]) <= hi
  {
    if i > 0 {
      InOrder(bs, lo, hi, 0, i);
    }
    if i < |bs| - 1 {
      InOrder(bs, lo, hi, i, |bs| - 1);
    }
  }

  /** Two blocks of a tiling are the same or lie apart. */
  lemma Apart(bs: seq<Block>, lo: nat, hi: nat, a: Block, b: Block)
    requires Tiled(bs, lo, hi) && a in bs && b in bs
    ensures a == b || Past(a) <= b.at || Past(b) <= a.at
  {
    var i: nat :| i < |bs| && bs[i] == a;
    var j: nat :| j < |bs| && bs[j] == b;
    if i < j {
      InOrder(bs, lo, hi, i, j);
    } else if j < i {
      InOrder(bs, lo, hi, j, i);
    }
  }

  lemma TailTiled(bs: seq<Block>, lo: nat, hi: nat)
    requires Tiled(bs, lo, hi) && bs != []
    ensures Tiled(bs[1..], Past(bs[0]), hi)
    ensures Calm(bs) ==> Calm(bs[1..])
    ensures forall b <- bs[1..] :: Past(bs[0]) <= b.at
  {
    forall i | 1 <= i < |bs|
      ensures Past(bs[0]) <= bs[i].at
    {
      InOrder(bs, lo, hi, 0, i);
    }
    assert |bs| > 1 ==> bs[1..][|bs| - 2] == bs[|bs| - 1];
  }

  // ----- malloc

  predicate Fits(b: Block, wanted: nat) { b.free && b.size >= wanted }

  /** The index of the lowest fitting block, or the length of the list. */
  function FirstFit(bs: seq<Block>, wanted: nat): (i: nat)
    ensures i <= |bs|
    ensures forall j :: 0 <= j < i ==> !Fits(bs[j], wanted)
    ensures i < |bs| ==> Fits(bs[i], wanted)
  {
    if bs == [] || Fits(bs[0], wanted) then 0
    else
      var i := FirstFit(bs[1..], wanted) + 1;
      assert forall j :: 1 <= j < |bs| ==> bs[j] == bs[1..][j - 1];
      i
  }

  lemma FirstFitUnique(bs: seq<Block>, wanted: nat, i: nat)
    requires i <= |bs| && forall j :: 0 <= j < i ==> !Fits(bs[j], wanted)
    requires i < |bs| ==> Fits(bs[i], wanted)
    ensures i == FirstFit(bs, wanted)
  {
  }

  /** The block list and the end of the used part of the arena. */
  datatype Shape = Shape(blocks: seq<Block>, end: nat)

  predicate Sound(s: Shape, base: nat) {
    Tiled(s.blocks, base, s.end) && Calm(s.blocks) && s.end <= base + ARENA
  }

  /** A free block becomes live as a whole. */
  function Taken(s: Shape, i: nat): Shape
    requires i < |s.blocks|
  {
    s.(blocks := s.blocks[i := s.blocks[i].(free := false)])
  }

  /** A live block is laid down at the end of the used arena. */
  function Extended(s: Shape, wanted: nat): Shape {
    Shape(s.blocks + [Block(s.end, wanted, false)], s.end + HEADER + wanted)
  }

  /** The list after malloc, and the pointer it returns (0 for failure). */
  function AfterMalloc(s: Shape, base: nat, size: u32): (r: (Shape, nat))
    requires s.end <= base + ARENA
    ensures r.0.end <= base + ARENA
  {
    var wanted := Wanted(size);
    var i := FirstFit(s.blocks, wanted);
    if i < |s.blocks| then (Taken(s, i), Payload(s.blocks[i]))
    else if base + ARENA - s.end < Footprint(wanted) then (s, 0)
    else (Extended(s, wanted).(end := s.end + Footprint(wanted)), s.end + HEADER)
  }

  /** The three ways malloc can go, once the first fit is known. */
  lemma MallocCases(s: Shape, base: nat, size: u32)
    requires s.end <= base + ARENA && size <= MAX_REQUEST
    ensures var wanted, i := Wanted(size), FirstFit(s.blocks, Wanted(size));
            && (i < |s.blocks| ==> Fits(s.blocks[i], wanted)
                                   && AfterMalloc(s, base, size) == (Taken(s, i), Payload(s.blocks[i])))
            && (i == |s.blocks| && base + ARENA - s.end < HEADER + wanted ==> AfterMalloc(s, base, size) == (s, 0))
            && (i == |s.blocks| && base + ARENA - s.end >= HEADER + wanted ==>
                  AfterMalloc(s, base, size) == (Extended(s, wanted), s.end + HEADER))
  {
    RequestFits(size);
  }

  lemma LowestFit(bs: seq<Block>, lo: nat, hi: nat, wanted: nat)
    requires Tiled(bs, lo, hi) && FirstFit(bs, wanted) < |bs|
    ensures forall c <- bs :: Fits(c, wanted) ==> bs[FirstFit(bs, wanted)].at <= c.at
  {
    hide Tiled;
    var i := FirstFit(bs, wanted);
    forall c | c in bs && Fits(c, wanted)
      ensures bs[i].at <= c.at
    {
      var j: nat :| j < |bs| && bs[j] == c;
      if i < j {
        InOrder(bs, lo, hi, i, j);
      }
    }
  }

  /** One new live block of at least the requested size, the lowest free one that fits or else a fresh one. */
  lemma MallocSound(s: Shape, base: nat, size: u32)
    requires Sound(s, base) && size <= MAX_REQUEST
    ensures var (t, p) := AfterMalloc(s, base, size);
            && Sound(t, base) && s.end <= t.end
            && (p == 0 <==> (forall b <- s.blocks :: !Fits(b, Wanted(size)))
                            && base + ARENA - s.end < HEADER + Wanted(size))
            && (p == 0 ==> t == s)
            && (p != 0 ==> exists b :: b in t.blocks && !b.free && Payload(b) == p && b.size >= size
                                       && Live(t.blocks) == Live(s.blocks) + {b} && b !in Live(s.blocks)
                                       && (forall c <- s.blocks :: Fits(c, Wanted(size)) ==> b.at <= c.at))
  {
    hide Wanted, Footprint;
    RequestFits(size);
    var (t, p) := AfterMalloc(s, base, size);
    var bs, wanted := s.blocks, Wanted(size);
    var i := FirstFit(bs, wanted);
    if i < |bs| {
      TakenLive(s, base, i);
      LowestFit(bs, base, s.end, wanted);
      assert t.blocks[i] in t.blocks;
    } else if p != 0 {
      AppendedLive(s, base, Block(s.end, wanted, false));
      assert t.blocks[|bs|] in t.blocks;
    }
  }

  /**
   A larger request than MAX_REQUEST wraps: at most a header's worth of room is asked for. A free block is
   handed out only for a payload of zero, and is too small; a fresh one leaves a list that no longer tiles
   the used arena.
   */
  lemma OversizeRequest(s: Shape, base: nat, size: u32)
    requires Sound(s, base) && size > MAX_REQUEST
    ensures Footprint(Wanted(size)) <= HEADER
    ensures var (t, p) := AfterMalloc(s, base, size); var i := FirstFit(s.blocks, Wanted(size));
            && (p == 0 ==> base + ARENA - s.end < HEADER)
            && (i < |s.blocks| ==> Wanted(size) == 0 && t == Taken(s, i) && s.blocks[i].size < size)
            && (i == |s.blocks| && p != 0 ==> !Tiled(t.blocks, base, t.end))
  {
    hide And, Wanted, Footprint, Calm, Live;
    OversizeWanted(size);
    var i := FirstFit(s.blocks, Wanted(size));
    if i < |s.blocks| {
      hide Tiled;
      Inside(s.blocks, base, s.end, i);
    } else {
      NotTiled(s.blocks, base, s.end, Wanted(size), Footprint(Wanted(size)));
    }
  }

  lemma OversizeWanted(size: u32)
    requires size > MAX_REQUEST
    ensures Footprint(Wanted(size)) <= HEADER && (Wanted(size) == 0 || Wanted(size) > MAX_REQUEST)
  {
    hide And;
    AlignUp(size);
    AlignUp(Wrap32(HEADER + Wanted(size)));
  }

  /** A block that is empty, or longer than what it takes from the arena, breaks the tiling. */
  lemma NotTiled(bs: seq<Block>, base: nat, end: nat, size: nat, taken: nat)
    requires size == 0 || taken < HEADER + size
    ensures !Tiled(bs + [Block(end, size, false)], base, end + taken)
  {
    var b := Block(end, size, false);
    assert (bs + [b])[|bs|] == b;
  }

  lemma TakenLive(s: Shape, base: nat, i: nat)
    requires Sound(s, base) && i < |s.blocks| && s.blocks[i].free
    ensures var b := s.blocks[i].(free := false); var bs := s.blocks[i := b];
            Sound(s.(blocks := bs), base) && Live(bs) == Live(s.blocks) + {b} && b !in Live(s.blocks)
  {
    var b := s.blocks[i].(free := false);
    var bs := s.blocks[i := b];
    forall c | c in Live(bs)
      ensures c in Live(s.blocks) + {b}
    {
    }
    forall c | c in Live(s.blocks)
      ensures c in Live(bs) && c != b
    {
      var j: nat :| j < |s.blocks| && s.blocks[j] == c;
      assert bs[j] == c;
      Apart(s.blocks, base, s.end, c, s.blocks[i]);
    }
    assert bs[i] in bs;
  }

  lemma AppendedLive(s: Shape, base: nat, b: Block)
    requires Tiled(s.blocks, base, s.end) && Calm(s.blocks)
    requires b.at == s.end && b.size >= 4 && b.size % 4 == 0 && !b.free
    ensures var bs := s.blocks + [b];
            Tiled(bs, base, Past(b)) && Calm(bs) && Live(bs) == Live(s.blocks) + {b} && b !in Live(s.blocks)
  {
    forall c | c in s.blocks
      ensures c.at < s.end
    {
      var j: nat :| j < |s.blocks| && s.blocks[j] == c;
      Inside(s.blocks, base, s.end, j);
    }
    assert (s.blocks + [b])[|s.blocks|] == b;
  }

  // ----- free

  function Released(bs: seq<Block>, p: nat): seq<Block> {
    seq(|bs|, i requires 0 <= i < |bs| => if Payload(bs[i]) == p then bs[i].(free := true) else bs[i])
  }

  /** The next block of the pass: swallowed by its free neighbour, or kept. */
  function Push(done: seq<Block>, b: Block): seq<Block> {
    if done != [] && done[|done| - 1].free && b.free
    then done[|done| - 1 := done[|done| - 1].(size := done[|done| - 1].size + HEADER + b.size)]
    else done + [b]
  }

  function Merged(done: seq<Block>, rest: seq<Block>): seq<Block>
    decreases |rest|
  {
    if rest == [] then done else Merged(Push(done, rest[0]), rest[1..])
  }

  function Coalesced(bs: seq<Block>): seq<Block> { Merged([], bs) }

  lemma PushKeeps(done: seq<Block>, b: Block, lo: nat, mid: nat)
    requires Tiled(done, lo, mid) && Calm(done) && b.at == mid && b.size >= 4 && b.size % 4 == 0
    ensures Tiled(Push(done, b), lo, Past(b)) && Calm(Push(done, b))
    ensures Live(Push(done, b)) == Live(done) + (if b.free then {} else {b})
  {
    var r := Push(done, b);
    if done != [] && done[|done| - 1].free && b.free {
      assert forall i :: 0 <= i < |done| - 1 ==> r[i] == done[i];
    } else {
      assert r[|done|] == b && forall i :: 0 <= i < |done| ==> r[i] == done[i];
    }
    forall c | c in Live(done)
      ensures c in Live(r)
    {
      var j: nat :| j < |done| && done[j] == c;
      assert r[j] == c;
    }
  }

  lemma {:induction false} MergedKeeps(done: seq<Block>, rest: seq<Block>, lo: nat, mid: nat, hi: nat)
    requires Tiled(done, lo, mid) && Calm(done) && Tiled(rest, mid, hi)
    ensures Tiled(Merged(done, rest), lo, hi) && Calm(Merged(done, rest))
    ensures Live(Merged(done, rest)) == Live(done) + Live(rest)
    decreases |rest|
  {
    hide Push, Calm, Live;
    if rest != [] {
      var b := rest[0];
      PushKeeps(done, b, lo, mid);
      TailTiled(rest, mid, hi);
      MergedKeeps(Push(done, b), rest[1..], lo, Past(b), hi);
      HeadLive(rest);
    } else {
      NoneLive();
    }
  }

  lemma HeadLive(rest: seq<Block>)
    requires rest != []
    ensures Live(rest) == (if rest[0].free then {} else {rest[0]}) + Live(rest[1..])
  {
    assert rest == [rest[0]] + rest[1..];
  }

  lemma NoneLive()
    ensures Live([]) == {}
  {
  }

  /** Pointers outside the used arena, the null pointer among them, are ignored. */
  function AfterFree(s: Shape, base: nat, p: nat): Shape {
    if p < base + HEADER || p >= s.end then s
    else s.(blocks := Coalesced(Released(s.blocks, p)))
  }

  lemma ReleasedKeeps(s: Shape, base: nat, b: Block)
    requires Sound(s, base) && b in Live(s.blocks)
    ensures Tiled(Released(s.blocks, Payload(b)), base, s.end)
    ensures Live(Released(s.blocks, Payload(b))) == Live(s.blocks) - {b}
  {
    var bs, r := s.blocks, Released(s.blocks, Payload(b));
    forall c | c in bs && Payload(c) == Payload(b)
      ensures c == b
    {
      Apart(bs, base, s.end, b, c);
    }
    forall c | c in Live(bs) - {b}
      ensures c in Live(r)
    {
      var j: nat :| j < |bs| && bs[j] == c;
      assert r[j] == c;
    }
    forall c | c in Live(r)
      ensures c in Live(bs) - {b}
    {
      var j: nat :| j < |r| && r[j] == c;
      assert bs[j] == c;
    }
  }

  /** free takes one live block away, keeps the others where they are, and leaves no two free neighbours. */
  lemma FreeSound(s: Shape, base: nat, b: Block)
    requires Sound(s, base) && b in Live(s.blocks)
    ensures var t := AfterFree(s, base, Payload(b));
            Sound(t, base) && t.end == s.end && Live(t.blocks) == Live(s.blocks) - {b}
  {
    var i: nat :| i < |s.blocks| && s.blocks[i] == b;
    Inside(s.blocks, base, s.end, i);
    var r := Released(s.blocks, Payload(b));
    ReleasedKeeps(s, base, b);
    NoneLive();
    MergedKeeps([], r, base, base, s.end);
  }

  // ----- the list is determined by the live blocks

  lemma {:induction false} CanonicalList(a: seq<Block>, b: seq<Block>, lo: nat, hi: nat)
    requires Tiled(a, lo, hi) && Tiled(b, lo, hi) && Calm(a) && Calm(b) && Live(a) == Live(b)
    ensures a == b
    decreases |a|
  {
    if a == [] || b == [] {
      if a != [] {
        Inside(a, lo, hi, 0);
      } else if b != [] {
        Inside(b, lo, hi, 0);
      }
    } else {
      SameHead(a, b, lo, hi);
      TailLive(a, lo, hi);
      TailLive(b, lo, hi);
      TailTiled(a, lo, hi);
      TailTiled(b, lo, hi);
      CanonicalList(a[1..], b[1..], Past(a[0]), hi);
      assert a == [a[0]] + a[1..] && b == [b[0]] + b[1..];
    }
  }

  lemma TailLive(a: seq<Block>, lo: nat, hi: nat)
    requires Tiled(a, lo, hi) && a != []
    ensures Live(a[1..]) == Live(a) - {a[0]}
  {
    TailTiled(a, lo, hi);
    assert a == [a[0]] + a[1..];
  }

  lemma SameHead(a: seq<Block>, b: seq<Block>, lo: nat, hi: nat)
    requires Tiled(a, lo, hi) && Tiled(b, lo, hi) && Calm(a) && Calm(b) && Live(a) == Live(b)
    requires a != [] && b != []
    ensures a[0] == b[0]
  {
    if !a[0].free {
      LiveHead(a, b, lo, hi);
    } else if !b[0].free {
      LiveHead(b, a, lo, hi);
    } else {
      FreeHead(a, b, lo, hi);
      FreeHead(b, a, lo, hi);
    }
  }

  lemma LiveHead(a: seq<Block>, b: seq<Block>, lo: nat, hi: nat)
    requires Tiled(a, lo, hi) && Tiled(b, lo, hi) && Live(a) <= Live(b) && a != [] && b != [] && !a[0].free
    ensures a[0] == b[0]
  {
    assert a[0] in Live(a);
    assert b[0] in b;
    Apart(b, lo, hi, a[0], b[0]);
  }

  lemma FreeHead(a: seq<Block>, b: seq<Block>, lo: nat, hi: nat)
    requires Tiled(a, lo, hi) && Tiled(b, lo, hi) && Calm(a) && Live(a) <= Live(b)
    requires a != [] && b != [] && a[0].free && b[0].free
    ensures a[0].size >= b[0].size
  {
    Inside(b, lo, hi, 0);
    if |a| > 1 {
      assert a[1] in Live(a);
      assert b[0] in b;
      Apart(b, lo, hi, a[1], b[0]);
    }
  }

  /** Freeing two blocks gives the same list in either order. */
  lemma FreeCommutes(s: Shape, base: nat, b: Block, c: Block)
    requires Sound(s, base) && b in Live(s.blocks) && c in Live(s.blocks) && b != c
    ensures AfterFree(AfterFree(s, base, Payload(b)), base, Payload(c))
         == AfterFree(AfterFree(s, base, Payload(c)), base, Payload(b))
  {
    var s1, s2 := AfterFree(s, base, Payload(b)), AfterFree(s, base, Payload(c));
    FreeSound(s, base, b);
    FreeSound(s, base, c);
    FreeSound(s1, base, c);
    FreeSound(s2, base, b);
    CanonicalList(AfterFree(s1, base, Payload(c)).blocks, AfterFree(s2, base, Payload(b)).blocks, base, s.end);
  }

  lemma LiveMember(bs: seq<Block>, i: nat)
    requires i < |bs|
    ensures bs[i] in Live(bs) <==> !bs[i].free
  {
  }

  /** With nothing live, one free block spans the used arena. */
  lemma AllFreed(s: Shape, base: nat)
    requires Sound(s, base) && Live(s.blocks) == {}
    ensures base < s.end ==> exists size: nat :: s.blocks == [Block(base, size, true)] && base + HEADER + size == s.end
    ensures base == s.end ==> s.blocks == []
  {
    var bs := s.blocks;
    if bs != [] {
      LiveMember(bs, 0);
      if |bs| > 1 {
        LiveMember(bs, 1);
      } else {
        assert bs == [Block(base, bs[0].size, true)];
      }
    }
  }

  /** The payload sizes and headers add up to the used part of the arena. */
  function Total(bs: seq<Block>): nat {
    if bs == [] then 0 else HEADER + bs[0].size + Total(bs[1..])
  }

  lemma {:induction false} NothingLost(bs: seq<Block>, lo: nat, hi: nat)
    requires Tiled(bs, lo, hi)
    ensures lo + Total(bs) == hi
    decreases |bs|
  {
    if bs != [] {
      TailTiled(bs, lo, hi);
      NothingLost(bs[1..], Past(bs[0]), hi);
    }
  }

  // ----- realloc and calloc

  /** `(size_t)-1 / size` is the largest count that does not wrap. */
  function AfterCalloc(s: Shape, base: nat, nmemb: u32, size: u32): (r: (Shape, nat))
    requires s.end <= base + ARENA
    ensures r.0.end <= base + ARENA
  {
    if size != 0 && nmemb > 0xFFFF_FFFF / size then (s, 0)
    else AfterMalloc(s, base, Wrap32(nmemb * size))
  }

  function AfterRealloc(s: Shape, base: nat, p: nat, size: u32): (r: (Shape, nat))
    requires s.end <= base + ARENA
    ensures r.0.end <= base + ARENA
  {
    if p == 0 then AfterMalloc(s, base, size)
    else if size == 0 then (AfterFree(s, base, p), 0)
    else if exists b :: b in s.blocks && Payload(b) == p && b.size >= size then (s, p)
    else
      var (t, q) := AfterMalloc(s, base, size);
      if q == 0 then (t, 0) else (AfterFree(t, base, p), q)
  }

  // ----- runs

  datatype Op = Malloc(size: u32) | Free(p: nat) | Calloc(nmemb: u32, each: u32) | Realloc(p: nat, size: u32)

  /** A pointer to a live block, or one that free ignores. */
  predicate Releasable(s: Shape, base: nat, p: nat) {
    p == 0 || p < base + HEADER || p >= s.end || exists b :: b in Live(s.blocks) && Payload(b) == p
  }

  predicate Resizable(s: Shape, p: nat) {
    p == 0 || exists b :: b in Live(s.blocks) && Payload(b) == p
  }

  /** What a caller may ask for. */
  predicate Allowed(s: Shape, base: nat, op: Op) {
    match op
    case Malloc(size) => size <= MAX_REQUEST
    case Free(p) => Releasable(s, base, p)
    case Calloc(nmemb, each) => nmemb * each <= MAX_REQUEST || nmemb * each > 0xFFFF_FFFF
    case Realloc(p, size) => Resizable(s, p) && size <= MAX_REQUEST
  }

  function After(s: Shape, base: nat, op: Op): (t: Shape)
    requires s.end <= base + ARENA
    ensures t.end <= base + ARENA
  {
    match op
    case Malloc(size) => AfterMalloc(s, base, size).0
    case Free(p) => AfterFree(s, base, p)
    case Calloc(nmemb, each) => AfterCalloc(s, base, nmemb, each).0
    case Realloc(p, size) => AfterRealloc(s, base, p, size).0
  }

  /** The live blocks that the operation may take away. */
  function Given(s: Shape, op: Op): set<Block> {
    if op.Free? || op.Realloc? then set b | b in Live(s.blocks) && Payload(b) == op.p else {}
  }

  lemma IgnoredPointer(s: Shape, base: nat, p: nat)
    requires p < base + HEADER || p >= s.end
    ensures AfterFree(s, base, p) == s
  {
  }

  lemma ReallocSound(s: Shape, base: nat, p: nat, size: u32)
    requires Sound(s, base) && 0 < base && Allowed(s, base, Realloc(p, size))
    ensures var t := AfterRealloc(s, base, p, size).0;
            Sound(t, base) && s.end <= t.end && Live(s.blocks) - Given(s, Realloc(p, size)) <= Live(t.blocks)
  {
    hide AfterMalloc, AfterFree, FirstFit, Coalesced, Released, Tiled, Calm;
    MallocSound(s, base, size);
    if p != 0 {
      var b :| b in Live(s.blocks) && Payload(b) == p;
      FreeSound(s, base, b);
      var (t, q) := AfterMalloc(s, base, size);
      FreeSound(t, base, b) by { assert q == 0 ==> t == s; }
    }
  }

  lemma CallocAllowed(nmemb: u32, each: u32)
    ensures each != 0 && nmemb > 0xFFFF_FFFF / each <==> nmemb * each > 0xFFFF_FFFF
  {
    if each != 0 {
      var q: nat := 0xFFFF_FFFF / each;
      var r: nat := 0xFFFF_FFFF % each;
      var n: nat, e: nat := nmemb, each;
      assert 0xFFFF_FFFF == q * e + r;
      MulLe(n, q, e);
      MulLe(q + 1, n, e);
    }
  }

  /** No free block has room for `n` bytes, and the rest of the arena has no room for a header and `n` bytes. */
  predicate Full(s: Shape, base: nat, n: int) {
    (forall b <- s.blocks :: b.free ==> b.size < n) && base + 262144 < s.end + 12 + RoundedUp(n)
  }

  /** The list has one more live block, of at least `n` bytes at the pointer `p`. */
  ghost predicate OneMore(s: Shape, t: Shape, p: nat, n: int) {
    exists b :: && b in t.blocks && !b.free && b.at + 12 == p && b.size >= n
                && b !in Live(s.blocks) && Live(t.blocks) == Live(s.blocks) + {b}
  }

  /** malloc fails exactly when the heap is full, and else adds one live block. */
  lemma MallocOutcome(s: Shape, base: nat, size: u32)
    requires Sound(s, base) && 0 < base && size <= MAX_REQUEST
    ensures var (t, p) := AfterMalloc(s, base, size);
            if Full(s, base, size) then p == 0 && t == s else p != 0 && Sound(t, base) && OneMore(s, t, p, size)
  {
    hide AfterMalloc, Calm, Live, Align4, Wanted, Fits, Tiled;
    MallocSound(s, base, size);
    RequestFits(size);
    WantedRounded(size);
    forall b | b in s.blocks
      ensures Fits(b, Wanted(size)) <==> b.free && b.size >= size
    {
      RoomOf(s.blocks, base, s.end, b, size);
    }
  }

  /** A block has room for a request exactly when its payload is as large. */
  lemma RoomOf(bs: seq<Block>, lo: nat, hi: nat, b: Block, size: u32)
    requires Tiled(bs, lo, hi) && b in bs && size <= MAX_REQUEST
    ensures Fits(b, Wanted(size)) <==> b.free && b.size >= size
  {
    hide Wanted;
    WantedRounded(size);
    var i: nat :| i < |bs| && bs[i] == b;
  }

  /**
   calloc fails exactly when the product does not fit in 32 bits or the heap is full for it, and then
   changes nothing; else it adds one live block with room for the product.
   */
  lemma CallocSound(s: Shape, base: nat, nmemb: u32, size: u32)
    requires Sound(s, base) && 0 < base && (nmemb * size <= MAX_REQUEST || nmemb * size > 0xFFFF_FFFF)
    ensures var (t, p) := AfterCalloc(s, base, nmemb, size);
            if nmemb * size > 0xFFFF_FFFF || Full(s, base, nmemb * size) then p == 0 && t == s
            else p != 0 && Sound(t, base) && OneMore(s, t, p, nmemb * size)
  {
    hide AfterMalloc, Full, OneMore, Sound;
    CallocAllowed(nmemb, size);
    if nmemb * size <= MAX_REQUEST {
      MallocOutcome(s, base, nmemb * size);
    }
  }

  /**
   realloc of a live block: given back for size 0; left where it is while it is large enough; else moved
   to a new block, unless the heap is full, when nothing changes. Without a block it is malloc.
   */
  lemma ReallocOutcome(s: Shape, base: nat, p: nat, size: u32, b: Block)
    requires Sound(s, base) && 0 < base && size <= MAX_REQUEST
    requires p == 0 || (b in Live(s.blocks) && b.at + 12 == p)
    ensures var (t, r) := AfterRealloc(s, base, p, size);
            if p == 0 then
              if Full(s, base, size) then r == 0 && t == s else r != 0 && Sound(t, base) && OneMore(s, t, r, size)
            else if size == 0 then r == 0 && Sound(t, base) && Live(t.blocks) == Live(s.blocks) - {b}
            else if b.size >= size then r == p && t == s
            else if Full(s, base, size) then r == 0 && t == s
            else && r != 0 && r != p && Sound(t, base)
                 && exists c :: && c in t.blocks && !c.free && c.at + 12 == r && c.size >= size
                                && c !in Live(s.blocks) && Live(t.blocks) == Live(s.blocks) + {c} - {b}
  {
    hide AfterMalloc, AfterFree, Full, Tiled, Calm;
    MallocOutcome(s, base, size);
    if p != 0 {
      FreeSound(s, base, b);
      OnePlace(s, base, b);
      var (t, q) := AfterMalloc(s, base, size);
      if q != 0 {
        var c :| && c in t.blocks && !c.free && c.at + 12 == q && c.size >= size
                 && c !in Live(s.blocks) && Live(t.blocks) == Live(s.blocks) + {c};
        FreeSound(t, base, b);
        OnePlace(t, base, b);
        var u := AfterFree(t, base, p);
        assert c in Live(u.blocks) && Live(u.blocks) == Live(s.blocks) + {c} - {b};
      }
    }
  }

  /** Only one block has the pointer of a live one. */
  lemma OnePlace(s: Shape, base: nat, b: Block)
    requires Sound(s, base) && b in Live(s.blocks)
    ensures forall c <- s.blocks :: Payload(c) == Payload(b) ==> c == b
    ensures forall c <- Live(s.blocks) :: Payload(c) == Payload(b) ==> c == b
  {
    forall c | c in s.blocks && Payload(c) == Payload(b)
      ensures c == b
    {
      Apart(s.blocks, base, s.end, b, c);
    }
  }

  /** Every allowed operation keeps the tiling, the calm, and every live block it was not given. */
  lemma OpSound(s: Shape, base: nat, op: Op)
    requires Sound(s, base) && 0 < base && Allowed(s, base, op)
    ensures Sound(After(s, base, op), base) && s.end <= After(s, base, op).end
    ensures Live(s.blocks) - Given(s, op) <= Live(After(s, base, op).blocks)
  {
    hide AfterMalloc, AfterFree, AfterRealloc, FirstFit, Coalesced, Released, Tiled, Calm, Fits, Wanted;
    match op
    case Malloc(size) => MallocSound(s, base, size);
    case Free(p) =>
      if b :| b in Live(s.blocks) && Payload(b) == p {
        FreeSound(s, base, b);
      } else {
        IgnoredPointer(s, base, p);
      }
    case Calloc(nmemb, each) =>
      CallocAllowed(nmemb, each);
      if nmemb * each <= MAX_REQUEST {
        MallocSound(s, base, nmemb * each);
      }
    case Realloc(p, size) => ReallocSound(s, base, p, size);
  }

  predicate AllowedRun(s: Shape, base: nat, ops: seq<Op>)
    requires s.end <= base + ARENA
    decreases |ops|
  {
    ops == [] || (Allowed(s, base, ops[0]) && AllowedRun(After(s, base, ops[0]), base, ops[1..]))
  }

  function AfterRun(s: Shape, base: nat, ops: seq<Op>): (t: Shape)
    requires s.end <= base + ARENA
    ensures t.end <= base + ARENA
    decreases |ops|
  {
    if ops == [] then s else AfterRun(After(s, base, ops[0]), base, ops[1..])
  }

  predicate Gives(op: Op, p: nat) { (op.Free? || op.Realloc?) && op.p == p }

  lemma NotGiven(s: Shape, op: Op, b: Block)
    requires !Gives(op, Payload(b))
    ensures b !in Given(s, op)
  {
  }

  /** Over a whole run: the invariant, and every block that was not given back is still live where it was. */
  lemma {:induction false} RunSound(s: Shape, base: nat, ops: seq<Op>)
    requires Sound(s, base) && 0 < base && AllowedRun(s, base, ops)
    ensures Sound(AfterRun(s, base, ops), base)
    ensures forall b <- Live(s.blocks) :: (forall op <- ops :: !Gives(op, Payload(b)))
                                          ==> b in Live(AfterRun(s, base, ops).blocks)
    decreases |ops|
  {
    assert s.end <= base + ARENA;
    hide After, Allowed, Live, Sound;
    if ops != [] {
      var t := After(s, base, ops[0]);
      OpSound(s, base, ops[0]);
      RunSound(t, base, ops[1..]);
      forall b | b in Live(s.blocks) && forall op <- ops :: !Gives(op, Payload(b))
        ensures b in Live(t.blocks) && forall op <- ops[1..] :: !Gives(op, Payload(b))
      {
        assert !Gives(ops[0], Payload(b));
        NotGiven(s, ops[0], b);
      }
    }
  }

  /** From the empty heap: nothing is ever lost, and once nothing is live one free block is left. */
  lemma RunConserves(base: nat, ops: seq<Op>)
    requires 0 < base && AllowedRun(Shape([], base), base, ops)
    ensures var t := AfterRun(Shape([], base), base, ops);
            && base + Total(t.blocks) == t.end <= base + ARENA
            && (Live(t.blocks) == {} && base < t.end ==>
                  exists size: nat :: t.blocks == [Block(base, size, true)] && base + HEADER + size == t.end)
  {
    hide AfterRun, AllowedRun;
    var t := AfterRun(Shape([], base), base, ops);
    RunSound(Shape([], base), base, ops);
    NothingLost(t.blocks, base, t.end);
    if Live(t.blocks) == {} {
      AllFreed(t, base);
    }
  }
}
