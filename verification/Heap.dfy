/**
 The first-fit heap itself: block headers live inside the arena, in front of the payloads, and every
 call walks, marks and relinks them in place (lib/libc_stdlib.c:10-86).
 */
module Heap {
  import opened Bits
  import opened HeapList

  const ENOMEM := 12

  // ----- header fields in memory

  function FromDigits(a: nat, b: nat, c: nat, d: nat): nat {
    a + 0x100 * b + 0x1_0000 * c + 0x100_0000 * d
  }

  function Word(m: seq<byte>, i: nat): u32
    requires i + 4 <= |m|
  {
    FromDigits(m[i], m[i + 1], m[i + 2], m[i + 3])
  }

  lemma Digits(v: u32)
    ensures FromDigits(v % 0x100, v / 0x100 % 0x100, v / 0x1_0000 % 0x100, v / 0x100_0000) == v
  {
    var n: nat := v;
    var q := n / 0x100;
    var r := q / 0x100;
    assert n / 0x1_0000 == r && n / 0x100_0000 == r / 0x100;
  }

  function PutWord(m: seq<byte>, i: nat, v: u32): (r: seq<byte>)
    requires i + 4 <= |m|
    ensures |r| == |m|
  {
    m[i := v % 0x100][i + 1 := v / 0x100 % 0x100][i + 2 := v / 0x1_0000 % 0x100][i + 3 := v / 0x100_0000]
  }

  lemma PutThenGet(m: seq<byte>, i: nat, v: u32)
    requires i + 4 <= |m|
    ensures Word(PutWord(m, i, v), i) == v && SameOutside(m, PutWord(m, i, v), i, i + 4)
  {
    Digits(v);
    hide FromDigits;
  }

  /** The bytes of a block, its header included, lie in the arena. */
  predicate Within(m: seq<byte>, base: nat, b: Block) {
    base <= b.at && Past(b) <= base + |m|
  }

  predicate HeaderIs(m: seq<byte>, base: nat, b: Block, next: nat) {
    && Within(m, base, b)
    && Word(m, b.at - base) == b.size && Word(m, b.at - base + 4) == next
    && m[b.at - base + 8] == (if b.free then 1 else 0)
  }

  /** The address of the block after `bs[i]`, as its header holds it. */
  function NextOf(bs: seq<Block>, i: nat): nat {
    if i + 1 < |bs| then bs[i + 1].at else 0
  }

  predicate Stored(m: seq<byte>, base: nat, bs: seq<Block>) {
    forall i :: 0 <= i < |bs| ==> HeaderIs(m, base, bs[i], NextOf(bs, i))
  }

  function Bytes(m: seq<byte>, base: nat, b: Block): seq<byte> {
    if Within(m, base, b) then m[Payload(b) - base..Past(b) - base] else []
  }

  predicate SameOutside(m: seq<byte>, m': seq<byte>, lo: int, hi: int) {
    |m'| == |m| && forall j :: 0 <= j < |m| && !(lo <= j < hi) ==> m'[j] == m[j]
  }

  predicate SameBytes(m: seq<byte>, m': seq<byte>, base: nat, live: set<Block>) {
    forall b <- live :: Bytes(m', base, b) == Bytes(m, base, b)
  }

  lemma WordKept(m: seq<byte>, m': seq<byte>, i: nat)
    requires |m| == |m'| && i + 4 <= |m| && forall j :: i <= j < i + 4 ==> m[j] == m'[j]
    ensures Word(m, i) == Word(m', i)
  {
  }

  /** A write elsewhere leaves a header as it is. */
  lemma HeaderKept(m: seq<byte>, m': seq<byte>, base: nat, b: Block, next: nat, lo: int, hi: int)
    requires SameOutside(m, m', lo, hi) && HeaderIs(m, base, b, next)
    requires Payload(b) - base <= lo || hi <= b.at - base
    ensures HeaderIs(m', base, b, next)
  {
    hide Word;
    WordKept(m, m', b.at - base);
    WordKept(m, m', b.at - base + 4);
  }

  /** A write elsewhere leaves a payload as it is. */
  lemma BytesKept(m: seq<byte>, m': seq<byte>, base: nat, b: Block, lo: int, hi: int)
    requires SameOutside(m, m', lo, hi) && (Past(b) - base <= lo || hi <= Payload(b) - base)
    ensures Bytes(m', base, b) == Bytes(m, base, b)
  {
  }

  lemma Unchanged(m: seq<byte>, base: nat, bs: seq<Block>)
    ensures SameBytes(m, m, base, Live(bs))
  {
  }

  lemma SameThrough(m: seq<byte>, m1: seq<byte>, m2: seq<byte>, base: nat, live: set<Block>)
    requires SameBytes(m, m1, base, live) && SameBytes(m1, m2, base, live)
    ensures SameBytes(m, m2, base, live)
  {
  }

  lemma SameLive(m: seq<byte>, m': seq<byte>, base: nat, bs: seq<Block>)
    requires forall c <- bs :: Bytes(m', base, c) == Bytes(m, base, c)
    ensures SameBytes(m, m', base, Live(bs))
  {
  }

  lemma OthersSame(m: seq<byte>, m': seq<byte>, base: nat, bs: seq<Block>, b: Block)
    requires forall c <- bs :: c != b ==> Bytes(m', base, c) == Bytes(m, base, c)
    ensures SameBytes(m, m', base, Live(bs) - {b})
  {
  }

  lemma HeaderOf(m: seq<byte>, base: nat, bs: seq<Block>, i: nat)
    requires Stored(m, base, bs) && i < |bs|
    ensures HeaderIs(m, base, bs[i], NextOf(bs, i))
  {
  }

  lemma IndexOf(bs: seq<Block>, b: Block) returns (i: nat)
    requires b in bs
    ensures i < |bs| && bs[i] == b
  {
    i :| i < |bs| && bs[i] == b;
  }

  /** The blocks before and after `bs[k]` lie on either side of it. */
  lemma OneSide(bs: seq<Block>, base: nat, end: nat, i: nat, k: nat)
    requires Tiled(bs, base, end) && i < |bs| && k < |bs|
    ensures i == k || Past(bs[i]) <= bs[k].at || Past(bs[k]) <= bs[i].at
  {
    if i < k {
      InOrder(bs, base, end, i, k);
    } else if k < i {
      InOrder(bs, base, end, k, i);
    }
  }

  /** A write to the header of `bs[k]` changes neither another header nor any payload. */
  lemma HeaderWrite(m: seq<byte>, m': seq<byte>, base: nat, bs: seq<Block>, end: nat, k: nat)
    requires Tiled(bs, base, end) && k < |bs|
    requires SameOutside(m, m', bs[k].at - base, Payload(bs[k]) - base)
    ensures forall i, next :: 0 <= i < |bs| && i != k && HeaderIs(m, base, bs[i], next)
                              ==> HeaderIs(m', base, bs[i], next)
    ensures forall b <- bs :: Bytes(m', base, b) == Bytes(m, base, b)
  {
    hide HeaderIs, Bytes, SameOutside, Tiled;
    var lo, hi := bs[k].at - base, Payload(bs[k]) - base;
    forall i, next | 0 <= i < |bs| && i != k && HeaderIs(m, base, bs[i], next)
      ensures HeaderIs(m', base, bs[i], next)
    {
      OneSide(bs, base, end, i, k);
      HeaderKept(m, m', base, bs[i], next, lo, hi);
    }
    forall b | b in bs
      ensures Bytes(m', base, b) == Bytes(m, base, b)
    {
      var i := IndexOf(bs, b);
      OneSide(bs, base, end, i, k);
      BytesKept(m, m', base, b, lo, hi);
    }
  }

  /** A caller that stores within the payload of a block disturbs neither the list nor any other block. */
  lemma PayloadWrite(m: seq<byte>, m': seq<byte>, base: nat, bs: seq<Block>, end: nat, k: nat)
    requires Tiled(bs, base, end) && k < |bs| && Stored(m, base, bs)
    requires SameOutside(m, m', Payload(bs[k]) - base, Past(bs[k]) - base)
    ensures Stored(m', base, bs)
    ensures forall b <- bs :: b != bs[k] ==> Bytes(m', base, b) == Bytes(m, base, b)
  {
    hide HeaderIs, Bytes, SameOutside, Tiled;
    var lo, hi := Payload(bs[k]) - base, Past(bs[k]) - base;
    forall i | 0 <= i < |bs|
      ensures HeaderIs(m', base, bs[i], NextOf(bs, i))
    {
      OneSide(bs, base, end, i, k);
      HeaderKept(m, m', base, bs[i], NextOf(bs, i), lo, hi);
    }
    forall b | b in bs && b != bs[k]
      ensures Bytes(m', base, b) == Bytes(m, base, b)
    {
      var i := IndexOf(bs, b);
      OneSide(bs, base, end, i, k);
      BytesKept(m, m', base, b, lo, hi);
    }
  }

  /** Writing the flag of one block. */
  lemma FlagWritten(m: seq<byte>, base: nat, bs: seq<Block>, end: nat, k: nat, free: bool)
    requires Tiled(bs, base, end) && k < |bs| && base <= bs[k].at && Stored(m, base, bs)
    requires bs[k].at - base + HEADER <= |m|
    ensures var r := m[bs[k].at - base + 8 := if free then 1 else 0];
            && Stored(r, base, bs[k := bs[k].(free := free)])
            && forall b <- bs :: Bytes(r, base, b) == Bytes(m, base, b)
  {
    hide HeaderIs, Bytes, Tiled, Word;
    var at := bs[k].at - base;
    var r := m[at + 8 := if free then 1 else 0];
    HeaderWrite(m, r, base, bs, end, k);
    var cs := bs[k := bs[k].(free := free)];
    forall j | 0 <= j < |cs|
      ensures HeaderIs(r, base, cs[j], NextOf(cs, j))
    {
      HeaderOf(m, base, bs, j);
      assert NextOf(cs, j) == NextOf(bs, j);
      if j == k {
        WordKept(m, r, at);
        WordKept(m, r, at + 4);
        FieldsOf(m, base, bs[k], NextOf(bs, k));
        HeaderFrom(r, base, cs[k], NextOf(cs, k));
      }
    }
  }

  /** The header of a live block that is still the last one. */
  function PutHeader(m: seq<byte>, i: nat, size: u32): (r: seq<byte>)
    requires i + HEADER <= |m|
    ensures |r| == |m|
  {
    PutWord(PutWord(m, i, size), i + 4, 0)[i + 8 := 0]
  }

  lemma PutHeaderFields(m: seq<byte>, i: nat, size: u32)
    requires i + HEADER <= |m|
    ensures var r := PutHeader(m, i, size);
            SameOutside(m, r, i, i + HEADER) && Word(r, i) == size && Word(r, i + 4) == 0 && r[i + 8] == 0
  {
    hide Word, PutWord;
    var m1 := PutWord(m, i, size);
    var m2 := PutWord(m1, i + 4, 0);
    var r := m2[i + 8 := 0];
    PutThenGet(m, i, size);
    PutThenGet(m1, i + 4, 0);
    WordKept(m1, m2, i);
    WordKept(m2, r, i);
    WordKept(m2, r, i + 4);
  }

  /** A header written past the last block stands alone. */
  lemma HeaderPastEnd(m: seq<byte>, base: nat, bs: seq<Block>, b: Block)
    requires Tiled(bs, base, b.at) && base <= b.at && Past(b) <= base + |m| && Stored(m, base, bs)
    requires !b.free && b.size < 0x1_0000_0000
    ensures var r := PutHeader(m, b.at - base, b.size);
            && HeaderIs(r, base, b, 0) && Stored(r, base, bs) && forall c <- bs :: Bytes(r, base, c) == Bytes(m, base, c)
  {
    hide PutHeader, Word, SameOutside, Tiled, Bytes;
    var r := PutHeader(m, b.at - base, b.size);
    PutHeaderFields(m, b.at - base, b.size);
    assert HeaderIs(r, base, b, 0);
    hide HeaderIs;
    var lo, hi := b.at - base, Payload(b) - base;
    forall i | 0 <= i < |bs|
      ensures HeaderIs(r, base, bs[i], NextOf(bs, i)) && Bytes(r, base, bs[i]) == Bytes(m, base, bs[i])
    {
      Inside(bs, base, b.at, i);
      HeaderKept(m, r, base, bs[i], NextOf(bs, i), lo, hi);
      BytesKept(m, r, base, bs[i], lo, hi);
    }
  }

  lemma LinkFirst(m: seq<byte>, base: nat, b: Block)
    requires HeaderIs(m, base, b, 0)
    ensures Stored(m, base, [] + [b])
  {
    assert [] + [b] == [b];
  }

  /** Linking the block past the end behind the last one completes the list. */
  lemma LinkLast(m: seq<byte>, base: nat, bs: seq<Block>, b: Block)
    requires Tiled(bs + [b], base, Past(b)) && bs != []
    requires Stored(m, base, bs) && HeaderIs(m, base, b, 0) && b.at < 0x1_0000_0000
    ensures var tail := bs[|bs| - 1].at;
            && base <= tail && tail - base + HEADER <= |m|
            && var r := PutWord(m, tail - base + 4, b.at);
            Stored(r, base, bs + [b]) && forall c <- bs :: Bytes(r, base, c) == Bytes(m, base, c)
  {
    hide Word, PutWord, Bytes, Tiled;
    var all, last := bs + [b], |bs| - 1;
    HeaderOf(m, base, bs, last);
    var at := bs[last].at - base;
    var r := PutWord(m, at + 4, b.at);
    PutThenGet(m, at + 4, b.at);
    HeaderWrite(m, r, base, all, Past(b), last);
    WordKept(m, r, at);
    assert HeaderIs(r, base, bs[last], b.at);
    hide HeaderIs;
    forall i | 0 <= i < |all|
      ensures HeaderIs(r, base, all[i], NextOf(all, i))
    {
      if i < last {
        HeaderOf(m, base, bs, i);
        assert NextOf(bs, i) == NextOf(all, i);
      }
    }
  }

  // ----- merging two neighbours

  /** `bs[k]` takes over the block after it. */
  function Joined(bs: seq<Block>, k: nat): (r: seq<Block>)
    requires k + 1 < |bs|
    ensures |r| == |bs| - 1
  {
    bs[..k] + [bs[k].(size := bs[k].size + HEADER + bs[k + 1].size)] + bs[k + 2..]
  }

  lemma JoinedTiled(bs: seq<Block>, lo: nat, hi: nat, k: nat)
    requires Tiled(bs, lo, hi) && k + 1 < |bs|
    ensures Tiled(Joined(bs, k), lo, hi)
  {
    var r := Joined(bs, k);
    forall i | 0 <= i < |r|
      ensures r[i].size >= 4 && r[i].size % 4 == 0 && (i < |r| - 1 ==> r[i + 1].at == Past(r[i]))
    {
      JoinedAt(bs, k, i);
      if i < |r| - 1 {
        JoinedAt(bs, k, i + 1);
      }
    }
    JoinedAt(bs, k, 0);
    JoinedAt(bs, k, |r| - 1);
  }

  lemma JoinedAt(bs: seq<Block>, k: nat, i: nat)
    requires k + 1 < |bs| && i < |bs| - 1
    ensures |Joined(bs, k)| == |bs| - 1
    ensures i < k ==> Joined(bs, k)[i] == bs[i]
    ensures i > k ==> Joined(bs, k)[i] == bs[i + 1]
    ensures i == k ==> Joined(bs, k)[i].at == bs[k].at && Joined(bs, k)[i].size == bs[k].size + HEADER + bs[k + 1].size
  {
  }

  lemma JoinedLive(bs: seq<Block>, k: nat)
    requires k + 1 < |bs| && bs[k].free && bs[k + 1].free
    ensures Live(Joined(bs, k)) == Live(bs)
  {
    var r := Joined(bs, k);
    forall b | b in Live(bs)
      ensures b in Live(r)
    {
      var i := IndexOf(bs, b);
      assert b == r[if i < k then i else i - 1];
    }
  }

  /** Two writes to the header of `bs[k]` take its successor out of the list. */
  lemma JoinedStored(m: seq<byte>, base: nat, bs: seq<Block>, end: nat, k: nat)
    requires Tiled(bs, base, end) && k + 1 < |bs| && Stored(m, base, bs) && end < 0x1_0000_0000
    ensures var b := bs[k];
            && base <= b.at && b.at - base + HEADER <= |m|
            && Joined(bs, k)[k].size < 0x1_0000_0000 && NextOf(bs, k + 1) < 0x1_0000_0000
            && var m' := PutWord(PutWord(m, b.at - base, Joined(bs, k)[k].size), b.at - base + 4, NextOf(bs, k + 1));
            && Stored(m', base, Joined(bs, k)) && forall c <- bs :: Bytes(m', base, c) == Bytes(m, base, c)
  {
    hide Word, PutWord, Bytes, Tiled, HeaderIs, Stored, Joined, SameOutside, NextOf;
    var r, at := Joined(bs, k), bs[k].at - base;
    JoinedBlock(bs, base, end, k);
    HeaderOf(m, base, bs, k);
    HeaderOf(m, base, bs, k + 1);
    FieldsOf(m, base, bs[k], NextOf(bs, k));
    FieldsOf(m, base, bs[k + 1], NextOf(bs, k + 1));
    var m1 := PutWord(m, at, r[k].size);
    var m2 := PutWord(m1, at + 4, NextOf(bs, k + 1));
    PutTwo(m, at, r[k].size, NextOf(bs, k + 1));
    HeaderWrite(m, m2, base, bs, end, k);
    HeaderFrom(m2, base, r[k], NextOf(bs, k + 1));
    JoinedHeaders(m, m2, base, bs, k);
  }

  lemma JoinedBlock(bs: seq<Block>, base: nat, end: nat, k: nat)
    requires Tiled(bs, base, end) && k + 1 < |bs|
    ensures var b := Joined(bs, k)[k];
            && b == bs[k].(size := bs[k].size + HEADER + bs[k + 1].size)
            && base <= b.at && Past(b) == Past(bs[k + 1]) <= end
  {
    Inside(bs, base, end, k);
    Inside(bs, base, end, k + 1);
  }

  lemma FieldsOf(m: seq<byte>, base: nat, b: Block, next: nat)
    requires HeaderIs(m, base, b, next)
    ensures base <= b.at && Past(b) <= base + |m| && b.size < 0x1_0000_0000 && next < 0x1_0000_0000
    ensures m[b.at - base + 8] == if b.free then 1 else 0
    ensures Word(m, b.at - base) == b.size && Word(m, b.at - base + 4) == next
  {
    hide Word;
  }

  lemma HeaderFrom(m: seq<byte>, base: nat, b: Block, next: nat)
    requires base <= b.at && Past(b) <= base + |m|
    requires Word(m, b.at - base) == b.size && Word(m, b.at - base + 4) == next
    requires m[b.at - base + 8] == if b.free then 1 else 0
    ensures HeaderIs(m, base, b, next)
  {
    hide Word;
  }

  lemma PutTwo(m: seq<byte>, i: nat, v: u32, w: u32)
    requires i + HEADER <= |m|
    ensures var r := PutWord(PutWord(m, i, v), i + 4, w);
            Word(r, i) == v && Word(r, i + 4) == w && r[i + 8] == m[i + 8] && SameOutside(m, r, i, i + HEADER)
  {
    hide Word, PutWord;
    var m1 := PutWord(m, i, v);
    PutThenGet(m, i, v);
    PutThenGet(m1, i + 4, w);
    WordKept(m1, PutWord(m1, i + 4, w), i);
  }

  lemma JoinedHeaders(m: seq<byte>, m': seq<byte>, base: nat, bs: seq<Block>, k: nat)
    requires k + 1 < |bs| && Stored(m, base, bs) && HeaderIs(m', base, Joined(bs, k)[k], NextOf(bs, k + 1))
    requires forall i, next :: 0 <= i < |bs| && i != k && HeaderIs(m, base, bs[i], next)
                               ==> HeaderIs(m', base, bs[i], next)
    ensures Stored(m', base, Joined(bs, k))
  {
    hide HeaderIs;
    var r := Joined(bs, k);
    forall i | 0 <= i < |r|
      ensures HeaderIs(m', base, r[i], NextOf(r, i))
    {
      var j := if i <= k then i else i + 1;
      HeaderOf(m, base, bs, j);
      if i < k {
        assert NextOf(r, i) == NextOf(bs, i);
      } else if i > k {
        assert r[i] == bs[i + 1] && NextOf(r, i) == NextOf(bs, i + 1);
      } else {
        assert NextOf(r, k) == NextOf(bs, k + 1);
      }
    }
  }

  lemma ReleasedOne(s: Shape, base: nat, k: nat)
    requires Sound(s, base) && k < |s.blocks| && !s.blocks[k].free
    ensures var r := Released(s.blocks, Payload(s.blocks[k]));
            && r == s.blocks[k := s.blocks[k].(free := true)] && Tiled(r, base, s.end)
            && forall b <- Live(r) :: b in s.blocks
  {
    var r := Released(s.blocks, Payload(s.blocks[k]));
    forall i | 0 <= i < |r| && i != k
      ensures r[i] == s.blocks[i]
    {
      OneSide(s.blocks, base, s.end, i, k);
    }
  }

  /** The 32-bit sum is the joined size. */
  lemma JoinedSize(bs: seq<Block>, base: nat, end: nat, k: nat)
    requires Tiled(bs, base, end) && k + 1 < |bs| && end <= 0xFFFF_FFFF
    ensures bs[k].size < 0x1_0000_0000 && bs[k + 1].size < 0x1_0000_0000
    ensures Wrap32(bs[k].size + Footprint(bs[k + 1].size)) == Joined(bs, k)[k].size
  {
    hide Footprint, Tiled, Joined;
    JoinedBlock(bs, base, end, k);
    SizeOf(bs, base, end, k + 1);
    var size: u32 := bs[k + 1].size;
    FootprintExact(size);
  }

  lemma FootprintExact(size: u32)
    requires size % 4 == 0 && size <= MAX_REQUEST
    ensures Footprint(size) == HEADER + size
  {
    hide Align4;
    AlignUp(HEADER + size);
  }

  /** The first write leaves the successor's link alone. */
  lemma SuccessorKept(m: seq<byte>, base: nat, bs: seq<Block>, end: nat, k: nat, v: u32)
    requires Tiled(bs, base, end) && k + 1 < |bs| && Stored(m, base, bs)
    requires base <= bs[k].at && bs[k].at - base + HEADER <= |m|
    ensures base <= bs[k + 1].at && bs[k + 1].at - base + HEADER <= |m|
    ensures Word(PutWord(m, bs[k].at - base, v), bs[k + 1].at - base + 4) == NextOf(bs, k + 1)
  {
    hide Word, PutWord, Tiled, HeaderIs;
    var at := bs[k].at - base;
    HeaderOf(m, base, bs, k + 1);
    OneSide(bs, base, end, k, k + 1);
    InOrder(bs, base, end, k, k + 1);
    PutThenGet(m, at, v);
    HeaderKept(m, PutWord(m, at, v), base, bs[k + 1], NextOf(bs, k + 1), at, at + 4);
    FieldsOf(PutWord(m, at, v), base, bs[k + 1], NextOf(bs, k + 1));
  }

  lemma SizeOf(bs: seq<Block>, base: nat, end: nat, k: nat)
    requires Tiled(bs, base, end) && k < |bs|
    ensures bs[k].size % 4 == 0
  {
  }

  lemma PassStarts(bs: seq<Block>)
    ensures [] + bs == bs
  {
  }

  lemma PassEnds(bs: seq<Block>, base: nat, end: nat, done: seq<Block>)
    requires Tiled(bs, base, end)
    ensures Calm(Merged([], bs)) && Merged(done, []) == done && done + [] == done
  {
    NoneLive();
    MergedKeeps([], bs, base, base, end);
  }

  /** One step of the pass, as a step of `Merged`. */
  lemma PassStep(done: seq<Block>, rest: seq<Block>)
    requires rest != []
    ensures Merged(done, rest) == Merged(Push(done, rest[0]), rest[1..])
    ensures (done + rest)[|done|] == rest[0] && |done| < |done + rest|
  {
    hide Push;
  }

  lemma PassPlace(done: seq<Block>, rest: seq<Block>)
    requires rest != []
    ensures (done + rest)[|done|] == rest[0] && |done| < |done + rest|
    ensures done != [] ==> (done + rest)[|done| - 1] == done[|done| - 1]
    ensures var r := Push(done, rest[0]);
            && r != [] && |r| + |rest[1..]| == |r + rest[1..]|
            && (|rest| > 1 ==> (r + rest[1..])[|r|] == rest[1])
            && (if done != [] && done[|done| - 1].free && rest[0].free
                then |r| == |done| && r[|r| - 1].at == done[|done| - 1].at
                else |r| == |done| + 1 && r[|r| - 1].at == rest[0].at)
  {
  }

  lemma PassMoves(done: seq<Block>, rest: seq<Block>)
    requires rest != []
    ensures !(done != [] && done[|done| - 1].free && rest[0].free) ==> Push(done, rest[0]) + rest[1..] == done + rest
  {
    assert rest == [rest[0]] + rest[1..];
  }

  lemma PassMerges(done: seq<Block>, rest: seq<Block>)
    requires done != [] && rest != [] && done[|done| - 1].free && rest[0].free
    ensures Push(done, rest[0]) + rest[1..] == Joined(done + rest, |done| - 1)
  {
    var k := |done| - 1;
    var bs := done + rest;
    assert bs[..k] == done[..k] && bs[k + 2..] == rest[1..];
  }

  // ----- moving a payload

  /** `n` bytes at `i` in one memory are those at `j` in the other. */
  predicate Same(m: seq<byte>, i: int, m': seq<byte>, j: int, n: int) {
    && 0 <= i && 0 <= j && 0 <= n && i + n <= |m| && j + n <= |m'|
    && m[i..i + n] == m'[j..j + n]
  }

  /** A live block at `r` of at least `size` bytes starts with the bytes `old`. */
  ghost predicate MovedTo(bs: seq<Block>, m: seq<byte>, base: nat, r: nat, size: nat, prefix: seq<byte>) {
    exists c :: c in Live(bs) && Payload(c) == r && c.size >= size && |prefix| < size && prefix <= Bytes(m, base, c)
  }

  lemma IndexOfLive(bs: seq<Block>, b: Block) returns (i: nat)
    requires b in Live(bs)
    ensures i < |bs| && bs[i] == b && !b.free
  {
    i := IndexOf(bs, b);
  }

  lemma SameFewer(m: seq<byte>, m': seq<byte>, base: nat, bs: seq<Block>, cs: seq<Block>)
    ensures SameBytes(m, m', base, Live(bs)) ==> SameBytes(m, m', base, Live(bs) * Live(cs))
    ensures SameBytes(m, m', base, Live(cs)) ==> SameBytes(m, m', base, Live(bs) * Live(cs))
  {
    hide Live;
  }

  lemma ReallocPlain(s: Shape, base: nat, size: u32)
    requires s.end <= base + ARENA
    ensures AfterRealloc(s, base, 0, size) == AfterMalloc(s, base, size)
  {
    hide AfterMalloc;
  }

  /** The other outcomes of realloc, for a pointer to the live block `b`. */
  lemma ReallocCases(s: Shape, base: nat, b: Block, size: u32)
    requires Sound(s, base) && b in Live(s.blocks)
    ensures var p := Payload(b); var (t, q) := AfterMalloc(s, base, size);
            AfterRealloc(s, base, p, size) ==
            if size == 0 then (AfterFree(s, base, p), 0)
            else if b.size >= size then (s, p)
            else if q == 0 then (t, 0)
            else (AfterFree(t, base, p), q)
  {
    hide AfterMalloc, AfterFree, Tiled, Calm;
    OnePlace(s, base, b);
  }

  /** Where the larger block comes to lie, and that the old one is still there. */
  lemma GrowPlan(s: Shape, base: nat, b: Block, size: u32) returns (k: nat)
    requires Sound(s, base) && b in Live(s.blocks) && size <= MAX_REQUEST && AfterMalloc(s, base, size).1 != 0
    ensures var (t, q) := AfterMalloc(s, base, size);
            && Sound(t, base) && k < |t.blocks| && Payload(t.blocks[k]) == q && t.blocks[k].size >= size
            && b in Live(t.blocks) && t.blocks[k] in Live(t.blocks) && t.blocks[k] !in Live(s.blocks)
            && (Payload(b) + b.size <= q || Past(t.blocks[k]) <= Payload(b))
            && Live(AfterFree(t, base, Payload(b)).blocks) == Live(t.blocks) - {b}
            && (exists c :: c in Live(t.blocks) && Payload(c) == Payload(b))
  {
    hide AfterMalloc, AfterFree, Tiled, Calm, Fits, Wanted;
    MallocSound(s, base, size);
    var (t, q) := AfterMalloc(s, base, size);
    var c :| c in t.blocks && !c.free && Payload(c) == q && c.size >= size
             && Live(t.blocks) == Live(s.blocks) + {c} && c !in Live(s.blocks);
    k := IndexOf(t.blocks, c);
    Apart(t.blocks, base, t.end, b, c);
    FreeSound(t, base, b);
  }

  lemma GrowKeeps(m0: seq<byte>, m1: seq<byte>, m2: seq<byte>, m3: seq<byte>, base: nat,
                  bs: seq<Block>, ts: seq<Block>, us: seq<Block>, b: Block, c: Block)
    requires SameBytes(m0, m1, base, Live(bs)) && SameBytes(m1, m2, base, Live(ts) - {c})
    requires SameBytes(m2, m3, base, Live(us)) && Live(us) == Live(ts) - {b} && c !in Live(bs)
    ensures SameBytes(m0, m3, base, Live(bs) * Live(us))
  {
    hide Live, Bytes;
  }

  lemma MovedBytes(m0: seq<byte>, m1: seq<byte>, m2: seq<byte>, m3: seq<byte>, base: nat,
                   bs: seq<Block>, us: seq<Block>, b: Block, c: Block, size: nat)
    requires |m1| == |m2| && Within(m1, base, b) && Within(m2, base, c) && b.size < size <= c.size && c in Live(us)
    requires SameBytes(m0, m1, base, Live(bs)) && b in Live(bs) && SameBytes(m2, m3, base, Live(us))
    requires m2[Payload(c) - base..Payload(c) + b.size - base] == m1[Payload(b) - base..Past(b) - base]
    ensures MovedTo(us, m3, base, Payload(c), size, Bytes(m0, base, b))
  {
    hide Live;
    assert Bytes(m2, base, c)[..b.size] == m2[Payload(c) - base..Payload(c) + b.size - base];
  }

  // ----- fresh payloads

  predicate Zeros(m: seq<byte>, i: int, n: int) {
    0 <= i && 0 <= n && i + n <= |m| && forall j :: i <= j < i + n ==> m[j] == 0
  }

  lemma WrapSmall(n: nat)
    ensures n <= 0xFFFF_FFFF ==> Wrap32(n) == n
  {
  }

  /** The block behind the pointer malloc returns. */
  lemma NewPlan(s: Shape, base: nat, size: u32) returns (k: nat)
    requires Sound(s, base) && size <= MAX_REQUEST && AfterMalloc(s, base, size).1 != 0
    ensures var (t, q) := AfterMalloc(s, base, size);
            && k < |t.blocks| && Payload(t.blocks[k]) == q && t.blocks[k].size >= size
            && t.blocks[k] !in Live(s.blocks) && Live(t.blocks) == Live(s.blocks) + {t.blocks[k]}
  {
    hide AfterMalloc, Tiled, Calm, Fits, Wanted;
    MallocSound(s, base, size);
    var (t, q) := AfterMalloc(s, base, size);
    var c :| c in t.blocks && !c.free && Payload(c) == q && c.size >= size
             && Live(t.blocks) == Live(s.blocks) + {c} && c !in Live(s.blocks);
    k := IndexOf(t.blocks, c);
  }

  lemma SameButNew(m0: seq<byte>, m1: seq<byte>, m2: seq<byte>, base: nat, bs: seq<Block>, ts: seq<Block>, c: Block)
    requires SameBytes(m0, m1, base, Live(bs)) && SameBytes(m1, m2, base, Live(ts) - {c})
    requires Live(ts) == Live(bs) + {c} && c !in Live(bs)
    ensures SameBytes(m0, m2, base, Live(bs))
  {
    hide Live, Bytes;
  }

  class Heap {
    const base: nat
    const arena: array<byte>
    var head: nat
    var end: nat
    var errno: int
    ghost var blocks: seq<Block>
    ghost var memory: seq<byte>

    ghost function State(): Shape
      reads this`blocks, this`end
    {
      Shape(blocks, end)
    }

    ghost predicate Mirrored()
      reads this`memory, arena
    {
      memory == arena[..]
    }

    /** The headers in memory form the list, which tiles the used arena. */
    ghost predicate Linked()
      reads this`head, this`end, this`blocks, this`memory, arena
    {
      && Mirrored()
      && 0 < base && base + ARENA <= 0xFFFF_FFFF && arena.Length == ARENA
      && Tiled(blocks, base, end) && end <= base + ARENA && Stored(memory, base, blocks)
      && head == (if blocks == [] then 0 else base)
    }

    ghost predicate Valid()
      reads this`head, this`end, this`blocks, this`memory, arena
    {
      Linked() && Calm(blocks)
    }

    /** An arena of zeros, at a fixed nonzero address. */
    constructor (base: nat)
      requires 0 < base && base + ARENA <= 0xFFFF_FFFF
      ensures Valid() && this.base == base && State() == Shape([], base) && fresh(arena)
    {
      this.base := base;
      arena := new byte[ARENA](_ => 0);
      memory := seq(ARENA, _ => 0);
      head, end, errno := 0, base, 0;
      blocks := [];
    }

    // ----- header access

    function Size(block: nat): u32
      requires base <= block && block - base + HEADER <= arena.Length
      reads arena
    {
      Word(arena[..], block - base)
    }

    function Next(block: nat): u32
      requires base <= block && block - base + HEADER <= arena.Length
      reads arena
    {
      Word(arena[..], block - base + 4)
    }

    function Free?(block: nat): bool
      requires base <= block && block - base + HEADER <= arena.Length
      reads arena
    {
      arena[block - base + 8] != 0
    }

    method StoreWord(i: nat, v: u32)
      requires Mirrored() && i + 4 <= arena.Length
      modifies this`memory, arena
      ensures Mirrored() && memory == PutWord(old(memory), i, v)
    {
      arena[i] := v % 0x100;
      arena[i + 1] := v / 0x100 % 0x100;
      arena[i + 2] := v / 0x1_0000 % 0x100;
      arena[i + 3] := v / 0x100_0000;
      memory := PutWord(memory, i, v);
      assert memory == arena[..];
    }

    method StoreByte(i: nat, v: byte)
      requires Mirrored() && i < arena.Length
      modifies this`memory, arena
      ensures Mirrored() && memory == old(memory)[i := v]
    {
      arena[i] := v;
      memory := memory[i := v];
      assert memory == arena[..];
    }

    /** What the header of the block at the cursor says. */
    lemma HeaderAt(i: nat)
      requires Linked() && i < |blocks|
      ensures var b := blocks[i];
              && base <= b.at && Past(b) <= end <= base + ARENA
              && Size(b.at) == b.size && Next(b.at) == NextOf(blocks, i) && Free?(b.at) == b.free
    {
      hide Word;
      Inside(blocks, base, end, i);
      assert HeaderIs(memory, base, blocks[i], NextOf(blocks, i));
    }

    /** Where a walk over the list starts, and where it ends. */
    lemma Opening()
      requires Linked()
      ensures 0 < base <= end <= base + ARENA == base + arena.Length <= 0xFFFF_FFFF
      ensures head == if blocks == [] then 0 else blocks[0].at
      ensures Tiled(blocks, base, end)
    {
      if blocks != [] {
        HeaderAt(0);
      }
    }

    lemma NeverNull()
      requires Linked()
      ensures forall j :: 0 <= j < |blocks| ==> blocks[j].at > 0
    {
      forall j | 0 <= j < |blocks|
        ensures blocks[j].at > 0
      {
        HeaderAt(j);
      }
    }

    // ----- malloc

    /** The walk over the list: the lowest fitting block, or 0 with `tail` at the last block. */
    method FirstFree(wanted: u32) returns (block: nat, tail: nat)
      requires Valid()
      ensures var i := FirstFit(blocks, wanted);
              && block == (if i < |blocks| then blocks[i].at else 0)
              && (i < |blocks| ==> block > 0)
              && (i == |blocks| ==> tail == if blocks == [] then 0 else blocks[|blocks| - 1].at)
    {
      hide Linked, Word, Tiled, FirstFit;
      Opening();
      NeverNull();
      tail := 0;
      block := head;
      ghost var i: nat := 0;
      while block != 0
        invariant i <= |blocks| && block == (if i < |blocks| then blocks[i].at else 0)
        invariant tail == if i == 0 then 0 else blocks[i - 1].at
        invariant forall j :: 0 <= j < i ==> !Fits(blocks[j], wanted)
        decreases |blocks| - i
      {
        HeaderAt(i);
        if Free?(block) && Size(block) >= wanted {
          FirstFitUnique(blocks, wanted, i);
          return;
        }
        tail := block;
        block := Next(block);
        i := i + 1;
      }
      FirstFitUnique(blocks, wanted, i);
    }

    method Malloc(size: u32) returns (p: nat)
      requires Valid() && size <= MAX_REQUEST
      modifies this, arena
      ensures Valid() && (State(), p) == old(AfterMalloc(State(), base, size))
      ensures SameBytes(old(memory), memory, base, old(Live(blocks)))
      ensures p == 0 ==> memory == old(memory)
      ensures errno == if p == 0 then ENOMEM else old(errno)
    {
      hide Linked, Mirrored, Stored, Tiled, Calm, Sound, AfterMalloc, Wanted, Footprint, FirstFit, SameBytes, Live,
           Word, Taken, Extended;
      Opening();
      ghost var s, i := State(), FirstFit(blocks, Wanted(size));
      MallocCases(s, base, size);
      RequestFits(size);
      Unchanged(memory, base, blocks);
      var wanted := Wanted(size);
      var block, tail := FirstFree(wanted);
      if block != 0 {
        p := TakeBlock(block, i);
      } else if base + ARENA - end < Footprint(wanted) {
        errno := ENOMEM;
        p := 0;
      } else {
        p := NewBlock(wanted, tail);
      }
    }

    /** `block->free = 0`. */
    method TakeBlock(block: nat, ghost i: nat) returns (p: nat)
      requires Valid() && i < |blocks| && blocks[i].free && block == blocks[i].at
      modifies this`blocks, this`memory, arena
      ensures Valid() && State() == old(Taken(State(), i)) && p == block + HEADER
      ensures SameBytes(old(memory), memory, base, old(Live(blocks)))
    {
      hide Word;
      ghost var m := memory;
      HeaderAt(i);
      TakenLive(State(), base, i);
      StoreByte(block - base + 8, 0);
      FlagWritten(m, base, blocks, end, i, false);
      blocks := blocks[i := blocks[i].(free := false)];
      p := block + HEADER;
    }

    method WriteHeader(i: nat, size: u32)
      requires Mirrored() && i + HEADER <= arena.Length
      modifies this`memory, arena
      ensures Mirrored() && memory == PutHeader(old(memory), i, size)
    {
      hide PutWord, Mirrored;
      StoreWord(i, size);
      StoreWord(i + 4, 0);
      StoreByte(i + 8, 0);
    }

    /** A block at the end of the used arena, linked behind `tail`. */
    method NewBlock(wanted: u32, tail: nat) returns (p: nat)
      requires Valid() && wanted >= 4 && wanted % 4 == 0 && Footprint(wanted) == HEADER + wanted
      requires end + HEADER + wanted <= base + ARENA
      requires tail == if blocks == [] then 0 else blocks[|blocks| - 1].at
      modifies this, arena
      ensures Valid() && errno == old(errno) && p == old(end) + HEADER
      ensures State() == old(Extended(State(), wanted))
      ensures SameBytes(old(memory), memory, base, old(Live(blocks)))
    {
      hide Word, PutWord, PutHeader, Stored, Tiled, Calm, HeaderIs, Bytes, Live, SameOutside, SameBytes, Footprint;
      ghost var bs, m := blocks, memory;
      var block := end;
      ghost var b := Block(block, wanted, false);
      Opening();
      NeverNull();
      AppendedLive(State(), base, b);
      HeaderPastEnd(m, base, bs, b);
      WriteHeader(block - base, wanted);
      ghost var m1 := memory;
      if tail != 0 {
        LinkLast(m1, base, bs, b);
        StoreWord(tail - base + 4, block);
      } else {
        LinkFirst(m1, base, b);
        head := block;
      }
      SameLive(m, memory, base, bs);
      end := end + Footprint(wanted);
      blocks := bs + [b];
      return block + HEADER;
    }

    // ----- free

    method Free(p: nat)
      requires Valid() && Releasable(State(), base, p)
      modifies this`blocks, this`memory, arena
      ensures Valid() && State() == old(AfterFree(State(), base, p))
      ensures SameBytes(old(memory), memory, base, Live(blocks))
    {
      if p == 0 || p < base + HEADER || p >= end {
        Unchanged(memory, base, blocks);
        return;
      }
      Release(p);
      Coalesce();
    }

    /** `block->free = 1`. */
    method Release(p: nat)
      requires Valid() && Releasable(State(), base, p) && base + HEADER <= p < end
      modifies this`blocks, this`memory, arena
      ensures Linked() && blocks == Released(old(blocks), p)
      ensures SameBytes(old(memory), memory, base, Live(blocks))
    {
      hide Word, HeaderIs, Bytes, Tiled, Stored, Calm, Released;
      ghost var b :| b in Live(blocks) && Payload(b) == p;
      ghost var k := IndexOf(blocks, b);
      HeaderAt(k);
      ReleasedOne(State(), base, k);
      FlagWritten(memory, base, blocks, end, k, true);
      var block := p - HEADER;
      StoreByte(block - base + 8, 1);
      blocks := Released(blocks, p);
    }

    /** The pass stands between two parts of the list: `done` is merged, `rest` is as it was. */
    ghost predicate Cursor(done: seq<Block>, rest: seq<Block>, previous: nat, block: nat)
      reads this`head, this`end, this`blocks, this`memory, arena
    {
      && Linked() && blocks == done + rest
      && block == (if rest == [] then 0 else rest[0].at)
      && previous == (if done == [] then 0 else done[|done| - 1].at)
    }

    /** One pass over the list; `previous` swallows `block` when both are free. */
    method Coalesce()
      requires Linked()
      modifies this`blocks, this`memory, arena
      ensures Valid() && blocks == Coalesced(old(blocks))
      ensures SameBytes(old(memory), memory, base, Live(blocks)) && Live(blocks) == old(Live(blocks))
    {
      hide Linked, Mirrored, Stored, Tiled, Calm, Merged, Push, SameBytes, Live, Word, Size, Next;
      ghost var done, rest := [], blocks;
      Opening();
      Unchanged(memory, base, blocks);
      PassStarts(blocks);
      var previous, block := 0, head;
      while block != 0
        invariant Cursor(done, rest, previous, block) && Merged(done, rest) == Merged([], old(blocks))
        invariant Live(blocks) == old(Live(blocks)) && SameBytes(old(memory), memory, base, Live(blocks))
        decreases |rest|
      {
        ghost var m := memory;
        PassStep(done, rest);
        previous, block := PassOne(previous, block, done, rest);
        SameThrough(old(memory), m, memory, base, Live(blocks));
        done, rest := Push(done, rest[0]), rest[1..];
      }
      if rest != [] {
        PassStep(done, rest);
        HeaderAt(|done|);
      }
      PassEnds(old(blocks), base, end, done);
    }

    /** The body of the pass: merge or not, then move on. */
    method PassOne(previous: nat, block: nat, ghost done: seq<Block>, ghost rest: seq<Block>)
      returns (previous': nat, block': nat)
      requires rest != [] && Cursor(done, rest, previous, block)
      modifies this`blocks, this`memory, arena
      ensures Cursor(Push(done, rest[0]), rest[1..], previous', block')
      ensures SameBytes(old(memory), memory, base, Live(blocks)) && Live(blocks) == old(Live(blocks))
    {
      hide Linked, Mirrored, Stored, Tiled, Push, Joined, SameBytes, Live, Word, Size, Next;
      ghost var k := |done|;
      Opening();
      PassPlace(done, rest);
      PassMoves(done, rest);
      Unchanged(memory, base, blocks);
      HeaderAt(k);
      if done != [] {
        HeaderAt(k - 1);
      }
      previous' := block;
      if previous != 0 && Free?(previous) && Free?(block) {
        PassMerges(done, rest);
        Swallow(previous, block, k - 1);
        HeaderAt(k - 1);
        previous' := previous;
      }
      block' := Next(previous');
    }

    /** `previous->size += ...; previous->next = block->next`. */
    method Swallow(previous: nat, block: nat, ghost k: nat)
      requires Linked() && k + 1 < |blocks| && blocks[k].free && blocks[k + 1].free
      requires previous == blocks[k].at && block == blocks[k + 1].at
      modifies this`blocks, this`memory, arena
      ensures Linked() && blocks == Joined(old(blocks), k) && Live(blocks) == old(Live(blocks))
      ensures SameBytes(old(memory), memory, base, Live(blocks))
    {
      hide Word, PutWord, HeaderIs, Bytes, Tiled, Stored, Footprint, Joined, Live;
      HeaderAt(k);
      HeaderAt(k + 1);
      JoinedSize(blocks, base, end, k);
      JoinedStored(memory, base, blocks, end, k);
      JoinedTiled(blocks, base, end, k);
      JoinedLive(blocks, k);
      SameLive(memory, PutWord(PutWord(memory, previous - base, Joined(blocks, k)[k].size), previous - base + 4,
                               NextOf(blocks, k + 1)), base, blocks);
      ghost var m := memory;
      StoreWord(previous - base, Wrap32(Size(previous) + Footprint(Size(block))));
      SuccessorKept(m, base, blocks, end, k, Joined(blocks, k)[k].size);
      StoreWord(previous - base + 4, Next(block));
      blocks := Joined(blocks, k);
    }

    // ----- realloc and calloc

    /** `memcpy` between two payloads. */
    method CopyBytes(to: nat, from: nat, n: nat, ghost k: nat)
      requires Valid() && k < |blocks| && to == Payload(blocks[k]) && n <= blocks[k].size
      requires base <= from && from + n <= base + ARENA && (from + n <= to || Past(blocks[k]) <= from)
      modifies this`memory, arena
      ensures Valid() && SameBytes(old(memory), memory, base, Live(blocks) - {blocks[k]})
      ensures |memory| == |old(memory)| == ARENA && base <= to && to + n <= base + ARENA
      ensures memory[to - base..to + n - base] == old(memory[from - base..from + n - base])
    {
      hide Stored, Tiled, Word, Bytes, Live, SameBytes;
      HeaderAt(k);
      ghost var m := memory;
      ghost var lo, hi := to - base, Past(blocks[k]) - base;
      MoveBytes(to - base, from - base, n, hi);
      PayloadWrite(m, memory, base, blocks, end, k);
      OthersSame(m, memory, base, blocks, blocks[k]);
    }

    /** The loop of memcpy, to and from offsets that lie apart. */
    method MoveBytes(to: nat, from: nat, n: nat, ghost hi: nat)
      requires Mirrored() && to + n <= hi <= arena.Length && from + n <= arena.Length && (from + n <= to || hi <= from)
      modifies this`memory, arena
      ensures Mirrored() && SameOutside(old(memory), memory, to, hi) && Same(memory, to, old(memory), from, n)
    {
      var i := 0;
      while i < n
        invariant 0 <= i <= n && Mirrored() && SameOutside(old(memory), memory, to, hi)
        invariant Same(memory, to, old(memory), from, i)
      {
        StoreByte(to + i, arena[from + i]);
        i := i + 1;
      }
    }

    method Realloc(p: nat, size: u32) returns (r: nat)
      requires Valid() && Resizable(State(), p) && size <= MAX_REQUEST
      modifies this, arena
      ensures Valid() && (State(), r) == old(AfterRealloc(State(), base, p, size))
      ensures SameBytes(old(memory), memory, base, old(Live(blocks)) * Live(blocks))
      ensures r != 0 && r != p ==> forall b <- old(Live(blocks)) :: Payload(b) == p ==>
                MovedTo(blocks, memory, base, r, size, old(Bytes(memory, base, b)))
    {
      hide Linked, Mirrored, Stored, Tiled, Calm, AfterMalloc, AfterFree, AfterRealloc, MovedTo, Bytes, SameBytes,
           Live, Word;
      Opening();
      ghost var s := State();
      ReallocPlain(s, base, size);
      if p == 0 {
        r := Malloc(size);
        SameFewer(old(memory), memory, base, s.blocks, blocks);
        return;
      }
      ghost var b :| b in Live(blocks) && Payload(b) == p;
      ghost var k := IndexOfLive(blocks, b);
      HeaderAt(k);
      ReallocCases(s, base, b, size);
      OnePlace(s, base, b);
      if size == 0 {
        Free(p);
        SameFewer(old(memory), memory, base, s.blocks, blocks);
        return 0;
      }
      var block := p - HEADER;
      if Size(block) >= size {
        Unchanged(memory, base, blocks);
        SameFewer(memory, memory, base, blocks, blocks);
        return p;
      }
      r := Grow(p, size, b);
    }

    /** A larger block, the old bytes copied, the old block freed. */
    method Grow(p: nat, size: u32, ghost b: Block) returns (r: nat)
      requires Valid() && size <= MAX_REQUEST && b in Live(blocks) && Payload(b) == p && b.size < size
      modifies this, arena
      ensures Valid() && r == old(AfterMalloc(State(), base, size).1)
      ensures State() == if r == 0 then old(AfterMalloc(State(), base, size).0)
                         else AfterFree(old(AfterMalloc(State(), base, size).0), base, p)
      ensures SameBytes(old(memory), memory, base, old(Live(blocks)) * Live(blocks))
      ensures r != 0 ==> MovedTo(blocks, memory, base, r, size, old(Bytes(memory, base, b)))
    {
      hide Linked, Mirrored, Stored, Tiled, Calm, AfterMalloc, AfterFree, MovedTo, Bytes, SameBytes, Live, Word;
      Opening();
      ghost var s, m0 := State(), memory;
      r := Malloc(size);
      ghost var t, m1 := State(), memory;
      SameFewer(m0, m1, base, s.blocks, blocks);
      if r != 0 {
        ghost var k := GrowPlan(s, base, b, size);
        ghost var j := IndexOfLive(blocks, b);
        HeaderAt(j);
        HeaderAt(k);
        var copy := if Size(p - HEADER) < size then Size(p - HEADER) else size;
        CopyBytes(r, p, copy, k);
        ghost var m2 := memory;
        Free(p);
        GrowKeeps(m0, m1, m2, memory, base, s.blocks, t.blocks, blocks, b, t.blocks[k]);
        MovedBytes(m0, m1, m2, memory, base, s.blocks, blocks, b, t.blocks[k], size);
      }
    }

    /** A total that wraps is refused; so is one the heap cannot hold. */
    method Calloc(nmemb: u32, size: u32) returns (p: nat)
      requires Valid() && (nmemb * size <= MAX_REQUEST || nmemb * size > 0xFFFF_FFFF)
      modifies this, arena
      ensures Valid() && (State(), p) == old(AfterCalloc(State(), base, nmemb, size))
      ensures SameBytes(old(memory), memory, base, old(Live(blocks)))
      ensures p != 0 ==> nmemb * size <= MAX_REQUEST && Zeros(memory, p - base, nmemb * size)
      ensures errno == if p == 0 then ENOMEM else old(errno)
    {
      hide Linked, Mirrored, Stored, Tiled, Calm, AfterMalloc, Bytes, SameBytes, Live, Word, Zeros, Wrap32;
      Opening();
      CallocAllowed(nmemb, size);
      Unchanged(memory, base, blocks);
      if size != 0 && nmemb > 0xFFFF_FFFF / size {
        errno := ENOMEM;
        return 0;
      }
      ghost var s, m := State(), memory;
      var total := Wrap32(nmemb * size);
      WrapSmall(nmemb * size);
      p := Malloc(total);
      if p != 0 {
        ghost var k := NewPlan(s, base, total);
        ghost var m1 := memory;
        FillZero(p, total, k);
        SameButNew(m, m1, memory, base, s.blocks, blocks, blocks[k]);
      }
    }

    /** `memset(p, 0, n)` within a payload. */
    method FillZero(p: nat, n: nat, ghost k: nat)
      requires Valid() && k < |blocks| && p == Payload(blocks[k]) && n <= blocks[k].size
      modifies this`memory, arena
      ensures Valid() && SameBytes(old(memory), memory, base, Live(blocks) - {blocks[k]})
      ensures Zeros(memory, p - base, n)
    {
      hide Stored, Tiled, Word, Bytes, Live, SameBytes;
      HeaderAt(k);
      ghost var m := memory;
      ghost var lo, hi := p - base, Past(blocks[k]) - base;
      var i := 0;
      while i < n
        invariant 0 <= i <= n && Mirrored() && SameOutside(m, memory, lo, hi)
        invariant Zeros(memory, lo, i)
      {
        StoreByte(p - base + i, 0);
        i := i + 1;
      }
      PayloadWrite(m, memory, base, blocks, end, k);
      OthersSame(m, memory, base, blocks, blocks[k]);
    }

    /**
     A whole run of calls: the list follows the specification, and every block that was not given back is
     still live, with its bytes unchanged.
     */
    method Run(ops: seq<Op>)
      requires Valid() && AllowedRun(State(), base, ops)
      modifies this, arena
      ensures Valid() && State() == old(AfterRun(State(), base, ops))
      ensures forall b <- old(Live(blocks)) :: (forall op <- ops :: !Gives(op, Payload(b))) ==>
                b in Live(blocks) && Bytes(memory, base, b) == old(Bytes(memory, base, b))
      decreases |ops|
    {
      hide Linked, Mirrored, Stored, Tiled, Calm, AfterMalloc, AfterFree, AfterRealloc, AfterCalloc, MovedTo, Bytes, Live,
           Word, Zeros;
      if ops == [] {
        return;
      }
      Opening();
      ghost var s := State();
      OpSound(s, base, ops[0]);
      Step(ops[0]);
      ghost var m := memory;
      Run(ops[1..]);
      forall b | b in Live(s.blocks) && forall op <- ops :: !Gives(op, Payload(b))
        ensures b in Live(blocks) && Bytes(memory, base, b) == old(Bytes(memory, base, b))
      {
        assert !Gives(ops[0], Payload(b));
        NotGiven(s, ops[0], b);
        assert forall op <- ops[1..] :: !Gives(op, Payload(b));
      }
    }

    /** One call. */
    method Step(op: Op)
      requires Valid() && State().end <= base + ARENA && Allowed(State(), base, op)
      modifies this, arena
      ensures Valid() && State() == old(After(State(), base, op))
      ensures SameBytes(old(memory), memory, base, old(Live(blocks)) * Live(blocks))
    {
      hide Linked, Mirrored, Stored, Tiled, Calm, AfterMalloc, AfterFree, AfterRealloc, AfterCalloc, MovedTo, Bytes, Live,
           Word, Zeros;
      var p;
      match op
      case Malloc(size) => p := Malloc(size);
      case Free(q) => Free(q);
      case Calloc(nmemb, each) => p := Calloc(nmemb, each);
      case Realloc(q, size) => p := Realloc(q, size);
    }
  }
}
