/** Where the frame decoder's history outgrows an int: a call that is given room for more than 2 GB
    gets the data of some frame wrong. */
module FrameLimits {
  import opened BlockFormat
  import opened Memory
  import opened MatchCount
  import opened Encoding
  import opened FastDecoder
  import opened BlockApi
  import opened FrameFormat
  import opened FrameDecoder
  import opened FrameReading

  const SMALL := 0x1_0000   // the smallest of the largest blocks, and how many of them
  const MANY := 0x8000      // 2 GB takes

  /** Linked blocks of 64 KB, no checksums. */
  const LINKED := FrameInfo(true, false, 0, false, 0, 4)

  /** A match of eight bytes with offset 1, then five literals. */
  const REPEAT: Sequence := Sequence([], 1, 8)

  function Repeater(): seq<byte> {
    EncodeBlock([REPEAT], Zeros(5))
  }

  /** What it stands for behind a history that ends with `b`. */
  function Repeated(b: byte): (s: seq<byte>)
    ensures |s| == 13
  {
    seq(13, i => if i < 8 then b else 0)
  }

  lemma RepeaterSays(h: seq<byte>, b: byte)
    requires h != [] && h[|h| - 1] == b
    ensures Decode(Repeater(), 0, h) == Some(h + Repeated(b)) && MustDecode(Repeater(), h, SMALL)
    ensures |Repeater()| == 9
  {
    hide Decode, Restricted, EncodeBlock, CopyMatch, Expand, KeepsClear, IsMatchCopy;
    RepeaterLength();
    var r := h + seq(8, i => b);
    RepeatExpands(h, b, r);
    BlockRoundTrip(h, [REPEAT], Zeros(5));
    assert r + Zeros(5) == h + Repeated(b);
  }

  lemma RepeatExpands(h: seq<byte>, b: byte, r: seq<byte>)
    requires h != [] && h[|h| - 1] == b && r == h + seq(8, i => b)
    ensures Expand(h, [REPEAT]) == Some(r) && KeepsClear(|h|, [REPEAT], |h| + 13)
  {
    hide CopyMatch, Expand, KeepsClear, Produced, IsMatchCopy;
    RepeatCopies(h, b, r);
    OneMatch(h, REPEAT, |h| + 13);
  }

  lemma RepeatCopies(h: seq<byte>, b: byte, r: seq<byte>)
    requires h != [] && h[|h| - 1] == b && r == h + seq(8, i => b)
    ensures CopyMatch(h, 1, 8) == r
  {
    hide CopyMatch;
    assert IsMatchCopy(h, 1, 8, r) by {
      assert r[..|h|] == h;
    }
    CopyMatchUnique(h, 1, 8, r);
  }

  lemma OneMatch(h: seq<byte>, q: Sequence, total: nat)
    requires q.literals == [] && q.offset <= |h|
    requires |h| + MFLIMIT <= total && |h| + q.matchLength + LASTLITERALS <= total
    ensures Expand(h, [q]) == Some(CopyMatch(h, q.offset, q.matchLength)) && KeepsClear(|h|, [q], total)
  {
    hide CopyMatch;
    assert h + [] == h && [q][..0] == [];
    assert Expand(h, []) == Some(h) && Produced(|h|, []) == |h| && KeepsClear(|h|, [], total);
  }

  lemma RepeaterLength()
    ensures |Repeater()| == 9
  {
    assert [REPEAT][..0] == [];
    assert EncodeAll([]) == [];
    assert EncodeAll([REPEAT]) == EncodeSequence(REPEAT);
  }

  /** 2 GB of zeros as they are, and thirteen more in a block that repeats the last of them. */
  function Stored(n: nat): (bs: seq<FrameBlock>)
    ensures |bs| == n
  {
    seq(n, i => Raw(Zeros(SMALL)))
  }

  function DeepBlocks(): seq<FrameBlock> {
    Stored(MANY) + [Packed(Repeater(), Zeros(13))]
  }

  lemma {:induction false} StoredZeros(n: nat)
    ensures Content(Stored(n)) == Zeros(n * SMALL) && Deepest(Stored(n)) == 0 && ValidBlocks(LINKED, Stored(n))
    decreases n
  {
    if n > 0 {
      StoredZeros(n - 1);
      assert Stored(n)[..n - 1] == Stored(n - 1) && Stored(n)[n - 1] == Raw(Zeros(SMALL));
      assert Zeros((n - 1) * SMALL) + Zeros(SMALL) == Zeros(n * SMALL);
    }
  }

  lemma DeepFrame()
    ensures InOrder(FrameBytes(LINKED, DeepBlocks()), LINKED, DeepBlocks())
    ensures Content(Stored(MANY)) == Zeros(TWO31) && Content(DeepBlocks()) == Zeros(TWO31 + 13)
  {
    hide Decode, MustDecode, EncodeBlock, FrameBytes;
    var bs := DeepBlocks();
    StoredZeros(MANY);
    assert bs[..|bs| - 1] == Stored(MANY) && bs[|bs| - 1] == Packed(Repeater(), Zeros(13));
    RepeaterSays(Zeros(TWO31), 0);
    assert Repeated(0) == Zeros(13);
    assert Zeros(TWO31) + Zeros(13) == Zeros(TWO31 + 13);
  }

  // ---------------------------------------------------------------- the reader on it

  /** The frame in three parts: up to the last block, that block, and the end. */
  lemma DeepParts() returns (a: seq<byte>, b: seq<byte>, c: seq<byte>)
    ensures FrameBytes(LINKED, DeepBlocks()) == a + (b + c)
    ensures b == LeBytes(9, 4) + Repeater() && |b| == 13 && c == LeBytes(0, 4)
    ensures FeedAll(START, a) == Reader(Collecting(BlockHeader, []), LINKED, Zeros(TWO31), true, 0)
    ensures FeedAll(FeedAll(START, a), b) == Reader(Collecting(BlockHeader, []), LINKED, Zeros(TWO31 + 13), true, TWO31)
  {
    hide FeedAll, Feed, LeBytes, AllBlockBytes, HeaderBytes, ReadHeader, Decode, MustDecode, EncodeBlock, ValidBlocks,
         Content;
    var bs, h, raws := DeepBlocks(), HeaderBytes(LINKED), AllBlockBytes(LINKED, Stored(MANY));
    DeepFrame();
    RepeaterLength();
    RepeaterSays(Zeros(TWO31), 0);
    assert Repeated(0) == Zeros(13);
    var last := Packed(Repeater(), Zeros(13));
    assert bs[..|bs| - 1] == Stored(MANY) && bs[|bs| - 1] == last;
    StoredZeros(MANY);
    a, b, c := h + raws, BlockBytes(LINKED, last), LeBytes(0, 4);
    AllButLast(bs);
    assert b == LeBytes(9, 4) + Repeater();
    assert FrameBytes(LINKED, bs) == a + (b + c);
    HeaderReads(LINKED);
    HeaderLength(LINKED);
    assert [] + h[..|h| - 1] == h[..|h| - 1] && [] + h == h;
    FeedHeader(START, h);
    FeedInPieces(START, h, raws);
    FeedBlocks(Reader(Collecting(BlockHeader, []), LINKED, [], true, 0), Stored(MANY));
    FeedBlock(FeedAll(START, a), last);
    assert Zeros(TWO31) + Zeros(13) == Zeros(TWO31 + 13);
  }

  lemma AllButLast(bs: seq<FrameBlock>)
    requires bs != []
    ensures AllBlockBytes(LINKED, bs) == AllBlockBytes(LINKED, bs[..|bs| - 1]) + BlockBytes(LINKED, bs[|bs| - 1])
  {
  }

  /** Once there is more than 2 GB of it, the last block was decompressed. */
  lemma TooDeep(n: nat)
    requires n <= |FrameBytes(LINKED, DeepBlocks())|
    ensures var e := FeedAll(START, FrameBytes(LINKED, DeepBlocks())[..n]);
            |e.out| > TWO31 ==> e.info.linked && e.deepest == TWO31
  {
    hide FeedAll, Feed, LeBytes, FrameBytes, Repeater, DeepBlocks, Complete;
    var a, b, c := DeepParts();
    var x := a + (b + c);
    var r := FeedAll(START, a);
    if n <= |a| {
      assert a == a[..n] + a[n..] && x[..n] == a[..n];
      FeedInPieces(START, a[..n], a[n..]);
      StartsEmpty(a[..n]);
      OutGrows(FeedAll(START, a[..n]), a[n..]);
    } else if n < |a| + |b| {
      var y := b[..n - |a|];
      assert x[..n] == a + y;
      FeedInPieces(START, a, y);
      InLastBlock(r, y);
    } else {
      var y := c[..n - |a| - |b|];
      assert x[..n] == a + (b + y);
      FeedInPieces(START, a, b + y);
      FeedInPieces(r, b, y);
      AtTheEnd(FeedAll(r, b), y);
    }
  }

  /** Nothing comes out of a compressed block before its last byte. */
  lemma InLastBlock(r: Reader, y: seq<byte>)
    requires r.stage == Collecting(BlockHeader, []) && r.info == LINKED && |y| < 13 && y <= LeBytes(9, 4) + Repeater()
    ensures FeedAll(r, y).out == r.out
  {
    hide FeedAll, Feed, LeBytes, Repeater, Word;
    var head := LeBytes(9, 4);
    if |y| < 4 {
      FeedField(r, y);
    } else {
      assert y == head + y[4..];
      FeedInPieces(r, head, y[4..]);
      RepeaterLength();
      FeedBlockHeader(r, Packed(Repeater(), []), 9);
      FeedField(FeedAll(r, head), y[4..]);
    }
  }

  lemma AtTheEnd(r: Reader, y: seq<byte>)
    requires r.stage == Collecting(BlockHeader, []) && r.info == LINKED && y <= LeBytes(0, 4)
    ensures var e := FeedAll(r, y); e.out == r.out && e.info == r.info && e.deepest == r.deepest
  {
    hide FeedAll, Feed, LeBytes, Word;
    FeedField(r, y);
  }

  // ---------------------------------------------------------------- the call

  /** There is no other way for a call with that much room to end. */
  lemma NoOtherWay(res: Result, n: nat, given: seq<byte>, room: nat)
    requires room > TWO31
    requires res.Failure? ==> Unacceptable(FeedAll(START, FrameBytes(LINKED, DeepBlocks())))
    requires res.Hint? ==>
      n <= |FrameBytes(LINKED, DeepBlocks())| && var e := FeedAll(START, FrameBytes(LINKED, DeepBlocks())[..n]);
      && (e.info.linked ==> e.deepest == 0 || e.deepest < TWO31)
      && (if res.size == 0 then e.stage.Finished?
          else !e.stage.Finished? && given <= e.out && (n == |FrameBytes(LINKED, DeepBlocks())| || |given| == room))
    ensures res.Astray?
  {
    hide FeedAll, FrameBytes, DeepBlocks, Content, ValidBlocks;
    DeepFrame();
    var x := FrameBytes(LINKED, DeepBlocks());
    assert x[..|x|] == x;
    if res.Failure? {
      PartWay(LINKED, DeepBlocks(), |x|);
    } else if res.Hint? {
      PartWay(LINKED, DeepBlocks(), n);
      TooDeep(n);
    }
  }

  /** What was delivered is zeros. */
  lemma ZerosDelivered(n: nat, given: seq<byte>)
    requires n <= |FrameBytes(LINKED, DeepBlocks())|
    requires given <= FeedAll(START, FrameBytes(LINKED, DeepBlocks())[..n]).out
    ensures |given| <= TWO31 + 13 && given == Zeros(|given|)
  {
    hide FeedAll, FrameBytes, DeepBlocks, Content, ValidBlocks;
    DeepFrame();
    PartWay(LINKED, DeepBlocks(), n);
  }

  /** Where the last block lies in the frame. */
  lemma LastBlock(m: seq<byte>, src: nat, n: nat)
    requires n == |FrameBytes(LINKED, DeepBlocks())| && src + n <= |m|
    requires m[src..src + n] == FrameBytes(LINKED, DeepBlocks())
    ensures n >= 13 && m[src + n - 13..src + n - 4] == Repeater()
  {
    hide FeedAll, FrameBytes, DeepBlocks, LeBytes, Repeater;
    var a, b, c := DeepParts();
    RepeaterLength();
    var x := m[src..src + n];
    SliceOfSlice(m, src, src + n, src + n - 13, src + n - 4);
    assert x == (a + LeBytes(9, 4)) + (Repeater() + c);
    assert x[n - 13..n - 4] == Repeater();
  }

  /** The block is decoded with the size of its history, converted to int. */
  method DecodeLastBlock(mem: array<byte>, p: nat, dest: nat, dict: nat, dictSize: nat) returns (got: seq<byte>)
    requires p + 11 <= mem.Length && dest + SMALL <= mem.Length && Disjoint(p, p + 9, dest, dest + SMALL)
    requires mem[p..p + 9] == Repeater() && TWO31 <= dictSize < 2 * TWO31
    requires var end := dict + dictSize - 2 * TWO31;
             && DICT64K <= end <= mem.Length && Disjoint(end - DICT64K, end, dest, dest + SMALL) && end != dest
             && forall i :: end - DICT64K <= i < end ==> mem[i] == 1
    modifies mem
    ensures got == Repeated(1)
  {
    hide Decode, MustDecode, SameOutside, Repeater;
    ghost var end := dict + dictSize - 2 * TWO31;
    ghost var h := mem[end - DICT64K..end];
    RepeaterSays(h, 1);
    var r := DecompressSafeUsingNegative(mem, p, dest, 9, SMALL, dict, ToInt(dictSize), DICT64K);
    got := mem[dest..dest + r];
    assert h + got == h + Repeated(1);
    assert (h + got)[|h|..] == got && (h + Repeated(1))[|h|..] == Repeated(1);
  }

  /** Where the caller's buffers are: the frame, room for it, and a range 4 GB before the place where
      the content ends. */
  predicate LaidOut(d: FrameDecoder, size: nat, src: nat, n: nat, dst: nat, room: nat) {
    var lo := dst - TWO31 - DICT64K;
    && d.Space(size, src, n, dst, room)
    && 0 <= lo && d.Outside(lo, lo + DICT64K + 13) && Disjoint(lo, lo + DICT64K + 13, src, src + n)
  }

  /** The caller puts the frame there, and ones into that range. */
  method Prepare(mem: array<byte>, d: FrameDecoder, frame: seq<byte>, src: nat, dst: nat, room: nat)
    requires d.Objects(mem) && d.Rests(mem[..]) && d.Unattached() && LaidOut(d, mem.Length, src, |frame|, dst, room) && room > TWO31
    modifies mem
    ensures d.Rests(mem[..]) && mem[src..src + |frame|] == frame
    ensures var lo := dst - TWO31 - DICT64K; forall i :: lo <= i < lo + DICT64K + 13 ==> mem[i] == 1
  {
    hide FrameDecoder.Rests, FrameDecoder.Inside, SameOutside, FrameDecoder.Outside;
    var lo := dst - TWO31 - DICT64K;
    ghost var m0 := mem[..];
    Fill(mem, src, frame);
    ghost var m1 := mem[..];
    OutsideOf(d, m0, m1, src, |frame|, |frame|);
    d.CallersBuffers(m0, m1);
    forall i | lo <= i < lo + DICT64K + 13 {
      mem[i] := 1;
    }
    ghost var m2 := mem[..];
    assert SameOutside(m1, m2, lo, lo + DICT64K + 13) by { SameWhereNot(m1, m2, lo, lo + DICT64K + 13); }
    OutsideOf(d, m1, m2, lo, DICT64K + 13, DICT64K + 13);
    d.CallersBuffers(m1, m2);
    SliceKept(m1, m2, lo, lo + DICT64K + 13, src, src + |frame|);
  }

  lemma SameWhereNot(m1: seq<byte>, m2: seq<byte>, lo: nat, hi: nat)
    requires |m1| == |m2| && forall i :: 0 <= i < |m1| && !(lo <= i < hi) ==> m2[i] == m1[i]
    ensures SameOutside(m1, m2, lo, hi)
  {
  }

  /** The call leaves the frame and the ones as they are. */
  lemma LeftAlone(d: FrameDecoder, m: seq<byte>, m': seq<byte>, src: nat, n: nat, dst: nat, room: nat)
    requires LaidOut(d, |m|, src, n, dst, room) && |m'| == |m| && room > TWO31
    requires forall i :: 0 <= i < |m| && !d.Inside(i) && !(dst <= i < dst + room) ==> m'[i] == m[i]
    ensures m'[src..src + n] == m[src..src + n]
    ensures var lo := dst - TWO31 - DICT64K; forall i :: lo <= i < lo + DICT64K + 13 ==> m'[i] == m[i]
  {
  }

  /** A frame with 2 GB and 13 bytes of zeros, and ones 4 GB before the place where they end.  A call
      with room for more than 2 GB goes astray, and the block it has come to is decoded with history
      from there, to where the call would decode it. */
  method LongCall(mem: array<byte>, d: FrameDecoder, src: nat, dst: nat, room: nat) returns (frame: seq<byte>, res: Result, got: seq<byte>)
    requires d.Objects(mem) && d.Rests(mem[..]) && d.dStage.GetFrameHeader? && room > TWO31
    requires LaidOut(d, mem.Length, src, |FrameBytes(LINKED, DeepBlocks())|, dst, room)
    modifies d, d.h, d.xxh, d.xxh.buffer, d.blockChecksum, d.blockChecksum.buffer, mem
    ensures InOrder(frame, LINKED, DeepBlocks()) && Content(DeepBlocks()) == Zeros(TWO31 + 13)
    ensures res.Astray? && d.given == Zeros(|d.given|) && |d.given| >= TWO31
    ensures got == Repeated(1)
  {
    hide FrameDecoder.Rests, FrameDecoder.Objects, FeedAll, FrameBytes, DeepBlocks, Content, InOrder, Repeater,
         Repeated, FrameDecoder.Inside;
    DeepFrame();
    FreshStart(d, mem[..]);
    BufferFits(d, mem[..]);
    frame := FrameBytes(LINKED, DeepBlocks());
    var n := |frame|;
    Prepare(mem, d, frame, src, dst, room);
    ghost var m := mem[..];
    var srcUsed, dstUsed;
    res, srcUsed, dstUsed := CallAstray(mem, d, frame, src, dst, room);
    LeftAlone(d, m, mem[..], src, n, dst, room);
    LastBlock(mem[..], src, n);
    var dest := if room - dstUsed >= SMALL then dst + dstUsed else d.h.tmpOutBuffer + DICT64K;
    LastBlockApart(d, mem[..], src, n, dst, room, dstUsed, dest, d.h.dict + d.h.dictSize - 2 * TWO31);
    got := DecodeLastBlock(mem, src + n - 13, dest, d.h.dict, d.h.dictSize);
  }

  lemma BufferFits(d: FrameDecoder, m: seq<byte>)
    requires d.Rests(m)
    ensures d.h.tmpOutBuffer + TMP_MAX <= |m|
  {
    hide FrameDecoder.AtStage, FrameDecoder.Bookkeeping, FrameDecoder.History;
  }

  lemma LastBlockApart(d: FrameDecoder, m: seq<byte>, src: nat, n: nat, dst: nat, room: nat, dstUsed: nat, dest: nat, end: int)
    requires d.h.tmpOutBuffer + TMP_MAX <= |m| && LaidOut(d, |m|, src, n, dst, room) && n >= 13 && TWO31 <= dstUsed <= TWO31 + 13 && room > TWO31
    requires dest == if room - dstUsed >= SMALL then dst + dstUsed else d.h.tmpOutBuffer + DICT64K
    requires end == dst + dstUsed - 2 * TWO31
    requires var lo := dst - TWO31 - DICT64K; forall i :: lo <= i < lo + DICT64K + 13 ==> m[i] == 1
    ensures src + n - 2 <= |m| && dest + SMALL <= |m| && Disjoint(src + n - 13, src + n - 4, dest, dest + SMALL)
    ensures DICT64K <= end <= |m| && Disjoint(end - DICT64K, end, dest, dest + SMALL) && end != dest
    ensures forall i :: end - DICT64K <= i < end ==> m[i] == 1
  {
  }

  method CallAstray(mem: array<byte>, d: FrameDecoder, frame: seq<byte>, src: nat, dst: nat, room: nat)
    returns (res: Result, srcUsed: nat, dstUsed: nat)
    requires d.Objects(mem) && d.Rests(mem[..]) && d.dStage.GetFrameHeader? && room > TWO31
    requires frame == FrameBytes(LINKED, DeepBlocks()) && LaidOut(d, mem.Length, src, |frame|, dst, room)
    requires mem[src..src + |frame|] == frame
    modifies d, d.h, d.xxh, d.xxh.buffer, d.blockChecksum, d.blockChecksum.buffer, mem
    ensures res.Astray? && d.given == Zeros(dstUsed)
    ensures TWO31 <= d.h.dictSize <= dstUsed <= TWO31 + 13 && d.h.dict + d.h.dictSize == dst + dstUsed
    ensures forall i :: 0 <= i < mem.Length && !d.Inside(i) && !(dst <= i < dst + room) ==> mem[i] == old(mem[i])
  {
    hide FrameDecoder.Rests, FrameDecoder.Objects, FeedAll, FrameBytes, DeepBlocks;
    FreshStart(d, mem[..]);
    res, srcUsed, dstUsed := d.Decompress(mem, src, |frame|, dst, room, false);
    if res.Hint? && res.size > 0 {
      NotFinished(d, mem[..]);
    }
    assert frame[..|frame|] == frame;
    NoOtherWay(res, srcUsed, d.given, room);
    ZerosDelivered(srcUsed, d.given);
  }
}
