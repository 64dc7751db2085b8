/** The frame compressor: it buffers input until there is a block of it, writes blocks, and keeps
    the history of linked blocks where the block compressor will find it. */
module FrameCompressor {
  import opened BlockFormat
  import opened Memory
  import opened MatchCount
  import opened Emitter
  import opened FastDecoder
  import opened BlockApi
  import opened XxHash
  import opened FrameFormat
  import opened BlockStream
  import opened FrameBlocks
  import opened FramePlan
  import Streaming
  import HcStream

  const SLACK := MAX_BLOCK / 255 + 32       // what a block may write beyond its place
  const BLANK := 6                          // what may be looked at of the buffer, with no more than three bytes in it
  const MARGIN := SLACK + 4                 // and a checksum that LZ4F_flush does not count

  datatype Preferences = Preferences(info: FrameInfo, level: int, autoFlush: bool)

  // ---------------------------------------------------------------- sizes

  /** LZ4F_compressBound_internal. */
  function BoundInternal(srcSize: nat, prefs: Preferences, alreadyBuffered: nat): (r: nat) {
    var blockSize := prefs.info.MaxBlock();
    var flush := prefs.autoFlush || srcSize == 0;
    var bufferedSize := if alreadyBuffered < blockSize - 1 then alreadyBuffered else blockSize - 1;
    var maxSrcSize := srcSize + bufferedSize;
    var nbFullBlocks := maxSrcSize / blockSize;
    var lastBlockSize := if flush then maxSrcSize % blockSize else 0;
    var nbBlocks := nbFullBlocks + if lastBlockSize > 0 then 1 else 0;
    (4 + prefs.info.Crc()) * nbBlocks + blockSize * nbFullBlocks + lastBlockSize + FrameEnd(prefs)
  }

  function FrameEnd(prefs: Preferences): nat {
    4 + if prefs.info.contentChecksum then 4 else 0
  }

  /** LZ4F_compressFrameBound. */
  function FrameBound(srcSize: nat, prefs: Preferences): nat {
    MAX_FH_SIZE + BoundInternal(srcSize, prefs.(autoFlush := true), 0)
  }

  /** LZ4F_optimalBSID. */
  function OptimalBSID(requested: nat, srcSize: nat): (id: nat)
    ensures id <= requested
  {
    OptimalFrom(requested, srcSize, 4, 0x1_0000)
  }

  function OptimalFrom(requested: nat, srcSize: nat, proposed: nat, maxBlockSize: nat): (id: nat)
    ensures id <= requested && (requested > proposed ==> id >= proposed)
    decreases requested - proposed
  {
    if requested > proposed then
      if srcSize <= maxBlockSize then proposed else OptimalFrom(requested, srcSize, proposed + 1, 4 * maxBlockSize)
    else requested
  }

  /** The cost of `j` blocks that hold `g` bytes. */
  function BlocksSize(prefs: Preferences, j: nat, g: nat): nat {
    j * (4 + prefs.info.Crc()) + g
  }

  /** Full blocks, as many as there are, stay within the bound; so does a last one that is not
      full, if it is flushed. */
  lemma WithinBound(prefs: Preferences, srcSize: nat, buffered: nat, j: nat, g: nat, n: nat)
    requires buffered < prefs.info.MaxBlock() && g == j * prefs.info.MaxBlock() && g + n <= srcSize + buffered
    requires n == 0 || n == prefs.info.MaxBlock() || (prefs.autoFlush && 0 < n < prefs.info.MaxBlock() && g + n == srcSize + buffered)
    ensures BlocksSize(prefs, if n > 0 then j + 1 else j, g + n) + FrameEnd(prefs) <= BoundInternal(srcSize, prefs, buffered)
  {
    hide FrameInfo.MaxBlock, FrameInfo.Crc, FrameEnd;
    var b, total, crc := prefs.info.MaxBlock(), srcSize + buffered, 4 + prefs.info.Crc();
    var full, k := total / b, if n == b then j + 1 else j;
    var last := if prefs.autoFlush || srcSize == 0 then total % b else 0;
    var blocks := full + if last > 0 then 1 else 0;
    assert BoundInternal(srcSize, prefs, buffered) == crc * blocks + b * full + last + FrameEnd(prefs);
    OneBlockMore(j, b);
    DivisionFacts(total, b, k);
    MulLe(b, k, full);
    if 0 < n < b {
      Remainder(total, b, j, n);
    }
    MulLe(crc, if n > 0 then j + 1 else j, blocks);
  }

  /** LZ4F_compressBound: whatever may be buffered already. */
  function PublicBound(srcSize: nat, prefs: Preferences): nat {
    BoundInternal(srcSize, prefs, prefs.info.MaxBlock() - 1)
  }

  /** Room for the public bound is room for every state of the buffer. */
  lemma PublicBoundHolds(srcSize: nat, prefs: Preferences, buffered: nat)
    requires buffered < prefs.info.MaxBlock()
    ensures BoundInternal(srcSize, prefs, buffered) <= PublicBound(srcSize, prefs)
  {
    hide FrameInfo.MaxBlock, FrameInfo.Crc, FrameEnd, BoundInternal;
    var b, crc, x, y := prefs.info.MaxBlock(), 4 + prefs.info.Crc(), srcSize + buffered, srcSize + (prefs.info.MaxBlock() - 1);
    BoundIs(srcSize, prefs, buffered);
    BoundIs(srcSize, prefs, b - 1);
    Blocks(x, y, b);
    if prefs.autoFlush || srcSize == 0 {
      MulLe(crc, (x + (b - 1)) / b, (y + (b - 1)) / b);
    } else {
      MulLe(crc, x / b, y / b);
      MulLe(b, x / b, y / b);
    }
  }

  lemma BoundIs(srcSize: nat, prefs: Preferences, buffered: nat)
    requires buffered < prefs.info.MaxBlock()
    ensures var b, crc, x := prefs.info.MaxBlock(), 4 + prefs.info.Crc(), srcSize + buffered;
            BoundInternal(srcSize, prefs, buffered) == FrameEnd(prefs)
              + if prefs.autoFlush || srcSize == 0 then crc * ((x + (b - 1)) / b) + x else crc * (x / b) + b * (x / b)
  {
    hide FrameInfo.MaxBlock, FrameInfo.Crc, FrameEnd;
    Blocks(srcSize + buffered, srcSize + buffered, prefs.info.MaxBlock());
  }

  /** LZ4F_compressEnd, which may have to flush a block that is not full, stays within the public
      bound for no input. */
  lemma EndWithinBound(prefs: Preferences, buffered: nat)
    requires buffered < prefs.info.MaxBlock()
    ensures (if buffered > 0 then 4 + buffered + prefs.info.Crc() else 0) + FrameEnd(prefs) <= PublicBound(0, prefs)
  {
    hide FrameInfo.MaxBlock, FrameInfo.Crc, FrameEnd, BoundInternal;
    var b := prefs.info.MaxBlock();
    BoundIs(0, prefs, b - 1);
    RoundUp(b - 1, b);
    Remainder0(b);
  }

  /** Full blocks, and blocks altogether, of more and of less content. */
  lemma Blocks(x: nat, y: nat, b: nat)
    requires 0 < b && x <= y
    ensures x / b <= y / b && (x + (b - 1)) / b <= (y + (b - 1)) / b
    ensures (x + (b - 1)) / b == x / b + (if x % b > 0 then 1 else 0) && (y + (b - 1)) / b == y / b + (if y % b > 0 then 1 else 0)
    ensures b * (x / b) + x % b == x && b * (y / b) + y % b == y
  {
    RoundUp(x, b);
    RoundUp(y, b);
    DivisionMonotone(x, y, b);
    DivisionMonotone(x + (b - 1), y + (b - 1), b);
  }

  lemma DivisionMonotone(x: nat, y: nat, b: nat)
    requires 0 < b && x <= y
    ensures x / b <= y / b
  {
    assert (x / b) * b <= y;
    DivisionFacts(y, b, x / b);
  }

  lemma RoundUp(x: nat, b: nat)
    requires 0 < b
    ensures (x + (b - 1)) / b == x / b + if x % b > 0 then 1 else 0
  {
    var q, r := x / b, x % b;
    if r > 0 {
      assert x + (b - 1) == (q + 1) * b + (r - 1);
      Quotient(x + (b - 1), b, q + 1, r - 1);
    } else {
      assert x + (b - 1) == q * b + (b - 1);
      Quotient(x + (b - 1), b, q, b - 1);
    }
  }

  lemma Quotient(x: nat, b: nat, q: nat, r: nat)
    requires 0 < b && x == q * b + r && r < b
    ensures x / b == q
  {
    var q', r' := x / b, x % b;
    assert (q - q') * b == r' - r;
    MultipleWithin(q - q', b, r' - r);
  }

  lemma Remainder0(b: nat)
    requires 0 < b
    ensures (b - 1) / b == 0 && (b - 1) % b == b - 1
  {
  }

  lemma MulLe(a: nat, x: nat, y: nat)
    requires x <= y
    ensures a * x <= a * y && x * a <= y * a
  {
  }

  lemma SameIn(m0: seq<byte>, m1: seq<byte>, lo: nat, hi: nat, a: nat, b: nat)
    requires |m1| == |m0| && lo <= a <= b <= hi && b <= |m0| && forall i :: 0 <= i < |m0| && lo <= i < hi ==> m1[i] == m0[i]
    ensures m1[a..b] == m0[a..b]
  {
    var x, y := m1[a..b], m0[a..b];
    forall i: nat | i < b - a ensures x[i] == y[i] {
      assert m1[a + i] == m0[a + i];
    }
  }

  lemma Regroup(t: seq<byte>, a: seq<byte>, c: seq<byte>, y: seq<byte>, x: seq<byte>)
    requires t + a == c + y
    ensures (t + a) + x == t + (a + x) && (t + a) + x == c + (y + x)
  {
    assert (t + a) + x == t + (a + x);
    assert (c + y) + x == c + (y + x);
  }

  lemma Split(m: seq<byte>, a: nat, b: nat, c: nat)
    requires a <= b <= c <= |m|
    ensures m[a..c] == m[a..b] + m[b..c]
  {
  }

  lemma CountOn(before: nat, n: nat)
    ensures (before % TWO64 + n) % TWO64 == (before + n) % TWO64
  {
    var q, r := before / TWO64, before % TWO64 + n;
    assert before + n == q * TWO64 + r;
    Multiples(q, r);
  }

  lemma InsideOf(m: seq<byte>, p: Past, c: seq<byte>)
    ensures Recalls(m, p, c) || RecallsAll(m, p, c) ==> p.Inside(|m|)
  {
  }

  lemma AllIsLess(m: seq<byte>, p: Past, c: seq<byte>)
    ensures RecallsAll(m, p, c) ==> Recalls(m, p, c)
  {
    hide RecallsAll, Recalls;
    if RecallsAll(m, p, c) {
      RecallsLess(m, p, c);
    }
  }

  lemma OneBlockMore(j: nat, unit: nat)
    ensures (j + 1) * unit == j * unit + unit
  {
  }

  lemma DivisionFacts(total: nat, b: nat, k: nat)
    requires b > 0 && k * b <= total
    ensures k <= total / b
  {
    var q, r := total / b, total % b;
    assert (k - q) * b <= r;
    AtMostNone(k - q, b, r);
  }

  lemma AtMostNone(k: int, b: nat, d: int)
    requires k * b <= d && d < b
    ensures k <= 0
  {
  }

  lemma Remainder(total: nat, b: nat, j: nat, n: nat)
    requires 0 < n < b && j * b + n == total
    ensures total / b == j && total % b == n
  {
    var q, r := total / b, total % b;
    assert (q - j) * b == n - r;
    MultipleWithin(q - j, b, n - r);
  }

  lemma MultipleWithin(k: int, b: nat, d: int)
    requires k * b == d && d < b && 0 < d + b
    ensures k == 0
  {
  }

  /** A block size that the source fits in costs no more than a larger one. */
  lemma OptimalKeepsBound(prefs: Preferences, srcSize: nat)
    requires prefs.info.Valid()
    ensures var id := OptimalBSID(prefs.info.blockSizeID, srcSize);
            var prefs' := prefs.(info := prefs.info.(blockSizeID := id));
            prefs'.info.Valid() && FrameBound(srcSize, prefs') == FrameBound(srcSize, prefs)
  {
    var id := OptimalBSID(prefs.info.blockSizeID, srcSize);
    if id < prefs.info.blockSizeID {
      OptimalFits(prefs.info.blockSizeID, srcSize);
      OneBlock(prefs.(info := prefs.info.(blockSizeID := id), autoFlush := true), srcSize);
      OneBlock(prefs.(autoFlush := true), srcSize);
    }
  }

  lemma OptimalFits(requested: nat, srcSize: nat)
    requires 4 <= requested <= 7 && OptimalBSID(requested, srcSize) < requested
    ensures var id := OptimalBSID(requested, srcSize);
            4 <= id && forall info: FrameInfo :: 
              (info.blockSizeID == id || info.blockSizeID == requested) ==> srcSize <= info.MaxBlock()
  {
    assert OptimalFrom(requested, srcSize, 4, 0x1_0000)
        == if srcSize <= 0x1_0000 then 4 else OptimalFrom(requested, srcSize, 5, 0x4_0000);
    if requested > 5 {
      assert OptimalFrom(requested, srcSize, 5, 0x4_0000)
          == if srcSize <= 0x4_0000 then 5 else OptimalFrom(requested, srcSize, 6, 0x10_0000);
    }
  }

  lemma OneBlock(prefs: Preferences, srcSize: nat)
    requires prefs.autoFlush && srcSize <= prefs.info.MaxBlock()
    ensures BoundInternal(srcSize, prefs, 0) == (if srcSize > 0 then 4 + prefs.info.Crc() else 0) + srcSize + FrameEnd(prefs)
  {
    var b := prefs.info.MaxBlock();
    if srcSize == b {
      assert srcSize / b == 1 && srcSize % b == 0;
    } else {
      assert srcSize / b == 0 && srcSize % b == srcSize;
    }
  }

  // ---------------------------------------------------------------- the compressor

  /** What a call returns.  After a call that has run away nothing is defined any more. */
  datatype WriteResult = Refused | Written(size: nat) | Undefined

  /** The default block size in place of none. */
  function Effective(p: Preferences): Preferences {
    if p.info.blockSizeID == 0 then p.(info := p.info.(blockSizeID := 4)) else p
  }

  /** `done` has been written at `dst`, up to `p`, and nothing else. */
  ghost predicate PutAt(m0: seq<byte>, m: seq<byte>, dst: nat, p: nat, done: seq<byte>) {
    dst <= p <= |m| && m[dst..p] == done && SameOutside(m0, m, dst, p)
  }

  /** Puts a little-endian field behind what is written already. */
  method Put(mem: array<byte>, ghost m0: seq<byte>, dst: nat, p: nat, v: nat, n: nat, ghost done: seq<byte>)
    requires PutAt(m0, mem[..], dst, p, done) && p + n <= mem.Length
    modifies mem
    ensures PutAt(m0, mem[..], dst, p + n, done + LeBytes(v, n))
    decreases n
  {
    if n > 0 {
      mem[p] := v % 256;
      assert mem[dst..p + 1] == done + [v % 256];
      Put(mem, m0, dst, p + 1, v / 256, n - 1, done + [v % 256]);
      assert (done + [v % 256]) + LeBytes(v / 256, n - 1) == done + LeBytes(v, n);
    } else {
      assert done + LeBytes(v, n) == done;
    }
  }

  lemma OneByte(b: byte)
    ensures LeBytes(b, 1) == [b]
  {
    assert LeBytes(b, 1) == [b % 256] + LeBytes(b / 256, 0);
  }

  /** The frame header. */
  method WriteHeader(mem: array<byte>, dst: nat, info: FrameInfo) returns (n: nat)
    requires info.Valid() && dst + MAX_FH_SIZE <= mem.Length
    modifies mem
    ensures n <= MAX_FH_SIZE && dst + n <= mem.Length && mem[dst..dst + n] == HeaderBytes(info)
    ensures SameOutside(old(mem[..]), mem[..], dst, dst + n)
  {
    hide LeBytes, HeaderChecksum, SameOutside, PutAt, HeaderBytes;
    ghost var m0 := mem[..];
    Nothing(m0, dst);
    Put(mem, m0, dst, dst, MAGICNUMBER, 4, []);
    var p, flg: nat := dst + 4, 64 + Bit(!info.linked) * 32 + Bit(info.blockChecksum) * 16 + Bit(info.contentSize > 0) * 8
                                + Bit(info.contentChecksum) * 4 + Bit(info.dictID > 0);
    ghost var done := [] + LeBytes(MAGICNUMBER, 4);
    Put(mem, m0, dst, p, flg, 1, done);
    Put(mem, m0, dst, p + 1, info.blockSizeID * 16, 1, done + LeBytes(flg, 1));
    done, p := (done + LeBytes(flg, 1)) + LeBytes(info.blockSizeID * 16, 1), p + 2;
    if info.contentSize > 0 {
      Put(mem, m0, dst, p, info.contentSize, 8, done);
      done, p := done + LeBytes(info.contentSize, 8), p + 8;
    }
    if info.dictID > 0 {
      Put(mem, m0, dst, p, info.dictID, 4, done);
      done, p := done + LeBytes(info.dictID, 4), p + 4;
    }
    HeaderDone(m0, mem[..], dst, p, info, flg, done);
    var crc: nat := HeaderChecksum(mem[dst + 4..p]);
    Put(mem, m0, dst, p, crc, 1, done);
    n := p + 1 - dst;
    HeaderIs(m0, mem[..], dst, p, info, crc, done);
  }

  lemma Nothing(m: seq<byte>, dst: nat)
    requires dst <= |m|
    ensures PutAt(m, m, dst, dst, [])
  {
  }

  lemma PutDone(m0: seq<byte>, m: seq<byte>, dst: nat, p: nat, done: seq<byte>)
    requires PutAt(m0, m, dst, p, done)
    ensures dst <= p <= |m| && m[dst..p] == done && SameOutside(m0, m, dst, p)
  {
  }

  lemma Joined(m0: seq<byte>, m1: seq<byte>, dst: nat, p: nat, n: nat, a0: seq<byte>, a: seq<byte>, e: seq<byte>)
    requires dst <= p <= |m0| && a == a0 + m0[dst..p] && SameOutside(m0, m1, p, p + n) && p + n <= |m1| && m1[p..p + n] == e
    ensures a + e == a0 + m1[dst..p + n]
  {
    SliceKept(m0, m1, p, p + n, dst, p);
    assert m1[dst..p + n] == m1[dst..p] + m1[p..p + n];
  }

  lemma HeaderDone(m0: seq<byte>, m: seq<byte>, dst: nat, p: nat, info: FrameInfo, flg: nat, done: seq<byte>)
    requires info.Valid() && PutAt(m0, m, dst, p, done) && flg < 256 && flg == Descriptor(info)[0]
    requires done == (((([] + LeBytes(MAGICNUMBER, 4)) + LeBytes(flg, 1)) + LeBytes(info.blockSizeID * 16, 1))
                      + (if info.contentSize > 0 then LeBytes(info.contentSize, 8) else []))
                     + (if info.dictID > 0 then LeBytes(info.dictID, 4) else [])
    ensures dst + 4 <= p <= |m| && m[dst + 4..p] == Descriptor(info) && done == LeBytes(MAGICNUMBER, 4) + Descriptor(info)
    ensures p == dst + |done|
  {
    hide SameOutside, LeBytes;
    OneByte(flg);
    OneByte(info.blockSizeID * 16);
    assert done == LeBytes(MAGICNUMBER, 4) + Descriptor(info);
    assert m[dst + 4..p] == m[dst..p][4..];
  }

  lemma HeaderIs(m0: seq<byte>, m: seq<byte>, dst: nat, p: nat, info: FrameInfo, crc: byte, done: seq<byte>)
    requires info.Valid() && done == LeBytes(MAGICNUMBER, 4) + Descriptor(info) && p == dst + |done|
    requires PutAt(m0, m, dst, p + 1, done + LeBytes(crc, 1)) && crc == HeaderChecksum(Descriptor(info))
    ensures p + 1 - dst <= MAX_FH_SIZE && p + 1 <= |m| && m[dst..p + 1] == HeaderBytes(info) && SameOutside(m0, m, dst, p + 1)
  {
    hide SameOutside, HeaderChecksum;
    OneByte(crc);
    HeaderLength(info);
  }

  lemma OneMore(info: FrameInfo, bs: seq<FrameBlock>, b: FrameBlock)
    ensures Content(bs + [b]) == Content(bs) + b.data && |Content(bs + [b])| == |Content(bs)| + |b.data|
    ensures AllBlockBytes(info, bs + [b]) == AllBlockBytes(info, bs) + BlockBytes(info, b)
    ensures ValidBlocks(info, bs) && ValidBlock(info, Content(bs), b) ==> ValidBlocks(info, bs + [b])
  {
    hide BlockBytes, ValidBlock;
    assert (bs + [b])[..|bs|] == bs;
  }

  /** How content is cut, and how reliably compressed. */
  function ModeOf(p: Preferences): (mode: Mode)
    ensures mode.maxBlock > 0
  {
    Mode(p.info.MaxBlock(), p.autoFlush, p.info.linked, p.level < LZ4HC_CLEVEL_MIN, if p.level < -1 then -p.level else 1)
  }

  /** The first blocks are good, and then there is one that does not say its data. */
  ghost predicate HasBad(info: FrameInfo, bs: seq<FrameBlock>) {
    exists i: nat | i < |bs| :: ValidBlocks(info, bs[..i]) && BadBlock(info, Content(bs[..i]), bs[i])
  }

  /** If one of the blocks could not be relied on, and the content was made for that, then it has
      gone wrong. */
  ghost predicate Caught(prefs: Preferences, ps: seq<Piece>, bs: seq<FrameBlock>, clean: bool) {
    var mode := ModeOf(prefs);
    (clean || !Advancing(mode.acceleration)) && !AllSure(mode, ps) && Baited(mode, TrapStart(mode, ps), Content(bs)) ==>
      HasBad(prefs.info, bs)
  }

  lemma CaughtThen(prefs: Preferences, ps: seq<Piece>, p: Piece, bs: seq<FrameBlock>, b: FrameBlock, clean: bool)
    requires Caught(prefs, ps, bs, clean) && (AllSure(ModeOf(prefs), ps) ==> ValidBlocks(prefs.info, bs))
    requires (clean || !Advancing(ModeOf(prefs).acceleration)) && !SurePiece(ModeOf(prefs), ps, p)
               && Baited(ModeOf(prefs), Total(ps), Content(bs) + b.data) ==>
             BadBlock(prefs.info, Content(bs), b)
    ensures Caught(prefs, ps + [p], bs + [b], clean)
  {
    hide ValidBlocks, BadBlock, Content, AllSure, SurePiece, Total, Baited, TrapStart, NoneFar;
    var mode, ps', bs' := ModeOf(prefs), ps + [p], bs + [b];
    OneMorePiece(mode, ps, p);
    OneMore(prefs.info, bs, b);
    if (clean || !Advancing(mode.acceleration)) && !AllSure(mode, ps') && Baited(mode, TrapStart(mode, ps'), Content(bs')) {
      BaitedParts(mode, TrapStart(mode, ps'), Content(bs), b.data);
      if AllSure(mode, ps) {
        assert bs'[..|bs|] == bs && bs'[|bs|] == b;
      } else {
        var i: nat :| i < |bs| && ValidBlocks(prefs.info, bs[..i]) && BadBlock(prefs.info, Content(bs[..i]), bs[i]);
        assert bs'[..i] == bs[..i] && bs'[i] == bs[i];
      }
    }
  }

  lemma CaughtLess(prefs: Preferences, ps: seq<Piece>, bs: seq<FrameBlock>, clean: bool)
    requires Caught(prefs, ps, bs, clean)
    ensures Caught(prefs, ps, bs, false)
  {
    hide HasBad, Baited, AllSure, TrapStart;
  }

  /** What the last block written in a call was made of. */
  datatype LastBlock = NotDone | FromTmpBuffer | FromSrcBuffer

  /** One call: its input and its room for output, memory and content at its beginning. */
  datatype UpdateCall = UpdateCall(src: nat, srcEnd: nat, dst: nat, dstEnd: nat,
                       ghost m0: seq<byte>, ghost bs0: seq<FrameBlock>, ghost taken0: seq<byte>, ghost buffered0: nat)

  class FrameCompressor {
    const tmpBuff: nat
    const stream: BlockStream
    const xxh: HashState
    var prefs: Preferences
    var cStage: nat
    var maxBlockSize: nat
    var maxBufferSize: nat
    var tmpIn: nat
    var tmpInSize: nat
    var totalInSize: nat
    ghost var bs: seq<FrameBlock>      // the blocks written of this frame
    ghost var taken: seq<byte>         // the content taken in
    ghost var pieces: seq<Piece>       // how they were cut
    ghost var extent: HcStream.Extent  // how far the HC stream has come
    ghost var clean: bool              // the buffer began with zeros, and no promise was made about input

    predicate Objects(mem: array<byte>) {
      && mem != xxh.buffer && xxh.w == W32 && xxh.buffer.Length == StripeSize(W32) && stream.Separate()
    }

    predicate Layout(size: nat)
      reads `maxBufferSize
    {
      0 < tmpBuff && tmpBuff + TMP_MAX + 3 <= size && maxBufferSize <= TMP_MAX
    }

    /** Clear of the buffer, with a gap. */
    predicate Outside(lo: int, hi: int) {
      hi < tmpBuff || tmpBuff + TMP_MAX < lo
    }

    ghost predicate Offsets()
      reads `prefs, `pieces, stream.fast
    {
      OffsetIs(stream.fast.currentOffset, stream.fast.dictSize, pieces)
    }

    /** What holds between a frame's beginning and its end: the blocks are good as long as all of
        them can be relied on; and if one cannot, there is content that has made one go wrong. */
    ghost predicate Common()
      reads `prefs, `bs, `pieces, `extent, `clean, `maxBlockSize, stream`level, stream.fast, stream.hc
    {
      && stream.level == prefs.level && prefs.info.Valid() && maxBlockSize == prefs.info.MaxBlock()
      && (AllSure(ModeOf(prefs), pieces) ==> ValidBlocks(prefs.info, bs)) && Total(pieces) == |Content(bs)| && Offsets()
      && Caught(prefs, pieces, bs, clean) && Extents()
    }

    ghost predicate Extents()
      reads `prefs, `extent, stream.hc
    {
      prefs.info.linked && prefs.level >= LZ4HC_CLEVEL_MIN ==> stream.HasExtent(extent) && (extent.index > 0 ==> extent.prefix > 0)
    }

    /** History in the buffer, right before what is buffered. */
    ghost predicate InTmp(m: seq<byte>, p: Past, c: seq<byte>, at: nat) {
      tmpBuff <= p.start && p.end == at <= tmpBuff + TMP_MAX && RecallsAll(m, p, c) && p.ExtApart(tmpBuff, tmpBuff + TMP_MAX)
    }

    /** As long as nothing but up to three zeros has been taken, there are zeros behind whatever is
        in the buffer. */
    ghost predicate Blank(m: seq<byte>, at: nat, taken: seq<byte>, c: seq<byte>)
      reads `clean
    {
      clean && |taken| <= 3 && taken == Zeros(|taken|) ==>
        at <= tmpBuff + |c| && |c| <= |taken| && tmpBuff + BLANK <= |m| && m[tmpBuff..tmpBuff + BLANK] == Zeros(BLANK)
    }

    /** History in the caller's memory. */
    ghost predicate Away(m: seq<byte>, p: Past, c: seq<byte>) {
      Outside(p.start, p.end) && Recalls(m, p, c)
    }

    /** The history of linked blocks is where the next block, which is going to be made of the
        `size` bytes buffered at `at`, or straight from the input if there are none, will find it. */
    ghost predicate Keeps(m: seq<byte>, p: Past, c: seq<byte>, at: nat, size: nat) {
      || InTmp(m, p, c, at)
      || (at == tmpBuff && Away(m, p, c) && (size == 0 ==> RecallsAll(m, p, c)))
    }

    /** The buffer, and what is in it. */
    predicate Buffers()
      reads `prefs, `maxBlockSize, `maxBufferSize, `tmpIn, `tmpInSize
    {
      && Required(prefs) <= maxBufferSize && tmpInSize <= maxBlockSize && (prefs.autoFlush ==> tmpInSize == 0)
      && tmpBuff <= tmpIn <= tmpBuff + maxBufferSize && (!prefs.info.linked ==> tmpIn == tmpBuff)
    }

    /** There is room in the buffer for a whole block, unless nothing is ever buffered. */
    predicate WithinLimits()
      reads `prefs, `maxBlockSize, `maxBufferSize, `tmpIn
    {
      prefs.autoFlush || tmpIn + maxBlockSize <= tmpBuff + maxBufferSize
    }

    /** The context within a frame, between two calls. */
    ghost predicate Valid(m: seq<byte>)
      reads this, stream, stream.fast, stream.fast.hashTable, stream.hc, stream.hc.hashTable, stream.hc.chainTable, xxh, xxh.buffer
    {
      && cStage == 1 && Layout(|m|) && Common() && stream.Good(|m|) && Buffers() && WithinLimits() && tmpInSize < maxBlockSize
      && tmpIn + tmpInSize <= |m| && taken == Content(bs) + m[tmpIn..tmpIn + tmpInSize] && Blank(m, tmpIn, taken, Content(bs))
      && (clean ==> Unattached())
      && (prefs.info.linked ==> Keeps(m, stream.Remembers(), Content(bs), tmpIn, tmpInSize))
      && (prefs.info.contentChecksum ==> xxh.Valid() && xxh.seed == 0 && xxh.seen == taken)
      && (prefs.info.contentSize > 0 ==> totalInSize == |taken| % TWO64)
    }

    constructor (tmpBuff: nat)
      ensures this.tmpBuff == tmpBuff && maxBufferSize == 0 && fresh(stream) && fresh(stream.fast) && fresh(stream.fast.hashTable)
      ensures fresh(stream.hc) && fresh(stream.hc.hashTable) && fresh(stream.hc.chainTable) && fresh(xxh) && fresh(xxh.buffer)
      ensures forall mem: array<byte> :: allocated(mem) && !fresh(mem) ==> Objects(mem)
      ensures forall size: nat :: size >= 3 ==> stream.Good(size)
    {
      this.tmpBuff := tmpBuff;
      stream := new BlockStream();
      xxh := new HashState(W32);
      prefs := Preferences(NO_INFO, 0, false);
      cStage, maxBlockSize, maxBufferSize, tmpIn, tmpInSize, totalInSize := 0, 0, 0, 0, 0, 0;
      bs, taken, pieces, extent, clean := [], [], [], HcStream.UNUSED, false;
    }

    // -------------------------------------------------------------- one block

    /** The next block, made at `src`, is going to be far from its history. */
    ghost predicate IsFar(src: nat)
      reads `prefs, `pieces, stream`level, stream.fast, stream.hc
    {
      prefs.info.linked && prefs.level < LZ4HC_CLEVEL_MIN && stream.Remembers().end != src && 1 <= Total(pieces) <= 3
    }

    /** Then history, being zeros, is followed by zeros. */
    ghost predicate ZerosBehind(m: seq<byte>, src: nat)
      reads `prefs, `bs, `pieces, `clean, stream`level, stream.fast, stream.hc
    {
      clean && IsFar(src) && Content(bs) == Zeros(|Content(bs)|) ==>
        var lo, hi := stream.fast.dictionary, stream.fast.dictionary + stream.fast.dictSize + 3;
        hi <= |m| && m[lo..hi] == Zeros(hi - lo)
    }

    /** LZ4F_makeBlock for the next `n` bytes of content, at `src`. */
    method Emit(mem: array<byte>, dst: nat, src: nat, n: nat) returns (size: nat)
      requires Common() && stream.Good(mem.Length) && BlockReady(stream, prefs.info.linked, mem.Length, src, n, dst) && n <= maxBlockSize
      requires prefs.info.linked ==>
        var p, c := stream.Remembers(), Content(bs);
        if src == p.end then RecallsAll(mem[..], p, c) else Recalls(mem[..], p, c)
      requires ZerosBehind(mem[..], src)
      modifies stream.fast, stream.fast.hashTable, stream.hc, stream.hc.hashTable, stream.hc.chainTable, mem, `bs, `pieces, `extent
      ensures Common() && stream.Good(mem.Length) && SameOutside(old(mem[..]), mem[..], dst, dst + Reach(n))
      ensures size <= 4 + n + prefs.info.Crc() && size <= Reach(n)
      ensures Content(bs) == old(Content(bs)) + old(mem[src..src + n]) && pieces == old(pieces) + [Piece(n, old(IsFar(src)))]
      ensures AllBlockBytes(prefs.info, bs) == old(AllBlockBytes(prefs.info, bs)) + mem[dst..dst + size]
      ensures prefs.info.linked ==>
        RecallsAll(mem[..], stream.Remembers(), Content(bs)) && Follows(old(stream.Remembers()), stream.Remembers(), src, n)
      ensures extent == HcStream.NextExtent(old(extent), old(stream.Remembers().end) == src, n)
    {
      hide BlockStream.HasExtent, HcStream.NextExtent, BlockStream.Good, RecallsAll, Recalls, Follows, Reliable,
           Snare, SameOutside, ValidBlock, BadBlock, Content, AllBlockBytes, OffsetIs, ValidBlocks, PastReady, Caught,
           AllSure, SurePiece, Total, NoneFar, Baited, IsFar, ZerosBehind, BlockStream.Counts, BlockStream.Remembers,
           Advancing, FrameInfo.Valid, FrameInfo.MaxBlock;
      ghost var b, bs0, ps, p, m := Raw([]), bs, pieces, Piece(n, IsFar(src)), mem[..];
      ghost var offset, dictSize, near := stream.fast.currentOffset, stream.fast.dictSize, stream.Remembers().end == src;
      FarIs(src);
      BeforeEmit(m, src, n);
      size, b := MakeBlock(mem, stream, prefs.info, dst, src, n, Content(bs), extent);
      NextExtentPositive(extent, near, n);
      OneMore(prefs.info, bs, b);
      OneMorePiece(ModeOf(prefs), ps, p);
      OffsetThen(offset, dictSize, near, src, n);
      assert m[src..src + n] == b.data;
      CaughtThen(prefs, ps, p, bs, b, clean);
      bs, pieces, extent := bs + [b], ps + [p], HcStream.NextExtent(extent, near, n);
    }

    lemma FarIs(src: nat)
      ensures IsFar(src) == (prefs.info.linked && prefs.level < LZ4HC_CLEVEL_MIN && !(stream.Remembers().end == src) && 1 <= Total(pieces) <= 3)
    {
    }

    lemma BeforeEmit(m: seq<byte>, src: nat, n: nat)
      requires Common() && stream.Good(|m|) && 0 < n && src + n <= |m| && ZerosBehind(m, src)
      requires prefs.info.linked ==>
        var p, c := stream.Remembers(), Content(bs);
        if src == p.end then RecallsAll(m, p, c) else Recalls(m, p, c)
      ensures stream.fast.dictionary + stream.fast.dictSize + 3 <= |m|
      ensures var mode, p := ModeOf(prefs), Piece(n, IsFar(src));
              && (SurePiece(mode, pieces, p) ==> Reliable(stream, prefs.info.linked, src, n))
              && ((clean || !Advancing(mode.acceleration)) && !SurePiece(mode, pieces, p)
                  && Baited(mode, Total(pieces), Content(bs) + m[src..src + n]) ==>
                    Snare(stream, prefs.info.linked, m, src, n))
    {
      hide BlockStream.Remembers, RecallsAll, Recalls, Content, ValidBlocks, AllSure, SurePiece, Total, NoneFar,
           Caught, Baited, IsFar, ZerosBehind, Reliable, Snare, Advancing, OffsetIs;
      var mode, p := ModeOf(prefs), Piece(n, IsFar(src));
      if SurePiece(mode, pieces, p) {
        SureIsReliable(src, n);
      } else if (clean || !Advancing(mode.acceleration)) && Baited(mode, Total(pieces), Content(bs) + m[src..src + n]) {
        if prefs.info.linked && src == stream.Remembers().end {
          RecallsLess(m, stream.Remembers(), Content(bs));
        }
        BaitIsSnare(m, src, n);
      }
    }

    lemma SureIsReliable(src: nat, n: nat)
      requires Common() && n > 0 && SurePiece(ModeOf(prefs), pieces, Piece(n, IsFar(src)))
      ensures Reliable(stream, prefs.info.linked, src, n)
    {
      hide Advancing, Content, ValidBlocks, AllSure, Total, Caught, NoneFar;
    }

    lemma BaitIsSnare(m: seq<byte>, src: nat, n: nat)
      requires Common() && stream.fast.dictionary + stream.fast.dictSize + 3 <= |m| && src + n <= |m|
      requires prefs.info.linked ==> Recalls(m, stream.Remembers(), Content(bs))
      requires ZerosBehind(m, src) && (clean || !Advancing(ModeOf(prefs).acceleration)) && !SurePiece(ModeOf(prefs), pieces, Piece(n, IsFar(src)))
      requires Baited(ModeOf(prefs), Total(pieces), Content(bs) + m[src..src + n])
      ensures Snare(stream, prefs.info.linked, m, src, n)
    {
      hide Advancing, Content, ValidBlocks, AllSure, Total, Caught, NoneFar, Confusing, Streaming.Overruns, OffsetIs,
           Baited, Streaming.OneThenZeros, Counting;
      var mode, c, data, k := ModeOf(prefs), Content(bs), m[src..src + n], stream.fast.dictSize;
      BaitedParts(mode, Total(pieces), c, data);
      if !Advancing(mode.acceleration) {
        CountingConfuses([], n);
        if prefs.info.linked {
          ZerosRecalled(m, stream.Remembers(), c);
          CountingConfuses(m[stream.fast.dictionary..stream.fast.dictionary + k], n);
        }
      } else {
        SmallFacts();
        Streaming.OneThenZerosOverruns(m, stream.fast.dictionary, k, src, n);
      }
    }

    lemma ZerosRecalled(m: seq<byte>, p: Past, c: seq<byte>)
      requires Recalls(m, p, c) && c == Zeros(|c|)
      ensures 2 !in m[p.start..p.end] && 3 !in m[p.start..p.end]
    {
      var x := m[p.start..p.end];
      assert forall i :: 0 <= i < |x| ==> x[i] == c[|c| - |x| + i] == 0;
    }

    lemma SmallFacts()
      requires Common() && prefs.info.linked && prefs.level < LZ4HC_CLEVEL_MIN && 1 <= Total(pieces) <= 3 && NoneFar(pieces)
      ensures stream.fast.currentOffset == stream.fast.dictSize == Total(pieces)
    {
      hide Content, ValidBlocks, AllSure, Total, Caught, NoneFar;
    }

    /** The stream's index of the next byte, and the size of its dictionary, while they are small. */
    ghost predicate OffsetIs(offset: nat, dictSize: nat, ps: seq<Piece>)
      reads `prefs
    {
      prefs.info.linked && prefs.level < LZ4HC_CLEVEL_MIN ==>
        if Total(ps) <= 3 then offset == Total(ps) && if NoneFar(ps) then dictSize == Total(ps) else 0 < dictSize < Total(ps)
        else offset > 3
    }

    lemma OffsetThen(before: nat, dictSize: nat, near: bool, src: nat, n: nat)
      requires OffsetIs(before, dictSize, pieces) && stream.level == prefs.level && n > 0
      requires prefs.info.linked && !stream.UsesHc() ==> stream.Counts(before, dictSize, near, n)
      ensures var far := prefs.info.linked && prefs.level < LZ4HC_CLEVEL_MIN && !near && 1 <= Total(pieces) <= 3;
              OffsetIs(stream.fast.currentOffset, stream.fast.dictSize, pieces + [Piece(n, far)])
    {
      hide Total, NoneFar, AllSure;
      var far := prefs.info.linked && prefs.level < LZ4HC_CLEVEL_MIN && !near && 1 <= Total(pieces) <= 3;
      OneMorePiece(ModeOf(prefs), pieces, Piece(n, far));
    }

    // -------------------------------------------------------------- the beginning of a frame

    /** LZ4F_compressBegin. */
    method Begin(mem: array<byte>, dst: nat, dstCapacity: nat, preferences: Preferences) returns (res: WriteResult)
      requires Objects(mem) && Layout(mem.Length) && stream.Good(mem.Length) && dst + dstCapacity <= mem.Length
      requires Effective(preferences).info.Valid()
      modifies this, stream, stream.fast, stream.fast.hashTable, stream.hc, xxh, mem
      ensures !res.Undefined? && (res.Refused? <==> dstCapacity < MAX_FH_SIZE)
      ensures res.Written? ==>
        && cStage == 1 && Valid(mem[..]) && prefs == Effective(preferences) && bs == [] && taken == [] && pieces == [] && extent == HcStream.UNUSED && Unattached()
        && res.size <= MAX_FH_SIZE && mem[dst..dst + res.size] == HeaderBytes(prefs.info)
        && SameOutside(old(mem[..]), mem[..], dst, dst + res.size)
        && (clean <==> mem[tmpBuff..tmpBuff + BLANK] == Zeros(BLANK))
    {
      hide Layout, BlockStream.Good, SameOutside, HeaderBytes, Fresh, Effective, HashState.Valid, FrameInfo.Valid,
           Unattached;
      if dstCapacity < MAX_FH_SIZE {
        return Refused;
      }
      SetUp(mem, preferences);
      var n := WriteHeader(mem, dst, prefs.info);
      LayoutIs(mem.Length);
      clean := mem[tmpBuff..tmpBuff + BLANK] == Zeros(BLANK);
      Begun(mem[..]);
      res := Written(n);
    }

    lemma LayoutIs(size: nat)
      requires Fresh(size)
      ensures tmpBuff + BLANK <= size
    {
      hide HashState.Valid, BlockStream.Good, FrameInfo.MaxBlock;
    }

    /** Buffers, hash and stream are made ready. */
    method SetUp(mem: array<byte>, preferences: Preferences)
      requires Objects(mem) && Layout(mem.Length) && stream.Good(mem.Length) && Effective(preferences).info.Valid()
      modifies this, stream, stream.fast, stream.fast.hashTable, stream.hc, xxh
      ensures Fresh(mem.Length) && prefs == Effective(preferences) && bs == [] && taken == [] && pieces == [] && extent == HcStream.UNUSED
    {
      hide HashState.Valid, BlockStream.Good, FrameInfo.MaxBlock, FrameInfo.Valid, Layout, Required,
           BlockStream.Remembers, Fresh, Effective;
      SetUpFields(preferences, mem.Length);
      SetUpStates(mem);
      MakeFresh(mem.Length);
    }

    method SetUpFields(preferences: Preferences, ghost size: nat)
      requires Layout(size) && Effective(preferences).info.Valid()
      modifies this
      ensures cStage == 1 && Layout(size) && prefs == Effective(preferences) && maxBlockSize == prefs.info.MaxBlock()
      ensures Required(prefs) <= maxBufferSize && tmpIn == tmpBuff && tmpInSize == 0 && bs == [] && taken == [] && pieces == []
      ensures extent == HcStream.UNUSED
      ensures prefs.info.contentSize > 0 ==> totalInSize == 0
    {
      hide FrameInfo.MaxBlock, FrameInfo.Valid, Layout, Required, Effective;
      prefs := Effective(preferences);
      maxBlockSize := prefs.info.MaxBlock();
      cStage := 1;
      bs, taken, pieces, extent, clean := [], [], [], HcStream.UNUSED, false;
      if prefs.info.contentSize > 0 {
        totalInSize := 0;
      }
      SetUpBuffer(size);
    }

    method SetUpBuffer(ghost size: nat)
      requires Layout(size)
      modifies `maxBufferSize, `tmpIn, `tmpInSize
      ensures Layout(size) && Required(prefs) <= maxBufferSize && tmpIn == tmpBuff && tmpInSize == 0
    {
      hide FrameInfo.MaxBlock;
      var requiredBuffSize := Required(prefs);
      if maxBufferSize < requiredBuffSize {
        maxBufferSize := requiredBuffSize;
      }
      tmpIn, tmpInSize := tmpBuff, 0;
    }

    method SetUpStates(mem: array<byte>)
      requires Objects(mem) && stream.Good(mem.Length)
      modifies stream, stream.fast, stream.fast.hashTable, stream.hc, xxh
      ensures stream.Good(mem.Length) && stream.level == prefs.level && xxh.Valid() && xxh.seed == 0 && xxh.seen == []
      ensures prefs.info.linked ==> stream.Remembers() == NO_PAST && stream.fast.currentOffset == 0 && stream.HasExtent(HcStream.UNUSED)
    {
      hide HashState.Valid, BlockStream.Good, BlockStream.Remembers;
      xxh.Reset(0);
      SetUpStream(mem.Length);
    }

    method SetUpStream(ghost size: nat)
      requires stream.Good(size)
      modifies stream, stream.fast, stream.fast.hashTable, stream.hc
      ensures stream.Good(size) && stream.level == prefs.level
      ensures prefs.info.linked ==> stream.Remembers() == NO_PAST && stream.fast.currentOffset == 0 && stream.HasExtent(HcStream.UNUSED)
    {
      hide BlockStream.Good;
      if prefs.info.linked {
        stream.Reset(prefs.level, size);
      } else {
        stream.level := prefs.level;
      }
    }

    lemma MakeFresh(size: nat)
      requires cStage == 1 && Layout(size) && stream.Good(size) && stream.level == prefs.level && prefs.info.Valid()
      requires maxBlockSize == prefs.info.MaxBlock() && Required(prefs) <= maxBufferSize
      requires tmpIn == tmpBuff && tmpInSize == 0 && bs == [] && taken == [] && pieces == [] && extent == HcStream.UNUSED
      requires prefs.info.linked ==> stream.Remembers() == NO_PAST && stream.fast.currentOffset == 0 && stream.HasExtent(HcStream.UNUSED)
      requires xxh.Valid() && xxh.seed == 0 && xxh.seen == [] && (prefs.info.contentSize > 0 ==> totalInSize == 0)
      ensures Fresh(size)
    {
    }

    ghost predicate Fresh(size: nat)
      reads `cStage, `prefs, `maxBlockSize, `maxBufferSize, `tmpIn, `tmpInSize, `totalInSize, `bs, `taken, `pieces, `extent
      reads stream, stream.fast, stream.fast.hashTable, stream.hc, stream.hc.hashTable, stream.hc.chainTable, xxh, xxh.buffer
    {
      && cStage == 1 && Layout(size) && stream.Good(size) && stream.level == prefs.level && prefs.info.Valid()
      && maxBlockSize == prefs.info.MaxBlock() && Required(prefs) <= maxBufferSize
      && tmpIn == tmpBuff && tmpInSize == 0 && bs == [] && taken == [] && pieces == [] && extent == HcStream.UNUSED
      && (prefs.info.linked ==> stream.Remembers() == NO_PAST && stream.fast.currentOffset == 0 && stream.HasExtent(HcStream.UNUSED))
      && xxh.Valid() && xxh.seed == 0 && xxh.seen == [] && (prefs.info.contentSize > 0 ==> totalInSize == 0)
    }

    /** The size of buffer that a frame needs. */
    function Required(p: Preferences): (n: nat)
      ensures n <= TMP_MAX
    {
      if p.autoFlush then if p.info.linked then DICT64K else 0
      else p.info.MaxBlock() + if p.info.linked then 2 * DICT64K else 0
    }

    /** No history is needed from the caller's buffers. */
    predicate Unattached()
      reads `prefs, stream`level, stream.fast, stream.hc
    {
      prefs.info.linked ==> Loose(stream.Remembers())
    }

    predicate Loose(p: Past) {
      p.extLo >= p.extHi && (p.start >= p.end || (tmpBuff <= p.start && p.end <= tmpBuff + TMP_MAX))
    }

    lemma Begun(m: seq<byte>)
      requires Fresh(|m|) && (clean ==> m[tmpBuff..tmpBuff + BLANK] == Zeros(BLANK))
      ensures Valid(m) && Unattached() && Layout(|m|) && cStage == 1
    {
      hide HashState.Valid, BlockStream.Good, FrameInfo.MaxBlock;
    }

    // -------------------------------------------------------------- the state during a call

    ghost predicate Io(size: nat, k: UpdateCall) {
      && 0 < k.src <= k.srcEnd && k.srcEnd + 3 <= size == |k.m0| && k.dst <= k.dstEnd && k.dstEnd + SLACK <= size
      && Disjoint(k.src, k.srcEnd, k.dst, k.dstEnd + SLACK) && Outside(k.src, k.srcEnd) && Outside(k.dst, k.dstEnd + SLACK)
    }

    predicate Writable(k: UpdateCall, i: int) {
      tmpBuff <= i < tmpBuff + TMP_MAX || k.dst <= i < k.dstEnd + SLACK
    }

    ghost predicate Framed(m: seq<byte>, k: UpdateCall) {
      |m| == |k.m0| && forall i :: 0 <= i < |m| && !Writable(k, i) ==> m[i] == k.m0[i]
    }

    lemma Wrote(m0: seq<byte>, m1: seq<byte>, k: UpdateCall, lo: nat, hi: nat)
      requires Framed(m0, k) && SameOutside(m0, m1, lo, hi)
      requires (tmpBuff <= lo && hi <= tmpBuff + TMP_MAX) || (k.dst <= lo && hi <= k.dstEnd + SLACK)
      ensures Framed(m1, k)
    {
    }

    lemma SourceAt(m: seq<byte>, k: UpdateCall, a: nat, b: nat)
      requires Io(|m|, k) && Framed(m, k) && k.src <= a <= b <= k.srcEnd
      ensures m[a..b] == k.m0[a..b]
    {
      var x, y := m[a..b], k.m0[a..b];
      forall i: nat | i < b - a ensures x[i] == y[i] {
        assert m[a + i] == k.m0[a + i];
      }
    }

    /** What was taken of the input: it is in the blocks written, or in the buffer. */
    ghost predicate Input(m: seq<byte>, k: UpdateCall, srcPtr: nat, g: nat, taken: seq<byte>, c: seq<byte>, at: nat, size: nat) {
      && k.src <= srcPtr <= k.srcEnd <= |k.m0| && taken == k.taken0 + k.m0[k.src..srcPtr]
      && at + size <= |m| && taken == c + m[at..at + size]
      && k.buffered0 + (srcPtr - k.src) == g + size
    }

    /** What was written: `j` blocks that hold `g` bytes. */
    ghost predicate Output(m: seq<byte>, k: UpdateCall, dstPtr: nat, j: nat, g: nat, prefs: Preferences, bs: seq<FrameBlock>) {
      && k.dst <= dstPtr <= k.dstEnd <= |m| && dstPtr - k.dst <= BlocksSize(prefs, j, g)
      && AllBlockBytes(prefs.info, bs) == AllBlockBytes(prefs.info, k.bs0) + m[k.dst..dstPtr]
    }

    /** The history of linked blocks: as between calls, or, once a block was made straight from
        the input, in the caller's memory, all of it. */
    ghost predicate History(m: seq<byte>, k: UpdateCall, srcPtr: nat, direct: bool, p: Past, c: seq<byte>, at: nat, size: nat) {
      && p.Apart(k.dst, k.dstEnd + SLACK) && p.ExtApart(k.dst, k.dstEnd + SLACK) && p.Apart(srcPtr, k.srcEnd)
      && if direct then p.end == srcPtr && Away(m, p, c) && RecallsAll(m, p, c) && p.start < p.end && size == 0 else Keeps(m, p, c, at, size)
    }

    ghost predicate Mid(m: seq<byte>, k: UpdateCall, srcPtr: nat, dstPtr: nat, j: nat, g: nat, direct: bool)
      reads `prefs, `bs, `taken, `pieces, `extent, `clean, `maxBlockSize, `maxBufferSize, `tmpIn, `tmpInSize
      reads stream`level, stream.fast, stream.fast.hashTable, stream.hc, stream.hc.hashTable, stream.hc.chainTable
    {
      && Layout(|m|) && Common() && stream.Good(|m|) && Buffers() && Io(|m|, k) && Framed(m, k)
      && Input(m, k, srcPtr, g, taken, Content(bs), tmpIn, tmpInSize) && Output(m, k, dstPtr, j, g, prefs, bs)
      && Blank(m, tmpIn, taken, Content(bs)) && (clean && !direct ==> Unattached())
      && (prefs.info.linked ==> History(m, k, srcPtr, direct, stream.Remembers(), Content(bs), tmpIn, tmpInSize))
    }

    /** There is room for one more block, of `n` bytes. */
    predicate RoomFor(k: UpdateCall, j: nat, g: nat, n: nat)
      reads `prefs
    {
      BlocksSize(prefs, j + 1, g + n) <= k.dstEnd - k.dst
    }

    // -------------------------------------------------------------- buffering

    /** Moves `n` bytes of input into the buffer. */
    method Buffer(mem: array<byte>, k: UpdateCall, srcPtr: nat, ghost dstPtr: nat, n: nat, ghost j: nat, ghost g: nat)
      requires Mid(mem[..], k, srcPtr, dstPtr, j, g, false) && WithinLimits() && !prefs.autoFlush
      requires srcPtr + n <= k.srcEnd && tmpInSize + n <= maxBlockSize && tmpInSize + n > 0
      modifies `tmpInSize, `taken, mem
      ensures Mid(mem[..], k, srcPtr + n, dstPtr, j, g, false) && tmpInSize == old(tmpInSize) + n
    {
      hide Common, BlockStream.Good, Io, Framed, Input, Output, History, SameOutside, Content, Blank, Unattached,
           BlockStream.Remembers, FrameInfo.MaxBlock, Disjoint;
      ghost var m0, lo := mem[..], tmpIn + tmpInSize;
      MidBounds(m0, k, srcPtr, dstPtr, j, g, false);
      BufferPlaces(m0, k, srcPtr, dstPtr, j, g, n);
      Copy(mem, tmpIn + tmpInSize, srcPtr, n);
      Wrote(m0, mem[..], k, lo, lo + n);
      OutputKept(m0, mem[..], k, dstPtr, j, g, prefs, bs, lo, lo + n);
      BufferedInput(m0, mem[..], k, srcPtr, g, taken, Content(bs), tmpIn, tmpInSize, n);
      if prefs.info.linked {
        BufferedHistory(m0, mem[..], k, srcPtr, stream.Remembers(), Content(bs), tmpIn, tmpInSize, n);
      }
      BufferedBlank(m0, mem[..], k, srcPtr, taken, Content(bs), tmpIn, tmpInSize, n);
      taken := taken + k.m0[srcPtr..srcPtr + n];
      tmpInSize := tmpInSize + n;
    }

    lemma BufferPlaces(m: seq<byte>, k: UpdateCall, srcPtr: nat, dstPtr: nat, j: nat, g: nat, n: nat)
      requires Mid(m, k, srcPtr, dstPtr, j, g, false) && WithinLimits() && !prefs.autoFlush
      requires srcPtr + n <= k.srcEnd && tmpInSize + n <= maxBlockSize
      ensures var lo := tmpIn + tmpInSize;
              && tmpBuff <= lo && lo + n <= tmpBuff + TMP_MAX <= |m| && srcPtr + n <= |m|
              && Disjoint(k.dst, dstPtr, lo, lo + n) && Disjoint(srcPtr, srcPtr + n, lo, lo + n)
    {
      hide Common, BlockStream.Good, Framed, Content, AllBlockBytes, Blank, Unattached, History;
    }

    lemma MidBounds(m: seq<byte>, k: UpdateCall, srcPtr: nat, dstPtr: nat, j: nat, g: nat, direct: bool)
      requires Mid(m, k, srcPtr, dstPtr, j, g, direct)
      ensures Layout(|m|) && Io(|m|, k) && Buffers() && k.src <= srcPtr <= k.srcEnd <= |k.m0| == |m| && k.dst <= dstPtr <= k.dstEnd
      ensures tmpIn + tmpInSize <= |m| && k.srcEnd + 3 <= |m| && k.dstEnd + SLACK <= |m| && Outside(k.dst, k.dstEnd + SLACK)
    {
      hide Common, BlockStream.Good, Content, AllBlockBytes;
    }

    lemma OutputKept(m0: seq<byte>, m1: seq<byte>, k: UpdateCall, dstPtr: nat, j: nat, g: nat, prefs: Preferences, bs: seq<FrameBlock>, lo: nat, hi: nat)
      requires Output(m0, k, dstPtr, j, g, prefs, bs) && SameOutside(m0, m1, lo, hi) && Disjoint(k.dst, dstPtr, lo, hi)
      ensures Output(m1, k, dstPtr, j, g, prefs, bs)
    {
      hide AllBlockBytes;
      SliceKept(m0, m1, lo, hi, k.dst, dstPtr);
    }

    lemma BufferedInput(m0: seq<byte>, m1: seq<byte>, k: UpdateCall, srcPtr: nat, g: nat, taken: seq<byte>, c: seq<byte>, at: nat, size: nat, n: nat)
      requires Io(|m0|, k) && Framed(m0, k) && Input(m0, k, srcPtr, g, taken, c, at, size) && srcPtr + n <= k.srcEnd
      requires SameOutside(m0, m1, at + size, at + size + n) && at + size + n <= |m1| && m1[at + size..at + size + n] == m0[srcPtr..srcPtr + n]
      ensures Input(m1, k, srcPtr + n, g, taken + k.m0[srcPtr..srcPtr + n], c, at, size + n)
    {
      hide Framed, SameOutside, Io;
      SourceAt(m0, k, srcPtr, srcPtr + n);
      SliceKept(m0, m1, at + size, at + size + n, at, at + size);
      MoreInput(m0, m1, k, srcPtr, g, taken, c, at, size, n);
    }

    lemma MoreInput(m0: seq<byte>, m1: seq<byte>, k: UpdateCall, srcPtr: nat, g: nat, taken: seq<byte>, c: seq<byte>, at: nat, size: nat, n: nat)
      requires Input(m0, k, srcPtr, g, taken, c, at, size) && srcPtr + n <= k.srcEnd && at + size + n <= |m1|
      requires m1[at..at + size] == m0[at..at + size] && m1[at + size..at + size + n] == k.m0[srcPtr..srcPtr + n]
      ensures Input(m1, k, srcPtr + n, g, taken + k.m0[srcPtr..srcPtr + n], c, at, size + n)
    {
      Split(m1, at, at + size, at + size + n);
      Split(k.m0, k.src, srcPtr, srcPtr + n);
      Regroup(k.taken0, k.m0[k.src..srcPtr], c, m0[at..at + size], k.m0[srcPtr..srcPtr + n]);
    }

    lemma BufferedHistory(m0: seq<byte>, m1: seq<byte>, k: UpdateCall, srcPtr: nat, p: Past, c: seq<byte>, at: nat, size: nat, n: nat)
      requires History(m0, k, srcPtr, false, p, c, at, size) && tmpBuff <= at && size + n > 0 && at + size + n <= tmpBuff + TMP_MAX
      requires SameOutside(m0, m1, at + size, at + size + n) && srcPtr + n <= k.srcEnd
      ensures History(m1, k, srcPtr + n, false, p, c, at, size + n)
    {
      hide SameOutside, RecallsAll, Recalls;
      var lo, hi := at + size, at + size + n;
      RecallsKept(m0, m1, p, c, lo, hi);
    }

    lemma BufferedBlank(m0: seq<byte>, m1: seq<byte>, k: UpdateCall, srcPtr: nat, taken: seq<byte>, c: seq<byte>, at: nat, size: nat, n: nat)
      requires Io(|m0|, k) && Framed(m0, k) && Blank(m0, at, taken, c) && k.src <= srcPtr && srcPtr + n <= k.srcEnd && tmpBuff <= at
      requires SameOutside(m0, m1, at + size, at + size + n) && at + size + n <= |m1| && m1[at + size..at + size + n] == m0[srcPtr..srcPtr + n]
      ensures Blank(m1, at, taken + k.m0[srcPtr..srcPtr + n], c)
    {
      hide Framed;
      SourceAt(m0, k, srcPtr, srcPtr + n);
      ZerosKept(m0, m1, at + size, taken, k.m0[srcPtr..srcPtr + n]);
    }

    lemma ZerosKept(m0: seq<byte>, m1: seq<byte>, lo: nat, taken: seq<byte>, x: seq<byte>)
      requires SameOutside(m0, m1, lo, lo + |x|) && lo + |x| <= |m1| && m1[lo..lo + |x|] == x
      ensures taken + x == Zeros(|taken + x|) ==> taken == Zeros(|taken|)
      ensures taken + x == Zeros(|taken + x|) && tmpBuff + BLANK <= |m0| && m0[tmpBuff..tmpBuff + BLANK] == Zeros(BLANK) ==>
        m1[tmpBuff..tmpBuff + BLANK] == Zeros(BLANK)
    {
      if taken + x == Zeros(|taken + x|) {
        assert taken == (taken + x)[..|taken|] && x == (taken + x)[|taken|..];
        if tmpBuff + BLANK <= |m0| && m0[tmpBuff..tmpBuff + BLANK] == Zeros(BLANK) {
          forall i | tmpBuff <= i < tmpBuff + BLANK ensures m1[i] == 0 {
            assert m0[i] == m0[tmpBuff..tmpBuff + BLANK][i - tmpBuff];
            assert lo <= i < lo + |x| ==> m1[i] == m1[lo..lo + |x|][i - lo];
          }
        }
      }
    }

    /** How far a block may write, there being room for it. */
    lemma ReachFits(k: UpdateCall, dstPtr: nat, j: nat, g: nat, n: nat)
      requires RoomFor(k, j, g, n) && dstPtr - k.dst <= BlocksSize(prefs, j, g) && k.dst <= dstPtr && n <= MAX_BLOCK
      ensures dstPtr + 4 + prefs.info.Crc() + n <= k.dstEnd && dstPtr + Reach(n) <= k.dstEnd + SLACK
    {
      OneBlockMore(j, 4 + prefs.info.Crc());
    }

    lemma ReadyInTmp(m: seq<byte>, k: UpdateCall, srcPtr: nat, dstPtr: nat, j: nat, g: nat)
      requires Mid(m, k, srcPtr, dstPtr, j, g, false) && 0 < tmpInSize && RoomFor(k, j, g, tmpInSize)
      requires tmpIn + tmpInSize <= tmpBuff + maxBufferSize
      ensures dstPtr + Reach(tmpInSize) <= k.dstEnd + SLACK
      ensures BlockReady(stream, prefs.info.linked, |m|, tmpIn, tmpInSize, dstPtr)
      ensures prefs.info.linked ==>
        var p, c := stream.Remembers(), Content(bs);
        if tmpIn == p.end then RecallsAll(m, p, c) else Recalls(m, p, c)
    {
      hide Common, BlockStream.Good, Framed, Input, AllBlockBytes, RecallsAll, Recalls, Content;
      BlockSizes(|m|);
      ReachFits(k, dstPtr, j, g, tmpInSize);
      InsideOf(m, stream.Remembers(), Content(bs));
    }

    lemma BlockSizes(size: nat)
      requires Common()
      ensures maxBlockSize <= MAX_BLOCK
    {
    }

    lemma OutputMore(m0: seq<byte>, m1: seq<byte>, k: UpdateCall, dstPtr: nat, j: nat, g: nat, prefs: Preferences, bs0: seq<FrameBlock>,
                     bs: seq<FrameBlock>, size: nat, n: nat)
      requires Output(m0, k, dstPtr, j, g, prefs, bs0) && SameOutside(m0, m1, dstPtr, dstPtr + Reach(n)) && dstPtr + size <= |m1|
      requires size <= 4 + n + prefs.info.Crc() && dstPtr + 4 + prefs.info.Crc() + n <= k.dstEnd
      requires AllBlockBytes(prefs.info, bs) == AllBlockBytes(prefs.info, bs0) + m1[dstPtr..dstPtr + size]
      ensures Output(m1, k, dstPtr + size, j + 1, g + n, prefs, bs)
    {
      hide AllBlockBytes;
      SliceKept(m0, m1, dstPtr, dstPtr + Reach(n), k.dst, dstPtr);
      assert m1[k.dst..dstPtr + size] == m1[k.dst..dstPtr] + m1[dstPtr..dstPtr + size];
      OneBlockMore(j, 4 + prefs.info.Crc());
    }

    lemma EmittedInput(m0: seq<byte>, m1: seq<byte>, k: UpdateCall, srcPtr: nat, g: nat, taken: seq<byte>, c: seq<byte>, at: nat, n: nat, at': nat)
      requires Input(m0, k, srcPtr, g, taken, c, at, n) && at' <= |m1|
      ensures Input(m1, k, srcPtr, g + n, taken, c + m0[at..at + n], at', 0)
    {
      assert m1[at'..at' + 0] == [];
    }

    lemma EmittedHistory(m0: seq<byte>, m1: seq<byte>, k: UpdateCall, srcPtr: nat, p: Past, p': Past, c: seq<byte>, c': seq<byte>, at: nat, n: nat)
      requires Io(|m1|, k) && History(m0, k, srcPtr, false, p, c, at, n) && Follows(p, p', at, n) && RecallsAll(m1, p', c')
      requires tmpBuff <= at && at + n <= tmpBuff + TMP_MAX && 0 < n && srcPtr <= k.srcEnd && k.src <= srcPtr
      ensures History(m1, k, srcPtr, false, p', c', at + n, 0)
    {
      hide RecallsAll, Recalls;
    }

    /** Writes the block that is in the buffer. */
    method EmitBuffered(mem: array<byte>, k: UpdateCall, srcPtr: nat, dstPtr: nat, ghost j: nat, ghost g: nat) returns (op: nat)
      requires Mid(mem[..], k, srcPtr, dstPtr, j, g, false) && 0 < tmpInSize && RoomFor(k, j, g, tmpInSize)
      requires tmpIn + tmpInSize <= tmpBuff + maxBufferSize
      modifies `tmpIn, `tmpInSize, `bs, `pieces, `extent
      modifies stream.fast, stream.fast.hashTable, stream.hc, stream.hc.hashTable, stream.hc.chainTable, mem
      ensures Mid(mem[..], k, srcPtr, op, j + 1, g + old(tmpInSize), false) && tmpInSize == 0
      ensures prefs.info.linked ==> stream.Remembers().start < stream.Remembers().end == tmpIn
      ensures old(Unattached()) ==> Unattached() && pieces == old(pieces) + [Piece(old(tmpInSize), false)]
      ensures extent == HcStream.NextExtent(old(extent), old(stream.Remembers().end) == old(tmpIn), old(tmpInSize))
    {
      hide Common, BlockStream.Good, Io, Framed, Input, Output, History, SameOutside, Content, AllBlockBytes,
           RecallsAll, Recalls, Follows, BlockReady, BlockStream.Remembers, Reach, RoomFor, Blank, IsFar, Loose,
           Total, ZerosBehind, Unattached, BlocksSize;
      ghost var m0, p, c0, bs0, at, n := mem[..], stream.Remembers(), Content(bs), bs, tmpIn, tmpInSize;
      NearTmp(m0, k, srcPtr, dstPtr, j, g);
      MidBounds(m0, k, srcPtr, dstPtr, j, g, false);
      BlockSizes(mem.Length);
      OutputSize(m0, k, dstPtr, j, g);
      ReachFits(k, dstPtr, j, g, n);
      ReadyInTmp(m0, k, srcPtr, dstPtr, j, g);
      var size := Emit(mem, dstPtr, tmpIn, tmpInSize);
      op := dstPtr + size;
      EmittedParts(m0, mem[..], k, srcPtr, dstPtr, j, g, prefs, bs0, bs, size, n, at, if prefs.info.linked then at + n else at, taken, c0,
                   Content(bs));
      if prefs.info.linked {
        FollowsEnd(p, stream.Remembers(), at, n);
        EmittedHistory(m0, mem[..], k, srcPtr, p, stream.Remembers(), c0, Content(bs), at, n);
        StillUnattached(m0, k, srcPtr, p, stream.Remembers(), c0, at, n);
        UnattachedIs();
        tmpIn := tmpIn + tmpInSize;
      } else {
        UnattachedIs();
      }
      tmpInSize := 0;
    }

    lemma EmittedParts(m0: seq<byte>, m1: seq<byte>, k: UpdateCall, srcPtr: nat, dstPtr: nat, j: nat, g: nat, prefs: Preferences,
                       bs0: seq<FrameBlock>, bs: seq<FrameBlock>, size: nat, n: nat, at: nat, at': nat, taken: seq<byte>,
                       c: seq<byte>, c': seq<byte>)
      requires Io(|m0|, k) && Framed(m0, k) && Input(m0, k, srcPtr, g, taken, c, at, n) && Output(m0, k, dstPtr, j, g, prefs, bs0)
      requires Blank(m0, at, taken, c) && SameOutside(m0, m1, dstPtr, dstPtr + Reach(n)) && dstPtr + Reach(n) <= k.dstEnd + SLACK
      requires size <= 4 + n + prefs.info.Crc() && dstPtr + 4 + prefs.info.Crc() + n <= k.dstEnd && dstPtr + size <= |m1|
      requires AllBlockBytes(prefs.info, bs) == AllBlockBytes(prefs.info, bs0) + m1[dstPtr..dstPtr + size]
      requires k.dst <= dstPtr && at <= at' <= at + n <= |m0| && |m1| == |m0| && c' == c + m0[at..at + n]
      ensures Framed(m1, k) && Input(m1, k, srcPtr, g + n, taken, c', at', 0)
      ensures Output(m1, k, dstPtr + size, j + 1, g + n, prefs, bs) && Blank(m1, at', taken, c')
    {
      hide Io, Framed, Input, Output, SameOutside, AllBlockBytes, Reach, Blank;
      Wrote(m0, m1, k, dstPtr, dstPtr + Reach(n));
      OutputMore(m0, m1, k, dstPtr, j, g, prefs, bs0, bs, size, n);
      EmittedInput(m0, m1, k, srcPtr, g, taken, c, at, n, at');
      TakenIs(m0, k, srcPtr, g, taken, c, at, n);
      EmittedBlank(m0, m1, k, dstPtr, dstPtr + Reach(n), at, at', taken, taken, c, c', n);
    }

    lemma FollowsEnd(p: Past, p': Past, src: nat, n: nat)
      requires Follows(p, p', src, n)
      ensures p'.end == src + n
    {
    }

    /** What is in the buffer is near its history. */
    lemma NearTmp(m: seq<byte>, k: UpdateCall, srcPtr: nat, dstPtr: nat, j: nat, g: nat)
      requires Mid(m, k, srcPtr, dstPtr, j, g, false)
      ensures (Unattached() ==> !IsFar(tmpIn)) && ZerosBehind(m, tmpIn)
      ensures prefs.info.linked ==> (Unattached() <==> Loose(stream.Remembers()))
    {
      hide BlockStream.Good, Io, Framed, Input, Output, RecallsAll, Recalls, ValidBlocks, AllSure, Caught, Total,
           NoneFar, Content, Blank;
    }

    lemma TakenIs(m: seq<byte>, k: UpdateCall, srcPtr: nat, g: nat, taken: seq<byte>, c: seq<byte>, at: nat, size: nat)
      requires Input(m, k, srcPtr, g, taken, c, at, size)
      ensures (size == 0 ==> taken == c) && |taken| == |c| + size && k.src <= srcPtr <= k.srcEnd <= |k.m0|
    {
    }

    lemma EmittedBlank(m0: seq<byte>, m1: seq<byte>, k: UpdateCall, lo: nat, hi: nat, at: nat, at': nat, taken: seq<byte>, taken': seq<byte>,
                       c: seq<byte>, c': seq<byte>, n: nat)
      requires Io(|m0|, k) && Blank(m0, at, taken, c) && SameOutside(m0, m1, lo, hi) && k.dst <= lo && hi <= k.dstEnd + SLACK
      requires at <= at' <= at + n && |c'| == |c| + n && |c'| <= |taken'| && taken <= taken'
      ensures Blank(m1, at', taken', c')
    {
      if clean && |taken'| <= 3 && taken' == Zeros(|taken'|) {
        assert taken == taken'[..|taken|] == Zeros(|taken|);
        SliceKept(m0, m1, lo, hi, tmpBuff, tmpBuff + BLANK);
      }
    }

    lemma UnattachedIs()
      ensures Unattached() <==> (prefs.info.linked ==> Loose(stream.Remembers()))
    {
    }

    lemma StillUnattached(m: seq<byte>, k: UpdateCall, srcPtr: nat, p: Past, p': Past, c: seq<byte>, at: nat, n: nat)
      requires History(m, k, srcPtr, false, p, c, at, n) && Follows(p, p', at, n)
      requires 0 < n && tmpBuff <= at && at + n <= tmpBuff + TMP_MAX
      ensures p'.start < p'.end && (Loose(p) ==> Loose(p'))
    {
      hide RecallsAll, Recalls;
      AllIsLess(m, p, c);
      InsideOf(m, p, c);
    }

    lemma OutputSize(m: seq<byte>, k: UpdateCall, dstPtr: nat, j: nat, g: nat)
      requires Output(m, k, dstPtr, j, g, prefs, bs)
      ensures k.dst <= dstPtr && dstPtr - k.dst <= BlocksSize(prefs, j, g)
    {
    }

    lemma ReadyDirect(m: seq<byte>, k: UpdateCall, srcPtr: nat, dstPtr: nat, n: nat, j: nat, g: nat, direct: bool)
      requires Mid(m, k, srcPtr, dstPtr, j, g, direct) && tmpInSize == 0 && srcPtr + n <= k.srcEnd
      requires 0 < n <= maxBlockSize && RoomFor(k, j, g, n)
      ensures dstPtr + Reach(n) <= k.dstEnd + SLACK
      ensures BlockReady(stream, prefs.info.linked, |m|, srcPtr, n, dstPtr)
      ensures prefs.info.linked ==>
        var p, c := stream.Remembers(), Content(bs);
        if srcPtr == p.end then RecallsAll(m, p, c) else Recalls(m, p, c)
    {
      hide Common, BlockStream.Good, Framed, Input, AllBlockBytes, RecallsAll, Recalls, Content;
      MidBounds(m, k, srcPtr, dstPtr, j, g, direct);
      BlockSizes(|m|);
      ReachFits(k, dstPtr, j, g, n);
      if prefs.info.linked {
        AllIsLess(m, stream.Remembers(), Content(bs));
      }
    }

    lemma DirectInput(m0: seq<byte>, m1: seq<byte>, k: UpdateCall, srcPtr: nat, g: nat, taken: seq<byte>, c: seq<byte>, at: nat, n: nat)
      requires Io(|m0|, k) && Framed(m0, k) && Input(m0, k, srcPtr, g, taken, c, at, 0) && srcPtr + n <= k.srcEnd && at <= |m1|
      ensures Input(m1, k, srcPtr + n, g + n, taken + k.m0[srcPtr..srcPtr + n], c + m0[srcPtr..srcPtr + n], at, 0)
    {
      hide Framed;
      SourceAt(m0, k, srcPtr, srcPtr + n);
      assert m0[at..at + 0] == [] == m1[at..at + 0];
      assert k.m0[k.src..srcPtr + n] == k.m0[k.src..srcPtr] + k.m0[srcPtr..srcPtr + n];
    }

    lemma DirectHistory(m0: seq<byte>, m1: seq<byte>, k: UpdateCall, srcPtr: nat, direct: bool, p: Past, p': Past, c: seq<byte>, c': seq<byte>,
                        at: nat, n: nat)
      requires Io(|m1|, k) && History(m0, k, srcPtr, direct, p, c, at, 0) && Follows(p, p', srcPtr, n) && RecallsAll(m1, p', c')
      requires 0 < n && k.src <= srcPtr && srcPtr + n <= k.srcEnd && tmpBuff <= at
      ensures History(m1, k, srcPtr + n, true, p', c', at, 0)
    {
      hide RecallsAll, Recalls;
      AllIsLess(m1, p', c');
      InsideOf(m0, p, c);
      ApartNext(p, p', srcPtr, n, k.dst, k.dstEnd + SLACK);
    }

    /** What is made straight from the input is far from its history, if that is in the buffer. */
    lemma FarOrNot(m: seq<byte>, k: UpdateCall, srcPtr: nat, dstPtr: nat, j: nat, g: nat, direct: bool)
      requires Mid(m, k, srcPtr, dstPtr, j, g, direct) && tmpInSize == 0 && (direct ==> Total(pieces) > 3)
      ensures Unattached() || direct ==> Direct(ModeOf(prefs), Total(pieces), 0).far == IsFar(srcPtr)
      ensures ZerosBehind(m, srcPtr)
    {
      hide BlockStream.Good, Io, Framed, Input, Output, RecallsAll, Recalls, ValidBlocks, AllSure, Caught, Total,
           NoneFar, Content, Blank, History, ZerosBehind, BlockStream.Remembers, Loose;
      TakenIs(m, k, srcPtr, g, taken, Content(bs), tmpIn, 0);
      if prefs.info.linked && prefs.level < LZ4HC_CLEVEL_MIN && 1 <= Total(pieces) <= 3 {
        if Unattached() {
          PastInTmp(m, k, srcPtr, stream.Remembers(), Content(bs), tmpIn);
        }
        DictNotEmpty();
        ZerosThere(m, k, srcPtr, g);
      } else {
        NoFar(m, srcPtr);
      }
    }

    lemma NoFar(m: seq<byte>, src: nat)
      requires !(prefs.info.linked && prefs.level < LZ4HC_CLEVEL_MIN && 1 <= Total(pieces) <= 3)
      ensures ZerosBehind(m, src) && !IsFar(src)
    {
      hide BlockStream.Remembers, Total;
    }

    lemma DictNotEmpty()
      requires Common() && prefs.info.linked && prefs.level < LZ4HC_CLEVEL_MIN && 1 <= Total(pieces) <= 3
      ensures stream.Remembers().start < stream.Remembers().end && stream.fast.dictionary == stream.Remembers().start
      ensures stream.fast.dictionary + stream.fast.dictSize == stream.Remembers().end
    {
      hide ValidBlocks, AllSure, Caught, Total, NoneFar, Content;
    }

    /** History that needs nothing from the caller's buffers is in the buffer, and the input is not. */
    lemma PastInTmp(m: seq<byte>, k: UpdateCall, srcPtr: nat, p: Past, c: seq<byte>, at: nat)
      requires Io(|m|, k) && History(m, k, srcPtr, false, p, c, at, 0) && Loose(p) && k.src <= srcPtr <= k.srcEnd
      ensures p.start < p.end ==> InTmp(m, p, c, at) && p.end != srcPtr
    {
      hide RecallsAll, Recalls;
    }

    lemma ZerosThere(m: seq<byte>, k: UpdateCall, srcPtr: nat, g: nat)
      requires Blank(m, tmpIn, taken, Content(bs)) && taken == Content(bs) && Total(pieces) == |Content(bs)| && prefs.info.linked
      requires stream.fast.dictionary + stream.fast.dictSize == stream.Remembers().end && stream.fast.dictionary == stream.Remembers().start
      requires clean && Total(pieces) <= 3 ==> InTmp(m, stream.Remembers(), Content(bs), tmpIn)
      ensures ZerosBehind(m, srcPtr)
    {
      hide RecallsAll, Recalls, Total, Content, BlockStream.Remembers;
      if clean && IsFar(srcPtr) && Content(bs) == Zeros(|Content(bs)|) {
        var lo, hi := stream.fast.dictionary, stream.fast.dictionary + stream.fast.dictSize + 3;
        SliceOfSlice(m, tmpBuff, tmpBuff + BLANK, lo, hi);
      }
    }

    /** Writes the next `n` bytes of input as a block. */
    method EmitDirect(mem: array<byte>, k: UpdateCall, srcPtr: nat, dstPtr: nat, n: nat, ghost j: nat, ghost g: nat, ghost direct: bool)
      returns (op: nat)
      requires Mid(mem[..], k, srcPtr, dstPtr, j, g, direct) && tmpInSize == 0 && srcPtr + n <= k.srcEnd
      requires 0 < n <= maxBlockSize && RoomFor(k, j, g, n) && (direct ==> Total(pieces) > 3)
      modifies `taken, `bs, `pieces, `extent
      modifies stream.fast, stream.fast.hashTable, stream.hc, stream.hc.hashTable, stream.hc.chainTable, mem
      ensures Mid(mem[..], k, srcPtr + n, op, j + 1, g + n, true)
      ensures old(Unattached()) || direct ==> pieces == old(pieces) + [Direct(ModeOf(prefs), Total(old(pieces)), n)]
      ensures extent == HcStream.NextExtent(old(extent), old(stream.Remembers().end) == srcPtr, n)
      ensures prefs.info.linked ==> stream.Remembers().end == srcPtr + n
    {
      hide Common, BlockStream.Good, Io, Framed, Input, Output, History, SameOutside, Content, AllBlockBytes,
           RecallsAll, Recalls, Follows, BlockReady, BlockStream.Remembers, Reach, RoomFor, Blank, IsFar, ZerosBehind,
           Total, Unattached, BlockStream.HasExtent, HcStream.NextExtent;
      FarOrNot(mem[..], k, srcPtr, dstPtr, j, g, direct);
      ghost var m0, p, c0, bs0 := mem[..], stream.Remembers(), Content(bs), bs;
      MidBounds(m0, k, srcPtr, dstPtr, j, g, direct);
      BlockSizes(mem.Length);
      OutputSize(m0, k, dstPtr, j, g);
      ReachFits(k, dstPtr, j, g, n);
      ReadyDirect(m0, k, srcPtr, dstPtr, n, j, g, direct);
      var size := Emit(mem, dstPtr, srcPtr, n);
      op := dstPtr + size;
      Wrote(m0, mem[..], k, dstPtr, dstPtr + Reach(n));
      OutputMore(m0, mem[..], k, dstPtr, j, g, prefs, bs0, bs, size, n);
      DirectInput(m0, mem[..], k, srcPtr, g, taken, c0, tmpIn, n);
      TakenIs(m0, k, srcPtr, g, taken, c0, tmpIn, 0);
      EmittedBlank(m0, mem[..], k, dstPtr, dstPtr + Reach(n), tmpIn, tmpIn, taken, taken + k.m0[srcPtr..srcPtr + n], c0, Content(bs), n);
      if prefs.info.linked {
        FollowsEnd(p, stream.Remembers(), srcPtr, n);
        DirectHistory(m0, mem[..], k, srcPtr, direct, p, stream.Remembers(), c0, Content(bs), tmpIn, n);
      }
      taken := taken + k.m0[srcPtr..srcPtr + n];
    }

    // -------------------------------------------------------------- keeping history

    /** LZ4F_localSaveDict: the end of the history moves to the beginning of the buffer. */
    method SaveHistory(mem: array<byte>, k: UpdateCall, ghost srcPtr: nat, ghost dstPtr: nat, ghost j: nat, ghost g: nat, ghost direct: bool)
      returns (ok: bool)
      requires Mid(mem[..], k, srcPtr, dstPtr, j, g, direct) && prefs.info.linked && tmpInSize == 0
      requires stream.Remembers().start < stream.Remembers().end
      modifies `tmpIn, `extent, stream.fast, stream.hc, mem
      ensures !ok <==> prefs.level >= LZ4HC_CLEVEL_MIN && old(extent).prefix >= TWO31
      ensures ok ==>
        && Mid(mem[..], k, srcPtr, dstPtr, j, g, false) && tmpIn <= tmpBuff + DICT64K && tmpInSize == 0 && Unattached()
        && extent == Kept(old(extent)) && stream.Remembers().start < stream.Remembers().end
    {
      hide BlockStream.HasExtent, ValidBlocks, Caught, AllSure, Total, NoneFar, Blank, FrameInfo.Valid,
           FrameInfo.MaxBlock, BlockStream.Good, Io, Framed, Input, Output, History, SameOutside, Content,
           AllBlockBytes, RecallsAll, Recalls;
      ghost var m0, p, c := mem[..], stream.Remembers(), Content(bs);
      MidBounds(m0, k, srcPtr, dstPtr, j, g, direct);
      HistoryRecalls(m0, k, srcPtr, direct, p, c, tmpIn, tmpInSize);
      var realDictSize := stream.SaveDict(mem, tmpBuff, c, extent);
      ok := realDictSize >= 0;
      if !ok {
        return;
      }
      extent := Kept(extent);
      Saved(m0, mem[..], k, srcPtr, dstPtr, j, g, c, tmpIn, realDictSize, stream.Remembers());
      tmpIn := tmpBuff + realDictSize;
    }

    /** What that leaves as it was. */
    lemma Saved(m0: seq<byte>, m1: seq<byte>, k: UpdateCall, srcPtr: nat, dstPtr: nat, j: nat, g: nat, c: seq<byte>, at: nat, size: nat, p: Past)
      requires Layout(|m0|) && Io(|m0|, k) && Framed(m0, k) && k.src <= srcPtr <= k.srcEnd && k.dst <= dstPtr <= k.dstEnd
      requires Input(m0, k, srcPtr, g, taken, c, at, 0) && Output(m0, k, dstPtr, j, g, prefs, bs) && Blank(m0, at, taken, c)
      requires SameOutside(m0, m1, tmpBuff, tmpBuff + size) && 0 < size <= DICT64K
      requires RecallsAll(m1, p, c) && p == Past(tmpBuff, tmpBuff + size, 0, 0)
      ensures |m1| == |m0| && Framed(m1, k) && Input(m1, k, srcPtr, g, taken, c, tmpBuff + size, 0)
      ensures Output(m1, k, dstPtr, j, g, prefs, bs) && Blank(m1, tmpBuff + size, taken, c)
      ensures History(m1, k, srcPtr, false, p, c, tmpBuff + size, 0)
    {
      hide Framed, Input, Output, Blank, History, SameOutside, RecallsAll;
      SameLength(m0, m1, tmpBuff, tmpBuff + size);
      Wrote(m0, m1, k, tmpBuff, tmpBuff + size);
      OutputKept(m0, m1, k, dstPtr, j, g, prefs, bs, tmpBuff, tmpBuff + size);
      SavedInput(m0, m1, k, srcPtr, g, taken, c, at, tmpBuff + size);
      SavedHistory(m1, k, srcPtr, p, c, size);
      SavedBlank(m0, m1, k, srcPtr, g, taken, c, at, size, p);
    }

    lemma HistoryRecalls(m: seq<byte>, k: UpdateCall, srcPtr: nat, direct: bool, p: Past, c: seq<byte>, at: nat, size: nat)
      requires History(m, k, srcPtr, direct, p, c, at, size)
      ensures Recalls(m, p, c)
    {
      hide RecallsAll, Recalls;
      AllIsLess(m, p, c);
    }

    lemma SavedBlank(m0: seq<byte>, m1: seq<byte>, k: UpdateCall, srcPtr: nat, g: nat, taken: seq<byte>, c: seq<byte>, at: nat, size: nat, p: Past)
      requires Blank(m0, at, taken, c) && Input(m0, k, srcPtr, g, taken, c, at, 0) && SameOutside(m0, m1, tmpBuff, tmpBuff + size)
      requires RecallsAll(m1, p, c) && p == Past(tmpBuff, tmpBuff + size, 0, 0)
      ensures Blank(m1, tmpBuff + size, taken, c)
    {
      assert taken == c;
      if clean && |taken| <= 3 && taken == Zeros(|taken|) {
        var x := m1[0..0] + m1[tmpBuff..tmpBuff + size];
        assert x == m1[tmpBuff..tmpBuff + size];
        forall i | tmpBuff <= i < tmpBuff + BLANK ensures m1[i] == 0 {
          if i < tmpBuff + size {
            assert m1[i] == x[i - tmpBuff] == c[|c| - size..][i - tmpBuff];
          } else {
            assert m0[i] == m0[tmpBuff..tmpBuff + BLANK][i - tmpBuff];
          }
        }
      }
    }

    lemma SavedInput(m0: seq<byte>, m1: seq<byte>, k: UpdateCall, srcPtr: nat, g: nat, taken: seq<byte>, c: seq<byte>, at: nat, at': nat)
      requires Input(m0, k, srcPtr, g, taken, c, at, 0) && at' <= |m1|
      ensures Input(m1, k, srcPtr, g, taken, c, at', 0)
    {
      assert m0[at..at + 0] == [] == m1[at'..at' + 0];
    }

    lemma SavedHistory(m: seq<byte>, k: UpdateCall, srcPtr: nat, p: Past, c: seq<byte>, size: nat)
      requires Io(|m|, k) && RecallsAll(m, p, c) && p == Past(tmpBuff, tmpBuff + size, 0, 0) && 0 < size <= DICT64K && k.src <= srcPtr <= k.srcEnd
      ensures History(m, k, srcPtr, false, p, c, tmpBuff + size, 0)
    {
      hide RecallsAll, Recalls;
    }

    /** The other way: the caller promises to leave its input in place. */
    method LeaveHistory(ghost m: seq<byte>, k: UpdateCall, ghost srcPtr: nat, ghost dstPtr: nat, ghost j: nat, ghost g: nat)
      requires Mid(m, k, srcPtr, dstPtr, j, g, true) && prefs.info.linked
      modifies `tmpIn, `clean
      ensures Mid(m, k, srcPtr, dstPtr, j, g, false) && tmpIn == tmpBuff && tmpInSize == 0
    {
      hide ValidBlocks, OffsetIs, Caught, AllSure, Total, FrameInfo.Valid, FrameInfo.MaxBlock, BlockStream.Good, Io,
           Framed, Input, Output, Content, AllBlockBytes, RecallsAll, Recalls;
      MidBounds(m, k, srcPtr, dstPtr, j, g, true);
      SavedInput(m, m, k, srcPtr, g, taken, Content(bs), tmpIn, tmpBuff);
      CaughtLess(prefs, pieces, bs, clean);
      tmpIn, clean := tmpBuff, false;
    }

    // -------------------------------------------------------------- LZ4F_compressUpdate

    lemma RoomForFull(m: seq<byte>, k: UpdateCall, srcPtr: nat, dstPtr: nat, j: nat, g: nat, n: nat, direct: bool)
      requires Mid(m, k, srcPtr, dstPtr, j, g, direct) && g == j * maxBlockSize && BoundKept(k)
      requires tmpInSize == 0 || (j == 0 && srcPtr == k.src)
      requires 0 < n && tmpInSize + (k.srcEnd - srcPtr) >= n
      requires n == maxBlockSize || (prefs.autoFlush && n < maxBlockSize && tmpInSize + (k.srcEnd - srcPtr) == n)
      ensures RoomFor(k, j, g, n)
    {
      hide BlockStream.Good, Framed, Output, History, BoundInternal, BlocksSize, FrameInfo.MaxBlock;
      WithinBound(prefs, k.srcEnd - k.src, k.buffered0, j, g, n);
    }

    /** There was room for the worst case. */
    ghost predicate BoundKept(k: UpdateCall)
      reads `prefs, `maxBlockSize
    {
      && k.src <= k.srcEnd && k.dst <= k.dstEnd && k.buffered0 < maxBlockSize
      && k.dstEnd - k.dst >= BoundInternal(k.srcEnd - k.src, prefs, k.buffered0)
    }

    /** Something is buffered: the block is completed and written, or all input goes to it. */
    method CompleteTmp(mem: array<byte>, k: UpdateCall) returns (ip: nat, op: nat, done: bool)
      requires Mid(mem[..], k, k.src, k.dst, 0, 0, false) && BoundKept(k) && WithinLimits() && !prefs.autoFlush && 0 < tmpInSize < maxBlockSize
      modifies `tmpIn, `tmpInSize, `taken, `bs, `pieces, `extent
      modifies stream.fast, stream.fast.hashTable, stream.hc, stream.hc.hashTable, stream.hc.chainTable, mem
      ensures ip <= k.srcEnd && Mid(mem[..], k, ip, op, if done then 1 else 0, if done then maxBlockSize else 0, false)
      ensures done ==> tmpInSize == 0 && (prefs.info.linked ==> stream.Remembers().start < stream.Remembers().end)
      ensures !done ==> ip == k.srcEnd && 0 < tmpInSize < maxBlockSize && WithinLimits() && tmpInSize == old(tmpInSize) + (k.srcEnd - k.src)
      ensures done ==> old(tmpInSize) + (k.srcEnd - k.src) == maxBlockSize + (k.srcEnd - ip)
      ensures old(Unattached()) ==> Unattached() && pieces == old(pieces) + if done then [Piece(maxBlockSize, false)] else []
      ensures extent == if done then HcStream.NextExtent(old(extent), old(stream.Remembers().end) == old(tmpIn), maxBlockSize) else old(extent)
      ensures done && prefs.info.linked ==> stream.Remembers().end != ip
    {
      hide Mid, BoundKept, RoomFor, Unattached, Buffers;
      MidBounds(mem[..], k, k.src, k.dst, 0, 0, false);
      var sizeToCopy := maxBlockSize - tmpInSize;
      if sizeToCopy > k.srcEnd - k.src {
        Buffer(mem, k, k.src, k.dst, k.srcEnd - k.src, 0, 0);
        ip, op, done := k.srcEnd, k.dst, false;
      } else {
        RoomForFull(mem[..], k, k.src, k.dst, 0, 0, maxBlockSize, false);
        Buffer(mem, k, k.src, k.dst, sizeToCopy, 0, 0);
        ip, done := k.src + sizeToCopy, true;
        op := EmitBuffered(mem, k, ip, k.dst, 0, 0);
        TmpIsApart(mem[..], k, ip, op, 1, maxBlockSize);
      }
    }

    lemma TmpIsApart(m: seq<byte>, k: UpdateCall, srcPtr: nat, dstPtr: nat, j: nat, g: nat)
      requires Mid(m, k, srcPtr, dstPtr, j, g, false)
      ensures tmpIn != srcPtr
    {
      hide Common, BlockStream.Good, Framed, Output, History, Content, AllBlockBytes, Blank;
    }

    /** Full blocks straight from the input. */
    method FullBlocks(mem: array<byte>, k: UpdateCall, srcPtr: nat, dstPtr: nat, last0: LastBlock, ghost j0: nat, ghost g0: nat)
      returns (ip: nat, op: nat, last: LastBlock, ghost j: nat, ghost g: nat)
      requires Mid(mem[..], k, srcPtr, dstPtr, j0, g0, false) && BoundKept(k) && g0 == j0 * maxBlockSize
      requires (tmpInSize == 0 || srcPtr == k.srcEnd) && !last0.FromSrcBuffer? && srcPtr <= k.srcEnd
      modifies `taken, `bs, `pieces, `extent
      modifies stream.fast, stream.fast.hashTable, stream.hc, stream.hc.hashTable, stream.hc.chainTable, mem
      ensures g == j * maxBlockSize && Mid(mem[..], k, ip, op, j, g, last.FromSrcBuffer?) && ip <= k.srcEnd < ip + maxBlockSize
      ensures tmpInSize == 0 || ip == k.srcEnd
      ensures last == last0 || (last.FromSrcBuffer? && tmpInSize == 0)
      ensures !last.FromSrcBuffer? ==> stream.Remembers() == old(stream.Remembers()) && (old(Unattached()) ==> Unattached())
      ensures last.FromSrcBuffer? ==> Total(pieces) > 3
      ensures old(Unattached()) ==> Planned(ModeOf(prefs), old(pieces), k.srcEnd - srcPtr, pieces, k.srcEnd - ip)
      ensures prefs.info.linked ==>
        DirectExtent(ModeOf(prefs), extent, stream.Remembers().end == ip, k.srcEnd - ip)
          == DirectExtent(ModeOf(prefs), old(extent), old(stream.Remembers().end) == srcPtr, k.srcEnd - srcPtr)
      ensures if k.srcEnd - srcPtr >= maxBlockSize then last.FromSrcBuffer? else !last.FromSrcBuffer? && ip == srcPtr
    {
      hide Mid, BoundKept, RoomFor, Buffers, BlockStream.Remembers, Total, Planned, DirectExtent, HcStream.NextExtent;
      ip, op, last, j, g := srcPtr, dstPtr, last0, j0, g0;
      MidBounds(mem[..], k, ip, op, j, g, false);
      PlannedAll(ModeOf(prefs), pieces, k.srcEnd - srcPtr);
      SizesKnown(mem[..], k, ip, op, j, g, false);
      while k.srcEnd - ip >= maxBlockSize
        invariant g == j * maxBlockSize && Mid(mem[..], k, ip, op, j, g, last.FromSrcBuffer?) && BoundKept(k)
        invariant ip <= k.srcEnd && (tmpInSize == 0 || ip == k.srcEnd)
        invariant last == last0 || (last.FromSrcBuffer? && tmpInSize == 0)
        invariant !last.FromSrcBuffer? ==> stream.Remembers() == old(stream.Remembers()) && (old(Unattached()) ==> Unattached())
        invariant last.FromSrcBuffer? ==> Total(pieces) > 3
        invariant old(Unattached()) ==> Planned(ModeOf(prefs), old(pieces), k.srcEnd - srcPtr, pieces, k.srcEnd - ip)
        invariant prefs.info.linked ==>
          DirectExtent(ModeOf(prefs), extent, stream.Remembers().end == ip, k.srcEnd - ip)
            == DirectExtent(ModeOf(prefs), old(extent), old(stream.Remembers().end) == srcPtr, k.srcEnd - srcPtr)
        invariant if last.FromSrcBuffer? then k.srcEnd - srcPtr >= maxBlockSize else ip == srcPtr
        decreases k.srcEnd - ip
        modifies `taken, `bs, `pieces, `extent
        modifies stream.fast, stream.fast.hashTable, stream.hc, stream.hc.hashTable, stream.hc.chainTable, mem
      {
        RoomForFull(mem[..], k, ip, op, j, g, maxBlockSize, last.FromSrcBuffer?);
        ghost var ps := pieces;
        ExtentOn(ModeOf(prefs), extent, stream.Remembers().end == ip, k.srcEnd - ip);
        op := EmitDirect(mem, k, ip, op, maxBlockSize, j, g, last.FromSrcBuffer?);
        SizesKnown(mem[..], k, ip + maxBlockSize, op, j + 1, g + maxBlockSize, true);
        FullPiece(mem[..], k, ip + maxBlockSize, op, j + 1, g + maxBlockSize);
        if old(Unattached()) {
          PlannedOn(ModeOf(prefs), old(pieces), k.srcEnd - srcPtr, ps, k.srcEnd - ip);
        }
        ip, last := ip + maxBlockSize, FromSrcBuffer;
        OneBlockMore(j, maxBlockSize);
        j, g := j + 1, g + maxBlockSize;
      }
    }

    /** Once a full block was made straight from the input, there is enough content. */
    lemma FullPiece(m: seq<byte>, k: UpdateCall, srcPtr: nat, dstPtr: nat, j: nat, g: nat)
      requires Mid(m, k, srcPtr, dstPtr, j, g, true) && srcPtr >= k.src + maxBlockSize && tmpInSize == 0
      ensures Total(pieces) > 3 && ModeOf(prefs).maxBlock == maxBlockSize
    {
      hide BlockStream.Good, Framed, Output, History, ValidBlocks, OffsetIs, Caught, AllSure, Total, Content;
    }

    lemma SizesKnown(m: seq<byte>, k: UpdateCall, srcPtr: nat, dstPtr: nat, j: nat, g: nat, direct: bool)
      requires Mid(m, k, srcPtr, dstPtr, j, g, direct)
      ensures 0 < maxBlockSize == prefs.info.MaxBlock() <= MAX_BLOCK && Common() && (prefs.autoFlush ==> tmpInSize == 0)
    {
      hide BlockStream.Good, Framed, Input, Output, History, ValidBlocks, OffsetIs, Caught, AllSure;
    }

    /** What was written so far, and perhaps a last block that is not full, is within the bound. */
    lemma BoundNow(m: seq<byte>, k: UpdateCall, srcPtr: nat, dstPtr: nat, j: nat, g: nat, n: nat, direct: bool)
      requires Mid(m, k, srcPtr, dstPtr, j, g, direct) && g == j * maxBlockSize && BoundKept(k)
      requires n == 0 || (prefs.autoFlush && tmpInSize == 0 && 0 < n < maxBlockSize && n == k.srcEnd - srcPtr)
      ensures BlocksSize(prefs, if n > 0 then j + 1 else j, g + n) + FrameEnd(prefs)
           <= BoundInternal(k.srcEnd - k.src, prefs, k.buffered0)
    {
      hide BlockStream.Good, Framed, Output, History, BoundInternal, BlocksSize, FrameInfo.MaxBlock;
      WithinBound(prefs, k.srcEnd - k.src, k.buffered0, j, g, n);
    }

    lemma SizeNow(m: seq<byte>, k: UpdateCall, srcPtr: nat, dstPtr: nat, j: nat, g: nat, direct: bool)
      requires Mid(m, k, srcPtr, dstPtr, j, g, direct)
      ensures k.dst <= dstPtr && dstPtr - k.dst <= BlocksSize(prefs, j, g)
    {
      hide BlockStream.Good, Framed, Input, History, Common, BlocksSize;
    }

    /** The rest of the input, if nothing may stay behind. */
    method LastOne(mem: array<byte>, k: UpdateCall, srcPtr: nat, dstPtr: nat, last0: LastBlock, ghost j: nat, ghost g: nat)
      returns (ip: nat, op: nat, last: LastBlock, ghost j': nat, ghost g': nat)
      requires Mid(mem[..], k, srcPtr, dstPtr, j, g, last0.FromSrcBuffer?) && BoundKept(k) && g == j * maxBlockSize
      requires (tmpInSize == 0 || srcPtr == k.srcEnd) && srcPtr <= k.srcEnd < srcPtr + maxBlockSize
      requires last0.FromSrcBuffer? ==> Total(pieces) > 3
      modifies `taken, `bs, `pieces, `extent
      modifies stream.fast, stream.fast.hashTable, stream.hc, stream.hc.hashTable, stream.hc.chainTable, mem
      ensures Mid(mem[..], k, ip, op, j', g', last.FromSrcBuffer?) && srcPtr <= ip <= k.srcEnd < ip + maxBlockSize
      ensures (prefs.autoFlush ==> ip == k.srcEnd) && (tmpInSize == 0 || ip == k.srcEnd)
      ensures op - k.dst + FrameEnd(prefs) <= BoundInternal(k.srcEnd - k.src, prefs, k.buffered0)
      ensures last == last0 || (last.FromSrcBuffer? && tmpInSize == 0)
      ensures !last.FromSrcBuffer? ==> stream.Remembers() == old(stream.Remembers()) && (old(Unattached()) ==> Unattached())
      ensures old(Unattached()) || last0.FromSrcBuffer? ==>
        pieces == old(pieces) + DirectPieces(ModeOf(prefs), Total(old(pieces)), k.srcEnd - srcPtr)
      ensures extent == DirectExtent(ModeOf(prefs), old(extent), old(stream.Remembers().end) == srcPtr, k.srcEnd - srcPtr)
      ensures last.FromSrcBuffer? <==> last0.FromSrcBuffer? || (prefs.autoFlush && srcPtr < k.srcEnd)
    {
      hide Mid, BoundKept, RoomFor, Buffers, BlockStream.Remembers, BoundInternal, BlocksSize, Total, Unattached,
           DirectExtent, HcStream.NextExtent;
      ip, op, last, j', g' := srcPtr, dstPtr, last0, j, g;
      SizesKnown(mem[..], k, ip, op, j, g, last.FromSrcBuffer?);
      ExtentDone(ModeOf(prefs), extent, stream.Remembers().end == srcPtr, k.srcEnd - srcPtr);
      if prefs.autoFlush && srcPtr < k.srcEnd {
        ghost var n := k.srcEnd - srcPtr;
        BoundNow(mem[..], k, ip, op, j, g', n, last.FromSrcBuffer?);
        RoomForFull(mem[..], k, ip, op, j, g, n, last.FromSrcBuffer?);
        op := EmitDirect(mem, k, ip, op, k.srcEnd - srcPtr, j, g, last.FromSrcBuffer?);
        ip, last, j', g' := k.srcEnd, FromSrcBuffer, j + 1, g + n;
      } else {
        BoundNow(mem[..], k, ip, op, j, g', 0, last.FromSrcBuffer?);
      }
      SizeNow(mem[..], k, ip, op, j', g', last.FromSrcBuffer?);
    }

    /** After the blocks: the history of linked blocks is brought to where it is safe, and there is
        room in the buffer for another block. */
    method KeepDict(mem: array<byte>, k: UpdateCall, srcPtr: nat, ghost dstPtr: nat, last: LastBlock, stableSrc: bool, ghost j: nat, ghost g: nat)
      returns (ok: bool)
      requires Mid(mem[..], k, srcPtr, dstPtr, j, g, last.FromSrcBuffer?) && (tmpInSize == 0 || (last.NotDone? && WithinLimits()))
      requires last.NotDone? ==> WithinLimits()
      requires last.FromTmpBuffer? && prefs.info.linked ==> stream.Remembers().start < stream.Remembers().end
      modifies `tmpIn, `extent, `clean, stream.fast, stream.hc, mem
      ensures !ok <==>
        prefs.info.linked && prefs.level >= LZ4HC_CLEVEL_MIN && last.FromSrcBuffer? && !stableSrc && old(extent).prefix >= TWO31
      ensures ok ==>
        && Mid(mem[..], k, srcPtr, dstPtr, j, g, false) && WithinLimits() && (!stableSrc ==> clean == old(clean))
        && ((last.FromSrcBuffer? ==> !stableSrc) && old(Unattached()) ==> Unattached())
        && (last.FromSrcBuffer? && !stableSrc ==> Unattached()) && Kept(extent) == Kept(old(extent))
    {
      hide Mid, Unattached, Common;
      MidBounds(mem[..], k, srcPtr, dstPtr, j, g, last.FromSrcBuffer?);
      SizesKnown(mem[..], k, srcPtr, dstPtr, j, g, last.FromSrcBuffer?);
      ok := true;
      if prefs.info.linked {
        if last.FromSrcBuffer? {
          if stableSrc {
            LeaveHistory(mem[..], k, srcPtr, dstPtr, j, g);
          } else {
            DirectIsLong(mem[..], k, srcPtr, dstPtr, j, g);
            ok := SaveHistory(mem, k, srcPtr, dstPtr, j, g, true);
          }
        }
        if ok && tmpIn + maxBlockSize > tmpBuff + maxBufferSize && !prefs.autoFlush {
          PrefixInTmp(mem[..], k, srcPtr, dstPtr, j, g);
          ok := SaveHistory(mem, k, srcPtr, dstPtr, j, g, false);
        }
      } else {
        Independent(mem[..], k, srcPtr, dstPtr, j, g, last.FromSrcBuffer?);
      }
    }

    /** The buffer does not hold too much to be saved. */
    lemma PrefixInTmp(m: seq<byte>, k: UpdateCall, srcPtr: nat, dstPtr: nat, j: nat, g: nat)
      requires Mid(m, k, srcPtr, dstPtr, j, g, false) && prefs.info.linked && tmpInSize == 0 && tmpIn > tmpBuff
      ensures prefs.level >= LZ4HC_CLEVEL_MIN ==> extent.prefix < TWO31
    {
      hide BlockStream.Good, Framed, Input, Output, RecallsAll, Recalls, ValidBlocks, AllSure, Caught, OffsetIs, Content;
    }

    lemma DirectIsLong(m: seq<byte>, k: UpdateCall, srcPtr: nat, dstPtr: nat, j: nat, g: nat)
      requires Mid(m, k, srcPtr, dstPtr, j, g, true) && prefs.info.linked
      ensures stream.Remembers().start < stream.Remembers().end && tmpInSize == 0
    {
      hide Common, BlockStream.Good, Framed, Input, Output, RecallsAll, Recalls;
    }

    lemma Independent(m: seq<byte>, k: UpdateCall, srcPtr: nat, dstPtr: nat, j: nat, g: nat, direct: bool)
      requires Mid(m, k, srcPtr, dstPtr, j, g, direct) && !prefs.info.linked
      ensures Mid(m, k, srcPtr, dstPtr, j, g, false) && Unattached()
    {
      hide Common, BlockStream.Good, Framed, Input, Output;
    }

    /** Nothing but the buffer and the range has changed. */
    ghost predicate Touches(m0: seq<byte>, m1: seq<byte>, lo: nat, hi: nat) {
      |m1| == |m0| && forall i :: 0 <= i < |m0| && !(tmpBuff <= i < tmpBuff + TMP_MAX) && !(lo <= i < hi) ==> m1[i] == m0[i]
    }

    lemma TouchesNothing(m: seq<byte>, lo: nat, hi: nat)
      ensures Touches(m, m, lo, hi)
    {
    }

    lemma TouchesMore(m0: seq<byte>, m1: seq<byte>, m2: seq<byte>, lo: nat, hi: nat, a: nat, b: nat)
      requires Touches(m0, m1, lo, hi) && SameOutside(m1, m2, a, b) && lo <= a && b <= hi
      ensures Touches(m0, m2, lo, hi)
    {
    }

    /** A range that is clear of both. */
    lemma Untouched(m0: seq<byte>, m1: seq<byte>, lo: nat, hi: nat, a: nat, b: nat)
      requires Touches(m0, m1, lo, hi) && a <= b <= |m0| && Disjoint(a, b, lo, hi) && Disjoint(a, b, tmpBuff, tmpBuff + TMP_MAX)
      ensures |m1| == |m0| && m1[a..b] == m0[a..b]
    {
      var x, y := m1[a..b], m0[a..b];
      forall i: nat | i < b - a ensures x[i] == y[i] {
        assert m1[a + i] == m0[a + i];
      }
    }

    /** Where a caller's input and room for output may lie. */
    predicate Space(size: nat, src: nat, srcSize: nat, dst: nat, dstCapacity: nat) {
      && 0 < src && src + srcSize + 3 <= size && dst + dstCapacity + MARGIN <= size
      && Disjoint(src, src + srcSize, dst, dst + dstCapacity + MARGIN)
      && Outside(src, src + srcSize) && Outside(dst, dst + dstCapacity + MARGIN)
    }

    /** They are clear of history that the caller promised to leave in place. */
    predicate Clear(src: nat, srcSize: nat, dst: nat, dstCapacity: nat)
      reads `prefs, stream`level, stream.fast, stream.hc
    {
      prefs.info.linked ==>
        var p := stream.Remembers();
        && p.Apart(dst, dst + dstCapacity + MARGIN) && p.ExtApart(dst, dst + dstCapacity + MARGIN) && p.Apart(src, src + srcSize)
    }

    /** What matters of the history is clear of a range. */
    predicate PastClear(lo: nat, hi: nat)
      reads `prefs, stream`level, stream.fast, stream.hc
    {
      prefs.info.linked ==> stream.Remembers().Apart(lo, hi) && stream.Remembers().ExtApart(lo, hi)
    }

    lemma UnattachedIsClear(size: nat, src: nat, srcSize: nat, dst: nat, dstCapacity: nat)
      requires Unattached() && Space(size, src, srcSize, dst, dstCapacity)
      ensures Clear(src, srcSize, dst, dstCapacity)
    {
    }

    lemma UpdateBegins(m: seq<byte>, k: UpdateCall)
      requires Valid(m) && k.src <= k.srcEnd && k.dst <= k.dstEnd && k.dst + 4 <= k.dstEnd && Space(|m|, k.src, k.srcEnd - k.src, k.dst, k.dstEnd - k.dst - 4)
      requires Clear(k.src, k.srcEnd - k.src, k.dst, k.dstEnd - k.dst - 4)
      requires k.m0 == m && k.bs0 == bs && k.taken0 == taken && k.buffered0 == tmpInSize
      requires k.dstEnd - k.dst >= BoundInternal(k.srcEnd - k.src, prefs, tmpInSize)
      ensures Mid(m, k, k.src, k.dst, 0, 0, false) && BoundKept(k) && WithinLimits()
      ensures tmpInSize < maxBlockSize && (prefs.autoFlush ==> tmpInSize == 0)
      ensures prefs.info.contentChecksum ==> xxh.Valid() && xxh.seed == 0 && xxh.seen == k.taken0
      ensures prefs.info.contentSize > 0 ==> totalInSize == |k.taken0| % TWO64
    {
      hide Common, BlockStream.Good, HashState.Valid, BoundInternal, Content, AllBlockBytes, Keeps;
      assert m[k.src..k.src] == [] && m[k.dst..k.dst] == [];
    }

    /** The content hash and the count of content. */
    method HashInput(mem: array<byte>, k: UpdateCall, ghost dstPtr: nat, ghost j: nat, ghost g: nat)
      requires Objects(mem) && Mid(mem[..], k, k.srcEnd, dstPtr, j, g, false)
      requires prefs.info.contentChecksum ==> xxh.Valid() && xxh.seed == 0 && xxh.seen == k.taken0
      requires prefs.info.contentSize > 0 ==> totalInSize == |k.taken0| % TWO64
      modifies `totalInSize, xxh, xxh.buffer
      ensures prefs.info.contentChecksum ==> xxh.Valid() && xxh.seed == 0 && xxh.seen == taken
      ensures prefs.info.contentSize > 0 ==> totalInSize == |taken| % TWO64
    {
      hide HashState.Valid, Mid;
      AllTaken(mem[..], k, dstPtr, j, g);
      if prefs.info.contentChecksum {
        xxh.Update(mem, k.src, k.srcEnd - k.src);
      }
      CountOn(|k.taken0|, k.srcEnd - k.src);
      totalInSize := (totalInSize + (k.srcEnd - k.src)) % TWO64;
    }

    lemma AllTaken(m: seq<byte>, k: UpdateCall, dstPtr: nat, j: nat, g: nat)
      requires Mid(m, k, k.srcEnd, dstPtr, j, g, false)
      ensures k.src <= k.srcEnd <= |m| && taken == k.taken0 + m[k.src..k.srcEnd] && |taken| == |k.taken0| + (k.srcEnd - k.src)
    {
      hide Common, BlockStream.Good, Framed, Output, History;
      SourceAt(m, k, k.src, k.srcEnd);
    }

    lemma UpdateEnds(m: seq<byte>, k: UpdateCall, dstPtr: nat, j: nat, g: nat)
      requires cStage == 1 && Mid(m, k, k.srcEnd, dstPtr, j, g, false) && WithinLimits() && tmpInSize < maxBlockSize
      requires prefs.info.contentChecksum ==> xxh.Valid() && xxh.seed == 0 && xxh.seen == taken
      requires prefs.info.contentSize > 0 ==> totalInSize == |taken| % TWO64
      ensures Valid(m) && taken == k.taken0 + k.m0[k.src..k.srcEnd] && k.dst <= dstPtr <= |m| && PastClear(k.dst, k.dstEnd + SLACK)
      ensures AllBlockBytes(prefs.info, bs) == AllBlockBytes(prefs.info, k.bs0) + m[k.dst..dstPtr]
      ensures Touches(k.m0, m, k.dst, k.dstEnd + SLACK)
    {
      hide Common, BlockStream.Good, HashState.Valid, Content, AllBlockBytes, Keeps;
    }

    /** History stands right before `at`. */
    predicate Joins(at: int)
      reads stream`level, stream.fast, stream.hc
    {
      stream.Remembers().end == at
    }

    /** Takes all the input: into the buffer, into blocks, and into the buffer again. */
    method TakeAll(mem: array<byte>, k: UpdateCall, stableSrc: bool) returns (ok: bool, dstPtr: nat, ghost j: nat, ghost g: nat)
      requires Mid(mem[..], k, k.src, k.dst, 0, 0, false) && BoundKept(k) && WithinLimits()
      requires tmpInSize < maxBlockSize && (prefs.autoFlush ==> tmpInSize == 0)
      modifies `tmpIn, `tmpInSize, `taken, `bs, `pieces, `extent, `clean
      modifies stream.fast, stream.fast.hashTable, stream.hc, stream.hc.hashTable, stream.hc.chainTable, mem
      ensures ModeOf(prefs).maxBlock == maxBlockSize && k.src <= k.srcEnd && old(tmpInSize) < ModeOf(prefs).maxBlock
      ensures !ok <==> !stableSrc && RunsAway(ModeOf(prefs), old(extent), old(Joins(tmpIn)), old(Joins(k.src)), old(tmpInSize), k.srcEnd - k.src)
      ensures ok && prefs.info.linked ==> Kept(extent) == Kept(UpdateExtent(ModeOf(prefs), old(extent), old(Joins(tmpIn)), old(Joins(k.src)), old(tmpInSize), k.srcEnd - k.src))
      ensures ok ==>
        && Mid(mem[..], k, k.srcEnd, dstPtr, j, g, false) && WithinLimits() && tmpInSize < maxBlockSize
        && dstPtr - k.dst + FrameEnd(prefs) <= BoundInternal(k.srcEnd - k.src, prefs, k.buffered0)
        && (old(Unattached()) && !stableSrc ==> Unattached()) && (!stableSrc ==> clean == old(clean))
        && (old(Unattached()) ==>
              pieces == old(pieces) + UpdatePieces(ModeOf(prefs), Total(old(pieces)), old(tmpInSize), k.srcEnd - k.src))
    {
      hide Mid, BoundKept, Unattached, Buffers, WithinLimits, BoundInternal, UpdatePieces, UpdateExtent, Joins,
           AnyDirect, Kept;
      var srcPtr, last;
      srcPtr, dstPtr, last, j, g := TakeBlocks(mem, k);
      ok := KeepDict(mem, k, srcPtr, dstPtr, last, stableSrc, j, g);
      if !ok {
        return;
      }
      MidBounds(mem[..], k, srcPtr, dstPtr, j, g, false);
      if srcPtr < k.srcEnd {
        Buffer(mem, k, srcPtr, dstPtr, k.srcEnd - srcPtr, j, g);
      }
    }

    method TakeBlocks(mem: array<byte>, k: UpdateCall) returns (srcPtr: nat, dstPtr: nat, last: LastBlock, ghost j: nat, ghost g: nat)
      requires Mid(mem[..], k, k.src, k.dst, 0, 0, false) && BoundKept(k) && WithinLimits()
      requires tmpInSize < maxBlockSize && (prefs.autoFlush ==> tmpInSize == 0)
      modifies `tmpIn, `tmpInSize, `taken, `bs, `pieces, `extent
      modifies stream.fast, stream.fast.hashTable, stream.hc, stream.hc.hashTable, stream.hc.chainTable, mem
      ensures Mid(mem[..], k, srcPtr, dstPtr, j, g, last.FromSrcBuffer?) && (last.NotDone? ==> WithinLimits())
      ensures srcPtr <= k.srcEnd < srcPtr + maxBlockSize && (prefs.autoFlush ==> srcPtr == k.srcEnd)
      ensures tmpInSize == 0 || (last.NotDone? && srcPtr == k.srcEnd && tmpInSize < maxBlockSize)
      ensures dstPtr - k.dst + FrameEnd(prefs) <= BoundInternal(k.srcEnd - k.src, prefs, k.buffered0)
      ensures !last.FromSrcBuffer? && old(Unattached()) ==> Unattached()
      ensures last.FromTmpBuffer? && prefs.info.linked ==> stream.Remembers().start < stream.Remembers().end
      ensures ModeOf(prefs).maxBlock == maxBlockSize && k.src <= k.srcEnd
      ensures old(Unattached()) ==>
        pieces == old(pieces) + UpdatePieces(ModeOf(prefs), Total(old(pieces)), old(tmpInSize), k.srcEnd - k.src)
      ensures prefs.info.linked ==> extent == UpdateExtent(ModeOf(prefs), old(extent), old(Joins(tmpIn)), old(Joins(k.src)), old(tmpInSize), k.srcEnd - k.src)
      ensures last.FromSrcBuffer? <==> AnyDirect(ModeOf(prefs), old(tmpInSize), k.srcEnd - k.src)
    {
      hide Mid, BoundKept, Unattached, Buffers, WithinLimits, BoundInternal, BlockStream.Remembers, Total,
           DirectPieces, Planned, DirectExtent, HcStream.NextExtent, UpdateExtent, UpdatePieces;
      srcPtr, dstPtr, last := k.src, k.dst, NotDone;
      j, g := 0, 0;
      MidBounds(mem[..], k, srcPtr, dstPtr, j, g, false);
      SizesKnown(mem[..], k, srcPtr, dstPtr, j, g, false);
      if tmpInSize > 0 {
        var done;
        srcPtr, dstPtr, done := CompleteTmp(mem, k);
        if done {
          last, j, g := FromTmpBuffer, 1, maxBlockSize;
        }
      }
      ghost var ps1, left1, e1, near1 := pieces, k.srcEnd - srcPtr, extent, stream.Remembers().end == srcPtr;
      srcPtr, dstPtr, last, j, g := FullBlocks(mem, k, srcPtr, dstPtr, last, j, g);
      ghost var ps2, left2 := pieces, k.srcEnd - srcPtr;
      srcPtr, dstPtr, last, j, g := LastOne(mem, k, srcPtr, dstPtr, last, j, g);
      if prefs.info.linked {
        ExtentPlan(ModeOf(prefs), old(extent), old(Joins(tmpIn)), old(Joins(k.src)), old(tmpInSize), k.srcEnd - k.src, e1, near1, left1);
      }
      if old(Unattached()) {
        PlanDone(ModeOf(prefs), old(pieces), old(tmpInSize), k.srcEnd - k.src, ps1, left1, ps2, left2);
      }
    }

    /** LZ4F_compressUpdate.  Whatever it is given it takes; what it writes are whole blocks, and
        no more than LZ4F_compressBound_internal allows for; and the context is good for another
        call.  Unless the caller promises to leave its input in place, no history stays there; but
        history of 2 GB and more, made straight from the input, cannot be saved. */
    method CompressUpdate(mem: array<byte>, dst: nat, dstCapacity: nat, src: nat, srcSize: nat, stableSrc: bool) returns (res: WriteResult)
      requires Objects(mem)
      requires cStage == 1 ==> Valid(mem[..]) && Space(mem.Length, src, srcSize, dst, dstCapacity) && Clear(src, srcSize, dst, dstCapacity)
      modifies this, stream.fast, stream.fast.hashTable, stream.hc, stream.hc.hashTable, stream.hc.chainTable, xxh, xxh.buffer, mem
      ensures res.Refused? <==> old(cStage) != 1 || dstCapacity < BoundInternal(srcSize, old(prefs), old(tmpInSize))
      ensures !res.Refused? ==> old(tmpInSize) < ModeOf(old(prefs)).maxBlock
      ensures !res.Refused? ==>
        (res.Undefined? <==>
          !stableSrc && RunsAway(ModeOf(old(prefs)), old(extent), old(Joins(tmpIn)), old(Joins(src)), old(tmpInSize), srcSize))
      ensures res.Written? ==>
        && cStage == 1 && Valid(mem[..]) && prefs == old(prefs) && taken == old(taken) + old(mem[src..src + srcSize])
        && res.size + FrameEnd(prefs) <= BoundInternal(srcSize, prefs, old(tmpInSize)) && dst + res.size <= mem.Length
        && AllBlockBytes(prefs.info, bs) == AllBlockBytes(prefs.info, old(bs)) + mem[dst..dst + res.size]
        && (old(Unattached()) && !stableSrc ==> Unattached()) && PastClear(dst, dst + dstCapacity + MARGIN)
        && (!stableSrc ==> clean == old(clean))
        && (prefs.info.linked ==>
              Kept(extent) == Kept(UpdateExtent(ModeOf(prefs), old(extent), old(Joins(tmpIn)), old(Joins(src)), old(tmpInSize), srcSize)))
        && (old(Unattached()) ==>
              pieces == old(pieces) + UpdatePieces(ModeOf(prefs), Total(old(pieces)), old(tmpInSize), srcSize))
      ensures !res.Undefined? ==> Touches(old(mem[..]), mem[..], dst, dst + dstCapacity + MARGIN)
    {
      hide Mid, BoundKept, Unattached, Buffers, WithinLimits, BoundInternal, Content, AllBlockBytes, Common,
           BlockStream.Good, HashState.Valid, Keeps, Layout, Framed, Space, Clear, History, UpdatePieces, Blank,
           Total, Touches, PastClear, FrameEnd, UpdateExtent, RunsAway, Joins, Kept, Extents;
      TouchesNothing(mem[..], dst, dst + dstCapacity + MARGIN);
      if cStage != 1 || dstCapacity < BoundInternal(srcSize, prefs, tmpInSize) {
        return Refused;
      }
      var k := UpdateCall(src, src + srcSize, dst, dst + dstCapacity + 4, mem[..], bs, taken, tmpInSize);
      UpdateBegins(mem[..], k);
      var ok, dstPtr;
      ghost var j, g;
      ok, dstPtr, j, g := TakeAll(mem, k, stableSrc);
      if !ok {
        return Undefined;
      }
      HashInput(mem, k, dstPtr, j, g);
      UpdateEnds(mem[..], k, dstPtr, j, g);
      res := Written(dstPtr - dst);
    }

    // -------------------------------------------------------------- LZ4F_flush and LZ4F_compressEnd

    /** Room for output, and four bytes for a checksum that LZ4F_flush does not count. */
    predicate FlushSpace(size: nat, dst: nat, dstCapacity: nat) {
      0 < dst && dst + dstCapacity + MARGIN <= size && Outside(dst, dst + dstCapacity + MARGIN)
    }

    /** LZ4F_flush. */
    method Flush(mem: array<byte>, dst: nat, dstCapacity: nat) returns (res: WriteResult)
      requires Objects(mem) && cStage == 1 && Valid(mem[..]) && FlushSpace(mem.Length, dst, dstCapacity) && Clear(dst, 0, dst, dstCapacity)
      modifies `tmpIn, `tmpInSize, `bs, `pieces, `extent, `clean
      modifies stream.fast, stream.fast.hashTable, stream.hc, stream.hc.hashTable, stream.hc.chainTable, mem
      ensures !res.Undefined? && (res.Refused? <==> old(tmpInSize) > 0 && dstCapacity < old(tmpInSize) + 4)
      ensures Valid(mem[..]) && taken == old(taken) && clean == old(clean)
      ensures res.Written? && (old(Unattached()) || old(tmpInSize) == 0) ==> pieces == old(pieces) + FlushPieces(old(tmpInSize))
      ensures res.Written? ==> Kept(extent) == Kept(FlushExtent(old(extent), old(Joins(tmpIn)), old(tmpInSize)))
      ensures res.Written? ==>
        && tmpInSize == 0 && Content(bs) == taken && dst + res.size <= mem.Length
        && res.size <= (if old(tmpInSize) > 0 then 4 + old(tmpInSize) + prefs.info.Crc() else 0)
        && AllBlockBytes(prefs.info, bs) == AllBlockBytes(prefs.info, old(bs)) + mem[dst..dst + res.size]
        && (old(Unattached()) ==> Unattached())
      ensures Touches(old(mem[..]), mem[..], dst, dst + dstCapacity + MARGIN)
    {
      hide Mid, Unattached, Buffers, WithinLimits, Content, AllBlockBytes, Common, BlockStream.Good, HashState.Valid,
           Keeps, Layout, Framed, Clear, History, RoomFor, BoundInternal;
      TouchesNothing(mem[..], dst, dst + dstCapacity + MARGIN);
      if tmpInSize == 0 {
        NothingToFlush(mem[..], dst);
        return Written(0);
      }
      if dstCapacity < tmpInSize + 4 {
        return Refused;
      }
      var k := UpdateCall(dst, dst, dst, dst + dstCapacity + 4, mem[..], bs, taken, tmpInSize);
      FlushBegins(mem[..], k, dstCapacity);
      var dstPtr := FlushBlock(mem, k);
      UpdateEnds(mem[..], k, dstPtr, 1, old(tmpInSize));
      FlushEnds(mem[..]);
      res := Written(dstPtr - dst);
    }

    method FlushBlock(mem: array<byte>, k: UpdateCall) returns (dstPtr: nat)
      requires Mid(mem[..], k, k.src, k.dst, 0, 0, false) && k.src == k.srcEnd && WithinLimits() && 0 < tmpInSize < maxBlockSize && RoomFor(k, 0, 0, tmpInSize)
      requires !prefs.autoFlush
      modifies `tmpIn, `tmpInSize, `bs, `pieces, `extent, `clean
      modifies stream.fast, stream.fast.hashTable, stream.hc, stream.hc.hashTable, stream.hc.chainTable, mem
      ensures Mid(mem[..], k, k.srcEnd, dstPtr, 1, old(tmpInSize), false) && WithinLimits() && tmpInSize == 0
      ensures clean == old(clean) && (old(Unattached()) ==> pieces == old(pieces) + [Piece(old(tmpInSize), false)])
      ensures dstPtr - k.dst <= 4 + old(tmpInSize) + prefs.info.Crc() && (old(Unattached()) ==> Unattached())
      ensures Kept(extent) == Kept(HcStream.NextExtent(old(extent), old(Joins(tmpIn)), old(tmpInSize)))
    {
      hide Mid, Unattached, Common, RoomFor;
      ghost var n := tmpInSize;
      MidBounds(mem[..], k, k.src, k.dst, 0, 0, false);
      dstPtr := EmitBuffered(mem, k, k.src, k.dst, 0, 0);
      SizeNow(mem[..], k, k.src, dstPtr, 1, n, false);
      var ok := KeepDict(mem, k, k.src, dstPtr, FromTmpBuffer, false, 1, n);
      assert ok;
    }

    lemma NothingToFlush(m: seq<byte>, dst: nat)
      requires Valid(m) && tmpInSize == 0 && dst <= |m|
      ensures Content(bs) == taken && AllBlockBytes(prefs.info, bs) == AllBlockBytes(prefs.info, bs) + m[dst..dst + 0]
    {
      hide Content, AllBlockBytes, Common, BlockStream.Good, HashState.Valid, Keeps;
      assert m[tmpIn..tmpIn + 0] == [] == m[dst..dst + 0];
    }

    lemma FlushBegins(m: seq<byte>, k: UpdateCall, dstCapacity: nat)
      requires Valid(m) && FlushSpace(|m|, k.dst, dstCapacity) && Clear(k.dst, 0, k.dst, dstCapacity)
      requires 0 < tmpInSize && tmpInSize + 4 <= dstCapacity
      requires k.src == k.srcEnd == k.dst && k.dstEnd == k.dst + dstCapacity + 4
      requires k.m0 == m && k.bs0 == bs && k.taken0 == taken && k.buffered0 == tmpInSize
      ensures Mid(m, k, k.src, k.dst, 0, 0, false) && WithinLimits() && RoomFor(k, 0, 0, tmpInSize)
      ensures tmpInSize < maxBlockSize && !prefs.autoFlush
      ensures prefs.info.contentChecksum ==> xxh.Valid() && xxh.seed == 0 && xxh.seen == k.taken0
      ensures prefs.info.contentSize > 0 ==> totalInSize == |k.taken0| % TWO64
    {
      hide Common, BlockStream.Good, HashState.Valid, Content, AllBlockBytes, Keeps;
      assert m[k.src..k.src] == [] && m[k.dst..k.dst] == [];
    }

    lemma FlushEnds(m: seq<byte>)
      requires Valid(m) && tmpInSize == 0
      ensures Content(bs) == taken
    {
      hide Content, AllBlockBytes, Common, BlockStream.Good, HashState.Valid, Keeps;
      assert m[tmpIn..tmpIn + 0] == [];
    }

    /** LZ4F_compressEnd: what is buffered, the end mark, and the checksum of the content.  Only a
        content size that was announced and is not met makes it fail once there is room.  It looks
        for room for no more than what is buffered and four bytes; what it writes is the block made
        of that, if there is one, and `FrameEnd` bytes, and goes past its room just when that is
        more. */
    method End(mem: array<byte>, dst: nat, dstCapacity: nat) returns (res: WriteResult)
      requires Objects(mem) && cStage == 1 && Valid(mem[..]) && FlushSpace(mem.Length, dst, dstCapacity) && Clear(dst, 0, dst, dstCapacity)
      modifies this
      modifies stream.fast, stream.fast.hashTable, stream.hc, stream.hc.hashTable, stream.hc.chainTable, mem
      ensures !res.Undefined?
      ensures res.Refused? <==>
        || (old(tmpInSize) > 0 && dstCapacity < old(tmpInSize) + 4)
        || (prefs.info.contentSize > 0 && prefs.info.contentSize != |taken| % TWO64)
      ensures prefs == old(prefs) && taken == old(taken) && clean == old(clean) && stream.Good(mem.Length) && Layout(mem.Length)
      ensures res.Written? && (old(Unattached()) || old(tmpInSize) == 0) ==> pieces == old(pieces) + FlushPieces(old(tmpInSize))
      ensures Touches(old(mem[..]), mem[..], dst, dst + dstCapacity + MARGIN)
      ensures res.Written? ==>
        && cStage == 0 && Content(bs) == taken && (AllSure(ModeOf(prefs), pieces) ==> ValidBlocks(prefs.info, bs)) && Caught(prefs, pieces, bs, clean)
        && dst + res.size <= mem.Length && res.size <= (if old(tmpInSize) > 0 then 4 + old(tmpInSize) + prefs.info.Crc() else 0) + FrameEnd(prefs)
        && AllBlockBytes(prefs.info, bs) + EndBytes(prefs.info, taken) == AllBlockBytes(prefs.info, old(bs)) + mem[dst..dst + res.size]
        && res.size == |AllBlockBytes(prefs.info, bs)| - |AllBlockBytes(prefs.info, old(bs))| + FrameEnd(prefs)
        && (dstCapacity >= (if old(tmpInSize) > 0 then 4 + old(tmpInSize) + prefs.info.Crc() else 0) + FrameEnd(prefs) ==> res.size <= dstCapacity)
    {
      hide Touches, Unattached, Content, AllBlockBytes, HashState.Valid, Valid, BlockStream.Good, EndBytes,
           ValidBlocks, Caught, AllSure, Clear;
      ghost var m0, a0 := mem[..], AllBlockBytes(prefs.info, bs);
      res := Flush(mem, dst, dstCapacity);
      ClosedFacts(mem[..]);
      if res.Written? {
        var n := Close(mem, dst, res.size, a0, m0, dst + dstCapacity + MARGIN);
        res := if prefs.info.contentSize > 0 && prefs.info.contentSize != totalInSize then Refused else Written(res.size + n);
      }
    }

    method Close(mem: array<byte>, dst: nat, flushed: nat, ghost a0: seq<byte>, ghost m0: seq<byte>, ghost hi: nat) returns (n: nat)
      requires Objects(mem) && dst + flushed + 8 <= hi <= mem.Length && AllBlockBytes(prefs.info, bs) == a0 + mem[dst..dst + flushed]
      requires prefs.info.contentChecksum ==> xxh.Valid() && xxh.seed == 0 && xxh.seen == taken
      requires Touches(m0, mem[..], dst, hi)
      modifies `cStage, `maxBufferSize, mem
      ensures n == FrameEnd(prefs) && cStage == 0 && maxBufferSize == 0
      ensures AllBlockBytes(prefs.info, bs) + EndBytes(prefs.info, taken) == a0 + mem[dst..dst + flushed + n]
      ensures flushed + n == |AllBlockBytes(prefs.info, bs)| - |a0| + FrameEnd(prefs)
      ensures Touches(m0, mem[..], dst, hi)
    {
      hide AllBlockBytes, HashState.Valid, EndBytes, SameOutside, Touches;
      ghost var m1, a := mem[..], AllBlockBytes(prefs.info, bs);
      n := WriteEnd(mem, dst + flushed);
      Joined(m1, mem[..], dst, dst + flushed, n, a0, a, EndBytes(prefs.info, taken));
      TouchesMore(m0, m1, mem[..], dst, hi, dst + flushed, dst + flushed + n);
      cStage, maxBufferSize := 0, 0;
    }

    lemma ClosedFacts(m: seq<byte>)
      requires Valid(m)
      ensures Layout(|m|) && stream.Good(|m|) && (AllSure(ModeOf(prefs), pieces) ==> ValidBlocks(prefs.info, bs)) && Caught(prefs, pieces, bs, clean)
      ensures prefs.info.contentChecksum ==> xxh.Valid() && xxh.seed == 0 && xxh.seen == taken
      ensures prefs.info.contentSize > 0 ==> totalInSize == |taken| % TWO64
    {
      hide Content, HashState.Valid, Keeps, BlockStream.Good, OffsetIs, ValidBlocks, Caught, AllSure, Total, Blank,
           Unattached;
    }

    /** End mark and content checksum. */
    method WriteEnd(mem: array<byte>, p: nat) returns (n: nat)
      requires Objects(mem) && p + 8 <= mem.Length && (prefs.info.contentChecksum ==> xxh.Valid() && xxh.seed == 0 && xxh.seen == taken)
      modifies mem
      ensures n == FrameEnd(prefs) && mem[p..p + n] == EndBytes(prefs.info, taken) && SameOutside(old(mem[..]), mem[..], p, p + n)
    {
      hide HashState.Valid, SameOutside, PutAt, LeBytes, Hash;
      ghost var m0 := mem[..];
      Nothing(m0, p);
      Put(mem, m0, p, p, 0, 4, []);
      ghost var done := [] + LeBytes(0, 4);
      n := 4;
      if prefs.info.contentChecksum {
        var resultCRC := xxh.Digest();
        Put(mem, m0, p, p + 4, resultCRC, 4, done);
        n, done := 8, done + LeBytes(Checksum(taken), 4);
      }
      PutDone(m0, mem[..], p, p + n, done);
      assert done == EndBytes(prefs.info, taken);
    }

    /** Between two calls a caller that has promised nothing may do to its own buffers what it likes. */
    lemma CallersBuffers(m0: seq<byte>, m1: seq<byte>)
      requires Valid(m0) && Unattached() && |m1| == |m0|
      requires forall i :: 0 <= i < |m0| && tmpBuff <= i < tmpBuff + TMP_MAX ==> m1[i] == m0[i]
      ensures Valid(m1)
    {
      hide Common, BlockStream.Good, HashState.Valid, Keeps, Content;
      SameIn(m0, m1, tmpBuff, tmpBuff + TMP_MAX, tmpIn, tmpIn + tmpInSize);
      if prefs.info.linked {
        KeepsSame(m0, m1, stream.Remembers(), Content(bs));
      }
    }

    lemma KeepsSame(m0: seq<byte>, m1: seq<byte>, p: Past, c: seq<byte>)
      requires Keeps(m0, p, c, tmpIn, tmpInSize) && Loose(p) && |m1| == |m0|
      requires forall i :: 0 <= i < |m0| && tmpBuff <= i < tmpBuff + TMP_MAX ==> m1[i] == m0[i]
      ensures Keeps(m1, p, c, tmpIn, tmpInSize)
    {
      hide EndsWith;
      AllIsLess(m0, p, c);
      if p.start < p.end {
        SameIn(m0, m1, tmpBuff, tmpBuff + TMP_MAX, p.start, p.end);
      } else {
        assert m0[p.start..p.end] == [] == m1[p.start..p.end];
      }
      assert p.extLo == p.extHi ==> m0[p.extLo..p.extHi] == [] == m1[p.extLo..p.extHi];
    }
  }

  // ---------------------------------------------------------------- LZ4F_compressFrame

  /** The preferences LZ4F_compressFrame goes by: the announced size is the real one, blocks are
      no larger than they need to be, and a single block is not linked to anything. */
  function FramePreferences(p: Preferences, srcSize: nat): Preferences {
    var id := OptimalBSID(p.info.blockSizeID, srcSize);
    var info := p.info.(contentSize := if p.info.contentSize != 0 then srcSize else 0, blockSizeID := id);
    Preferences(if srcSize <= info.MaxBlock() then info.(linked := false) else info, p.level, true)
  }

  /** Room that would do for the caller's preferences will do. */
  lemma FrameBoundHolds(p: Preferences, srcSize: nat)
    requires Effective(p).info.Valid() && srcSize < TWO64
    ensures Effective(FramePreferences(p, srcSize)).info.Valid()
    ensures FrameBound(srcSize, FramePreferences(p, srcSize)) == FrameBound(srcSize, p)
    ensures BoundInternal(srcSize, Effective(FramePreferences(p, srcSize)), 0) + MAX_FH_SIZE == FrameBound(srcSize, p)
    ensures var e := Effective(FramePreferences(p, srcSize)); e.autoFlush && (e.info.contentSize > 0 ==> e.info.contentSize == srcSize)
  {
    hide BoundInternal, OptimalBSID;
    var f, e := FramePreferences(p, srcSize), Effective(FramePreferences(p, srcSize));
    var id := OptimalBSID(p.info.blockSizeID, srcSize);
    var o := p.(info := p.info.(blockSizeID := id), autoFlush := true);
    if p.info.blockSizeID != 0 {
      OptimalKeepsBound(p, srcSize);
      OptimalIsValid(p.info.blockSizeID, srcSize);
    }
    SameBound(srcSize, o, f);
    SameBound(srcSize, o, e);
  }

  lemma OptimalIsValid(requested: nat, srcSize: nat)
    requires 4 <= requested <= 7
    ensures 4 <= OptimalBSID(requested, srcSize) <= 7
  {
  }

  /** The bound depends on little. */
  lemma SameBound(srcSize: nat, p: Preferences, q: Preferences)
    requires p.info.MaxBlock() == q.info.MaxBlock() && p.info.Crc() == q.info.Crc() && FrameEnd(p) == FrameEnd(q)
    requires p.autoFlush && q.autoFlush
    ensures BoundInternal(srcSize, p, 0) == BoundInternal(srcSize, q, 0)
  {
    hide FrameInfo.MaxBlock, FrameInfo.Crc, FrameEnd;
  }

  /** LZ4F_compressFrame: a whole frame in one step.  With the room that LZ4F_compressFrameBound
      asks for on behalf of the caller's preferences it does not fail, and it does not use more;
      what it writes is a frame whose blocks hold the source. */
  method CompressFrame(mem: array<byte>, cctx: FrameCompressor, dst: nat, dstCapacity: nat, src: nat, srcSize: nat, preferences: Preferences)
    returns (res: WriteResult)
    requires cctx.Objects(mem) && cctx.Layout(mem.Length) && cctx.stream.Good(mem.Length) && Effective(preferences).info.Valid()
    requires srcSize < TWO64 && cctx.Space(mem.Length, src, srcSize, dst, dstCapacity) && 0 < dst
    modifies cctx, cctx.stream, cctx.stream.fast, cctx.stream.fast.hashTable, cctx.stream.hc, cctx.stream.hc.hashTable
    modifies cctx.stream.hc.chainTable, cctx.xxh, cctx.xxh.buffer, mem
    ensures res.Written? <==> dstCapacity >= FrameBound(srcSize, preferences)
    ensures res.Written? ==>
      && res.size <= FrameBound(srcSize, preferences) && dst + res.size <= mem.Length && cctx.prefs.info.Valid()
      && mem[dst..dst + res.size] == FrameBytes(cctx.prefs.info, cctx.bs) && Content(cctx.bs) == old(mem[src..src + srcSize])
      && (SureSize(cctx.prefs, srcSize) ==> ValidBlocks(cctx.prefs.info, cctx.bs))
      && (!SureSize(cctx.prefs, srcSize) && old(mem[src..src + srcSize]) == Counting(srcSize) ==> HasBad(cctx.prefs.info, cctx.bs))
      && (cctx.prefs.info.contentSize > 0 ==> cctx.prefs.info.contentSize == srcSize)
  {
    hide FrameCompressor.Layout, FrameCompressor.Valid, BlockStream.Good, BoundInternal, OptimalBSID, FrameInfo.Valid,
         HeaderBytes, AllBlockBytes, EndBytes, Content, ValidBlocks, SureSize, HasBad, SameOutside, FrameBytes,
         FramePreferences, FrameCompressor.Space, Effective;
    var prefs := FramePreferences(preferences, srcSize);
    FrameBoundHolds(preferences, srcSize);
    if dstCapacity < FrameBound(srcSize, prefs) {
      return Refused;
    }
    RoomForHeader(cctx, mem.Length, src, srcSize, dst, dstCapacity);
    ghost var m0, source := mem[..], mem[src..src + srcSize];
    res := cctx.Begin(mem, dst, dstCapacity, prefs);
    var p := dst + res.size;
    ghost var m1, header := mem[..], mem[dst..p];
    assert header == HeaderBytes(cctx.prefs.info);
    HeaderApart(cctx, m0, m1, src, srcSize, dst, dstCapacity, p);
    var n := FillFrame(mem, cctx, p, dst + dstCapacity, src, srcSize);
    FrameDone(cctx, m1, mem[..], dst, p, n, dst + dstCapacity + MARGIN, header, source);
    res := Written(p + n - dst);
  }

  lemma RoomForHeader(cctx: FrameCompressor, size: nat, src: nat, srcSize: nat, dst: nat, dstCapacity: nat)
    requires cctx.Space(size, src, srcSize, dst, dstCapacity)
    ensures dst + dstCapacity + MARGIN <= size && src + srcSize <= size
  {
  }

  lemma HeaderApart(cctx: FrameCompressor, m0: seq<byte>, m1: seq<byte>, src: nat, srcSize: nat, dst: nat, dstCapacity: nat, p: nat)
    requires cctx.Space(|m0|, src, srcSize, dst, dstCapacity) && dst <= p <= dst + dstCapacity && SameOutside(m0, m1, dst, p) && cctx.Unattached()
    ensures |m1| == |m0| && src + srcSize <= |m0| && m1[src..src + srcSize] == m0[src..src + srcSize]
    ensures cctx.Space(|m1|, src, srcSize, p, dst + dstCapacity - p) && cctx.Clear(src, srcSize, p, dst + dstCapacity - p)
    ensures cctx.Outside(dst, p)
  {
    SliceKept(m0, m1, dst, p, src, src + srcSize);
    cctx.UnattachedIsClear(|m0|, src, srcSize, p, dst + dstCapacity - p);
  }

  /** All blocks of a frame made in one step can be relied on. */
  predicate SureSize(p: Preferences, srcSize: nat) {
    p.level >= LZ4HC_CLEVEL_MIN || Works(ModeOf(p).acceleration, srcSize)
  }

  lemma {:induction false} SureDirect(mode: Mode, ps: seq<Piece>, k: nat)
    requires mode.maxBlock >= 0x1_0000 && mode.autoFlush && (Total(ps) == 0 || Total(ps) > 3) && AllSure(mode, ps)
    requires !mode.fast || Works(mode.acceleration, k)
    ensures AllSure(mode, ps + DirectPieces(mode, Total(ps), k))
    decreases k
  {
    hide Advancing, AllSure, NoneFar, Total;
    if k >= mode.maxBlock {
      var p, ds := Direct(mode, Total(ps), mode.maxBlock), DirectPieces(mode, Total(ps) + mode.maxBlock, k - mode.maxBlock);
      OneMorePiece(mode, ps, p);
      SureDirect(mode, ps + [p], k - mode.maxBlock);
      assert ps + ([p] + ds) == (ps + [p]) + ds;
    } else if k > 0 {
      OneMorePiece(mode, ps, Direct(mode, Total(ps), k));
    } else {
      assert ps + [] == ps;
    }
  }

  /** The first of the blocks is the first that cannot be relied on, if there is one. */
  lemma {:induction false} TrapFirst(mode: Mode, p: Piece, ds: seq<Piece>)
    requires !SurePiece(mode, [], p)
    ensures !AllSure(mode, [p] + ds) && TrapStart(mode, [p] + ds) == 0
    decreases |ds|
  {
    hide SurePiece;
    if ds == [] {
      assert [p] + ds == [p] && [p][..0] == [];
      OneMorePiece(mode, [], p);
      assert [] + [p] == [p];
    } else {
      var ps := [p] + ds[..|ds| - 1];
      TrapFirst(mode, p, ds[..|ds| - 1]);
      OneMorePiece(mode, ps, ds[|ds| - 1]);
      assert ps + [ds[|ds| - 1]] == [p] + ds;
    }
  }

  lemma FrameSure(p: Preferences, srcSize: nat, bs: seq<FrameBlock>, clean: bool)
    requires p.info.Valid() && p.autoFlush && ModeOf(p).maxBlock >= 0x1_0000
    requires var ps := [] + UpdatePieces(ModeOf(p), 0, 0, srcSize);
             (AllSure(ModeOf(p), ps) ==> ValidBlocks(p.info, bs)) && Caught(p, ps, bs, clean)
    ensures SureSize(p, srcSize) ==> ValidBlocks(p.info, bs)
    ensures !SureSize(p, srcSize) && Content(bs) == Counting(srcSize) ==> HasBad(p.info, bs)
  {
    hide Advancing, ValidBlocks, HasBad, Content, FrameInfo.Valid, FrameInfo.MaxBlock;
    var mode := ModeOf(p);
    if SureSize(p, srcSize) {
      SureDirect(mode, [], srcSize);
    } else {
      var n := if srcSize >= mode.maxBlock then mode.maxBlock else srcSize;
      var ds := if srcSize >= mode.maxBlock then DirectPieces(mode, mode.maxBlock, srcSize - mode.maxBlock) else [];
      assert [] + UpdatePieces(mode, 0, 0, srcSize) == [Direct(mode, 0, n)] + ds;
      TrapFirst(mode, Direct(mode, 0, n), ds);
    }
  }

  /** Everything but the header: one update, and the end. */
  method FillFrame(mem: array<byte>, cctx: FrameCompressor, p: nat, dstEnd: nat, src: nat, srcSize: nat) returns (n: nat)
    requires cctx.Objects(mem) && cctx.Valid(mem[..]) && cctx.cStage == 1 && cctx.prefs.autoFlush && cctx.bs == [] && cctx.taken == []
    requires cctx.pieces == [] && cctx.Unattached() && cctx.prefs.info.Valid()
    requires 0 < p <= dstEnd && cctx.Space(mem.Length, src, srcSize, p, dstEnd - p) && cctx.Clear(src, srcSize, p, dstEnd - p)
    requires dstEnd - p >= BoundInternal(srcSize, cctx.prefs, 0) && srcSize < TWO64 && src + srcSize <= mem.Length
    requires cctx.prefs.info.contentSize > 0 ==> cctx.prefs.info.contentSize == srcSize
    modifies cctx, cctx.stream.fast, cctx.stream.fast.hashTable, cctx.stream.hc, cctx.stream.hc.hashTable
    modifies cctx.stream.hc.chainTable, cctx.xxh, cctx.xxh.buffer, mem
    ensures cctx.prefs == old(cctx.prefs) && n <= BoundInternal(srcSize, cctx.prefs, 0) && p + n <= mem.Length
    ensures cctx.Touches(old(mem[..]), mem[..], p, dstEnd + MARGIN)
    ensures Content(cctx.bs) == old(mem[src..src + srcSize])
    ensures SureSize(cctx.prefs, srcSize) ==> ValidBlocks(cctx.prefs.info, cctx.bs)
    ensures !SureSize(cctx.prefs, srcSize) && old(mem[src..src + srcSize]) == Counting(srcSize) ==> HasBad(cctx.prefs.info, cctx.bs)
    ensures mem[p..p + n] == AllBlockBytes(cctx.prefs.info, cctx.bs) + EndBytes(cctx.prefs.info, Content(cctx.bs))
  {
    hide FrameCompressor.Layout, FrameCompressor.Valid, BlockStream.Good, BoundInternal, FrameInfo.Valid,
         AllBlockBytes, EndBytes, Content, ValidBlocks, SureSize, HasBad, Caught, AllSure, Total,
         FrameCompressor.Touches, FrameCompressor.Unattached, Kept, UpdateExtent, RunsAway, FrameCompressor.Space,
         FrameCompressor.FlushSpace, FrameCompressor.Clear, FrameCompressor.PastClear;
    ghost var m0, source := mem[..], mem[src..src + srcSize];
    var first := FillBlocks(mem, cctx, p, dstEnd, src, srcSize);
    ghost var m1 := mem[..];
    var q := p + first;
    var res := cctx.End(mem, q, dstEnd - q);
    n := first + res.size;
    SizeIs(cctx.prefs);
    FrameSure(cctx.prefs, srcSize, cctx.bs, cctx.clean);
    FilledBytes(cctx, m1, mem[..], p, q, n, dstEnd, src, srcSize, source);
    TouchesWhole(cctx, m0, m1, mem[..], p, q, dstEnd + MARGIN);
  }

  /** All of the source goes into blocks. */
  method FillBlocks(mem: array<byte>, cctx: FrameCompressor, p: nat, dstEnd: nat, src: nat, srcSize: nat) returns (n: nat)
    requires cctx.Objects(mem) && cctx.Valid(mem[..]) && cctx.cStage == 1 && cctx.prefs.autoFlush && cctx.bs == [] && cctx.taken == []
    requires cctx.pieces == [] && cctx.Unattached()
    requires 0 < p <= dstEnd && cctx.Space(mem.Length, src, srcSize, p, dstEnd - p) && cctx.Clear(src, srcSize, p, dstEnd - p)
    requires dstEnd - p >= BoundInternal(srcSize, cctx.prefs, 0) && src + srcSize <= mem.Length
    modifies cctx, cctx.stream.fast, cctx.stream.fast.hashTable, cctx.stream.hc, cctx.stream.hc.hashTable
    modifies cctx.stream.hc.chainTable, cctx.xxh, cctx.xxh.buffer, mem
    ensures cctx.prefs == old(cctx.prefs) && cctx.cStage == 1 && cctx.Valid(mem[..]) && cctx.tmpInSize == 0
    ensures cctx.taken == old(mem[src..src + srcSize])
    ensures n + FrameEnd(cctx.prefs) <= BoundInternal(srcSize, cctx.prefs, 0) && p + n <= mem.Length
    ensures cctx.FlushSpace(mem.Length, p + n, dstEnd - (p + n)) && cctx.Clear(p + n, 0, p + n, dstEnd - (p + n))
    ensures cctx.pieces + FlushPieces(0) == [] + UpdatePieces(ModeOf(cctx.prefs), 0, 0, srcSize)
    ensures AllBlockBytes(cctx.prefs.info, cctx.bs) == [] + mem[p..p + n]
    ensures cctx.Touches(old(mem[..]), mem[..], p, dstEnd + MARGIN)
  {
    hide FrameCompressor.Layout, FrameCompressor.Valid, BlockStream.Good, BoundInternal, FrameInfo.Valid,
         AllBlockBytes, Content, Total, FrameCompressor.Touches, FrameCompressor.Space, FrameCompressor.FlushSpace,
         FrameCompressor.Clear, FrameCompressor.PastClear, FrameCompressor.Unattached, Kept, UpdateExtent, RunsAway,
         UpdatePieces;
    NothingYet(cctx, mem[..]);
    var res := cctx.CompressUpdate(mem, p, dstEnd - p, src, srcSize, true);
    n := res.size;
    assert [] + cctx.taken == cctx.taken;
    NothingLeft(cctx, mem[..], p, p + n, dstEnd, src, srcSize);
    var pieces := [] + UpdatePieces(ModeOf(cctx.prefs), 0, 0, srcSize);
    assert pieces + FlushPieces(0) == pieces;
  }

  lemma SizeIs(p: Preferences)
    requires p.info.Valid()
    ensures ModeOf(p).maxBlock >= 0x1_0000
  {
  }

  lemma NothingYet(cctx: FrameCompressor, m: seq<byte>)
    requires cctx.Valid(m) && cctx.prefs.autoFlush
    ensures cctx.tmpInSize == 0 && AllBlockBytes(cctx.prefs.info, []) == [] && Total([]) == 0
  {
    hide FrameCompressor.Common, BlockStream.Good, FrameCompressor.Keeps, HashState.Valid, Content;
  }

  lemma NothingLeft(cctx: FrameCompressor, m: seq<byte>, p: nat, q: nat, dstEnd: nat, src: nat, srcSize: nat)
    requires cctx.Valid(m) && cctx.prefs.autoFlush && 0 < p <= q <= dstEnd && cctx.Space(|m|, src, srcSize, p, dstEnd - p)
    requires cctx.PastClear(p, dstEnd + MARGIN)
    ensures cctx.tmpInSize == 0 && cctx.FlushSpace(|m|, q, dstEnd - q) && cctx.Clear(q, 0, q, dstEnd - q)
  {
    NothingYet(cctx, m);
    hide FrameCompressor.Valid;
  }

  lemma FilledBytes(cctx: FrameCompressor, m1: seq<byte>, m2: seq<byte>, p: nat, q: nat, n: nat, dstEnd: nat, src: nat, srcSize: nat, c: seq<byte>)
    requires p <= q <= dstEnd && q <= p + n <= |m2| && cctx.Space(|m1|, src, srcSize, p, dstEnd - p)
    requires cctx.Touches(m1, m2, q, dstEnd + MARGIN)
    requires AllBlockBytes(cctx.prefs.info, cctx.bs) + EndBytes(cctx.prefs.info, c) == ([] + m1[p..q]) + m2[q..p + n]
    ensures m2[p..p + n] == AllBlockBytes(cctx.prefs.info, cctx.bs) + EndBytes(cctx.prefs.info, c)
  {
    hide AllBlockBytes, EndBytes, FrameCompressor.Touches;
    cctx.Untouched(m1, m2, q, dstEnd + MARGIN, p, q);
    assert m2[p..p + n] == m2[p..q] + m2[q..p + n];
    assert [] + m1[p..q] == m1[p..q];
  }

  lemma TouchesWhole(cctx: FrameCompressor, m0: seq<byte>, m1: seq<byte>, m2: seq<byte>, p: nat, q: nat, hi: nat)
    requires cctx.Touches(m0, m1, p, hi) && cctx.Touches(m1, m2, q, hi) && p <= q
    ensures cctx.Touches(m0, m2, p, hi)
  {
  }

  lemma FrameDone(cctx: FrameCompressor, m1: seq<byte>, m2: seq<byte>, dst: nat, p: nat, n: nat, hi: nat, header: seq<byte>, c: seq<byte>)
    requires cctx.prefs.info.Valid() && dst <= p <= |m1| && p + n <= |m2| && m1[dst..p] == header == HeaderBytes(cctx.prefs.info)
    requires cctx.Touches(m1, m2, p, hi) && cctx.Outside(dst, p) && Content(cctx.bs) == c
    requires m2[p..p + n] == AllBlockBytes(cctx.prefs.info, cctx.bs) + EndBytes(cctx.prefs.info, c)
    ensures m2[dst..p + n] == FrameBytes(cctx.prefs.info, cctx.bs)
  {
    hide AllBlockBytes, EndBytes, HeaderBytes, Content, FrameCompressor.Touches;
    cctx.Untouched(m1, m2, p, hi, dst, p);
    assert m2[dst..p + n] == m2[dst..p] + m2[p..p + n];
  }
}
