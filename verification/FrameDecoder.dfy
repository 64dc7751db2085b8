/** LZ4F_decompress: a resumable decoder that takes its input and gives its output in pieces of
    any size, proved to do exactly what the byte-at-a-time reader does. */
module FrameDecoder {
  import opened BlockFormat
  import opened Memory
  import opened MatchCount
  import opened FastDecoder
  import opened BlockApi
  import opened XxHash
  import opened FrameFormat
  import opened FrameHistory

  datatype DStage =
    | GetFrameHeader | StoreFrameHeader
    | InitStage
    | GetBlockHeader | StoreBlockHeader
    | CopyDirect | GetBlockChecksum
    | GetCBlock | StoreCBlock
    | FlushOut
    | GetSuffix | StoreSuffix
    | GetSFrameSize | StoreSFrameSize
    | SkipSkippable

  /** How a stage ends: with another stage, with a hint for the next call, with an error, with
      the end of the frame, or with a block whose history is going to be looked for in the wrong
      place. */
  datatype Outcome = Go | Stop(hint: nat) | Fail | EndOfFrame | Lose

  /** One call: where its input and its output space lie, memory at its beginning and what the
      input says, the reader and the delivered content at its beginning, and how much history was
      left in buffers of the caller's. */
  datatype DecodeCall = DecodeCall(src: nat, srcEnd: nat, dst0: nat, dstEnd: nat,
                       ghost m0: seq<byte>, ghost s: seq<byte>, ghost r0: Reader, ghost given0: seq<byte>, ghost kept: nat)

  /** What a call returns: an error, or how much input the next call would like, which is 0 at
      the end of a frame.  `Astray` stands for a call that has come to a block it is going to decode
      with the size of its history, which is 2 GB or more, as something else; the model follows it
      up to there. */
  datatype Result = Failure | Hint(size: nat) | Astray

  /** The reader has found the frame broken, or a block in it that some decoder may refuse. */
  predicate Unacceptable(e: Reader) {
    e.stage.Failed? || !e.strict
  }

  /** The reader is through, and `content` is what it has read. */
  predicate FrameEnds(e: Reader, content: seq<byte>) {
    e.stage.Finished? && e.out == content
  }

  /** Blocks of linked frames were only decompressed as long as this call had delivered less than 2 GB. */
  ghost predicate Shallow(e: Reader, k: DecodeCall) {
    e.info.linked ==> e.deepest == k.r0.deepest || e.deepest < |k.given0| + TWO31
  }

  ghost predicate Rejects(k: DecodeCall) {
    Unacceptable(FeedAll(k.r0, k.s))
  }

  lemma {:induction false} StrictForGood(r: Reader, x: seq<byte>)
    ensures FeedAll(r, x).strict ==> r.strict
    decreases |x|
  {
    if x != [] {
      StrictForGood(Feed(r, x[0]), x[1..]);
      hide Decode, MustDecode, ReadHeader, Checksum;
    }
  }

  lemma RejectedEarly(k: DecodeCall, n: nat)
    requires n <= |k.s| && var e := FeedAll(k.r0, k.s[..n]); e.stage.Failed? || !e.strict
    ensures Rejects(k)
  {
    hide FeedAll;
    var e := FeedAll(k.r0, k.s[..n]);
    FeedInPieces(k.r0, k.s[..n], k.s[n..]);
    assert k.s[..n] + k.s[n..] == k.s;
    StrictForGood(e, k.s[n..]);
    if e.stage.Failed? {
      FailedForGood(e, k.s[n..]);
    }
  }

  predicate InFrame(d: DStage) {
    !(d.GetFrameHeader? || d.StoreFrameHeader? || d.GetSFrameSize? || d.StoreSFrameSize? || d.SkipSkippable?)
  }

  predicate NeedsHistory(d: DStage) {
    InFrame(d) && !d.InitStage? && !d.GetSuffix? && !d.StoreSuffix?
  }

  /** Decreases with every stage that is left without having read input. */
  function Rank(d: DStage): nat {
    if d.GetFrameHeader? || d.InitStage? || d.GetCBlock? || d.FlushOut? then 1 else 0
  }

  /** How many header bytes are wanted before the header is looked at again. */
  predicate HeaderTarget(a: seq<byte>, target: nat) {
    if |a| < MIN_FH_SIZE then target == MIN_FH_SIZE else ReadHeader(a).NeedMore? && target == HeaderSize(a[4])
  }

  class FrameDecoder {
    const header: nat                  // 19 bytes
    const tmpIn: nat                   // one block and its checksum
    const h: DecodedHistory
    const xxh: HashState
    const blockChecksum: HashState
    var dStage: DStage
    var info: FrameInfo
    var frameRemainingSize: nat
    var maxBlockSize: nat
    var tmpInSize: nat
    var tmpInTarget: nat
    ghost var r: Reader                // the reader after all input of this frame
    ghost var given: seq<byte>         // the content delivered of this frame

    constructor (header: nat, tmpIn: nat, tmpOutBuffer: nat)
      ensures this.header == header && this.tmpIn == tmpIn && h.tmpOutBuffer == tmpOutBuffer && fresh(h)
      ensures fresh(xxh) && fresh(xxh.buffer) && fresh(blockChecksum) && fresh(blockChecksum.buffer)
      ensures forall mem: array<byte> :: allocated(mem) && !fresh(mem) ==> Objects(mem)
      ensures forall m: seq<byte> :: Layout(|m|) ==> Valid(m)
      ensures r == START && given == []
    {
      this.header, this.tmpIn := header, tmpIn;
      h := new DecodedHistory(tmpOutBuffer);
      xxh := new HashState(W32);
      blockChecksum := new HashState(W32);
      dStage, info, r, given := GetFrameHeader, NO_INFO, START, [];
      frameRemainingSize, maxBlockSize, tmpInSize, tmpInTarget := 0, 0, 0, 0;
    }

    predicate Objects(mem: array<byte>) {
      && xxh != blockChecksum && xxh.buffer != blockChecksum.buffer && mem != xxh.buffer && mem != blockChecksum.buffer
      && xxh.w == W32 == blockChecksum.w && xxh.buffer.Length == StripeSize(W32) == blockChecksum.buffer.Length
    }

    /** The three buffers of the context. */
    predicate Layout(size: nat)
      reads h`maxBufferSize
    {
      && 0 < h.tmpOutBuffer && h.tmpOutBuffer + TMP_MAX <= size && h.maxBufferSize <= TMP_MAX
      && header + MAX_FH_SIZE <= size && tmpIn + MAX_BLOCK + 8 <= size
      && Disjoint(header, header + MAX_FH_SIZE, tmpIn, tmpIn + MAX_BLOCK + 4)
      && Disjoint(header, header + MAX_FH_SIZE, h.tmpOutBuffer, h.tmpOutBuffer + TMP_MAX)
      && Disjoint(tmpIn, tmpIn + MAX_BLOCK + 4, h.tmpOutBuffer, h.tmpOutBuffer + TMP_MAX)
    }

    /** A range of the caller's is clear of all three. */
    predicate Outside(lo: nat, hi: nat) {
      && Disjoint(lo, hi, header, header + MAX_FH_SIZE) && Disjoint(lo, hi, tmpIn, tmpIn + MAX_BLOCK + 4)
      && (hi < h.tmpOutBuffer || h.tmpOutBuffer + TMP_MAX < lo)
    }

    /** Input and output of a call, `srcPtr` and `dstPtr` having been reached. */
    ghost predicate Io(size: nat, k: DecodeCall, srcPtr: nat, dstPtr: nat) {
      && k.src <= srcPtr <= k.srcEnd && k.srcEnd + 2 <= size == |k.m0| && k.dst0 <= dstPtr <= k.dstEnd <= size
      && Disjoint(k.src, k.srcEnd, k.dst0, k.dstEnd) && Outside(k.src, k.srcEnd) && Outside(k.dst0, k.dstEnd)
      && (k.dst0 < k.dstEnd ==> 0 < k.dst0) && k.s == k.m0[k.src..k.srcEnd]
    }

    /** What a call may write to: the buffers of the context, and its output space. */
    predicate Writable(k: DecodeCall, i: int) {
      || header <= i < header + MAX_FH_SIZE || tmpIn <= i < tmpIn + MAX_BLOCK + 4
      || h.tmpOutBuffer <= i < h.tmpOutBuffer + TMP_MAX || k.dst0 <= i < k.dstEnd
    }

    ghost predicate Framed(m: seq<byte>, k: DecodeCall) {
      |m| == |k.m0| && forall i :: 0 <= i < |m| && !Writable(k, i) ==> m[i] == k.m0[i]
    }

    lemma Wrote(m0: seq<byte>, m1: seq<byte>, k: DecodeCall, lo: nat, hi: nat)
      requires Framed(m0, k) && SameOutside(m0, m1, lo, hi)
      requires || (header <= lo && hi <= header + MAX_FH_SIZE) || (tmpIn <= lo && hi <= tmpIn + MAX_BLOCK + 4)
               || (h.tmpOutBuffer <= lo && hi <= h.tmpOutBuffer + TMP_MAX) || (k.dst0 <= lo && hi <= k.dstEnd)
      ensures Framed(m1, k)
    {
    }

    /** Progress of the call: what was read, and what was delivered. */
    ghost predicate Progress(m: seq<byte>, k: DecodeCall, srcPtr: nat, dstPtr: nat)
      reads this`r, this`given
    {
      && Io(|m|, k, srcPtr, dstPtr) && Framed(m, k)
      && r == FeedAll(k.r0, k.s[..srcPtr - k.src]) && given == k.given0 + m[k.dst0..dstPtr]
    }

    lemma SourceAt(m: seq<byte>, k: DecodeCall, srcPtr: nat, dstPtr: nat, n: nat)
      requires Io(|m|, k, srcPtr, dstPtr) && Framed(m, k) && srcPtr + n <= k.srcEnd
      ensures |k.s| == k.srcEnd - k.src && m[srcPtr..srcPtr + n] == k.s[srcPtr - k.src..srcPtr - k.src + n]
    {
      var x, y := m[srcPtr..srcPtr + n], k.s[srcPtr - k.src..srcPtr - k.src + n];
      forall i: nat | i < n ensures x[i] == y[i] {
        assert m[srcPtr + i] == k.m0[srcPtr + i];
      }
    }

    /** The reader is fed the next `n` bytes of input. */
    ghost method Read(m: seq<byte>, k: DecodeCall, srcPtr: nat, dstPtr: nat, n: nat) returns (x: seq<byte>)
      requires Progress(m, k, srcPtr, dstPtr) && srcPtr + n <= k.srcEnd
      modifies this`r
      ensures srcPtr + n <= |m| && x == m[srcPtr..srcPtr + n] && |x| == n
      ensures r == FeedAll(old(r), x) && Progress(m, k, srcPtr + n, dstPtr)
    {
      hide FeedAll, Framed;
      SourceAt(m, k, srcPtr, dstPtr, n);
      var p := srcPtr - k.src;
      x := k.s[p..p + n];
      FeedInPieces(k.r0, k.s[..p], x);
      assert k.s[..p] + x == k.s[..p + n];
      r := FeedAll(r, x);
    }

    /** The reader has given up. */
    lemma Rejected(m: seq<byte>, k: DecodeCall, srcPtr: nat, dstPtr: nat)
      requires Progress(m, k, srcPtr, dstPtr) && (r.stage.Failed? || !r.strict)
      ensures Rejects(k)
    {
      hide FeedAll;
      RejectedEarly(k, srcPtr - k.src);
    }

    /** The frame's parameters, and the counters and hashes that follow its content. */
    ghost predicate Bookkeeping(out: seq<byte>, hashing: bool)
      reads this`info, this`maxBlockSize, this`frameRemainingSize, xxh, xxh.buffer
    {
      && info.Valid() && maxBlockSize == info.MaxBlock()
      && frameRemainingSize == (if info.contentSize > 0 then (info.contentSize - |out|) % TWO64 else 0)
      && (info.contentChecksum && hashing ==> xxh.Valid() && xxh.seed == 0 && xxh.seen == out)
    }

    /** The history of linked blocks, or the rest of a block of another frame; `c` has been
        delivered, all of `out` is decoded. */
    ghost predicate History(m: seq<byte>, c: seq<byte>, out: seq<byte>, flushing: bool)
      reads this`info, this`maxBlockSize, h
    {
      if info.linked then
        && h.maxBufferSize >= maxBlockSize + 2 * DICT64K
        && if flushing then h.Flushing(m, c, out) else h.Ready(m, c) && c == out
      else
        && h.maxBufferSize >= maxBlockSize && NoDict() && h.tmpOut == h.tmpOutBuffer
        && if flushing then h.tmpOutSize <= maxBlockSize && Block(m, h.tmpOut, h.tmpOutSize, out) && UpTo(c, out, h.tmpOutSize, h.tmpOutStart)
           else c == out
    }

    predicate BlockFits()
      reads this`info, this`tmpInTarget
    {
      info.Crc() < tmpInTarget <= info.MaxBlock() + info.Crc()
    }

    /** What the stage says about the reader. */
    ghost predicate AtStage(m: seq<byte>)
      requires Layout(|m|)
      reads this, h`maxBufferSize, blockChecksum, blockChecksum.buffer
    {
      match dStage
      case GetFrameHeader => r == START && given == []
      case StoreFrameHeader =>
        && tmpInSize < tmpInTarget <= MAX_FH_SIZE && r == START.At(InHeader(m[header..header + tmpInSize])) && given == []
        && HeaderTarget(m[header..header + tmpInSize], tmpInTarget)
      case InitStage => r == r.NextBlock() && r.out == [] == given
      case GetBlockHeader => r == r.NextBlock()
      case StoreBlockHeader => tmpInSize < 4 && r == r.At(Collecting(BlockHeader, m[tmpIn..tmpIn + tmpInSize]))
      case CopyDirect =>
        && r.stage.InRaw? && 0 < r.stage.left == tmpInTarget
        && (info.blockChecksum ==> blockChecksum.Valid() && blockChecksum.seed == 0 && blockChecksum.seen == r.stage.data)
      case GetBlockChecksum =>
        && tmpInSize < 4 && blockChecksum.Valid() && blockChecksum.seed == 0
        && r == r.At(Collecting(RawChecksum(blockChecksum.seen), m[header..header + tmpInSize]))
      case GetCBlock => BlockFits() && r == r.At(Collecting(BlockData(tmpInTarget), []))
      case StoreCBlock =>
        && info.Valid() && BlockFits() && tmpInSize < tmpInTarget
        && r == r.At(Collecting(BlockData(tmpInTarget), m[tmpIn..tmpIn + tmpInSize]))
      case FlushOut => r == r.NextBlock()
      case GetSuffix =>
        && given == r.out
        && r.stage == if frameRemainingSize != 0 then Failed else if info.contentChecksum then Collecting(Suffix, []) else Finished
      case StoreSuffix =>
        && tmpInSize < 4 && r == r.At(Collecting(Suffix, m[tmpIn..tmpIn + tmpInSize])) && given == r.out
        && info.contentChecksum && frameRemainingSize == 0
      case GetSFrameSize => r.stage.InHeader? && SkippableMagic(r.stage.acc) && r == START.At(r.stage) && given == []
      case StoreSFrameSize =>
        && 4 <= tmpInSize < tmpInTarget == 8 && r == START.At(Collecting(SkipSize, m[header + 4..header + tmpInSize])) && given == []
      case SkipSkippable => r == SkipReader(tmpInTarget) && given == []
    }

    /** A dictionary in a buffer of the caller's is clear of the range. */
    predicate DictApart(lo: nat, hi: nat)
      reads h`dict, h`dictSize
    {
      h.dict != h.tmpOutBuffer ==> Disjoint(h.dict + h.dictSize - Least(h.dictSize, DICT64K), h.dict + h.dictSize, lo, hi)
    }

    predicate DictSafe()
      reads h`dict, h`dictSize
    {
      && DictApart(header, header + MAX_FH_SIZE) && DictApart(tmpIn, tmpIn + MAX_BLOCK + 4)
      && (h.dictSize > 0 ==> h.dict > 0)
    }

    predicate NoDict()
      reads h`dict, h`dictSize
    {
      h.dict == h.dictSize == 0
    }

    /** The context between two calls. */
    ghost predicate Valid(m: seq<byte>)
      reads this, h, xxh, xxh.buffer, blockChecksum, blockChecksum.buffer
    {
      && Layout(|m|) && AtStage(m)
      && (if InFrame(dStage) then r.info == info && Bookkeeping(r.out, !dStage.InitStage?) else frameRemainingSize == 0)
      && (!InFrame(dStage) || dStage.InitStage? ==> NoDict())
      && (NeedsHistory(dStage) ==> History(m, given, r.out, dStage.FlushOut?) && (info.linked ==> DictSafe()))
    }

    /** How large a dictionary outside the buffer can be: no larger than what was kept and what this
        call has delivered; and it holds all of that, once anything was delivered.  From 64 KB
        on there always is such a dictionary. */
    ghost predicate Sized(k: DecodeCall, dstPtr: nat)
      reads this`info, h`dict, h`dictSize
    {
      info.linked ==>
        if h.dict == h.tmpOutBuffer then dstPtr - k.dst0 < DICT64K
        else
          && h.dictSize <= k.kept + (dstPtr - k.dst0)
          && (k.dst0 < dstPtr ==> h.dict + h.dictSize == dstPtr && dstPtr - k.dst0 <= h.dictSize)
    }

    /** The last compressed block that was taken was no deeper than it may be, or it is the one that
        follows `out`, and just taken. */
    ghost predicate Depth(k: DecodeCall, out: seq<byte>)
      reads this`r
    {
      Shallow(r, k) || (out != r.out && r.deepest == |out|)
    }

    /** A block is only decoded when there is room left, or nothing was delivered yet. */
    predicate Poised(k: DecodeCall, dstPtr: nat)
      reads this`dStage
    {
      dStage.GetCBlock? || dStage.StoreCBlock? ==> dstPtr == k.dst0 || dstPtr < k.dstEnd
    }

    /** The context during a call. */
    ghost predicate Inv(m: seq<byte>, k: DecodeCall, srcPtr: nat, dstPtr: nat)
      reads this, h, xxh, xxh.buffer, blockChecksum, blockChecksum.buffer
    {
      && Valid(m) && Progress(m, k, srcPtr, dstPtr) && Shallow(r, k)
      && (dStage.GetSFrameSize? ==> srcPtr + 4 <= k.srcEnd)
      && (NeedsHistory(dStage) && info.linked ==> DictApart(dstPtr, k.dstEnd) && Sized(k, dstPtr))
    }

    /** The same for the stages from one block to the next, without what the stage says. */
    ghost predicate InBlocks(m: seq<byte>, k: DecodeCall, srcPtr: nat, dstPtr: nat, out: seq<byte>, flushing: bool)
      reads this`r, this`given, this`info, this`maxBlockSize, this`frameRemainingSize, h, xxh, xxh.buffer
    {
      && Layout(|m|) && Progress(m, k, srcPtr, dstPtr) && r.info == info && Bookkeeping(out, true)
      && History(m, given, out, flushing) && (info.linked ==> DictSafe() && DictApart(dstPtr, k.dstEnd))
      && Sized(k, dstPtr) && Depth(k, out)
    }

    lemma Entered(m: seq<byte>, k: DecodeCall, srcPtr: nat, dstPtr: nat)
      requires Inv(m, k, srcPtr, dstPtr) && NeedsHistory(dStage)
      ensures InBlocks(m, k, srcPtr, dstPtr, r.out, dStage.FlushOut?) && AtStage(m)
    {
      hide AtStage, History, Bookkeeping, Progress;
    }

    lemma Resumed(m: seq<byte>, k: DecodeCall, srcPtr: nat, dstPtr: nat)
      requires Layout(|m|) && AtStage(m) && NeedsHistory(dStage)
      requires InBlocks(m, k, srcPtr, dstPtr, r.out, dStage.FlushOut?)
      ensures Inv(m, k, srcPtr, dstPtr)
    {
      hide AtStage, History, Bookkeeping, Progress;
    }

    /** A frame is over: what was read is a whole frame, all its content is delivered, and the
        context is ready for another. */
    ghost predicate Over(m: seq<byte>, k: DecodeCall, srcPtr: nat, dstPtr: nat)
      reads this, h, xxh, xxh.buffer, blockChecksum, blockChecksum.buffer
    {
      && Valid(m) && dStage.GetFrameHeader? && Io(|m|, k, srcPtr, dstPtr) && Framed(m, k)
      && var e := FeedAll(k.r0, k.s[..srcPtr - k.src]);
         e.stage.Finished? && e.out == k.given0 + m[k.dst0..dstPtr] && Shallow(e, k)
    }

    /** A block of a linked frame is there, whose history, all that this call has delivered, is so
        large that its size is no 32-bit int. */
    ghost predicate Lost(m: seq<byte>, k: DecodeCall, srcPtr: nat, dstPtr: nat)
      reads this`r, this`given, this`info, h
    {
      && Progress(m, k, srcPtr, dstPtr) && info.linked && r.info.linked && given <= r.out && Sized(k, dstPtr)
      && (dstPtr == k.dst0 || dstPtr < k.dstEnd)
      && h.dictSize >= TWO31 && h.dict != h.tmpOutBuffer && h.dict + h.dictSize <= |m|
    }

    ghost predicate Ends(m: seq<byte>, k: DecodeCall, o: Outcome, srcPtr: nat, dstPtr: nat)
      reads this, h, xxh, xxh.buffer, blockChecksum, blockChecksum.buffer
    {
      match o
      case Go => Inv(m, k, srcPtr, dstPtr) && Poised(k, dstPtr)
      case Stop(hint) =>
        && Inv(m, k, srcPtr, dstPtr) && hint > 0 && !r.stage.Finished? && !dStage.GetSFrameSize?
        && (srcPtr == k.srcEnd || dstPtr == k.dstEnd)
      case Fail => Rejects(k)
      case EndOfFrame => Over(m, k, srcPtr, dstPtr)
      case Lose => Lost(m, k, srcPtr, dstPtr)
    }

    // -------------------------------------------------------------- reading fields

    /** A range within one of the two buffers for input. */
    predicate InputBuffer(lo: nat, n: nat) {
      (header <= lo && lo + n <= header + MAX_FH_SIZE) || (tmpIn <= lo && lo + n <= tmpIn + MAX_BLOCK + 4)
    }

    lemma ProgressKept(m0: seq<byte>, m1: seq<byte>, k: DecodeCall, srcPtr: nat, dstPtr: nat, lo: nat, hi: nat)
      requires Progress(m0, k, srcPtr, dstPtr) && SameOutside(m0, m1, lo, hi) && lo <= hi
      requires InputBuffer(lo, hi - lo) || (h.tmpOutBuffer <= lo && hi <= h.tmpOutBuffer + TMP_MAX)
      ensures Progress(m1, k, srcPtr, dstPtr)
    {
      hide FeedAll, Framed;
      SliceKept(m0, m1, lo, hi, k.dst0, dstPtr);
      Wrote(m0, m1, k, lo, hi);
      SameLength(m0, m1, lo, hi);
    }

    lemma SourceBounds(m: seq<byte>, k: DecodeCall, srcPtr: nat, dstPtr: nat)
      requires Progress(m, k, srcPtr, dstPtr)
      ensures srcPtr <= k.srcEnd <= |m|
    {
      hide FeedAll, Framed;
    }

    lemma InputFits(size: nat, lo: nat, n: nat)
      requires Layout(size) && InputBuffer(lo, n)
      ensures lo + n <= size
    {
    }

    lemma InputPart(lo: nat, n: nat, have: nat, more: nat)
      requires InputBuffer(lo, n) && have + more <= n
      ensures InputBuffer(lo + have, more)
    {
    }

    /** Moves input into one of the context's buffers, as much as is wanted and there. */
    method Gather(mem: array<byte>, k: DecodeCall, lo: nat, have: nat, need: nat, srcPtr: nat, ghost dstPtr: nat)
      returns (n: nat, ghost x: seq<byte>)
      requires Layout(mem.Length) && Progress(mem[..], k, srcPtr, dstPtr) && have <= need && InputBuffer(lo, need)
      modifies mem, `r
      ensures have + n <= need && srcPtr + n <= k.srcEnd && lo + need <= mem.Length
      ensures have + n < need ==> srcPtr + n == k.srcEnd
      ensures |x| == n && mem[lo..lo + have + n] == old(mem[lo..lo + have]) + x && r == FeedAll(old(r), x)
      ensures Progress(mem[..], k, srcPtr + n, dstPtr) && SameOutside(old(mem[..]), mem[..], lo + have, lo + have + n)
    {
      hide SameOutside, FeedAll, Framed, Progress, Layout, InputBuffer;
      ghost var m0 := mem[..];
      SourceBounds(m0, k, srcPtr, dstPtr);
      InputFits(mem.Length, lo, need);
      n := Least(need - have, k.srcEnd - srcPtr);
      assert n <= need - have && n <= k.srcEnd - srcPtr;
      x := Read(m0, k, srcPtr, dstPtr, n);
      Copy(mem, lo + have, srcPtr, n);
      InputPart(lo, need, have, n);
      ProgressKept(m0, mem[..], k, srcPtr + n, dstPtr, lo + have, lo + have + n);
      SliceKept(m0, mem[..], lo + have, lo + have + n, lo, lo + have);
      Adjacent(mem[..], lo, lo + have, lo + have + n);
    }

    /** Gathers a field that the reader is collecting. */
    method Store(mem: array<byte>, k: DecodeCall, lo: nat, have: nat, need: nat, srcPtr: nat, ghost dstPtr: nat) returns (n: nat)
      requires Layout(mem.Length) && Progress(mem[..], k, srcPtr, dstPtr)
      requires r.stage.Collecting? && have < need == Need(r.stage.kind) && InputBuffer(lo, need)
      requires lo + have <= mem.Length && r.stage.acc == mem[lo..lo + have]
      modifies mem, `r
      ensures srcPtr + n <= k.srcEnd && have + n <= need && lo + have + n <= mem.Length && (have + n < need ==> srcPtr + n == k.srcEnd)
      ensures Collected(old(r), r, have + n < need, mem[lo..lo + have + n])
      ensures Progress(mem[..], k, srcPtr + n, dstPtr) && SameOutside(old(mem[..]), mem[..], lo + have, lo + have + n)
    {
      hide SameOutside, FeedAll, Complete, Progress;
      ghost var x, r0 := [], r;
      n, x := Gather(mem, k, lo, have, need, srcPtr, dstPtr);
      FeedField(r0, x);
    }

    /** The reader takes a whole field that the input holds in one piece. */
    ghost method Take(m: seq<byte>, k: DecodeCall, srcPtr: nat, dstPtr: nat)
      requires Progress(m, k, srcPtr, dstPtr)
      requires r.stage.Collecting? && r.stage.acc == [] && 0 < Need(r.stage.kind) <= k.srcEnd - srcPtr
      modifies `r
      ensures var need := Need(old(r.stage.kind));
              srcPtr + need <= |m| && Collected(old(r), r, false, m[srcPtr..srcPtr + need])
              && Progress(m, k, srcPtr + need, dstPtr)
    {
      hide FeedAll, Complete, Progress;
      var r0, need := r, Need(r.stage.kind);
      var x := Read(m, k, srcPtr, dstPtr, need);
      FeedField(r0, x);
      assert r0.stage.acc + x == x;
    }

    /** A write clear of the output buffer and of the dictionary leaves the history alone. */
    lemma HistoryKept(m0: seq<byte>, m1: seq<byte>, lo: nat, hi: nat, c: seq<byte>, out: seq<byte>, flushing: bool)
      requires Layout(|m0|) && History(m0, c, out, flushing) && SameOutside(m0, m1, lo, hi)
      requires Disjoint(h.tmpOutBuffer, h.TmpEnd(), lo, hi) && (info.linked ==> DictApart(lo, hi))
      ensures History(m1, c, out, flushing)
    {
      hide UpTo, Recent, SameOutside;
      SameLength(m0, m1, lo, hi);
      if info.linked {
        if flushing {
          BlockKept(m0, m1, lo, hi, h.tmpOut, h.tmpOutSize, out);
          if h.dict == h.tmpOutBuffer {
            RecentKept(m0, m1, lo, hi, h.tmpOut + h.tmpOutSize, h.tmpOut + h.tmpOutSize - h.tmpOutBuffer, out);
          } else {
            RecentKept(m0, m1, lo, hi, h.dict + h.dictSize, h.dictSize, c);
          }
        } else {
          RecentKept(m0, m1, lo, hi, h.dict + h.dictSize, h.dictSize, c);
        }
      } else if flushing {
        BlockKept(m0, m1, lo, hi, h.tmpOut, h.tmpOutSize, out);
      }
    }

    lemma BlocksKept(m0: seq<byte>, m1: seq<byte>, k: DecodeCall, srcPtr: nat, dstPtr: nat, lo: nat, n: nat, out: seq<byte>)
      requires Layout(|m0|) && Progress(m1, k, srcPtr, dstPtr) && r.info == info && Bookkeeping(out, true)
      requires History(m0, given, out, false) && (info.linked ==> DictSafe() && DictApart(dstPtr, k.dstEnd))
      requires SameOutside(m0, m1, lo, lo + n) && InputBuffer(lo, n) && Sized(k, dstPtr) && Depth(k, out)
      ensures InBlocks(m1, k, srcPtr, dstPtr, out, false)
    {
      hide History, Bookkeeping, SameOutside;
      SameLength(m0, m1, lo, lo + n);
      HistoryKept(m0, m1, lo, lo + n, given, out, false);
    }

    method StoreInBlocks(mem: array<byte>, k: DecodeCall, lo: nat, have: nat, need: nat, srcPtr: nat, ghost dstPtr: nat) returns (n: nat)
      requires InBlocks(mem[..], k, srcPtr, dstPtr, r.out, false) && mem != xxh.buffer
      requires r.stage.Collecting? && have < need == Need(r.stage.kind) && InputBuffer(lo, need)
      requires lo + have <= mem.Length && r.stage.acc == mem[lo..lo + have]
      modifies mem, `r
      ensures srcPtr + n <= k.srcEnd && have + n <= need && lo + have + n <= mem.Length && (have + n < need ==> srcPtr + n == k.srcEnd)
      ensures Collected(old(r), r, have + n < need, mem[lo..lo + have + n])
      ensures InBlocks(mem[..], k, srcPtr + n, dstPtr, old(r.out), false)
    {
      hide SameOutside, Complete, Progress, Bookkeeping, History;
      ghost var m0, r0 := mem[..], r;
      n := Store(mem, k, lo, have, need, srcPtr, dstPtr);
      CompleteInfo(r0, r0.stage.kind, mem[lo..lo + have + n]);
      BlocksKept(m0, mem[..], k, srcPtr + n, dstPtr, lo + have, n, r0.out);
    }

    ghost method TakeInBlocks(m: seq<byte>, k: DecodeCall, srcPtr: nat, dstPtr: nat)
      requires InBlocks(m, k, srcPtr, dstPtr, r.out, false)
      requires r.stage.Collecting? && r.stage.acc == [] && 0 < Need(r.stage.kind) <= k.srcEnd - srcPtr
      modifies `r
      ensures var need := Need(old(r.stage.kind));
              srcPtr + need <= |m| && Collected(old(r), r, false, m[srcPtr..srcPtr + need])
              && InBlocks(m, k, srcPtr + need, dstPtr, old(r.out), false)
    {
      hide Complete, Progress, Bookkeeping, History;
      var r0, need := r, Need(r.stage.kind);
      Take(m, k, srcPtr, dstPtr);
      CompleteInfo(r0, r0.stage.kind, m[srcPtr..srcPtr + need]);
    }

    // -------------------------------------------------------------- block headers and raw blocks

    lemma Bounds(m: seq<byte>, k: DecodeCall, srcPtr: nat, dstPtr: nat, out: seq<byte>, flushing: bool)
      requires InBlocks(m, k, srcPtr, dstPtr, out, flushing)
      ensures Layout(|m|) && Io(|m|, k, srcPtr, dstPtr) && maxBlockSize == info.MaxBlock() <= MAX_BLOCK && info.Valid() && r.info == info
      ensures Progress(m, k, srcPtr, dstPtr)
    {
      hide History;
    }

    /** More input is needed, or more room for output. */
    lemma Waiting(m: seq<byte>, k: DecodeCall, hint: nat, srcPtr: nat, dstPtr: nat)
      requires InBlocks(m, k, srcPtr, dstPtr, r.out, dStage.FlushOut?) && Layout(|m|) && AtStage(m) && NeedsHistory(dStage)
      requires hint > 0 && !r.stage.Finished? && (srcPtr == k.srcEnd || dstPtr == k.dstEnd)
      ensures Ends(m, k, Stop(hint), srcPtr, dstPtr)
    {
      hide Inv, AtStage, InBlocks;
      Resumed(m, k, srcPtr, dstPtr);
    }

    lemma Onward(m: seq<byte>, k: DecodeCall, srcPtr: nat, dstPtr: nat)
      requires InBlocks(m, k, srcPtr, dstPtr, r.out, dStage.FlushOut?) && Layout(|m|) && AtStage(m) && NeedsHistory(dStage)
      requires Poised(k, dstPtr)
      ensures Ends(m, k, Go, srcPtr, dstPtr)
    {
      hide Inv, AtStage, InBlocks;
      Resumed(m, k, srcPtr, dstPtr);
    }

    lemma Broken(m: seq<byte>, k: DecodeCall, srcPtr: nat, dstPtr: nat, out: seq<byte>, flushing: bool)
      requires InBlocks(m, k, srcPtr, dstPtr, out, flushing) && (r.stage.Failed? || !r.strict)
      ensures forall m': seq<byte>, i: nat, j: nat :: Ends(m', k, Fail, i, j)
    {
      hide History, Bookkeeping, Progress, Rejects;
      Rejected(m, k, srcPtr, dstPtr);
    }

    method FetchBlockHeader(mem: array<byte>, k: DecodeCall, srcPtr: nat, dstPtr: nat) returns (o: Outcome, ip: nat)
      requires Objects(mem) && Inv(mem[..], k, srcPtr, dstPtr) && dStage.GetBlockHeader?
      modifies this, blockChecksum, mem
      ensures Ends(mem[..], k, o, ip, dstPtr) && (o.Go? ==> srcPtr < ip)
    {
      hide Inv, InBlocks, Ends, Progress;
      Entered(mem[..], k, srcPtr, dstPtr);
      Bounds(mem[..], k, srcPtr, dstPtr, r.out, false);
      if k.srcEnd - srcPtr >= BH_SIZE {
        ghost var r0 := r;
        TakeInBlocks(mem[..], k, srcPtr, dstPtr);
        ip := srcPtr + BH_SIZE;
        o := OnBlockHeader(mem, k, srcPtr, ip, dstPtr, r0);
      } else {
        tmpInSize := 0;
        dStage := StoreBlockHeader;
        assert mem[..][tmpIn..tmpIn] == [];
        o, ip := StoreHeaderOfBlock(mem, k, srcPtr, dstPtr);
      }
    }

    method StoreHeaderOfBlock(mem: array<byte>, k: DecodeCall, srcPtr: nat, dstPtr: nat) returns (o: Outcome, ip: nat)
      requires Objects(mem) && InBlocks(mem[..], k, srcPtr, dstPtr, r.out, false)
      requires dStage.StoreBlockHeader? && Layout(mem.Length) && AtStage(mem[..])
      modifies this, blockChecksum, mem
      ensures Ends(mem[..], k, o, ip, dstPtr) && (o.Go? ==> srcPtr < ip)
    {
      hide Inv, InBlocks, Ends, Progress, TakeBlockHeader;
      ghost var r0 := r;
      var n := StoreInBlocks(mem, k, tmpIn, tmpInSize, BH_SIZE, srcPtr, dstPtr);
      ip := srcPtr + n;
      tmpInSize := tmpInSize + n;
      if tmpInSize < BH_SIZE {
        o := Stop(BH_SIZE - tmpInSize);
        Waiting(mem[..], k, BH_SIZE - tmpInSize, ip, dstPtr);
      } else {
        o := OnBlockHeader(mem, k, tmpIn, ip, dstPtr, r0);
      }
    }

    method OnBlockHeader(mem: array<byte>, k: DecodeCall, selectedIn: nat, srcPtr: nat, dstPtr: nat, ghost r0: Reader) returns (o: Outcome)
      requires Objects(mem) && InBlocks(mem[..], k, srcPtr, dstPtr, r0.out, false)
      requires selectedIn + BH_SIZE <= mem.Length && r == TakeBlockHeader(r0, mem[selectedIn..selectedIn + BH_SIZE])
      modifies this, blockChecksum
      ensures Ends(mem[..], k, o, srcPtr, dstPtr)
    {
      hide Inv, InBlocks, Ends, Progress, Word, TakeBlockHeader, AtStage, Layout;
      Bounds(mem[..], k, srcPtr, dstPtr, r0.out, false);
      var v := ReadLE32(mem, selectedIn);
      TakesHeader(r0, mem[selectedIn..selectedIn + BH_SIZE]);
      var size, raw := v % UNCOMPRESSED_FLAG, v / UNCOMPRESSED_FLAG != 0;
      if size == 0 {
        dStage := GetSuffix;
        EndOfBlocks(mem[..], k, srcPtr, dstPtr, r0);
        o := Go;
      } else if size > maxBlockSize {
        Broken(mem[..], k, srcPtr, dstPtr, r0.out, false);
        o := Fail;
      } else if raw {
        BeginRaw(mem, k, size, srcPtr, dstPtr);
        o := Go;
      } else {
        o := BeginPacked(mem, k, size, srcPtr, dstPtr);
      }
    }

    method BeginRaw(mem: array<byte>, k: DecodeCall, size: nat, ghost srcPtr: nat, ghost dstPtr: nat)
      requires Objects(mem) && InBlocks(mem[..], k, srcPtr, dstPtr, r.out, false) && size > 0 && r == r.At(InRaw(size, []))
      modifies this, blockChecksum
      ensures Ends(mem[..], k, Go, srcPtr, dstPtr)
    {
      hide Inv, InBlocks, Ends, Progress, HashState.Valid, Layout;
      tmpInTarget := size;
      if info.blockChecksum {
        blockChecksum.Reset(0);
      }
      dStage := CopyDirect;
      Bounds(mem[..], k, srcPtr, dstPtr, r.out, false);
      Onward(mem[..], k, srcPtr, dstPtr);
    }

    method BeginPacked(mem: array<byte>, k: DecodeCall, size: nat, ghost srcPtr: nat, dstPtr: nat) returns (o: Outcome)
      requires Objects(mem) && InBlocks(mem[..], k, srcPtr, dstPtr, r.out, false)
      requires 0 < size <= info.MaxBlock() && r == r.At(Collecting(BlockData(size + info.Crc()), []))
      modifies this
      ensures Ends(mem[..], k, o, srcPtr, dstPtr)
    {
      hide Inv, InBlocks, Ends, Progress, Layout, FrameInfo.MaxBlock;
      tmpInTarget := size + info.Crc();
      dStage := GetCBlock;
      Bounds(mem[..], k, srcPtr, dstPtr, r.out, false);
      if dstPtr == k.dstEnd {
        var hint := size + info.Crc() + BH_SIZE;
        o := Stop(hint);
        Waiting(mem[..], k, hint, srcPtr, dstPtr);
      } else {
        o := Go;
        Onward(mem[..], k, srcPtr, dstPtr);
      }
    }

    lemma EndOfBlocks(m: seq<byte>, k: DecodeCall, srcPtr: nat, dstPtr: nat, r0: Reader)
      requires InBlocks(m, k, srcPtr, dstPtr, r0.out, false) && dStage.GetSuffix?
      requires r == if r0.info.contentSize > 0 && (r0.info.contentSize - |r0.out|) % TWO64 != 0 then r0.At(Failed)
                    else r0.At(if r0.info.contentChecksum then Collecting(Suffix, []) else Finished)
      ensures Ends(m, k, Go, srcPtr, dstPtr)
    {
      hide Progress, DecodedHistory.Ready;
    }

    // -------------------------------------------------------------- output straight to the caller

    /** What is said about the dictionary during a call, of one that lies at `dict`. */
    ghost predicate WellPlaced(k: DecodeCall, dict: nat, size: nat, dstPtr: nat) {
      && (size > 0 ==> dict > 0)
      && (dict != h.tmpOutBuffer ==>
            var end := dict + size;
            && Disjoint(end - Least(size, DICT64K), end, header, header + MAX_FH_SIZE)
            && Disjoint(end - Least(size, DICT64K), end, tmpIn, tmpIn + MAX_BLOCK + 4)
            && Disjoint(end - Least(size, DICT64K), end, dstPtr, k.dstEnd)
            && size <= k.kept + (dstPtr - k.dst0) && (k.dst0 < dstPtr ==> end == dstPtr && dstPtr - k.dst0 <= size))
    }

    lemma PlacedNow(k: DecodeCall, dstPtr: nat)
      requires info.linked && DictSafe() && DictApart(dstPtr, k.dstEnd) && Sized(k, dstPtr)
      ensures WellPlaced(k, h.dict, h.dictSize, dstPtr)
    {
    }

    /** It stays true as the dictionary moves on. */
    lemma DictMoved(k: DecodeCall, size: nat, srcPtr: nat, dstPtr: nat, n: nat, dict0: nat, size0: nat)
      requires info.linked && Layout(size) && Io(size, k, srcPtr, dstPtr) && dstPtr + n <= k.dstEnd
      requires WellPlaced(k, dict0, size0, dstPtr)
      requires if h.dict == h.tmpOutBuffer then dstPtr - k.dst0 + n < DICT64K
               else Moves(dict0, size0, h.dict, h.dictSize, k.dst0, dstPtr, n)
      ensures DictSafe() && DictApart(dstPtr + n, k.dstEnd) && Sized(k, dstPtr + n)
    {
      hide Moves;
      if h.dict != h.tmpOutBuffer {
        MovesEnd(dict0, size0, h.dict, h.dictSize, k.dst0, dstPtr, n);
        MovesSized(dict0, size0, h.dict, h.dictSize, k.dst0, dstPtr, n, k.kept);
        MovesApart(dict0, size0, h.dict, h.dictSize, k.dst0, dstPtr, k.dstEnd, n, header, header + MAX_FH_SIZE);
        MovesApart(dict0, size0, h.dict, h.dictSize, k.dst0, dstPtr, k.dstEnd, n, tmpIn, tmpIn + MAX_BLOCK + 4);
      }
    }

    /** What this call has delivered, and `n` more bytes, go into the dictionary. */
    method TakeIntoDict(mem: array<byte>, k: DecodeCall, srcPtr: nat, dstPtr: nat, n: nat, ghost x: seq<byte>)
      requires info.linked && Layout(mem.Length) && Progress(mem[..], k, srcPtr, dstPtr) && h.Ready(mem[..], given)
      requires DictSafe() && DictApart(dstPtr, k.dstEnd) && Sized(k, dstPtr)
      requires dstPtr + n <= k.dstEnd && mem[dstPtr..dstPtr + n] == x
      modifies h`dict, h`dictSize, mem
      ensures h.Ready(mem[..], given + x) && DictSafe() && DictApart(dstPtr + n, k.dstEnd) && Sized(k, dstPtr + n)
      ensures Progress(mem[..], k, srcPtr, dstPtr) && mem[dstPtr..dstPtr + n] == x
    {
      hide SameOutside, DecodedHistory.Ready, FeedAll, Framed, Moves, DictSafe, DictApart, Sized, WellPlaced;
      ghost var m0, dict0, size0 := mem[..], h.dict, h.dictSize;
      PlacedNow(k, dstPtr);
      assert EndsWith(given, m0[k.dst0..dstPtr]);
      h.UpdateDict(mem, dstPtr, n, k.dst0, given);
      ProgressKept(m0, mem[..], k, srcPtr, dstPtr, h.tmpOutBuffer, h.TmpEnd());
      SliceKept(m0, mem[..], h.tmpOutBuffer, h.TmpEnd(), dstPtr, dstPtr + n);
      DictMoved(k, mem.Length, srcPtr, dstPtr, n, dict0, size0);
    }

    /** `n` bytes of output have been written to `dstPtr`; they are hashed, counted, and made
        part of the history. */
    method Deliver(mem: array<byte>, k: DecodeCall, srcPtr: nat, dstPtr: nat, p: nat, n: nat, ghost out: seq<byte>, ghost x: seq<byte>)
      requires Objects(mem) && InBlocks(mem[..], k, srcPtr, dstPtr, out, false) && dstPtr + n <= k.dstEnd && p + n <= mem.Length
      requires Shallow(r, k)
      requires dstPtr + n <= mem.Length && mem[dstPtr..dstPtr + n] == x == mem[p..p + n]
      modifies `given, `frameRemainingSize, h`dict, h`dictSize, xxh, xxh.buffer, mem
      ensures InBlocks(mem[..], k, srcPtr, dstPtr + n, out + x, false)
    {
      hide Progress, DecodedHistory.Ready, HashState.Valid, DictSafe, DictApart;
      Account(mem, p, n, out, x);
      if info.linked {
        TakeIntoDict(mem, k, srcPtr, dstPtr, n, x);
      }
      Advance(mem[..], k, srcPtr, dstPtr, n);
    }

    ghost method Advance(m: seq<byte>, k: DecodeCall, srcPtr: nat, dstPtr: nat, n: nat)
      requires Progress(m, k, srcPtr, dstPtr) && dstPtr + n <= k.dstEnd
      modifies `given
      ensures dstPtr + n <= |m| && given == old(given) + m[dstPtr..dstPtr + n] && Progress(m, k, srcPtr, dstPtr + n)
    {
      hide FeedAll, Framed;
      Adjacent(m, k.dst0, dstPtr, dstPtr + n);
      given := given + m[dstPtr..dstPtr + n];
    }

    /** The content hash and the count of what is left of the frame. */
    method Account(mem: array<byte>, p: nat, n: nat, ghost out: seq<byte>, ghost x: seq<byte>)
      requires Objects(mem) && Bookkeeping(out, true) && p + n <= mem.Length && mem[p..p + n] == x
      modifies `frameRemainingSize, xxh, xxh.buffer
      ensures Bookkeeping(out + x, true)
    {
      hide HashState.Valid;
      if info.contentChecksum {
        xxh.Update(mem, p, n);
      }
      if info.contentSize > 0 {
        LessLeft(info.contentSize, |out|, n);
        frameRemainingSize := (frameRemainingSize - n) % TWO64;
      }
    }

    /** A write to the rest of the output space leaves everything as it is. */
    lemma BlocksKeptOutput(m0: seq<byte>, m1: seq<byte>, k: DecodeCall, srcPtr: nat, dstPtr: nat, n: nat, out: seq<byte>)
      requires InBlocks(m0, k, srcPtr, dstPtr, out, false) && SameOutside(m0, m1, dstPtr, dstPtr + n) && dstPtr + n <= k.dstEnd
      ensures InBlocks(m1, k, srcPtr, dstPtr, out, false)
    {
      hide History, Bookkeeping, SameOutside, Framed, FeedAll;
      SameLength(m0, m1, dstPtr, dstPtr + n);
      SliceKept(m0, m1, dstPtr, dstPtr + n, k.dst0, dstPtr);
      Wrote(m0, m1, k, dstPtr, dstPtr + n);
      HistoryKept(m0, m1, dstPtr, dstPtr + n, given, out, false);
    }

    method CopyDirectly(mem: array<byte>, k: DecodeCall, srcPtr: nat, dstPtr: nat) returns (o: Outcome, ip: nat, op: nat)
      requires Objects(mem) && Inv(mem[..], k, srcPtr, dstPtr) && dStage.CopyDirect?
      modifies this, h`dict, h`dictSize, xxh, xxh.buffer, blockChecksum, blockChecksum.buffer, mem
      ensures Ends(mem[..], k, o, ip, op) && (o.Go? ==> srcPtr < ip)
    {
      hide Inv, InBlocks, Ends, Progress, HashState.Valid;
      Entered(mem[..], k, srcPtr, dstPtr);
      Bounds(mem[..], k, srcPtr, dstPtr, r.out, false);
      var n := Least(tmpInTarget, Least(k.srcEnd - srcPtr, k.dstEnd - dstPtr));
      ghost var r0, x := r, [];
      x := CopyRaw(mem, k, srcPtr, dstPtr, n);
      ip, op := srcPtr + n, dstPtr + n;
      Bounds(mem[..], k, ip, op, r.out, false);
      if n == tmpInTarget {
        o := Go;
        EndRaw(mem, k, ip, op, r0, x);
      } else {
        tmpInTarget := tmpInTarget - n;
        var hint := tmpInTarget + (if info.contentChecksum then 4 else 0) + BH_SIZE;
        o := Stop(hint);
        Waiting(mem[..], k, hint, ip, op);
      }
    }

    method EndRaw(mem: array<byte>, k: DecodeCall, ghost srcPtr: nat, ghost dstPtr: nat, ghost r0: Reader, ghost x: seq<byte>)
      requires Objects(mem) && InBlocks(mem[..], k, srcPtr, dstPtr, r.out, false) && Layout(mem.Length) && info == r0.info
      requires RawRead(r0, r, x) && |x| == r0.stage.left
      requires info.blockChecksum ==> blockChecksum.Valid() && blockChecksum.seed == 0 && blockChecksum.seen == r0.stage.data + x
      modifies `tmpInSize, `dStage
      ensures Ends(mem[..], k, Go, srcPtr, dstPtr)
    {
      hide Inv, InBlocks, Ends, Progress, HashState.Valid;
      if info.blockChecksum {
        tmpInSize := 0;
        dStage := GetBlockChecksum;
        assert mem[..][header..header] == [];
      } else {
        dStage := GetBlockHeader;
      }
      Onward(mem[..], k, srcPtr, dstPtr);
    }

    /** Takes `n` bytes of an uncompressed block from the input straight to the output. */
    method CopyRaw(mem: array<byte>, k: DecodeCall, srcPtr: nat, dstPtr: nat, n: nat) returns (ghost x: seq<byte>)
      requires Objects(mem) && InBlocks(mem[..], k, srcPtr, dstPtr, r.out, false)
      requires r.stage.InRaw? && 0 < r.stage.left && n <= r.stage.left && srcPtr + n <= k.srcEnd && dstPtr + n <= k.dstEnd
      requires info.blockChecksum ==> blockChecksum.Valid() && blockChecksum.seed == 0 && blockChecksum.seen == r.stage.data
      modifies `r, `given, `frameRemainingSize, h`dict, h`dictSize, xxh, xxh.buffer, blockChecksum, blockChecksum.buffer, mem
      ensures InBlocks(mem[..], k, srcPtr + n, dstPtr + n, r.out, false)
      ensures |x| == n && RawRead(old(r), r, x)
      ensures info.blockChecksum ==> blockChecksum.Valid() && blockChecksum.seed == 0 && blockChecksum.seen == old(r.stage.data) + x
    {
      hide InBlocks, Progress, SameOutside, FeedAll, HashState.Valid;
      ghost var m0, r0 := mem[..], r;
      Bounds(m0, k, srcPtr, dstPtr, r.out, false);
      x := ReadRaw(m0, k, srcPtr, dstPtr, n);
      Copy(mem, dstPtr, srcPtr, n);
      BlocksKeptOutput(m0, mem[..], k, srcPtr + n, dstPtr, n, r0.out);
      SliceKept(m0, mem[..], dstPtr, dstPtr + n, srcPtr, srcPtr + n);
      if info.blockChecksum {
        blockChecksum.Update(mem, srcPtr, n);
      }
      Deliver(mem, k, srcPtr + n, dstPtr, srcPtr, n, r0.out, x);
    }

    ghost method ReadRaw(m: seq<byte>, k: DecodeCall, srcPtr: nat, dstPtr: nat, n: nat) returns (x: seq<byte>)
      requires InBlocks(m, k, srcPtr, dstPtr, r.out, false) && srcPtr + n <= k.srcEnd
      requires r.stage.InRaw? && 0 < r.stage.left && n <= r.stage.left
      modifies `r
      ensures InBlocks(m, k, srcPtr + n, dstPtr, old(r).out, false) && Shallow(r, k)
      ensures srcPtr + n <= |m| && x == m[srcPtr..srcPtr + n] && |x| == n && RawRead(old(r), r, x) && r.out == old(r).out + x
    {
      hide Progress, FeedAll, History, Bookkeeping;
      var r0 := r;
      x := Read(m, k, srcPtr, dstPtr, n);
      FeedRaw(r0, x);
    }

    method CheckRawBlock(mem: array<byte>, k: DecodeCall, srcPtr: nat, dstPtr: nat) returns (o: Outcome, ip: nat)
      requires Objects(mem) && Inv(mem[..], k, srcPtr, dstPtr) && dStage.GetBlockChecksum?
      modifies this, mem
      ensures Ends(mem[..], k, o, ip, dstPtr) && (o.Go? ==> srcPtr < ip)
    {
      hide Inv, InBlocks, Ends, Progress, HashState.Valid, Collected;
      Entered(mem[..], k, srcPtr, dstPtr);
      Bounds(mem[..], k, srcPtr, dstPtr, r.out, false);
      if k.srcEnd - srcPtr >= 4 && tmpInSize == 0 {
        ghost var r0 := r;
        assert mem[..][header..header] == [];
        TakeInBlocks(mem[..], k, srcPtr, dstPtr);
        ip := srcPtr + 4;
        o := CompareRaw(mem, k, srcPtr, ip, dstPtr, r0);
      } else {
        o, ip := StoreRawChecksum(mem, k, srcPtr, dstPtr);
      }
    }

    method StoreRawChecksum(mem: array<byte>, k: DecodeCall, srcPtr: nat, dstPtr: nat) returns (o: Outcome, ip: nat)
      requires Objects(mem) && InBlocks(mem[..], k, srcPtr, dstPtr, r.out, false)
      requires dStage.GetBlockChecksum? && Layout(mem.Length) && AtStage(mem[..])
      modifies this, mem
      ensures Ends(mem[..], k, o, ip, dstPtr) && (o.Go? ==> srcPtr < ip)
    {
      hide Inv, InBlocks, Ends, Progress, HashState.Valid, Layout, Complete;
      ghost var r0 := r;
      InputFits(mem.Length, header, 4);
      var n := StoreInBlocks(mem, k, header, tmpInSize, 4, srcPtr, dstPtr);
      ip := srcPtr + n;
      tmpInSize := tmpInSize + n;
      if tmpInSize < 4 {
        o := Stop(1);
        Bounds(mem[..], k, ip, dstPtr, r.out, false);
        Waiting(mem[..], k, 1, ip, dstPtr);
      } else {
        o := CompareRaw(mem, k, header, ip, dstPtr, r0);
      }
    }

    method CompareRaw(mem: array<byte>, k: DecodeCall, crcSrc: nat, srcPtr: nat, dstPtr: nat, ghost r0: Reader) returns (o: Outcome)
      requires Objects(mem) && InBlocks(mem[..], k, srcPtr, dstPtr, r0.out, false) && crcSrc + 4 <= mem.Length
      requires blockChecksum.Valid() && blockChecksum.seed == 0
      requires r0.stage.Collecting? && r0.stage.kind == RawChecksum(blockChecksum.seen) && Collected(r0, r, false, mem[crcSrc..crcSrc + 4])
      modifies `dStage
      ensures Ends(mem[..], k, o, srcPtr, dstPtr)
    {
      hide Inv, InBlocks, Ends, Progress, HashState.Valid, Word;
      Bounds(mem[..], k, srcPtr, dstPtr, r0.out, false);
      var readCRC := ReadLE32(mem, crcSrc);
      var calcCRC := blockChecksum.Digest();
      if readCRC != calcCRC {
        Broken(mem[..], k, srcPtr, dstPtr, r0.out, false);
        o := Fail;
      } else {
        dStage := GetBlockHeader;
        Onward(mem[..], k, srcPtr, dstPtr);
        o := Go;
      }
    }

    // -------------------------------------------------------------- compressed blocks

    method FetchBlock(mem: array<byte>, k: DecodeCall, srcPtr: nat, dstPtr: nat) returns (o: Outcome, ip: nat, op: nat)
      requires Objects(mem) && Inv(mem[..], k, srcPtr, dstPtr) && dStage.GetCBlock? && Poised(k, dstPtr)
      modifies this, h, xxh, xxh.buffer, mem
      ensures Ends(mem[..], k, o, ip, op) && (o.Go? ==> srcPtr < ip || (ip == srcPtr && dStage.StoreCBlock?))
    {
      hide Inv, InBlocks, Ends, Progress, Collected;
      Entered(mem[..], k, srcPtr, dstPtr);
      Bounds(mem[..], k, srcPtr, dstPtr, r.out, false);
      if k.srcEnd - srcPtr < tmpInTarget {
        tmpInSize := 0;
        dStage := StoreCBlock;
        assert mem[..][tmpIn..tmpIn] == [];
        o, ip, op := Go, srcPtr, dstPtr;
        Onward(mem[..], k, srcPtr, dstPtr);
      } else {
        ghost var r0 := r;
        TakeInBlocks(mem[..], k, srcPtr, dstPtr);
        ip := srcPtr + tmpInTarget;
        o, op := TakeCBlock(mem, k, srcPtr, ip, dstPtr, r0);
      }
    }

    method StoreBlock(mem: array<byte>, k: DecodeCall, srcPtr: nat, dstPtr: nat) returns (o: Outcome, ip: nat, op: nat)
      requires Objects(mem) && Inv(mem[..], k, srcPtr, dstPtr) && dStage.StoreCBlock? && Poised(k, dstPtr)
      modifies this, h, xxh, xxh.buffer, mem
      ensures Ends(mem[..], k, o, ip, op) && (o.Go? ==> srcPtr < ip)
    {
      hide Inv, InBlocks, Ends, Progress, Complete;
      Entered(mem[..], k, srcPtr, dstPtr);
      Bounds(mem[..], k, srcPtr, dstPtr, r.out, false);
      ghost var r0 := r;
      var n := StoreInBlocks(mem, k, tmpIn, tmpInSize, tmpInTarget, srcPtr, dstPtr);
      tmpInSize := tmpInSize + n;
      ip := srcPtr + n;
      if tmpInSize < tmpInTarget {
        var hint := (tmpInTarget - tmpInSize) + BH_SIZE;
        o, op := Stop(hint), dstPtr;
        Waiting(mem[..], k, hint, ip, dstPtr);
      } else {
        o, op := TakeCBlock(mem, k, tmpIn, ip, dstPtr, r0);
      }
    }

    /** Where a block to be decoded lies. */
    predicate BlockAt(k: DecodeCall, p: nat, n: nat) {
      (k.src <= p && p + n <= k.srcEnd) || (p == tmpIn && n <= MAX_BLOCK + 4)
    }

    lemma BlockAtPart(k: DecodeCall, p: nat, n: nat, n': nat)
      requires BlockAt(k, p, n) && n' <= n
      ensures BlockAt(k, p, n')
    {
    }

    /** A block is there whole: its checksum is compared, and it is decoded to the output, if
        there is room for any block, or to a buffer. */
    method TakeCBlock(mem: array<byte>, k: DecodeCall, selectedIn: nat, srcPtr: nat, dstPtr: nat, ghost r0: Reader)
      returns (o: Outcome, op: nat)
      requires Objects(mem) && InBlocks(mem[..], k, srcPtr, dstPtr, r0.out, false) && BlockFits()
      requires dstPtr == k.dst0 || dstPtr < k.dstEnd
      requires BlockAt(k, selectedIn, tmpInTarget) && selectedIn + tmpInTarget <= mem.Length
      requires r0.info == info && r0.stage.Collecting? && r0.stage.kind == BlockData(tmpInTarget)
      requires Collected(r0, r, false, mem[selectedIn..selectedIn + tmpInTarget])
      modifies this, h, xxh, xxh.buffer, mem
      ensures Ends(mem[..], k, o, srcPtr, op)
    {
      hide Inv, InBlocks, Ends, Progress, Collected, Io, Layout, Unpack, BlockAt;
      Bounds(mem[..], k, srcPtr, dstPtr, r0.out, false);
      ghost var target := tmpInTarget;
      var ok := CheckBlock(mem, k, selectedIn, srcPtr, dstPtr, r0);
      op := dstPtr;
      BlockAtPart(k, selectedIn, target, tmpInTarget);
      if !ok {
        Broken(mem[..], k, srcPtr, dstPtr, r0.out, false);
        o := Fail;
      } else if k.dstEnd - dstPtr >= maxBlockSize {
        o, op := DecodeToDst(mem, k, selectedIn, tmpInTarget, srcPtr, dstPtr, r0);
      } else {
        o := DecodeToTmp(mem, k, selectedIn, tmpInTarget, srcPtr, dstPtr, r0);
      }
    }

    /** The checksum behind a block, which is then cut off. */
    method CheckBlock(mem: array<byte>, k: DecodeCall, selectedIn: nat, ghost srcPtr: nat, ghost dstPtr: nat, ghost r0: Reader)
      returns (ok: bool)
      requires info.Crc() < tmpInTarget && r0.info == info && selectedIn + tmpInTarget <= mem.Length
      requires r0.stage.Collecting? && r0.stage.kind == BlockData(tmpInTarget)
      requires Collected(r0, r, false, mem[selectedIn..selectedIn + tmpInTarget])
      modifies `tmpInTarget
      ensures tmpInTarget == old(tmpInTarget) - info.Crc()
      ensures ok ==> r == Unpack(r0, mem[selectedIn..selectedIn + tmpInTarget])
      ensures !ok ==> r.stage.Failed?
    {
      hide Unpack, Word, Checksum, Collected, TakeBlock, Hash;
      ok := true;
      ghost var a, n := mem[selectedIn..selectedIn + tmpInTarget], tmpInTarget - info.Crc();
      BlockChecked(r0, r, a, n);
      SliceOfSlice(mem[..], selectedIn, selectedIn + tmpInTarget, selectedIn, selectedIn + n);
      if info.blockChecksum {
        tmpInTarget := tmpInTarget - 4;
        var readBlockCrc := ReadLE32(mem, selectedIn + tmpInTarget);
        var calcBlockCrc := XxHash.OneShot(mem, W32, selectedIn, tmpInTarget, 0);
        SameWord(a, n, mem[selectedIn + n..selectedIn + n + 4], 0, 4);
        ok := readBlockCrc == calcBlockCrc;
      }
    }

    /** The dictionary can serve a block decoded to `dest`. */
    predicate DictUsable(dest: nat, n: nat)
      reads h`dict, h`dictSize
    {
      || h.dict + h.dictSize == dest
      || Disjoint(h.dict + h.dictSize - Least(h.dictSize, DICT64K), h.dict + h.dictSize, dest, dest + n)
    }

    /** The block is decoded to the end of its history, whose size is converted to int.  If that makes
        something else of it, the model goes no further. */
    method DecodeBlock(mem: array<byte>, p: nat, n: nat, dest: nat, ghost out: seq<byte>) returns (lost: bool, d: int)
      requires Layout(mem.Length) && History(mem[..], given, out, false) && (info.linked ==> DictSafe())
      requires p + n + 2 <= mem.Length && dest + maxBlockSize <= mem.Length && Disjoint(p, p + n, dest, dest + maxBlockSize)
      requires info.linked ==> DictUsable(dest, maxBlockSize)
      modifies mem
      ensures lost <==> info.linked && h.dictSize >= TWO31
      ensures lost ==> mem[..] == old(mem[..])
      ensures !lost ==>
        Decodes(old(mem[..]), mem[..], p, p + n, dest, dest + maxBlockSize, if info.linked then out else [], true, d)
    {
      hide Decodes, History, DictUsable, Layout, Disjoint, ToInt;
      NoHistory(mem[..], out);
      var dictSize := ToInt(h.dictSize);
      if dictSize != h.dictSize {
        return true, 0;
      }
      lost := false;
      d := DecodeBehind(mem, p, n, dest, out);
    }

    lemma NoHistory(m: seq<byte>, out: seq<byte>)
      requires History(m, given, out, false)
      ensures !info.linked ==> h.dictSize == 0
    {
      hide DecodedHistory.Ready;
    }

    method DecodeBehind(mem: array<byte>, p: nat, n: nat, dest: nat, ghost out: seq<byte>) returns (d: int)
      requires Layout(mem.Length) && History(mem[..], given, out, false) && (info.linked ==> DictSafe())
      requires p + n + 2 <= mem.Length && dest + maxBlockSize <= mem.Length && Disjoint(p, p + n, dest, dest + maxBlockSize)
      requires info.linked ==> DictUsable(dest, maxBlockSize)
      modifies mem
      ensures Decodes(old(mem[..]), mem[..], p, p + n, dest, dest + maxBlockSize, if info.linked then out else [], true, d)
    {
      hide Decodes, Recent;
      ghost var m0, end := mem[..], h.dict + h.dictSize;
      ghost var hd := if end == dest then h.dictSize else Least(h.dictSize, DICT64K);
      if info.linked {
        RecentBounds(m0, end, h.dictSize, out);
      }
      d := DecompressSafeUsingDict(mem, p, dest, n, maxBlockSize, h.dict, h.dictSize, hd);
      if info.linked {
        DecodesRecent(m0, mem[..], p, p + n, dest, dest + maxBlockSize, end, h.dictSize, hd, out, d);
      } else {
        assert m0[end - hd..end] == [];
      }
    }

    method DecodeToDst(mem: array<byte>, k: DecodeCall, p: nat, n: nat, srcPtr: nat, dstPtr: nat, ghost r0: Reader) returns (o: Outcome, op: nat)
      requires Objects(mem) && InBlocks(mem[..], k, srcPtr, dstPtr, r0.out, false)
      requires BlockAt(k, p, n) && p + n <= mem.Length && r == Unpack(r0, mem[p..p + n]) && r0.info == r.info
      requires maxBlockSize <= k.dstEnd - dstPtr && (dstPtr == k.dst0 || dstPtr < k.dstEnd)
      modifies this, h, xxh, xxh.buffer, mem
      ensures Ends(mem[..], k, o, srcPtr, op)
    {
      hide Inv, InBlocks, Ends, Progress, Decodes, BlockAt, Disjoint, SameOutside, Unpack, Shallow;
      Bounds(mem[..], k, srcPtr, dstPtr, r0.out, false);
      ghost var m0 := mem[..];
      BlockIsApart(m0, k, srcPtr, dstPtr, p, n, r0.out);
      op := dstPtr;
      var lost, d := DecodeBlock(mem, p, n, dstPtr, r0.out);
      if lost {
        GotLost(m0, k, srcPtr, dstPtr, p, n, r0);
        return Lose, op;
      }
      NotDeep(m0, k, srcPtr, dstPtr, r0.out);
      Unpacked(m0, mem[..], p, n, dstPtr, maxBlockSize, r0, r, d);
      if d < 0 {
        Broken(m0, k, srcPtr, dstPtr, r0.out, false);
        o := Fail;
      } else {
        BlocksKeptOutput(m0, mem[..], k, srcPtr, dstPtr, maxBlockSize, r0.out);
        Deliver(mem, k, srcPtr, dstPtr, dstPtr, d, r0.out, mem[dstPtr..dstPtr + d]);
        dStage := GetBlockHeader;
        op := dstPtr + d;
        Onward(mem[..], k, srcPtr, op);
        o := Go;
      }
    }

    lemma GotLost(m: seq<byte>, k: DecodeCall, srcPtr: nat, dstPtr: nat, p: nat, n: nat, r0: Reader)
      requires InBlocks(m, k, srcPtr, dstPtr, r0.out, false) && info.linked && h.dictSize >= TWO31
      requires p + n <= |m| && r == Unpack(r0, m[p..p + n]) && r0.info == r.info && (dstPtr == k.dst0 || dstPtr < k.dstEnd)
      ensures Ends(m, k, Lose, srcPtr, dstPtr)
    {
      hide Recent, FeedAll, Framed, Decode, MustDecode, Bookkeeping;
      Bounds(m, k, srcPtr, dstPtr, r0.out, false);
    }

    /** A block just decoded was not too deep, if the size of its history is an int. */
    lemma NotDeep(m: seq<byte>, k: DecodeCall, srcPtr: nat, dstPtr: nat, out: seq<byte>)
      requires InBlocks(m, k, srcPtr, dstPtr, out, false) && (info.linked ==> h.dictSize < TWO31)
      ensures Shallow(r, k)
    {
      hide Recent, FeedAll, Framed, Bookkeeping;
    }

    lemma BlockIsApart(m: seq<byte>, k: DecodeCall, srcPtr: nat, dstPtr: nat, p: nat, n: nat, out: seq<byte>)
      requires InBlocks(m, k, srcPtr, dstPtr, out, false) && BlockAt(k, p, n) && maxBlockSize <= k.dstEnd - dstPtr
      ensures p + n + 2 <= |m| && dstPtr + maxBlockSize <= |m| && Disjoint(p, p + n, dstPtr, dstPtr + maxBlockSize)
      ensures Layout(|m|) && History(m, given, out, false) && (info.linked ==> DictSafe())
      ensures info.linked ==> DictUsable(dstPtr, maxBlockSize)
    {
      hide Recent, FeedAll, Framed;
    }

    /** Room for a block in the output buffer, behind the history. */
    method ReserveTmp(mem: array<byte>, k: DecodeCall, srcPtr: nat, dstPtr: nat, ghost out: seq<byte>)
      requires Objects(mem) && InBlocks(mem[..], k, srcPtr, dstPtr, out, false)
      modifies h`dictSize, h`tmpOut, mem
      ensures InBlocks(mem[..], k, srcPtr, dstPtr, out, false) && SameOutside(old(mem[..]), mem[..], h.tmpOutBuffer, h.TmpEnd())
      ensures h.tmpOutBuffer <= h.tmpOut && h.tmpOut + maxBlockSize <= h.TmpEnd()
      ensures info.linked ==>
        && DictUsable(h.tmpOut, maxBlockSize) && Least(h.tmpOut - h.tmpOutBuffer, DICT64K) == Least(|given|, DICT64K)
        && (h.dict == h.tmpOutBuffer ==> h.dict + h.dictSize == h.tmpOut)
    {
      hide Progress, Bookkeeping, Recent, SameOutside;
      ghost var m0 := mem[..];
      SameOutsideRefl(m0, h.tmpOutBuffer, h.TmpEnd());
      if info.linked {
        h.PlaceTmpOut(mem, maxBlockSize, given);
        ProgressKept(m0, mem[..], k, srcPtr, dstPtr, h.tmpOutBuffer, h.TmpEnd());
      }
    }

    method DecodeToTmp(mem: array<byte>, k: DecodeCall, p: nat, n: nat, srcPtr: nat, dstPtr: nat, ghost r0: Reader) returns (o: Outcome)
      requires Objects(mem) && InBlocks(mem[..], k, srcPtr, dstPtr, r0.out, false)
      requires BlockAt(k, p, n) && p + n <= mem.Length && r == Unpack(r0, mem[p..p + n]) && r0.info == r.info
      requires dstPtr == k.dst0 || dstPtr < k.dstEnd
      modifies this, h, xxh, xxh.buffer, mem
      ensures Ends(mem[..], k, o, srcPtr, dstPtr)
    {
      hide Inv, InBlocks, Ends, Progress, Decodes, BlockAt, Disjoint, SameOutside, Unpack, DictUsable, Shallow;
      ghost var m0 := mem[..];
      ReserveTmp(mem, k, srcPtr, dstPtr, r0.out);
      ghost var m1 := mem[..];
      Bounds(m1, k, srcPtr, dstPtr, r0.out, false);
      ApartFromTmp(m0, m1, k, srcPtr, dstPtr, p, n, r0.out);
      var lost, d := DecodeBlock(mem, p, n, h.tmpOut, r0.out);
      if lost {
        GotLost(m1, k, srcPtr, dstPtr, p, n, r0);
        return Lose;
      }
      NotDeep(m1, k, srcPtr, dstPtr, r0.out);
      Unpacked(m1, mem[..], p, n, h.tmpOut, maxBlockSize, r0, r, d);
      if d < 0 {
        Broken(m1, k, srcPtr, dstPtr, r0.out, false);
        o := Fail;
      } else {
        BeginFlush(mem, k, srcPtr, dstPtr, d, m1, r0.out, mem[h.tmpOut..h.tmpOut + d]);
        dStage := FlushOut;
        Onward(mem[..], k, srcPtr, dstPtr);
        o := Go;
      }
    }

    lemma ApartFromTmp(m0: seq<byte>, m1: seq<byte>, k: DecodeCall, srcPtr: nat, dstPtr: nat, p: nat, n: nat, out: seq<byte>)
      requires InBlocks(m1, k, srcPtr, dstPtr, out, false) && BlockAt(k, p, n) && p + n <= |m0|
      requires SameOutside(m0, m1, h.tmpOutBuffer, h.TmpEnd())
      requires h.tmpOutBuffer <= h.tmpOut && h.tmpOut + maxBlockSize <= h.TmpEnd()
      ensures p + n + 2 <= |m1| == |m0| && h.tmpOut + maxBlockSize <= |m1| && Disjoint(p, p + n, h.tmpOut, h.tmpOut + maxBlockSize)
      ensures Layout(|m1|) && History(m1, given, out, false) && (info.linked ==> DictSafe())
      ensures m1[p..p + n] == m0[p..p + n]
    {
      hide Recent, FeedAll, Framed, SameOutside;
      SliceKept(m0, m1, h.tmpOutBuffer, h.TmpEnd(), p, p + n);
      SameLength(m0, m1, h.tmpOutBuffer, h.TmpEnd());
    }

    /** A block `x` of `d` bytes stands decoded in the output buffer. */
    method BeginFlush(mem: array<byte>, k: DecodeCall, srcPtr: nat, dstPtr: nat, d: nat, ghost m1: seq<byte>, ghost out: seq<byte>, ghost x: seq<byte>)
      requires Objects(mem) && InBlocks(m1, k, srcPtr, dstPtr, out, false) && Shallow(r, k)
      requires h.tmpOutBuffer <= h.tmpOut && h.tmpOut + maxBlockSize <= h.TmpEnd() && d <= maxBlockSize
      requires info.linked ==>
        && Least(h.tmpOut - h.tmpOutBuffer, DICT64K) == Least(|given|, DICT64K)
        && (h.dict == h.tmpOutBuffer ==> h.dict + h.dictSize == h.tmpOut)
      requires SameOutside(m1, mem[..], h.tmpOut, h.tmpOut + maxBlockSize) && h.tmpOut + d <= mem.Length
      requires mem[h.tmpOut..h.tmpOut + d] == x
      modifies `frameRemainingSize, h`tmpOutSize, h`tmpOutStart, xxh, xxh.buffer
      ensures InBlocks(mem[..], k, srcPtr, dstPtr, out + x, true)
    {
      hide Progress, Bookkeeping, Recent, SameOutside, HashState.Valid, Block, UpTo;
      SameLength(m1, mem[..], h.tmpOut, h.tmpOut + maxBlockSize);
      ProgressKept(m1, mem[..], k, srcPtr, dstPtr, h.tmpOut, h.tmpOut + maxBlockSize);
      Account(mem, h.tmpOut, d, out, x);
      if info.linked {
        h.StartFlush(mem, d, m1, maxBlockSize, given, x);
      } else {
        h.tmpOutSize, h.tmpOutStart := d, 0;
        BlockThere(mem[..], h.tmpOut, out, x);
      }
    }

    // -------------------------------------------------------------- flushing

    method FlushDecoded(mem: array<byte>, k: DecodeCall, srcPtr: nat, dstPtr: nat) returns (o: Outcome, op: nat)
      requires Objects(mem) && Inv(mem[..], k, srcPtr, dstPtr) && dStage.FlushOut?
      modifies this, h, mem
      ensures Ends(mem[..], k, o, srcPtr, op) && (o.Go? ==> dStage.GetBlockHeader?)
    {
      hide Inv, InBlocks, Ends, Progress;
      Entered(mem[..], k, srcPtr, dstPtr);
      Bounds(mem[..], k, srcPtr, dstPtr, r.out, true);
      StillToFlush(mem[..], k, srcPtr, dstPtr, r.out);
      var n := Least(h.tmpOutSize - h.tmpOutStart, k.dstEnd - dstPtr);
      FlushPart(mem, k, srcPtr, dstPtr, n, r.out);
      op := dstPtr + n;
      Bounds(mem[..], k, srcPtr, op, r.out, true);
      if h.tmpOutStart == h.tmpOutSize {
        AllFlushed(mem[..], k, srcPtr, op, r.out);
        dStage := GetBlockHeader;
        Onward(mem[..], k, srcPtr, op);
        o := Go;
      } else {
        o := Stop(BH_SIZE);
        Waiting(mem[..], k, BH_SIZE, srcPtr, op);
      }
    }

    lemma StillToFlush(m: seq<byte>, k: DecodeCall, srcPtr: nat, dstPtr: nat, out: seq<byte>)
      requires InBlocks(m, k, srcPtr, dstPtr, out, true)
      ensures h.tmpOutStart <= h.tmpOutSize
    {
    }

    lemma AllFlushed(m: seq<byte>, k: DecodeCall, srcPtr: nat, dstPtr: nat, out: seq<byte>)
      requires InBlocks(m, k, srcPtr, dstPtr, out, true) && h.tmpOutStart == h.tmpOutSize
      ensures InBlocks(m, k, srcPtr, dstPtr, out, false)
    {
      hide Progress, Bookkeeping, Recent;
      assert out[..|out|] == out;
    }

    /** Delivers the next `n` bytes of the block in the buffer. */
    method FlushPart(mem: array<byte>, k: DecodeCall, srcPtr: nat, dstPtr: nat, n: nat, ghost out: seq<byte>)
      requires InBlocks(mem[..], k, srcPtr, dstPtr, out, true) && Objects(mem)
      requires h.tmpOutStart + n <= h.tmpOutSize && dstPtr + n <= k.dstEnd
      modifies `given, h`dict, h`dictSize, h`tmpOutStart, mem
      ensures InBlocks(mem[..], k, srcPtr, dstPtr + n, out, true) && h.tmpOutStart == old(h.tmpOutStart) + n
    {
      hide Progress, Bookkeeping, DecodedHistory.Flushing, Block, UpTo, DictSafe, DictApart, SameOutside;
      if info.linked {
        FlushToDict(mem, k, srcPtr, dstPtr, n, out);
      } else {
        FlushPlain(mem, k, srcPtr, dstPtr, n, out);
      }
    }

    method FlushPlain(mem: array<byte>, k: DecodeCall, srcPtr: nat, dstPtr: nat, n: nat, ghost out: seq<byte>)
      requires Layout(mem.Length) && Progress(mem[..], k, srcPtr, dstPtr) && dstPtr + n <= k.dstEnd && maxBlockSize <= h.maxBufferSize
      requires !info.linked && History(mem[..], given, out, true) && h.tmpOutStart + n <= h.tmpOutSize
      modifies `given, h`tmpOutStart, mem
      ensures Progress(mem[..], k, srcPtr, dstPtr + n) && History(mem[..], given, out, true)
      ensures h.tmpOutStart == old(h.tmpOutStart) + n
    {
      hide SameOutside, Block, UpTo, Progress, Layout;
      ghost var m0, c := mem[..], given;
      PlainBounds(m0, k, srcPtr, dstPtr, out);
      NextPart(m0, h.tmpOut, h.tmpOutSize, h.tmpOutStart, n, c, out);
      Copy(mem, dstPtr, h.tmpOut + h.tmpOutStart, n);
      PlainFlushed(m0, mem[..], k, srcPtr, dstPtr, n, out);
      UpToMore(c, out, h.tmpOutSize, h.tmpOutStart, mem[dstPtr..dstPtr + n]);
      Advance(mem[..], k, srcPtr, dstPtr, n);
      h.tmpOutStart := h.tmpOutStart + n;
    }

    lemma PlainBounds(m: seq<byte>, k: DecodeCall, srcPtr: nat, dstPtr: nat, out: seq<byte>)
      requires Layout(|m|) && Progress(m, k, srcPtr, dstPtr) && !info.linked && History(m, given, out, true) && maxBlockSize <= h.maxBufferSize
      ensures h.tmpOut + h.tmpOutSize <= |m| && k.dstEnd <= |m|
    {
      hide FeedAll, Framed;
    }

    lemma PlainFlushed(m0: seq<byte>, m1: seq<byte>, k: DecodeCall, srcPtr: nat, dstPtr: nat, n: nat, out: seq<byte>)
      requires Layout(|m0|) && Progress(m0, k, srcPtr, dstPtr) && !info.linked && History(m0, given, out, true) && maxBlockSize <= h.maxBufferSize
      requires SameOutside(m0, m1, dstPtr, dstPtr + n) && dstPtr + n <= k.dstEnd
      ensures Progress(m1, k, srcPtr, dstPtr) && Block(m1, h.tmpOut, h.tmpOutSize, out)
    {
      hide SameOutside, Block, UpTo, FeedAll, Framed;
      SameLength(m0, m1, dstPtr, dstPtr + n);
      BlockKept(m0, m1, dstPtr, dstPtr + n, h.tmpOut, h.tmpOutSize, out);
      SliceKept(m0, m1, dstPtr, dstPtr + n, k.dst0, dstPtr);
      Wrote(m0, m1, k, dstPtr, dstPtr + n);
    }

    method FlushToDict(mem: array<byte>, k: DecodeCall, srcPtr: nat, dstPtr: nat, n: nat, ghost out: seq<byte>)
      requires Layout(mem.Length) && Progress(mem[..], k, srcPtr, dstPtr) && dstPtr + n <= k.dstEnd
      requires info.linked && h.Flushing(mem[..], given, out) && h.tmpOutStart + n <= h.tmpOutSize
      requires DictSafe() && DictApart(dstPtr, k.dstEnd) && Sized(k, dstPtr)
      modifies `given, h`dict, h`dictSize, h`tmpOutStart, mem
      ensures Progress(mem[..], k, srcPtr, dstPtr + n) && h.Flushing(mem[..], given, out)
      ensures h.tmpOutStart == old(h.tmpOutStart) + n && DictSafe() && DictApart(dstPtr + n, k.dstEnd) && Sized(k, dstPtr + n)
    {
      hide DecodedHistory.Flushing, FeedAll, Framed, Moves, DictSafe, Sized, WellPlaced;
      ghost var m0, dict0, size0, x := mem[..], h.dict, h.dictSize, [];
      PlacedNow(k, dstPtr);
      assert EndsWith(given, m0[k.dst0..dstPtr]);
      x := h.FlushLinked(mem, dstPtr, n, k.dst0, given, out);
      FlushFramed(m0, mem[..], k, srcPtr, dstPtr, n);
      DictMoved(k, mem.Length, srcPtr, dstPtr, n, dict0, size0);
      Advance(mem[..], k, srcPtr, dstPtr, n);
    }

    lemma FlushFramed(m0: seq<byte>, m1: seq<byte>, k: DecodeCall, srcPtr: nat, dstPtr: nat, n: nat)
      requires Progress(m0, k, srcPtr, dstPtr) && dstPtr + n <= k.dstEnd && |m1| == |m0| && h.maxBufferSize <= TMP_MAX
      requires forall i :: 0 <= i < |m0| && !(h.tmpOutBuffer <= i < h.TmpEnd()) && !(dstPtr <= i < dstPtr + n) ==> m1[i] == m0[i]
      ensures Progress(m1, k, srcPtr, dstPtr)
    {
      hide FeedAll;
      var a, b := m1[k.dst0..dstPtr], m0[k.dst0..dstPtr];
      forall i: nat | i < dstPtr - k.dst0 ensures a[i] == b[i] {
        assert m1[k.dst0 + i] == m0[k.dst0 + i];
      }
    }

    // -------------------------------------------------------------- the end of a frame

    /** LZ4F_resetDecompressionContext, at the end of a frame. */
    method Finish(m: seq<byte>, ghost k: DecodeCall, ghost srcPtr: nat, ghost dstPtr: nat)
      requires Layout(|m|) && Progress(m, k, srcPtr, dstPtr) && r.stage.Finished? && r.out == given && frameRemainingSize == 0
      requires Shallow(r, k)
      modifies this, h`dict, h`dictSize
      ensures Ends(m, k, EndOfFrame, srcPtr, dstPtr) && r == START && given == []
    {
      hide FeedAll, Framed;
      dStage := GetFrameHeader;
      h.dict, h.dictSize := 0, 0;
      r, given := START, [];
    }

    /** The content is complete; only its checksum is left. */
    ghost predicate InSuffix(m: seq<byte>, k: DecodeCall, srcPtr: nat, dstPtr: nat, out: seq<byte>)
      reads this`r, this`given, this`info, this`maxBlockSize, this`frameRemainingSize, h`maxBufferSize, xxh, xxh.buffer
    {
      && Layout(|m|) && Progress(m, k, srcPtr, dstPtr) && r.info == info && info.contentChecksum
      && Bookkeeping(out, true) && given == out && frameRemainingSize == 0 && Shallow(r, k)
    }

    method FetchSuffix(mem: array<byte>, k: DecodeCall, srcPtr: nat, dstPtr: nat) returns (o: Outcome, ip: nat)
      requires Objects(mem) && Inv(mem[..], k, srcPtr, dstPtr) && dStage.GetSuffix?
      modifies this, h`dict, h`dictSize, mem
      ensures Ends(mem[..], k, o, ip, dstPtr) && !o.Go?
    {
      hide InBlocks, Ends, Progress, Collected, Bookkeeping, History;
      ip := srcPtr;
      if frameRemainingSize != 0 {
        Refused(mem[..], k, srcPtr, dstPtr);
        o := Fail;
      } else if !info.contentChecksum {
        Finish(mem[..], k, srcPtr, dstPtr);
        o := EndOfFrame;
      } else if k.srcEnd - srcPtr < 4 {
        tmpInSize := 0;
        dStage := StoreSuffix;
        assert mem[..][tmpIn..tmpIn] == [];
        o, ip := StoreChecksum(mem, k, srcPtr, dstPtr);
      } else {
        ghost var r0 := r;
        Take(mem[..], k, srcPtr, dstPtr);
        ip := srcPtr + 4;
        SuffixKeeps(r0, r, mem[srcPtr..srcPtr + 4]);
        o := CompareContent(mem, k, srcPtr, ip, dstPtr, r0);
      }
    }

    method StoreChecksum(mem: array<byte>, k: DecodeCall, srcPtr: nat, dstPtr: nat) returns (o: Outcome, ip: nat)
      requires Objects(mem) && InSuffix(mem[..], k, srcPtr, dstPtr, r.out)
      requires dStage.StoreSuffix? && Layout(mem.Length) && AtStage(mem[..])
      modifies this, h`dict, h`dictSize, mem
      ensures Ends(mem[..], k, o, ip, dstPtr) && !o.Go?
    {
      hide InSuffix, Ends, Progress, Complete, Word, Checksum, HashState.Valid, Hash, TakeBlock;
      ghost var r0 := r;
      var n := StoreInSuffix(mem, k, tmpInSize, srcPtr, dstPtr);
      ip := srcPtr + n;
      tmpInSize := tmpInSize + n;
      if tmpInSize < 4 {
        o := Stop(4 - tmpInSize);
        WaitingForSuffix(mem[..], k, 4 - tmpInSize, ip, dstPtr);
      } else {
        SuffixKeeps(r0, r, mem[tmpIn..tmpIn + 4]);
        o := CompareContent(mem, k, tmpIn, ip, dstPtr, r0);
      }
    }

    method StoreInSuffix(mem: array<byte>, k: DecodeCall, have: nat, srcPtr: nat, ghost dstPtr: nat) returns (n: nat)
      requires Objects(mem) && InSuffix(mem[..], k, srcPtr, dstPtr, r.out)
      requires have < 4 && tmpIn + 4 <= mem.Length && r.stage == Collecting(Suffix, mem[tmpIn..tmpIn + have])
      modifies mem, `r
      ensures srcPtr + n <= k.srcEnd && have + n <= 4 && (have + n < 4 ==> srcPtr + n == k.srcEnd)
      ensures Collected(old(r), r, have + n < 4, mem[tmpIn..tmpIn + have + n])
      ensures InSuffix(mem[..], k, srcPtr + n, dstPtr, old(r.out))
    {
      hide Progress, SameOutside, Complete, Bookkeeping;
      ghost var r0 := r;
      n := Store(mem, k, tmpIn, have, 4, srcPtr, dstPtr);
      if have + n == 4 {
        SuffixKeeps(r0, r, mem[tmpIn..tmpIn + have + n]);
      }
    }

    lemma WaitingForSuffix(m: seq<byte>, k: DecodeCall, hint: nat, srcPtr: nat, dstPtr: nat)
      requires InSuffix(m, k, srcPtr, dstPtr, r.out) && Layout(|m|) && AtStage(m) && dStage.StoreSuffix?
      requires hint > 0 && srcPtr == k.srcEnd
      ensures Ends(m, k, Stop(hint), srcPtr, dstPtr)
    {
      hide Progress, Bookkeeping;
    }

    lemma Refused(m: seq<byte>, k: DecodeCall, srcPtr: nat, dstPtr: nat)
      requires Progress(m, k, srcPtr, dstPtr) && r.stage.Failed?
      ensures forall m': seq<byte>, i: nat, j: nat :: Ends(m', k, Fail, i, j)
    {
      hide Progress, Rejects;
      Rejected(m, k, srcPtr, dstPtr);
    }

    method CompareContent(mem: array<byte>, k: DecodeCall, selectedIn: nat, srcPtr: nat, dstPtr: nat, ghost r0: Reader) returns (o: Outcome)
      requires Objects(mem) && InSuffix(mem[..], k, srcPtr, dstPtr, r0.out) && selectedIn + 4 <= mem.Length
      requires r == r0.At(if Word(mem[selectedIn..selectedIn + 4], 0, 4) == Checksum(r0.out) then Finished else Failed)
      modifies this, h`dict, h`dictSize
      ensures Ends(mem[..], k, o, srcPtr, dstPtr) && !o.Go?
    {
      hide InBlocks, Ends, Progress, Word, HashState.Valid, Hash;
      var readCRC := ReadLE32(mem, selectedIn);
      var resultCRC := xxh.Digest();
      if readCRC != resultCRC {
        Refused(mem[..], k, srcPtr, dstPtr);
        o := Fail;
      } else {
        Finish(mem[..], k, srcPtr, dstPtr);
        o := EndOfFrame;
      }
    }

    // -------------------------------------------------------------- skippable frames

    lemma OutsideFrame(m: seq<byte>, k: DecodeCall, srcPtr: nat, dstPtr: nat)
      requires Layout(|m|) && AtStage(m) && !InFrame(dStage) && Progress(m, k, srcPtr, dstPtr)
      requires frameRemainingSize == 0 && NoDict() && (dStage.GetSFrameSize? ==> srcPtr + 4 <= k.srcEnd)
      ensures Ends(m, k, Go, srcPtr, dstPtr)
      ensures !r.stage.Finished? && !dStage.GetSFrameSize? && srcPtr == k.srcEnd ==>
        forall hint: nat :: hint > 0 ==> Ends(m, k, Stop(hint), srcPtr, dstPtr)
    {
      hide AtStage, Progress, Bookkeeping, History;
      NothingTaken(m);
    }

    lemma NothingTaken(m: seq<byte>)
      requires Layout(|m|) && AtStage(m) && !InFrame(dStage)
      ensures r.deepest == 0
    {
      hide ReadHeader;
    }

    method FetchSkipSize(mem: array<byte>, k: DecodeCall, srcPtr: nat, dstPtr: nat) returns (o: Outcome, ip: nat)
      requires Objects(mem) && Inv(mem[..], k, srcPtr, dstPtr) && dStage.GetSFrameSize?
      modifies this
      ensures Ends(mem[..], k, o, ip, dstPtr) && (o.Go? ==> srcPtr < ip)
    {
      hide Ends, Progress, Bookkeeping, History, FeedAll, ReadHeader, SkippableMagic;
      ghost var r0 := r;
      ghost var x := Read(mem[..], k, srcPtr, dstPtr, 4);
      SkipSizeReads(r0.stage.acc, x);
      ip := srcPtr + 4;
      OnSkipSize(mem, k, srcPtr, ip, dstPtr);
      o := Go;
    }

    method OnSkipSize(mem: array<byte>, k: DecodeCall, selectedIn: nat, ghost srcPtr: nat, ghost dstPtr: nat)
      requires Layout(mem.Length) && Progress(mem[..], k, srcPtr, dstPtr) && frameRemainingSize == 0 && NoDict() && given == []
      requires selectedIn + 4 <= mem.Length && r == SkipReader(Word(mem[selectedIn..selectedIn + 4], 0, 4))
      modifies this
      ensures Ends(mem[..], k, Go, srcPtr, dstPtr)
    {
      hide Ends, Progress, Word;
      var sFrameSize := ReadLE32(mem, selectedIn);
      info := info.(contentSize := sFrameSize);
      tmpInTarget := sFrameSize;
      dStage := SkipSkippable;
      OutsideFrame(mem[..], k, srcPtr, dstPtr);
    }

    method StoreSkipSize(mem: array<byte>, k: DecodeCall, srcPtr: nat, dstPtr: nat) returns (o: Outcome, ip: nat)
      requires Objects(mem) && Inv(mem[..], k, srcPtr, dstPtr) && dStage.StoreSFrameSize?
      modifies this, mem
      ensures Ends(mem[..], k, o, ip, dstPtr) && (o.Go? ==> srcPtr < ip)
    {
      hide Ends, Progress, Bookkeeping, History, SameOutside, Word;
      ghost var r0 := r;
      var n := Store(mem, k, header + 4, tmpInSize - 4, 4, srcPtr, dstPtr);
      ip := srcPtr + n;
      tmpInSize := tmpInSize + n;
      if tmpInSize < tmpInTarget {
        o := Stop(tmpInTarget - tmpInSize);
        OutsideFrame(mem[..], k, ip, dstPtr);
      } else {
        OnSkipSize(mem, k, header + 4, ip, dstPtr);
        o := Go;
      }
    }

    method Skip(mem: array<byte>, k: DecodeCall, srcPtr: nat, dstPtr: nat) returns (o: Outcome, ip: nat)
      requires Objects(mem) && Inv(mem[..], k, srcPtr, dstPtr) && dStage.SkipSkippable?
      modifies this, h`dict, h`dictSize
      ensures Ends(mem[..], k, o, ip, dstPtr) && !o.Go?
    {
      hide Ends, Progress, Bookkeeping, History, FeedAll;
      ghost var r0 := r;
      SourceBounds(mem[..], k, srcPtr, dstPtr);
      var skipSize := Least(tmpInTarget, k.srcEnd - srcPtr);
      ghost var x := Read(mem[..], k, srcPtr, dstPtr, skipSize);
      SkipReads(tmpInTarget, x);
      ip := srcPtr + skipSize;
      tmpInTarget := tmpInTarget - skipSize;
      if tmpInTarget > 0 {
        o := Stop(tmpInTarget);
        OutsideFrame(mem[..], k, ip, dstPtr);
      } else {
        Finish(mem[..], k, ip, dstPtr);
        o := EndOfFrame;
      }
    }

    // -------------------------------------------------------------- headers

    /** What LZ4F_decodeHeader does to the context, given what bytes `a` read as. */
    predicate HeaderDecoded(a: seq<byte>, res: HeaderResult, inHeader: bool, used: nat)
      requires |a| >= MIN_FH_SIZE
      reads this`info, this`tmpInSize, this`tmpInTarget, this`dStage, this`maxBlockSize, this`frameRemainingSize
    {
      match res
      case NeedMore =>
        dStage.StoreFrameHeader? && tmpInSize == used == |a| && tmpInTarget == HeaderSize(a[4]) && frameRemainingSize == 0
      case BadHeader => true
      case Skippable =>
        && frameRemainingSize == 0
        && if inHeader then dStage.StoreSFrameSize? && tmpInSize == used == |a| && tmpInTarget == 8
           else dStage.GetSFrameSize? && used == 4
      case Good(i) =>
        && dStage.InitStage? && info == i && maxBlockSize == i.MaxBlock() && frameRemainingSize == i.contentSize
        && used == HeaderSize(a[4]) <= |a|
    }

    /** LZ4F_decodeHeader on bytes that are either in the header buffer or enough for any header. */
    method DecodeHeader(a: seq<byte>, inHeader: bool) returns (ok: bool, used: nat)
      requires MIN_FH_SIZE <= |a| && frameRemainingSize == 0
      modifies `info, `tmpInSize, `tmpInTarget, `dStage, `maxBlockSize, `frameRemainingSize
      ensures ok == !ReadHeader(a).BadHeader? && HeaderDecoded(a, ReadHeader(a), inHeader, used)
    {
      hide HeaderChecksum, Word, HeaderSize;
      ok, used := true, 0;
      info := CLEARED;
      if Word(a, 0, 4) / 16 == SKIPPABLE_START / 16 {
        if inHeader {
          tmpInSize, tmpInTarget := |a|, 8;
          dStage := StoreSFrameSize;
          return ok, |a|;
        }
        dStage := GetSFrameSize;
        return ok, 4;
      }
      var flg: nat, bd: nat := a[4], a[5];
      if Word(a, 0, 4) != MAGICNUMBER || flg / 2 % 2 != 0 || flg / 64 != 1 {
        return false, 0;
      }
      used := HeaderSize(flg);
      if |a| < used {
        tmpInSize, tmpInTarget := |a|, used;
        dStage := StoreFrameHeader;
        return ok, |a|;
      }
      if bd / 128 != 0 || bd / 16 % 8 < 4 || bd % 16 != 0 || HeaderChecksum(a[4..used - 1]) != a[used - 1] {
        return false, 0;
      }
      info := FrameInfo(flg / 32 % 2 == 0, flg / 16 % 2 == 1, 0, flg / 4 % 2 == 1, 0, bd / 16 % 8);
      maxBlockSize := info.MaxBlock();
      if flg / 8 % 2 == 1 {
        EightMore(flg);
        frameRemainingSize := Word64(a, 6);
        info := info.(contentSize := frameRemainingSize);
      }
      if flg % 2 == 1 {
        info := info.(dictID := Word(a, used - 5, 4));
      }
      dStage := InitStage;
    }

    method FetchFrameHeader(mem: array<byte>, k: DecodeCall, srcPtr: nat, dstPtr: nat) returns (o: Outcome, ip: nat)
      requires Objects(mem) && Inv(mem[..], k, srcPtr, dstPtr) && dStage.GetFrameHeader?
      modifies this, mem
      ensures Ends(mem[..], k, o, ip, dstPtr) && (o.Go? ==> srcPtr < ip)
    {
      hide Ends, Progress, Bookkeeping, History;
      SourceBounds(mem[..], k, srcPtr, dstPtr);
      ip := srcPtr;
      if k.srcEnd - srcPtr >= MAX_FH_SIZE {
        o, ip := HeaderFromInput(mem, k, srcPtr, dstPtr);
        return;
      }
      tmpInSize := 0;
      if srcPtr == k.srcEnd {
        o := Stop(MIN_FH_SIZE);
        OutsideFrame(mem[..], k, srcPtr, dstPtr);
        return;
      }
      tmpInTarget := MIN_FH_SIZE;
      dStage := StoreFrameHeader;
      assert mem[..][header..header] == [];
      o, ip := StoreHeader(mem, k, srcPtr, dstPtr);
    }

    method HeaderFromInput(mem: array<byte>, k: DecodeCall, srcPtr: nat, dstPtr: nat) returns (o: Outcome, ip: nat)
      requires Layout(mem.Length) && Progress(mem[..], k, srcPtr, dstPtr) && srcPtr + MAX_FH_SIZE <= k.srcEnd
      requires r == START && given == [] && frameRemainingSize == 0 && NoDict()
      modifies this
      ensures Ends(mem[..], k, o, ip, dstPtr) && (o.Go? ==> srcPtr < ip)
    {
      hide Ends, Progress, Bookkeeping, History, ReadHeader, FeedAll, HeaderSize;
      SourceBounds(mem[..], k, srcPtr, dstPtr);
      var a := mem[srcPtr..k.srcEnd];
      var ok, used := DecodeHeader(a, false);
      DirectHeader(a);
      ghost var n := if ok then used else BadAt(a);
      ghost var x := Read(mem[..], k, srcPtr, dstPtr, n);
      SliceOfSlice(mem[..], srcPtr, k.srcEnd, srcPtr, srcPtr + n);
      ip := srcPtr + used;
      if !ok {
        Refused(mem[..], k, srcPtr + n, dstPtr);
        o := Fail;
      } else {
        HeaderTaken(mem[..], k, ip, dstPtr, a, used);
        o := Go;
      }
    }

    /** The context after a header that was read straight from the input. */
    lemma HeaderTaken(m: seq<byte>, k: DecodeCall, ip: nat, dstPtr: nat, a: seq<byte>, used: nat)
      requires |a| >= MAX_FH_SIZE && HeaderDecoded(a, ReadHeader(a), false, used) && !ReadHeader(a).BadHeader? && !ReadHeader(a).NeedMore?
      requires Layout(|m|) && Progress(m, k, ip, dstPtr) && given == [] && NoDict()
      requires r == DirectReader(a) && (ReadHeader(a).Skippable? ==> SkippableMagic(a[..4]) && ip + 4 <= k.srcEnd)
      ensures Ends(m, k, Go, ip, dstPtr)
    {
      hide Progress, ReadHeader, SkippableMagic, Ends, Layout;
      if ReadHeader(a).Good? {
        FrameBegun(m, k, ip, dstPtr);
      } else {
        OutsideFrame(m, k, ip, dstPtr);
      }
    }

    lemma FrameBegun(m: seq<byte>, k: DecodeCall, srcPtr: nat, dstPtr: nat)
      requires Layout(|m|) && Progress(m, k, srcPtr, dstPtr) && given == [] && NoDict() && dStage.InitStage? && info.Valid()
      requires maxBlockSize == info.MaxBlock() && frameRemainingSize == info.contentSize && r == Reader(Collecting(BlockHeader, []), info, [], true, 0)
      ensures Ends(m, k, Go, srcPtr, dstPtr)
    {
      hide Progress, HashState.Valid, Layout, FrameInfo.MaxBlock;
    }

    method StoreHeader(mem: array<byte>, k: DecodeCall, srcPtr: nat, dstPtr: nat) returns (o: Outcome, ip: nat)
      requires Layout(mem.Length) && Progress(mem[..], k, srcPtr, dstPtr) && dStage.StoreFrameHeader? && AtStage(mem[..])
      requires frameRemainingSize == 0 && NoDict()
      modifies this, mem
      ensures Ends(mem[..], k, o, ip, dstPtr) && (o.Go? ==> srcPtr < ip)
    {
      hide Ends, Progress, Bookkeeping, History, ReadHeader, FeedAll, HeaderSize, SameOutside;
      ghost var acc, x := mem[header..header + tmpInSize], [];
      var n;
      n, x := Gather(mem, k, header, tmpInSize, tmpInTarget, srcPtr, dstPtr);
      HeaderMore(acc, tmpInTarget, x);
      ip := srcPtr + n;
      tmpInSize := tmpInSize + n;
      if tmpInSize < tmpInTarget {
        o := Stop((tmpInTarget - tmpInSize) + BH_SIZE);
        OutsideFrame(mem[..], k, ip, dstPtr);
        return;
      }
      var used;
      var ok;
      ok, used := DecodeHeader(mem[header..header + tmpInTarget], true);
      if !ok {
        Refused(mem[..], k, ip, dstPtr);
        o := Fail;
      } else {
        HeaderStored(mem[..], k, ip, dstPtr, acc + x, used);
        o := Go;
      }
    }

    /** The context after a header, or its beginning, that was gathered in the buffer. */
    lemma HeaderStored(m: seq<byte>, k: DecodeCall, ip: nat, dstPtr: nat, a: seq<byte>, used: nat)
      requires |a| >= MIN_FH_SIZE && HeaderDecoded(a, ReadHeader(a), true, used) && !ReadHeader(a).BadHeader?
      requires Layout(|m|) && Progress(m, k, ip, dstPtr) && given == [] && NoDict() && header + |a| <= |m|
      requires a == m[header..header + |a|] && (ReadHeader(a).Skippable? ==> |a| == MIN_FH_SIZE)
      requires r == HeaderReader(a)
      ensures Ends(m, k, Go, ip, dstPtr)
    {
      hide Progress, ReadHeader, Ends, Layout;
      if ReadHeader(a).Good? {
        FrameBegun(m, k, ip, dstPtr);
      } else {
        TargetAhead(a);
        OutsideFrame(m, k, ip, dstPtr);
      }
    }

    method InitFrame(mem: array<byte>, k: DecodeCall, ghost srcPtr: nat, ghost dstPtr: nat) returns (o: Outcome)
      requires Objects(mem) && Inv(mem[..], k, srcPtr, dstPtr) && dStage.InitStage?
      modifies this, h, xxh
      ensures Ends(mem[..], k, o, srcPtr, dstPtr) && o.Go? && dStage.GetBlockHeader?
    {
      hide Progress, AtStage, Inv, Ends, Bookkeeping, FrameInfo.MaxBlock, History, Layout;
      InitEntered(mem[..], k, srcPtr, dstPtr);
      StartHash(mem);
      SetUpBuffers(mem[..]);
      tmpInSize, tmpInTarget := 0, 0;
      dStage := GetBlockHeader;
      o := Go;
      BlocksBegin(mem[..], k, srcPtr, dstPtr);
    }

    /** The output buffer is made large enough, and empty. */
    method SetUpBuffers(ghost m: seq<byte>)
      requires Layout(|m|) && NoDict() && maxBlockSize == info.MaxBlock()
      modifies h`maxBufferSize, h`tmpOut, h`tmpOutStart, h`tmpOutSize
      ensures Layout(|m|) && History(m, [], [], false)
    {
      hide History, FrameInfo.MaxBlock;
      NeededFits(info);
      var bufferNeeded := maxBlockSize + if info.linked then 2 * DICT64K else 0;
      if bufferNeeded > h.maxBufferSize {
        h.maxBufferSize := bufferNeeded;
      }
      h.tmpOut, h.tmpOutStart, h.tmpOutSize := h.tmpOutBuffer, 0, 0;
      EmptyHistory(m);
    }

    lemma InitEntered(m: seq<byte>, k: DecodeCall, srcPtr: nat, dstPtr: nat)
      requires Inv(m, k, srcPtr, dstPtr) && dStage.InitStage?
      ensures Layout(|m|) && Progress(m, k, srcPtr, dstPtr) && r == r.NextBlock() && r.out == [] == given && r.info == info
      ensures Bookkeeping([], false) && NoDict() && maxBlockSize == info.MaxBlock() && Shallow(r, k)
    {
      hide Progress, HashState.Valid;
    }

    method StartHash(mem: array<byte>)
      requires Objects(mem) && Bookkeeping([], false)
      modifies xxh
      ensures Bookkeeping([], true)
    {
      hide HashState.Valid;
      if info.contentChecksum {
        xxh.Reset(0);
      }
    }

    lemma EmptyHistory(m: seq<byte>)
      requires Layout(|m|) && NoDict() && h.tmpOut == h.tmpOutBuffer && maxBlockSize == info.MaxBlock()
      requires h.maxBufferSize >= maxBlockSize + if info.linked then 2 * DICT64K else 0
      ensures History(m, [], [], false)
    {
    }

    lemma BlocksBegin(m: seq<byte>, k: DecodeCall, srcPtr: nat, dstPtr: nat)
      requires Layout(|m|) && Progress(m, k, srcPtr, dstPtr) && dStage.GetBlockHeader? && r == r.NextBlock() && r.out == [] == given
      requires r.info == info && Bookkeeping([], true) && History(m, [], [], false) && NoDict() && Shallow(r, k)
      ensures Ends(m, k, Go, srcPtr, dstPtr)
    {
      hide Progress, Bookkeeping, History, Shallow;
      NothingGiven(m, k, srcPtr, dstPtr);
    }

    lemma NothingGiven(m: seq<byte>, k: DecodeCall, srcPtr: nat, dstPtr: nat)
      requires Progress(m, k, srcPtr, dstPtr) && given == []
      ensures dstPtr == k.dst0
    {
      hide FeedAll, Framed;
    }

    // -------------------------------------------------------------- the state machine

    method Step(mem: array<byte>, k: DecodeCall, srcPtr: nat, dstPtr: nat) returns (o: Outcome, ip: nat, op: nat)
      requires Objects(mem) && Inv(mem[..], k, srcPtr, dstPtr) && Poised(k, dstPtr)
      modifies this, h, xxh, xxh.buffer, blockChecksum, blockChecksum.buffer, mem
      ensures Ends(mem[..], k, o, ip, op)
      ensures o.Go? ==> srcPtr < ip || (srcPtr == ip && Rank(dStage) < Rank(old(dStage)))
    {
      hide Inv, Ends;
      ip, op := srcPtr, dstPtr;
      match dStage
      case GetFrameHeader => o, ip := FetchFrameHeader(mem, k, srcPtr, dstPtr);
      case StoreFrameHeader => o, ip := ContinueHeader(mem, k, srcPtr, dstPtr);
      case InitStage => o := InitFrame(mem, k, srcPtr, dstPtr);
      case GetBlockHeader => o, ip := FetchBlockHeader(mem, k, srcPtr, dstPtr);
      case StoreBlockHeader => o, ip := ContinueBlockHeader(mem, k, srcPtr, dstPtr);
      case CopyDirect => o, ip, op := CopyDirectly(mem, k, srcPtr, dstPtr);
      case GetBlockChecksum => o, ip := CheckRawBlock(mem, k, srcPtr, dstPtr);
      case GetCBlock => o, ip, op := FetchBlock(mem, k, srcPtr, dstPtr);
      case StoreCBlock => o, ip, op := StoreBlock(mem, k, srcPtr, dstPtr);
      case FlushOut => o, op := FlushDecoded(mem, k, srcPtr, dstPtr);
      case GetSuffix => o, ip := FetchSuffix(mem, k, srcPtr, dstPtr);
      case StoreSuffix => o, ip := ContinueSuffix(mem, k, srcPtr, dstPtr);
      case GetSFrameSize => o, ip := FetchSkipSize(mem, k, srcPtr, dstPtr);
      case StoreSFrameSize => o, ip := StoreSkipSize(mem, k, srcPtr, dstPtr);
      case SkipSkippable => o, ip := Skip(mem, k, srcPtr, dstPtr);
    }

    method ContinueHeader(mem: array<byte>, k: DecodeCall, srcPtr: nat, dstPtr: nat) returns (o: Outcome, ip: nat)
      requires Objects(mem) && Inv(mem[..], k, srcPtr, dstPtr) && dStage.StoreFrameHeader?
      modifies this, mem
      ensures Ends(mem[..], k, o, ip, dstPtr) && (o.Go? ==> srcPtr < ip)
    {
      hide Ends, AtStage, Progress, Layout;
      o, ip := StoreHeader(mem, k, srcPtr, dstPtr);
    }

    method ContinueBlockHeader(mem: array<byte>, k: DecodeCall, srcPtr: nat, dstPtr: nat) returns (o: Outcome, ip: nat)
      requires Objects(mem) && Inv(mem[..], k, srcPtr, dstPtr) && dStage.StoreBlockHeader?
      modifies this, blockChecksum, mem
      ensures Ends(mem[..], k, o, ip, dstPtr) && (o.Go? ==> srcPtr < ip)
    {
      hide Ends, AtStage, Progress, InBlocks, Layout;
      Entered(mem[..], k, srcPtr, dstPtr);
      o, ip := StoreHeaderOfBlock(mem, k, srcPtr, dstPtr);
    }

    method ContinueSuffix(mem: array<byte>, k: DecodeCall, srcPtr: nat, dstPtr: nat) returns (o: Outcome, ip: nat)
      requires Objects(mem) && Inv(mem[..], k, srcPtr, dstPtr) && dStage.StoreSuffix?
      modifies this, h`dict, h`dictSize, mem
      ensures Ends(mem[..], k, o, ip, dstPtr) && !o.Go?
    {
      hide Ends, Progress, Bookkeeping, Layout;
      o, ip := StoreChecksum(mem, k, srcPtr, dstPtr);
    }

    method Run(mem: array<byte>, k: DecodeCall) returns (o: Outcome, srcPtr: nat, dstPtr: nat)
      requires Objects(mem) && Inv(mem[..], k, k.src, k.dst0) && Poised(k, k.dst0)
      modifies this, h, xxh, xxh.buffer, blockChecksum, blockChecksum.buffer, mem
      ensures Ends(mem[..], k, o, srcPtr, dstPtr) && !o.Go?
    {
      hide Inv;
      o, srcPtr, dstPtr := Go, k.src, k.dst0;
      InvBounds(mem[..], k, srcPtr, dstPtr);
      while o.Go?
        invariant Objects(mem) && Ends(mem[..], k, o, srcPtr, dstPtr)
        invariant o.Go? ==> srcPtr <= k.srcEnd
        decreases o.Go?, if o.Go? then k.srcEnd - srcPtr else 0, Rank(dStage)
      {
        o, srcPtr, dstPtr := Step(mem, k, srcPtr, dstPtr);
        if o.Go? {
          InvBounds(mem[..], k, srcPtr, dstPtr);
        }
      }
    }

    lemma InvBounds(m: seq<byte>, k: DecodeCall, srcPtr: nat, dstPtr: nat)
      requires Inv(m, k, srcPtr, dstPtr)
      ensures srcPtr <= k.srcEnd
    {
      hide Valid;
    }

    /** The end of a call: history in the caller's output buffer is brought to safety. */
    method Preserve(mem: array<byte>, k: DecodeCall, srcPtr: nat, dstPtr: nat, stableDst: bool)
      requires Objects(mem) && Inv(mem[..], k, srcPtr, dstPtr)
      modifies h`dict, h`dictSize, h`tmpOut, mem
      ensures Valid(mem[..]) && Progress(mem[..], k, srcPtr, dstPtr) && Shallow(r, k) && (!stableDst ==> Unattached())
    {
      hide Valid, Shallow, InBlocks, SameOutside, AtStage, DecodedHistory.Ready, DecodedHistory.Flushing, Bookkeeping,
           Progress;
      if NeedsHistory(dStage) && info.linked && h.dict != h.tmpOutBuffer && !stableDst {
        ghost var m0 := mem[..];
        Entered(m0, k, srcPtr, dstPtr);
        Bounds(m0, k, srcPtr, dstPtr, r.out, dStage.FlushOut?);
        PreserveLinked(mem, k, srcPtr, dstPtr, dStage.FlushOut?, r.out);
        AtStageKept(m0, mem[..]);
        Stored(mem[..]);
      }
    }

    lemma Stored(m: seq<byte>)
      requires Layout(|m|) && AtStage(m) && NeedsHistory(dStage) && r.info == info && Bookkeeping(r.out, true)
      requires History(m, given, r.out, dStage.FlushOut?) && DictSafe()
      ensures Valid(m)
    {
      hide AtStage, History, Bookkeeping;
    }

    /** No history is needed from the caller's buffers. */
    predicate Unattached()
      reads this`dStage, this`info, h`dict
    {
      NeedsHistory(dStage) && info.linked ==> h.dict == h.tmpOutBuffer
    }

    method PreserveLinked(mem: array<byte>, k: DecodeCall, srcPtr: nat, dstPtr: nat, flushing: bool, ghost out: seq<byte>)
      requires Objects(mem) && InBlocks(mem[..], k, srcPtr, dstPtr, out, flushing) && info.linked
      modifies h`dict, h`dictSize, h`tmpOut, mem
      ensures Layout(mem.Length) && Progress(mem[..], k, srcPtr, dstPtr) && r.info == info && Bookkeeping(out, true)
      ensures History(mem[..], given, out, flushing) && DictSafe() && h.dict == h.tmpOutBuffer
      ensures SameOutside(old(mem[..]), mem[..], h.tmpOutBuffer, h.tmpOutBuffer + TMP_MAX)
    {
      hide SameOutside, DecodedHistory.Ready, DecodedHistory.Flushing, Bookkeeping, Progress;
      ghost var m0 := mem[..];
      h.Preserve(mem, flushing, given, out);
      ProgressKept(m0, mem[..], k, srcPtr, dstPtr, h.tmpOutBuffer, h.TmpEnd());
      SameOutsideWidenIn(m0, mem[..], h.tmpOutBuffer, h.TmpEnd(), h.tmpOutBuffer + TMP_MAX);
    }

    /** What the stage says survives writes to the output buffer. */
    lemma AtStageKept(m0: seq<byte>, m1: seq<byte>)
      requires Layout(|m0|) && AtStage(m0) && SameOutside(m0, m1, h.tmpOutBuffer, h.tmpOutBuffer + TMP_MAX)
      ensures Layout(|m1|) && AtStage(m1)
    {
      hide SameOutside, HashState.Valid, HeaderTarget;
      var lo, hi := h.tmpOutBuffer, h.tmpOutBuffer + TMP_MAX;
      SameLength(m0, m1, lo, hi);
      if dStage.StoreFrameHeader? || dStage.GetBlockChecksum? {
        SliceKept(m0, m1, lo, hi, header, header + tmpInSize);
      } else if dStage.StoreSFrameSize? {
        SliceKept(m0, m1, lo, hi, header + 4, header + tmpInSize);
      } else if dStage.StoreBlockHeader? || dStage.StoreCBlock? || dStage.StoreSuffix? {
        SliceKept(m0, m1, lo, hi, tmpIn, tmpIn + tmpInSize);
      }
    }

    // -------------------------------------------------------------- LZ4F_decompress

    /** The context as any call leaves it. */
    ghost predicate Rests(m: seq<byte>)
      reads this, h, xxh, xxh.buffer, blockChecksum, blockChecksum.buffer
    {
      Valid(m) && !dStage.GetSFrameSize? && !r.stage.Finished?
    }

    /** Where a caller's input and output space may lie. */
    predicate Space(size: nat, src: nat, srcSize: nat, dst: nat, dstSize: nat) {
      && src + srcSize + 2 <= size && dst + dstSize <= size && Disjoint(src, src + srcSize, dst, dst + dstSize)
      && Outside(src, src + srcSize) && Outside(dst, dst + dstSize) && (dstSize > 0 ==> dst > 0)
    }

    predicate Inside(i: int) {
      || header <= i < header + MAX_FH_SIZE || tmpIn <= i < tmpIn + MAX_BLOCK + 4
      || h.tmpOutBuffer <= i < h.tmpOutBuffer + TMP_MAX
    }

    /** How much history is left in buffers of the caller's. */
    function Attached(): nat
      reads this`dStage, this`info, h`dict, h`dictSize
    {
      if NeedsHistory(dStage) && info.linked && h.dict != h.tmpOutBuffer then h.dictSize else 0
    }

    /** LZ4F_decompress.  It gives an error only if the input shows the frame to be broken, or to
        hold a block that some decoder may refuse; otherwise the reader has read what it took,
        and what it delivered continues the content.  It stops only for want of input or room,
        and a hint of 0 means that a whole frame was read and all of its content delivered.
        Unless the caller promises to leave its output in place, no history stays there.
        But the size of the history is converted to int.  Where linked blocks follow 2 GB of
        output, in one call or in stable buffers, the call goes astray: it stops being modelled at
        the block that is going to be decoded with something else.  And there is no way around
        that: as long as calls go well, no block was decompressed behind so much. */
    method Decompress(mem: array<byte>, src: nat, srcSize: nat, dst: nat, dstSize: nat, stableDst: bool)
      returns (res: Result, srcUsed: nat, dstUsed: nat)
      requires Objects(mem) && Rests(mem[..]) && Space(mem.Length, src, srcSize, dst, dstSize)
      requires NeedsHistory(dStage) && info.linked ==> DictApart(dst, dst + dstSize)
      modifies this, h, xxh, xxh.buffer, blockChecksum, blockChecksum.buffer, mem
      ensures res.Failure? ==> Unacceptable(FeedAll(old(r), old(mem[src..src + srcSize])))
      ensures res.Hint? ==> srcUsed <= srcSize && dstUsed <= dstSize && Rests(mem[..]) && (!stableDst ==> Unattached())
      ensures res.Hint? && res.size > 0 ==>
        && r == FeedAll(old(r), old(mem[src..src + srcSize])[..srcUsed]) && given == old(given) + mem[dst..dst + dstUsed]
        && (srcUsed == srcSize || dstUsed == dstSize)
      ensures res.Hint? && res.size == 0 ==>
        && r == START && given == []
        && FrameEnds(FeedAll(old(r), old(mem[src..src + srcSize])[..srcUsed]), old(given) + mem[dst..dst + dstUsed])
      ensures res.Hint? ==>
        var e := FeedAll(old(r), old(mem[src..src + srcSize])[..srcUsed]);
        e.info.linked ==> e.deepest == old(r).deepest || e.deepest < |old(given)| + TWO31
      ensures res.Astray? ==>
        && srcUsed <= srcSize && dstUsed <= dstSize && (dstUsed == 0 || dstUsed < dstSize)
        && TWO31 <= h.dictSize <= old(Attached()) + dstUsed && h.dict + h.dictSize <= mem.Length
        && (dstUsed > 0 ==> h.dict + h.dictSize == dst + dstUsed) && given == old(given) + mem[dst..dst + dstUsed]
        && var e := FeedAll(old(r), old(mem[src..src + srcSize])[..srcUsed]); e.info.linked && given <= e.out
      ensures !res.Failure? ==>
        forall i :: 0 <= i < mem.Length && !Inside(i) && !(dst <= i < dst + dstSize) ==> mem[i] == old(mem[i])
    {
      hide Ends, Inv, Valid, Progress, FeedAll, Framed, Writable, Inside, Shallow, Attached;
      var k := DecodeCall(src, src + srcSize, dst, dst + dstSize, mem[..], mem[src..src + srcSize], r, given, Attached());
      CallBegins(mem[..], k);
      var o, srcPtr, dstPtr := Run(mem, k);
      match o
      case Fail =>
        res, srcUsed, dstUsed := Failure, 0, 0;
        FailedCall(mem[..], k, srcPtr, dstPtr);
      case Stop(hint) =>
        StoppedCall(mem[..], k, srcPtr, dstPtr, hint);
        Preserve(mem, k, srcPtr, dstPtr, stableDst);
        CallStopped(mem[..], k, srcPtr, dstPtr);
        res, srcUsed, dstUsed := Hint(hint), srcPtr - src, dstPtr - dst;
      case EndOfFrame =>
        CallEnded(mem[..], k, srcPtr, dstPtr);
        res, srcUsed, dstUsed := Hint(0), srcPtr - src, dstPtr - dst;
      case Lose =>
        CallLost(mem[..], k, srcPtr, dstPtr);
        res, srcUsed, dstUsed := Astray, srcPtr - src, dstPtr - dst;
    }

    lemma CallBegins(m: seq<byte>, k: DecodeCall)
      requires Rests(m) && k.src <= k.srcEnd && k.dst0 <= k.dstEnd && Space(|m|, k.src, k.srcEnd - k.src, k.dst0, k.dstEnd - k.dst0)
      requires k.m0 == m && k.s == m[k.src..k.srcEnd] && k.r0 == r && k.given0 == given && k.kept == Attached()
      requires NeedsHistory(dStage) && info.linked ==> DictApart(k.dst0, k.dstEnd)
      ensures Inv(m, k, k.src, k.dst0) && Poised(k, k.dst0)
    {
      hide Valid;
      assert k.s[..0] == [] && m[k.dst0..k.dst0] == [];
      FeedNothing(r);
    }

    lemma FailedCall(m: seq<byte>, k: DecodeCall, srcPtr: nat, dstPtr: nat)
      requires Ends(m, k, Fail, srcPtr, dstPtr)
      ensures Unacceptable(FeedAll(k.r0, k.s))
    {
      hide FeedAll;
    }

    lemma StoppedCall(m: seq<byte>, k: DecodeCall, srcPtr: nat, dstPtr: nat, hint: nat)
      requires Ends(m, k, Stop(hint), srcPtr, dstPtr)
      ensures Inv(m, k, srcPtr, dstPtr) && hint > 0 && !r.stage.Finished? && !dStage.GetSFrameSize?
      ensures srcPtr == k.srcEnd || dstPtr == k.dstEnd
    {
      hide Inv;
    }

    lemma CallStopped(m: seq<byte>, k: DecodeCall, srcPtr: nat, dstPtr: nat)
      requires Valid(m) && Progress(m, k, srcPtr, dstPtr) && Shallow(r, k)
      ensures Io(|m|, k, srcPtr, dstPtr) && Framed(m, k) && |k.s| == k.srcEnd - k.src
      ensures r == FeedAll(k.r0, k.s[..srcPtr - k.src]) && given == k.given0 + m[k.dst0..dstPtr]
      ensures r.info.linked ==> r.deepest == k.r0.deepest || r.deepest < |k.given0| + TWO31
      ensures forall i :: 0 <= i < |m| && !Inside(i) && !(k.dst0 <= i < k.dstEnd) ==> m[i] == k.m0[i]
    {
      hide Valid, FeedAll;
    }

    lemma CallEnded(m: seq<byte>, k: DecodeCall, srcPtr: nat, dstPtr: nat)
      requires Ends(m, k, EndOfFrame, srcPtr, dstPtr)
      ensures Rests(m) && r == START && given == [] && Io(|m|, k, srcPtr, dstPtr) && |k.s| == k.srcEnd - k.src && Unattached()
      ensures var e := FeedAll(k.r0, k.s[..srcPtr - k.src]);
              && FrameEnds(e, k.given0 + m[k.dst0..dstPtr])
              && (e.info.linked ==> e.deepest == k.r0.deepest || e.deepest < |k.given0| + TWO31)
      ensures forall i :: 0 <= i < |m| && !Inside(i) && !(k.dst0 <= i < k.dstEnd) ==> m[i] == k.m0[i]
    {
      hide FeedAll;
    }

    lemma CallLost(m: seq<byte>, k: DecodeCall, srcPtr: nat, dstPtr: nat)
      requires Ends(m, k, Lose, srcPtr, dstPtr)
      ensures Io(|m|, k, srcPtr, dstPtr) && |k.s| == k.srcEnd - k.src && (dstPtr == k.dst0 || dstPtr < k.dstEnd)
      ensures TWO31 <= h.dictSize <= k.kept + (dstPtr - k.dst0) && h.dict + h.dictSize <= |m|
      ensures k.dst0 < dstPtr ==> h.dict + h.dictSize == dstPtr
      ensures given == k.given0 + m[k.dst0..dstPtr]
      ensures var e := FeedAll(k.r0, k.s[..srcPtr - k.src]); e.info.linked && given <= e.out
      ensures forall i :: 0 <= i < |m| && !Inside(i) && !(k.dst0 <= i < k.dstEnd) ==> m[i] == k.m0[i]
    {
      hide FeedAll;
    }

    /** What was delivered is the beginning of what was decoded. */
    lemma GivenIsPrefix(m: seq<byte>)
      requires Rests(m)
      ensures given <= r.out
    {
      hide HashState.Valid, Bookkeeping, Recent, HeaderTarget, Word;
    }

    /** Between two calls the caller may do to its own buffers what it likes. */
    lemma CallersBuffers(m0: seq<byte>, m1: seq<byte>)
      requires Rests(m0) && Unattached() && |m1| == |m0| && forall i :: 0 <= i < |m0| && Inside(i) ==> m1[i] == m0[i]
      ensures Rests(m1)
    {
      hide AtStage, History, Bookkeeping;
      SameRange(m0, m1, header, header + MAX_FH_SIZE);
      SameRange(m0, m1, tmpIn, tmpIn + MAX_BLOCK + 4);
      SameRange(m0, m1, h.tmpOutBuffer, h.TmpEnd());
      AtStageSame(m0, m1);
      if NeedsHistory(dStage) {
        HistorySame(m0, m1, given, r.out, dStage.FlushOut?);
      }
    }

    lemma AtStageSame(m0: seq<byte>, m1: seq<byte>)
      requires Layout(|m0|) && |m1| == |m0| && AtStage(m0)
      requires m1[header..header + MAX_FH_SIZE] == m0[header..header + MAX_FH_SIZE]
      requires m1[tmpIn..tmpIn + MAX_BLOCK + 4] == m0[tmpIn..tmpIn + MAX_BLOCK + 4]
      ensures AtStage(m1)
    {
      hide HashState.Valid, HeaderTarget;
      if dStage.StoreFrameHeader? || dStage.GetBlockChecksum? {
        SamePart(m0, m1, header, header + MAX_FH_SIZE, header, header + tmpInSize);
      } else if dStage.StoreSFrameSize? {
        SamePart(m0, m1, header, header + MAX_FH_SIZE, header + 4, header + tmpInSize);
      } else if dStage.StoreBlockHeader? || dStage.StoreCBlock? || dStage.StoreSuffix? {
        SamePart(m0, m1, tmpIn, tmpIn + MAX_BLOCK + 4, tmpIn, tmpIn + tmpInSize);
      }
    }

    lemma HistorySame(m0: seq<byte>, m1: seq<byte>, c: seq<byte>, out: seq<byte>, flushing: bool)
      requires Layout(|m0|) && |m1| == |m0| && History(m0, c, out, flushing) && (info.linked ==> h.dict == h.tmpOutBuffer)
      requires m1[h.tmpOutBuffer..h.TmpEnd()] == m0[h.tmpOutBuffer..h.TmpEnd()]
      ensures History(m1, c, out, flushing)
    {
      hide UpTo, Recent;
      var lo, hi := h.tmpOutBuffer, h.TmpEnd();
      if flushing {
        SamePart(m0, m1, lo, hi, h.tmpOut, h.tmpOut + h.tmpOutSize);
      }
      if info.linked {
        if flushing {
          RecentSame(m0, m1, lo, hi, h.tmpOut + h.tmpOutSize, h.tmpOut + h.tmpOutSize - lo, out);
        } else {
          RecentSame(m0, m1, lo, hi, h.dict + h.dictSize, h.dictSize, c);
        }
      }
    }
  }

  /** The field that reader `r0` was collecting now reads `a`. */
  ghost predicate Collected(r0: Reader, r: Reader, more: bool, a: seq<byte>) {
    && r0.stage.Collecting?
    && (more ==> r == r0.At(Collecting(r0.stage.kind, a)))
    && (!more ==> |a| == Need(r0.stage.kind) && r == Complete(r0, r0.stage.kind, a))
  }

  /** The reader after more bytes of an uncompressed block. */
  ghost predicate RawRead(r0: Reader, r: Reader, x: seq<byte>) {
    && r0.stage.InRaw?
    && var r', data := r0.(out := r0.out + x), r0.stage.data + x;
       r == if |x| < r0.stage.left then r'.At(InRaw(r0.stage.left - |x|, data))
            else if r0.info.blockChecksum then r'.At(Collecting(RawChecksum(data), []))
            else r'.NextBlock()
  }

  lemma CompleteInfo(r: Reader, k: Kind, a: seq<byte>)
    ensures |a| == Need(k) ==>
      var r' := Complete(r, k, a); r'.info == r.info && (r'.deepest == r.deepest || (r'.deepest == |r.out| && r'.out != r.out))
  {
    hide Decode, MustDecode, Checksum, Word;
  }

  /** A dictionary that was clear of a range is so after it has moved. */
  lemma MovesApart(dict0: nat, size0: nat, dict: nat, size: nat, dst0: nat, dst: nat, dstEnd: nat, n: nat, lo: nat, hi: nat)
    requires Moves(dict0, size0, dict, size, dst0, dst, n) && dst0 <= dst && dst + n <= dstEnd && lo < hi
    requires dict == dict0 && dict0 + size0 == dst ==> Disjoint(dict0 + size0 - Least(size0, DICT64K), dict0 + size0, lo, hi)
    requires Disjoint(dst0, dstEnd, lo, hi)
    ensures Disjoint(dict + size - Least(size, DICT64K), dict + size, lo, hi)
  {
  }

  lemma MovesEnd(dict0: nat, size0: nat, dict: nat, size: nat, dst0: nat, dst: nat, n: nat)
    requires Moves(dict0, size0, dict, size, dst0, dst, n) && dst0 <= dst
    requires size0 > 0 ==> dict0 > 0
    ensures dict + size == dst + n && (size > 0 && (dst + n > dst0 ==> dst0 > 0) ==> dict > 0)
  {
  }

  lemma MovesSized(dict0: nat, size0: nat, dict: nat, size: nat, dst0: nat, dst: nat, n: nat, kept: nat)
    requires Moves(dict0, size0, dict, size, dst0, dst, n) && dst0 <= dst
    requires dict == dict0 ==> size0 <= kept + (dst - dst0) && (dst0 < dst ==> dst - dst0 <= size0)
    ensures dst - dst0 + n <= size <= kept + (dst - dst0 + n)
  {
  }

  lemma LessLeft(total: nat, before: nat, n: nat)
    ensures ((total - before) % TWO64 - n) % TWO64 == (total - (before + n)) % TWO64
  {
    ModShift(total - before, n);
  }

  lemma ModShift(a: int, n: nat)
    ensures (a % TWO64 - n) % TWO64 == (a - n) % TWO64
  {
    var q := a / TWO64;
    var b := a % TWO64 - n;
    assert a - n == q * TWO64 + b;
    Multiples(q, b);
  }

  /** Decoding with a recent history is decoding with all of the content. */
  lemma DecodesRecent(m0: seq<byte>, m1: seq<byte>, source: nat, iend: nat, dest: nat, oend: nat,
                      end: nat, n: nat, hd: nat, c: seq<byte>, d: int)
    requires Recent(m0, end, n, c) && Least(n, DICT64K) <= hd <= n && source <= iend <= |m0| && dest <= oend
    requires Decodes(m0, m1, source, iend, dest, oend, m0[end - hd..end], true, d)
    ensures Decodes(m0, m1, source, iend, dest, oend, c, true, d)
  {
    hide Decodes, Recent, EndsWith, Least;
    RecentEnd(m0, end, n, c);
    SliceSuffix(m0, end - hd, end - Least(n, DICT64K), end);
    SameRecent(m0, m1, source, iend, dest, oend, m0[end - hd..end], m0[end - Least(n, DICT64K)..end], c, d);
  }

  lemma SameRecent(m0: seq<byte>, m1: seq<byte>, source: nat, iend: nat, dest: nat, oend: nat,
                   w: seq<byte>, t: seq<byte>, c: seq<byte>, d: int)
    requires source <= iend <= |m0| && dest <= oend && Decodes(m0, m1, source, iend, dest, oend, w, true, d)
    requires EndsWith(w, t) && EndsWith(c, t) && (|t| >= DICT64K || |w| == |t| == |c|)
    ensures Decodes(m0, m1, source, iend, dest, oend, c, true, d)
  {
    hide Decodes;
    Tails(w, t, c);
    hide EndsWith;
    if |t| >= DICT64K {
      SameSuffix(m0, m1, source, iend, dest, oend, w, t, true, d);
      if |c| > |t| {
        SameSuffix(m0, m1, source, iend, dest, oend, t, c, true, d);
      }
    }
  }

  lemma RecentEnd(m: seq<byte>, end: nat, n: nat, c: seq<byte>)
    requires Recent(m, end, n, c)
    ensures n <= end <= |m| && Least(n, DICT64K) == Least(|c|, DICT64K) == (if n < DICT64K then n else DICT64K)
    ensures EndsWith(c, m[end - Least(n, DICT64K)..end])
  {
    hide EndsWith;
  }

  lemma Tails(w: seq<byte>, t: seq<byte>, c: seq<byte>)
    requires EndsWith(w, t) && EndsWith(c, t)
    ensures w[|w| - |t|..] == t && c[|c| - |t|..] == t && (|w| == |t| ==> w == t) && (|c| == |t| ==> c == t)
  {
  }

  lemma TakesHeader(r0: Reader, a: seq<byte>)
    requires |a| == 4
    ensures var r, v := TakeBlockHeader(r0, a), Word(a, 0, 4);
            var size := v % UNCOMPRESSED_FLAG;
            && (size == 0 ==>
                 r == if r0.info.contentSize > 0 && (r0.info.contentSize - |r0.out|) % TWO64 != 0 then r0.At(Failed)
                      else r0.At(if r0.info.contentChecksum then Collecting(Suffix, []) else Finished))
            && (size > r0.info.MaxBlock() ==> r == r0.At(Failed))
            && (0 < size <= r0.info.MaxBlock() ==>
                 r == r0.At(if v / UNCOMPRESSED_FLAG != 0 then InRaw(size, []) else Collecting(BlockData(size + r0.info.Crc()), [])))
  {
    hide Word;
  }

  lemma BlockChecked(r0: Reader, r: Reader, a: seq<byte>, n: nat)
    requires r0.stage.Collecting? && r0.stage.kind == BlockData(n + r0.info.Crc()) && Collected(r0, r, false, a)
    ensures |a| == n + r0.info.Crc()
    ensures if r0.info.blockChecksum && Word(a, n, 4) != Hash(W32, a[..n], 0) then r.stage.Failed? else r == Unpack(r0, a[..n])
  {
    hide Unpack, Word, Hash;
  }

  /** What the decoding call returned is what the reader makes of the block. */
  lemma Unpacked(m0: seq<byte>, m1: seq<byte>, p: nat, n: nat, dest: nat, maxBlockSize: nat, r0: Reader, r: Reader, d: int)
    requires p + n <= |m0| && maxBlockSize == r0.info.MaxBlock() && r == Unpack(r0, m0[p..p + n])
    requires Decodes(m0, m1, p, p + n, dest, dest + maxBlockSize, BlockHistory(r0), true, d)
    ensures d < 0 ==> r.stage.Failed? || !r.strict
    ensures d >= 0 ==> dest + d <= |m1| && d <= maxBlockSize && r == r.NextBlock() && r.out == r0.out + m1[dest..dest + d] && r.info == r0.info
    ensures SameOutside(m0, m1, dest, dest + maxBlockSize)
  {
    hide Decode, MustDecode, SameOutside;
    if d >= 0 {
      var h := BlockHistory(r0);
      var x := m1[dest..dest + d];
      assert (h + x)[|h|..] == x;
    }
  }

  lemma SuffixKeeps(r0: Reader, r: Reader, a: seq<byte>)
    requires r0.stage.Collecting? && r0.stage.kind == Suffix && Collected(r0, r, false, a)
    ensures |a| == 4 && r == r0.At(if Word(a, 0, 4) == Checksum(r0.out) then Finished else Failed)
  {
    hide Word, Checksum;
  }

  /** The reader in a skippable frame of which `n` bytes are left. */
  function SkipReader(n: nat): Reader {
    START.At(if n == 0 then Finished else InSkip(n))
  }

  lemma SkipReads(n: nat, x: seq<byte>)
    requires |x| <= n
    ensures FeedAll(SkipReader(n), x) == SkipReader(n - |x|)
  {
    hide Feed;
    if n > 0 {
      FeedSkip(SkipReader(n), x);
    }
  }

  /** The size of a skippable frame, behind its magic number. */
  lemma SkipSizeReads(acc: seq<byte>, x: seq<byte>)
    requires SkippableMagic(acc) && |x| == 4
    ensures FeedAll(START.At(InHeader(acc)), x) == SkipReader(Word(x, 0, 4))
  {
    hide FeedAll, Feed, Word, HeaderChecksum;
    var r, y, z := START.At(InHeader(acc)), x[..3], x[3..];
    assert y + z == x && (acc + y)[4..] == y;
    FeedInPieces(r, y, z);
    SameWord(acc, 0, acc + y, 0, 4);
    assert ReadHeader(acc + y).Skippable?;
    FeedHeader(r, y);
    FeedField(START.At(Collecting(SkipSize, y)), z);
  }

  // ---------------------------------------------------------------- the reader and headers

  /** What the frame information is cleared to. */
  const CLEARED := FrameInfo(true, false, 0, false, 0, 0)

  /** Looking at less of a header: it says the same, or that more is needed. */
  lemma PrefixReads(a: seq<byte>, n: nat)
    requires MIN_FH_SIZE <= n <= |a|
    ensures ReadHeader(a[..n]) == ReadHeader(a) || (ReadHeader(a[..n]).NeedMore? && n < HeaderSize(a[4]))
  {
    hide HeaderChecksum, Word, HeaderSize;
    var b, size := a[..n], HeaderSize(a[4]);
    SameWord(b, 0, a, 0, 4);
    if n >= size {
      SameWord(b, size - 5, a, size - 5, 4);
      assert b[4..size - 1] == a[4..size - 1];
      if a[4] / 8 % 2 == 1 {
        EightMore(a[4]);
        SameWord(b, 6, a, 6, 8);
      }
    }
  }

  lemma EightMore(flg: nat)
    requires flg / 8 % 2 == 1
    ensures HeaderSize(flg) >= 15
  {
  }

  lemma TargetAhead(a: seq<byte>)
    requires |a| >= MIN_FH_SIZE
    ensures ReadHeader(a).NeedMore? ==> |a| < HeaderSize(a[4])
  {
  }

  lemma NeededFits(info: FrameInfo)
    ensures info.MaxBlock() <= MAX_BLOCK
  {
  }

  function BadAt(a: seq<byte>): (n: nat)
    requires |a| >= MAX_FH_SIZE
    ensures n <= |a|
  {
    if ReadHeader(a[..MIN_FH_SIZE]).BadHeader? then MIN_FH_SIZE else HeaderSize(a[4])
  }

  /** The reader after the first bytes of a frame. */
  function HeaderReader(a: seq<byte>): Reader {
    match ReadHeader(a)
    case NeedMore => START.At(InHeader(a))
    case BadHeader => START.At(Failed)
    case Skippable => START.At(Collecting(SkipSize, if |a| >= 4 then a[4..] else []))
    case Good(info) => Reader(Collecting(BlockHeader, []), info, [], true, 0)
  }

  function DirectReader(a: seq<byte>): Reader
    requires |a| >= MAX_FH_SIZE
  {
    if ReadHeader(a).Skippable? then START.At(InHeader(a[..4])) else HeaderReader(a)
  }

  lemma {:induction false} ReaderOfHeader(a: seq<byte>, n: nat)
    requires 0 < n <= |a| && ReadHeader(a[..n - 1]).NeedMore?
    ensures FeedAll(START, a[..n]) == HeaderReader(a[..n])
  {
    hide FeedAll, Word, HeaderChecksum, HeaderSize;
    assert [] + a[..n] == a[..n] && [] + a[..n][..n - 1] == a[..n - 1];
    FeedHeader(START, a[..n]);
  }

  /** The reader on a header of which there is enough. */
  lemma DirectHeader(a: seq<byte>)
    requires |a| >= MAX_FH_SIZE
    ensures !ReadHeader(a).NeedMore?
    ensures ReadHeader(a).BadHeader? ==> FeedAll(START, a[..BadAt(a)]).stage.Failed?
    ensures ReadHeader(a).Skippable? ==> FeedAll(START, a[..4]) == DirectReader(a) && SkippableMagic(a[..4])
    ensures ReadHeader(a).Good? ==> FeedAll(START, a[..HeaderSize(a[4])]) == DirectReader(a)
  {
    hide FeedAll, HeaderChecksum, Word;
    var size := HeaderSize(a[4]);
    PrefixReads(a, MIN_FH_SIZE);
    PrefixReads(a, size);
    if ReadHeader(a).Skippable? {
      ReaderOfHeader(a, 4);
      SameWord(a, 0, a[..4], 0, 4);
    } else if ReadHeader(a[..MIN_FH_SIZE]).BadHeader? {
      ReaderOfHeader(a, MIN_FH_SIZE);
    } else {
      NeedsAll(a);
      ReaderOfHeader(a, size);
    }
  }

  lemma NeedsAll(a: seq<byte>)
    requires |a| >= MAX_FH_SIZE && !ReadHeader(a).Skippable? && !ReadHeader(a[..MIN_FH_SIZE]).BadHeader?
    ensures ReadHeader(a[..HeaderSize(a[4]) - 1]).NeedMore?
  {
    hide HeaderChecksum, Word;
    SameWord(a, 0, a[..MIN_FH_SIZE], 0, 4);
    SameWord(a, 0, a[..HeaderSize(a[4]) - 1], 0, 4);
  }

  /** More of a header, up to what is wanted. */
  lemma HeaderMore(acc: seq<byte>, target: nat, x: seq<byte>)
    requires HeaderTarget(acc, target) && |acc| + |x| <= target
    ensures |acc| + |x| == target && x != [] ==> FeedAll(START.At(InHeader(acc)), x) == HeaderReader(acc + x)
    ensures |acc| + |x| < target ==>
      FeedAll(START.At(InHeader(acc)), x) == START.At(InHeader(acc + x)) && HeaderTarget(acc + x, target)
    ensures target >= MIN_FH_SIZE && (ReadHeader(acc + x).Skippable? ==> |acc| + |x| == MIN_FH_SIZE)
  {
    hide FeedAll;
    var y := x[..if x == [] then 0 else |x| - 1];
    if x != [] {
      Pending(acc, target, y);
    } else {
      assert acc + y == acc;
    }
    if |acc| + |x| < target {
      Pending(acc, target, x);
    }
    FeedHeader(START.At(InHeader(acc)), x);
  }

  lemma Pending(acc: seq<byte>, target: nat, x: seq<byte>)
    requires HeaderTarget(acc, target) && |acc| + |x| < target
    ensures ReadHeader(acc + x).NeedMore? && HeaderTarget(acc + x, target)
  {
    hide HeaderChecksum, Word;
    if |acc| >= MIN_FH_SIZE {
      SameWord(acc, 0, acc + x, 0, 4);
    }
  }

  lemma SameRange(m0: seq<byte>, m1: seq<byte>, lo: nat, hi: nat)
    requires lo <= hi <= |m0| == |m1| && forall i :: lo <= i < hi ==> m1[i] == m0[i]
    ensures m1[lo..hi] == m0[lo..hi]
  {
  }

  lemma SamePart(m0: seq<byte>, m1: seq<byte>, lo: nat, hi: nat, a: nat, b: nat)
    requires lo <= a <= b <= hi <= |m0| == |m1| && m1[lo..hi] == m0[lo..hi]
    ensures m1[a..b] == m0[a..b]
  {
    SliceOfSlice(m0, lo, hi, a, b);
    SliceOfSlice(m1, lo, hi, a, b);
  }

  lemma RecentSame(m0: seq<byte>, m1: seq<byte>, lo: nat, hi: nat, end: nat, n: nat, c: seq<byte>)
    requires lo + Least(n, DICT64K) <= end <= hi <= |m0| == |m1| && m1[lo..hi] == m0[lo..hi] && Recent(m0, end, n, c)
    ensures Recent(m1, end, n, c)
  {
    SamePart(m0, m1, lo, hi, end - Least(n, DICT64K), end);
  }

  /** A 32-bit little-endian field. */
  method ReadLE32(mem: array<byte>, p: nat) returns (v: nat)
    requires p + 4 <= mem.Length
    ensures v == Word(mem[p..p + 4], 0, 4) && v < 0x1_0000_0000
  {
    v := Word(mem[p..p + 4], 0, 4);
    WordFits(mem[p..p + 4], 0, 4);
    assert Pow256(4) == 0x1_0000_0000;
  }

  /** Four bytes that announce a skippable frame. */
  predicate SkippableMagic(a: seq<byte>) {
    |a| == 4 && Word(a, 0, 4) / 16 == SKIPPABLE_START / 16
  }
}
