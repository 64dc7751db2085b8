/** The LZ4 frame format, twice: as a reader that takes one byte at a time, and as the bytes a
    list of blocks is written as.  The reader takes back what is written; the real decoder, which
    takes its input in pieces of any size, is proved to do what the reader does. */
module FrameFormat {
  import opened BlockFormat
  import Memory
  import opened MatchCount
  import opened Emitter
  import opened FastDecoder
  import opened XxHash

  const MAGICNUMBER := 0x184D2204
  const SKIPPABLE_START := 0x184D2A50
  const UNCOMPRESSED_FLAG := 0x8000_0000
  const TWO64 := 0x1_0000_0000_0000_0000
  const MIN_FH_SIZE := 7
  const MAX_FH_SIZE := 19
  const BH_SIZE := 4
  const MAX_BLOCK := 0x40_0000                     // 4 MB
  const TMP_MAX := MAX_BLOCK + 2 * Memory.DICT64K  // a block, and room to move history in

  datatype FrameInfo = FrameInfo(linked: bool, blockChecksum: bool, contentSize: nat, contentChecksum: bool,
                                 dictID: nat, blockSizeID: nat)
  {
    predicate Valid() {
      contentSize < TWO64 && dictID < 0x1_0000_0000 && 4 <= blockSizeID <= 7
    }
    function MaxBlock(): (n: nat)
      ensures n >= 0x1_0000
    {
      match blockSizeID
      case 0 => 0x1_0000                 // no choice means the smallest
      case 4 => 0x1_0000
      case 5 => 0x4_0000
      case 6 => 0x10_0000
      case _ => 0x40_0000
    }
    function Crc(): nat { if blockChecksum then 4 else 0 }
  }

  function Checksum(s: seq<byte>): (h: nat)
    ensures h < 0x1_0000_0000
  {
    Hash32Fits(s, 0);
    Hash(W32, s, 0)
  }

  // ---------------------------------------------------------------- little-endian fields

  function LeBytes(v: nat, n: nat): (s: seq<byte>)
    ensures |s| == n
    decreases n
  {
    if n == 0 then [] else [v % 256] + LeBytes(v / 256, n - 1)
  }

  function Pow256(n: nat): nat {
    if n == 0 then 1 else 256 * Pow256(n - 1)
  }

  lemma {:induction false} ReadLeBytes(s: seq<byte>, p: nat, v: nat, n: nat)
    requires p + n <= |s| && s[p..p + n] == LeBytes(v, n) && v < Pow256(n)
    ensures Word(s, p, n) == v
    decreases n
  {
    if n > 0 {
      assert s[p] == s[p..p + n][0] == v % 256;
      assert s[p + 1..p + n] == s[p..p + n][1..] == LeBytes(v / 256, n - 1);
      ReadLeBytes(s, p + 1, v / 256, n - 1);
    }
  }

  // ---------------------------------------------------------------- reading a header

  datatype HeaderResult = NeedMore | BadHeader | Skippable | Good(info: FrameInfo)

  function HeaderSize(flg: nat): (n: nat)
    ensures MIN_FH_SIZE <= n <= MAX_FH_SIZE
  {
    MIN_FH_SIZE + flg / 8 % 2 * 8 + flg % 2 * 4
  }

  function HeaderChecksum(s: seq<byte>): byte {
    Checksum(s) / 256 % 256
  }

  /** What the bytes at the beginning of a frame say, as soon as there are enough of them. */
  function ReadHeader(a: seq<byte>): (r: HeaderResult)
    ensures r.Good? ==> r.info.Valid()
  {
    if |a| < MIN_FH_SIZE then NeedMore
    else if Word(a, 0, 4) / 16 == SKIPPABLE_START / 16 then Skippable
    else if Word(a, 0, 4) != MAGICNUMBER || a[4] / 2 % 2 != 0 || a[4] / 64 != 1 then BadHeader
    else
      var flg, size := a[4], HeaderSize(a[4]);
      if |a| < size then NeedMore
      else if a[5] / 128 != 0 || a[5] / 16 % 8 < 4 || a[5] % 16 != 0 then BadHeader
      else if HeaderChecksum(a[4..size - 1]) != a[size - 1] then BadHeader
      else
        WordFits(a, size - 5, 4);
        var contentSize := if flg / 8 % 2 == 1 then Word64(a, 6) else 0;
        var dictID := if flg % 2 == 1 then Word(a, size - 5, 4) else 0;
        Good(FrameInfo(flg / 32 % 2 == 0, flg / 16 % 2 == 1, contentSize, flg / 4 % 2 == 1, dictID, a[5] / 16 % 8))
  }

  function Word64(a: seq<byte>, p: nat): (r: nat)
    requires p + 8 <= |a|
    ensures r < TWO64
  {
    WordFits(a, p, 8);
    assert Pow256(8) == TWO64;
    Word(a, p, 8)
  }

  lemma {:induction false} WordFits(a: seq<byte>, p: nat, n: nat)
    requires p + n <= |a|
    ensures Word(a, p, n) < Pow256(n)
    decreases n
  {
    if n > 0 {
      WordFits(a, p + 1, n - 1);
    }
  }

  lemma Multiples(q: int, b: int)
    ensures (q * TWO64 + b) % TWO64 == b % TWO64
  {
    var c := b / TWO64;
    assert q * TWO64 + b == (q + c) * TWO64 + b % TWO64;
  }

  // ---------------------------------------------------------------- the byte-at-a-time reader

  /** The fields of fixed size that follow the header. */
  datatype Kind = BlockHeader | RawChecksum(data: seq<byte>) | BlockData(size: nat) | Suffix | SkipSize

  function Need(k: Kind): nat {
    if k.BlockData? then k.size else 4
  }

  datatype Stage =
    | InHeader(acc: seq<byte>)
    | Collecting(kind: Kind, acc: seq<byte>)
    | InRaw(left: nat, data: seq<byte>)        // inside an uncompressed block
    | InSkip(left: nat)                        // inside a skippable frame
    | Finished
    | Failed

  /** The reader's state: what it is reading, and the content so far.  `strict` records whether
      all blocks so far were of the kind that no decoder may refuse; `deepest`, how much content
      went before the last compressed block. */
  datatype Reader = Reader(stage: Stage, info: FrameInfo, out: seq<byte>, strict: bool, deepest: nat)
  {
    function At(stage: Stage): Reader { this.(stage := stage) }
    function NextBlock(): Reader { At(Collecting(BlockHeader, [])) }
  }

  const NO_INFO := FrameInfo(false, false, 0, false, 0, 4)
  const START := Reader(InHeader([]), NO_INFO, [], true, 0)

  function TakeBlockHeader(r: Reader, a: seq<byte>): Reader
    requires |a| == 4
  {
    var v := Word(a, 0, 4);
    var size := v % UNCOMPRESSED_FLAG;
    if size == 0 then
      if r.info.contentSize > 0 && (r.info.contentSize - |r.out|) % TWO64 != 0 then r.At(Failed)
      else r.At(if r.info.contentChecksum then Collecting(Suffix, []) else Finished)
    else if size > r.info.MaxBlock() then r.At(Failed)
    else r.At(if v >= UNCOMPRESSED_FLAG then InRaw(size, []) else Collecting(BlockData(size + r.info.Crc()), []))
  }

  /** The history a block can refer to. */
  function BlockHistory(r: Reader): seq<byte> {
    if r.info.linked then r.out else []
  }

  ghost function TakeBlock(r: Reader, a: seq<byte>): Reader
    requires |a| >= r.info.Crc()
  {
    var n := |a| - r.info.Crc();
    if r.info.blockChecksum && Word(a, n, 4) != Checksum(a[..n]) then r.At(Failed) else Unpack(r, a[..n])
  }

  ghost function Unpack(r: Reader, block: seq<byte>): Reader {
    var h := BlockHistory(r);
    var d := Decode(block, 0, h);
    if d.None? || |d.value| - |h| > r.info.MaxBlock() then r.At(Failed).(strict := false)
    else
      Reader(Collecting(BlockHeader, []), r.info, r.out + d.value[|h|..],
             r.strict && MustDecode(block, h, r.info.MaxBlock()), if |d.value| == |h| then r.deepest else |r.out|)
  }

  /** A field is complete. */
  ghost function Complete(r: Reader, k: Kind, a: seq<byte>): Reader
    requires |a| == Need(k)
  {
    match k
    case BlockHeader => TakeBlockHeader(r, a)
    case RawChecksum(data) => if Word(a, 0, 4) == Checksum(data) then r.NextBlock() else r.At(Failed)
    case BlockData(size) => if size < r.info.Crc() then r.At(Failed) else TakeBlock(r, a)
    case Suffix => r.At(if Word(a, 0, 4) == Checksum(r.out) then Finished else Failed)
    case SkipSize => var n := Word(a, 0, 4); r.At(if n == 0 then Finished else InSkip(n))
  }

  ghost function Feed(r: Reader, b: byte): Reader {
    match r.stage
    case InHeader(acc) =>
      (match ReadHeader(acc + [b])
       case NeedMore => r.At(InHeader(acc + [b]))
       case BadHeader => r.At(Failed)
       case Skippable => r.At(Collecting(SkipSize, (acc + [b])[4..]))
       case Good(info) => Reader(Collecting(BlockHeader, []), info, [], r.strict, 0))
    case Collecting(k, acc) =>
      if |acc| + 1 < Need(k) then r.At(Collecting(k, acc + [b]))
      else if |acc| + 1 == Need(k) then Complete(r, k, acc + [b])
      else r.At(Failed)
    case InRaw(left, data) =>
      var r' := r.(out := r.out + [b]);
      if left > 1 then r'.At(InRaw(left - 1, data + [b]))
      else if r.info.blockChecksum then r'.At(Collecting(RawChecksum(data + [b]), []))
      else r'.NextBlock()
    case InSkip(left) => r.At(if left > 1 then InSkip(left - 1) else Finished)
    case Finished => r
    case Failed => r
  }

  /** The reader after the bytes `x`. */
  ghost function FeedAll(r: Reader, x: seq<byte>): Reader
    decreases |x|
  {
    if x == [] then r else FeedAll(Feed(r, x[0]), x[1..])
  }

  /** Independence of how the bytes are cut into pieces. */
  lemma {:induction false} FeedInPieces(r: Reader, x: seq<byte>, y: seq<byte>)
    ensures FeedAll(r, x + y) == FeedAll(FeedAll(r, x), y)
    decreases |x|
  {
    hide Feed;
    if x == [] {
      assert x + y == y;
    } else {
      assert (x + y)[1..] == x[1..] + y;
      FeedInPieces(Feed(r, x[0]), x[1..], y);
    }
  }

  lemma {:induction false} FeedField(r: Reader, x: seq<byte>)
    requires r.stage.Collecting? && |r.stage.acc| < Need(r.stage.kind) && |r.stage.acc| + |x| <= Need(r.stage.kind)
    ensures var k, a := r.stage.kind, r.stage.acc + x;
            FeedAll(r, x) == if |a| < Need(k) then r.At(Collecting(k, a)) else Complete(r, k, a)
    decreases |x|
  {
    hide Complete;
    var k, acc := r.stage.kind, r.stage.acc;
    if x == [] {
      assert acc + x == acc;
    } else {
      assert acc + x == (acc + [x[0]]) + x[1..];
      if x[1..] == [] {
        assert acc + x == acc + [x[0]];
      } else {
        FeedField(Feed(r, x[0]), x[1..]);
        if |acc + x| == Need(k) {
          CompleteSame(r, k, acc + x, Collecting(k, acc + [x[0]]));
        }
      }
    }
  }

  /** What becomes of a complete field does not depend on what the stage says. */
  lemma CompleteSame(r: Reader, k: Kind, a: seq<byte>, stage: Stage)
    requires |a| == Need(k)
    ensures Complete(r.At(stage), k, a) == Complete(r, k, a)
  {
    hide Decode, MustDecode, Checksum, Word;
  }

  lemma {:induction false} FeedRaw(r: Reader, x: seq<byte>)
    requires r.stage.InRaw? && |x| <= r.stage.left && 0 < r.stage.left
    ensures var r', data := r.(out := r.out + x), r.stage.data + x;
            FeedAll(r, x) == if |x| < r.stage.left then r'.At(InRaw(r.stage.left - |x|, data))
                             else if r.info.blockChecksum then r'.At(Collecting(RawChecksum(data), []))
                             else r'.NextBlock()
    decreases |x|
  {
    if x == [] {
      assert r.out + x == r.out && r.stage.data + x == r.stage.data;
    } else {
      assert r.out + x == (r.out + [x[0]]) + x[1..] && r.stage.data + x == (r.stage.data + [x[0]]) + x[1..];
      if x[1..] == [] {
        assert r.out + x == r.out + [x[0]] && r.stage.data + x == r.stage.data + [x[0]];
      } else {
        FeedRaw(Feed(r, x[0]), x[1..]);
      }
    }
  }

  lemma {:induction false} FeedSkip(r: Reader, x: seq<byte>)
    requires r.stage.InSkip? && |x| <= r.stage.left && 0 < r.stage.left
    ensures FeedAll(r, x) == r.At(if |x| < r.stage.left then InSkip(r.stage.left - |x|) else Finished)
    decreases |x|
  {
    if |x| > 1 {
      FeedSkip(Feed(r, x[0]), x[1..]);
    }
  }

  /** A header that is not complete was not complete before either. */
  lemma StillNeedsMore(a: seq<byte>, b: seq<byte>)
    requires ReadHeader(a + b).NeedMore?
    ensures ReadHeader(a).NeedMore?
  {
    hide HeaderChecksum;
    if |a| >= MIN_FH_SIZE {
      SameWord(a, 0, a + b, 0, 4);
    }
  }

  /** The header is read whole as soon as it is there. */
  lemma {:induction false} FeedHeader(r: Reader, x: seq<byte>)
    requires r.stage.InHeader? && ReadHeader(r.stage.acc + x[..if x == [] then 0 else |x| - 1]).NeedMore?
    ensures var a := r.stage.acc + x;
            FeedAll(r, x) == if x == [] then r else
                             match ReadHeader(a)
                             case NeedMore => r.At(InHeader(a))
                             case BadHeader => r.At(Failed)
                             case Skippable => r.At(Collecting(SkipSize, a[4..]))
                             case Good(info) => Reader(Collecting(BlockHeader, []), info, [], r.strict, 0)
    decreases |x|
  {
    hide ReadHeader;
    if x != [] {
      var acc, y := r.stage.acc, x[1..];
      assert acc + x == (acc + [x[0]]) + y;
      if y == [] {
        assert acc + x == acc + [x[0]];
      } else {
        assert acc + x[..|x| - 1] == (acc + [x[0]]) + y[..|y| - 1];
        StillNeedsMore(acc + [x[0]], y[..|y| - 1]);
        FeedHeader(Feed(r, x[0]), y);
      }
    }
  }

  lemma {:induction false} FailedForGood(r: Reader, x: seq<byte>)
    requires r.stage.Failed?
    ensures FeedAll(r, x) == r
    decreases |x|
  {
    if x != [] {
      FailedForGood(r, x[1..]);
    }
  }

  // ---------------------------------------------------------------- writing a frame

  function Bit(b: bool): nat { if b then 1 else 0 }

  function Descriptor(info: FrameInfo): (d: seq<byte>)
    requires info.Valid()
    ensures |d| == 2 + Bit(info.contentSize > 0) * 8 + Bit(info.dictID > 0) * 4
  {
    [64 + Bit(!info.linked) * 32 + Bit(info.blockChecksum) * 16 + Bit(info.contentSize > 0) * 8
     + Bit(info.contentChecksum) * 4 + Bit(info.dictID > 0), info.blockSizeID * 16]
    + (if info.contentSize > 0 then LeBytes(info.contentSize, 8) else [])
    + (if info.dictID > 0 then LeBytes(info.dictID, 4) else [])
  }

  function HeaderBytes(info: FrameInfo): seq<byte>
    requires info.Valid()
  {
    LeBytes(MAGICNUMBER, 4) + Descriptor(info) + [HeaderChecksum(Descriptor(info))]
  }

  /** A block of a frame: stored as it is, or compressed, with the data it stands for. */
  datatype FrameBlock = Raw(data: seq<byte>) | Packed(block: seq<byte>, data: seq<byte>)
  {
    function Payload(): seq<byte> { if Raw? then data else block }
  }

  /** What a block's checksum field holds. */
  function CrcBytes(info: FrameInfo, payload: seq<byte>): seq<byte> {
    if info.blockChecksum then LeBytes(Checksum(payload), 4) else []
  }

  function BlockBytes(info: FrameInfo, b: FrameBlock): seq<byte> {
    LeBytes(|b.Payload()| + if b.Raw? then UNCOMPRESSED_FLAG else 0, 4) + b.Payload()
    + CrcBytes(info, b.Payload())
  }

  /** The block says its data, no decoder may refuse it, and it is not too large. */
  ghost predicate ValidBlock(info: FrameInfo, before: seq<byte>, b: FrameBlock) {
    && 1 <= |b.Payload()| <= info.MaxBlock() && |b.data| <= info.MaxBlock()
    && (b.Packed? ==>
          var h := if info.linked then before else [];
          Decode(b.block, 0, h) == Some(h + b.data) && MustDecode(b.block, h, info.MaxBlock()))
  }

  /** Nobody gets the block's data out of it. */
  ghost predicate BadBlock(info: FrameInfo, before: seq<byte>, b: FrameBlock) {
    && b.Packed? && 1 <= |b.block| <= info.MaxBlock()
    && Misread(b.block, if info.linked then before else [], b.data)
  }

  function Content(bs: seq<FrameBlock>): seq<byte> {
    if bs == [] then [] else Content(bs[..|bs| - 1]) + bs[|bs| - 1].data
  }

  function Deeper(b: FrameBlock, before: nat, deepest: nat): nat {
    if b.Packed? && b.data != [] then before else deepest
  }

  /** How much content goes before the last compressed block that holds any. */
  function Deepest(bs: seq<FrameBlock>): nat {
    if bs == [] then 0 else Deeper(bs[|bs| - 1], |Content(bs[..|bs| - 1])|, Deepest(bs[..|bs| - 1]))
  }

  ghost predicate ValidBlocks(info: FrameInfo, bs: seq<FrameBlock>) {
    bs != [] ==>
      && ValidBlocks(info, bs[..|bs| - 1])
      && ValidBlock(info, Content(bs[..|bs| - 1]), bs[|bs| - 1])
  }

  function AllBlockBytes(info: FrameInfo, bs: seq<FrameBlock>): seq<byte> {
    if bs == [] then [] else AllBlockBytes(info, bs[..|bs| - 1]) + BlockBytes(info, bs[|bs| - 1])
  }

  function EndBytes(info: FrameInfo, content: seq<byte>): seq<byte> {
    LeBytes(0, 4) + if info.contentChecksum then LeBytes(Checksum(content), 4) else []
  }

  function FrameBytes(info: FrameInfo, bs: seq<FrameBlock>): seq<byte>
    requires info.Valid()
  {
    HeaderBytes(info) + AllBlockBytes(info, bs) + EndBytes(info, Content(bs))
  }

  lemma Le32(s: seq<byte>, p: nat, v: nat)
    requires p + 4 <= |s| && s[p..p + 4] == LeBytes(v, 4) && v < 0x1_0000_0000
    ensures Word(s, p, 4) == v
  {
    assert Pow256(4) == 0x1_0000_0000;
    ReadLeBytes(s, p, v, 4);
  }

  /** A written header reads as what it was made of. */
  lemma HeaderReads(info: FrameInfo)
    requires info.Valid()
    ensures ReadHeader(HeaderBytes(info)) == Good(info)
    ensures ReadHeader(HeaderBytes(info)[..|HeaderBytes(info)| - 1]).NeedMore?
  {
    hide HeaderChecksum, Word, LeBytes, Checksum;
    var a, d := HeaderBytes(info), Descriptor(info);
    var size := |a|;
    assert a[0..4] == LeBytes(MAGICNUMBER, 4);
    Le32(a, 0, MAGICNUMBER);
    var b := a[..size - 1];
    assert b[0..4] == LeBytes(MAGICNUMBER, 4);
    Le32(b, 0, MAGICNUMBER);
    assert a[4] == d[0] && a[5] == d[1] && b[4] == d[0];
    assert a[4..size - 1] == d;
    FlagBits(info);
    if info.contentSize > 0 {
      assert a[6..14] == d[2..10] == LeBytes(info.contentSize, 8);
      assert Pow256(8) == TWO64;
      ReadLeBytes(a, 6, info.contentSize, 8);
    }
    if info.dictID > 0 {
      assert a[size - 5..size - 1] == d[|d| - 4..] == LeBytes(info.dictID, 4);
      Le32(a, size - 5, info.dictID);
    }
  }

  /** The two flag bytes, taken apart. */
  lemma FlagBits(info: FrameInfo)
    requires info.Valid()
    ensures var flg, bd := Descriptor(info)[0], Descriptor(info)[1];
            && flg / 64 == 1 && flg / 32 % 2 == Bit(!info.linked) && flg / 16 % 2 == Bit(info.blockChecksum)
            && flg / 8 % 2 == Bit(info.contentSize > 0) && flg / 4 % 2 == Bit(info.contentChecksum)
            && flg / 2 % 2 == 0 && flg % 2 == Bit(info.dictID > 0)
            && bd / 128 == 0 && bd / 16 % 8 == info.blockSizeID && bd % 16 == 0
  {
    hide LeBytes;
  }

  lemma FeedBlock(r: Reader, b: FrameBlock)
    requires r.stage == Collecting(BlockHeader, []) && ValidBlock(r.info, r.out, b)
    ensures FeedAll(r, BlockBytes(r.info, b)) == r.(out := r.out + b.data, deepest := Deeper(b, |r.out|, r.deepest))
  {
    hide FeedAll, Feed, LeBytes, Checksum, Decode, MustDecode, Word;
    var v := |b.Payload()| + if b.Raw? then UNCOMPRESSED_FLAG else 0;
    var head, crc := LeBytes(v, 4), CrcBytes(r.info, b.Payload());
    FeedBlockHeader(r, b, v);
    assert BlockBytes(r.info, b) == head + (b.Payload() + crc);
    FeedInPieces(r, head, b.Payload() + crc);
    if b.Raw? {
      FeedRawBlock(r.At(InRaw(|b.data|, [])), b.data);
    } else {
      FeedField(r.At(Collecting(BlockData(|b.block| + r.info.Crc()), [])), b.block + crc);
      TakesBlock(r.At(Collecting(BlockData(|b.block| + r.info.Crc()), [])), b, crc);
    }
  }

  lemma FeedBlockHeader(r: Reader, b: FrameBlock, v: nat)
    requires r.stage == Collecting(BlockHeader, []) && 1 <= |b.Payload()| <= r.info.MaxBlock()
    requires v == |b.Payload()| + if b.Raw? then UNCOMPRESSED_FLAG else 0
    ensures FeedAll(r, LeBytes(v, 4)) ==
            r.At(if b.Raw? then InRaw(|b.data|, []) else Collecting(BlockData(|b.block| + r.info.Crc()), []))
  {
    hide FeedAll, Feed, LeBytes, Checksum, Decode, MustDecode, Word;
    var head := LeBytes(v, 4);
    FeedField(r, head);
    assert [] + head == head && head[0..4] == head;
    Le32(head, 0, v);
  }

  lemma FeedRawBlock(r: Reader, data: seq<byte>)
    requires r.stage == InRaw(|data|, []) && data != []
    ensures FeedAll(r, data + CrcBytes(r.info, data)) == r.(out := r.out + data).NextBlock()
  {
    hide FeedAll, Feed, LeBytes, Checksum, Word;
    var crc := CrcBytes(r.info, data);
    FeedInPieces(r, data, crc);
    FeedRaw(r, data);
    assert [] + data == data;
    var r2 := FeedAll(r, data);
    if r.info.blockChecksum {
      FeedField(r2, crc);
      assert [] + crc == crc && crc[0..4] == crc;
      Le32(crc, 0, Checksum(data));
    } else {
      FeedNothing(r2);
    }
  }

  /** A block that nobody gets its data from makes the reader give up, or puts a wrong byte into the
      content. */
  lemma FeedBadBlock(r: Reader, b: FrameBlock)
    requires r.stage == Collecting(BlockHeader, []) && BadBlock(r.info, r.out, b)
    ensures var r' := FeedAll(r, BlockBytes(r.info, b));
            || r'.stage.Failed?
            || (!r'.stage.InHeader? && exists i :: 0 <= i < |b.data| && |r.out| + i < |r'.out| && r'.out[|r.out| + i] != b.data[i])
  {
    hide FeedAll, Feed, LeBytes, Checksum, Decode, MustDecode, Word;
    var head, crc := LeBytes(|b.block|, 4), CrcBytes(r.info, b.block);
    FeedBlockHeader(r, b, |b.block|);
    assert BlockBytes(r.info, b) == head + (b.block + crc);
    FeedInPieces(r, head, b.block + crc);
    var r1 := r.At(Collecting(BlockData(|b.block| + r.info.Crc()), []));
    FeedField(r1, b.block + crc);
    assert [] + (b.block + crc) == b.block + crc;
    Checked(r1, b.block);
    var h, d := BlockHistory(r), Decode(b.block, 0, BlockHistory(r));
    if d.Some? && |d.value| - |h| <= r.info.MaxBlock() {
      var i :| 0 <= i < |b.data| && |h| + i < |d.value| && d.value[|h| + i] != b.data[i];
      assert (r.out + d.value[|h|..])[|r.out| + i] == d.value[|h|..][i] == d.value[|h| + i];
    }
  }

  /** A block with its checksum is unpacked. */
  lemma Checked(r: Reader, block: seq<byte>)
    ensures TakeBlock(r, block + CrcBytes(r.info, block)) == Unpack(r, block)
  {
    hide LeBytes, Checksum, Unpack, Word;
    var a, n := block + CrcBytes(r.info, block), |block|;
    assert a[..n] == block;
    if r.info.blockChecksum {
      assert a[n..n + 4] == LeBytes(Checksum(block), 4);
      Le32(a, n, Checksum(block));
    }
  }

  lemma FeedNothing(r: Reader)
    ensures FeedAll(r, []) == r
  {
  }

  lemma TakesBlock(r: Reader, b: FrameBlock, crc: seq<byte>)
    requires b.Packed? && ValidBlock(r.info, r.out, b) && crc == CrcBytes(r.info, b.block)
    ensures [] + (b.block + crc) == b.block + crc
    ensures TakeBlock(r, b.block + crc)
         == Reader(Collecting(BlockHeader, []), r.info, r.out + b.data, r.strict, Deeper(b, |r.out|, r.deepest))
  {
    hide LeBytes, Checksum, Decode, MustDecode, Word, TakeBlock;
    Checked(r, b.block);
    var h := BlockHistory(r);
    assert (h + b.data)[|h|..] == b.data;
  }

  lemma {:induction false} FeedBlocks(r: Reader, bs: seq<FrameBlock>)
    requires r.stage == Collecting(BlockHeader, []) && r.out == [] && r.deepest == 0 && ValidBlocks(r.info, bs)
    ensures FeedAll(r, AllBlockBytes(r.info, bs)) == r.(out := Content(bs), deepest := Deepest(bs))
    decreases |bs|
  {
    hide FeedAll, Feed, BlockBytes, ValidBlock;
    if bs == [] {
      FeedNothing(r);
    } else {
      var bs', b := bs[..|bs| - 1], bs[|bs| - 1];
      FeedBlocks(r, bs');
      FeedInPieces(r, AllBlockBytes(r.info, bs'), BlockBytes(r.info, b));
      FeedBlock(r.(out := Content(bs'), deepest := Deepest(bs')), b);
    }
  }

  /** The frame round trip on the level of the format: a reader fed the bytes of a frame, in
      pieces of whatever size, comes out with the content, and no decoder may refuse it. */
  lemma FrameReads(info: FrameInfo, bs: seq<FrameBlock>)
    requires info.Valid() && ValidBlocks(info, bs)
    requires info.contentSize > 0 ==> info.contentSize == |Content(bs)|
    ensures FeedAll(START, FrameBytes(info, bs)) == Reader(Finished, info, Content(bs), true, Deepest(bs))
  {
    hide FeedAll, Feed, LeBytes, Checksum, Word, AllBlockBytes, HeaderBytes, ValidBlocks, ReadHeader;
    var h, rest := HeaderBytes(info), AllBlockBytes(info, bs);
    HeaderReads(info);
    HeaderLength(info);
    assert [] + h[..|h| - 1] == h[..|h| - 1] && [] + h == h;
    FeedHeader(START, h);
    var r := Reader(Collecting(BlockHeader, []), info, [], true, 0);
    assert FrameBytes(info, bs) == h + (rest + EndBytes(info, Content(bs)));
    FeedInPieces(START, h, rest + EndBytes(info, Content(bs)));
    FeedInPieces(r, rest, EndBytes(info, Content(bs)));
    FeedBlocks(r, bs);
    FeedEnd(r.(out := Content(bs), deepest := Deepest(bs)));
  }

  lemma HeaderLength(info: FrameInfo)
    requires info.Valid()
    ensures MIN_FH_SIZE <= |HeaderBytes(info)| <= MAX_FH_SIZE
  {
  }

  lemma FeedEnd(r: Reader)
    requires r.stage == Collecting(BlockHeader, []) && (r.info.contentSize > 0 ==> r.info.contentSize == |r.out|)
    ensures FeedAll(r, EndBytes(r.info, r.out)) == r.At(Finished)
  {
    hide FeedAll, Feed, LeBytes, Checksum, Word;
    var head, crc := LeBytes(0, 4), if r.info.contentChecksum then LeBytes(Checksum(r.out), 4) else [];
    FeedField(r, head);
    assert [] + head == head && head[0..4] == head;
    Le32(head, 0, 0);
    FeedInPieces(r, head, crc);
    var r1 := FeedAll(r, head);
    if r.info.contentChecksum {
      FeedField(r1, crc);
      assert [] + crc == crc && crc[0..4] == crc;
      Le32(crc, 0, Checksum(r.out));
    } else {
      FeedNothing(r1);
    }
  }
}
