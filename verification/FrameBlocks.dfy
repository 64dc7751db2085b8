/** One block of a frame, as LZ4F_makeBlock writes it: compressed if that makes it smaller, stored
    as it is otherwise, with a size field in front and a checksum behind. */
module FrameBlocks {
  import opened BlockFormat
  import opened Memory
  import opened MatchCount
  import opened Emitter
  import opened FastDecoder
  import opened BlockApi
  import opened XxHash
  import opened FrameFormat
  import opened BlockStream
  import HcStream

  method WriteLE32(mem: array<byte>, p: nat, v: nat)
    requires p + 4 <= mem.Length
    modifies mem
    ensures mem[p..p + 4] == LeBytes(v, 4) && SameOutside(old(mem[..]), mem[..], p, p + 4)
  {
    mem[p] := v % 256;
    mem[p + 1] := v / 256 % 256;
    mem[p + 2] := v / 256 / 256 % 256;
    mem[p + 3] := v / 256 / 256 / 256 % 256;
    assert LeBytes(v, 4) == [v % 256] + LeBytes(v / 256, 3);
    assert LeBytes(v / 256, 3) == [v / 256 % 256] + LeBytes(v / 256 / 256, 2);
  }

  /** How far a block of `n` bytes may write: the compressor needs its worst-case room. */
  function Reach(n: nat): nat {
    8 + CompressBound(n)
  }

  predicate BlockReady(stream: BlockStream, linked: bool, size: nat, src: nat, n: nat, dst: nat)
    reads stream`level, stream.fast, stream.hc
  {
    && 0 < n <= LZ4_MAX_INPUT_SIZE && 0 < src && src + n + 3 <= size && dst + Reach(n) <= size
    && Disjoint(src, src + n, dst, dst + Reach(n))
    && (linked ==> PastReady(stream.Remembers(), src, n, dst, dst + Reach(n)))
  }

  predicate PastReady(p: Past, src: nat, n: nat, lo: nat, hi: nat) {
    p.Apart(lo, hi) && p.Apart(src, src + n) && (src == p.end ==> p.ExtApart(lo, hi))
  }

  /** The block is going to say what it should.  No more room is given to it than makes it smaller
      than the source. */
  predicate Reliable(stream: BlockStream, linked: bool, src: nat, n: nat)
    reads stream`level, stream.fast
    requires n > 0
  {
    if linked then stream.Reliable(src, n, n - 1) else stream.UsesHc() || Works(stream.Acceleration(), n)
  }

  /** It is not. */
  ghost predicate Snare(stream: BlockStream, linked: bool, m: seq<byte>, src: nat, n: nat)
    reads stream`level, stream.fast
    requires stream.fast.dictionary + stream.fast.dictSize + 3 <= |m| && src + n <= |m|
  {
    if linked then stream.Snare(m, src, n)
    else !stream.UsesHc() && !Works(stream.Acceleration(), n) && Confusing([], m[src..src + n])
  }

  lemma RecallsKept(m0: seq<byte>, m1: seq<byte>, p: Past, c: seq<byte>, lo: nat, hi: nat)
    requires SameOutside(m0, m1, lo, hi) && p.Apart(lo, hi)
    ensures Recalls(m0, p, c) ==> Recalls(m1, p, c)
    ensures RecallsAll(m0, p, c) && p.ExtApart(lo, hi) ==> RecallsAll(m1, p, c)
  {
    hide EndsWith;
    if p.Inside(|m0|) {
      SliceKept(m0, m1, lo, hi, p.start, p.end);
      if p.ExtApart(lo, hi) {
        SliceKept(m0, m1, lo, hi, p.extLo, p.extHi);
      }
    }
  }

  lemma RecallsLater(m0: seq<byte>, m1: seq<byte>, p: Past, p': Past, c: seq<byte>, src: nat, n: nat, lo: nat, hi: nat)
    requires RecallsAll(m0, p', c) && SameOutside(m0, m1, lo, hi) && Follows(p, p', src, n) && n > 0 && lo < hi
    requires PastReady(p, src, n, lo, hi) && Disjoint(src, src + n, lo, hi)
    ensures RecallsAll(m1, p', c)
  {
    hide RecallsAll;
    ApartNext(p, p', src, n, lo, hi);
    RecallsKept(m0, m1, p', c, lo, hi);
  }

  /** What the payload of a block says. */
  ghost predicate PayloadSays(info: FrameInfo, c: seq<byte>, payload: seq<byte>, data: seq<byte>) {
    Says(payload, if info.linked then c else [], data)
  }

  /** Nobody gets the data out of the payload. */
  ghost predicate PayloadMisleads(info: FrameInfo, c: seq<byte>, payload: seq<byte>, data: seq<byte>) {
    Misread(payload, if info.linked then c else [], data)
  }

  lemma PackedIsValid(info: FrameInfo, c: seq<byte>, payload: seq<byte>, data: seq<byte>)
    requires PayloadSays(info, c, payload, data) && 1 <= |payload| <= info.MaxBlock() && |data| <= info.MaxBlock()
    ensures ValidBlock(info, c, Packed(payload, data))
  {
    hide Decode, MustDecode;
  }

  /** The compressed form of a block, if it is smaller than the block. */
  method Pack(mem: array<byte>, stream: BlockStream, info: FrameInfo, dst: nat, src: nat, n: nat, ghost c: seq<byte>,
              ghost e: HcStream.Extent)
    returns (cSize: nat)
    requires stream.Good(mem.Length) && BlockReady(stream, info.linked, mem.Length, src, n, dst)
    requires info.linked ==>
      if src == stream.Remembers().end then RecallsAll(mem[..], stream.Remembers(), c) else Recalls(mem[..], stream.Remembers(), c)
    requires info.linked && stream.UsesHc() ==> stream.HasExtent(e)
    modifies stream.fast, stream.fast.hashTable, stream.hc, stream.hc.hashTable, stream.hc.chainTable, mem
    ensures stream.Good(mem.Length) && SameOutside(old(mem[..]), mem[..], dst, dst + Reach(n)) && mem[src..src + n] == old(mem[src..src + n])
    ensures cSize < n
    ensures cSize > 0 && old(Reliable(stream, info.linked, src, n)) ==>
      PayloadSays(info, c, mem[dst + 4..dst + 4 + cSize], old(mem[src..src + n]))
    ensures old(Snare(stream, info.linked, mem[..], src, n)) ==>
      cSize > 0 && PayloadMisleads(info, c, mem[dst + 4..dst + 4 + cSize], old(mem[src..src + n]))
    ensures info.linked ==>
      && RecallsAll(mem[..], stream.Remembers(), c + old(mem[src..src + n]))
      && Follows(old(stream.Remembers()), stream.Remembers(), src, n)
      && (!stream.UsesHc() ==>
            stream.Counts(old(stream.fast.currentOffset), old(stream.fast.dictSize), old(stream.Remembers().end) == src, n))
      && (stream.UsesHc() ==> stream.HasExtent(HcStream.NextExtent(e, old(stream.Remembers().end) == src, n)))
  {
    hide Says, SameOutside, RecallsAll, Recalls, Follows, BlockStream.Good, BlockStream.Reliable, BlockStream.Snare,
         BlockStream.Counts, BlockStream.HasExtent, Works, Confusing, Misread;
    ghost var m0 := mem[..];
    if info.linked {
      cSize := stream.Compress(mem, src, dst + 4, n, n - 1, c, e);
    } else {
      cSize := stream.CompressAlone(mem, src, dst + 4, n, n - 1);
    }
    SameOutsideWiden(m0, mem[..], dst + 4, dst + 4 + CompressBound(n), dst, dst + Reach(n));
    SliceKept(m0, mem[..], dst, dst + Reach(n), src, src + n);
  }

  /** Size field, payload, and checksum if there is one, one behind the other. */
  ghost predicate Wrapped(m: seq<byte>, dst: nat, header: nat, payload: seq<byte>, checksum: bool) {
    var end := dst + 4 + |payload|;
    && end + (if checksum then 4 else 0) <= |m|
    && m[dst..dst + 4] == LeBytes(header, 4) && m[dst + 4..end] == payload
    && (checksum ==> m[end..end + 4] == LeBytes(Checksum(payload), 4))
  }

  lemma WrappedBytes(m: seq<byte>, dst: nat, info: FrameInfo, b: FrameBlock)
    requires Wrapped(m, dst, BlockHeaderFor(|b.Payload()|, b.Raw?), b.Payload(), info.blockChecksum)
    ensures dst + 4 + |b.Payload()| + info.Crc() <= |m|
    ensures m[dst..dst + 4 + |b.Payload()| + info.Crc()] == BlockBytes(info, b)
  {
    hide LeBytes, Checksum;
    var mid, end := dst + 4 + |b.Payload()|, dst + 4 + |b.Payload()| + info.Crc();
    assert m[dst..mid] == m[dst..dst + 4] + m[dst + 4..mid];
    assert m[dst..end] == m[dst..mid] + m[mid..end];
    assert info.Crc() == 0 ==> m[mid..end] == [];
  }

  /** The size field, and the payload unless it is there already. */
  method WritePayload(mem: array<byte>, dst: nat, src: nat, n: nat, cSize: nat, ghost payload: seq<byte>)
    requires cSize < n && src + n <= mem.Length && dst + 4 + n <= mem.Length && Disjoint(src, src + n, dst, dst + 4)
    requires payload == PayloadAt(mem[..], dst, src, n, cSize)
    modifies mem
    ensures Wrapped(mem[..], dst, BlockHeaderFor(|payload|, cSize == 0), payload, false)
    ensures SameOutside(old(mem[..]), mem[..], dst, dst + 4 + n)
  {
    hide SameOutside, LeBytes;
    ghost var m0 := mem[..];
    if cSize == 0 {
      WriteLE32(mem, dst, n + UNCOMPRESSED_FLAG);
      ghost var m1 := mem[..];
      SliceKept(m0, m1, dst, dst + 4, src, src + n);
      Copy(mem, dst + 4, src, n);
      SliceKept(m1, mem[..], dst + 4, dst + 4 + n, dst, dst + 4);
      TwoWrites(m0, m1, mem[..], dst, dst + 4, dst + 4 + n);
    } else {
      WriteLE32(mem, dst, cSize);
      SliceKept(m0, mem[..], dst, dst + 4, dst + 4, dst + 4 + cSize);
      SameOutsideWiden(m0, mem[..], dst, dst + 4, dst, dst + 4 + n);
    }
  }

  lemma TwoWrites(m0: seq<byte>, m1: seq<byte>, m2: seq<byte>, a: nat, b: nat, c: nat)
    requires SameOutside(m0, m1, a, b) && SameOutside(m1, m2, b, c) && a <= b <= c
    ensures SameOutside(m0, m2, a, c)
  {
  }

  lemma WrappedMore(m0: seq<byte>, m1: seq<byte>, dst: nat, header: nat, payload: seq<byte>)
    requires Wrapped(m0, dst, header, payload, false)
    requires var end := dst + 4 + |payload|;
             end + 4 <= |m1| && SameOutside(m0, m1, end, end + 4) && m1[end..end + 4] == LeBytes(Checksum(payload), 4)
    ensures Wrapped(m1, dst, header, payload, true)
  {
    hide LeBytes, Checksum, SameOutside;
    var end := dst + 4 + |payload|;
    SliceKept(m0, m1, end, end + 4, dst, dst + 4);
    SliceKept(m0, m1, end, end + 4, dst + 4, end);
  }

  /** Size field, payload and checksum. */
  method Wrap(mem: array<byte>, info: FrameInfo, dst: nat, src: nat, n: nat, cSize: nat, ghost payload: seq<byte>) returns (size: nat)
    requires cSize < n && src + n <= mem.Length && dst + 8 + n <= mem.Length && Disjoint(src, src + n, dst, dst + 8 + n)
    requires payload == PayloadAt(mem[..], dst, src, n, cSize)
    modifies mem
    ensures |payload| <= n && size == 4 + |payload| + info.Crc()
    ensures Wrapped(mem[..], dst, BlockHeaderFor(|payload|, cSize == 0), payload, info.blockChecksum)
    ensures SameOutside(old(mem[..]), mem[..], dst, dst + 8 + n)
  {
    hide SameOutside, Wrapped, PayloadAt, BlockHeaderFor;
    ghost var m0, header := mem[..], BlockHeaderFor(|payload|, cSize == 0);
    WritePayload(mem, dst, src, n, cSize, payload);
    var len := if cSize == 0 then n else cSize;
    size := 4 + len + info.Crc();
    SameOutsideWiden(m0, mem[..], dst, dst + 4 + n, dst, dst + 8 + n);
    if info.blockChecksum {
      ghost var m1 := mem[..];
      AddChecksum(mem, dst, len, header, payload);
      SameOutsideWiden(m1, mem[..], dst + 4 + len, dst + 8 + len, dst, dst + 8 + n);
      SameOutsideCompose(m0, m1, mem[..], dst, dst, dst + 8 + n);
    }
  }

  method AddChecksum(mem: array<byte>, dst: nat, len: nat, ghost header: nat, ghost payload: seq<byte>)
    requires Wrapped(mem[..], dst, header, payload, false) && |payload| == len && dst + 8 + len <= mem.Length
    modifies mem
    ensures Wrapped(mem[..], dst, header, payload, true) && SameOutside(old(mem[..]), mem[..], dst + 4 + len, dst + 8 + len)
  {
    hide SameOutside, Wrapped;
    ghost var m1 := mem[..];
    PayloadThere(m1, dst, header, payload);
    WriteChecksum(mem, dst + 4, len, payload);
    WrappedMore(m1, mem[..], dst, header, payload);
  }

  /** The size field of a block. */
  function BlockHeaderFor(size: nat, raw: bool): nat {
    size + if raw then UNCOMPRESSED_FLAG else 0
  }

  lemma PayloadThere(m: seq<byte>, dst: nat, header: nat, payload: seq<byte>)
    requires Wrapped(m, dst, header, payload, false)
    ensures dst + 4 + |payload| <= |m| && m[dst + 4..dst + 4 + |payload|] == payload
  {
  }

  method WriteChecksum(mem: array<byte>, p: nat, len: nat, ghost payload: seq<byte>)
    requires p + len + 4 <= mem.Length && mem[p..p + len] == payload
    modifies mem
    ensures mem[p + len..p + len + 4] == LeBytes(Checksum(payload), 4)
    ensures SameOutside(old(mem[..]), mem[..], p + len, p + len + 4)
  {
    hide SameOutside, LeBytes, Hash;
    var crc32 := XxHash.OneShot(mem, W32, p, len, 0);
    WriteLE32(mem, p + len, crc32);
  }

  /** LZ4F_makeBlock.  What it writes is a block of the frame format that says the source, unless
      the situation is exceptional; and the stream's past has moved on by the source, whether the
      block was compressed or stored. */
  method MakeBlock(mem: array<byte>, stream: BlockStream, info: FrameInfo, dst: nat, src: nat, n: nat, ghost c: seq<byte>,
                   ghost e: HcStream.Extent)
    returns (size: nat, ghost b: FrameBlock)
    requires stream.Good(mem.Length) && BlockReady(stream, info.linked, mem.Length, src, n, dst) && n <= info.MaxBlock()
    requires info.linked ==>
      if src == stream.Remembers().end then RecallsAll(mem[..], stream.Remembers(), c) else Recalls(mem[..], stream.Remembers(), c)
    requires info.linked && stream.UsesHc() ==> stream.HasExtent(e)
    modifies stream.fast, stream.fast.hashTable, stream.hc, stream.hc.hashTable, stream.hc.chainTable, mem
    ensures stream.Good(mem.Length) && SameOutside(old(mem[..]), mem[..], dst, dst + Reach(n))
    ensures b.data == old(mem[src..src + n]) && size <= 4 + n + info.Crc() && size <= Reach(n)
    ensures mem[dst..dst + size] == BlockBytes(info, b)
    ensures old(Reliable(stream, info.linked, src, n)) ==> ValidBlock(info, c, b)
    ensures old(Snare(stream, info.linked, mem[..], src, n)) ==> BadBlock(info, c, b)
    ensures info.linked ==>
      && RecallsAll(mem[..], stream.Remembers(), c + b.data) && Follows(old(stream.Remembers()), stream.Remembers(), src, n)
      && (!stream.UsesHc() ==>
            stream.Counts(old(stream.fast.currentOffset), old(stream.fast.dictSize), old(stream.Remembers().end) == src, n))
      && (stream.UsesHc() ==> stream.HasExtent(HcStream.NextExtent(e, old(stream.Remembers().end) == src, n)))
  {
    hide PayloadSays, PayloadMisleads, SameOutside, RecallsAll, Recalls, Follows, BlockStream.Good, Reliable, Snare,
         ValidBlock, BadBlock, Wrapped, PastReady, BlockBytes, BlockStream.Counts, BlockStream.HasExtent,
         HcStream.NextExtent;
    ghost var m0, p, data := mem[..], stream.Remembers(), mem[src..src + n];
    var cSize := Pack(mem, stream, info, dst, src, n, c, e);
    ghost var m1, payload := mem[..], PayloadAt(mem[..], dst, src, n, cSize);
    size := WrapWide(mem, info, dst, src, n, cSize, payload);
    SameOutsideCompose(m0, m1, mem[..], dst, dst, dst + Reach(n));
    b := BlockMade(info, c, data, payload, cSize == 0);
    WrappedBytes(mem[..], dst, info, b);
    if info.linked {
      RecallsLater(m1, mem[..], p, stream.Remembers(), c + data, src, n, dst, dst + Reach(n));
    }
  }

  /** What becomes the payload of a block. */
  ghost function PayloadAt(m: seq<byte>, dst: nat, src: nat, n: nat, cSize: nat): (payload: seq<byte>)
    requires cSize < n && src + n <= |m| && dst + 4 + n <= |m|
    ensures |payload| == if cSize == 0 then n else cSize
  {
    if cSize == 0 then m[src..src + n] else m[dst + 4..dst + 4 + cSize]
  }

  method WrapWide(mem: array<byte>, info: FrameInfo, dst: nat, src: nat, n: nat, cSize: nat, ghost payload: seq<byte>) returns (size: nat)
    requires cSize < n <= LZ4_MAX_INPUT_SIZE && src + n <= mem.Length && dst + Reach(n) <= mem.Length && Disjoint(src, src + n, dst, dst + Reach(n))
    requires dst + 4 + n <= mem.Length && payload == PayloadAt(mem[..], dst, src, n, cSize)
    modifies mem
    ensures |payload| <= n && size == 4 + |payload| + info.Crc() && size <= Reach(n)
    ensures Wrapped(mem[..], dst, BlockHeaderFor(|payload|, cSize == 0), payload, info.blockChecksum)
    ensures SameOutside(old(mem[..]), mem[..], dst, dst + Reach(n))
  {
    hide SameOutside, Wrapped;
    ghost var m0 := mem[..];
    size := Wrap(mem, info, dst, src, n, cSize, payload);
    SameOutsideWiden(m0, mem[..], dst, dst + 8 + n, dst, dst + Reach(n));
  }

  ghost method BlockMade(info: FrameInfo, c: seq<byte>, data: seq<byte>, payload: seq<byte>, raw: bool) returns (b: FrameBlock)
    requires 1 <= |data| <= info.MaxBlock() && 1 <= |payload| <= info.MaxBlock() && (raw ==> payload == data)
    ensures b.data == data && b.Payload() == payload && b.Raw? == raw
    ensures raw || PayloadSays(info, c, payload, data) ==> ValidBlock(info, c, b)
    ensures !raw && PayloadMisleads(info, c, payload, data) ==> BadBlock(info, c, b)
  {
    hide PayloadSays, ValidBlock, Misread;
    if raw {
      b := Raw(data);
      RawIsValid(info, c, data);
    } else {
      b := Packed(payload, data);
      if PayloadSays(info, c, payload, data) {
        PackedIsValid(info, c, payload, data);
      }
    }
  }

  lemma RawIsValid(info: FrameInfo, c: seq<byte>, data: seq<byte>)
    requires 1 <= |data| <= info.MaxBlock()
    ensures ValidBlock(info, c, Raw(data))
  {
  }
}
