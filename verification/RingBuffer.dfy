/** The unsynchronised ring buffers of the streaming example: the compressing side and the
    decompressing side keep rings of different sizes and wrap around at different messages, and
    still every message comes back. */
module RingBuffer {
  import opened BlockFormat
  import opened Memory
  import opened Encoding
  import opened Emitter
  import opened FastSearch
  import opened FastDecoder
  import opened BlockApi
  import opened Streaming
  import opened HcSearch
  import opened HcStream

  const MESSAGE_MAX_BYTES := 1024
  const RING_BUFFER_BYTES := 1024 * 8 + MESSAGE_MAX_BYTES
  const DECODE_RING_BUFFER := RING_BUFFER_BYTES + MESSAGE_MAX_BYTES
  const CMPBUFSIZE := CompressBound(MESSAGE_MAX_BYTES)

  const BUF := 64                          // where either ring starts
  const CMP_ENC := BUF + RING_BUFFER_BYTES + 8
  const CMP_DEC := BUF + DECODE_RING_BUFFER

  predicate IsMessage(m: seq<byte>) {
    1 <= |m| <= MESSAGE_MAX_BYTES
  }

  function Concat(messages: seq<seq<byte>>): seq<byte> {
    if messages == [] then [] else Concat(messages[..|messages| - 1]) + messages[|messages| - 1]
  }

  lemma ConcatNext(messages: seq<seq<byte>>, k: nat)
    requires k < |messages|
    ensures Concat(messages[..k + 1]) == Concat(messages[..k]) + messages[k]
  {
    assert messages[..k + 1][..k] == messages[..k];
  }

  /** The block is faithful to the message, behind a history that is part of what was sent before
      it, and so short that the ring holds it together with `room` bytes. */
  ghost predicate Sent(block: seq<byte>, before: seq<byte>, message: seq<byte>, room: nat) {
    && |block| <= CMPBUFSIZE
    && exists h: seq<byte>, qs: seq<Sequence> {:trigger FaithfulBlock(block, h, message, qs)} ::
         FaithfulBlock(block, h, message, qs) && EndsWith(before, h) && |h| + room <= RING_BUFFER_BYTES
  }

  // ---------------------------------------------------------------- the compressing side

  /** Where the encoder's dictionary stands, the next message going to `offset`: everything
      since the last wrap, or right after a wrap the whole lap. */
  ghost predicate EncoderLap(m: seq<byte>, sent: seq<byte>, offset: nat, currentOffset: nat, dictionary: nat, dictSize: nat) {
    && offset < RING_BUFFER_BYTES - MESSAGE_MAX_BYTES && |m| == CMP_ENC + CMPBUFSIZE
    && if dictSize == 0 then sent == [] && currentOffset == 0 && dictionary == 0 && offset == 0
       else
         && dictionary == BUF
         && (if offset > 0 then dictSize == offset
             else RING_BUFFER_BYTES - MESSAGE_MAX_BYTES <= dictSize < RING_BUFFER_BYTES)
         && EndsWith(sent, m[BUF..BUF + dictSize])
  }

  /** What writing the next message leaves of the dictionary. */
  lemma EncoderHistory(m0: seq<byte>, m1: seq<byte>, sent: seq<byte>, offset: nat, n: nat, currentOffset: nat,
                       dictionary: nat, dictSize: nat)
    requires EncoderLap(m0, sent, offset, currentOffset, dictionary, dictSize) && 1 <= n <= MESSAGE_MAX_BYTES
    requires SameOutside(m0, m1, BUF + offset, BUF + offset + n)
    ensures var k := KeptSize(dictionary, dictSize, BUF + offset + n);
            && EndsWith(sent, m1[dictionary + dictSize - k..dictionary + dictSize])
            && k == (if offset == 0 && dictSize > 0 then dictSize - n else dictSize)
  {
    var k := KeptSize(dictionary, dictSize, BUF + offset + n);
    if dictSize > 0 {
      SliceKept(m0, m1, BUF + offset, BUF + offset + n, dictionary + dictSize - k, dictionary + dictSize);
      SuffixOfSuffix(sent, m0[BUF..BUF + dictSize], m0[BUF + dictSize - k..BUF + dictSize]);
    }
  }

  lemma EncoderLapNext(m1: seq<byte>, m2: seq<byte>, sent: seq<byte>, message: seq<byte>, offset: nat, h: seq<byte>,
                       currentOffset: nat, dictionary: nat, dictSize': nat)
    requires offset < RING_BUFFER_BYTES - MESSAGE_MAX_BYTES && IsMessage(message)
    requires |m1| == CMP_ENC + CMPBUFSIZE && SameOutside(m1, m2, CMP_ENC, CMP_ENC + CMPBUFSIZE)
    requires m1[BUF + offset..BUF + offset + |message|] == message && EndsWith(sent, h)
    requires offset > 0 ==> h == m1[BUF..BUF + offset]
    requires dictionary + dictSize' == BUF + offset + |message| && dictSize' == |message| + offset
    ensures var o := offset + |message|;
            EncoderLap(m2, sent + message, if o >= RING_BUFFER_BYTES - MESSAGE_MAX_BYTES then 0 else o,
                       currentOffset, dictionary, dictSize')
  {
    hide SameOutside, EndsWith, Disjoint;
    SameLength(m1, m2, CMP_ENC, CMP_ENC + CMPBUFSIZE);
    SliceKept(m1, m2, CMP_ENC, CMP_ENC + CMPBUFSIZE, BUF, BUF + dictSize');
    SuffixMore(sent, h, message);
    assert m1[BUF..BUF + dictSize'] == m1[BUF..BUF + offset] + message;
  }

  /** test_compress: every message is sent, and its block refers to nothing that the decoding
      ring may have lost. */
  method TestCompress(messages: seq<seq<byte>>) returns (blocks: seq<seq<byte>>)
    requires forall m :: m in messages ==> IsMessage(m)
    ensures |blocks| == |messages|
    ensures forall k :: 0 <= k < |blocks| ==> Sent(blocks[k], Concat(messages[..k]), messages[k], |messages[k]|)
  {
    hide EncoderLap, Concat, FaithfulBlock, Sent, SameOutside, Promise, EndsWith, KeptSize;
    var mem := new byte[CMP_ENC + CMPBUFSIZE];
    var enc := new EncoderStream();
    var offset := 0;
    blocks := [];
    FirstLap(mem[..]);
    assert messages[..0] == [];
    while |blocks| < |messages|
      invariant |blocks| <= |messages| && enc.Valid() && fresh(enc) && fresh(enc.hashTable)
      invariant EncoderLap(mem[..], Concat(messages[..|blocks|]), offset, enc.currentOffset, enc.dictionary, enc.dictSize)
      invariant forall k :: 0 <= k < |blocks| ==> Sent(blocks[k], Concat(messages[..k]), messages[k], |messages[k]|)
    {
      ghost var sent := Concat(messages[..|blocks|]);
      var message := messages[|blocks|];
      var block;
      block, offset := SendMessage(enc, mem, message, offset, sent);
      ConcatNext(messages, |blocks|);
      blocks := blocks + [block];
    }
  }

  lemma FirstLap(m: seq<byte>)
    requires |m| == CMP_ENC + CMPBUFSIZE
    ensures EncoderLap(m, Concat([]), 0, 0, 0, 0)
  {
  }

  /** A message goes where the call wants it: clear of what is left of the dictionary, or right
      behind it; and what is left fits a ring together with the message. */
  lemma EncoderPlaces(m: seq<byte>, sent: seq<byte>, offset: nat, n: nat, currentOffset: nat, dictionary: nat, dictSize: nat)
    requires EncoderLap(m, sent, offset, currentOffset, dictionary, dictSize) && 1 <= n <= MESSAGE_MAX_BYTES
    ensures var k, dictEnd := KeptSize(dictionary, dictSize, BUF + offset + n), dictionary + dictSize;
            && dictSize < DICT64K && dictEnd + 3 <= CMP_ENC && k + n < RING_BUFFER_BYTES
            && (if offset > 0 then dictEnd == BUF + offset && k == offset else dictEnd != BUF + offset)
            && (dictEnd == BUF + offset || Disjoint(dictEnd - k, dictEnd, BUF + offset, BUF + offset + n))
            && !TinyExternal(currentOffset, k, dictEnd != BUF + offset)
  {
    hide EndsWith;
  }

  lemma EncoderReady(enc: EncoderStream, m: seq<byte>, offset: nat, n: nat)
    requires enc.dictSize < DICT64K && enc.dictionary + enc.dictSize + 3 <= CMP_ENC && |m| == CMP_ENC + CMPBUFSIZE
    requires offset < RING_BUFFER_BYTES - MESSAGE_MAX_BYTES && n <= MESSAGE_MAX_BYTES
    requires var k, dictEnd := KeptSize(enc.dictionary, enc.dictSize, BUF + offset + n), enc.dictionary + enc.dictSize;
             dictEnd == BUF + offset || Disjoint(dictEnd - k, dictEnd, BUF + offset, BUF + offset + n)
    ensures enc.Ready(|m|, BUF + offset, n, CMP_ENC)
    ensures var k, dictEnd := KeptSize(enc.dictionary, enc.dictSize, BUF + offset + n), enc.dictionary + enc.dictSize;
            enc.History(m, BUF + offset, n) == m[dictEnd - k..dictEnd]
  {
    hide KeptSize;
  }

  /** The message being there, the stream is ready for it. */
  lemma EncoderWaits(enc: EncoderStream, m0: seq<byte>, m1: seq<byte>, sent: seq<byte>, offset: nat, n: nat) returns (h: seq<byte>)
    requires EncoderLap(m0, sent, offset, enc.currentOffset, enc.dictionary, enc.dictSize) && 1 <= n <= MESSAGE_MAX_BYTES
    requires SameOutside(m0, m1, BUF + offset, BUF + offset + n)
    ensures enc.dictionary + enc.dictSize + 3 <= |m1| && enc.Ready(|m1|, BUF + offset, n, CMP_ENC)
    ensures h == enc.History(m1, BUF + offset, n) && EndsWith(sent, h) && |h| + n < RING_BUFFER_BYTES
    ensures !TinyExternal(enc.currentOffset, |h|, enc.dictionary + enc.dictSize != BUF + offset)
    ensures if offset > 0 then enc.dictionary + enc.dictSize == BUF + offset && h == m1[BUF..BUF + offset]
            else enc.dictionary + enc.dictSize != BUF + offset
  {
    hide KeptSize, EndsWith, SameOutside, EncoderStream.Ready, EncoderStream.History, Disjoint;
    SameLength(m0, m1, BUF + offset, BUF + offset + n);
    EncoderPlaces(m0, sent, offset, n, enc.currentOffset, enc.dictionary, enc.dictSize);
    EncoderHistory(m0, m1, sent, offset, n, enc.currentOffset, enc.dictionary, enc.dictSize);
    EncoderReady(enc, m1, offset, n);
    h := enc.History(m1, BUF + offset, n);
  }

  lemma IsSent(block: seq<byte>, before: seq<byte>, message: seq<byte>, h: seq<byte>, qs: seq<Sequence>)
    requires FaithfulBlock(block, h, message, qs) && EndsWith(before, h) && |h| + |message| < RING_BUFFER_BYTES
    requires |block| <= CMPBUFSIZE
    ensures Sent(block, before, message, |message|)
  {
    hide FaithfulBlock;
  }

  /** One round of the compressing loop. */
  method SendMessage(enc: EncoderStream, mem: array<byte>, message: seq<byte>, offset: nat, ghost sent: seq<byte>)
    returns (block: seq<byte>, offset': nat)
    requires enc.Valid() && IsMessage(message)
    requires EncoderLap(mem[..], sent, offset, enc.currentOffset, enc.dictionary, enc.dictSize)
    modifies enc, enc.hashTable, mem
    ensures enc.Valid() && Sent(block, sent, message, |message|)
    ensures EncoderLap(mem[..], sent + message, offset', enc.currentOffset, enc.dictionary, enc.dictSize)
  {
    hide FaithfulBlock, SameOutside, EndsWith, KeptSize, Sent, EncoderLap, EncoderStream.Valid, EncoderStream.Ready,
         EncoderStream.History, Disjoint;
    var n, source := |message|, BUF + offset;
    ghost var m0 := mem[..];
    LapSize(m0, sent, offset, enc.currentOffset, enc.dictionary, enc.dictSize);
    Fill(mem, source, message);
    ghost var m1 := mem[..];
    ghost var h := EncoderWaits(enc, m0, m1, sent, offset, n);
    block := CompressMessage(enc, mem, source, message, h, sent);
    EncoderLapNext(m1, mem[..], sent, message, offset, h, enc.currentOffset, enc.dictionary, enc.dictSize);
    offset' := offset + n;
    if offset' >= RING_BUFFER_BYTES - MESSAGE_MAX_BYTES {
      offset' := 0;
    }
  }

  lemma LapSize(m: seq<byte>, sent: seq<byte>, offset: nat, currentOffset: nat, dictionary: nat, dictSize: nat)
    requires EncoderLap(m, sent, offset, currentOffset, dictionary, dictSize)
    ensures |m| == CMP_ENC + CMPBUFSIZE && offset < RING_BUFFER_BYTES - MESSAGE_MAX_BYTES
  {
  }

  method CompressMessage(enc: EncoderStream, mem: array<byte>, source: nat, message: seq<byte>, ghost h: seq<byte>,
                         ghost sent: seq<byte>)
    returns (block: seq<byte>)
    requires enc.Valid() && IsMessage(message) && mem.Length == CMP_ENC + CMPBUFSIZE
    requires enc.Ready(mem.Length, source, |message|, CMP_ENC) && mem[source..source + |message|] == message
    requires h == enc.History(mem[..], source, |message|) && EndsWith(sent, h) && |h| + |message| < RING_BUFFER_BYTES
    requires !TinyExternal(enc.currentOffset, |h|, enc.dictionary + enc.dictSize != source)
    modifies enc, enc.hashTable, mem
    ensures enc.Valid() && Sent(block, sent, message, |message|)
    ensures SameOutside(old(mem[..]), mem[..], CMP_ENC, CMP_ENC + CMPBUFSIZE)
    ensures enc.dictionary + enc.dictSize == source + |message|
    ensures enc.dictSize == |message| + if old(enc.dictionary + enc.dictSize) == source then |h| else 0
  {
    hide FaithfulBlock, EndsWith, KeptSize, Sent;
    ghost var m1 := mem[..];
    var r;
    ghost var qs;
    r, qs := enc.CompressFastContinue(mem, source, CMP_ENC, |message|, CMPBUFSIZE, 0);
    block := mem[CMP_ENC..CMP_ENC + r];
    IsSent(block, sent, message, h, qs);
    SameOutsideWiden(m1, mem[..], CMP_ENC, CMP_ENC + CompressBound(|message|), CMP_ENC, CMP_ENC + CMPBUFSIZE);
  }

  // ---------------------------------------------------------------- the same over the HC stream

  /** Where the view of the HC stream stands: the current lap is its prefix, and as long as
      `offset` has not passed it, the rest of the previous lap is its external dictionary. */
  ghost predicate HcLap(m: seq<byte>, sent: seq<byte>, offset: nat, ready: bool, v: View) {
    && offset < RING_BUFFER_BYTES - MESSAGE_MAX_BYTES && |m| == CMP_ENC + CMPBUFSIZE
    && if !ready then sent == [] && offset == 0
       else
         && v.Valid(|m|) && v.LowPrefix() == BUF
         && (if offset > 0 then v.end == BUF + offset && EndsWith(sent, v.Text(m)) && DictBehind(v, offset)
             else BUF + RING_BUFFER_BYTES - MESSAGE_MAX_BYTES <= v.end < BUF + RING_BUFFER_BYTES
                  && EndsWith(sent, m[BUF..v.end]))
  }

  predicate DictBehind(v: View, offset: nat) {
    v.lowLimit < v.dictLimit ==>
      v.dictBase + v.lowLimit == BUF + offset && v.dictBase + v.dictLimit < BUF + RING_BUFFER_BYTES
  }

  /** The view a call uses, in the ring. */
  ghost predicate HcUses(m: seq<byte>, sent: seq<byte>, offset: nat, n: nat, v: View) {
    && v.Valid(|m|) && v.LowPrefix() == BUF && v.end == BUF + offset && DictBehind(v, offset + n)
    && EndsWith(sent, v.Text(m)) && |v.Text(m)| + n < RING_BUFFER_BYTES
  }

  /** The view before the overlap check. */
  function Attached(ready: bool, v: View, src: nat): View
    requires ready ==> 0 <= v.LowPrefix() <= v.end && v.base <= v.end
  {
    var v1 := RenewView(if ready then v else InitView(src));
    if src != v1.end then ExternView(v1, src) else v1
  }

  lemma HcAttached(m0: seq<byte>, sent: seq<byte>, offset: nat, ready: bool, v: View)
    requires HcLap(m0, sent, offset, ready, v)
    ensures ready ==> 0 <= v.LowPrefix() <= v.end && v.base <= v.end
    ensures var w := Attached(ready, v, BUF + offset);
            && w.Valid(|m0|) && w.LowPrefix() == BUF && w.end == BUF + offset && DictBehind(w, offset)
            && EndsWith(sent, w.Text(m0)) && w.lowLimit <= w.dictLimit
  {
    hide View.Text, EndsWith;
    var src := BUF + offset;
    if !ready {
      EmptyView(m0, src);
    } else {
      RenewedIsSuffix(m0, v);
      if offset == 0 {
        ExternIsSuffix(m0, RenewView(v), src);
      } else {
        SuffixOfSuffix(sent, v.Text(m0), RenewView(v).Text(m0));
      }
    }
  }

  lemma HcTrimmed(v: View, offset: nat, n: nat)
    requires DictBehind(v, offset) && v.lowLimit <= v.dictLimit && 1 <= n
    ensures var w := TrimView(v, BUF + offset, BUF + offset + n);
            && DictBehind(w, offset + n) && w.base == v.base && w.dictLimit == v.dictLimit
            && (w.lowLimit == w.dictLimit || w.dictLimit - w.lowLimit + offset + n < RING_BUFFER_BYTES)
  {
  }

  lemma HcNext(m0: seq<byte>, sent: seq<byte>, offset: nat, n: nat, ready: bool, v: View)
    requires HcLap(m0, sent, offset, ready, v) && 1 <= n <= MESSAGE_MAX_BYTES
    ensures ready ==> v.base + v.dictLimit <= v.end && 0 <= v.LowPrefix() && v.base <= v.end
    ensures HcUses(m0, sent, offset, n, NextView(ready, v, BUF + offset, n))
  {
    hide View.Text, EndsWith, DictBehind, HcLap, TrimView, RenewView, ExternView, InitView, View.Valid;
    HcLapSize(m0, sent, offset, ready, v);
    HcAttached(m0, sent, offset, ready, v);
    var src, w := BUF + offset, Attached(ready, v, BUF + offset);
    TrimmedIsSuffix(m0, w, src, src + n);
    HcTrimmed(w, offset, n);
    SuffixOfSuffix(sent, w.Text(m0), TrimView(w, src, src + n).Text(m0));
  }

  lemma EmptyView(m: seq<byte>, src: nat)
    requires src <= |m|
    ensures InitView(src).Valid(|m|) && EndsWith([], InitView(src).Text(m))
  {
  }

  lemma HcUsesKept(m0: seq<byte>, m1: seq<byte>, sent: seq<byte>, offset: nat, n: nat, v: View)
    requires HcUses(m0, sent, offset, n, v) && SameOutside(m0, m1, BUF + offset, BUF + offset + n)
    ensures HcUses(m1, sent, offset, n, v)
  {
    hide SameOutside, EndsWith;
    SameLength(m0, m1, BUF + offset, BUF + offset + n);
    SliceKept(m0, m1, BUF + offset, BUF + offset + n, BUF, v.end);
    if v.lowLimit < v.dictLimit {
      SliceKept(m0, m1, BUF + offset, BUF + offset + n, v.dictBase + v.lowLimit, v.dictBase + v.dictLimit);
    }
  }

  lemma HcLapNext(m1: seq<byte>, m2: seq<byte>, sent: seq<byte>, message: seq<byte>, offset: nat, v: View)
    requires HcUses(m1, sent, offset, |message|, v) && IsMessage(message)
    requires offset < RING_BUFFER_BYTES - MESSAGE_MAX_BYTES
    requires |m1| == CMP_ENC + CMPBUFSIZE && SameOutside(m1, m2, CMP_ENC, CMP_ENC + CMPBUFSIZE)
    requires m1[BUF + offset..BUF + offset + |message|] == message
    ensures var o := offset + |message|;
            HcLap(m2, sent + message, if o >= RING_BUFFER_BYTES - MESSAGE_MAX_BYTES then 0 else o, true, v.(end := BUF + o))
  {
    hide EndsWith;
    var o, v' := offset + |message|, v.(end := BUF + offset + |message|);
    HcTextNext(m1, m2, message, offset, v);
    SuffixMore(sent, v.Text(m1), message);
    WholeSuffix(m1[BUF..BUF + o]);
    EndsWithMore(v.Dict(m1), m1[BUF..BUF + o], m1[BUF..BUF + o]);
    hide View.Text;
    SuffixOfSuffix(sent + message, v.Text(m1) + message, m1[BUF..BUF + o]);
  }

  lemma HcTextNext(m1: seq<byte>, m2: seq<byte>, message: seq<byte>, offset: nat, v: View)
    requires v.Valid(|m1|) && v.LowPrefix() == BUF && v.end == BUF + offset && DictBehind(v, offset + |message|)
    requires |m1| == CMP_ENC + CMPBUFSIZE && SameOutside(m1, m2, CMP_ENC, CMP_ENC + CMPBUFSIZE)
    requires offset + |message| < RING_BUFFER_BYTES && m1[BUF + offset..BUF + offset + |message|] == message
    ensures var o, v' := offset + |message|, v.(end := BUF + offset + |message|);
            && v'.Valid(|m2|) && v'.Text(m2) == v.Text(m1) + message == v.Dict(m1) + m1[BUF..BUF + o]
            && m2[BUF..BUF + o] == m1[BUF..BUF + o]
  {
    hide SameOutside, View.Valid, View.Text, View.Dict, DictBehind;
    var o, v' := offset + |message|, v.(end := BUF + offset + |message|);
    SameLength(m1, m2, CMP_ENC, CMP_ENC + CMPBUFSIZE);
    SliceKept(m1, m2, CMP_ENC, CMP_ENC + CMPBUFSIZE, BUF, BUF + o);
    HcDictKept(m1, m2, offset, |message|, v);
    assert m1[BUF..BUF + o] == m1[BUF..BUF + offset] + message;
    TextGrows(m1, m2, v, v', m1[BUF..BUF + offset], message);
  }

  lemma HcDictKept(m1: seq<byte>, m2: seq<byte>, offset: nat, n: nat, v: View)
    requires v.Valid(|m1|) && v.LowPrefix() == BUF && v.end == BUF + offset && DictBehind(v, offset + n)
    requires |m1| == CMP_ENC + CMPBUFSIZE && SameOutside(m1, m2, CMP_ENC, CMP_ENC + CMPBUFSIZE) && offset + n < RING_BUFFER_BYTES
    ensures var v' := v.(end := BUF + offset + n); v'.Valid(|m2|) && v'.Dict(m2) == v.Dict(m1)
  {
    hide SameOutside;
    SameLength(m1, m2, CMP_ENC, CMP_ENC + CMPBUFSIZE);
    if v.lowLimit < v.dictLimit {
      SliceKept(m1, m2, CMP_ENC, CMP_ENC + CMPBUFSIZE, v.dictBase + v.lowLimit, v.dictBase + v.dictLimit);
    }
  }

  lemma TextGrows(m1: seq<byte>, m2: seq<byte>, v: View, v': View, x: seq<byte>, y: seq<byte>)
    requires v.Valid(|m1|) && v'.Valid(|m2|) && v'.Dict(m2) == v.Dict(m1)
    requires m1[v.LowPrefix()..v.end] == x && m2[v'.LowPrefix()..v'.end] == x + y
    ensures v'.Text(m2) == v.Text(m1) + y == v.Dict(m1) + (x + y)
  {
    hide View.Valid, View.Dict;
  }

  lemma WholeSuffix(s: seq<byte>)
    ensures EndsWith(s, s)
  {
  }

  /** test_compress over the HC stream: here the rest of the previous lap stays in use during
      the whole lap, and still the decoding ring loses nothing a block refers to. */
  method TestCompressHc(messages: seq<seq<byte>>, level: int) returns (blocks: seq<seq<byte>>)
    requires forall m :: m in messages ==> IsMessage(m)
    ensures |blocks| == |messages|
    ensures forall k :: 0 <= k < |blocks| ==> Sent(blocks[k], Concat(messages[..k]), messages[k], |messages[k]|)
  {
    hide HcLap, Concat, Sent;
    var mem := new byte[CMP_ENC + CMPBUFSIZE];
    var enc := new HcEncoder(level);
    var offset := 0;
    blocks := [];
    assert HcLap(mem[..], Concat([]), 0, false, enc.view) by { FirstHcLap(mem[..], enc.view); }
    assert messages[..0] == [];
    while |blocks| < |messages|
      invariant |blocks| <= |messages| && enc.Valid(mem.Length) && fresh(enc) && fresh(enc.hashTable) && fresh(enc.chainTable)
      invariant HcLap(mem[..], Concat(messages[..|blocks|]), offset, enc.ready, enc.view)
      invariant forall k :: 0 <= k < |blocks| ==> Sent(blocks[k], Concat(messages[..k]), messages[k], |messages[k]|)
    {
      ghost var sent := Concat(messages[..|blocks|]);
      var block;
      block, offset := SendMessageHc(enc, mem, messages[|blocks|], offset, sent);
      ConcatNext(messages, |blocks|);
      blocks := blocks + [block];
    }
  }

  lemma FirstHcLap(m: seq<byte>, v: View)
    requires |m| == CMP_ENC + CMPBUFSIZE
    ensures HcLap(m, Concat([]), 0, false, v)
  {
  }

  method SendMessageHc(enc: HcEncoder, mem: array<byte>, message: seq<byte>, offset: nat, ghost sent: seq<byte>)
    returns (block: seq<byte>, offset': nat)
    requires enc.Valid(mem.Length) && IsMessage(message) && HcLap(mem[..], sent, offset, enc.ready, enc.view)
    modifies enc, enc.hashTable, enc.chainTable, mem
    ensures enc.Valid(mem.Length) && enc.ready && Sent(block, sent, message, |message|)
    ensures HcLap(mem[..], sent + message, offset', enc.ready, enc.view)
  {
    hide HcLap, FaithfulBlock, SameOutside, EndsWith, Sent, View.Text, NextView, RenewView, HcUses;
    var n, src := |message|, BUF + offset;
    ghost var m0 := mem[..];
    HcLapSize(m0, sent, offset, enc.ready, enc.view);
    HcNext(m0, sent, offset, n, enc.ready, enc.view);
    ghost var v := NextView(enc.ready, enc.view, src, n);
    Fill(mem, src, message);
    ghost var m1 := mem[..];
    HcUsesKept(m0, m1, sent, offset, n, v);
    HcUsesFacts(m1, sent, offset, n, v);
    var r;
    ghost var qs;
    r, qs := enc.CompressHcContinue(mem, src, CMP_ENC, n, CMPBUFSIZE);
    block := mem[CMP_ENC..CMP_ENC + r];
    IsSent(block, sent, message, v.Text(m1), qs);
    SameOutsideWiden(m1, mem[..], CMP_ENC, CMP_ENC + CompressBound(n), CMP_ENC, CMP_ENC + CMPBUFSIZE);
    HcLapNext(m1, mem[..], sent, message, offset, v);
    offset' := offset + n;
    if offset' >= RING_BUFFER_BYTES - MESSAGE_MAX_BYTES {
      offset' := 0;
    }
  }

  lemma HcLapSize(m: seq<byte>, sent: seq<byte>, offset: nat, ready: bool, v: View)
    requires HcLap(m, sent, offset, ready, v)
    ensures |m| == CMP_ENC + CMPBUFSIZE && offset < RING_BUFFER_BYTES - MESSAGE_MAX_BYTES
  {
  }

  lemma HcUsesFacts(m: seq<byte>, sent: seq<byte>, offset: nat, n: nat, v: View)
    requires HcUses(m, sent, offset, n, v)
    ensures v.Valid(|m|) && v.LowPrefix() == BUF && v.end == BUF + offset && EndsWith(sent, v.Text(m))
    ensures v.lowLimit < v.dictLimit ==> v.dictBase + v.dictLimit < BUF + RING_BUFFER_BYTES
    ensures |v.Text(m)| + n < RING_BUFFER_BYTES
  {
  }

  // ---------------------------------------------------------------- the decompressing side

  /** The room a decoding call is given: all a message may need, as in the example, or as much as
      the message takes. */
  function Room(size: nat, full: bool): nat {
    if full then MESSAGE_MAX_BYTES else size
  }

  /** Where the decoder's history stands, the next message going to `offset`: the current lap
      in front of it, and of the previous lap, `lap` bytes long, what lies from index `intact` on,
      up to where calls may have written. */
  ghost predicate DecoderLap(m: seq<byte>, received: seq<byte>, offset: nat, lap: nat, intact: nat, full: bool) {
    && offset < RING_BUFFER_BYTES && |m| == CMP_DEC + CMPBUFSIZE + 2
    && offset <= intact <= offset + (if full then MESSAGE_MAX_BYTES - 1 else 0)
    && (lap == 0 || RING_BUFFER_BYTES <= lap < DECODE_RING_BUFFER)
    && EndsWith(received, Laps(m, Least(intact, lap), lap, offset))
    && (lap == 0 ==> |received| == offset)
  }

  /** The decoder knows about it. */
  predicate DecoderAt(dec: DecoderStream, offset: nat, lap: nat)
    reads dec
  {
    && dec.DictSize(BUF + offset) == lap && dec.LowPrefix(BUF + offset) == BUF
    && dec.DictEnd(BUF + offset) == if lap == 0 then 0 else BUF + lap
  }

  function Most(a: nat, b: nat): (r: nat)
    ensures r >= a && r >= b && (r == a || r == b)
  {
    if a < b then b else a
  }

  /** What writing up to index `end` leaves of the previous lap. */
  function Untouched(lap: nat, end: nat): (hd: nat)
    ensures hd <= lap
  {
    if lap > end then lap - end else 0
  }

  /** The previous lap from index `from` on, and the current one up to `offset`, in one piece. */
  ghost function Laps(m: seq<byte>, from: nat, lap: nat, offset: nat): (w: seq<byte>)
    requires BUF + lap <= |m| && BUF + offset <= |m| && from <= lap
    ensures |w| == lap - from + offset
  {
    m[BUF + from..BUF + lap] + m[BUF..BUF + offset]
  }

  lemma LapsSuffix(m: seq<byte>, from: nat, from': nat, lap: nat, offset: nat)
    requires BUF + lap <= |m| && BUF + offset <= |m| && from <= from' <= lap
    ensures EndsWith(Laps(m, from, lap, offset), Laps(m, from', lap, offset))
  {
    assert m[BUF + from..BUF + lap] == m[BUF + from..BUF + from'] + m[BUF + from'..BUF + lap];
  }

  lemma LapsKept(m0: seq<byte>, m1: seq<byte>, from: nat, lap: nat, offset: nat, lo: int, hi: int)
    requires BUF + lap <= |m0| && BUF + offset <= |m0| && from <= lap && SameOutside(m0, m1, lo, hi)
    requires Disjoint(BUF + from, BUF + lap, lo, hi) && Disjoint(BUF, BUF + offset, lo, hi)
    ensures Laps(m1, from, lap, offset) == Laps(m0, from, lap, offset)
  {
    SliceKept(m0, m1, lo, hi, BUF + from, BUF + lap);
    SliceKept(m0, m1, lo, hi, BUF, BUF + offset);
  }

  lemma LapsGrow(m: seq<byte>, from: nat, lap: nat, offset: nat, n: nat)
    requires BUF + lap <= |m| && BUF + offset + n <= |m| && from <= lap
    ensures Laps(m, from, lap, offset + n) == Laps(m, from, lap, offset) + m[BUF + offset..BUF + offset + n]
  {
    assert m[BUF..BUF + offset + n] == m[BUF..BUF + offset] + m[BUF + offset..BUF + offset + n];
  }

  lemma LapsWrap(m: seq<byte>, from: nat, lap: nat, offset: nat)
    requires BUF + lap <= |m| && BUF + offset <= |m| && from <= lap
    ensures EndsWith(Laps(m, from, lap, offset), Laps(m, 0, offset, 0))
  {
  }

  lemma WindowInRing(m0: seq<byte>, m1: seq<byte>, received: seq<byte>, offset: nat, lap: nat, intact: nat, full: bool, n: nat)
    requires DecoderLap(m0, received, offset, lap, intact, full) && 1 <= n <= MESSAGE_MAX_BYTES
    requires SameOutside(m0, m1, CMP_DEC, CMP_DEC + CMPBUFSIZE)
    ensures var hd := Untouched(lap, Most(intact, offset + Room(n, full)));
            var w := TwoParts(m1, if lap == 0 then 0 else BUF + lap, hd, BUF, BUF + offset);
            && EndsWith(received, w) && (|w| == |received| || |w| >= RING_BUFFER_BYTES - Room(n, full))
  {
    hide EndsWith;
    var hd, from := Untouched(lap, Most(intact, offset + Room(n, full))), Least(intact, lap);
    LapsKept(m0, m1, lap - hd, lap, offset, CMP_DEC, CMP_DEC + CMPBUFSIZE);
    LapsSuffix(m0, from, lap - hd, lap, offset);
    SuffixOfSuffix(received, Laps(m0, from, lap, offset), Laps(m0, lap - hd, lap, offset));
  }

  lemma LapsNext(m0: seq<byte>, m1: seq<byte>, m2: seq<byte>, received: seq<byte>, message: seq<byte>, offset: nat, lap: nat,
                 from: nat, from': nat, hi: nat)
    requires BUF + lap <= CMP_DEC && offset + |message| <= hi && BUF + hi <= CMP_DEC <= |m0| && |m1| == |m2| == |m0|
    requires from <= from' <= lap && (from' == lap || hi <= from') && EndsWith(received, Laps(m0, from, lap, offset))
    requires SameOutside(m0, m1, CMP_DEC, CMP_DEC + CMPBUFSIZE) && SameOutside(m1, m2, BUF + offset, BUF + hi)
    requires m2[BUF + offset..BUF + offset + |message|] == message
    ensures EndsWith(received + message, Laps(m2, from', lap, offset + |message|))
  {
    hide EndsWith, Laps, SameOutside;
    LapsSuffix(m0, from, from', lap, offset);
    SuffixOfSuffix(received, Laps(m0, from, lap, offset), Laps(m0, from', lap, offset));
    SuffixMore(received, Laps(m0, from', lap, offset), message);
    LapsKept(m0, m1, from', lap, offset, CMP_DEC, CMP_DEC + CMPBUFSIZE);
    LapsKept(m1, m2, from', lap, offset, BUF + offset, BUF + hi);
    LapsGrow(m2, from', lap, offset, |message|);
  }

  lemma LapNumbers(offset: nat, lap: nat, intact: nat, n: nat, full: bool)
    requires offset <= intact <= offset + (if full then MESSAGE_MAX_BYTES - 1 else 0) && 1 <= n <= MESSAGE_MAX_BYTES
    ensures var o, end, room := offset + n, Most(intact, offset + Room(n, full)), Room(n, full);
            && n <= room <= MESSAGE_MAX_BYTES && o <= end <= o + (if full then MESSAGE_MAX_BYTES - 1 else 0)
            && Least(intact, lap) <= Least(end, lap) <= lap && (Least(end, lap) == lap || offset + room <= Least(end, lap))
    ensures Least(0, lap) == Least(intact, 0) == 0
  {
  }

  lemma DecoderLapNext(m0: seq<byte>, m1: seq<byte>, m2: seq<byte>, received: seq<byte>, message: seq<byte>, offset: nat, lap: nat,
                       intact: nat, full: bool)
    requires DecoderLap(m0, received, offset, lap, intact, full) && IsMessage(message) && |m0| == |m1| == |m2|
    requires SameOutside(m0, m1, CMP_DEC, CMP_DEC + CMPBUFSIZE)
    requires SameOutside(m1, m2, BUF + offset, BUF + offset + Room(|message|, full))
    requires m2[BUF + offset..BUF + offset + |message|] == message
    ensures var o, end := offset + |message|, Most(intact, offset + Room(|message|, full));
            if o >= RING_BUFFER_BYTES then DecoderLap(m2, received + message, 0, o, 0, full)
            else DecoderLap(m2, received + message, o, lap, end, full)
  {
    hide EndsWith, Laps, SameOutside, Most, Least, Room;
    var o, end := offset + |message|, Most(intact, offset + Room(|message|, full));
    LapNumbers(offset, lap, intact, |message|, full);
    LapsNext(m0, m1, m2, received, message, offset, lap, Least(intact, lap), Least(end, lap), offset + Room(|message|, full));
    if o >= RING_BUFFER_BYTES {
      LapsWrap(m2, Least(end, lap), lap, o);
      SuffixOfSuffix(received + message, Laps(m2, Least(end, lap), lap, o), Laps(m2, 0, o, 0));
    }
  }

  /** test_decompress.  Every message comes back, for every sequence of messages and however the two
      rings wrap: if each call is given the room that its message takes; or, with the room the
      example gives it, which it may scribble over, as long as no block was made behind more than
      8192 bytes of history. */
  method TestDecompress(blocks: seq<seq<byte>>, sizes: seq<nat>, full: bool, ghost messages: seq<seq<byte>>) returns (output: seq<byte>)
    requires |blocks| == |messages| == |sizes| && forall m :: m in messages ==> IsMessage(m)
    requires forall k :: 0 <= k < |sizes| ==> sizes[k] == |messages[k]|
    requires forall k :: 0 <= k < |blocks| ==> Sent(blocks[k], Concat(messages[..k]), messages[k], Room(|messages[k]|, full))
    ensures output == Concat(messages)
  {
    hide DecoderLap, DecoderAt, Concat, Sent;
    var mem := new byte[CMP_DEC + CMPBUFSIZE + 2];
    var dec := new DecoderStream();
    var offset, k := 0, 0;
    ghost var lap, intact := 0, 0;
    output := [];
    FirstDecoderLap(mem[..], dec, full);
    assert messages[..0] == [];
    while k < |blocks|
      invariant k <= |blocks| && fresh(dec) && dec.Valid(mem.Length) && DecoderAt(dec, offset, lap)
      invariant output == Concat(messages[..k]) && DecoderLap(mem[..], output, offset, lap, intact, full)
    {
      var text;
      text, offset, lap, intact := ReceiveMessage(dec, mem, blocks[k], sizes[k], full, messages[k], offset, lap, intact, output);
      ConcatNext(messages, k);
      output := output + text;
      k := k + 1;
    }
    assert messages[..k] == messages;
  }

  lemma FirstDecoderLap(m: seq<byte>, dec: DecoderStream, full: bool)
    requires |m| == CMP_DEC + CMPBUFSIZE + 2
    requires dec.externalDict == dec.extDictSize == dec.prefixEnd == dec.prefixSize == 0
    ensures DecoderLap(m, Concat([]), 0, 0, 0, full) && DecoderAt(dec, 0, 0) && dec.Valid(|m|)
  {
  }

  /** One round of the decompressing loop. */
  method ReceiveMessage(dec: DecoderStream, mem: array<byte>, block: seq<byte>, size: nat, full: bool, ghost message: seq<byte>,
                        offset: nat, ghost lap: nat, ghost intact: nat, ghost received: seq<byte>)
    returns (text: seq<byte>, offset': nat, ghost lap': nat, ghost intact': nat)
    requires dec.Valid(mem.Length) && DecoderAt(dec, offset, lap) && DecoderLap(mem[..], received, offset, lap, intact, full)
    requires IsMessage(message) && size == |message| && Sent(block, received, message, Room(size, full))
    modifies dec, mem
    ensures dec.Valid(mem.Length) && DecoderAt(dec, offset', lap')
    ensures text == message && DecoderLap(mem[..], received + message, offset', lap', intact', full)
  {
    hide DecoderLap, EndsWith, FaithfulBlock, SameOutside, Untouched, TwoParts, Sent, Most;
    ghost var m0, end := mem[..], Most(intact, offset + Room(size, full));
    DecoderLapSize(m0, received, offset, lap, intact, full);
    SentSize(block, received, message, Room(size, full));
    Fill(mem, CMP_DEC, block);
    ghost var m1 := mem[..];
    SameOutsideWiden(m0, m1, CMP_DEC, CMP_DEC + |block|, CMP_DEC, CMP_DEC + CMPBUFSIZE);
    WindowInRing(m0, m1, received, offset, lap, intact, full, size);
    text := DecompressMessage(dec, mem, |block|, size, Room(size, full), message, offset, lap, end, received);
    DecoderLapNext(m0, m1, mem[..], received, message, offset, lap, intact, full);
    offset', lap', intact' := offset + |text|, lap, end;
    if offset' >= DECODE_RING_BUFFER - MESSAGE_MAX_BYTES {
      offset', lap', intact' := 0, offset', 0;
    }
  }

  lemma DecoderLapSize(m: seq<byte>, received: seq<byte>, offset: nat, lap: nat, intact: nat, full: bool)
    requires DecoderLap(m, received, offset, lap, intact, full)
    ensures |m| == CMP_DEC + CMPBUFSIZE + 2 && offset < RING_BUFFER_BYTES && lap < DECODE_RING_BUFFER
  {
  }

  lemma SentSize(block: seq<byte>, before: seq<byte>, message: seq<byte>, room: nat)
    requires Sent(block, before, message, room)
    ensures |block| <= CMPBUFSIZE
  {
  }

  /** A suffix of what was received, long enough, is all the block needs. */
  lemma SentSeen(block: seq<byte>, received: seq<byte>, message: seq<byte>, room: nat, w: seq<byte>)
    returns (h: seq<byte>, qs: seq<Sequence>)
    requires Sent(block, received, message, room) && EndsWith(received, w)
    requires |w| == |received| || |w| >= RING_BUFFER_BYTES - room
    ensures FaithfulBlock(block, h, message, qs) && Sees(w, h)
  {
    hide FaithfulBlock;
    h, qs :| FaithfulBlock(block, h, message, qs) && EndsWith(received, h) && |h| + room <= RING_BUFFER_BYTES;
    assert w[|w| - |h|..] == h;
  }

  method DecompressMessage(dec: DecoderStream, mem: array<byte>, blockSize: nat, size: nat, room: nat, ghost message: seq<byte>,
                           offset: nat, ghost lap: nat, ghost end: nat, ghost received: seq<byte>)
    returns (text: seq<byte>)
    requires dec.Valid(mem.Length) && DecoderAt(dec, offset, lap) && mem.Length == CMP_DEC + CMPBUFSIZE + 2
    requires blockSize <= CMPBUFSIZE && offset < RING_BUFFER_BYTES && lap < DECODE_RING_BUFFER
    requires IsMessage(message) && size == |message| <= room <= MESSAGE_MAX_BYTES && offset + room <= end
    requires Sent(mem[CMP_DEC..CMP_DEC + blockSize], received, message, room)
    requires var w := dec.Window(mem[..], BUF + offset, Untouched(lap, end));
             EndsWith(received, w) && (|w| == |received| || |w| >= RING_BUFFER_BYTES - room)
    modifies dec, mem
    ensures dec.Valid(mem.Length) && text == message == mem[BUF + offset..BUF + offset + size]
    ensures SameOutside(old(mem[..]), mem[..], BUF + offset, BUF + offset + room)
    ensures if offset + size >= RING_BUFFER_BYTES then DecoderAt(dec, 0, offset + size) else DecoderAt(dec, offset + size, lap)
  {
    hide EndsWith, FaithfulBlock, SameOutside, Sent, Sees, Decodes, DecoderStream.Window, DecoderStream.History, TwoParts;
    ghost var m1, hd := mem[..], Untouched(lap, end);
    ghost var w := dec.Window(m1, BUF + offset, hd);
    var r := dec.DecompressSafeContinue(mem, CMP_DEC, BUF + offset, blockSize, room, hd);
    MessageComes(m1, mem[..], blockSize, BUF + offset, room, message, received, w, Reaches(hd, lap), r);
    text := mem[BUF + offset..BUF + offset + r];
  }

  /** A call that decodes the block behind enough of the history brings the message. */
  lemma MessageComes(m1: seq<byte>, m2: seq<byte>, blockSize: nat, dst: nat, room: nat, message: seq<byte>, received: seq<byte>,
                     w: seq<byte>, intact: bool, r: int)
    requires CMP_DEC + blockSize <= |m1| && Decodes(m1, m2, CMP_DEC, CMP_DEC + blockSize, dst, dst + room, w, intact, r)
    requires Sent(m1[CMP_DEC..CMP_DEC + blockSize], received, message, room) && |message| <= room
    requires EndsWith(received, w) && (|w| == |received| || |w| >= RING_BUFFER_BYTES - room)
    ensures r == |message| && dst + r <= |m2| && m2[dst..dst + r] == message && SameOutside(m1, m2, dst, dst + room)
  {
    hide EndsWith, FaithfulBlock, SameOutside, Sent, Sees, Decodes;
    var h, qs := SentSeen(m1[CMP_DEC..CMP_DEC + blockSize], received, message, room, w);
    DecodesSource(m1, m2, CMP_DEC, CMP_DEC + blockSize, dst, dst + room, h, w, intact, message, qs, r);
    DecodesBounds(m1, m2, CMP_DEC, CMP_DEC + blockSize, dst, dst + room, w, intact, r);
  }

  // ---------------------------------------------------------------- both sides

  /** The whole example, over the fast stream or, if a level is given, over the HC stream: what goes
      in at one end comes out at the other. */
  method EndToEnd(messages: seq<seq<byte>>, hc: bool, level: int) returns (output: seq<byte>)
    requires forall m :: m in messages ==> IsMessage(m)
    ensures output == Concat(messages)
  {
    hide Sent, Concat;
    var blocks;
    if hc {
      blocks := TestCompressHc(messages, level);
    } else {
      blocks := TestCompress(messages);
    }
    var sizes := seq(|messages|, k requires 0 <= k < |messages| => |messages[k]|);
    output := TestDecompress(blocks, sizes, false, messages);
  }
}
