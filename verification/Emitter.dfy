/** The bookkeeping every compressor shares: how far the output has got, that it cannot
    outgrow its bound, and what a finished block decodes to. */
module Emitter {
  import opened BlockFormat
  import opened Memory
  import opened Encoding
  import opened SequenceWriter

  const LZ4_MAX_INPUT_SIZE := 0x7E00_0000
  const INT_MAX := 0x7FFF_FFFF

  /** LZ4_compressBound. */
  function CompressBound(isize: int): nat {
    if 0 <= isize <= LZ4_MAX_INPUT_SIZE then isize + isize / 255 + 16 else 0
  }

  /** The bound on what `a` bytes of finished source may have cost so far. */
  function Cost(a: nat): nat {
    a + a / 255
  }

  /** The output buffer holds exactly the encoding of `qs`. */
  ghost predicate Emitted(m: seq<byte>, dst: nat, op: nat, qs: seq<Sequence>) {
    AllWellFormed(qs) && op == dst + |EncodeAll(qs)| && At(m, dst, EncodeAll(qs))
  }

  /** The sequences stand for the first `a` bytes of the text, history included, and keep
      clear of the end. */
  ghost predicate Covers(h: seq<byte>, text: seq<byte>, qs: seq<Sequence>, a: nat) {
    && a <= |text| && Expand(h, qs) == Some(text[..a])
    && Produced(|h|, qs) == a && KeepsClear(|h|, qs, |text|)
    && OffsetsLegal(qs)
  }

  ghost predicate OffsetsLegal(qs: seq<Sequence>) {
    forall q :: q in qs ==> 1 <= q.offset <= MAX_DISTANCE
  }

  lemma EmittedNothing(m: seq<byte>, dst: nat)
    requires dst <= |m|
    ensures Emitted(m, dst, dst, [])
  {
  }

  lemma CoversHistory(h: seq<byte>, text: seq<byte>)
    requires h <= text
    ensures Covers(h, text, [], |h|)
  {
    assert text[..|h|] == h;
  }

  lemma EmittedMore(m0: seq<byte>, m1: seq<byte>, dst: nat, op: nat, hi: nat, qs: seq<Sequence>, q: Sequence)
    requires Emitted(m0, dst, op, qs) && WellFormed(q)
    requires SameOutside(m0, m1, op, hi) && At(m1, op, EncodeSequence(q))
    ensures Emitted(m1, dst, op + |EncodeSequence(q)|, qs + [q])
  {
    hide EncodeSequence;
    EncodeOneMore(qs, q);
    AtKept(m0, m1, op, hi, dst, EncodeAll(qs));
    hide At, EncodeAll;
    AtJoin(m1, dst, EncodeAll(qs), EncodeSequence(q));
  }

  lemma CoversMore(h: seq<byte>, text: seq<byte>, qs: seq<Sequence>, a: nat, p: nat, q: nat, n: nat)
    requires Covers(h, text, qs, a) && a <= p && RealMatch(text, p, q, n)
    requires p + MFLIMIT <= |text| && p + n + LASTLITERALS <= |text|
    ensures Covers(h, text, qs + [Sequence(text[a..p], p - q, n)], p + n)
  {
    hide CopyMatch, Expand, KeepsClear, Produced;
    EmitMatch(h, text, qs, a, p, q, n, |text|);
  }

  /** The size of a sequence of `ll` literals and a match of `n` bytes. */
  function SequenceSize(ll: nat, n: nat): nat
    requires MINMATCH <= n
  {
    1 + (ll + 240) / 255 + ll + 2 + (n - MINMATCH + 240) / 255
  }

  /** What a sequence costs. */
  lemma SequenceLength(lits: seq<byte>, offset: nat, n: nat)
    requires MINMATCH <= n && offset <= MAX_DISTANCE
    ensures |EncodeSequence(Sequence(lits, offset, n))| == 1 + |LengthBytes(|lits|)| + |lits| + 2 + (n - MINMATCH + 240) / 255
    ensures |EncodeSequence(Sequence(lits, offset, n))| == SequenceSize(|lits|, n)
  {
    LengthBytesLength(n - MINMATCH);
    LengthBytesLength(|lits|);
  }

  /** One more sequence never costs more than the source it consumes, plus one byte for every
      255 bytes of source: the heart of the worst-case bound. */
  lemma SequenceCost(a: nat, q: Sequence)
    requires WellFormed(q)
    ensures Cost(a) + |EncodeSequence(q)| <= Cost(a + |q.literals| + q.matchLength)
  {
    LengthBytesLength(|q.literals|);
    LengthBytesLength(q.matchLength - MINMATCH);
  }

  /** The room a sequence needs while it is being written, over-copies included, when at least
      five bytes of source are left behind it. */
  lemma SequenceRoom(n: nat, a: nat, ll: nat, matchCode: nat)
    requires a + ll + matchCode + MINMATCH + LASTLITERALS <= n
    ensures var op := Cost(a) + 1 + |LengthBytes(ll)| + ll;
            && Cost(a) + 2 + ll / 255 + ll + 8 <= n + n / 255 + 16
            && op + 2 + matchCode / 255 + 4 <= n + n / 255 + 16
  {
    LengthBytesLength(ll);
  }

  /** The checks of the limited-output mode never fail when the room is the worst-case bound. */
  lemma LimitChecksPass(n: nat, a: nat, ll: nat, matchCode: nat)
    requires a + ll + matchCode + MINMATCH + LASTLITERALS <= n && a + ll + MFLIMIT <= n
    ensures Cost(a) + 1 + ll + (2 + 1 + LASTLITERALS) + ll / 255 <= n + n / 255 + 16
    ensures Cost(a) + 1 + |LengthBytes(ll)| + ll + 2 + (1 + LASTLITERALS) + matchCode / 256 <= n + n / 255 + 16
  {
    LengthBytesLength(ll);
  }

  lemma LastCost(n: nat, a: nat, lits: seq<byte>)
    requires a + |lits| == n
    ensures Cost(a) + |EncodeLast(lits)| <= n + n / 255 + 16
    ensures Cost(a) + 1 + |lits| + (|lits| + 240) / 255 <= n + n / 255 + 16
    ensures |EncodeLast(lits)| == 1 + |lits| + (|lits| + 240) / 255
  {
    LengthBytesLength(|lits|);
  }

  lemma EncodeLastLength(lits: seq<byte>)
    ensures |EncodeLast(lits)| == 1 + |lits| + (|lits| + 240) / 255
  {
    LengthBytesLength(|lits|);
  }

  /** A finished block: sequences that cover the text up to `a`, then the rest as literals. */
  lemma FinishedBlock(m0: seq<byte>, m1: seq<byte>, dst: nat, op: nat, op': nat, hi: nat,
                      h: seq<byte>, text: seq<byte>, qs: seq<Sequence>, a: nat)
    requires Emitted(m0, dst, op, qs) && SameOutside(m0, m1, op, hi)
    requires Covers(h, text, qs, a)
    requires op' == op + |EncodeLast(text[a..])| && At(m1, op, EncodeLast(text[a..]))
    ensures dst <= op' <= |m1|
    ensures Decode(m1[dst..op'], 0, h) == Some(text)
    ensures Restricted(m1[dst..op'], 0, |h|, |text|)
    ensures m1[dst..op'] == EncodeBlock(qs, text[a..])
  {
    hide EncodeLast, Expand, KeepsClear, Produced, Decode, Restricted, OffsetsLegal;
    AtKept(m0, m1, op, hi, dst, EncodeAll(qs));
    AtJoin(m1, dst, EncodeAll(qs), EncodeLast(text[a..]));
    assert text[..a] + text[a..] == text;
    BlockRoundTrip(h, qs, text[a..]);
  }

  /** `block` is a legal block for `source` behind history `h`: the encoding of `qs` and some
      last literals, within the parsing restrictions, all offsets in 1..65535, and decoding to
      the source. */
  ghost predicate FaithfulBlock(block: seq<byte>, h: seq<byte>, source: seq<byte>, qs: seq<Sequence>) {
    && Decode(block, 0, h) == Some(h + source)
    && Restricted(block, 0, |h|, |h| + |source|)
    && OffsetsLegal(qs) && AllWellFormed(qs)
    && exists a: nat | a <= |h + source| :: block == EncodeBlock(qs, (h + source)[a..])
  }

  /** Whoever has content `c` does not get `source` out of the block: nothing at all, or something
      with another byte in it. */
  ghost predicate Misread(block: seq<byte>, c: seq<byte>, source: seq<byte>) {
    var d := Decode(block, 0, c);
    d.None? || exists i :: 0 <= i < |source| && |c| + i < |d.value| && d.value[|c| + i] != source[i]
  }

  lemma MisreadIsWrong(block: seq<byte>, c: seq<byte>, source: seq<byte>)
    requires Misread(block, c, source)
    ensures Decode(block, 0, c) != Some(c + source)
  {
    hide Decode;
    assert forall i :: 0 <= i < |source| ==> (c + source)[|c| + i] == source[i];
  }
}
