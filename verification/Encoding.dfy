/** The bytes of a block as a function of its sequences, and the proof that the reference
    decoder takes them back: what every compressor of the project is proved against. */
module Encoding {
  import opened BlockFormat

  function RunBytes(v: nat): seq<byte> {
    if v < 255 then [v] else [255] + RunBytes(v - 255)
  }

  function LengthBytes(length: nat): seq<byte> {
    if length < 15 then [] else RunBytes(length - 15)
  }

  function Nibble(length: nat): (n: nat)
    ensures n <= 15
  {
    if length < 15 then length else 15
  }

  function Token(literals: nat, matchCode: nat): byte {
    16 * Nibble(literals) + Nibble(matchCode)
  }

  predicate WellFormed(q: Sequence) {
    q.offset <= MAX_DISTANCE && q.matchLength >= MINMATCH
  }

  function OffsetBytes(offset: nat): seq<byte>
    requires offset <= MAX_DISTANCE
  {
    [offset % 256, offset / 256]
  }

  function EncodeSequence(q: Sequence): seq<byte>
    requires WellFormed(q)
  {
    [Token(|q.literals|, q.matchLength - MINMATCH)] + LengthBytes(|q.literals|) + q.literals
    + OffsetBytes(q.offset) + LengthBytes(q.matchLength - MINMATCH)
  }

  function EncodeLast(literals: seq<byte>): seq<byte> {
    [Token(|literals|, 0)] + LengthBytes(|literals|) + literals
  }

  predicate AllWellFormed(qs: seq<Sequence>) {
    forall q :: q in qs ==> WellFormed(q)
  }

  function EncodeAll(qs: seq<Sequence>): seq<byte>
    requires AllWellFormed(qs)
  {
    if qs == [] then [] else EncodeAll(qs[..|qs| - 1]) + EncodeSequence(qs[|qs| - 1])
  }

  function EncodeBlock(qs: seq<Sequence>, last: seq<byte>): seq<byte>
    requires AllWellFormed(qs)
  {
    EncodeAll(qs) + EncodeLast(last)
  }

  /** What the sequences make of history `h`. */
  function Expand(h: seq<byte>, qs: seq<Sequence>): Option<seq<byte>> {
    if qs == [] then Some(h)
    else
      var w := Expand(h, qs[..|qs| - 1]);
      var q := qs[|qs| - 1];
      if w.None? || q.offset > |w.value + q.literals| then None
      else Some(CopyMatch(w.value + q.literals, q.offset, q.matchLength))
  }

  /** Every match starts 12 bytes and ends 5 bytes before `total`, the window being `n` bytes
      long at the start. */
  predicate KeepsClear(n: nat, qs: seq<Sequence>, total: nat) {
    if qs == [] then true
    else
      var q := qs[|qs| - 1];
      var m := Produced(n, qs[..|qs| - 1]);
      && KeepsClear(n, qs[..|qs| - 1], total)
      && m + |q.literals| + MFLIMIT <= total
      && m + |q.literals| + q.matchLength + LASTLITERALS <= total
  }

  function Produced(n: nat, qs: seq<Sequence>): nat {
    if qs == [] then n
    else Produced(n, qs[..|qs| - 1]) + |qs[|qs| - 1].literals| + qs[|qs| - 1].matchLength
  }

  // ---------------------------------------------------------------- parsing what was encoded

  /** `e` stands at index `i` of `b`. */
  predicate At(b: seq<byte>, i: nat, e: seq<byte>) {
    i + |e| <= |b| && b[i..i + |e|] == e
  }

  lemma AtSplit(b: seq<byte>, i: nat, e: seq<byte>, f: seq<byte>)
    requires At(b, i, e + f)
    ensures At(b, i, e) && At(b, i + |e|, f)
  {
    assert b[i..i + |e|] == (e + f)[..|e|];
    assert b[i + |e|..i + |e| + |f|] == (e + f)[|e|..];
  }

  lemma {:induction false} ReadRunBytes(b: seq<byte>, i: nat, acc: nat, v: nat)
    requires At(b, i, RunBytes(v))
    ensures ReadRun(b, i, acc) == Some((acc + v, i + |RunBytes(v)|))
    decreases v
  {
    var r := RunBytes(v);
    assert b[i] == b[i..i + |r|][0] == r[0];
    if v >= 255 {
      AtSplit(b, i, [255], RunBytes(v - 255));
      ReadRunBytes(b, i + 1, acc + 255, v - 255);
    }
  }

  lemma ReadLengthBytes(b: seq<byte>, i: nat, length: nat)
    requires At(b, i, LengthBytes(length)) && i <= |b|
    ensures ReadLength(b, i, Nibble(length)) == Some((length, i + |LengthBytes(length)|))
  {
    if length >= 15 {
      ReadRunBytes(b, i, 15, length - 15);
    }
  }

  /** Where the five fields of an encoded sequence stand. */
  lemma SequenceFields(b: seq<byte>, i: nat, q: Sequence)
    requires WellFormed(q) && At(b, i, EncodeSequence(q))
    ensures var l1, o, l2 := LengthBytes(|q.literals|), OffsetBytes(q.offset), LengthBytes(q.matchLength - MINMATCH);
            var p := i + 1 + |l1|;
            var f := p + |q.literals|;
            && i < |b| && b[i] == Token(|q.literals|, q.matchLength - MINMATCH)
            && At(b, i + 1, l1) && At(b, p, q.literals) && At(b, f, o) && At(b, f + 2, l2)
            && i + |EncodeSequence(q)| == f + 2 + |l2|
  {
    hide LengthBytes, OffsetBytes, Token;
    var t, l1, o, l2 := [Token(|q.literals|, q.matchLength - MINMATCH)], LengthBytes(|q.literals|),
                        OffsetBytes(q.offset), LengthBytes(q.matchLength - MINMATCH);
    OffsetBytesLength(q.offset);
    hide At;
    AtSplit(b, i, t + l1 + q.literals + o, l2);
    AtSplit(b, i, t + l1 + q.literals, o);
    AtSplit(b, i, t + l1, q.literals);
    AtSplit(b, i, t, l1);
    AtFirst(b, i, t);
  }

  lemma OffsetBytesLength(offset: nat)
    requires offset <= MAX_DISTANCE
    ensures |OffsetBytes(offset)| == 2
  {
  }

  lemma AtFirst(b: seq<byte>, i: nat, e: seq<byte>)
    requires At(b, i, e) && e != []
    ensures i < |b| && b[i] == e[0]
  {
    assert b[i] == b[i..i + |e|][0];
  }

  lemma ReadOffsetBytes(b: seq<byte>, i: nat, offset: nat)
    requires offset <= MAX_DISTANCE && At(b, i, OffsetBytes(offset))
    ensures i + 2 <= |b| && ReadLE16(b, i) == offset
  {
    assert b[i] == b[i..i + 2][0];
    assert b[i + 1] == b[i..i + 2][1];
  }

  lemma TokenNibbles(literals: nat, matchCode: nat)
    ensures Token(literals, matchCode) / 16 == Nibble(literals)
    ensures Token(literals, matchCode) % 16 == Nibble(matchCode)
  {
  }

  lemma ParseSequence(b: seq<byte>, i: nat, q: Sequence)
    requires WellFormed(q) && At(b, i, EncodeSequence(q))
    ensures var p := i + 1 + |LengthBytes(|q.literals|)|;
            && ParseAt(b, i) == Full(p, |q.literals|, q.offset, q.matchLength, i + |EncodeSequence(q)|)
            && p + |q.literals| <= |b| && b[p..p + |q.literals|] == q.literals
  {
    hide LengthBytes, OffsetBytes, Token, Nibble, EncodeSequence, ReadLength, ReadLE16;
    SequenceFields(b, i, q);
    TokenNibbles(|q.literals|, q.matchLength - MINMATCH);
    OffsetBytesLength(q.offset);
    var f := i + 1 + |LengthBytes(|q.literals|)| + |q.literals|;
    ReadLengthBytes(b, i + 1, |q.literals|);
    ReadOffsetBytes(b, f, q.offset);
    ReadLengthBytes(b, f + 2, q.matchLength - MINMATCH);
  }

  lemma ParseLast(b: seq<byte>, i: nat, literals: seq<byte>)
    requires At(b, i, EncodeLast(literals)) && i + |EncodeLast(literals)| == |b|
    ensures var p := i + 1 + |LengthBytes(|literals|)|;
            ParseAt(b, i) == Final(p) && p <= |b| && b[p..] == literals
  {
    hide LengthBytes, Token, Nibble, ReadLength;
    var t, l1 := [Token(|literals|, 0)], LengthBytes(|literals|);
    TokenNibbles(|literals|, 0);
    AtSplit(b, i, t + l1, literals);
    AtSplit(b, i, t, l1);
    AtFirst(b, i, t);
    ReadLengthBytes(b, i + 1, |literals|);
  }

  /** Decoding the encoded sequences brings the decoder behind them, with their expansion as
      its window. */
  lemma {:induction false} DecodeSequences(h: seq<byte>, qs: seq<Sequence>, tail: seq<byte>)
    requires AllWellFormed(qs) && Expand(h, qs).Some?
    ensures var b := EncodeAll(qs) + tail;
            Decode(b, 0, h) == Decode(b, |EncodeAll(qs)|, Expand(h, qs).value)
    ensures |Expand(h, qs).value| == Produced(|h|, qs)
    decreases |qs|
  {
    hide EncodeSequence, ParseAt, CopyMatch, At, Decode;
    if qs != [] {
      var qs', q := qs[..|qs| - 1], qs[|qs| - 1];
      var b, e' := EncodeAll(qs) + tail, EncodeAll(qs');
      DecodeSequences(h, qs', EncodeSequence(q) + tail);
      assert b == e' + (EncodeSequence(q) + tail);
      AtMiddle(e', EncodeSequence(q), tail);
      ParseSequence(b, |e'|, q);
      DecodeOneSequence(b, |e'|, q, Expand(h, qs').value);
    }
  }

  lemma DecodeOneSequence(b: seq<byte>, i: nat, q: Sequence, w: seq<byte>)
    requires WellFormed(q) && At(b, i, EncodeSequence(q)) && q.offset <= |w + q.literals|
    ensures Decode(b, i, w) == Decode(b, i + |EncodeSequence(q)|, CopyMatch(w + q.literals, q.offset, q.matchLength))
  {
    hide EncodeSequence, ParseAt, CopyMatch, At, LengthBytes;
    ParseSequence(b, i, q);
  }

  lemma AtMiddle(a: seq<byte>, e: seq<byte>, c: seq<byte>)
    ensures At(a + (e + c), |a|, e)
  {
  }

  lemma {:induction false} SequencesRestricted(n: nat, qs: seq<Sequence>, tail: seq<byte>, total: nat)
    requires AllWellFormed(qs) && KeepsClear(n, qs, total)
    requires var b := EncodeAll(qs) + tail; Restricted(b, |EncodeAll(qs)|, Produced(n, qs), total)
    ensures Restricted(EncodeAll(qs) + tail, 0, n, total)
    decreases |qs|
  {
    hide EncodeSequence, ParseAt, At;
    if qs != [] {
      var qs', q := qs[..|qs| - 1], qs[|qs| - 1];
      var b, e' := EncodeAll(qs) + tail, EncodeAll(qs');
      assert b == e' + (EncodeSequence(q) + tail);
      AtMiddle(e', EncodeSequence(q), tail);
      ParseSequence(b, |e'|, q);
      SequencesRestricted(n, qs', EncodeSequence(q) + tail, total);
    }
  }

  /** The block round trip on the level of the format: an encoded block decodes to the
      expansion of its sequences followed by its last literals, and it respects the parsing
      restrictions when its sequences do. */
  lemma BlockRoundTrip(h: seq<byte>, qs: seq<Sequence>, last: seq<byte>)
    requires AllWellFormed(qs) && Expand(h, qs).Some?
    ensures var w := Expand(h, qs).value + last;
            && Decode(EncodeBlock(qs, last), 0, h) == Some(w)
            && (KeepsClear(|h|, qs, |w|) ==> Restricted(EncodeBlock(qs, last), 0, |h|, |w|))
  {
    hide EncodeAll, EncodeLast, Expand, ParseAt, LengthBytes, KeepsClear;
    var b, e := EncodeBlock(qs, last), EncodeAll(qs);
    var w := Expand(h, qs).value + last;
    DecodeSequences(h, qs, EncodeLast(last));
    assert At(b, |e|, EncodeLast(last));
    ParseLast(b, |e|, last);
    if KeepsClear(|h|, qs, |w|) {
      SequencesRestricted(|h|, qs, EncodeLast(last), |w|);
    }
  }

  // ---------------------------------------------------------------- matches in the source

  /** `n` bytes at `p` of the whole text (history and source) repeat those at `q`, which is at
      most 65535 bytes back. */
  ghost predicate RealMatch(text: seq<byte>, p: int, q: int, n: int) {
    && 0 <= q < p && p - q <= MAX_DISTANCE && 0 <= n && p + n <= |text|
    && forall k :: q <= k < q + n ==> text[k] == text[k + (p - q)]
  }

  /** A part of a real match is a real match. */
  lemma RealMatchPart(text: seq<byte>, p: int, q: int, n: int, skip: int, n': int)
    requires RealMatch(text, p, q, n)
    requires 0 <= skip && 0 <= n' && skip + n' <= n
    ensures RealMatch(text, p + skip, q + skip, n')
  {
  }

  /** Sequences that stand for the text up to `a`, then literals up to `p`, then a real match:
      together they stand for the text up to the end of the match. */
  lemma EmitMatch(h: seq<byte>, text: seq<byte>, qs: seq<Sequence>, a: nat, p: nat, q: nat, n: nat, total: nat)
    requires a <= p && RealMatch(text, p, q, n)
    requires Expand(h, qs) == Some(text[..a])
    requires Produced(|h|, qs) == a && KeepsClear(|h|, qs, total)
    requires p + MFLIMIT <= total && p + n + LASTLITERALS <= total
    ensures var qs' := qs + [Sequence(text[a..p], p - q, n)];
            Expand(h, qs') == Some(text[..p + n]) && Produced(|h|, qs') == p + n && KeepsClear(|h|, qs', total)
  {
    hide CopyMatch;
    var s := Sequence(text[a..p], p - q, n);
    var qs' := qs + [s];
    assert qs'[..|qs'| - 1] == qs;
    assert text[..a] + text[a..p] == text[..p];
    RealMatchIsCopy(text, p, q, n);
  }

  lemma RealMatchIsCopy(text: seq<byte>, p: nat, q: nat, n: nat)
    requires RealMatch(text, p, q, n)
    ensures CopyMatch(text[..p], p - q, n) == text[..p + n]
  {
    hide CopyMatch;
    var r := text[..p + n];
    forall k | p <= k < p + n ensures r[k] == r[k - (p - q)] {
      assert text[k - (p - q)] == text[k - (p - q) + (p - q)];
    }
    assert r[..p] == text[..p];
    CopyMatchUnique(text[..p], p - q, n, r);
  }

  lemma EncodeOneMore(qs: seq<Sequence>, q: Sequence)
    requires AllWellFormed(qs) && WellFormed(q)
    ensures AllWellFormed(qs + [q]) && EncodeAll(qs + [q]) == EncodeAll(qs) + EncodeSequence(q)
  {
    assert (qs + [q])[..|qs + [q]| - 1] == qs;
  }

  // ---------------------------------------------------------------- sizes

  lemma {:induction false} RunBytesLength(v: nat)
    ensures |RunBytes(v)| == v / 255 + 1
    decreases v
  {
    if v >= 255 {
      RunBytesLength(v - 255);
    }
  }

  lemma LengthBytesLength(length: nat)
    ensures |LengthBytes(length)| == (length + 240) / 255
    ensures |LengthBytes(length)| == if length < 15 then 0 else (length - 15) / 255 + 1
  {
    if length >= 15 {
      RunBytesLength(length - 15);
    }
  }
}
