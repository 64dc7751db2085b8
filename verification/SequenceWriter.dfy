/** Writing sequences into the output buffer, in place, the way each compressor does it: every
    method leaves exactly the bytes that the encoding functions name. */
module SequenceWriter {
  import opened BlockFormat
  import opened Memory
  import opened Encoding

  lemma AtKept(m0: seq<byte>, m1: seq<byte>, lo: int, hi: int, i: nat, e: seq<byte>)
    requires SameOutside(m0, m1, lo, hi) && At(m0, i, e) && Disjoint(i, i + |e|, lo, hi)
    ensures At(m1, i, e)
  {
    assert m1[i..i + |e|] == m0[i..i + |e|];
  }

  lemma AtJoin(m: seq<byte>, i: nat, e: seq<byte>, f: seq<byte>)
    requires At(m, i, e) && At(m, i + |e|, f)
    ensures At(m, i, e + f)
  {
    assert m[i..i + |e + f|] == m[i..i + |e|] + m[i + |e|..i + |e| + |f|];
  }

  lemma AtByte(m: seq<byte>, i: nat, b: byte)
    requires i < |m| && m[i] == b
    ensures At(m, i, [b])
  {
  }

  lemma {:induction false} RunBytesAre(v: nat, k: nat)
    requires k <= v / 255
    ensures |RunBytes(v)| == v / 255 + 1
    ensures RunBytes(v)[k] == if k < v / 255 then 255 else v % 255
    decreases v
  {
    if v >= 255 {
      RunBytesAre(v - 255, if k == 0 then 0 else k - 1);
    }
  }

  /** A run found in memory: so many 255s, then the rest. */
  lemma RunAt(m: seq<byte>, op: nat, v: nat)
    requires op + v / 255 < |m|
    requires forall k :: op <= k < op + v / 255 ==> m[k] == 255
    requires m[op + v / 255] == v % 255
    ensures At(m, op, RunBytes(v))
  {
    var r := RunBytes(v);
    RunBytesLength(v);
    forall k: nat | k < |r| ensures m[op..op + |r|][k] == r[k] {
      RunBytesAre(v, k);
    }
  }

  /** How a compressor writes the length bytes of a match. */
  datatype RunStyle = Plain | Pairs | Prefilled

  /** One 255 per step, then the rest. */
  method WriteRun(mem: array<byte>, op: nat, v: nat) returns (op': nat)
    requires op + v / 255 < mem.Length
    modifies mem
    ensures op' == op + v / 255 + 1
    ensures At(mem[..], op, RunBytes(v)) && SameOutside(old(mem[..]), mem[..], op, op')
  {
    var len := v;
    op' := op;
    while len >= 255
      invariant op <= op' && 0 <= len && len + 255 * (op' - op) == v && op' + len / 255 == op + v / 255
      invariant forall k :: op <= k < op' ==> mem[k] == 255
      invariant SameOutside(old(mem[..]), mem[..], op, op')
    {
      mem[op'] := 255;
      op', len := op' + 1, len - 255;
    }
    mem[op'] := len;
    op' := op' + 1;
    assert v / 255 == op' - 1 - op && v % 255 == len;
    RunAt(mem[..], op, v);
  }

  /** Two 255s per step. */
  method WriteRunByPairs(mem: array<byte>, op: nat, v: nat) returns (op': nat)
    requires op + v / 255 < mem.Length
    modifies mem
    ensures op' == op + v / 255 + 1
    ensures At(mem[..], op, RunBytes(v)) && SameOutside(old(mem[..]), mem[..], op, op')
  {
    var len := v;
    op' := op;
    while len >= 510
      invariant op <= op' && 0 <= len && len + 255 * (op' - op) == v && op' + len / 255 == op + v / 255
      invariant forall k :: op <= k < op' ==> mem[k] == 255
      invariant SameOutside(old(mem[..]), mem[..], op, op')
    {
      mem[op'], mem[op' + 1] := 255, 255;
      op', len := op' + 2, len - 510;
    }
    if len >= 255 {
      mem[op'] := 255;
      op', len := op' + 1, len - 255;
    }
    mem[op'] := len;
    op' := op' + 1;
    assert v / 255 == op' - 1 - op && v % 255 == len;
    RunAt(mem[..], op, v);
  }

  method Write32Ones(mem: array<byte>, op: nat)
    requires op + 4 <= mem.Length
    modifies mem
    ensures forall k :: op <= k < op + 4 ==> mem[k] == 255
    ensures SameOutside(old(mem[..]), mem[..], op, op + 4)
  {
    mem[op], mem[op + 1], mem[op + 2], mem[op + 3] := 255, 255, 255, 255;
  }

  /** Four 255s are always written ahead, so up to three bytes too many. */
  method WriteRunPrefilled(mem: array<byte>, op: nat, v: nat) returns (op': nat)
    requires op + v / 255 + 4 <= mem.Length
    modifies mem
    ensures op' == op + v / 255 + 1
    ensures At(mem[..], op, RunBytes(v)) && SameOutside(old(mem[..]), mem[..], op, op + v / 255 + 4)
  {
    var len := v;
    op' := op;
    Write32Ones(mem, op');
    while len >= 4 * 255
      invariant op <= op' && 0 <= len && len + 255 * (op' - op) == v && op' + len / 255 == op + v / 255
      invariant forall k :: op <= k < op' + 4 ==> mem[k] == 255
      invariant SameOutside(old(mem[..]), mem[..], op, op + v / 255 + 4)
    {
      op' := op' + 4;
      ghost var m := mem[..];
      Write32Ones(mem, op');
      assert forall k :: op <= k < op' ==> mem[..][k] == m[k];
      len := len - 4 * 255;
    }
    op' := op' + len / 255;
    mem[op'] := len % 255;
    assert v / 255 == op' - op && v % 255 == len % 255;
    RunAt(mem[..], op, v);
    op' := op' + 1;
  }

  method WriteMatchRun(mem: array<byte>, style: RunStyle, op: nat, v: nat) returns (op': nat)
    requires op + v / 255 + 4 <= mem.Length
    modifies mem
    ensures op' == op + v / 255 + 1
    ensures At(mem[..], op, RunBytes(v)) && SameOutside(old(mem[..]), mem[..], op, op + v / 255 + 4)
  {
    match style
    case Plain => op' := WriteRun(mem, op, v);
    case Pairs => op' := WriteRunByPairs(mem, op, v);
    case Prefilled => op' := WriteRunPrefilled(mem, op, v);
  }

  /** Token (high nibble only) and length bytes for `litLength` literals. */
  method WriteLiteralLength(mem: array<byte>, token: nat, litLength: nat) returns (op: nat)
    requires token + 1 + (litLength + 240) / 255 <= mem.Length
    modifies mem
    ensures op == token + 1 + |LengthBytes(litLength)|
    ensures mem[token] == Token(litLength, 0) && At(mem[..], token + 1, LengthBytes(litLength))
    ensures SameOutside(old(mem[..]), mem[..], token, op)
  {
    LengthBytesLength(litLength);
    if litLength >= 15 {
      mem[token] := 240;
      op := WriteRun(mem, token + 1, litLength - 15);
      RunBytesLength(litLength - 15);
    } else {
      mem[token] := 16 * litLength;
      op := token + 1;
    }
  }

  /** Token, length bytes and the literals `anchor..ip` themselves, copied eight at a time. */
  method WriteLiterals(mem: array<byte>, token: nat, anchor: nat, ip: nat, ghost hi: nat) returns (op: nat)
    requires anchor <= ip && ip + 8 <= mem.Length && hi <= mem.Length
    requires token + 2 + (ip - anchor) / 255 + (ip - anchor) + 8 <= hi
    requires Disjoint(anchor, ip + 8, token, hi)
    modifies mem
    ensures op == token + 1 + |LengthBytes(ip - anchor)| + (ip - anchor)
    ensures mem[token] == Token(ip - anchor, 0)
    ensures At(mem[..], token + 1, LengthBytes(ip - anchor))
    ensures At(mem[..], op - (ip - anchor), old(mem[anchor..ip]))
    ensures SameOutside(old(mem[..]), mem[..], token, hi)
  {
    hide LengthBytes, Token, At;
    LengthBytesLength(ip - anchor);
    ghost var m0 := mem[..];
    op := WriteLiteralLength(mem, token, ip - anchor);
    ghost var m1 := mem[..];
    WildCopy(mem, op, anchor, op + (ip - anchor));
    ghost var m2 := mem[..];
    assert forall k :: op <= k < op + (ip - anchor) ==> m2[k] == m2[anchor + (k - op)];
    LiteralsWritten(m0, m1, m2, token, op, anchor, ip, hi);
    op := op + (ip - anchor);
  }

  lemma LiteralsWritten(m0: seq<byte>, m1: seq<byte>, m2: seq<byte>, token: nat, op: nat, anchor: nat, ip: nat, hi: nat)
    requires anchor <= ip <= |m0| && token < op && Disjoint(anchor, ip + 8, token, hi)
    requires SameOutside(m0, m1, token, op) && SameOutside(m1, m2, op, WildEnd(op, op + (ip - anchor)))
    requires op + (ip - anchor) + 8 <= hi <= |m0|
    requires forall k :: op <= k < op + (ip - anchor) ==> m2[k] == m2[anchor + (k - op)]
    requires At(m1, token + 1, LengthBytes(ip - anchor)) && op == token + 1 + |LengthBytes(ip - anchor)|
    ensures At(m2, token + 1, LengthBytes(ip - anchor)) && m2[token] == m1[token]
    ensures At(m2, op, m0[anchor..ip])
    ensures SameOutside(m0, m2, token, hi)
  {
    hide LengthBytes;
    AtKept(m1, m2, op, WildEnd(op, op + (ip - anchor)), token + 1, LengthBytes(ip - anchor));
    assert forall k :: op <= k < op + (ip - anchor) ==> m2[k] == m0[anchor + (k - op)];
    assert m2[op..op + (ip - anchor)] == m0[anchor..ip];
  }

  /** Offset and match length, behind literals that have been written already; the low nibble
      goes into the token. */
  method WriteMatch(mem: array<byte>, style: RunStyle, token: nat, op: nat, offset: nat, matchCode: nat,
                    ghost lits: seq<byte>, ghost hi: nat)
    returns (op': nat)
    requires offset <= MAX_DISTANCE && hi <= mem.Length
    requires op + 2 + matchCode / 255 + 4 <= hi && op == token + 1 + |LengthBytes(|lits|)| + |lits|
    requires mem[token] == Token(|lits|, 0)
    requires At(mem[..], token + 1, LengthBytes(|lits|)) && At(mem[..], op - |lits|, lits)
    modifies mem
    ensures op' == token + |EncodeSequence(Sequence(lits, offset, matchCode + MINMATCH))|
    ensures At(mem[..], token, EncodeSequence(Sequence(lits, offset, matchCode + MINMATCH)))
    ensures SameOutside(old(mem[..]), mem[..], token, hi)
  {
    hide LengthBytes, Token, At, EncodeSequence, SameOutside, OffsetBytes, RunBytes;
    ghost var m0 := mem[..];
    WriteOffset(mem, token, op, offset, matchCode, |lits|);
    ghost var m1 := mem[..];
    op' := op + 2;
    if matchCode >= 15 {
      op' := WriteMatchRun(mem, style, op', matchCode - 15);
    } else {
      SameOutsideRefl(m1, op + 2, hi);
    }
    MatchRunIs(m1, mem[..], op + 2, matchCode, hi);
    MatchWritten(m0, m1, mem[..], token, op, offset, matchCode, lits, hi);
  }

  lemma MatchRunIs(m1: seq<byte>, m2: seq<byte>, op: nat, matchCode: nat, hi: nat)
    requires |m1| == |m2| && op <= |m1| && op + matchCode / 255 + 4 <= hi
    requires matchCode >= 15 ==> At(m2, op, RunBytes(matchCode - 15)) && SameOutside(m1, m2, op, op + (matchCode - 15) / 255 + 4)
    requires matchCode < 15 ==> SameOutside(m1, m2, op, hi)
    ensures At(m2, op, LengthBytes(matchCode)) && SameOutside(m1, m2, op, hi)
    ensures |LengthBytes(matchCode)| == if matchCode < 15 then 0 else (matchCode - 15) / 255 + 1
  {
    LengthBytesLength(matchCode);
  }

  /** The two offset bytes, and the match length's share of the token. */
  method WriteOffset(mem: array<byte>, token: nat, op: nat, offset: nat, matchCode: nat, ghost litLength: nat)
    requires offset <= MAX_DISTANCE && token < op && op + 2 <= mem.Length && mem[token] == Token(litLength, 0)
    modifies mem
    ensures At(mem[..], op, OffsetBytes(offset)) && mem[token] == Token(litLength, matchCode)
    ensures SameOutside(old(mem[..]), mem[..], token, op + 2)
    ensures forall k :: token < k < op ==> mem[k] == old(mem[k])
  {
    mem[op], mem[op + 1] := offset % 256, offset / 256;
    mem[token] := mem[token] + Nibble(matchCode);
  }

  lemma MatchWritten(m0: seq<byte>, m1: seq<byte>, m2: seq<byte>, token: nat, op: nat, offset: nat, matchCode: nat,
                     lits: seq<byte>, hi: nat)
    requires offset <= MAX_DISTANCE && op == token + 1 + |LengthBytes(|lits|)| + |lits| && op + 2 <= hi <= |m0|
    requires |m1| == |m0| && SameOutside(m0, m1, token, op + 2) && SameOutside(m1, m2, op + 2, hi)
    requires forall k :: token < k < op ==> m1[k] == m0[k]
    requires At(m0, token + 1, LengthBytes(|lits|)) && At(m0, op - |lits|, lits)
    requires m1[token] == Token(|lits|, matchCode)
    requires At(m1, op, OffsetBytes(offset))
    requires At(m2, op + 2, LengthBytes(matchCode))
    ensures At(m2, token, EncodeSequence(Sequence(lits, offset, matchCode + MINMATCH)))
    ensures SameOutside(m0, m2, token, hi)
    ensures |EncodeSequence(Sequence(lits, offset, matchCode + MINMATCH))| == op + 2 + |LengthBytes(matchCode)| - token
  {
    hide LengthBytes, OffsetBytes, Token, At;
    var t, l1, o, l2 := [Token(|lits|, matchCode)], LengthBytes(|lits|), OffsetBytes(offset), LengthBytes(matchCode);
    OffsetBytesLength(offset);
    FieldKept(m0, m1, m2, token, op, hi, token + 1, l1);
    FieldKept(m0, m1, m2, token, op, hi, op - |lits|, lits);
    AtKept(m1, m2, op + 2, hi, op, o);
    AtByte(m2, token, Token(|lits|, matchCode));
    AtJoin(m2, token, t, l1);
    AtJoin(m2, token, t + l1, lits);
    AtJoin(m2, token, t + l1 + lits, o);
    AtJoin(m2, token, t + l1 + lits + o, l2);
  }

  lemma FieldKept(m0: seq<byte>, m1: seq<byte>, m2: seq<byte>, token: nat, op: nat, hi: nat, i: nat, e: seq<byte>)
    requires |m0| == |m1| && SameOutside(m1, m2, op + 2, hi) && forall k :: token < k < op ==> k < |m0| && m1[k] == m0[k]
    requires token < i && i + |e| <= op <= |m0| && At(m0, i, e)
    ensures At(m2, i, e)
  {
    var a, b := m0[i..i + |e|], m2[i..i + |e|];
    forall k: nat | k < |e| ensures b[k] == a[k] {
      assert m1[i + k] == m0[i + k];
    }
  }

  /** Token, length bytes and the final literals of a block. */
  method WriteLastLiterals(mem: array<byte>, op: nat, anchor: nat, lastRun: nat) returns (op': nat)
    requires anchor + lastRun <= mem.Length && op + 1 + (lastRun + 240) / 255 + lastRun <= mem.Length
    requires Disjoint(anchor, anchor + lastRun, op, op + 1 + (lastRun + 240) / 255 + lastRun)
    modifies mem
    ensures op' == op + |EncodeLast(old(mem[anchor..anchor + lastRun]))|
    ensures At(mem[..], op, EncodeLast(old(mem[anchor..anchor + lastRun])))
    ensures SameOutside(old(mem[..]), mem[..], op, op')
  {
    hide LengthBytes, Token, EncodeLast, At;
    ghost var m0 := mem[..];
    ghost var lits := mem[anchor..anchor + lastRun];
    LengthBytesLength(lastRun);
    op' := WriteLiteralLength(mem, op, lastRun);
    ghost var m1 := mem[..];
    Move(mem, op', anchor, lastRun);
    ghost var m2 := mem[..];
    assert forall k :: op' <= k < op' + lastRun ==> m2[k] == m1[anchor + (k - op')];
    LastWritten(m0, m1, m2, op, op', anchor, lits);
    op' := op' + lastRun;
  }

  lemma LastWritten(m0: seq<byte>, m1: seq<byte>, m2: seq<byte>, op: nat, op': nat, anchor: nat, lits: seq<byte>)
    requires op' == op + 1 + |LengthBytes(|lits|)| && op' + |lits| <= |m0|
    requires anchor + |lits| <= |m0| && Disjoint(anchor, anchor + |lits|, op, op')
    requires SameOutside(m0, m1, op, op') && SameOutside(m1, m2, op', op' + |lits|)
    requires m0[anchor..anchor + |lits|] == lits
    requires m1[op] == Token(|lits|, 0) && At(m1, op + 1, LengthBytes(|lits|))
    requires forall k :: op' <= k < op' + |lits| ==> m2[k] == m1[anchor + (k - op')]
    ensures At(m2, op, EncodeLast(lits)) && |EncodeLast(lits)| == op' + |lits| - op
    ensures SameOutside(m0, m2, op, op' + |lits|)
  {
    hide LengthBytes, Token;
    assert forall k :: op' <= k < op' + |lits| ==> m2[k] == m0[anchor + (k - op')];
    assert m2[op'..op' + |lits|] == m0[anchor..anchor + |lits|];
    AtByte(m2, op, Token(|lits|, 0));
    AtKept(m1, m2, op', op' + |lits|, op + 1, LengthBytes(|lits|));
    hide At;
    AtJoin(m2, op, [Token(|lits|, 0)], LengthBytes(|lits|));
    AtJoin(m2, op, [Token(|lits|, 0)] + LengthBytes(|lits|), lits);
  }
}
