/** LZ4_compress_generic: the greedy compressor, for all of its dictionary modes. */
module FastCompressor {
  import opened BlockFormat
  import opened Memory
  import opened MatchCount
  import opened Encoding
  import opened SequenceWriter
  import opened Emitter
  import opened FastSearch

  /** Byte for byte, the `n` bytes at `ip` repeat those that virtual address `v` names. */
  ghost predicate Repeats(m: seq<byte>, p: Params, ip: nat, v: int, n: nat)
    requires p.Readable(|m|)
  {
    && p.Lo() <= v && v + n <= p.Iend() && p.src <= ip && ip + n <= p.Iend()
    && forall u :: v <= u < v + n ==> 0 <= p.Addr(u) < |m| && m[p.Addr(u)] == m[ip + (u - v)]
  }

  lemma RepeatsIsReal(m: seq<byte>, p: Params, ip: nat, v: int, n: nat)
    requires p.Readable(|m|) && Repeats(m, p, ip, v, n) && v < ip && ip - v <= MAX_DISTANCE
    ensures RealMatch(p.Text(m), ip - p.Lo(), v - p.Lo(), n)
  {
    hide p.Text;
    var t, q := p.Text(m), v - p.Lo();
    forall k | q <= k < q + n ensures t[k] == t[k + (ip - v)] {
      TextAt(m, p, k + p.Lo());
      TextAt(m, p, k + p.Lo() + (ip - v));
      var u := k + p.Lo();
      assert m[p.Addr(u)] == m[ip + (u - v)];
    }
  }

  /** `known` bytes at `ip` repeat the candidate's, all of them in its own segment. */
  ghost predicate Grounded(m: seq<byte>, p: Params, ip: nat, v: int, known: nat)
    requires p.Readable(|m|)
  {
    && InReach(p, ip, v, |m|) && ip + known <= p.Matchlimit() && p.Addr(v) + known <= |m|
    && (p.dict == UsingExtDict && v < p.src ==> v + known <= p.src)
    && Agree(m, ip, p.Addr(v), known)
  }

  lemma CandidateGrounded(m: seq<byte>, p: Params, ip: nat, v: int)
    requires p.Readable(|m|) && Candidate(m, p, ip, v) && ip <= p.Mflimit()
    ensures Grounded(m, p, ip, v, 1)
  {
  }

  /** The candidate runs over the end of an external dictionary within its first four bytes. */
  predicate Straddling(p: Params, v: int) {
    p.dict == UsingExtDict && v < p.src < v + MINMATCH
  }

  /** Extends a candidate backwards, over literals not yet written. */
  method CatchUp(mem: array<byte>, p: Params, anchor: nat, ip: nat, v: int, refDelta: int, lowLimit: int)
    returns (ip': nat, v': int)
    requires p.Readable(mem.Length) && Candidate(mem[..], p, ip, v) && p.src <= anchor <= ip <= p.Mflimit()
    requires p.Addr(v) == v + refDelta
    requires lowLimit == if p.dict == UsingExtDict && v < p.src then p.dictionary
                         else if p.dict == WithPrefix64k then p.src - p.dictSize else p.src
    ensures anchor <= ip' <= ip && ip' - v' == ip - v && Candidate(mem[..], p, ip', v')
    ensures p.Addr(v') == v' + refDelta && (p.dict == UsingExtDict ==> (v' < p.src <==> v < p.src))
    ensures Grounded(mem[..], p, ip', v', ip - ip' + 1)
    ensures Whole(p, ip, v) ==> Whole(p, ip', v')
    ensures v == ip ==> ip' == anchor
    ensures p.Addr(v) <= lowLimit ==> ip' == ip
  {
    hide Candidate, Agree, Grounded;
    ip', v' := ip, v;
    CandidateInReach(mem[..], p, ip, v);
    CandidateGrounded(mem[..], p, ip, v);
    while ip' > anchor && v' + refDelta > lowLimit && mem[ip' - 1] == mem[v' + refDelta - 1]
      invariant anchor <= ip' <= ip && ip' - v' == ip - v && p.Lo() <= v'
      invariant p.dict == UsingExtDict ==> (v' < p.src <==> v < p.src)
      invariant p.Addr(v') == v' + refDelta && Candidate(mem[..], p, ip', v')
      invariant Grounded(mem[..], p, ip', v', ip - ip' + 1)
    {
      OneBack(mem[..], p, ip', v', ip - ip' + 1);
      ip', v' := ip' - 1, v' - 1;
    }
  }

  lemma OneBack(m: seq<byte>, p: Params, ip: nat, v: int, known: nat)
    requires p.Readable(|m|) && Candidate(m, p, ip, v) && p.src < ip && p.Lo() < v && Grounded(m, p, ip, v, known)
    requires p.dict == UsingExtDict ==> (v - 1 < p.src <==> v < p.src)
    requires p.Addr(v - 1) == p.Addr(v) - 1 && 0 <= p.Addr(v - 1) && m[ip - 1] == m[p.Addr(v) - 1]
    ensures Candidate(m, p, ip - 1, v - 1) && Grounded(m, p, ip - 1, v - 1, known + 1)
  {
  }

  /** The forward length of a match beyond its first four bytes, also across the border
      between external dictionary and source. */
  method MatchLength(mem: array<byte>, p: Params, ip: nat, v: int, refDelta: int, lowLimit: int, ghost known: nat)
    returns (matchCode: nat)
    requires p.Readable(mem.Length) && Grounded(mem[..], p, ip, v, known) && ip <= p.Mflimit()
    requires Whole(p, ip, v) ==> Candidate(mem[..], p, ip, v)
    requires p.Addr(v) == v + refDelta
    requires p.dict == UsingExtDict && v < p.src ==> lowLimit == p.dictionary
    requires p.dict == UsingExtDict && v >= p.src ==> lowLimit == p.src
    ensures ip + MINMATCH + matchCode <= p.Matchlimit() && known <= MINMATCH + matchCode
    ensures Whole(p, ip, v) ==> Repeats(mem[..], p, ip, v, MINMATCH + matchCode)
    ensures Straddling(p, v) ==> matchCode == 0
    ensures p.src <= v && Agree(mem[..], ip, v, p.Matchlimit() - ip) ==> ip + MINMATCH + matchCode == p.Matchlimit()
  {
    hide Agree, Repeats, Candidate;
    if p.dict == UsingExtDict && lowLimit == p.dictionary {
      matchCode := MatchLengthFromDict(mem, p, ip, v, refDelta, known);
    } else {
      matchCode := Count(mem, ip + MINMATCH, v + refDelta + MINMATCH, p.Matchlimit());
      if MINMATCH + matchCode < known {
        GroundedByte(mem[..], p, ip, v, known, MINMATCH + matchCode);
      }
      if Whole(p, ip, v) {
        WithinSegment(mem[..], p, ip, v, matchCode);
      }
      if p.src <= v {
        UpToLimit(mem[..], ip, v, MINMATCH + matchCode, p.Matchlimit());
      }
    }
  }

  /** Counting stops before the limit only where the bytes differ. */
  lemma UpToLimit(m: seq<byte>, ip: nat, v: nat, n: nat, limit: nat)
    requires v <= ip && ip + n <= limit <= |m| && (ip + n < limit ==> m[ip + n] != m[v + n])
    ensures Agree(m, ip, v, limit - ip) ==> ip + n == limit
  {
    if ip + n < limit {
      assert m[ip + n] != m[ip + n + (v - ip)];
    }
  }

  method MatchLengthFromDict(mem: array<byte>, p: Params, ip: nat, v: int, refDelta: int, ghost known: nat)
    returns (matchCode: nat)
    requires p.Readable(mem.Length) && Grounded(mem[..], p, ip, v, known) && ip <= p.Mflimit()
    requires Whole(p, ip, v) ==> Candidate(mem[..], p, ip, v)
    requires p.Addr(v) == v + refDelta && p.dict == UsingExtDict && v < p.src
    ensures ip + MINMATCH + matchCode <= p.Matchlimit() && known <= MINMATCH + matchCode
    ensures Whole(p, ip, v) ==> Repeats(mem[..], p, ip, v, MINMATCH + matchCode)
    ensures Straddling(p, v) ==> matchCode == 0
  {
    hide Agree, Repeats, Candidate;
    var from := v + refDelta;
    var limit := ip + (p.DictEnd() - from);
    if limit > p.Matchlimit() {
      limit := p.Matchlimit();
    }
    matchCode := Count(mem, ip + MINMATCH, from + MINMATCH, limit);
    if MINMATCH + matchCode < known {
      GroundedByte(mem[..], p, ip, v, known, MINMATCH + matchCode);
    }
    var more := 0;
    if ip + MINMATCH + matchCode == limit {
      more := Count(mem, ip + MINMATCH + matchCode, p.src, p.Matchlimit());
    } else {
      AgreeNone(mem[..], ip + MINMATCH + matchCode, p.src);
    }
    if Whole(p, ip, v) {
      AcrossBorder(mem[..], p, ip, v, limit, matchCode, more);
    }
    matchCode := matchCode + more;
  }

  lemma GroundedByte(m: seq<byte>, p: Params, ip: nat, v: int, known: nat, k: nat)
    requires p.Readable(|m|) && Grounded(m, p, ip, v, known) && k < known
    ensures m[ip + k] == m[p.Addr(v) + k]
  {
    var i := ip + k;
    assert m[i] == m[i + (p.Addr(v) - ip)];
  }

  lemma WithinSegment(m: seq<byte>, p: Params, ip: nat, v: int, n: nat)
    requires p.Readable(|m|) && Candidate(m, p, ip, v) && Whole(p, ip, v)
    requires p.dict == UsingExtDict ==> v >= p.src
    requires ip + MINMATCH + n <= p.Iend() && Agree(m, ip + MINMATCH, v + MINMATCH, n)
    ensures Repeats(m, p, ip, v, MINMATCH + n)
  {
    forall u | v <= u < v + MINMATCH + n ensures m[p.Addr(u)] == m[ip + (u - v)] {
      assert m[ip + (u - v)] == m[(ip + (u - v)) + (v - ip)];
    }
  }

  lemma AcrossBorder(m: seq<byte>, p: Params, ip: nat, v: int, limit: int, n1: nat, n2: nat)
    requires p.Readable(|m|) && Candidate(m, p, ip, v) && Whole(p, ip, v)
    requires p.dict == UsingExtDict && v < p.src && ip <= p.Mflimit()
    requires limit == if ip + (p.src - v) > p.Matchlimit() then p.Matchlimit() else ip + (p.src - v)
    requires ip + MINMATCH + n1 <= limit && Agree(m, ip + MINMATCH, p.Addr(v) + MINMATCH, n1)
    requires n2 > 0 ==> ip + MINMATCH + n1 == limit < p.Matchlimit()
    requires ip + MINMATCH + n1 + n2 <= p.Matchlimit() && Agree(m, ip + MINMATCH + n1, p.src, n2)
    ensures Repeats(m, p, ip, v, MINMATCH + n1 + n2)
  {
    forall u | v <= u < v + MINMATCH + n1 + n2
      ensures 0 <= p.Addr(u) < |m| && m[p.Addr(u)] == m[ip + (u - v)]
    {
      var i := ip + (u - v);
      if u < v + MINMATCH {
        assert m[i] == m[i + (p.Addr(v) - ip)];
      } else if u < v + MINMATCH + n1 {
        assert m[i] == m[i + (p.Addr(v) + MINMATCH - (ip + MINMATCH))];
      } else {
        assert m[i] == m[i + (p.src - (ip + MINMATCH + n1))];
      }
    }
  }

  // ---------------------------------------------------------------- writing one sequence

  lemma TextKept(m0: seq<byte>, m1: seq<byte>, p: Params, op: nat)
    requires p.Valid(|m0|) && p.dst <= op && SameOutside(m0, m1, op, p.dst + p.OutRoom())
    ensures p.Text(m1) == p.Text(m0) && p.History(m1) == p.History(m0)
  {
    var hi := p.dst + p.OutRoom();
    SliceKept(m0, m1, op, hi, p.src, p.Iend());
    match p.dict
    case NoDict =>
    case WithPrefix64k => SliceKept(m0, m1, op, hi, p.src - p.dictSize, p.src);
    case UsingExtDict => SliceKept(m0, m1, op, hi, p.dictionary, p.DictEnd());
  }

  lemma CandidateKept(m0: seq<byte>, m1: seq<byte>, p: Params, ip: nat, v: int, op: nat)
    requires p.Valid(|m0|) && p.dst <= op && SameOutside(m0, m1, op, p.dst + p.OutRoom())
    requires Candidate(m0, p, ip, v) && Whole(p, ip, v)
    ensures Candidate(m1, p, ip, v)
  {
    assert Agree(m1, ip, p.Addr(v), 4);
  }

  lemma GroundedKept(m0: seq<byte>, m1: seq<byte>, p: Params, ip: nat, v: int, known: nat, op: nat)
    requires p.Valid(|m0|) && p.dst <= op && SameOutside(m0, m1, op, p.dst + p.OutRoom())
    requires Grounded(m0, p, ip, v, known)
    ensures Grounded(m1, p, ip, v, known)
  {
    assert Agree(m1, ip, p.Addr(v), known);
  }

  lemma SourceSlice(m: seq<byte>, p: Params, a: nat, b: nat)
    requires p.Readable(|m|) && p.src <= a <= b <= p.Iend()
    ensures m[a..b] == p.Text(m)[a - p.Lo()..b - p.Lo()]
  {
    hide p.Text;
    var t, lo := p.Text(m), p.Lo();
    forall i: nat | i < b - a ensures m[a..b][i] == t[a - lo..b - lo][i] {
      TextAt(m, p, a + i);
    }
  }

  lemma AgreeKept(m0: seq<byte>, m1: seq<byte>, p: Params, op: nat, ip: nat, v: nat, n: nat)
    requires p.Valid(|m0|) && p.dst <= op && SameOutside(m0, m1, op, p.dst + p.OutRoom())
    requires p.src <= v <= ip && ip + n <= p.Iend() && Agree(m0, ip, v, n)
    ensures Agree(m1, ip, v, n)
  {
  }

  /** The output limit leaves room for a sequence, however long its match, and what must follow. */
  predicate Roomy(p: Params, op: nat, anchor: nat, ip: nat)
    requires anchor <= ip <= p.Mflimit()
  {
    var ll := ip - anchor;
    op + 1 + ll + (ll + 240) / 255 + (2 + 1 + LASTLITERALS) + (p.Matchlimit() - ip - MINMATCH) / 256 <= p.dst + p.maxOutputSize
  }

  /** A match that repeats the source right up to where matches end. */
  ghost predicate ToTheEnd(m: seq<byte>, p: Params, ip: nat, v: int)
    requires p.Readable(|m|) && p.src <= ip <= p.Mflimit()
  {
    p.src <= v <= ip && Agree(m, ip, v, p.Matchlimit() - ip)
  }

  /** Writes the sequence made of the literals `anchor..ip` and the match `v`.  A
      sequence found by the search goes through the literal branch; one that follows a match directly has no
      literals and skips it. */
  method EmitSequence(mem: array<byte>, p: Params, op: nat, anchor: nat, ip: nat, v: int,
                      refDelta: int, lowLimit: int, withLiterals: bool, ghost known: nat, ghost qs: seq<Sequence>)
    returns (ok: bool, op': nat, ip': nat, ghost q: Sequence)
    requires p.Valid(mem.Length) && Candidate(mem[..], p, ip, v) && Grounded(mem[..], p, ip, v, known)
    requires p.src <= anchor <= ip <= p.Mflimit() && (!withLiterals ==> ip == anchor)
    requires p.Addr(v) == v + refDelta
    requires p.dict == UsingExtDict && v < p.src ==> lowLimit == p.dictionary
    requires p.dict == UsingExtDict && v >= p.src ==> lowLimit == p.src
    requires p.dst <= op && Emitted(mem[..], p.dst, op, qs) && op - p.dst <= Cost(anchor - p.src)
    modifies mem
    ensures SameOutside(old(mem[..]), mem[..], op, p.dst + p.OutRoom())
    ensures ok ==> op <= op' && Emitted(mem[..], p.dst, op', qs + [q])
    ensures ok ==> ip + MINMATCH <= ip' <= p.Matchlimit() && ip + known <= ip' && op' - p.dst <= Cost(ip' - p.src)
    ensures ok ==> q == Sequence(old(mem[anchor..ip]), ip - v, ip' - ip)
    ensures ok && Whole(p, ip, v) ==> RealMatch(old(p.Text(mem[..])), ip - p.Lo(), v - p.Lo(), ip' - ip)
    ensures !p.limited || p.maxOutputSize >= p.OutRoom() ==> ok
    ensures ok ==> op' == op + |EncodeSequence(q)|
    ensures Roomy(p, op, anchor, ip) ==> ok
    ensures ok && Straddling(p, v) ==> ip' == ip + MINMATCH
    ensures ok && ToTheEnd(old(mem[..]), p, ip, v) ==> ip' == p.Matchlimit()
  {
    hide Candidate, Grounded, Emitted, EncodeSequence, EncodeAll, Token, LengthBytes, RealMatch, SameOutside, p.Text,
      At, Cost, InReach, p.Addr, Whole, ToTheEnd, Roomy, Straddling;
    ghost var m0, hi := mem[..], p.dst + p.OutRoom();
    ghost var lits := m0[anchor..ip];
    CandidateInReach(m0, p, ip, v);
    InReachBounds(p, ip, v, |m0|);
    var o, matchCode;
    q := Sequence(lits, ip - v, MINMATCH);
    ok, o := BeginSequence(mem, p, op, anchor, ip, withLiterals);
    ip', op' := ip, op;
    if !ok {
      return;
    }
    ghost var m1 := mem[..];
    MatchStays(m0, m1, p, ip, v, known, op);
    ok, op', matchCode := EndSequence(mem, p, op, o, anchor, ip, v, refDelta, lowLimit, known, lits);
    ghost var m2 := mem[..];
    SameOutsideCompose(m0, m1, m2, op, op, hi);
    if !ok {
      return;
    }
    q := Sequence(lits, ip - v, matchCode + MINMATCH);
    EmittedMore(m0, m2, p.dst, op, hi, qs, q);
    SequenceCost(anchor - p.src, q);
    ip' := ip + MINMATCH + matchCode;
  }

  /** Literals written in front of a match do not change it. */
  lemma MatchStays(m0: seq<byte>, m1: seq<byte>, p: Params, ip: nat, v: int, known: nat, op: nat)
    requires p.Valid(|m0|) && p.dst <= op && SameOutside(m0, m1, op, p.dst + p.OutRoom()) && p.src <= ip <= p.Mflimit()
    requires Candidate(m0, p, ip, v) && Grounded(m0, p, ip, v, known)
    ensures |m1| == |m0| && p.Text(m1) == p.Text(m0) && Grounded(m1, p, ip, v, known)
    ensures Whole(p, ip, v) ==> Candidate(m1, p, ip, v)
    ensures ToTheEnd(m0, p, ip, v) ==> ToTheEnd(m1, p, ip, v)
  {
    hide Candidate, Grounded, SameOutside, p.Text, Whole, Agree;
    SameLength(m0, m1, op, p.dst + p.OutRoom());
    TextKept(m0, m1, p, op);
    GroundedKept(m0, m1, p, ip, v, known, op);
    if Whole(p, ip, v) {
      CandidateKept(m0, m1, p, ip, v, op);
    }
    if ToTheEnd(m0, p, ip, v) {
      AgreeKept(m0, m1, p, op, ip, v, p.Matchlimit() - ip);
    }
  }

  lemma InReachBounds(p: Params, ip: nat, v: int, size: nat)
    requires InReach(p, ip, v, size)
    ensures 0 <= ip - v <= MAX_DISTANCE
  {
  }

  /** The part of a sequence before the match: token, literal length and literals, unless the
      output limit forbids them. */
  method BeginSequence(mem: array<byte>, p: Params, op: nat, anchor: nat, ip: nat, withLiterals: bool)
    returns (ok: bool, o: nat)
    requires p.Valid(mem.Length) && p.src <= anchor <= ip <= p.Mflimit() && (!withLiterals ==> ip == anchor)
    requires p.dst <= op && op - p.dst <= Cost(anchor - p.src)
    modifies mem
    ensures SameOutside(old(mem[..]), mem[..], op, p.dst + p.OutRoom())
    ensures ok ==> o == op + 1 + |LengthBytes(ip - anchor)| + (ip - anchor) <= p.dst + p.OutRoom()
    ensures ok ==> mem[op] == Token(ip - anchor, 0)
    ensures ok ==> At(mem[..], op + 1, LengthBytes(ip - anchor)) && At(mem[..], o - (ip - anchor), old(mem[anchor..ip]))
    ensures (!p.limited || p.maxOutputSize >= p.OutRoom() ==> ok) && (Roomy(p, op, anchor, ip) ==> ok)
  {
    hide Token, LengthBytes, SameOutside, At;
    ghost var m0, hi := mem[..], p.dst + p.OutRoom();
    SequenceRoom(p.n, anchor - p.src, ip - anchor, 0);
    LimitChecksPass(p.n, anchor - p.src, ip - anchor, 0);
    ok, o := true, op;
    if withLiterals {
      if p.limited && op + 1 + (ip - anchor) + (2 + 1 + LASTLITERALS) + (ip - anchor) / 255 > p.dst + p.maxOutputSize {
        SameOutsideRefl(m0, op, hi);
        return false, op;
      }
      o := WriteLiterals(mem, op, anchor, ip, hi);
    } else {
      assert mem[anchor..ip] == [];
      o := WriteNoLiterals(mem, op, hi);
    }
  }

  /** The match of a sequence: counted, then written behind the literals. */
  method EndSequence(mem: array<byte>, p: Params, op: nat, o: nat, anchor: nat, ip: nat, v: int,
                     refDelta: int, lowLimit: int, ghost known: nat, ghost lits: seq<byte>)
    returns (ok: bool, op': nat, matchCode: nat)
    requires p.Valid(mem.Length) && Grounded(mem[..], p, ip, v, known) && p.src <= anchor <= ip <= p.Mflimit()
    requires Whole(p, ip, v) ==> Candidate(mem[..], p, ip, v)
    requires p.Addr(v) == v + refDelta
    requires p.dict == UsingExtDict && v < p.src ==> lowLimit == p.dictionary
    requires p.dict == UsingExtDict && v >= p.src ==> lowLimit == p.src
    requires p.dst <= op && op - p.dst <= Cost(anchor - p.src) && |lits| == ip - anchor
    requires o == op + 1 + |LengthBytes(|lits|)| + |lits| && o <= mem.Length && mem[op] == Token(|lits|, 0)
    requires At(mem[..], op + 1, LengthBytes(|lits|)) && At(mem[..], o - |lits|, lits)
    modifies mem
    ensures SameOutside(old(mem[..]), mem[..], op, p.dst + p.OutRoom())
    ensures ip + MINMATCH + matchCode <= p.Matchlimit() && known <= MINMATCH + matchCode
    ensures ok ==> At(mem[..], op, EncodeSequence(Sequence(lits, ip - v, matchCode + MINMATCH)))
    ensures ok ==> op' == op + |EncodeSequence(Sequence(lits, ip - v, matchCode + MINMATCH))|
    ensures Whole(p, ip, v) ==> RealMatch(old(p.Text(mem[..])), ip - p.Lo(), v - p.Lo(), matchCode + MINMATCH)
    ensures (!p.limited || p.maxOutputSize >= p.OutRoom() ==> ok) && (Roomy(p, op, anchor, ip) ==> ok)
    ensures Straddling(p, v) ==> matchCode == 0
    ensures ToTheEnd(old(mem[..]), p, ip, v) ==> ip + MINMATCH + matchCode == p.Matchlimit()
  {
    hide Candidate, EncodeSequence, Token, LengthBytes, RealMatch, SameOutside, p.Text, Repeats, At, p.Addr, Agree,
         Straddling;
    ghost var m0, hi := mem[..], p.dst + p.OutRoom();
    op' := op;
    LengthBytesLength(|lits|);
    matchCode := MatchLength(mem, p, ip, v, refDelta, lowLimit, known);
    if Whole(p, ip, v) {
      RepeatsIsReal(m0, p, ip, v, MINMATCH + matchCode);
    }
    SequenceRoom(p.n, anchor - p.src, ip - anchor, matchCode);
    LimitChecksPass(p.n, anchor - p.src, ip - anchor, matchCode);
    ok := !(p.limited && o + 2 + (1 + LASTLITERALS) + matchCode / 256 > p.dst + p.maxOutputSize);
    if ok {
      op' := WriteMatch(mem, Prefilled, op, o, ip - v, matchCode, lits, hi);
    } else {
      SameOutsideRefl(m0, op, hi);
    }
  }

  /** The token of a sequence without literals. */
  method WriteNoLiterals(mem: array<byte>, token: nat, ghost hi: nat) returns (op: nat)
    requires token < hi <= mem.Length
    modifies mem
    ensures op == token + 1 + |LengthBytes(0)| == token + 1
    ensures mem[token] == Token(0, 0) && At(mem[..], token + 1, LengthBytes(0)) && At(mem[..], op, [])
    ensures SameOutside(old(mem[..]), mem[..], token, hi)
  {
    hide At, Token;
    mem[token] := 0;
    op := token + 1;
    NoLiterals(mem[..], op);
  }

  lemma NoLiterals(m: seq<byte>, i: nat)
    requires i <= |m|
    ensures LengthBytes(0) == [] && At(m, i, []) && Token(0, 0) == 0
  {
  }

  // ---------------------------------------------------------------- the whole call

  /** Everything up to `anchor` has been written; when the search is sound, it decodes. */
  ghost predicate Progress(m: seq<byte>, p: Params, op: nat, anchor: nat, qs: seq<Sequence>, sound: bool)
    requires p.Valid(|m|)
  {
    && p.src <= anchor <= p.Iend() && p.dst <= op && op - p.dst <= Cost(anchor - p.src)
    && Emitted(m, p.dst, op, qs)
    && (sound ==> Covers(p.History(m), p.Text(m), qs, anchor - p.Lo()))
  }

  lemma ProgressStart(m: seq<byte>, p: Params, sound: bool)
    requires p.Valid(|m|)
    ensures Progress(m, p, p.dst, p.src, [], sound)
  {
    EmittedNothing(m, p.dst);
    assert p.History(m) <= p.Text(m);
    CoversHistory(p.History(m), p.Text(m));
  }

  lemma ProgressStep(m0: seq<byte>, m1: seq<byte>, p: Params, op: nat, anchor: nat, qs: seq<Sequence>, sound: bool,
                     ip: nat, v: int, q: Sequence, op': nat, ip': nat)
    requires p.Valid(|m0|) && Progress(m0, p, op, anchor, qs, sound)
    requires SameOutside(m0, m1, op, p.dst + p.OutRoom())
    requires anchor <= ip && v <= ip && ip + MINMATCH <= ip' <= p.Matchlimit() && ip <= p.Mflimit()
    requires op' - p.dst <= Cost(ip' - p.src)
    requires p.dst <= op' && Emitted(m1, p.dst, op', qs + [q])
    requires q == Sequence(m0[anchor..ip], ip - v, ip' - ip)
    requires sound ==> RealMatch(p.Text(m0), ip - p.Lo(), v - p.Lo(), ip' - ip) && p.Lo() <= v
    ensures Progress(m1, p, op', ip', qs + [q], sound)
  {
    hide p.Text, p.History, Covers, RealMatch, Emitted, SameOutside, Cost;
    TextKept(m0, m1, p, op);
    SourceSlice(m0, p, anchor, ip);
    if sound {
      assert p.Text(m0)[anchor - p.Lo()..ip - p.Lo()] == q.literals;
      CoversMore(p.History(m0), p.Text(m0), qs, anchor - p.Lo(), ip - p.Lo(), v - p.Lo(), ip' - ip);
    }
  }

  /** Nothing tells the position two before `ip` from `ip`, up to where matches end. */
  ghost predicate Alike(m: seq<byte>, p: Params, ip: nat)
    requires p.Readable(|m|)
  {
    && p.src + 2 <= ip <= p.Mflimit() && HashPosition(m, ip - 2, p.tableType) == HashPosition(m, ip, p.tableType)
    && ToTheEnd(m, p, ip, ip - 2)
  }

  lemma AlikeFacts(m: seq<byte>, p: Params, ip: nat)
    requires p.Readable(|m|) && Alike(m, p, ip)
    ensures HashPosition(m, ip - 2, p.tableType) == HashPosition(m, ip, p.tableType)
    ensures ip <= p.Mflimit() && p.Lo() <= ip - 2 && p.Addr(ip - 2) == ip - 2 && Agree(m, ip, ip - 2, 4) && ToTheEnd(m, p, ip, ip - 2)
  {
    hide HashPosition;
  }

  /** Tries the position right after a match. */
  method TestNextPosition(mem: array<byte>, table: array<nat>, p: Params, ip: nat) returns (ok: bool, v: int)
    requires p.Readable(mem.Length) && table.Length == TableSize(p.tableType)
    requires p.src + MINMATCH <= ip <= p.Mflimit() && Below(table[..], ip - p.Base())
    modifies table
    ensures OnlyNewPositions(old(table[..]), table[..], p) && Below(table[..], ip + 1 - p.Base())
    ensures ok ==> Candidate(mem[..], p, ip, v)
    ensures ok && Sound(p, old(table[..])) ==> Whole(p, ip, v)
    ensures Alike(mem[..], p, ip) ==> ok && v == ip - 2
  {
    hide Candidate, OnlyNewPositions, HashPosition, ClearOfDictEnd, Alike, Agree;
    ghost var t0 := table[..];
    if Alike(mem[..], p, ip) {
      AlikeFacts(mem[..], p, ip);
    }
    PutPosition(mem, table, p, ip - 2);
    ghost var t1 := table[..];
    var h := HashPosition(mem[..], ip, p.tableType);
    v := p.Base() + table[h];
    PutOnHash(table, p, h, ip);
    OnlyNewPositionsCompose(t0, t1, table[..], p);
    ok := Accept(mem, p, ip, v);
    if ok && Sound(p, t0) && p.dict == UsingExtDict && v < p.src {
      CandidateInReach(mem[..], p, ip, v);
      ClearCandidate(t0, t1, p, h, v);
    }
  }

  /** The longest source that ends before a second match could begin, if the first begins behind
      its first byte. */
  const SHORT := MFLIMIT + MINMATCH

  /** A found match that is the only one of a short source: in the source itself, or over the
      whole of a tiny dictionary. */
  predicate OneShort(p: Params, start: nat, v0: int) {
    && p.n <= SHORT && p.dict == UsingExtDict && p.src < start
    && (p.src <= v0 < start || (v0 == p.Lo() && Straddling(p, v0)))
  }

  /** A match over the whole of a tiny dictionary, right behind which nothing but the repetition
      of one byte follows; and room for both matches. */
  ghost predicate TwoCheap(m: seq<byte>, p: Params, op: nat, anchor: nat, start: nat, v0: int)
    requires p.Readable(|m|) && anchor <= start <= p.Mflimit()
  {
    && v0 == p.Lo() && Straddling(p, v0) && start + MINMATCH <= p.Mflimit() && Roomy(p, op, anchor, start)
    && Alike(m, p, start + MINMATCH)
    && Roomy(p, op + SequenceSize(start - anchor, MINMATCH), start + MINMATCH, start + MINMATCH)
  }

  lemma AlikeKept(m0: seq<byte>, m1: seq<byte>, p: Params, ip: nat)
    requires p.Valid(|m0|) && SameOutside(m0, m1, p.dst, p.dst + p.OutRoom()) && Alike(m0, p, ip)
    ensures |m1| == |m0| && Alike(m1, p, ip)
  {
    hide HashPosition, SameOutside, Agree;
    SamePlace(m0, m1, p, ip - 2);
    SamePlace(m0, m1, p, ip);
    AgreeKept(m0, m1, p, p.dst, ip, ip - 2, p.Matchlimit() - ip);
  }

  /** Hashes of the source do not depend on the output. */
  lemma SamePlace(m0: seq<byte>, m1: seq<byte>, p: Params, ip: nat)
    requires p.Valid(|m0|) && SameOutside(m0, m1, p.dst, p.dst + p.OutRoom()) && p.src <= ip <= p.Mflimit()
    ensures |m1| == |m0| && HashPosition(m1, ip, p.tableType) == HashPosition(m0, ip, p.tableType)
  {
    hide Hash4, Hash5;
    SameWord(m0, ip, m1, ip, 8);
    SameWord(m0, ip, m1, ip, 4);
  }

  /** The sequences from one found match to the next failing one: the match itself, then any
      matches that follow it directly. */
  method MatchChain(mem: array<byte>, table: array<nat>, p: Params, op: nat, anchor: nat, start: nat, v0: int,
                    ghost qs: seq<Sequence>, ghost sound: bool)
    returns (ok: bool, op': nat, ip: nat, ghost qs': seq<Sequence>)
    requires p.Valid(mem.Length) && table.Length == TableSize(p.tableType)
    requires sound ==> Sound(p, table[..]) || (p.n <= SHORT && p.dict == UsingExtDict && p.src <= v0 < start)
    requires p.src <= anchor <= start <= p.Mflimit() && Candidate(mem[..], p, start, v0)
    requires Below(table[..], start + 1 - p.Base()) && (sound ==> Whole(p, start, v0))
    requires Progress(mem[..], p, op, anchor, qs, sound)
    modifies mem, table
    ensures SameOutside(old(mem[..]), mem[..], p.dst, p.dst + p.OutRoom())
    ensures OnlyNewPositions(old(table[..]), table[..], p)
    ensures ok ==> start < ip <= p.Matchlimit() && Progress(mem[..], p, op', ip, qs', sound)
    ensures ok && ip <= p.Mflimit() ==> Below(table[..], ip + 1 - p.Base())
    ensures ok ==> qs < qs' && qs'[|qs|].offset == start - v0
    ensures ok && v0 == start ==> qs'[|qs|].literals == []
    ensures ok && p.Lo() == v0 < p.src ==> qs'[|qs|].literals == old(mem[anchor..start])
    ensures !p.limited || p.maxOutputSize >= p.OutRoom() ==> ok
    ensures v0 == start && Roomy(p, op, anchor, anchor) ==> ok
    ensures ok && v0 == start ==> ip == p.Matchlimit() && op' == op + SequenceSize(0, ip - anchor)
    ensures ok && OneShort(p, start, v0) ==> ip > p.Mflimit()
    ensures OneShort(p, start, v0) && Straddling(p, v0) && Roomy(p, op, anchor, start) ==> ok
    ensures ok && OneShort(p, start, v0) && Straddling(p, v0) ==>
      ip == start + MINMATCH && op' == op + SequenceSize(start - anchor, MINMATCH)
    ensures TwoCheap(old(mem[..]), p, op, anchor, start, v0) ==>
      ok && ip == p.Matchlimit() && op' == op + SequenceSize(start - anchor, MINMATCH) + SequenceSize(0, ip - start - MINMATCH)
  {
    hide Candidate, Grounded, OnlyNewPositions, Progress, SameOutside, Sound, Whole, Roomy, SequenceSize, Alike;
    ghost var m0 := mem[..];
    ghost var q;
    ok, op', ip, q := FoundMatch(mem, p, op, anchor, start, v0, qs, sound);
    ghost var m1 := mem[..];
    qs' := qs + [q];
    OnlyNewPositionsRefl(table[..], p);
    if TwoCheap(m0, p, op, anchor, start, v0) {
      AlikeKept(m0, m1, p, ip);
    }
    if ok {
      ok, op', ip, qs' := FollowingMatches(mem, table, p, op', ip, qs', sound);
      SameOutsideCompose(m0, m1, mem[..], p.dst, p.dst, p.dst + p.OutRoom());
    }
  }

  lemma SelfToTheEnd(m: seq<byte>, p: Params, ip: nat)
    requires p.Readable(|m|) && p.src <= ip <= p.Mflimit()
    ensures ToTheEnd(m, p, ip, ip)
  {
  }

  /** The match the search has found, extended backwards. */
  method FoundMatch(mem: array<byte>, p: Params, op: nat, anchor: nat, start: nat, v0: int,
                    ghost qs: seq<Sequence>, ghost sound: bool)
    returns (ok: bool, op': nat, ip: nat, ghost q: Sequence)
    requires p.Valid(mem.Length) && p.src <= anchor <= start <= p.Mflimit() && Candidate(mem[..], p, start, v0)
    requires (sound ==> Whole(p, start, v0)) && Progress(mem[..], p, op, anchor, qs, sound)
    modifies mem
    ensures SameOutside(old(mem[..]), mem[..], p.dst, p.dst + p.OutRoom())
    ensures ok ==> start < ip <= p.Matchlimit() && Progress(mem[..], p, op', ip, qs + [q], sound)
    ensures ok ==> p.src + MINMATCH <= ip && q.offset == start - v0
    ensures ok && v0 == start ==> q.literals == []
    ensures ok && p.Lo() == v0 < p.src ==> q.literals == old(mem[anchor..start])
    ensures !p.limited || p.maxOutputSize >= p.OutRoom() ==> ok
    ensures v0 == start && Roomy(p, op, anchor, anchor) ==> ok
    ensures ok && v0 == start ==> ip == p.Matchlimit() && op' == op + SequenceSize(0, ip - anchor)
    ensures p.Lo() == v0 < p.src && Roomy(p, op, anchor, start) ==> ok
    ensures ok && p.Lo() == v0 && Straddling(p, v0) ==> ip == start + MINMATCH && op' == op + SequenceSize(start - anchor, MINMATCH)
    ensures ok && p.dict == UsingExtDict && p.src <= v0 < start ==> ip >= p.src + 1 + MINMATCH
  {
    hide Candidate, Grounded, SameOutside, Whole, Emitted, Covers, p.Text, p.History, Roomy, SequenceSize, ToTheEnd;
    CandidateInReach(mem[..], p, start, v0);
    var refDelta, lowLimit := Locate(p, v0);
    var v;
    ip, v := CatchUp(mem, p, anchor, start, v0, refDelta, lowLimit);
    if v == ip {
      SelfToTheEnd(mem[..], p, ip);
    }
    ok, op', ip, q := EmitAndStep(mem, p, op, anchor, ip, v, refDelta, lowLimit, true, start - ip + 1, qs, sound);
  }

  /** The matches that follow a match without literals in between. */
  method FollowingMatches(mem: array<byte>, table: array<nat>, p: Params, op: nat, ip0: nat,
                          ghost qs: seq<Sequence>, ghost sound: bool)
    returns (ok: bool, op': nat, ip: nat, ghost qs': seq<Sequence>)
    requires p.Valid(mem.Length) && table.Length == TableSize(p.tableType)
    requires sound ==> Sound(p, table[..]) || ip0 > p.Mflimit()
    requires p.src + MINMATCH <= ip0 <= p.Matchlimit() && Below(table[..], ip0 - p.Base())
    requires Progress(mem[..], p, op, ip0, qs, sound)
    modifies mem, table
    ensures SameOutside(old(mem[..]), mem[..], p.dst, p.dst + p.OutRoom())
    ensures OnlyNewPositions(old(table[..]), table[..], p)
    ensures ok ==> ip0 <= ip <= p.Matchlimit() && Progress(mem[..], p, op', ip, qs', sound) && qs <= qs'
    ensures ok && ip <= p.Mflimit() ==> Below(table[..], ip + 1 - p.Base())
    ensures !p.limited || p.maxOutputSize >= p.OutRoom() ==> ok
    ensures ip0 > p.Mflimit() ==> ok && ip == ip0 && op' == op
    ensures Alike(old(mem[..]), p, ip0) && Roomy(p, op, ip0, ip0) ==>
      ok && ip == p.Matchlimit() && op' == op + SequenceSize(0, ip - ip0)
  {
    hide Candidate, Grounded, OnlyNewPositions, Progress, SameOutside, Sound, Whole, Alike, Roomy, SequenceSize, ToTheEnd,
      p.Addr, Straddling, Below, ClearOfDictEnd, Agree, HashPosition;
    ghost var m0, t0 := mem[..], table[..];
    ghost var alike := ip0 <= p.Mflimit() && Alike(m0, p, ip0) && Roomy(p, op, ip0, ip0);
    SameOutsideRefl(m0, p.dst, p.dst + p.OutRoom());
    OnlyNewPositionsRefl(t0, p);
    if Alike(m0, p, ip0) {
      AlikeFacts(m0, p, ip0);
    }
    ok, op', ip, qs' := true, op, ip0, qs;
    while ok && ip <= p.Mflimit()
      invariant ok ==> ip0 <= ip <= p.Matchlimit() && Progress(mem[..], p, op', ip, qs', sound) && qs <= qs'
      invariant ok ==> Below(table[..], ip - p.Base())
      invariant SameOutside(m0, mem[..], p.dst, p.dst + p.OutRoom()) && OnlyNewPositions(t0, table[..], p)
      invariant !p.limited || p.maxOutputSize >= p.OutRoom() ==> ok
      invariant ip0 > p.Mflimit() ==> ok && ip == ip0 && op' == op
      invariant alike ==>
        || (ok && ip == ip0 && op' == op && mem[..] == m0)
        || (ok && ip == p.Matchlimit() && op' == op + SequenceSize(0, ip - ip0))
      decreases ok, p.Iend() - ip
    {
      ghost var m1, t1 := mem[..], table[..];
      if sound {
        SoundKept(t0, t1, p);
      }
      var again;
      again, ok, op', ip, qs' := NextMatch(mem, table, p, op', ip, qs', sound);
      OnlyNewPositionsCompose(t0, t1, table[..], p);
      SameOutsideCompose(m0, m1, mem[..], p.dst, p.dst, p.dst + p.OutRoom());
      if !again {
        return;
      }
    }
  }

  lemma BelowMore(table: seq<nat>, lim: int)
    requires Below(table, lim)
    ensures forall lim' :: lim <= lim' ==> Below(table, lim')
  {
  }

  /** One of them, if there is one. */
  method NextMatch(mem: array<byte>, table: array<nat>, p: Params, op: nat, ip: nat, ghost qs: seq<Sequence>, ghost sound: bool)
    returns (again: bool, ok: bool, op': nat, ip': nat, ghost qs': seq<Sequence>)
    requires p.Valid(mem.Length) && table.Length == TableSize(p.tableType) && (sound ==> Sound(p, table[..]))
    requires p.src + MINMATCH <= ip <= p.Mflimit() && Below(table[..], ip - p.Base())
    requires Progress(mem[..], p, op, ip, qs, sound)
    modifies mem, table
    ensures SameOutside(old(mem[..]), mem[..], p.dst, p.dst + p.OutRoom())
    ensures OnlyNewPositions(old(table[..]), table[..], p)
    ensures !again ==> ok && ip' == ip && op' == op && qs' == qs && mem[..] == old(mem[..])
    ensures ok ==> ip <= ip' <= p.Matchlimit() && (again ==> ip < ip') && Progress(mem[..], p, op', ip', qs', sound) && qs <= qs'
    ensures ok ==> Below(table[..], ip' + (if again then 0 else 1) - p.Base())
    ensures !p.limited || p.maxOutputSize >= p.OutRoom() ==> ok
    ensures Alike(old(mem[..]), p, ip) && Roomy(p, op, ip, ip) ==>
      again && ok && ip' == p.Matchlimit() && op' == op + SequenceSize(0, ip' - ip)
  {
    hide Candidate, Grounded, OnlyNewPositions, Progress, SameOutside, Sound, Whole, Alike, Roomy, SequenceSize, ToTheEnd,
      p.Addr, Straddling, Below, ClearOfDictEnd, Agree, HashPosition;
    ghost var m0 := mem[..];
    SameOutsideRefl(m0, p.dst, p.dst + p.OutRoom());
    if Alike(m0, p, ip) {
      AlikeFacts(m0, p, ip);
    }
    var v;
    again, v := TestNextPosition(mem, table, p, ip);
    ok, op', ip', qs' := true, op, ip, qs;
    if again {
      var refDelta, lowLimit := Locate(p, v);
      CandidateGrounded(mem[..], p, ip, v);
      ghost var q;
      BelowMore(table[..], ip + 1 - p.Base());
      ok, op', ip', q := EmitAndStep(mem, p, op, ip, ip, v, refDelta, lowLimit, false, 1, qs, sound);
      qs' := qs + [q];
    }
  }

  /** EmitSequence, with what it means for the progress of the call. */
  method EmitAndStep(mem: array<byte>, p: Params, op: nat, anchor: nat, ip: nat, v: int,
                     refDelta: int, lowLimit: int, withLiterals: bool, ghost known: nat, ghost qs: seq<Sequence>, ghost sound: bool)
    returns (ok: bool, op': nat, ip': nat, ghost q: Sequence)
    requires p.Valid(mem.Length) && Candidate(mem[..], p, ip, v) && Grounded(mem[..], p, ip, v, known)
    requires sound ==> Whole(p, ip, v)
    requires p.src <= anchor <= ip <= p.Mflimit() && (!withLiterals ==> ip == anchor)
    requires p.Addr(v) == v + refDelta
    requires p.dict == UsingExtDict && v < p.src ==> lowLimit == p.dictionary
    requires p.dict == UsingExtDict && v >= p.src ==> lowLimit == p.src
    requires Progress(mem[..], p, op, anchor, qs, sound)
    modifies mem
    ensures SameOutside(old(mem[..]), mem[..], p.dst, p.dst + p.OutRoom())
    ensures ok ==> ip + MINMATCH <= ip' <= p.Matchlimit() && ip + known <= ip' && Progress(mem[..], p, op', ip', qs + [q], sound)
    ensures ok ==> q.literals == old(mem[anchor..ip]) && q.offset == ip - v && op' == op + SequenceSize(ip - anchor, ip' - ip)
    ensures !p.limited || p.maxOutputSize >= p.OutRoom() ==> ok
    ensures Roomy(p, op, anchor, ip) ==> ok
    ensures ok && Straddling(p, v) ==> ip' == ip + MINMATCH
    ensures ok && ToTheEnd(old(mem[..]), p, ip, v) ==> ip' == p.Matchlimit()
  {
    hide Candidate, Grounded, Emitted, RealMatch, Covers, SameOutside, p.Text, p.History, Whole, p.Addr, Roomy,
         Straddling, ToTheEnd, EncodeSequence;
    CandidateInReach(mem[..], p, ip, v);
    ghost var m0 := mem[..];
    ok, op', ip', q := EmitSequence(mem, p, op, anchor, ip, v, refDelta, lowLimit, withLiterals, known, qs);
    SameOutsideRefl(m0, p.dst, p.dst + p.OutRoom());
    SameOutsideCompose(m0, m0, mem[..], p.dst, op, p.dst + p.OutRoom());
    if ok {
      ProgressStep(m0, mem[..], p, op, anchor, qs, sound, ip, v, q, op', ip');
      SequenceLength(q.literals, q.offset, q.matchLength);
    }
  }

  /** What a finished block is: the encoding of `qs` and the rest of the source as literals,
      which decodes to the text and keeps the parsing restrictions when the search was sound. */
  ghost predicate BlockOf(m: seq<byte>, p: Params, r: nat, h: seq<byte>, text: seq<byte>, qs: seq<Sequence>, sound: bool)
    requires p.Valid(|m|) && r <= p.OutRoom()
  {
    && AllWellFormed(qs)
    && (exists a: nat | a <= |text| :: m[p.dst..p.dst + r] == EncodeBlock(qs, text[a..]))
    && (sound ==>
          && Decode(m[p.dst..p.dst + r], 0, h) == Some(text)
          && Restricted(m[p.dst..p.dst + r], 0, |h|, |text|)
          && OffsetsLegal(qs))
  }

  /** The literals behind the last match. */
  method EmitLastLiterals(mem: array<byte>, p: Params, op: nat, anchor: nat, ghost qs: seq<Sequence>, ghost sound: bool)
    returns (r: nat)
    requires p.Valid(mem.Length) && Progress(mem[..], p, op, anchor, qs, sound)
    modifies mem
    ensures SameOutside(old(mem[..]), mem[..], op, p.dst + p.OutRoom())
    ensures r <= p.OutRoom() && (p.limited ==> r <= p.maxOutputSize)
    ensures r > 0 ==> BlockOf(mem[..], p, r, old(p.History(mem[..])), old(p.Text(mem[..])), qs, sound)
    ensures !p.limited || p.maxOutputSize >= p.OutRoom() ==> r > 0
    ensures p.limited ==>
      (r > 0 <==> (op - p.dst) + 1 + (p.Iend() - anchor) + (p.Iend() - anchor + 240) / 255 <= p.maxOutputSize)
  {
    hide EncodeLast, Covers, Emitted, SameOutside, p.Text, p.History, At, EncodeAll, Decode, Restricted, OffsetsLegal;
    ghost var m0, hi := mem[..], p.dst + p.OutRoom();
    var lastRun := p.Iend() - anchor;
    ghost var lits := m0[anchor..p.Iend()];
    SourceSlice(m0, p, anchor, p.Iend());
    LastCost(p.n, anchor - p.src, lits);
    if p.limited && (op - p.dst) + lastRun + 1 + (lastRun + 255 - 15) / 255 > p.maxOutputSize {
      SameOutsideRefl(m0, op, hi);
      return 0;
    }
    var op' := WriteLastLiterals(mem, op, anchor, lastRun);
    assert m0[anchor..anchor + lastRun] == lits;
    SameOutsideWiden(m0, mem[..], op, op', op, hi);
    BlockFinished(m0, mem[..], p, op, op', anchor, qs, sound);
    r := op' - p.dst;
  }

  lemma BlockFinished(m0: seq<byte>, m1: seq<byte>, p: Params, op: nat, op': nat, anchor: nat,
                      qs: seq<Sequence>, sound: bool)
    requires p.Valid(|m0|) && Progress(m0, p, op, anchor, qs, sound)
    requires SameOutside(m0, m1, op, p.dst + p.OutRoom())
    requires m0[anchor..p.Iend()] == p.Text(m0)[anchor - p.Lo()..]
    requires op' == op + |EncodeLast(m0[anchor..p.Iend()])| <= p.dst + p.OutRoom()
    requires At(m1, op, EncodeLast(m0[anchor..p.Iend()]))
    ensures BlockOf(m1, p, op' - p.dst, p.History(m0), p.Text(m0), qs, sound)
  {
    hide EncodeLast, p.Text, p.History, Expand, Decode, Restricted, KeepsClear, Produced;
    var hi, text, a := p.dst + p.OutRoom(), p.Text(m0), anchor - p.Lo();
    BlockBytes(m0, m1, p.dst, op, op', hi, qs, text[a..]);
    if sound {
      FinishedBlock(m0, m1, p.dst, op, op', hi, p.History(m0), text, qs, a);
    }
  }

  lemma BlockBytes(m0: seq<byte>, m1: seq<byte>, dst: nat, op: nat, op': nat, hi: nat, qs: seq<Sequence>, last: seq<byte>)
    requires Emitted(m0, dst, op, qs) && SameOutside(m0, m1, op, hi)
    requires op' == op + |EncodeLast(last)| && At(m1, op, EncodeLast(last))
    ensures op' <= |m1| && m1[dst..op'] == EncodeBlock(qs, last)
  {
    hide EncodeLast, EncodeAll;
    AtKept(m0, m1, op, hi, dst, EncodeAll(qs));
    AtJoin(m1, dst, EncodeAll(qs), EncodeLast(last));
  }

  /** LZ4_compress_generic for a source of supported size.  A positive result is the size of a
      block that consists of the sequences `qs` and some last literals; when the search is
      sound, every decoder that has at least this history turns it back into the source.  With
      the worst-case bound as room the call always succeeds. */
  method CompressGeneric(mem: array<byte>, table: array<nat>, p: Params) returns (r: nat, ghost qs: seq<Sequence>)
    requires p.Valid(mem.Length) && table.Length == TableSize(p.tableType)
    requires Below(table[..], p.First() + 1)
    modifies mem, table
    ensures SameOutside(old(mem[..]), mem[..], p.dst, p.dst + p.OutRoom())
    ensures OnlyNewPositions(old(table[..]), table[..], p)
    ensures r <= p.OutRoom() && (p.limited ==> r <= p.maxOutputSize)
    ensures !p.limited || p.maxOutputSize >= p.OutRoom() ==> r > 0
    ensures r > 0 ==>
      BlockOf(mem[..], p, r, old(p.History(mem[..])), old(p.Text(mem[..])), qs, Dependable(p, old(table[..])))
    ensures r > 0 && p.n >= MFLIMIT + 1 ==> FaultyStart(old(mem[..]), old(table[..]), p, qs)
    ensures Hooked(old(mem[..]), old(table[..]), p) ==> r > 0
  {
    hide OnlyNewPositions, Covers, SameOutside, p.Text, p.History, Sound, BlockOf, Candidate, FaultyStart, Emitted,
         Hooked, Brief;
    ghost var m0, t0, hi := mem[..], table[..], p.dst + p.OutRoom();
    ghost var sound := Dependable(p, t0);
    SameOutsideRefl(m0, p.dst, hi);
    OnlyNewPositionsRefl(t0, p);
    var op, anchor := p.dst, p.src;
    qs := [];
    ProgressStart(m0, p, sound);
    if p.n >= MFLIMIT + 1 {
      var ok;
      ghost var whole;
      ok, op, anchor, qs, whole := CompressSequences(mem, table, p, Sound(p, t0));
      if !ok {
        return 0, qs;
      }
      TextKept(m0, mem[..], p, p.dst);
      if p.n == MFLIMIT + 1 {
        ProgressStart(mem[..], p, true);
      }
      sound := whole || p.n == MFLIMIT + 1;
    } else {
      NotHooked(m0, t0, p);
    }
    ghost var m1 := mem[..];
    r := EmitLastLiterals(mem, p, op, anchor, qs, sound);
    SameOutsideCompose(m0, m1, mem[..], p.dst, op, hi);
    if r > 0 {
      BlockOfLess(mem[..], p, r, p.History(m0), p.Text(m0), qs, sound, Dependable(p, t0));
    }
  }

  /** When the block can be relied on: a sound search; a source too short for one; or a source so
      short that a match over the end of a tiny dictionary would not make the block smaller. */
  ghost predicate Dependable(p: Params, table: seq<nat>) {
    || Sound(p, table) || p.n <= MFLIMIT + 1
    || (Brief(p, table) && p.Advances() && p.limited && p.maxOutputSize < p.n)
  }

  /** A short source behind a tiny dictionary that is all the stream has seen. */
  ghost predicate Brief(p: Params, table: seq<nat>) {
    && p.n <= SHORT && p.dict == UsingExtDict && 1 <= p.dictSize <= 3 && p.currentOffset == p.dictSize
    && forall i :: 0 <= i < |table| ==> table[i] == 0
  }

  lemma BlockOfLess(m: seq<byte>, p: Params, r: nat, h: seq<byte>, text: seq<byte>, qs: seq<Sequence>, sound: bool, less: bool)
    requires p.Valid(|m|) && r <= p.OutRoom() && BlockOf(m, p, r, h, text, qs, sound) && (less ==> sound)
    ensures BlockOf(m, p, r, h, text, qs, less)
  {
    hide Decode, Restricted, EncodeBlock;
  }

  /** The first sequence of a block. */
  ghost predicate Begins(qs: seq<Sequence>, literals: seq<byte>, offset: int) {
    qs != [] && qs[0].literals == literals && qs[0].offset == offset
  }

  /** A call whose search counter starts at zero, on a source whose first three four-byte groups
      differ, and whose second and third byte are new: the search will find a position as a match
      of itself. */
  ghost predicate Stuck(m: seq<byte>, p: Params)
    requires p.Valid(|m|)
  {
    && !p.Advances() && p.n > MFLIMIT + 1 && m[p.src + 1] !in p.History(m) && m[p.src + 2] !in p.History(m)
    && !Agree(m, p.src + 1, p.src, 4) && !Agree(m, p.src + 2, p.src, 4) && !Agree(m, p.src + 2, p.src + 1, 4)
  }

  lemma StuckOnItself(m: seq<byte>, p: Params, ip: nat, v: int)
    requires p.Valid(|m|) && Stuck(m, p) && Candidate(m, p, ip, v) && p.src < ip <= p.src + 2
    ensures v == ip
  {
    hide p.History;
    OldByte(m, p, ip, v);
  }

  lemma OldByte(m: seq<byte>, p: Params, ip: nat, v: int)
    requires p.Valid(|m|) && Candidate(m, p, ip, v)
    ensures v < p.src ==> m[ip] in p.History(m)
  {
    hide p.History;
    if v < p.src {
      HistoryAt(m, p, v);
      assert m[ip] == m[ip + (p.Addr(v) - ip)] == p.History(m)[v - p.Lo()];
    }
  }

  /** A call with a fresh hash table and an external dictionary of one to three bytes, all the
      stream has seen, in whose place memory continues with bytes the source repeats. */
  ghost predicate Straddles(m: seq<byte>, table: seq<nat>, p: Params)
    requires p.Valid(|m|) && |table| == TableSize(p.tableType)
  {
    && p.dict == UsingExtDict && 1 <= p.dictSize <= 3 && p.currentOffset == p.dictSize && p.n > MFLIMIT + 1
    && (forall i :: 0 <= i < |table| ==> table[i] == 0)
    && HashPosition(m, p.src, p.tableType) != HashPosition(m, p.src + 1, p.tableType)
    && Agree(m, p.src + 1, p.dictionary, 4)
  }

  /** What is known of the first sequence in the two faulty situations. */
  ghost predicate FaultyStart(m: seq<byte>, table: seq<nat>, p: Params, qs: seq<Sequence>)
    requires p.Valid(|m|) && |table| == TableSize(p.tableType)
  {
    && (Stuck(m, p) ==> Begins(qs, [], 0))
    && (Straddles(m, table, p) ==> Begins(qs, [m[p.src]], p.dictSize + 1))
  }

  lemma StraddlingFirstTry(m: seq<byte>, t0: seq<nat>, t1: seq<nat>, p: Params)
    requires p.Valid(|m|) && |t0| == |t1| == TableSize(p.tableType) && Straddles(m, t0, p)
    requires forall i :: 0 <= i < |t1| && i != HashPosition(m, p.src, p.tableType) ==> t1[i] == t0[i]
    ensures FirstTry(m, t1, p, p.src + 1)
    ensures p.Base() + t1[HashPosition(m, p.src + 1, p.tableType)] == p.Lo() < p.src
  {
    hide HashPosition;
  }

  /** What the first search of the two faulty situations finds. */
  ghost predicate FirstFound(m: seq<byte>, table: seq<nat>, p: Params, found: bool, at: nat, v: int)
    requires p.Valid(|m|) && |table| == TableSize(p.tableType)
  {
    && (Stuck(m, p) ==> found && v == at <= p.src + 2)
    && (Straddles(m, table, p) ==> found && at == p.src + 1 && v == p.Lo() < p.src)
  }

  lemma FirstFind(m: seq<byte>, t0: seq<nat>, t1: seq<nat>, p: Params, op: nat, anchor: nat, ip: nat, qs: seq<Sequence>,
                  found: bool, at: nat, v: int)
    requires p.Valid(|m|) && |t0| == |t1| == TableSize(p.tableType) && p.n > MFLIMIT && AtFirst(m, t0, t1, p, op, anchor, ip, qs)
    requires found ==> p.src < at <= p.Mflimit() && Candidate(m, p, at, v)
    requires FirstTry(m, t1, p, ip) ==> found && at == ip && v == p.Base() + t1[HashPosition(m, ip, p.tableType)]
    requires !p.Advances() && ip < p.Mflimit() ==> found && at <= ip + 1
    ensures FirstFound(m, t0, p, found, at, v)
  {
    hide HashPosition, Candidate, FirstTry, OnlyNewPositions;
    if Stuck(m, p) {
      StuckOnItself(m, p, at, v);
    }
    if Straddles(m, t0, p) {
      StraddlingFirstTry(m, t0, t1, p);
    }
  }

  lemma FaultyBegin(m: seq<byte>, t: seq<nat>, p: Params, at: nat, v: int, qs: seq<Sequence>)
    requires p.Valid(|m|) && |t| == TableSize(p.tableType) && FirstFound(m, t, p, true, at, v) && p.src <= at <= |m|
    requires [] < qs && qs[0].offset == at - v && (v == at ==> qs[0].literals == [])
    requires p.Lo() == v < p.src ==> qs[0].literals == m[p.src..at]
    ensures FaultyStart(m, t, p, qs)
  {
    hide Agree, HashPosition, p.History, p.FirstSearchNb;
    if Straddles(m, t, p) {
      assert m[p.src..p.src + 1] == [m[p.src]];
    }
  }

  /** A faulty situation in which the block is sure to fit: it is smaller than the source, or, if
      that is short, as large. */
  ghost predicate Hooked(m: seq<byte>, table: seq<nat>, p: Params)
    requires p.Valid(|m|) && |table| == TableSize(p.tableType)
  {
    || (Stuck(m, p) && p.maxOutputSize >= p.n - 1)
    || (Straddles(m, table, p) && p.n > SHORT && p.maxOutputSize >= p.n - 1
        && forall i :: p.src + 1 <= i < p.Iend() ==> m[i] == m[p.src + 1])
    || (Straddles(m, table, p) && p.n <= SHORT && p.maxOutputSize >= p.n)
  }

  lemma NotHooked(m: seq<byte>, t: seq<nat>, p: Params)
    requires p.Valid(|m|) && |t| == TableSize(p.tableType) && p.n <= MFLIMIT
    ensures !Hooked(m, t, p)
  {
  }

  /** The output is as small as it has to be for the last literals to fit, and no match can follow. */
  predicate Saves(p: Params, op: nat, anchor: nat) {
    p.Mflimit() < anchor <= p.Iend() && op + 1 + (p.Iend() - anchor) <= p.dst + p.maxOutputSize
  }

  /** Then the first search finds a match with which the source is all but used up, */
  lemma StuckIsCheap(p: Params)
    requires p.n > MFLIMIT + 1 && p.maxOutputSize >= p.n - 1
    ensures Roomy(p, p.dst, p.src, p.src) && Saves(p, p.dst + SequenceSize(0, p.n - LASTLITERALS), p.Matchlimit())
  {
  }

  /** or one behind which another such match lies. */
  lemma StraddleIsCheap(m: seq<byte>, t: seq<nat>, p: Params)
    requires p.Valid(|m|) && |t| == TableSize(p.tableType) && p.maxOutputSize >= p.n - 1 && p.n > SHORT
    requires Straddles(m, t, p) && forall i :: p.src + 1 <= i < p.Iend() ==> m[i] == m[p.src + 1]
    ensures TwoCheap(m, p, p.dst, p.src, p.src + 1, p.Lo())
    ensures Saves(p, p.dst + SequenceSize(1, MINMATCH) + SequenceSize(0, p.n - 1 - MINMATCH - LASTLITERALS), p.Matchlimit())
  {
    hide HashPosition, Alike;
    AlikeThere(m, p, p.src + 1 + MINMATCH);
  }

  /** A short source is used up by the first match. */
  lemma ShortIsCheap(m: seq<byte>, t: seq<nat>, p: Params)
    requires p.Valid(|m|) && |t| == TableSize(p.tableType) && p.n <= SHORT && p.maxOutputSize >= p.n && Straddles(m, t, p)
    ensures p.src + 1 <= p.Mflimit() && Roomy(p, p.dst, p.src, p.src + 1) && OneShort(p, p.src + 1, p.Lo()) && Straddling(p, p.Lo())
    ensures Saves(p, p.dst + SequenceSize(1, MINMATCH), p.src + 1 + MINMATCH)
  {
    hide HashPosition, Agree;
  }

  lemma AlikeThere(m: seq<byte>, p: Params, ip: nat)
    requires p.Readable(|m|) && p.src + 2 < ip <= p.Mflimit() && forall i :: p.src + 1 <= i < p.Iend() ==> m[i] == m[p.src + 1]
    ensures Alike(m, p, ip)
  {
    hide Hash4, Hash5, Word;
    SameWord(m, ip - 2, m, ip, 8);
    SameWord(m, ip - 2, m, ip, 4);
  }

  lemma FaultyStartKept(m: seq<byte>, t: seq<nat>, p: Params, qs: seq<Sequence>, qs': seq<Sequence>)
    requires p.Valid(|m|) && |t| == TableSize(p.tableType)
    requires FaultyStart(m, t, p, qs) && qs <= qs' && qs != []
    ensures FaultyStart(m, t, p, qs')
  {
  }

  /** Before the first search: nothing is written, and only the first position entered. */
  ghost predicate AtFirst(m: seq<byte>, t0: seq<nat>, t: seq<nat>, p: Params, op: nat, anchor: nat, ip: nat, qs: seq<Sequence>)
    requires p.Valid(|m|) && |t0| == |t| == TableSize(p.tableType) && p.n > MFLIMIT
  {
    && qs == [] && op == p.dst && anchor == p.src && ip == p.src + 1 && OnlyNewPositions(t0, t, p)
    && forall i :: 0 <= i < |t| && i != HashPosition(m, p.src, p.tableType) ==> t[i] == t0[i]
  }

  /** After the first round. */
  ghost predicate AfterFirst(m: seq<byte>, t: seq<nat>, p: Params, found: bool, ok: bool, op: nat, ip: nat, qs: seq<Sequence>, whole: bool)
    requires p.Valid(|m|) && |t| == TableSize(p.tableType)
  {
    && (ok ==> FaultyStart(m, t, p, qs))
    && (Hooked(m, t, p) ==> found && ok && Saves(p, op, ip))
    && (Brief(p, t) && p.Advances() && found && ok ==> ip > p.Mflimit() && (!whole ==> op + 1 - p.dst == ip - p.src))
  }

  /** One round: a search, and the chain of matches it leads to. */
  method Round(mem: array<byte>, table: array<nat>, p: Params, op: nat, anchor: nat, ip: nat,
               ghost qs: seq<Sequence>, ghost sound: bool, ghost whole: bool, ghost t0: seq<nat>)
    returns (found: bool, ok: bool, op': nat, ip': nat, ghost qs': seq<Sequence>, ghost whole': bool)
    requires p.Valid(mem.Length) && table.Length == |t0| == TableSize(p.tableType) && p.n >= MFLIMIT + 1
    requires p.src <= anchor < ip <= p.Mflimit() + 1 && Below(table[..], ip - p.Base()) && (sound ==> Sound(p, table[..]))
    requires Progress(mem[..], p, op, anchor, qs, whole) && (sound ==> whole)
    requires AtFirst(mem[..], t0, table[..], p, op, anchor, ip, qs) ==> whole == (sound || (Brief(p, t0) && p.Advances()))
    modifies mem, table
    ensures SameOutside(old(mem[..]), mem[..], p.dst, p.dst + p.OutRoom())
    ensures OnlyNewPositions(old(table[..]), table[..], p)
    ensures !found ==> mem[..] == old(mem[..]) && ok && qs' == qs
    ensures found && ok ==> ip < ip' <= p.Matchlimit() && Progress(mem[..], p, op', ip', qs', whole') && qs < qs'
    ensures found && ok && ip' <= p.Mflimit() ==> Below(table[..], ip' + 1 - p.Base())
    ensures (!p.limited || p.maxOutputSize >= p.OutRoom() ==> ok) && (sound ==> whole')
    ensures (whole' ==> sound || (Brief(p, t0) && p.Advances())) && (ip >= p.Mflimit() ==> !found)
    ensures if AtFirst(old(mem[..]), t0, old(table[..]), p, op, anchor, ip, qs) then
              AfterFirst(old(mem[..]), t0, p, found, ok, op', ip', qs', whole')
            else whole' == sound
  {
    hide OnlyNewPositions, Covers, SameOutside, p.Text, p.History, Sound, Candidate, Progress, Emitted, FirstFound,
         FaultyStart, FirstTry, HashPosition, Whole, Stuck, Straddles, Brief, Hooked, Roomy, TwoCheap, SequenceSize,
         Saves, FromTable, Straddling, OneShort, AtFirst, AfterFirst, Below, p.FirstSearchNb;
    ghost var m, t1 := mem[..], table[..];
    ghost var first := AtFirst(m, t0, t1, p, op, anchor, ip, qs);
    SameOutsideRefl(m, p.dst, p.dst + p.OutRoom());
    var at, v;
    found, at, v := FindMatch(mem, table, p, ip);
    ghost var t2 := table[..];
    ok, op', ip', qs', whole' := true, op, ip, qs, sound;
    NotFirst(m, t0, t1, p, op, anchor, ip, qs);
    if first {
      FirstFind(m, t0, t1, p, op, anchor, ip, qs, found, at, v);
    }
    if !found {
      if first {
        NoFault(m, t0, p, at, v, op, ip, sound);
      }
      return;
    }
    if sound {
      SoundKept(t1, t2, p);
    }
    whole' := sound || (first && Brief(p, t0) && p.Advances() && Whole(p, at, v));
    ProgressLess(m, p, op, anchor, qs, whole, whole');
    if first && Brief(p, t0) && p.Advances() {
      BriefFound(m, t0, t1, p, op, anchor, ip, qs, at, v);
    }
    ok, op', ip', qs' := MatchChain(mem, table, p, op, anchor, at, v, qs, whole');
    OnlyNewPositionsCompose(t1, t2, table[..], p);
    if first {
      FirstDone(m, t0, t1, p, op, anchor, ip, qs, at, v, ok, op', ip', qs', whole');
    }
  }

  /** The main loop: search, then a chain of matches, until the end of the searchable source.
      `whole` tells whether all matches found were. */
  method CompressSequences(mem: array<byte>, table: array<nat>, p: Params, ghost sound: bool)
    returns (ok: bool, op: nat, anchor: nat, ghost qs: seq<Sequence>, ghost whole: bool)
    requires p.Valid(mem.Length) && table.Length == TableSize(p.tableType) && p.n >= MFLIMIT + 1
    requires Below(table[..], p.First() + 1) && (sound ==> Sound(p, table[..]))
    modifies mem, table
    ensures SameOutside(old(mem[..]), mem[..], p.dst, p.dst + p.OutRoom())
    ensures OnlyNewPositions(old(table[..]), table[..], p)
    ensures ok ==> Progress(mem[..], p, op, anchor, qs, whole) && FaultyStart(old(mem[..]), old(table[..]), p, qs)
    ensures p.n == MFLIMIT + 1 ==> op == p.dst && anchor == p.src && qs == []
    ensures !p.limited || p.maxOutputSize >= p.OutRoom() ==> ok
    ensures (sound ==> whole) && (ok && Brief(p, old(table[..])) && p.Advances() && !whole ==> op + 1 - p.dst == anchor - p.src)
    ensures Hooked(old(mem[..]), old(table[..]), p) ==> ok && Saves(p, op, anchor)
  {
    hide OnlyNewPositions, Covers, SameOutside, p.Text, p.History, Sound, Candidate, Progress, Emitted, FaultyStart,
         HashPosition, Brief, Hooked, Saves, AtFirst, AfterFirst, p.FirstSearchNb;
    ghost var m0, t0, hi := mem[..], table[..], p.dst + p.OutRoom();
    SameOutsideRefl(m0, p.dst, hi);
    ok, op, anchor, qs, whole := true, p.dst, p.src, [], sound || (Brief(p, t0) && p.Advances());
    ProgressStart(m0, p, whole);
    PutPosition(mem, table, p, p.src);
    ghost var tp := table[..];
    BeforeFirst(m0, t0, tp, p);
    var ip := p.src + 1;
    while ip <= p.Mflimit() + 1
      invariant ok && p.src <= anchor < ip && Progress(mem[..], p, op, anchor, qs, whole)
      invariant ip <= p.Mflimit() + 1 ==> Below(table[..], ip - p.Base())
      invariant SameOutside(m0, mem[..], p.dst, hi) && OnlyNewPositions(t0, table[..], p) && (sound ==> whole)
      invariant if qs == [] then mem[..] == m0 && table[..] == tp && ip == p.src + 1 && anchor == p.src && op == p.dst
                                 && whole == (sound || (Brief(p, t0) && p.Advances()))
                else Later(m0, t0, p, op, anchor, ip, qs, whole, sound) && p.n > MFLIMIT + 1
      decreases p.Iend() - ip
    {
      ghost var m1, t1, qs0 := mem[..], table[..], qs;
      if sound {
        SoundKept(t0, t1, p);
      }
      NotFirst(m1, t0, t1, p, op, anchor, ip, qs);
      var found, op1, ip1;
      ghost var whole1;
      found, ok, op1, ip1, qs, whole1 := Round(mem, table, p, op, anchor, ip, qs, sound, whole, t0);
      SameOutsideCompose(m0, m1, mem[..], p.dst, p.dst, hi);
      OnlyNewPositionsCompose(t0, t1, table[..], p);
      if !found || !ok {
        LaterEnds(m0, t0, p, found, ok, op, anchor, ip, op1, ip1, qs0, qs, whole, whole1, sound);
        return;
      }
      LaterOn(m0, t0, p, op, anchor, ip, op1, ip1, qs0, qs, whole, whole1, sound);
      op, anchor, ip, whole := op1, ip1, ip1 + 1, whole1;
    }
  }

  lemma BeforeFirst(m: seq<byte>, t0: seq<nat>, t: seq<nat>, p: Params)
    requires p.Valid(|m|) && |t0| == |t| == TableSize(p.tableType) && p.n > MFLIMIT && OnlyNewPositions(t0, t, p)
    requires forall i :: 0 <= i < |t| && i != HashPosition(m, p.src, p.tableType) ==> t[i] == t0[i]
    ensures AtFirst(m, t0, t, p, p.dst, p.src, p.src + 1, [])
  {
    hide OnlyNewPositions, HashPosition;
  }

  lemma NotFirst(m: seq<byte>, t0: seq<nat>, t: seq<nat>, p: Params, op: nat, anchor: nat, ip: nat, qs: seq<Sequence>)
    requires p.Valid(|m|) && |t0| == |t| == TableSize(p.tableType) && p.n > MFLIMIT
    ensures AtFirst(m, t0, t, p, op, anchor, ip, qs) ==> qs == []
  {
  }

  /** Between later rounds. */
  ghost predicate Later(m: seq<byte>, t: seq<nat>, p: Params, op: nat, anchor: nat, ip: nat, qs: seq<Sequence>, whole: bool, sound: bool)
    requires p.Valid(|m|) && |t| == TableSize(p.tableType)
  {
    && FaultyStart(m, t, p, qs) && (Hooked(m, t, p) ==> Saves(p, op, anchor) && ip > p.Mflimit() + 1)
    && (if Brief(p, t) && p.Advances() then ip > p.Mflimit() + 1 && (!whole ==> op + 1 - p.dst == anchor - p.src) else whole == sound)
  }

  lemma LaterOn(m: seq<byte>, t: seq<nat>, p: Params, op: nat, anchor: nat, ip: nat, op1: nat, ip1: nat, qs0: seq<Sequence>,
                qs: seq<Sequence>, whole: bool, whole1: bool, sound: bool)
    requires p.Valid(|m|) && |t| == TableSize(p.tableType) && ip <= p.Mflimit() + 1 && qs0 < qs && ip1 <= p.Matchlimit()
    requires if qs0 == [] then AfterFirst(m, t, p, true, true, op1, ip1, qs, whole1) && ((Brief(p, t) && p.Advances()) || whole1 == sound)
             else whole1 == sound && Later(m, t, p, op, anchor, ip, qs0, whole, sound)
    ensures Later(m, t, p, op1, ip1, ip1 + 1, qs, whole1, sound)
  {
    hide Hooked, Brief, FaultyStart, p.FirstSearchNb;
    if qs0 != [] {
      FaultyStartKept(m, t, p, qs0, qs);
    }
  }

  lemma LaterEnds(m: seq<byte>, t: seq<nat>, p: Params, found: bool, ok: bool, op: nat, anchor: nat, ip: nat, op1: nat, ip1: nat,
                  qs0: seq<Sequence>, qs: seq<Sequence>, whole: bool, whole1: bool, sound: bool)
    requires p.Valid(|m|) && |t| == TableSize(p.tableType) && ip <= p.Mflimit() + 1 && (!found || !ok) && (!found ==> qs == qs0)
    requires if qs0 == [] then
               AfterFirst(m, t, p, found, ok, op1, ip1, qs, whole1) && whole == (sound || (Brief(p, t) && p.Advances()))
             else Later(m, t, p, op, anchor, ip, qs0, whole, sound)
    ensures ok ==> FaultyStart(m, t, p, qs)
    ensures !Hooked(m, t, p)
    ensures Brief(p, t) && p.Advances() && !whole ==> false
  {
    hide Hooked, Brief, FaultyStart, p.FirstSearchNb;
  }

  lemma NoFault(m: seq<byte>, t: seq<nat>, p: Params, at: nat, v: int, op: nat, ip: nat, whole: bool)
    requires p.Valid(|m|) && |t| == TableSize(p.tableType) && FirstFound(m, t, p, false, at, v)
    ensures AfterFirst(m, t, p, false, true, op, ip, [], whole)
  {
    hide Brief, Saves;
  }

  lemma ProgressLess(m: seq<byte>, p: Params, op: nat, anchor: nat, qs: seq<Sequence>, whole: bool, less: bool)
    requires p.Valid(|m|) && Progress(m, p, op, anchor, qs, whole) && (less ==> whole)
    ensures Progress(m, p, op, anchor, qs, less)
  {
    hide Covers, Emitted, Cost;
  }

  lemma BriefFound(m: seq<byte>, t0: seq<nat>, t1: seq<nat>, p: Params, op: nat, anchor: nat, ip: nat, qs: seq<Sequence>, at: nat, v: int)
    requires p.Valid(|m|) && |t0| == |t1| == TableSize(p.tableType) && p.n > MFLIMIT && AtFirst(m, t0, t1, p, op, anchor, ip, qs)
    requires Brief(p, t0) && FromTable(t1, p, v) && ip <= at <= p.Mflimit() && v < at && Candidate(m, p, at, v)
    ensures p.n <= SHORT && p.dict == UsingExtDict && OneShort(p, at, v) && (Whole(p, at, v) <==> p.src <= v < at)
    ensures (Whole(p, at, v) <==> !Straddling(p, v)) && anchor <= at && SequenceSize(at - anchor, MINMATCH) == at - anchor + MINMATCH - 1
  {
    hide Agree, HashPosition;
  }

  lemma FirstDone(m: seq<byte>, t0: seq<nat>, t1: seq<nat>, p: Params, op: nat, anchor: nat, ip: nat, qs: seq<Sequence>, at: nat, v: int,
                  ok: bool, op': nat, ip': nat, qs': seq<Sequence>, whole: bool)
    requires p.Valid(|m|) && |t0| == |t1| == TableSize(p.tableType) && p.n > MFLIMIT && AtFirst(m, t0, t1, p, op, anchor, ip, qs)
    requires FirstFound(m, t0, p, true, at, v) && ip <= at <= p.Mflimit() && at <= |m|
    requires ok ==> qs < qs' && qs'[|qs|].offset == at - v
    requires ok && v == at ==> qs'[|qs|].literals == []
    requires ok && p.Lo() == v < p.src ==> qs'[|qs|].literals == m[anchor..at]
    requires v == at && Roomy(p, op, anchor, anchor) ==> ok
    requires ok && v == at ==> ip' == p.Matchlimit() && op' == op + SequenceSize(0, ip' - anchor)
    requires OneShort(p, at, v) && Straddling(p, v) && Roomy(p, op, anchor, at) ==> ok
    requires ok && OneShort(p, at, v) && Straddling(p, v) ==>
      ip' == at + MINMATCH && op' == op + SequenceSize(at - anchor, MINMATCH)
    requires TwoCheap(m, p, op, anchor, at, v) ==>
      ok && ip' == p.Matchlimit() && op' == op + SequenceSize(at - anchor, MINMATCH) + SequenceSize(0, ip' - at - MINMATCH)
    requires Brief(p, t0) && p.Advances() && ok ==> ip' > p.Mflimit()
    requires Brief(p, t0) && p.Advances() && ok && !whole ==> op' + 1 - op == ip' - anchor
    ensures AfterFirst(m, t0, p, true, ok, op', ip', qs', whole)
  {
    hide HashPosition, Stuck, Straddles, Roomy, TwoCheap, SequenceSize, Brief, OnlyNewPositions, FaultyStart,
         p.FirstSearchNb;
    if ok {
      FaultyBegin(m, t0, p, at, v, qs');
    }
    if Stuck(m, p) {
      StuckIsLong(m, p);
      if p.maxOutputSize >= p.n - 1 {
        StuckIsCheap(p);
      }
    }
    if Hooked(m, t0, p) && Straddles(m, t0, p) {
      if p.n <= SHORT && p.maxOutputSize >= p.n {
        ShortIsCheap(m, t0, p);
      } else if p.n > SHORT && p.maxOutputSize >= p.n - 1 && forall i :: p.src + 1 <= i < p.Iend() ==> m[i] == m[p.src + 1] {
        StraddleIsCheap(m, t0, p);
      }
    }
  }

  lemma StuckIsLong(m: seq<byte>, p: Params)
    requires p.Valid(|m|) && Stuck(m, p)
    ensures p.n > MFLIMIT + 1
  {
  }

  // ---------------------------------------------------------------- the faulty blocks

  lemma {:induction false} EncodeAllFront(qs: seq<Sequence>, tail: seq<byte>)
    requires AllWellFormed(qs) && qs != []
    ensures At(EncodeAll(qs) + tail, 0, EncodeSequence(qs[0]))
    decreases |qs|
  {
    hide EncodeSequence;
    var qs', q := qs[..|qs| - 1], qs[|qs| - 1];
    if qs' == [] {
      assert EncodeAll(qs) + tail == [] + (EncodeSequence(q) + tail);
    } else {
      EncodeAllFront(qs', EncodeSequence(q) + tail);
      assert EncodeAll(qs) + tail == EncodeAll(qs') + (EncodeSequence(q) + tail);
    }
  }

  lemma {:induction false} DecodeExtends(s: seq<byte>, i: nat, w: seq<byte>)
    requires Decode(s, i, w).Some?
    ensures w <= Decode(s, i, w).value
    decreases |s| - i
  {
    hide CopyMatch, ParseAt;
    var p := ParseAt(s, i);
    if p.Full? {
      var w1 := w + s[p.literals..p.literals + p.length];
      CopyMatchIsMatchCopy(w1, p.offset, p.matchLength);
      DecodeExtends(s, p.next, CopyMatch(w1, p.offset, p.matchLength));
    }
  }

  /** Whatever a block decodes to begins with its first sequence. */
  lemma BeginsDecides(h: seq<byte>, qs: seq<Sequence>, last: seq<byte>)
    requires AllWellFormed(qs) && qs != [] && qs[0].offset <= |h + qs[0].literals|
    ensures var d := Decode(EncodeBlock(qs, last), 0, h);
            d.Some? ==> CopyMatch(h + qs[0].literals, qs[0].offset, qs[0].matchLength) <= d.value
  {
    hide CopyMatch, EncodeSequence, EncodeLast, EncodeAll, Decode;
    assert WellFormed(qs[0]) by { assert qs[0] in qs; }
    var b, q := EncodeBlock(qs, last), qs[0];
    EncodeAllFront(qs, EncodeLast(last));
    DecodeOneSequence(b, 0, q, h);
    var w := CopyMatch(h + q.literals, q.offset, q.matchLength);
    if Decode(b, |EncodeSequence(q)|, w).Some? {
      DecodeExtends(b, |EncodeSequence(q)|, w);
    }
  }

  /** A stuck search yields a block that decodes to a leading zero byte, if to anything. */
  lemma StuckIsWrong(c: seq<byte>, source: seq<byte>, qs: seq<Sequence>, last: seq<byte>)
    requires AllWellFormed(qs) && Begins(qs, [], 0) && source != [] && source[0] != 0
    ensures Misread(EncodeBlock(qs, last), c, source)
  {
    hide EncodeBlock, Decode, CopyMatch;
    assert WellFormed(qs[0]) by { assert qs[0] in qs; }
    BeginsDecides(c, qs, last);
    assert c + qs[0].literals == c;
    CopyMatchIsMatchCopy(c, 0, qs[0].matchLength);
    var d, x := Decode(EncodeBlock(qs, last), 0, c), CopyMatch(c, 0, qs[0].matchLength);
    if d.Some? {
      assert d.value[|c| + 0] == x[|c|] == 0 != source[0];
    }
  }

  /** A straddling first match makes the decoder repeat the first source byte where the source
      has byte `k + 1`. */
  lemma StraddleIsWrong(k: nat, c: seq<byte>, source: seq<byte>, qs: seq<Sequence>, last: seq<byte>)
    requires AllWellFormed(qs) && 1 <= k <= 3 && |source| >= 5 && |c| >= k
    requires Begins(qs, [source[0]], k + 1) && source[k + 1] != source[0]
    ensures Misread(EncodeBlock(qs, last), c, source)
  {
    hide EncodeBlock, Decode, CopyMatch;
    assert WellFormed(qs[0]) by { assert qs[0] in qs; }
    var w := c + [source[0]];
    BeginsDecides(c, qs, last);
    CopyMatchIsMatchCopy(w, k + 1, qs[0].matchLength);
    var d, x := Decode(EncodeBlock(qs, last), 0, c), CopyMatch(w, k + 1, qs[0].matchLength);
    assert x[|w| + k] == x[|w| - 1] == x[..|w|][|w| - 1] == source[0];
    if d.Some? {
      assert d.value[|c| + (k + 1)] == x[|w| + k];
    }
  }

}
