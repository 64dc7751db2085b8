/** LZ4_compress_destSize: as much of the source as fits into a given room.  Matches are shortened
    and the last literals cut so that the block is complete, within the parsing restrictions of
    what was consumed. */
module DestSize {
  import opened BlockFormat
  import opened Memory
  import opened MatchCount
  import opened Encoding
  import opened SequenceWriter
  import opened Emitter
  import opened FastSearch
  import opened FastCompressor
  import opened BlockApi

  function DestParams(src: nat, n: nat, dst: nat, tableType: TableType): Params {
    Params(src, n, dst, 0, false, tableType, NoDict, false, 1, 0, 0, 0)
  }

  /** A call without history that searches at every position, its output space clear of the source. */
  predicate Fits(p: Params, target: nat, size: nat) {
    && p == DestParams(p.src, p.n, p.dst, p.tableType) && p.Readable(size)
    && p.dst + target <= size && Disjoint(p.src, p.src + p.n, p.dst, p.dst + target)
  }

  lemma AlwaysSound(p: Params, target: nat, size: nat, table: seq<nat>)
    requires Fits(p, target, size)
    ensures Sound(p, table)
  {
  }

  /** The end that what was consumed is sure to reach, once `op` and `anchor` have been: there is
      room for eight more literals, or, behind a long match, for five. */
  function Reserve(p: Params, target: nat, op: nat, anchor: nat): (r: nat)
    requires p.src <= anchor <= p.Iend()
  {
    var r := anchor - p.src + if op + MFLIMIT - 3 <= p.dst + target then MFLIMIT - MINMATCH else LASTLITERALS;
    if r < p.n then r else p.n
  }

  /** Everything up to `anchor` has been written, with room left for last literals. */
  ghost predicate DestProgress(m: seq<byte>, p: Params, target: nat, op: nat, anchor: nat, qs: seq<Sequence>)
    requires p.Readable(|m|)
  {
    && p.src <= anchor <= p.Iend() && p.dst <= op
    && Emitted(m, p.dst, op, qs) && OffsetsLegal(qs)
    && Expand([], qs) == Some(p.Text(m)[..anchor - p.Lo()]) && Produced(0, qs) == anchor - p.src
    && KeepsClear(0, qs, Reserve(p, target, op, anchor))
    && if qs == [] then op == p.dst && anchor == p.src
       else op + LASTLITERALS + 1 <= p.dst + target && anchor <= p.Matchlimit()
  }

  lemma DestStart(m: seq<byte>, p: Params, target: nat)
    requires Fits(p, target, |m|)
    ensures DestProgress(m, p, target, p.dst, p.src, [])
  {
    EmittedNothing(m, p.dst);
    assert p.Text(m)[..0] == [];
  }

  lemma {:induction false} ClearOfMore(n: nat, qs: seq<Sequence>, total: nat, total': nat)
    requires KeepsClear(n, qs, total) && total <= total'
    ensures KeepsClear(n, qs, total')
    decreases |qs|
  {
    if qs != [] {
      ClearOfMore(n, qs[..|qs| - 1], total, total');
    }
  }

  lemma TextStays(m0: seq<byte>, m1: seq<byte>, p: Params, target: nat, op: nat)
    requires Fits(p, target, |m0|) && p.dst <= op && SameOutside(m0, m1, op, p.dst + target)
    ensures p.Text(m1) == p.Text(m0) && |m1| == |m0|
  {
    SliceKept(m0, m1, op, p.dst + target, p.src, p.Iend());
  }

  /** Progress made by a sequence of literals `anchor..ip` and a match from `v`, of which `n` bytes
      were written about. */
  lemma DestStep(m0: seq<byte>, m1: seq<byte>, p: Params, target: nat, op: nat, anchor: nat, qs: seq<Sequence>,
                 ip: nat, v: int, n: nat, op': nat)
    requires Fits(p, target, |m0|) && DestProgress(m0, p, target, op, anchor, qs) && SameOutside(m0, m1, op, p.dst + target)
    requires anchor <= ip && p.src <= v <= ip <= p.Mflimit() && MINMATCH <= n && ip + n <= p.Matchlimit()
    requires RealMatch(p.Text(m0), ip - p.Lo(), v - p.Lo(), n)
    requires var q := Sequence(m0[anchor..ip], ip - v, n);
             At(m1, op, EncodeSequence(q)) && op' == op + |EncodeSequence(q)|
    requires op' + LASTLITERALS + 1 <= p.dst + target
    requires op' + MFLIMIT - 3 > p.dst + target ==> n >= MFLIMIT - LASTLITERALS
    ensures DestProgress(m1, p, target, op', ip + n, qs + [Sequence(m0[anchor..ip], ip - v, n)])
  {
    hide p.Text, Expand, KeepsClear, Produced, Emitted, RealMatch, SameOutside, EncodeSequence, At;
    var q, text, total := Sequence(m0[anchor..ip], ip - v, n), p.Text(m0), Reserve(p, target, op', ip + n);
    TextStays(m0, m1, p, target, op);
    SourceSlice(m0, p, anchor, ip);
    MatchIsBack(text, ip - p.Lo(), v - p.Lo(), n);
    EmittedMore(m0, m1, p.dst, op, p.dst + target, qs, q);
    ClearOfMore(0, qs, Reserve(p, target, op, anchor), total);
    EmitMatch([], text, qs, anchor - p.src, ip - p.src, v - p.src, n, total);
  }

  lemma MatchIsBack(text: seq<byte>, p: int, q: int, n: int)
    requires RealMatch(text, p, q, n)
    ensures 1 <= p - q <= MAX_DISTANCE
  {
  }

  // ---------------------------------------------------------------- one sequence

  /** Counts a match and shortens it, should its length bytes not leave room for last literals;
      writes it behind the literals.  The room is enough for that, there being eleven bytes left. */
  method DestMatch(mem: array<byte>, p: Params, target: nat, token: nat, o: nat, anchor: nat, ip: nat, v: int, ghost known: nat,
                   ghost lits: seq<byte>)
    returns (op': nat, ghost n: nat, ip': nat)
    requires Fits(p, target, mem.Length) && Candidate(mem[..], p, ip, v) && v < ip && p.src <= anchor <= ip <= p.Mflimit()
    requires Grounded(mem[..], p, ip, v, known)
    requires |lits| == ip - anchor && o + 11 <= p.dst + target && p.dst <= token
    requires o == token + 1 + |LengthBytes(|lits|)| + |lits| && mem[token] == Token(|lits|, 0)
    requires At(mem[..], token + 1, LengthBytes(|lits|)) && At(mem[..], o - |lits|, lits)
    modifies mem
    ensures SameOutside(old(mem[..]), mem[..], token, p.dst + target)
    ensures MINMATCH <= n && ip' == ip + n <= p.Matchlimit() && p.src <= v && 0 <= ip - v <= MAX_DISTANCE
    ensures RealMatch(old(p.Text(mem[..])), ip - p.Lo(), v - p.Lo(), n)
    ensures var q := Sequence(lits, ip - v, n); At(mem[..], token, EncodeSequence(q)) && op' == token + |EncodeSequence(q)|
    ensures op' + LASTLITERALS + 1 <= p.dst + target
    ensures op' + MFLIMIT - 3 > p.dst + target ==> n >= MFLIMIT - LASTLITERALS
    ensures known <= n || op' + LASTLITERALS + 1 == p.dst + target
  {
    hide Candidate, Repeats, Grounded, p.Text, RealMatch, At, EncodeSequence, LengthBytes, Token, SameOutside;
    CandidateInReach(mem[..], p, ip, v);
    var full := MatchLength(mem, p, ip, v, 0, p.src, known);
    RepeatsIsReal(mem[..], p, ip, v, MINMATCH + full);
    var matchLength, oMaxMatch := full, p.dst + target - (LASTLITERALS + 1);
    if o + 2 + (matchLength + 240) / 255 > oMaxMatch {
      matchLength := 14 + (oMaxMatch - (o + 2)) * 255;
    }
    Shortened(full, matchLength, oMaxMatch - (o + 2));
    RealMatchPart(p.Text(mem[..]), ip - p.Lo(), v - p.Lo(), MINMATCH + full, 0, MINMATCH + matchLength);
    n := MINMATCH + matchLength;
    SequenceLength(lits, ip - v, n);
    op' := WriteMatch(mem, Plain, token, o, ip - v, matchLength, lits, p.dst + target);
    ip' := ip + MINMATCH + matchLength;
  }

  /** A shortened match is shorter, and its length bytes fit. */
  lemma Shortened(full: nat, n: nat, room: nat)
    requires 3 <= room && n == if (full + 240) / 255 > room then 14 + room * 255 else full
    ensures n <= full && (n + 240) / 255 <= room && n / 255 <= room && (n == full || (n + 240) / 255 == room)
    ensures n < 15 ==> (n + 240) / 255 == 0
  {
  }

  /** The literals in front of a match, unless they leave no room for one. */
  method DestLiterals(mem: array<byte>, p: Params, target: nat, op: nat, anchor: nat, ip: nat) returns (ok: bool, o: nat)
    requires Fits(p, target, mem.Length) && p.src <= anchor <= ip <= p.Mflimit() && p.dst <= op
    modifies mem
    ensures !ok ==> mem[..] == old(mem[..])
    ensures SameOutside(old(mem[..]), mem[..], op, p.dst + target)
    ensures ok ==> o == op + 1 + |LengthBytes(ip - anchor)| + (ip - anchor) && o + 11 <= p.dst + target
    ensures ok ==> mem[op] == Token(ip - anchor, 0)
    ensures ok ==> At(mem[..], op + 1, LengthBytes(ip - anchor)) && At(mem[..], o - (ip - anchor), old(mem[anchor..ip]))
  {
    hide LengthBytes, Token, At, SameOutside;
    var litLength := ip - anchor;
    SameOutsideRefl(mem[..], op, p.dst + target);
    LengthBytesLength(litLength);
    ok, o := op + 1 + (litLength + 240) / 255 + litLength <= p.dst + target - 11, op;
    if ok {
      o := WriteLiterals(mem, op, anchor, ip, p.dst + target);
    }
  }

  /** A match the search has found: extended backwards, and written with its literals if they fit. */
  method DestFound(mem: array<byte>, p: Params, target: nat, op: nat, anchor: nat, start: nat, v0: int, ghost qs: seq<Sequence>)
    returns (ok: bool, op': nat, ip: nat, ghost qs': seq<Sequence>)
    requires Fits(p, target, mem.Length) && p.src <= anchor <= start <= p.Mflimit() && Candidate(mem[..], p, start, v0) && v0 < start
    requires DestProgress(mem[..], p, target, op, anchor, qs)
    modifies mem
    ensures SameOutside(old(mem[..]), mem[..], p.dst, p.dst + target)
    ensures !ok ==> op' == op && qs' == qs && mem[..] == old(mem[..])
    ensures ok ==> ip <= p.Matchlimit() && p.src + MINMATCH <= ip && DestProgress(mem[..], p, target, op', ip, qs')
    ensures ok ==> start < ip || op' + MFLIMIT > p.dst + target
  {
    hide Candidate, Grounded, SameOutside, Emitted, Expand, KeepsClear, Produced, p.Text, RealMatch, EncodeSequence,
         LengthBytes, Token, At, DestProgress;
    ghost var m0, hi := mem[..], p.dst + target;
    ProgressBounds(m0, p, target, op, anchor, qs);
    SameOutsideRefl(m0, p.dst, hi);
    CandidateInReach(m0, p, start, v0);
    var at, v := CatchUp(mem, p, anchor, start, v0, 0, p.src);
    ghost var lits, n := mem[anchor..at], 0;
    var o;
    ok, o := DestLiterals(mem, p, target, op, anchor, at);
    op', ip, qs' := op, start, qs;
    if ok {
      ghost var m1 := mem[..];
      StillCandidate(m0, m1, p, target, op, at, v, start - at + 1);
      op', n, ip := DestMatch(mem, p, target, op, o, anchor, at, v, start - at + 1, lits);
      SameOutsideCompose(m0, m1, mem[..], op, op, hi);
      DestStep(m0, mem[..], p, target, op, anchor, qs, at, v, n, op');
      qs' := qs + [Sequence(lits, at - v, n)];
      SameOutsideWiden(m0, mem[..], op, hi, p.dst, hi);
    }
  }

  lemma ProgressBounds(m: seq<byte>, p: Params, target: nat, op: nat, anchor: nat, qs: seq<Sequence>)
    requires p.Readable(|m|) && DestProgress(m, p, target, op, anchor, qs)
    ensures p.src <= anchor <= p.Iend() && p.dst <= op
  {
  }

  lemma StillCandidate(m0: seq<byte>, m1: seq<byte>, p: Params, target: nat, op: nat, ip: nat, v: int, known: nat)
    requires Fits(p, target, |m0|) && p.dst <= op && SameOutside(m0, m1, op, p.dst + target)
    requires Candidate(m0, p, ip, v) && Grounded(m0, p, ip, v, known)
    ensures |m1| == |m0| && Candidate(m1, p, ip, v) && Grounded(m1, p, ip, v, known) && p.Text(m1) == p.Text(m0)
  {
    TextStays(m0, m1, p, target, op);
    assert Agree(m1, ip, p.Addr(v), 4) && Agree(m1, ip, p.Addr(v), known);
  }

  // ---------------------------------------------------------------- the whole call

  /** Where progress stands after some matches, and whether the search is to go on. */
  method DestFollowing(mem: array<byte>, table: array<nat>, p: Params, target: nat, op: nat, ip0: nat, ghost qs: seq<Sequence>)
    returns (more: bool, op': nat, ip: nat, ghost qs': seq<Sequence>)
    requires Fits(p, target, mem.Length) && table.Length == TableSize(p.tableType) && qs != []
    requires p.src + MINMATCH <= ip0 <= p.Matchlimit() && DestProgress(mem[..], p, target, op, ip0, qs)
    requires op + MFLIMIT <= p.dst + target ==> Below(table[..], ip0 - p.Base())
    modifies mem, table
    ensures SameOutside(old(mem[..]), mem[..], p.dst, p.dst + target)
    ensures ip0 <= ip && DestProgress(mem[..], p, target, op', ip, qs')
    ensures more ==> ip <= p.Mflimit() && Below(table[..], ip + 1 - p.Base()) && op + MFLIMIT <= p.dst + target
  {
    hide Candidate, Grounded, OnlyNewPositions, SameOutside, Sound, Whole, DestProgress, Emitted, Expand, KeepsClear,
         Produced, p.Text, RealMatch, EncodeSequence, LengthBytes, Token, At;
    ghost var m0, hi := mem[..], p.dst + target;
    SameOutsideRefl(m0, p.dst, hi);
    more, op', ip, qs' := true, op, ip0, qs;
    while ip <= p.Mflimit() && op' + MFLIMIT <= p.dst + target
      invariant ip0 <= ip <= p.Matchlimit() && DestProgress(mem[..], p, target, op', ip, qs')
      invariant op' + MFLIMIT <= p.dst + target ==> Below(table[..], ip - p.Base())
      invariant op' == op || op + MFLIMIT <= p.dst + target
      invariant SameOutside(m0, mem[..], p.dst, hi)
      decreases p.Iend() - ip
    {
      ghost var m1, t1 := mem[..], table[..];
      AlwaysSound(p, target, mem.Length, t1);
      var again, v := TestNextPosition(mem, table, p, ip);
      if !again {
        return;
      }
      op', ip, qs' := DestNext(mem, p, target, op', ip, v, qs');
      SameOutsideCompose(m0, m1, mem[..], p.dst, p.dst, hi);
    }
    more := false;
  }

  /** A match that directly follows another. */
  method DestNext(mem: array<byte>, p: Params, target: nat, op: nat, ip: nat, v: int, ghost qs: seq<Sequence>)
    returns (op': nat, ip': nat, ghost qs': seq<Sequence>)
    requires Fits(p, target, mem.Length) && p.src < ip <= p.Mflimit() && Candidate(mem[..], p, ip, v) && Whole(p, ip, v)
    requires DestProgress(mem[..], p, target, op, ip, qs) && op + MFLIMIT <= p.dst + target
    modifies mem
    ensures SameOutside(old(mem[..]), mem[..], p.dst, p.dst + target)
    ensures ip < ip' <= p.Matchlimit() && DestProgress(mem[..], p, target, op', ip', qs')
  {
    hide Candidate, Grounded, SameOutside, DestProgress, Emitted, Expand, KeepsClear, Produced, p.Text,
         RealMatch, EncodeSequence, LengthBytes, Token, At;
    ghost var m0, hi, n := mem[..], p.dst + target, 0;
    ProgressBounds(m0, p, target, op, ip, qs);
    CandidateGrounded(m0, p, ip, v);
    var o := WriteNoLiterals(mem, op, hi);
    ghost var m1 := mem[..];
    StillCandidate(m0, m1, p, target, op, ip, v, 1);
    assert mem[ip..ip] == [] == m0[ip..ip];
    op', n, ip' := DestMatch(mem, p, target, op, o, ip, ip, v, 1, []);
    SameOutsideCompose(m0, m1, mem[..], op, op, hi);
    DestStep(m0, mem[..], p, target, op, ip, qs, ip, v, n, op');
    qs' := qs + [Sequence([], ip - v, n)];
    SameOutsideWiden(m0, mem[..], op, hi, p.dst, hi);
  }

  /** All sequences: search, match, matches that follow, until the source or the room is at its end. */
  method DestSequences(mem: array<byte>, table: array<nat>, p: Params, target: nat)
    returns (op: nat, anchor: nat, ghost qs: seq<Sequence>)
    requires Fits(p, target, mem.Length) && table.Length == TableSize(p.tableType) && p.n >= MFLIMIT + 1 && Below(table[..], 1)
    modifies mem, table
    ensures SameOutside(old(mem[..]), mem[..], p.dst, p.dst + target)
    ensures DestProgress(mem[..], p, target, op, anchor, qs)
  {
    hide Candidate, Grounded, OnlyNewPositions, SameOutside, Sound, Whole, DestProgress, HashPosition, FirstTry, p.Text;
    ghost var m0, hi := mem[..], p.dst + target;
    SameOutsideRefl(m0, p.dst, hi);
    DestStart(m0, p, target);
    op, anchor, qs := p.dst, p.src, [];
    PutPosition(mem, table, p, p.src);
    var ip, more := p.src + 1, true;
    while more
      invariant DestProgress(mem[..], p, target, op, anchor, qs) && SameOutside(m0, mem[..], p.dst, hi)
      invariant more ==> p.src <= anchor < ip <= p.Mflimit() + 1 && Below(table[..], ip - p.Base())
      decreases more, p.Iend() + 1 - ip
    {
      ghost var m1 := mem[..];
      AlwaysSound(p, target, mem.Length, table[..]);
      var found, at, v := FindMatch(mem, table, p, ip);
      if !found {
        return;
      }
      WholeIsBack(p, target, mem.Length, at, v);
      var ok, op1, ip1;
      ghost var qs1;
      ok, op1, ip1, qs1 := DestFound(mem, p, target, op, anchor, at, v, qs);
      SameOutsideCompose(m0, m1, mem[..], p.dst, p.dst, hi);
      if !ok {
        return;
      }
      ghost var m2 := mem[..];
      SomeSequences(m2, p, target, op1, ip1, qs1);
      more, op, anchor, qs := DestFollowing(mem, table, p, target, op1, ip1, qs1);
      SameOutsideCompose(m0, m2, mem[..], p.dst, p.dst, hi);
      ip := anchor + 1;
    }
  }

  lemma WholeIsBack(p: Params, target: nat, size: nat, ip: nat, v: int)
    requires Fits(p, target, size) && Whole(p, ip, v)
    ensures v < ip
  {
  }

  lemma SomeSequences(m: seq<byte>, p: Params, target: nat, op: nat, anchor: nat, qs: seq<Sequence>)
    requires p.Readable(|m|) && DestProgress(m, p, target, op, anchor, qs) && anchor > p.src
    ensures qs != []
  {
  }

  // ---------------------------------------------------------------- last literals

  /** How many last literals are written, of `full` for which there is room of `left` bytes. */
  function LastRun(full: nat, left: nat): (run: nat)
    requires left >= 1
    ensures run <= full && 1 + (run + 240) / 255 + run <= left
    ensures run == full || (run >= left - 1 - (left + 239) / 255 && left <= 1 + (run + 240) / 255 + run + Slack(left))
  {
    if 1 + (full + 240) / 255 + full > left then (left - 1) - (left - 1 + 240) / 255 else full
  }

  /** What trimming the last literals may leave unused: nothing in a room of up to fifteen
      bytes, one byte up to some 64 KB, and one more for every 64 KB from there on. */
  function Slack(room: nat): nat {
    ((room + 239) / 255 + 254) / 255
  }

  /** The literals behind the last match, as many as fit.  They make the block complete, for what
      has been consumed by then. */
  method DestLast(mem: array<byte>, p: Params, target: nat, op: nat, anchor: nat, ghost qs: seq<Sequence>)
    returns (r: nat, consumed: nat)
    requires Fits(p, target, mem.Length) && target >= 1 && DestProgress(mem[..], p, target, op, anchor, qs)
    modifies mem
    ensures SameOutside(old(mem[..]), mem[..], p.dst, p.dst + target)
    ensures 1 <= r <= target && consumed <= p.n && (consumed < p.n ==> target <= r + Slack(target))
    ensures FaithfulBlock(mem[p.dst..p.dst + r], [], old(mem[p.src..p.src + consumed]), qs)
  {
    hide SameOutside, p.Text, At, EncodeLast, FaithfulBlock, DestProgress;
    ghost var m0, hi := mem[..], p.dst + target;
    ProgressRoom(m0, p, target, op, anchor, qs);
    var lastRun := LastRun(p.Iend() - anchor, p.dst + target - op);
    ghost var lits := m0[anchor..anchor + lastRun];
    EncodeLastLength(lits);
    var op' := WriteLastLiterals(mem, op, anchor, lastRun);
    assert mem[..][p.dst..op'] == mem[p.dst..op'] && lits == old(mem[anchor..anchor + lastRun]);
    SameOutsideWiden(m0, mem[..], op, op', p.dst, hi);
    DestFinished(m0, mem[..], p, target, op, op', anchor, lastRun, qs);
    r, consumed := op' - p.dst, anchor + lastRun - p.src;
    assert m0[p.src..p.src + consumed] == old(mem[p.src..p.src + consumed]);
    SlackGrows(hi - op, target);
  }

  lemma SlackGrows(a: nat, b: nat)
    ensures a <= b ==> Slack(a) <= Slack(b)
  {
  }

  lemma ProgressRoom(m: seq<byte>, p: Params, target: nat, op: nat, anchor: nat, qs: seq<Sequence>)
    requires p.Readable(|m|) && target >= 1 && DestProgress(m, p, target, op, anchor, qs)
    ensures p.src <= anchor <= p.Iend() && p.dst <= op < p.dst + target
  {
  }

  lemma DestFinished(m0: seq<byte>, m1: seq<byte>, p: Params, target: nat, op: nat, op': nat, anchor: nat, run: nat,
                     qs: seq<Sequence>)
    requires Fits(p, target, |m0|) && target >= 1 && DestProgress(m0, p, target, op, anchor, qs) && op < p.dst + target
    requires run == LastRun(p.Iend() - anchor, p.dst + target - op) && SameOutside(m0, m1, op, op')
    requires var e := EncodeLast(m0[anchor..anchor + run]); op' == op + |e| && At(m1, op, e)
    ensures op' <= |m1| && FaithfulBlock(m1[p.dst..op'], [], m0[p.src..anchor + run], qs)
  {
    hide p.Text, EncodeLast, At, KeepsClear, Expand, Produced, Emitted, Decode, Restricted, SameOutside, LastRun,
         EncodeBlock, OffsetsLegal;
    var source, a, end := m0[p.src..anchor + run], anchor - p.src, anchor + run;
    SourceSlice(m0, p, p.src, end);
    SourceSlice(m0, p, p.src, anchor);
    assert source[..a] == m0[p.src..anchor] && source[a..] == m0[anchor..end];
    if qs == [] {
      ClearOfNothing(0, |source|);
    } else {
      ReserveReached(p, target, op, anchor, run);
      ClearOfMore(0, qs, Reserve(p, target, op, anchor), |source|);
    }
    FinishedBlock(m0, m1, p.dst, op, op', op', [], source, qs, a);
    WellFormedEmitted(m0, p.dst, op, qs);
    assert [] + source == source;
  }

  lemma WellFormedEmitted(m: seq<byte>, dst: nat, op: nat, qs: seq<Sequence>)
    requires Emitted(m, dst, op, qs)
    ensures AllWellFormed(qs)
  {
  }

  lemma ClearOfNothing(n: nat, total: nat)
    ensures KeepsClear(n, [], total)
  {
  }

  lemma ReserveReached(p: Params, target: nat, op: nat, anchor: nat, run: nat)
    requires p.src <= anchor <= p.Iend() && op + LASTLITERALS + 1 <= p.dst + target
    requires run == LastRun(p.Iend() - anchor, p.dst + target - op)
    ensures Reserve(p, target, op, anchor) <= anchor + run - p.src
  {
    var left := p.dst + target - op;
    assert left >= 9 ==> left - 1 - (left + 239) / 255 >= 8;
    assert left >= 6 ==> left - 1 - (left + 239) / 255 >= 5;
  }

  // ---------------------------------------------------------------- the calls

  /** LZ4_compress_destSize_generic, with a fresh table. */
  method CompressDestSizeGeneric(mem: array<byte>, src: nat, dst: nat, n: int, target: int, tableType: TableType)
    returns (r: nat, consumed: int, ghost qs: seq<Sequence>)
    requires 0 <= n <= LZ4_MAX_INPUT_SIZE && target > 0 ==>
      && src + n <= mem.Length && dst + target <= mem.Length && Disjoint(src, src + n, dst, dst + target)
    modifies mem
    ensures SameOutside(old(mem[..]), mem[..], dst, if target > 0 then dst + target else dst)
    ensures r > 0 <==> target > 0 && 0 <= n <= LZ4_MAX_INPUT_SIZE && (tableType == ByU16 ==> n < LIMIT64K)
    ensures r == 0 ==> consumed == n && mem[..] == old(mem[..])
    ensures r > 0 ==> r <= target && 0 <= consumed <= n && (consumed < n ==> target <= r + Slack(target))
    ensures r > 0 ==> FaithfulBlock(mem[dst..dst + r], [], old(mem[src..src + consumed]), qs)
  {
    hide SameOutside, FaithfulBlock, DestProgress, Below, Slack;
    r, consumed, qs := 0, n, [];
    SameOutsideRefl(mem[..], dst, if target > 0 then dst + target else dst);
    if target < 1 || n < 0 || n > LZ4_MAX_INPUT_SIZE || (tableType == ByU16 && n >= LIMIT64K) {
      return;
    }
    ghost var m0 := mem[..];
    var p := DestParams(src, n, dst, tableType);
    DestStart(m0, p, target);
    var op, anchor := dst, src;
    if n >= MFLIMIT + 1 {
      var table := new nat[TableSize(tableType)](i => 0);
      FreshTable(table[..]);
      op, anchor, qs := DestSequences(mem, table, p, target);
    }
    ghost var m1 := mem[..];
    SourceStays(m0, m1, p, target);
    r, consumed := DestLast(mem, p, target, op, anchor, qs);
    SameOutsideCompose(m0, m1, mem[..], dst, dst, dst + target);
    PrefixOfSame(m0, m1, src, src + n, src + consumed);
    assert m0[src..src + consumed] == old(mem[src..src + consumed]);
  }

  lemma PrefixOfSame(m0: seq<byte>, m1: seq<byte>, lo: nat, hi: nat, mid: nat)
    requires |m0| == |m1| && lo <= mid <= hi <= |m0| && m0[lo..hi] == m1[lo..hi]
    ensures m0[lo..mid] == m1[lo..mid]
  {
    SliceOfSlice(m0, lo, hi, lo, mid);
    SliceOfSlice(m1, lo, hi, lo, mid);
  }

  lemma FreshTable(table: seq<nat>)
    requires forall i :: 0 <= i < |table| ==> table[i] == 0
    ensures Below(table, 1)
  {
  }

  lemma SourceStays(m0: seq<byte>, m1: seq<byte>, p: Params, target: nat)
    requires Fits(p, target, |m0|) && SameOutside(m0, m1, p.dst, p.dst + target)
    ensures |m1| == |m0| && m1[p.src..p.Iend()] == m0[p.src..p.Iend()]
  {
    SliceKept(m0, m1, p.dst, p.dst + target, p.src, p.Iend());
  }

  /** LZ4_compress_destSize.  Every call with room for a byte and a source of supported size
      returns a block of at most `target` bytes that decodes to exactly the prefix of the source
      it says it consumed: all of it, when the worst-case bound fits; when not all of it, then the
      room has been used up but for the slack. */
  method CompressDestSize(mem: array<byte>, src: nat, dst: nat, n: int, target: int)
    returns (r: nat, consumed: int, ghost qs: seq<Sequence>)
    requires 0 <= n <= LZ4_MAX_INPUT_SIZE && target > 0 ==>
      && src + n <= mem.Length && dst + target <= mem.Length && Disjoint(src, src + n, dst, dst + target)
    modifies mem
    ensures SameOutside(old(mem[..]), mem[..], dst, if target > 0 then dst + target else dst)
    ensures r > 0 <==> target > 0 && 0 <= n <= LZ4_MAX_INPUT_SIZE
    ensures r == 0 || target >= CompressBound(n) ==> consumed == n
    ensures r > 0 ==> r <= target && 0 <= consumed <= n && (consumed < n ==> target <= r + Slack(target))
    ensures r > 0 ==> FaithfulBlock(mem[dst..dst + r], [], old(mem[src..src + consumed]), qs)
  {
    hide SameOutside, FaithfulBlock;
    if target >= CompressBound(n) {
      ghost var m0 := mem[..];
      r, qs := CompressFastExtState(mem, src, dst, n, target, 1);
      consumed := n;
      SameOutsideWiden(m0, mem[..], dst, dst + CompressBound(n), dst, dst + target);
    } else if n < LIMIT64K {
      r, consumed, qs := CompressDestSizeGeneric(mem, src, dst, n, target, ByU16);
    } else {
      r, consumed, qs := CompressDestSizeGeneric(mem, src, dst, n, target, ByU32);
    }
  }

  /** What was consumed comes back, with any capacity from its size on. */
  method RoundTrip(mem: array<byte>, src: nat, mid: nat, out: nat, n: nat, target: nat, spare: nat)
    returns (r: nat, consumed: int, d: int)
    requires n <= LZ4_MAX_INPUT_SIZE && target > 0 && src + n <= mem.Length && mid + target + 2 <= mem.Length
    requires out + n + spare <= mem.Length && Disjoint(src, src + n, mid, mid + target)
    requires Disjoint(mid, mid + target, out, out + n + spare) && Disjoint(out, out + n + spare, src, src + n)
    modifies mem
    ensures 0 < r <= target && 0 <= consumed <= n && d == consumed
    ensures mem[out..out + consumed] == old(mem[src..src + consumed]) == mem[src..src + consumed]
  {
    hide Decodes, FaithfulBlock, SameOutside, Slack, CompressBound;
    ghost var m0, qs := mem[..], [];
    r, consumed, qs := CompressDestSize(mem, src, mid, n, target);
    ghost var m1, source := mem[..], mem[src..src + consumed];
    SliceKept(m0, m1, mid, mid + target, src, src + consumed);
    d := DecompressSafe(mem, mid, out, r, consumed + spare);
    RoundTripEnds(m1, mem[..], src, mid, out, source, r, consumed + spare, qs, d);
  }
}
