/** The lazy parser of the high-compression mode (LZ4HC_compress_hashChain): up to three
    overlapping matches are weighed against each other before the first of them is written. */
module HcCompressor {
  import opened BlockFormat
  import opened Memory
  import opened Encoding
  import opened SequenceWriter
  import opened Emitter
  import opened HcSearch

  const OPTIMAL_ML := 18
  const ML_MASK := 15

  /** A compressing call, its tables apart. */
  datatype HcCall = HcCall(v: View, src: nat, n: nat, dst: nat, maxOutputSize: nat, limited: bool)
  {
    function Iend(): nat { src + n }
    function Mflimit(): int { src + n - MFLIMIT }
    function Matchlimit(): int { src + n - LASTLITERALS }
    function OutRoom(): nat { n + n / 255 + 16 }

    predicate Valid(size: nat) {
      && v.Valid(size) && v.LowPrefix() <= src && v.end == src + n && n <= LZ4_MAX_INPUT_SIZE
      && dst + OutRoom() <= size && Disjoint(v.LowPrefix(), v.end, dst, dst + OutRoom())
      && Disjoint(v.dictBase + v.lowLimit, v.dictBase + v.dictLimit, dst, dst + OutRoom())
    }

    ghost function History(m: seq<byte>): (h: seq<byte>)
      requires Valid(|m|)
      ensures |h| == src - v.Lo()
    {
      v.Text(m)[..src - v.Lo()]
    }
  }

  lemma CallTextKept(m0: seq<byte>, m1: seq<byte>, c: HcCall, op: nat)
    requires c.Valid(|m0|) && c.dst <= op && SameOutside(m0, m1, op, c.dst + c.OutRoom())
    ensures c.v.Text(m1) == c.v.Text(m0)
  {
    var hi := c.dst + c.OutRoom();
    SliceKept(m0, m1, op, hi, c.v.LowPrefix(), c.v.end);
    if c.v.lowLimit < c.v.dictLimit {
      SliceKept(m0, m1, op, hi, c.v.dictBase + c.v.lowLimit, c.v.dictBase + c.v.dictLimit);
    }
  }

  lemma CallSourceSlice(m: seq<byte>, c: HcCall, a: nat, b: nat)
    requires c.Valid(|m|) && c.src <= a <= b <= c.Iend()
    ensures m[a..b] == c.v.Text(m)[a - c.v.Lo()..b - c.v.Lo()]
  {
    hide View.Text;
    var t, lo := c.v.Text(m), c.v.Lo();
    forall i: nat | i < b - a ensures m[a..b][i] == t[a - lo..b - lo][i] {
      ViewTextAt(m, c.v, a + i);
    }
  }

  /** Everything up to `anchor` has been written, faithfully to the text `t`. */
  ghost predicate Progress(m: seq<byte>, c: HcCall, t: seq<byte>, op: nat, anchor: nat, qs: seq<Sequence>)
    requires c.Valid(|m|)
  {
    && c.v.Text(m) == t
    && c.src <= anchor <= c.Iend() && c.dst <= op && op - c.dst <= Cost(anchor - c.src)
    && Emitted(m, c.dst, op, qs) && Covers(t[..c.src - c.v.Lo()], t, qs, anchor - c.v.Lo())
  }

  lemma ProgressStart(m: seq<byte>, c: HcCall)
    requires c.Valid(|m|)
    ensures Progress(m, c, c.v.Text(m), c.dst, c.src, [])
  {
    EmittedNothing(m, c.dst);
    CoversHistory(c.History(m), c.v.Text(m));
  }

  // ---------------------------------------------------------------- matches

  /** A match of the source: `len` bytes from `start` on repeat those from `ref` on. */
  datatype Match = Match(start: nat, len: nat, ref: int)
  {
    function End(): nat { start + len }
    function Skip(k: nat): Match
      requires k <= len
    {
      Match(start + k, len - k, ref + k)
    }
    function Cut(n: nat): Match { Match(start, n, ref) }
  }

  /** A match that may be written: real, and clear of the end of the source. */
  ghost predicate Real(t: seq<byte>, c: HcCall, a: Match) {
    && c.src <= a.start <= c.Mflimit() && a.End() <= c.Matchlimit() && MINMATCH <= a.len
    && |t| == c.Iend() - c.v.Lo() && RealMatch(t, a.start - c.v.Lo(), a.ref - c.v.Lo(), a.len)
  }

  lemma RealSkip(t: seq<byte>, c: HcCall, a: Match, k: nat)
    requires Real(t, c, a) && k + MINMATCH <= a.len && a.start + k <= c.Mflimit()
    ensures Real(t, c, a.Skip(k))
  {
    RealMatchPart(t, a.start - c.v.Lo(), a.ref - c.v.Lo(), a.len, k, a.len - k);
  }

  lemma RealCut(t: seq<byte>, c: HcCall, a: Match, n: nat)
    requires Real(t, c, a) && MINMATCH <= n <= a.len
    ensures Real(t, c, a.Cut(n))
  {
    RealMatchPart(t, a.start - c.v.Lo(), a.ref - c.v.Lo(), a.len, 0, n);
  }

  /** InsertAndGetWiderMatch in terms of matches; a result no longer than `longest` stands for
      nothing found. */
  method FindWider(mem: array<byte>, hash: array<nat>, chain: array<nat>, c: HcCall, nextToUpdate: nat,
                   ip: nat, iLow: nat, longest: nat, maxNbAttempts: nat, patternAnalysis: bool)
    returns (b: Match, next: nat)
    requires c.Valid(mem.Length) && c.src <= iLow <= ip && ip + 8 <= c.Matchlimit()
    requires ip - iLow <= longest && iLow + longest <= c.Matchlimit()
    requires hash != chain && Linked(hash[..], chain[..], c.v, nextToUpdate) && c.v.base + nextToUpdate <= ip
    modifies hash, chain
    ensures next == ip - c.v.base && Linked(hash[..], chain[..], c.v, next)
    ensures b.len >= longest
    ensures b.len > longest ==> iLow <= b.start <= ip && (ip <= c.Mflimit() ==> Real(c.v.Text(mem[..]), c, b))
  {
    hide Linked, Copies, View.Text, RealMatch;
    var len, ref, start;
    len, ref, start, next := InsertAndGetWiderMatch(mem, hash, chain, c.v, nextToUpdate, ip, iLow, c.Matchlimit(),
                                                    longest, maxNbAttempts, patternAnalysis);
    if len > longest {
      CopiesIsReal(mem[..], c.v, start, ref, len);
      b := Match(start, len, ref);
    } else {
      b := Match(ip, longest, 0);
    }
  }

  // ---------------------------------------------------------------- writing

  /** LZ4HC_encodeSequence: one sequence, unless the output limit forbids it. */
  method EncodeSequenceHc(mem: array<byte>, c: HcCall, ghost t: seq<byte>, op: nat, anchor: nat, a: Match, ghost qs: seq<Sequence>)
    returns (ok: bool, op': nat, ghost qs': seq<Sequence>)
    requires c.Valid(mem.Length) && Progress(mem[..], c, t, op, anchor, qs) && Real(t, c, a) && anchor <= a.start
    modifies mem
    ensures SameOutside(old(mem[..]), mem[..], c.dst, c.dst + c.OutRoom())
    ensures ok ==> Progress(mem[..], c, t, op', a.End(), qs')
    ensures !c.limited ==> ok
  {
    hide SameOutside, Progress, Real, At, EncodeSequence, LengthBytes, Token;
    ghost var m0, hi := mem[..], c.dst + c.OutRoom();
    RealBounds(t, c, a);
    ProgressBounds(m0, c, t, op, anchor, qs);
    ghost var lits := m0[anchor..a.start];
    qs' := qs + [Sequence(lits, a.start - a.ref, a.len)];
    ok, op' := WriteSequence(mem, c, op, anchor, a, lits);
    SameOutsideRefl(m0, c.dst, hi);
    SameOutsideCompose(m0, m0, mem[..], c.dst, op, hi);
    if ok {
      ProgressStep(m0, mem[..], c, t, op, anchor, a, lits, qs);
    }
  }

  lemma RealBounds(t: seq<byte>, c: HcCall, a: Match)
    requires Real(t, c, a)
    ensures c.src <= a.start <= c.Mflimit() && a.End() <= c.Matchlimit() && MINMATCH <= a.len
    ensures 1 <= a.start - a.ref <= MAX_DISTANCE && c.v.Lo() <= a.ref
  {
  }

  lemma ProgressBounds(m: seq<byte>, c: HcCall, t: seq<byte>, op: nat, anchor: nat, qs: seq<Sequence>)
    requires c.Valid(|m|) && Progress(m, c, t, op, anchor, qs)
    ensures c.src <= anchor <= c.Iend() && c.dst <= op && op - c.dst <= Cost(anchor - c.src)
  {
  }

  method WriteSequence(mem: array<byte>, c: HcCall, op: nat, anchor: nat, a: Match, ghost lits: seq<byte>)
    returns (ok: bool, op': nat)
    requires c.Valid(mem.Length) && c.src <= anchor <= a.start <= c.Mflimit() && a.End() <= c.Matchlimit()
    requires MINMATCH <= a.len && 1 <= a.start - a.ref <= MAX_DISTANCE && lits == mem[anchor..a.start]
    requires c.dst <= op && op - c.dst <= Cost(anchor - c.src)
    modifies mem
    ensures SameOutside(old(mem[..]), mem[..], op, c.dst + c.OutRoom())
    ensures ok ==> At(mem[..], op, EncodeSequence(Sequence(lits, a.start - a.ref, a.len)))
    ensures ok ==> op' == op + |EncodeSequence(Sequence(lits, a.start - a.ref, a.len))|
    ensures !c.limited ==> ok
  {
    hide SameOutside, At, EncodeSequence, LengthBytes, Token;
    ghost var m0, hi := mem[..], c.dst + c.OutRoom();
    var length, matchCode, oend := a.start - anchor, a.len - MINMATCH, c.dst + c.maxOutputSize;
    SequenceRoom(c.n, anchor - c.src, length, matchCode);
    SameOutsideRefl(m0, op, hi);
    if c.limited && op + 1 + length / 256 + length + (2 + 1 + LASTLITERALS) > oend {
      return false, op;
    }
    var o := WriteLiterals(mem, op, anchor, a.start, hi);
    ghost var m1 := mem[..];
    if c.limited && o + 2 + matchCode / 256 + (1 + LASTLITERALS) > oend {
      return false, op;
    }
    op' := WriteMatch(mem, Pairs, op, o, a.start - a.ref, matchCode, lits, hi);
    SameOutsideCompose(m0, m1, mem[..], op, op, hi);
    ok := true;
  }

  lemma ProgressStep(m0: seq<byte>, m1: seq<byte>, c: HcCall, t: seq<byte>, op: nat, anchor: nat, a: Match,
                     lits: seq<byte>, qs: seq<Sequence>)
    requires c.Valid(|m0|) && Progress(m0, c, t, op, anchor, qs) && Real(t, c, a) && anchor <= a.start
    requires lits == m0[anchor..a.start] && SameOutside(m0, m1, op, c.dst + c.OutRoom())
    requires At(m1, op, EncodeSequence(Sequence(lits, a.start - a.ref, a.len)))
    ensures var q := Sequence(lits, a.start - a.ref, a.len);
            Progress(m1, c, t, op + |EncodeSequence(q)|, a.End(), qs + [q])
  {
    hide Covers, Emitted, SameOutside, EncodeSequence, RealMatch, At, View.Text;
    RealBounds(t, c, a);
    var q, lo, h := Sequence(lits, a.start - a.ref, a.len), c.v.Lo(), t[..c.src - c.v.Lo()];
    CallTextKept(m0, m1, c, op);
    CallSourceSlice(m0, c, anchor, a.start);
    CoversMore(h, t, qs, anchor - lo, a.start - lo, a.ref - lo, a.len);
    EmittedMore(m0, m1, c.dst, op, c.dst + c.OutRoom(), qs, q);
    hide Cost;
    SequenceCost(anchor - c.src, q);
  }

  /** The last literals of a block. */
  method LastLiterals(mem: array<byte>, c: HcCall, ghost t: seq<byte>, op: nat, anchor: nat, ghost qs: seq<Sequence>)
    returns (r: nat)
    requires c.Valid(mem.Length) && Progress(mem[..], c, t, op, anchor, qs)
    modifies mem
    ensures SameOutside(old(mem[..]), mem[..], c.dst, c.dst + c.OutRoom())
    ensures r <= c.OutRoom() && (c.limited ==> r <= c.maxOutputSize) && (!c.limited ==> r > 0)
    ensures r > 0 ==>
      FaithfulBlock(mem[c.dst..c.dst + r], t[..c.src - c.v.Lo()], old(mem[c.src..c.Iend()]), qs)
  {
    hide EncodeLast, SameOutside, Progress, View.Text, FaithfulBlock, At;
    ghost var m0, hi := mem[..], c.dst + c.OutRoom();
    ProgressBounds(m0, c, t, op, anchor, qs);
    SameOutsideRefl(m0, c.dst, hi);
    var lastRun := c.Iend() - anchor;
    LastCost(c.n, anchor - c.src, m0[anchor..c.Iend()]);
    if c.limited && op + 1 + (lastRun + 240) / 255 + lastRun > c.dst + c.maxOutputSize {
      return 0;
    }
    var op' := WriteLastLiterals(mem, op, anchor, lastRun);
    assert m0[anchor..anchor + lastRun] == m0[anchor..c.Iend()];
    SameOutsideWiden(m0, mem[..], op, op', op, hi);
    SameOutsideCompose(m0, m0, mem[..], c.dst, op, hi);
    BlockDone(m0, mem[..], c, t, op, op', anchor, qs);
    r := op' - c.dst;
  }

  lemma BlockDone(m0: seq<byte>, m1: seq<byte>, c: HcCall, t: seq<byte>, op: nat, op': nat, anchor: nat, qs: seq<Sequence>)
    requires c.Valid(|m0|) && Progress(m0, c, t, op, anchor, qs) && SameOutside(m0, m1, op, c.dst + c.OutRoom())
    requires op' == op + |EncodeLast(m0[anchor..c.Iend()])| && At(m1, op, EncodeLast(m0[anchor..c.Iend()]))
    ensures c.dst < op' <= |m1|
    ensures FaithfulBlock(m1[c.dst..op'], t[..c.src - c.v.Lo()], m0[c.src..c.Iend()], qs)
  {
    hide EncodeLast, View.Text, Expand, Decode, Restricted, KeepsClear, Produced, EncodeBlock, OffsetsLegal, At,
         EncodeAll;
    var lo, h := c.v.Lo(), t[..c.src - c.v.Lo()];
    CallSourceSlice(m0, c, anchor, c.Iend());
    CallSourceSlice(m0, c, c.src, c.Iend());
    assert t[anchor - lo..c.Iend() - lo] == t[anchor - lo..] && h + t[c.src - lo..c.Iend() - lo] == t;
    EncodeLastLength(t[anchor - lo..]);
    FinishedBlock(m0, m1, c.dst, op, op', c.dst + c.OutRoom(), h, t, qs, anchor - lo);
  }

  // ---------------------------------------------------------------- the three-way parser

  /** At _Search2: `a` is the match to beat, `a0` the one it grew out of, which may be taken
      back.  A match that has moved on by k positions has grown by at least k / 2 bytes. */
  ghost predicate AtSearch2(t: seq<byte>, c: HcCall, anchor: nat, next: nat, a: Match, a0: Match) {
    && Real(t, c, a) && Real(t, c, a0) && a.start < c.Mflimit()
    && anchor <= a0.start <= a.start && a.start - a0.start <= 2 * (a.len - a0.len)
    && (a0 == a || a0.End() < c.Mflimit())
    && c.v.base + next <= a.End() - 2
  }

  /** At _Search3: `b` overlaps `a`, or nearly so, and is longer.  There is room for a legal
      part of either, and the further `b` starts behind the end of `a`, the longer it is. */
  ghost predicate AtSearch3(t: seq<byte>, c: HcCall, anchor: nat, next: nat, a: Match, b: Match) {
    && Real(t, c, a) && Real(t, c, b) && anchor <= a.start <= b.start < c.Mflimit() && a.End() < c.Mflimit()
    && b.len > MINMATCH && (b.start - a.start) + b.len >= 8
    && (b.start > a.End() ==> b.len >= 6) && (b.start > a.End() + 1 ==> b.len >= 7)
    && c.v.base + next <= b.End() - 3
  }

  /** After the first correction of _Search3. */
  ghost predicate Spread(t: seq<byte>, c: HcCall, anchor: nat, a: Match, b: Match) {
    && Real(t, c, a) && Real(t, c, b) && anchor <= a.start && a.start + MINMATCH <= b.start && a.End() < c.Mflimit()
    && (b.start > a.End() ==> b.len >= 6) && (b.start > a.End() + 1 ==> b.len >= 7)
  }

  /** How much of `a` is kept when `b`, which must keep four bytes, follows it closely. */
  function NewMl(a: Match, b: Match, ml: nat): int {
    var new_ml := if ml > OPTIMAL_ML then OPTIMAL_ML else ml;
    if a.start + new_ml > b.End() - MINMATCH then b.End() - a.start - MINMATCH else new_ml
  }

  /** Moves the start of `b` up to where `n` bytes of `a` end, if that lies ahead of it. */
  function MoveUp(a: Match, b: Match, n: int): Match
    requires a.start + n <= b.End()
  {
    var correction := a.start + n - b.start;
    if correction > 0 then b.Skip(correction) else b
  }

  lemma MakesRoom(t: seq<byte>, c: HcCall, anchor: nat, next: nat, a: Match, b: Match)
    requires AtSearch3(t, c, anchor, next, a, b)
    ensures var b' := if b.start - a.start < OPTIMAL_ML then MoveUp(a, b, NewMl(a, b, a.len)) else b;
            Spread(t, c, anchor, a, b') && b'.End() == b.End()
  {
    hide Real;
    RealBounds(t, c, a);
    RealBounds(t, c, b);
    if b.start - a.start < OPTIMAL_ML {
      var k := a.start + NewMl(a, b, a.len) - b.start;
      if k > 0 {
        RealSkip(t, c, b, k);
      }
    }
  }

  datatype State = Main | Search2 | Search3 | Overflow

  /** Where the parser goes next, with which two matches. */
  ghost predicate AtState(state: State, t: seq<byte>, c: HcCall, anchor: nat, next: nat, a: Match, b: Match) {
    match state
    case Main => c.v.base + next <= anchor
    case Search2 => AtSearch2(t, c, anchor, next, a, b)
    case Search3 => AtSearch3(t, c, anchor, next, a, b)
    case Overflow => true
  }

  /** The end of what is under consideration: it grows with every step. */
  function Reach(state: State, a: Match, b: Match): nat {
    if state == Search2 then a.End() else b.End()
  }

  lemma FoundAtSearch2(t: seq<byte>, c: HcCall, anchor: nat, next: nat, a: Match, a0: Match, b: Match)
    requires AtSearch2(t, c, anchor, next, a, a0) && a.End() < c.Mflimit()
    requires Real(t, c, b) && a.start <= b.start <= a.End() - 2 && b.len > a.len
    ensures var back := a0.start < a.start && b.start < a.start + a0.len;
            var a' := if back then a0 else a;
            if b.start - a'.start < 3 then AtSearch2(t, c, anchor, a.End() - 2 - c.v.base, b, a0)
            else AtSearch3(t, c, anchor, a.End() - 2 - c.v.base, a', b)
    ensures b.End() > a.End() && c.v.base + (a.End() - 2 - c.v.base) == a.End() - 2
  {
    hide Real;
    RealBounds(t, c, a);
    RealBounds(t, c, a0);
    RealBounds(t, c, b);
  }

  /** From _Search2: write `a` when nothing longer overlaps its end, or go on with what was found. */
  method Search2Step(mem: array<byte>, hash: array<nat>, chain: array<nat>, c: HcCall, nextToUpdate: nat, ghost t: seq<byte>,
                     op: nat, anchor: nat, a: Match, a0: Match, maxNbAttempts: nat, ghost qs: seq<Sequence>)
    returns (state: State, a': Match, b': Match, next: nat, op': nat, anchor': nat, ghost qs': seq<Sequence>)
    requires c.Valid(mem.Length) && Progress(mem[..], c, t, op, anchor, qs) && hash != chain
    requires Linked(hash[..], chain[..], c.v, nextToUpdate) && AtSearch2(t, c, anchor, nextToUpdate, a, a0)
    modifies mem, hash, chain
    ensures SameOutside(old(mem[..]), mem[..], c.dst, c.dst + c.OutRoom()) && Linked(hash[..], chain[..], c.v, next)
    ensures AtState(state, t, c, anchor', next, a', b') && (state == Overflow ==> c.limited)
    ensures state != Overflow ==> Progress(mem[..], c, t, op', anchor', qs')
    ensures state == Main ==> anchor' == a.End()
    ensures state == Search2 || state == Search3 ==> Reach(state, a', b') > a.End()
    ensures next == nextToUpdate || c.v.base + next <= c.Iend() - 3
  {
    hide Linked, Real, Progress, SameOutside, View.Text;
    RealBounds(t, c, a);
    RealBounds(t, c, a0);
    ProgressText(mem[..], c, t, op, anchor, qs);
    SameOutsideRefl(mem[..], c.dst, c.dst + c.OutRoom());
    state, a', b', next, op', anchor', qs' := Main, a, a0, nextToUpdate, op, anchor, qs;
    if a.End() < c.Mflimit() {
      b', next := FindWider(mem, hash, chain, c, nextToUpdate, a.End() - 2, a.start, a.len, maxNbAttempts, maxNbAttempts > 64);
    } else {
      b' := a;
    }
    if b'.len == a.len {
      var ok;
      ok, op', qs' := EncodeSequenceHc(mem, c, t, op, anchor, a, qs);
      anchor' := a.End();
      state := if ok then Main else Overflow;
      return;
    }
    FoundAtSearch2(t, c, anchor, nextToUpdate, a, a0, b');
    if a0.start < a.start && b'.start < a.start + a0.len {
      a' := a0;
    }
    if b'.start - a'.start < 3 {
      state, a', b' := Search2, b', a0;
    } else {
      state := Search3;
    }
  }

  lemma ProgressText(m: seq<byte>, c: HcCall, t: seq<byte>, op: nat, anchor: nat, qs: seq<Sequence>)
    requires c.Valid(|m|) && Progress(m, c, t, op, anchor, qs)
    ensures c.v.Text(m) == t
  {
  }

  /** The third match ends the first one: `z`, what remains of the second, may be taken back to. */
  lemma ThirdReplacesSecond(t: seq<byte>, c: HcCall, anchor: nat, a: Match, b: Match, d: Match)
    requires Spread(t, c, anchor, a, b) && b.End() < c.Mflimit()
    requires Real(t, c, d) && b.start <= d.start <= b.End() - 3 && d.len > b.len
    requires a.End() <= d.start < a.End() + 3
    ensures var z := if b.start < a.End() then b.Skip(a.End() - b.start) else b;
            AtSearch2(t, c, a.End(), b.End() - 3 - c.v.base, d, if z.len < MINMATCH then d else z)
    ensures d.End() > b.End() && c.v.base + (b.End() - 3 - c.v.base) == b.End() - 3
  {
    hide Real;
    RealBounds(t, c, a);
    RealBounds(t, c, b);
    RealBounds(t, c, d);
    if b.start < a.End() && a.End() + MINMATCH <= b.End() {
      RealSkip(t, c, b, a.End() - b.start);
    }
  }

  /** The first of three ascending matches, shortened so that the second can follow, and the
      second, which becomes the first. */
  lemma ThreeAscending(t: seq<byte>, c: HcCall, anchor: nat, a: Match, b: Match, d: Match)
    requires Spread(t, c, anchor, a, b) && b.End() < c.Mflimit()
    requires Real(t, c, d) && b.start <= d.start <= b.End() - 3 && d.len > b.len && a.End() + 3 <= d.start
    ensures var overlap, near := b.start < a.End(), b.start - a.start < ML_MASK;
            var ml := if !overlap then a.len else if near then NewMl(a, b, a.len) else b.start - a.start;
            && MINMATCH <= ml <= a.len && a.start + ml <= b.End()
            && var b' := if overlap && near then MoveUp(a, b, ml) else b;
               AtSearch3(t, c, a.start + ml, b.End() - 3 - c.v.base, b', d)
    ensures d.End() > b.End() && c.v.base + (b.End() - 3 - c.v.base) == b.End() - 3
  {
    hide Real;
    RealBounds(t, c, a);
    RealBounds(t, c, b);
    RealBounds(t, c, d);
    if b.start < a.End() && b.start - a.start < ML_MASK {
      var k := a.start + NewMl(a, b, a.len) - b.start;
      if k > 0 {
        RealSkip(t, c, b, k);
      }
    }
  }

  lemma StaysAtSearch3(t: seq<byte>, c: HcCall, anchor: nat, a: Match, b: Match, d: Match)
    requires Spread(t, c, anchor, a, b) && b.End() < c.Mflimit()
    requires Real(t, c, d) && b.start <= d.start <= b.End() - 3 && d.len > b.len && d.start < a.End()
    ensures AtSearch3(t, c, anchor, b.End() - 3 - c.v.base, a, d)
    ensures d.End() > b.End() && c.v.base + (b.End() - 3 - c.v.base) == b.End() - 3
  {
    hide Real;
    RealBounds(t, c, b);
  }

  /** Two sequences at once. */
  method TwoSequences(mem: array<byte>, c: HcCall, ghost t: seq<byte>, op: nat, anchor: nat, a: Match, b: Match, ghost qs: seq<Sequence>)
    returns (ok: bool, op': nat, ghost qs': seq<Sequence>)
    requires c.Valid(mem.Length) && Progress(mem[..], c, t, op, anchor, qs) && Spread(t, c, anchor, a, b)
    modifies mem
    ensures SameOutside(old(mem[..]), mem[..], c.dst, c.dst + c.OutRoom())
    ensures ok ==> Progress(mem[..], c, t, op', b.End(), qs')
    ensures !c.limited ==> ok
  {
    hide SameOutside, Progress, Real;
    ghost var m0 := mem[..];
    RealBounds(t, c, a);
    RealBounds(t, c, b);
    var ml := if b.start < a.End() then b.start - a.start else a.len;
    RealCut(t, c, a, ml);
    ok, op', qs' := EncodeSequenceHc(mem, c, t, op, anchor, a.Cut(ml), qs);
    if ok {
      ghost var m1 := mem[..];
      ok, op', qs' := EncodeSequenceHc(mem, c, t, op', a.Cut(ml).End(), b, qs');
      SameOutsideCompose(m0, m1, mem[..], c.dst, c.dst, c.dst + c.OutRoom());
    }
  }

  /** From _Search3, with `b` corrected. */
  method Search3Step(mem: array<byte>, hash: array<nat>, chain: array<nat>, c: HcCall, nextToUpdate: nat, ghost t: seq<byte>,
                     op: nat, anchor: nat, a: Match, b0: Match, maxNbAttempts: nat, ghost qs: seq<Sequence>)
    returns (state: State, a': Match, b': Match, next: nat, op': nat, anchor': nat, ghost qs': seq<Sequence>)
    requires c.Valid(mem.Length) && Progress(mem[..], c, t, op, anchor, qs) && hash != chain
    requires Linked(hash[..], chain[..], c.v, nextToUpdate) && AtSearch3(t, c, anchor, nextToUpdate, a, b0)
    modifies mem, hash, chain
    ensures SameOutside(old(mem[..]), mem[..], c.dst, c.dst + c.OutRoom()) && Linked(hash[..], chain[..], c.v, next)
    ensures AtState(state, t, c, anchor', next, a', b') && (state == Overflow ==> c.limited)
    ensures state != Overflow ==> Progress(mem[..], c, t, op', anchor', qs')
    ensures state == Main ==> anchor' == b0.End()
    ensures state == Search2 || state == Search3 ==> Reach(state, a', b') > b0.End()
    ensures next == nextToUpdate || c.v.base + next <= c.Iend() - 3
  {
    hide Linked, Real, Progress, SameOutside, View.Text;
    MakesRoom(t, c, anchor, nextToUpdate, a, b0);
    RealBounds(t, c, a);
    RealBounds(t, c, b0);
    ProgressText(mem[..], c, t, op, anchor, qs);
    SameOutsideRefl(mem[..], c.dst, c.dst + c.OutRoom());
    var b := if b0.start - a.start < OPTIMAL_ML then MoveUp(a, b0, NewMl(a, b0, a.len)) else b0;
    RealBounds(t, c, b);
    var d := b;
    next := nextToUpdate;
    if b.End() < c.Mflimit() {
      d, next := FindWider(mem, hash, chain, c, nextToUpdate, b.End() - 3, b.start, b.len, maxNbAttempts, maxNbAttempts > 64);
    }
    state, a', b', op', anchor', qs' := Main, a, b, op, anchor, qs;
    var ok;
    if d.len == b.len {
      ok, op', qs' := TwoSequences(mem, c, t, op, anchor, a, b, qs);
      anchor' := b.End();
      state := if ok then Main else Overflow;
    } else if d.start < a.End() + 3 && d.start < a.End() {
      StaysAtSearch3(t, c, anchor, a, b, d);
      state, b' := Search3, d;
    } else {
      state, a', b', op', anchor', qs' := WriteFirst(mem, c, next, t, op, anchor, a, b, d, qs);
    }
  }

  /** With three matches, the first of which can be written now. */
  method WriteFirst(mem: array<byte>, c: HcCall, ghost next: nat, ghost t: seq<byte>, op: nat, anchor: nat,
                    a: Match, b: Match, d: Match, ghost qs: seq<Sequence>)
    returns (state: State, a': Match, b': Match, op': nat, anchor': nat, ghost qs': seq<Sequence>)
    requires c.Valid(mem.Length) && Progress(mem[..], c, t, op, anchor, qs)
    requires Spread(t, c, anchor, a, b) && b.End() < c.Mflimit() && c.v.base + next == b.End() - 3
    requires Real(t, c, d) && b.start <= d.start <= b.End() - 3 && d.len > b.len && a.End() <= d.start
    modifies mem
    ensures SameOutside(old(mem[..]), mem[..], c.dst, c.dst + c.OutRoom())
    ensures state == Search2 || state == Search3 || (state == Overflow && c.limited)
    ensures AtState(state, t, c, anchor', next, a', b')
    ensures state != Overflow ==> Progress(mem[..], c, t, op', anchor', qs') && Reach(state, a', b') > b.End()
  {
    hide Real, Progress, SameOutside;
    RealBounds(t, c, a);
    RealBounds(t, c, b);
    var ok;
    if d.start < a.End() + 3 {
      ThirdReplacesSecond(t, c, anchor, a, b, d);
      b' := if b.start < a.End() then b.Skip(a.End() - b.start) else b;
      if b'.len < MINMATCH {
        b' := d;
      }
      ok, op', qs' := EncodeSequenceHc(mem, c, t, op, anchor, a, qs);
      state, a', anchor' := if ok then Search2 else Overflow, d, a.End();
    } else {
      ThreeAscending(t, c, anchor, a, b, d);
      var ml := a.len;
      a' := b;
      if b.start < a.End() {
        if b.start - a.start < ML_MASK {
          ml := NewMl(a, b, a.len);
          a' := MoveUp(a, b, ml);
        } else {
          ml := b.start - a.start;
        }
      }
      RealCut(t, c, a, ml);
      ok, op', qs' := EncodeSequenceHc(mem, c, t, op, anchor, a.Cut(ml), qs);
      state, b', anchor' := if ok then Search3 else Overflow, d, a.start + ml;
    }
  }

  /** The moves between _Search2 and _Search3 until the main loop is reached again. */
  method Deliberate(mem: array<byte>, hash: array<nat>, chain: array<nat>, c: HcCall, nextToUpdate: nat, ghost t: seq<byte>,
                    op: nat, anchor: nat, a: Match, maxNbAttempts: nat, ghost qs: seq<Sequence>)
    returns (ok: bool, next: nat, op': nat, anchor': nat, ghost qs': seq<Sequence>)
    requires c.Valid(mem.Length) && Progress(mem[..], c, t, op, anchor, qs) && hash != chain
    requires Linked(hash[..], chain[..], c.v, nextToUpdate) && AtSearch2(t, c, anchor, nextToUpdate, a, a)
    modifies mem, hash, chain
    ensures SameOutside(old(mem[..]), mem[..], c.dst, c.dst + c.OutRoom()) && Linked(hash[..], chain[..], c.v, next)
    ensures ok ==> Progress(mem[..], c, t, op', anchor', qs') && anchor' >= a.End() && c.v.base + next <= anchor'
    ensures !c.limited ==> ok
    ensures next == nextToUpdate || c.v.base + next <= c.Iend() - 3
  {
    hide Linked, Progress, SameOutside, AtSearch2, AtSearch3;
    ghost var m0, hi := mem[..], c.dst + c.OutRoom();
    SameOutsideRefl(m0, c.dst, hi);
    var state, x, y := Search2, a, a;
    next, op', anchor', qs' := nextToUpdate, op, anchor, qs;
    while state == Search2 || state == Search3
      invariant SameOutside(m0, mem[..], c.dst, hi) && Linked(hash[..], chain[..], c.v, next)
      invariant AtState(state, t, c, anchor', next, x, y) && (state == Overflow ==> c.limited)
      invariant state != Overflow ==> Progress(mem[..], c, t, op', anchor', qs')
      invariant state == Main ==> anchor' >= a.End()
      invariant next == nextToUpdate || c.v.base + next <= c.Iend() - 3
      invariant state == Search2 || state == Search3 ==> Reach(state, x, y) >= a.End()
      decreases state == Search2 || state == Search3, c.Iend() - Reach(state, x, y)
    {
      ghost var m1 := mem[..];
      ReachBound(state, t, c, anchor', next, x, y);
      if state == Search2 {
        state, x, y, next, op', anchor', qs' := Search2Step(mem, hash, chain, c, next, t, op', anchor', x, y, maxNbAttempts, qs');
      } else {
        state, x, y, next, op', anchor', qs' := Search3Step(mem, hash, chain, c, next, t, op', anchor', x, y, maxNbAttempts, qs');
      }
      SameOutsideCompose(m0, m1, mem[..], c.dst, c.dst, hi);
    }
    ok := state == Main;
  }

  lemma ReachBound(state: State, t: seq<byte>, c: HcCall, anchor: nat, next: nat, a: Match, b: Match)
    requires AtState(state, t, c, anchor, next, a, b) && (state == Search2 || state == Search3)
    ensures Reach(state, a, b) <= c.Iend()
  {
  }

  /** LZ4HC_compress_hashChain, without and with output limit: whatever the tables and however
      many attempts, a positive result is a block faithful to the source behind the history. */
  method CompressHashChain(mem: array<byte>, hash: array<nat>, chain: array<nat>, c: HcCall, nextToUpdate: nat, maxNbAttempts: nat)
    returns (r: nat, next: nat, ghost qs: seq<Sequence>)
    requires c.Valid(mem.Length) && hash != chain
    requires Linked(hash[..], chain[..], c.v, nextToUpdate) && c.v.base + nextToUpdate <= c.src
    modifies mem, hash, chain
    ensures SameOutside(old(mem[..]), mem[..], c.dst, c.dst + c.OutRoom())
    ensures Linked(hash[..], chain[..], c.v, next)
    ensures next == nextToUpdate || c.v.base + next <= c.Iend() - 3
    ensures r <= c.OutRoom() && (c.limited ==> r <= c.maxOutputSize) && (!c.limited ==> r > 0)
    ensures r > 0 ==>
      FaithfulBlock(mem[c.dst..c.dst + r], old(c.History(mem[..])), old(mem[c.src..c.Iend()]), qs)
  {
    hide Linked, Progress, SameOutside, Real, View.Text, FaithfulBlock;
    ghost var m0, t, hi := mem[..], c.v.Text(mem[..]), c.dst + c.OutRoom();
    SameOutsideRefl(m0, c.dst, hi);
    ProgressStart(m0, c);
    var ip, anchor, op := c.src, c.src, c.dst;
    next, qs, r := nextToUpdate, [], 0;
    while c.n >= MFLIMIT + 1 && ip < c.Mflimit()
      invariant c.src <= anchor <= ip <= c.Iend() && c.v.base + next <= ip
      invariant next == nextToUpdate || c.v.base + next <= c.Iend() - 3
      invariant SameOutside(m0, mem[..], c.dst, hi) && Linked(hash[..], chain[..], c.v, next)
      invariant Progress(mem[..], c, t, op, anchor, qs)
      decreases c.Iend() - ip
    {
      ghost var m1 := mem[..];
      ProgressText(m1, c, t, op, anchor, qs);
      var a;
      a, next := FindWider(mem, hash, chain, c, next, ip, ip, MINMATCH - 1, maxNbAttempts, maxNbAttempts > 64);
      if a.len < MINMATCH {
        ip := ip + 1;
      } else {
        FirstMatch(t, c, anchor, next, a);
        var ok;
        ok, next, op, anchor, qs := Deliberate(mem, hash, chain, c, next, t, op, anchor, a, maxNbAttempts, qs);
        SameOutsideCompose(m0, m1, mem[..], c.dst, c.dst, hi);
        if !ok {
          return;
        }
        ProgressBounds(mem[..], c, t, op, anchor, qs);
        ip := anchor;
      }
    }
    ghost var m1 := mem[..];
    SourceKept(m0, m1, c);
    r := LastLiterals(mem, c, t, op, anchor, qs);
    SameOutsideCompose(m0, m1, mem[..], c.dst, c.dst, hi);
  }

  lemma FirstMatch(t: seq<byte>, c: HcCall, anchor: nat, next: nat, a: Match)
    requires Real(t, c, a) && anchor <= a.start < c.Mflimit() && c.v.base + next == a.start
    ensures AtSearch2(t, c, anchor, next, a, a) && a.End() > a.start
  {
    hide RealMatch;
  }

  lemma SourceKept(m0: seq<byte>, m1: seq<byte>, c: HcCall)
    requires c.Valid(|m0|) && SameOutside(m0, m1, c.dst, c.dst + c.OutRoom())
    ensures m1[c.src..c.Iend()] == m0[c.src..c.Iend()]
  {
    SliceKept(m0, m1, c.dst, c.dst + c.OutRoom(), c.src, c.Iend());
  }
}
