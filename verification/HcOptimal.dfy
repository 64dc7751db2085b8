/** The optimal parser (LZ4HC_compress_optimal): a price table over the next positions, whose
    cheapest path is turned around in place and then written. */
module HcOptimal {
  import opened BlockFormat
  import opened Memory
  import opened Encoding
  import opened SequenceWriter
  import opened Emitter
  import opened HcSearch
  import opened HcCompressor

  const LZ4_OPT_NUM := 0x1000
  const TRAILING_LITERALS := 3
  const OPT_SIZE := LZ4_OPT_NUM + TRAILING_LITERALS

  // ---------------------------------------------------------------- prices

  function LiteralsPrice(litlen: int): int {
    if litlen >= 15 then litlen + 1 + (litlen - 15) / 255 else litlen
  }

  function SequencePrice(litlen: int, mlen: int): int {
    1 + 2 + LiteralsPrice(litlen) + if mlen >= ML_MASK + MINMATCH then 1 + (mlen - (ML_MASK + MINMATCH)) / 255 else 0
  }

  /** A price is the number of bytes that encoding the sequence really takes. */
  lemma PriceIsSize(q: Sequence)
    requires WellFormed(q)
    ensures SequencePrice(|q.literals|, q.matchLength) == |EncodeSequence(q)|
  {
    LengthBytesLength(|q.literals|);
    LengthBytesLength(q.matchLength - MINMATCH);
  }

  // ---------------------------------------------------------------- the price table

  /** How the cheapest known way to a position ends: with a literal (`mlen` 1) or a match. */
  datatype Optimal = Optimal(price: int, off: int, mlen: int, litlen: int)

  /** The step from position `p`, counted from `ip`: one literal, or a match that may be written. */
  ghost predicate Step(t: seq<byte>, c: HcCall, ip: nat, p: nat, mlen: int, off: int) {
    mlen == 1 || (mlen >= MINMATCH && Real(t, c, Match(ip + p, mlen, ip + p - off)))
  }

  /** The entry describes a step that ends at `pos` and starts at or after 0. */
  ghost predicate EndsAt(t: seq<byte>, c: HcCall, ip: nat, pos: nat, e: Optimal) {
    e.litlen >= 0 && 1 <= e.mlen <= pos && Step(t, c, ip, pos - e.mlen, e.mlen, e.off)
  }

  /** All entries up to `hi` do. */
  ghost predicate Filled(t: seq<byte>, c: HcCall, ip: nat, opt: seq<Optimal>, hi: nat) {
    && |opt| == OPT_SIZE && hi < OPT_SIZE && opt[0].mlen == 1 && opt[0].litlen >= 0
    && forall pos :: 1 <= pos <= hi ==> EndsAt(t, c, ip, pos, opt[pos])
  }

  lemma FilledSet(t: seq<byte>, c: HcCall, ip: nat, opt: seq<Optimal>, hi: nat, pos: nat, e: Optimal)
    requires Filled(t, c, ip, opt, hi) && 1 <= pos <= hi + 1 && pos < OPT_SIZE && EndsAt(t, c, ip, pos, e)
    ensures Filled(t, c, ip, opt[pos := e], if pos > hi then pos else hi)
  {
  }

  lemma FilledLess(t: seq<byte>, c: HcCall, ip: nat, opt: seq<Optimal>, hi: nat, lo: nat)
    requires Filled(t, c, ip, opt, hi) && lo <= hi
    ensures Filled(t, c, ip, opt, lo)
  {
  }

  lemma FilledAt(t: seq<byte>, c: HcCall, ip: nat, opt: seq<Optimal>, hi: nat, pos: nat)
    requires Filled(t, c, ip, opt, hi) && pos <= hi
    ensures |opt| == OPT_SIZE && hi < OPT_SIZE && opt[pos].litlen >= 0 && opt[0].mlen == 1
    ensures pos >= 1 ==> EndsAt(t, c, ip, pos, opt[pos])
  {
  }

  lemma LiteralEndsAt(t: seq<byte>, c: HcCall, ip: nat, pos: nat, price: int, litlen: int)
    requires pos >= 1 && litlen >= 0
    ensures EndsAt(t, c, ip, pos, Optimal(price, 0, 1, litlen))
  {
  }

  lemma MatchEndsAt(t: seq<byte>, c: HcCall, ip: nat, cur: nat, a: Match, ml: nat, price: int, litlen: int)
    requires Real(t, c, a) && a.start == ip + cur && MINMATCH <= ml <= a.len && litlen >= 0
    ensures EndsAt(t, c, ip, cur + ml, Optimal(price, a.start - a.ref, ml, litlen))
  {
    hide Real;
    RealCut(t, c, a, ml);
  }

  /** Three literals behind the last match position. */
  method TrailingLiterals(opt: array<Optimal>, last: nat, ghost t: seq<byte>, ghost c: HcCall, ghost ip: nat)
    requires last + TRAILING_LITERALS < OPT_SIZE && Filled(t, c, ip, opt[..], last)
    modifies opt
    ensures Filled(t, c, ip, opt[..], last + TRAILING_LITERALS)
  {
    hide Filled, EndsAt;
    FilledAt(t, c, ip, opt[..], last, last);
    for addLit := 1 to TRAILING_LITERALS + 1
      invariant opt.Length == OPT_SIZE && Filled(t, c, ip, opt[..], last + addLit - 1)
    {
      ghost var s := opt[..];
      opt[last + addLit] := Optimal(opt[last].price + LiteralsPrice(addLit), 0, 1, addLit);
      LiteralEndsAt(t, c, ip, last + addLit, opt[last].price + LiteralsPrice(addLit), addLit);
      FilledSet(t, c, ip, s, last + addLit - 1, last + addLit, opt[last + addLit]);
      assert opt[..] == s[last + addLit := opt[last + addLit]];
    }
  }

  /** The table after the first match: literals before it can end, then the match cut at every
      length. */
  method SetInitialPrices(opt: array<Optimal>, llen: nat, first: Match, ghost t: seq<byte>, ghost c: HcCall, ghost ip: nat)
    requires opt.Length == OPT_SIZE && Real(t, c, first) && first.start == ip && first.len < LZ4_OPT_NUM
    modifies opt
    ensures Filled(t, c, ip, opt[..], first.len + TRAILING_LITERALS)
  {
    hide Filled, EndsAt, Real;
    RealBounds(t, c, first);
    opt[0] := Optimal(LiteralsPrice(llen), 0, 1, llen);
    FilledStart(t, c, ip, opt[..]);
    for rPos := 1 to MINMATCH
      invariant Filled(t, c, ip, opt[..], rPos - 1)
    {
      ghost var s := opt[..];
      opt[rPos] := Optimal(LiteralsPrice(llen + rPos), 0, 1, llen + rPos);
      LiteralEndsAt(t, c, ip, rPos, LiteralsPrice(llen + rPos), llen + rPos);
      FilledSet(t, c, ip, s, rPos - 1, rPos, opt[rPos]);
      assert opt[..] == s[rPos := opt[rPos]];
    }
    for mlen := MINMATCH to first.len + 1
      invariant Filled(t, c, ip, opt[..], mlen - 1)
    {
      ghost var s := opt[..];
      opt[mlen] := Optimal(SequencePrice(llen, mlen), first.start - first.ref, mlen, llen);
      MatchEndsAt(t, c, ip, 0, first, mlen, SequencePrice(llen, mlen), llen);
      FilledSet(t, c, ip, s, mlen - 1, mlen, opt[mlen]);
      assert opt[..] == s[mlen := opt[mlen]];
    }
    TrailingLiterals(opt, first.len, t, c, ip);
  }

  lemma FilledStart(t: seq<byte>, c: HcCall, ip: nat, opt: seq<Optimal>)
    requires |opt| == OPT_SIZE && opt[0].mlen == 1 && opt[0].litlen >= 0
    ensures Filled(t, c, ip, opt, 0)
  {
  }

  /** Enters the match found at `cur`: cheaper ways by literals right behind `cur`, then by the
      match cut at every length. */
  method EnterMatch(opt: array<Optimal>, cur: nat, last0: nat, a: Match, ghost t: seq<byte>, ghost c: HcCall, ghost ip: nat)
    returns (last: nat)
    requires Filled(t, c, ip, opt[..], last0 + TRAILING_LITERALS) && 1 <= cur < last0 < LZ4_OPT_NUM
    requires Real(t, c, a) && a.start == ip + cur && cur + a.len < LZ4_OPT_NUM
    modifies opt
    ensures last0 <= last < LZ4_OPT_NUM && Filled(t, c, ip, opt[..], last + TRAILING_LITERALS)
    ensures ip + last0 <= c.Matchlimit() ==> ip + last <= c.Matchlimit()
  {
    hide Filled, EndsAt, Real;
    RealBounds(t, c, a);
    FilledAt(t, c, ip, opt[..], last0 + TRAILING_LITERALS, cur);
    var baseLitlen := opt[cur].litlen;
    for litlen := 1 to MINMATCH
      invariant opt.Length == OPT_SIZE && Filled(t, c, ip, opt[..], last0 + TRAILING_LITERALS)
    {
      var price := opt[cur].price - LiteralsPrice(baseLitlen) + LiteralsPrice(baseLitlen + litlen);
      var pos := cur + litlen;
      if price < opt[pos].price {
        ghost var s := opt[..];
        opt[pos] := Optimal(price, 0, 1, baseLitlen + litlen);
        LiteralEndsAt(t, c, ip, pos, price, baseLitlen + litlen);
        FilledSet(t, c, ip, s, last0 + TRAILING_LITERALS, pos, opt[pos]);
        assert opt[..] == s[pos := opt[pos]];
      }
    }
    last := EnterCuts(opt, cur, last0, a, t, c, ip);
    TrailingLiterals(opt, last, t, c, ip);
  }

  method EnterCuts(opt: array<Optimal>, cur: nat, last0: nat, a: Match, ghost t: seq<byte>, ghost c: HcCall, ghost ip: nat)
    returns (last: nat)
    requires Filled(t, c, ip, opt[..], last0 + TRAILING_LITERALS) && 1 <= cur < last0 < LZ4_OPT_NUM
    requires Real(t, c, a) && a.start == ip + cur && cur + a.len < LZ4_OPT_NUM && a.len >= MINMATCH
    modifies opt
    ensures last0 <= last < LZ4_OPT_NUM && Filled(t, c, ip, opt[..], last) && (last == last0 || last == cur + a.len)
  {
    hide Filled, EndsAt, Real;
    FilledAt(t, c, ip, opt[..], last0 + TRAILING_LITERALS, cur);
    last := last0;
    ghost var hi: nat := last0 + TRAILING_LITERALS;
    for ml := MINMATCH to a.len + 1
      invariant opt.Length == OPT_SIZE && hi < OPT_SIZE && Filled(t, c, ip, opt[..], hi)
      invariant cur + ml - 1 <= hi && last0 + TRAILING_LITERALS <= hi
      invariant if ml <= a.len then last == last0 else last0 <= last <= hi && (last == last0 || last == cur + a.len)
      invariant last0 < LZ4_OPT_NUM
    {
      var pos := cur + ml;
      FilledAt(t, c, ip, opt[..], hi, cur);
      var ll := if opt[cur].mlen == 1 then opt[cur].litlen else 0;
      var price := if opt[cur].mlen == 1
                   then (if cur > ll then opt[cur - ll].price else 0) + SequencePrice(ll, ml)
                   else opt[cur].price + SequencePrice(0, ml);
      if pos > last + TRAILING_LITERALS || price <= opt[pos].price {
        if ml == a.len && last < pos {
          last := pos;
        }
        ghost var s := opt[..];
        opt[pos] := Optimal(price, a.start - a.ref, ml, ll);
        MatchEndsAt(t, c, ip, cur, a, ml, price, ll);
        FilledSet(t, c, ip, s, hi, pos, opt[pos]);
        assert opt[..] == s[pos := opt[pos]];
        hi := if pos > hi then pos else hi;
      }
    }
    FilledLess(t, c, ip, opt[..], hi, last);
  }

  // ---------------------------------------------------------------- turning the path around

  /** From position `p` on, the entries lead, each to where its step ends, to position `to`. */
  ghost predicate Path(t: seq<byte>, c: HcCall, ip: nat, opt: seq<Optimal>, p: nat, to: nat)
    decreases if p < to then to - p else 0
  {
    p == to || (p < to && p < |opt| && opt[p].mlen >= 1 && Step(t, c, ip, p, opt[p].mlen, opt[p].off)
                && Path(t, c, ip, opt, p + opt[p].mlen, to))
  }

  lemma {:induction false} PathKept(t: seq<byte>, c: HcCall, ip: nat, opt: seq<Optimal>, p: nat, to: nat, q: nat, e: Optimal)
    requires Path(t, c, ip, opt, p, to) && q < p && q < |opt|
    ensures Path(t, c, ip, opt[q := e], p, to)
    decreases if p < to then to - p else 0
  {
    hide Step;
    if p != to {
      PathKept(t, c, ip, opt, p + opt[p].mlen, to, q, e);
    }
  }

  /** The reverse traversal: what ended at each position of the path starts there afterwards;
      the traversal comes out exactly at 0, and the path tiles the range up to the end of its
      last step. */
  method ReverseTraversal(opt: array<Optimal>, cur: nat, bestMlen: nat, bestOff: int,
                          ghost t: seq<byte>, ghost c: HcCall, ghost ip: nat)
    requires Filled(t, c, ip, opt[..], cur) && bestMlen >= 1 && Step(t, c, ip, cur, bestMlen, bestOff)
    modifies opt
    ensures Path(t, c, ip, opt[..], 0, cur + bestMlen) && opt.Length == OPT_SIZE
  {
    hide Step, Path, Filled;
    var pos: nat, selectedLength: nat, selectedOffset: int := cur, bestMlen, bestOff;
    ghost var s0 := opt[..];
    FilledAt(t, c, ip, s0, cur, cur);
    PathDone(t, c, ip, opt[..], cur + bestMlen);
    while true
      invariant pos <= cur && opt.Length == OPT_SIZE && opt[..pos + 1] == s0[..pos + 1]
      invariant selectedLength >= 1 && Step(t, c, ip, pos, selectedLength, selectedOffset)
      invariant Path(t, c, ip, opt[..], pos + selectedLength, cur + bestMlen) && pos + selectedLength <= cur + bestMlen
      decreases pos
    {
      ghost var s := opt[..];
      assert opt[pos] == opt[..pos + 1][pos] == s0[pos];
      FilledAt(t, c, ip, s0, cur, pos);
      var nextLength, nextOffset := opt[pos].mlen, opt[pos].off;
      opt[pos] := opt[pos].(mlen := selectedLength, off := selectedOffset);
      assert opt[..] == s[pos := opt[pos]];
      PathOn(t, c, ip, s, pos, selectedLength, selectedOffset, cur + bestMlen, opt[pos]);
      selectedLength, selectedOffset := nextLength, nextOffset;
      if nextLength > pos {
        return;
      }
      pos := pos - nextLength;
      assert opt[..pos + 1] == s[..pos + 1] == s0[..pos + 1];
    }
  }

  lemma PathDone(t: seq<byte>, c: HcCall, ip: nat, opt: seq<Optimal>, to: nat)
    ensures Path(t, c, ip, opt, to, to)
  {
  }

  lemma PathOn(t: seq<byte>, c: HcCall, ip: nat, opt: seq<Optimal>, p: nat, mlen: nat, off: int, to: nat, e: Optimal)
    requires p < |opt| && Path(t, c, ip, opt, p + mlen, to) && mlen >= 1 && Step(t, c, ip, p, mlen, off)
    requires e.mlen == mlen && e.off == off && p + mlen <= to
    ensures Path(t, c, ip, opt[p := e], p, to)
  {
    hide Step;
    PathKept(t, c, ip, opt, p + mlen, to, p, e);
  }

  // ---------------------------------------------------------------- the parser

  /** Not worth searching at `cur`: the next position comes for the same price or less. */
  method Skippable(opt: array<Optimal>, cur: nat, fullUpdate: bool) returns (skip: bool)
    requires cur + MINMATCH < opt.Length
  {
    skip := opt[cur + 1].price <= opt[cur].price && (fullUpdate ==> opt[cur + MINMATCH].price < opt[cur].price + 3);
  }

  /** Where the best path found ends: its last step leads from `cur` over `mlen` bytes. */
  ghost predicate BestPath(t: seq<byte>, c: HcCall, ip: nat, opt: seq<Optimal>, cur: nat, mlen: nat, off: int, last: nat) {
    Filled(t, c, ip, opt, cur) && mlen >= 1 && Step(t, c, ip, cur, mlen, off) && 1 <= last <= cur + mlen
  }

  lemma BestEntry(t: seq<byte>, c: HcCall, ip: nat, opt: seq<Optimal>, last: nat)
    requires Filled(t, c, ip, opt, last) && last >= 1
    ensures var e := opt[last]; 1 <= e.mlen <= last && BestPath(t, c, ip, opt, last - e.mlen, e.mlen, e.off, last)
  {
    hide Step;
  }

  lemma BestNow(t: seq<byte>, c: HcCall, ip: nat, opt: seq<Optimal>, hi: nat, cur: nat, a: Match)
    requires Filled(t, c, ip, opt, hi) && cur <= hi && Real(t, c, a) && a.start == ip + cur && a.len >= MINMATCH
    ensures BestPath(t, c, ip, opt, cur, a.len, a.start - a.ref, cur + 1)
  {
    hide Real;
  }

  /** Looks for matches at all further positions the table reaches, until one is good enough to
      be taken at once or there is none left to look at. */
  method CheckFurther(mem: array<byte>, hash: array<nat>, chain: array<nat>, opt: array<Optimal>, c: HcCall, nextToUpdate: nat,
                      ghost t: seq<byte>, ip: nat, last0: nat, nbSearches: nat, sufficientLen: nat, fullUpdate: bool)
    returns (cur: nat, bestMlen: nat, bestOff: int, last: nat, next: nat)
    requires c.Valid(mem.Length) && t == c.v.Text(mem[..]) && c.src <= ip && hash != chain
    requires Linked(hash[..], chain[..], c.v, nextToUpdate) && c.v.base + nextToUpdate <= ip
    requires 1 <= last0 < LZ4_OPT_NUM && ip + last0 <= c.Matchlimit() && Filled(t, c, ip, opt[..], last0 + TRAILING_LITERALS)
    modifies hash, chain, opt
    ensures Linked(hash[..], chain[..], c.v, next) && c.v.base + next <= ip + last
    ensures next == nextToUpdate || c.v.base + next <= c.Iend() - 3
    ensures BestPath(t, c, ip, opt[..], cur, bestMlen, bestOff, last)
  {
    hide Linked, Filled, View.Text, Real, Step;
    last, next, cur := last0, nextToUpdate, 1;
    FilledAt(t, c, ip, opt[..], last + TRAILING_LITERALS, 0);
    while cur < last && ip + cur < c.Mflimit()
      invariant opt.Length == OPT_SIZE && 1 <= cur <= last < LZ4_OPT_NUM && ip + last <= c.Matchlimit()
      invariant Filled(t, c, ip, opt[..], last + TRAILING_LITERALS)
      invariant Linked(hash[..], chain[..], c.v, next) && c.v.base + next <= ip + cur
      invariant next == nextToUpdate || c.v.base + next <= c.Iend() - 3
      decreases OPT_SIZE - cur
    {
      var skip := Skippable(opt, cur, fullUpdate);
      if !skip {
        var a;
        var minLen := if fullUpdate then MINMATCH - 1 else last - cur;
        a, next := FindWider(mem, hash, chain, c, next, ip + cur, ip + cur, minLen, nbSearches, true);
        if a.len > minLen {
          RealBounds(t, c, a);
          if a.len > sufficientLen || a.len + cur >= LZ4_OPT_NUM {
            BestNow(t, c, ip, opt[..], last + TRAILING_LITERALS, cur, a);
            return cur, a.len, a.start - a.ref, cur + 1, next;
          }
          last := EnterMatch(opt, cur, last, a, t, c, ip);
          FilledAt(t, c, ip, opt[..], last + TRAILING_LITERALS, 0);
        }
      }
      cur := cur + 1;
    }
    FilledLess(t, c, ip, opt[..], last + TRAILING_LITERALS, last);
    FilledAt(t, c, ip, opt[..], last, last);
    BestEntry(t, c, ip, opt[..], last);
    bestMlen, bestOff := opt[last].mlen, opt[last].off;
    cur := last - bestMlen;
  }

  lemma PathStep(t: seq<byte>, c: HcCall, ip: nat, opt: seq<Optimal>, p: nat, to: nat)
    requires Path(t, c, ip, opt, p, to) && p < to
    ensures p < |opt| && opt[p].mlen >= 1 && p + opt[p].mlen <= to && Path(t, c, ip, opt, p + opt[p].mlen, to)
    ensures opt[p].mlen != 1 ==> MINMATCH <= opt[p].mlen && Real(t, c, Match(ip + p, opt[p].mlen, ip + p - opt[p].off))
  {
    hide Real;
  }

  /** Writes the matches of the path in order. */
  method EncodePath(mem: array<byte>, opt: array<Optimal>, c: HcCall, ghost t: seq<byte>, op: nat, anchor: nat, ip: nat,
                    last: nat, ghost to: nat, ghost qs: seq<Sequence>)
    returns (ok: bool, op': nat, anchor': nat, rPos: nat, ghost qs': seq<Sequence>)
    requires c.Valid(mem.Length) && Progress(mem[..], c, t, op, anchor, qs) && anchor <= ip
    requires Path(t, c, ip, opt[..], 0, to) && last <= to
    modifies mem
    ensures SameOutside(old(mem[..]), mem[..], c.dst, c.dst + c.OutRoom())
    ensures ok ==> Progress(mem[..], c, t, op', anchor', qs') && anchor' <= ip + rPos && last <= rPos <= to
    ensures !c.limited ==> ok
  {
    hide SameOutside, Progress, Path, Real;
    ghost var m0, hi := mem[..], c.dst + c.OutRoom();
    SameOutsideRefl(m0, c.dst, hi);
    ok, op', anchor', rPos, qs' := true, op, anchor, 0, qs;
    while rPos < last
      invariant ok && rPos <= to && Path(t, c, ip, opt[..], rPos, to) && anchor' <= ip + rPos
      invariant Progress(mem[..], c, t, op', anchor', qs') && SameOutside(m0, mem[..], c.dst, hi)
      decreases if rPos < to then to - rPos else 0
    {
      PathStep(t, c, ip, opt[..], rPos, to);
      var ml, offset := opt[rPos].mlen, opt[rPos].off;
      if ml == 1 {
        rPos := rPos + 1;
      } else {
        ghost var m1 := mem[..];
        ok, op', qs' := EncodeSequenceHc(mem, c, t, op', anchor', Match(ip + rPos, ml, ip + rPos - offset), qs');
        SameOutsideCompose(m0, m1, mem[..], c.dst, c.dst, hi);
        if !ok {
          return;
        }
        rPos := rPos + ml;
        anchor' := ip + rPos;
      }
    }
  }

  /** From a first match on: immediate encoding, or table, traversal and encoding. */
  method ParseFrom(mem: array<byte>, hash: array<nat>, chain: array<nat>, opt: array<Optimal>, c: HcCall, nextToUpdate: nat,
                   ghost t: seq<byte>, op: nat, anchor: nat, first: Match, nbSearches: nat, sufficientLen: nat,
                   fullUpdate: bool, ghost qs: seq<Sequence>)
    returns (ok: bool, next: nat, op': nat, anchor': nat, ip: nat, ghost qs': seq<Sequence>)
    requires c.Valid(mem.Length) && Progress(mem[..], c, t, op, anchor, qs) && hash != chain && opt.Length == OPT_SIZE
    requires Linked(hash[..], chain[..], c.v, nextToUpdate) && c.v.base + nextToUpdate <= first.start
    requires Real(t, c, first) && anchor <= first.start && sufficientLen < LZ4_OPT_NUM
    modifies mem, hash, chain, opt
    ensures SameOutside(old(mem[..]), mem[..], c.dst, c.dst + c.OutRoom())
    ensures Linked(hash[..], chain[..], c.v, next)
    ensures next == nextToUpdate || c.v.base + next <= c.Iend() - 3
    ensures ok ==> Progress(mem[..], c, t, op', anchor', qs') && anchor' <= ip && first.start < ip && c.v.base + next <= ip
    ensures !c.limited ==> ok
  {
    hide SameOutside, Progress, Path, Filled, Real, Linked, BestPath, View.Text;
    RealBounds(t, c, first);
    ProgressText(mem[..], c, t, op, anchor, qs);
    if first.len > sufficientLen {
      ok, op', qs' := EncodeSequenceHc(mem, c, t, op, anchor, first, qs);
      next, anchor', ip := nextToUpdate, first.End(), first.End();
      return;
    }
    ip := first.start;
    SetInitialPrices(opt, ip - anchor, first, t, c, ip);
    var cur, bestMlen, bestOff, last;
    cur, bestMlen, bestOff, last, next := CheckFurther(mem, hash, chain, opt, c, nextToUpdate, t, ip, first.len,
                                                       nbSearches, sufficientLen, fullUpdate);
    BestFacts(t, c, ip, opt[..], cur, bestMlen, bestOff, last);
    ReverseTraversal(opt, cur, bestMlen, bestOff, t, c, ip);
    var rPos;
    ok, op', anchor', rPos, qs' := EncodePath(mem, opt, c, t, op, anchor, ip, last, cur + bestMlen, qs);
    ip := ip + rPos;
  }

  lemma BestFacts(t: seq<byte>, c: HcCall, ip: nat, opt: seq<Optimal>, cur: nat, mlen: nat, off: int, last: nat)
    requires BestPath(t, c, ip, opt, cur, mlen, off, last)
    ensures Filled(t, c, ip, opt, cur) && mlen >= 1 && Step(t, c, ip, cur, mlen, off) && 1 <= last <= cur + mlen
  {
  }

  /** LZ4HC_compress_optimal, without and with output limit: a positive result is a block
      faithful to the source behind the history. */
  method CompressOptimal(mem: array<byte>, hash: array<nat>, chain: array<nat>, c: HcCall, nextToUpdate: nat,
                         nbSearches: nat, targetLength: nat, fullUpdate: bool)
    returns (r: nat, next: nat, ghost qs: seq<Sequence>)
    requires c.Valid(mem.Length) && hash != chain
    requires Linked(hash[..], chain[..], c.v, nextToUpdate) && c.v.base + nextToUpdate <= c.src
    modifies mem, hash, chain
    ensures SameOutside(old(mem[..]), mem[..], c.dst, c.dst + c.OutRoom())
    ensures Linked(hash[..], chain[..], c.v, next)
    ensures next == nextToUpdate || c.v.base + next <= c.Iend() - 3
    ensures r <= c.OutRoom() && (c.limited ==> r <= c.maxOutputSize) && (!c.limited ==> r > 0)
    ensures r > 0 ==>
      FaithfulBlock(mem[c.dst..c.dst + r], old(c.History(mem[..])), old(mem[c.src..c.Iend()]), qs)
  {
    hide Linked, Progress, SameOutside, Real, View.Text, FaithfulBlock;
    ghost var m0, t, hi := mem[..], c.v.Text(mem[..]), c.dst + c.OutRoom();
    SameOutsideRefl(m0, c.dst, hi);
    ProgressStart(m0, c);
    var opt := new Optimal[OPT_SIZE](_ => Optimal(0, 0, 0, 0));
    var sufficientLen := if targetLength >= LZ4_OPT_NUM then LZ4_OPT_NUM - 1 else targetLength;
    var ip, anchor, op := c.src, c.src, c.dst;
    next, qs, r := nextToUpdate, [], 0;
    while ip < c.Mflimit()
      invariant c.src <= anchor <= ip && c.v.base + next <= ip
      invariant next == nextToUpdate || c.v.base + next <= c.Iend() - 3
      invariant SameOutside(m0, mem[..], c.dst, hi) && Linked(hash[..], chain[..], c.v, next)
      invariant Progress(mem[..], c, t, op, anchor, qs)
      decreases c.Iend() - ip
    {
      ghost var m1 := mem[..];
      ProgressText(m1, c, t, op, anchor, qs);
      var first;
      first, next := FindWider(mem, hash, chain, c, next, ip, ip, MINMATCH - 1, nbSearches, true);
      if first.len <= MINMATCH - 1 {
        ip := ip + 1;
      } else {
        var ok;
        ok, next, op, anchor, ip, qs := ParseFrom(mem, hash, chain, opt, c, next, t, op, anchor, first,
                                                  nbSearches, sufficientLen, fullUpdate, qs);
        SameOutsideCompose(m0, m1, mem[..], c.dst, c.dst, hi);
        if !ok {
          return;
        }
        ProgressBounds(mem[..], c, t, op, anchor, qs);
      }
    }
    ghost var m1 := mem[..];
    SourceKept(m0, m1, c);
    r := LastLiterals(mem, c, t, op, anchor, qs);
    SameOutsideCompose(m0, m1, mem[..], c.dst, c.dst, hi);
  }
}
