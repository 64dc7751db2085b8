/** The one-shot block functions, and the block round trip. */
module BlockApi {
  import opened BlockFormat
  import opened Memory
  import opened MatchCount
  import opened Encoding
  import opened Emitter
  import opened FastSearch
  import opened FastCompressor
  import opened FastDecoder

  /** The accelerations that work: everything but the positive multiples of 2^26. */
  predicate Advancing(acceleration: int) {
    acceleration < 1 || acceleration % 0x400_0000 != 0
  }

  lemma AdvancingIs(a: nat)
    ensures a * SKIP_TRIGGER % TWO32 != 0 <==> a % 0x400_0000 != 0
  {
    var q, r := a / 0x400_0000, a % 0x400_0000;
    assert a * SKIP_TRIGGER == q * TWO32 + r * SKIP_TRIGGER;
    assert 0 <= r * SKIP_TRIGGER < TWO32;
    assert a * SKIP_TRIGGER % TWO32 == r * SKIP_TRIGGER;
  }

  /** When a call without history can be relied on, as far as acceleration and size go. */
  predicate Works(acceleration: int, n: int) {
    Advancing(acceleration) || n <= MFLIMIT + 1
  }

  /** A source on which a search that does not advance goes wrong, behind history `h`: its first
      byte is not zero, its first three groups of four bytes differ, its second and third byte
      are new. */
  ghost predicate Confusing(h: seq<byte>, source: seq<byte>) {
    && |source| > MFLIMIT + 1 && source[0] != 0 && source[1] !in h && source[2] !in h
    && !Agree(source, 1, 0, 4) && !Agree(source, 2, 0, 4) && !Agree(source, 2, 1, 4)
  }

  /** The first `n` bytes of 1, 2, 3, 4, 5, 6, 0, 0, 0 and so on. */
  function Counting(n: nat): (s: seq<byte>)
    ensures |s| == n
  {
    seq(n, i => if i < 6 then i + 1 else 0)
  }

  /** There is one of every length from fourteen on. */
  lemma CountingConfuses(h: seq<byte>, n: nat)
    requires n > MFLIMIT + 1 && 2 !in h && 3 !in h
    ensures Confusing(h, Counting(n))
  {
    var source := Counting(n);
    assert source[1] != source[1 + (0 - 1)];
    assert source[2] != source[2 + (0 - 2)];
    assert source[2] != source[2 + (1 - 2)];
  }

  function CompressParams(src: nat, dst: nat, n: nat, maxOutputSize: nat, acceleration: int): Params {
    var limited := maxOutputSize < CompressBound(n);
    Params(src, n, dst, if limited then maxOutputSize else 0, limited, if n < LIMIT64K then ByU16 else ByU32,
           NoDict, false, if acceleration < 1 then 1 else acceleration, 0, 0, 0)
  }

  /** LZ4_compress_fast_extState.  A positive result is a block that decodes to the source,
      within the parsing restrictions and with all offsets in 1..65535 -- for every source,
      unless the acceleration is a positive multiple of 2^26 and the source longer than 13
      bytes; then every confusing source yields a block that decodes to something else. */
  method CompressFastExtState(mem: array<byte>, src: nat, dst: nat, inputSize: int, maxOutputSize: nat, acceleration: int)
    returns (r: nat, ghost qs: seq<Sequence>)
    requires 0 <= inputSize <= LZ4_MAX_INPUT_SIZE ==>
      && src + inputSize <= mem.Length && dst + CompressBound(inputSize) <= mem.Length
      && Disjoint(src, src + inputSize, dst, dst + CompressBound(inputSize))
    modifies mem
    ensures r <= maxOutputSize && SameOutside(old(mem[..]), mem[..], dst, dst + CompressBound(inputSize))
    ensures r > 0 ==> 0 <= inputSize <= LZ4_MAX_INPUT_SIZE && r <= CompressBound(inputSize)
    ensures 0 <= inputSize <= LZ4_MAX_INPUT_SIZE && maxOutputSize >= CompressBound(inputSize) ==> r > 0
    ensures r > 0 && Works(acceleration, inputSize) ==> FaithfulBlock(mem[dst..dst + r], [], old(mem[src..src + inputSize]), qs)
    ensures 0 <= inputSize <= LZ4_MAX_INPUT_SIZE && !Works(acceleration, inputSize) && Confusing([], old(mem[src..src + inputSize])) ==>
      && (maxOutputSize >= inputSize - 1 ==> r > 0)
      && (r > 0 ==> Misread(mem[dst..dst + r], [], old(mem[src..src + inputSize])))
  {
    hide Decode, FaithfulBlock, BlockOf, FaultyStart, Confusing, SameOutside, Sound, Dependable, Hooked, Misread,
         OnlyNewPositions, Stuck, Params.Text, Params.History;
    qs := [];
    SameOutsideRefl(mem[..], dst, dst + CompressBound(inputSize));
    if inputSize < 0 || inputSize > LZ4_MAX_INPUT_SIZE {
      return 0, qs;
    }
    var p := CompressParams(src, dst, inputSize, maxOutputSize, acceleration);
    var table := new nat[TableSize(p.tableType)](i => 0);
    ghost var m0, t0, source := mem[..], table[..], mem[src..src + inputSize];
    AdvancingIs(p.acceleration);
    if !Works(acceleration, inputSize) && Confusing([], source) {
      ConfusingIsStuck(m0, p, t0, [], source);
    }
    r, qs := CompressGeneric(mem, table, p);
    if r > 0 {
      ghost var block := mem[dst..dst + r];
      assert block == mem[..][p.dst..p.dst + r] && source == m0[p.src..p.Iend()];
      OneShotResult(m0, t0, mem[..], p, acceleration, r, qs, source, block);
    }
  }

  lemma OneShotResult(m0: seq<byte>, t0: seq<nat>, m1: seq<byte>, p: Params, acceleration: int, r: nat,
                      qs: seq<Sequence>, source: seq<byte>, block: seq<byte>)
    requires p.Valid(|m0|) && |m1| == |m0| && r <= p.OutRoom() && p.dict == NoDict && |t0| == TableSize(p.tableType)
    requires p.acceleration == if acceleration < 1 then 1 else acceleration
    requires source == m0[p.src..p.Iend()] && block == m1[p.dst..p.dst + r]
    requires BlockOf(m1, p, r, p.History(m0), p.Text(m0), qs, Dependable(p, t0))
    requires p.n >= MFLIMIT + 1 ==> FaultyStart(m0, t0, p, qs)
    ensures Works(acceleration, p.n) ==> FaithfulBlock(block, [], source, qs)
    ensures !Works(acceleration, p.n) && Confusing([], source) ==> Misread(block, [], source)
  {
    hide Decode, Restricted, EncodeBlock, OffsetsLegal, Stuck, Straddles, Agree, Hooked, Misread;
    AdvancingIs(p.acceleration);
    assert p.Text(m0) == source && p.History(m0) == [] && [] + source == source;
    if !Works(acceleration, p.n) && Confusing([], source) {
      ConfusingIsStuck(m0, p, t0, [], source);
      var a: nat :| a <= |source| && block == EncodeBlock(qs, source[a..]);
      StuckIsWrong([], source, qs, source[a..]);
    }
  }

  lemma ConfusingIsStuck(m: seq<byte>, p: Params, t: seq<nat>, h: seq<byte>, source: seq<byte>)
    requires p.Valid(|m|) && !p.Advances() && |t| == TableSize(p.tableType)
    requires h == p.History(m) && source == m[p.src..p.Iend()] && Confusing(h, source)
    ensures Stuck(m, p) && (p.maxOutputSize >= p.n - 1 ==> Hooked(m, t, p))
  {
    hide p.History, Straddles;
    SliceAgree(m, p.src, p.Iend(), 1, 0);
    SliceAgree(m, p.src, p.Iend(), 2, 0);
    SliceAgree(m, p.src, p.Iend(), 2, 1);
    assert source[1] == m[p.src + 1] && source[2] == m[p.src + 2];
  }

  /** The other half: for every acceleration and size that do not work, and any room worth
      giving, there is a source that comes back as something else. */
  method GoesWrong(mem: array<byte>, src: nat, dst: nat, n: nat, maxOutputSize: nat, acceleration: int) returns (r: nat)
    requires !Works(acceleration, n) && n <= LZ4_MAX_INPUT_SIZE && maxOutputSize >= n - 1
    requires src + n <= mem.Length && dst + CompressBound(n) <= mem.Length && Disjoint(src, src + n, dst, dst + CompressBound(n))
    modifies mem
    ensures 0 < r <= CompressBound(n) && Decode(mem[dst..dst + r], 0, []) != Some(mem[src..src + n])
  {
    hide Decode, FaithfulBlock, Confusing, SameOutside, Misread, Counting;
    ghost var source := Counting(n);
    CountingConfuses([], n);
    Fill(mem, src, Counting(n));
    ghost var m0, qs := mem[..], [];
    r, qs := CompressFastExtState(mem, src, dst, n, maxOutputSize, acceleration);
    SliceKept(m0, mem[..], dst, dst + CompressBound(n), src, src + n);
    MisreadIsWrong(mem[dst..dst + r], [], source);
    assert [] + source == source;
  }

  lemma SliceAgree(m: seq<byte>, lo: nat, hi: nat, a: nat, b: nat)
    requires lo + a + 4 <= hi <= |m| && lo + b + 4 <= hi
    ensures Agree(m, lo + a, lo + b, 4) ==> Agree(m[lo..hi], a, b, 4)
  {
    if Agree(m, lo + a, lo + b, 4) {
      forall i | a <= i < a + 4 ensures m[lo..hi][i] == m[lo..hi][i + (b - a)] {
        assert m[lo + i] == m[lo + i + (lo + b - (lo + a))];
      }
    }
  }

  /** The worst case of the largest supported source still fits a 32-bit int, and so does every
      other, being no larger; nothing but a source of unsupported size has bound 0. */
  lemma BoundFitsInt(n: int, n': int)
    ensures CompressBound(n) <= CompressBound(LZ4_MAX_INPUT_SIZE) <= INT_MAX
    ensures CompressBound(n) > 0 <==> 0 <= n <= LZ4_MAX_INPUT_SIZE
    ensures 0 <= n <= n' <= LZ4_MAX_INPUT_SIZE ==> CompressBound(n) + (n' - n) <= CompressBound(n')
  {
    if 0 <= n <= n' <= LZ4_MAX_INPUT_SIZE {
      assert n / 255 <= n' / 255;
    }
  }

  // ---------------------------------------------------------------- decompression

  /** What a decoding call with history `h` may return: the number of bytes the reference
      decoder produces, those bytes being in place; with its whole history intact, success
      means that the reference decoder succeeds. */
  ghost predicate DecodedTo(block: seq<byte>, h: seq<byte>, intact: bool, r: int, out: seq<byte>) {
    r >= 0 ==>
      && |out| == r
      && (intact ==> Decode(block, 0, h).Some?)
      && (Decode(block, 0, h).Some? ==> Decode(block, 0, h).value == h + out)
  }

  /** The same for a call that finds the block at `source..iend` of memory `m0` and leaves memory
      `m1`: it writes into its output space only, and a block it has to decode it does decode. */
  ghost predicate Decodes(m0: seq<byte>, m1: seq<byte>, source: nat, iend: nat, dest: nat, oend: nat,
                          h: seq<byte>, intact: bool, r: int)
    requires source <= iend <= |m0| && dest <= oend
  {
    && |m1| == |m0| && r <= oend - dest <= |m0| - dest && SameOutside(m0, m1, dest, oend)
    && DecodedTo(m0[source..iend], h, intact, r, if r >= 0 then m1[dest..dest + r] else [])
    && (MustDecode(m0[source..iend], h, oend - dest) ==> r >= 0)
  }

  /** LZ4_decompress_safe: no history. */
  method DecompressSafe(mem: array<byte>, source: nat, dest: nat, compressedSize: nat, maxDecompressedSize: nat)
    returns (r: int)
    requires source + compressedSize + 2 <= mem.Length && dest + maxDecompressedSize <= mem.Length
    requires Disjoint(source, source + compressedSize, dest, dest + maxDecompressedSize)
    modifies mem
    ensures Decodes(old(mem[..]), mem[..], source, source + compressedSize, dest, dest + maxDecompressedSize, [], true, r)
  {
    hide Decodes;
    r := WithPrefix(mem, source, source + compressedSize, dest, dest + maxDecompressedSize, dest, []);
  }

  /** DecompressGeneric, restated for a history given as a sequence. */
  method WithHistory(mem: array<byte>, j: Job, ghost hd: nat, ghost h: seq<byte>) returns (r: int)
    requires j.Valid(mem.Length) && hd <= j.dictSize && Disjoint(j.dictEnd - hd, j.dictEnd, j.dst, j.oend)
    requires h == mem[j.dictEnd - hd..j.dictEnd] + mem[j.lowPrefix..j.dst]
    modifies mem
    ensures Decodes(old(mem[..]), mem[..], j.src, j.iend, j.dst, j.oend, h, Reaches(hd, j.dictSize), r)
  {
    hide Decode, MustDecode, SameOutside;
    ghost var m0 := mem[..];
    assert Input(m0, j) == m0[j.src..j.iend] && Window(m0, j, hd, j.dst) == h;
    r := DecompressGeneric(mem, j, hd);
    if r >= 0 {
      WindowSplits(m0, mem[..], j, hd, r);
    }
  }

  lemma WindowSplits(m0: seq<byte>, m1: seq<byte>, j: Job, hd: nat, r: nat)
    requires j.Valid(|m0|) && hd <= j.dictSize && Disjoint(j.dictEnd - hd, j.dictEnd, j.dst, j.oend)
    requires SameOutside(m0, m1, j.dst, j.oend) && j.dst + r <= j.oend
    ensures Window(m1, j, hd, j.dst + r) == Window(m0, j, hd, j.dst) + m1[j.dst..j.dst + r]
  {
    LiteralsExtendWindow(m0, m1, j, hd, j.dst, m1[j.dst..j.dst + r]);
  }

  /** A faithful block is one that every decoder with this history and enough room must take. */
  lemma FaithfulMustDecode(block: seq<byte>, h: seq<byte>, source: seq<byte>, qs: seq<Sequence>, capacity: nat)
    requires FaithfulBlock(block, h, source, qs) && capacity >= |source|
    ensures MustDecode(block, h, capacity) && Decode(block, 0, h) == Some(h + source)
  {
    hide Restricted, Decode, OffsetsLegal, EncodeBlock, AllWellFormed;
    if capacity == 0 {
      FaithfulToNothing(block, h, qs);
    }
  }

  lemma FaithfulToNothing(block: seq<byte>, h: seq<byte>, qs: seq<Sequence>)
    requires FaithfulBlock(block, h, [], qs)
    ensures block == [0]
  {
    hide Restricted, Decode, OffsetsLegal, EncodeBlock, AllWellFormed;
    var a: nat :| a <= |h + []| && block == EncodeBlock(qs, (h + [])[a..]);
    EmptySourceBlock(|h|, qs, (h + [])[a..]);
  }

  /** The block of an empty source is a single zero token. */
  lemma EmptySourceBlock(n: nat, qs: seq<Sequence>, last: seq<byte>)
    requires AllWellFormed(qs) && Restricted(EncodeBlock(qs, last), 0, n, n)
    ensures EncodeBlock(qs, last) == [0]
  {
    hide EncodeSequence, EncodeAll, EncodeLast, At, ParseAt, LengthBytes;
    var b := EncodeBlock(qs, last);
    if qs != [] {
      assert WellFormed(qs[0]) by { assert qs[0] in qs; }
      EncodeAllFront(qs, EncodeLast(last));
      ParseSequence(b, 0, qs[0]);
    } else {
      NoSequences(last);
      ParseLast(b, 0, last);
      assert last == [];
    }
  }

  lemma NoSequences(last: seq<byte>)
    ensures var b := EncodeBlock([], last); At(b, 0, EncodeLast(last)) && b == EncodeLast(last)
    ensures EncodeLast([]) == [0]
  {
  }

  lemma {:induction false} RestrictedShift(s: seq<byte>, i: nat, n: nat, total: nat, x: nat)
    ensures Restricted(s, i, n, total) <==> Restricted(s, i, n + x, total + x)
    decreases |s| - i
  {
    var p := ParseAt(s, i);
    if p.Full? {
      RestrictedShift(s, p.next, n + p.length + p.matchLength, total, x);
    }
  }

  /** More history never makes a block undecodable, and beyond 65535 bytes it makes no
      difference at all. */
  lemma HistoryGrows(x: seq<byte>, s: seq<byte>, h: seq<byte>, capacity: nat)
    ensures MustDecode(s, h, capacity) ==> MustDecode(s, x + h, capacity)
    ensures |h| >= MAX_DISTANCE && MustDecode(s, x + h, capacity) ==> MustDecode(s, h, capacity)
  {
    hide Decode, Restricted;
    if |h| >= MAX_DISTANCE {
      DecodeNeedsOnly64K(x, s, 0, h);
    }
    if Decode(s, 0, h).Some? {
      DecodeWithMoreHistory(x, s, 0, h);
      RestrictedShift(s, 0, |h|, |Decode(s, 0, h).value|, |x|);
    }
  }

  lemma DecodedToMore(x: seq<byte>, s: seq<byte>, h: seq<byte>, intact: bool, r: int, out: seq<byte>)
    ensures DecodedTo(s, x + h, intact, r, out) && (|h| >= MAX_DISTANCE || !intact) ==> DecodedTo(s, h, intact, r, out)
    ensures DecodedTo(s, h, true, r, out) ==> DecodedTo(s, x + h, true, r, out)
  {
    hide Decode;
    if |h| >= MAX_DISTANCE {
      DecodeNeedsOnly64K(x, s, 0, h);
    }
    if Decode(s, 0, h).Some? {
      DecodeWithMoreHistory(x, s, 0, h);
      var v := Decode(s, 0, h).value;
      assert x + (h + out) == (x + h) + out;
      assert (x + v)[|x|..] == v && (x + (h + out))[|x|..] == h + out;
    }
  }

  /** LZ4_decompress_safe_usingDict.  Only the last `hd` bytes of the dictionary need to be
      clear of the output space; a dictionary that ends where the output begins always is. */
  method DecompressSafeUsingDict(mem: array<byte>, source: nat, dest: nat, compressedSize: nat, maxOutputSize: nat,
                                 dictStart: nat, dictSize: nat, ghost hd: nat) returns (r: int)
    requires source + compressedSize + 2 <= mem.Length && dest + maxOutputSize <= mem.Length
    requires Disjoint(source, source + compressedSize, dest, dest + maxOutputSize)
    requires dictStart + dictSize <= mem.Length && hd <= dictSize && (dictSize > 0 ==> dictStart > 0)
    requires Disjoint(dictStart + dictSize - hd, dictStart + dictSize, dest, dest + maxOutputSize)
    requires dictStart + dictSize == dest ==> hd == dictSize
    modifies mem
    ensures Decodes(old(mem[..]), mem[..], source, source + compressedSize, dest, dest + maxOutputSize,
                    old(mem[dictStart + dictSize - hd..dictStart + dictSize]), Reaches(hd, dictSize), r)
  {
    hide Decodes;
    var iend, oend, dictEnd := source + compressedSize, dest + maxOutputSize, dictStart + dictSize;
    ghost var h := mem[dictEnd - hd..dictEnd];
    if dictSize == 0 {
      r := WithPrefix(mem, source, iend, dest, oend, dest, h);
    } else if dictEnd == dest {
      if dictSize >= DICT64K - 1 {
        r := WithPrefix64k(mem, source, iend, dest, oend, dictStart, h);
      } else {
        r := WithPrefix(mem, source, iend, dest, oend, dictStart, h);
      }
    } else {
      assert h + mem[dest..dest] == h;
      r := WithHistory(mem, Job(source, iend, dest, oend, true, dest, dictEnd, dictSize), hd, h);
    }
  }

  /** LZ4_decompress_safe_usingDict, given a size that is negative, as sizes of 2 GB and more become
      when they are converted to int.  The end of the dictionary is then looked for before its
      start, and no offset is refused, the size being a large one again by the time it is compared. */
  method DecompressSafeUsingNegative(mem: array<byte>, source: nat, dest: nat, compressedSize: nat, maxOutputSize: nat,
                                     dictStart: nat, dictSize: int, ghost hd: nat) returns (r: int)
    requires source + compressedSize + 2 <= mem.Length && dest + maxOutputSize <= mem.Length
    requires Disjoint(source, source + compressedSize, dest, dest + maxOutputSize)
    requires dictSize < 0 && DICT64K <= dictStart + dictSize <= mem.Length && dictStart + dictSize != dest && hd <= DICT64K
    requires Disjoint(dictStart + dictSize - hd, dictStart + dictSize, dest, dest + maxOutputSize)
    modifies mem
    ensures Decodes(old(mem[..]), mem[..], source, source + compressedSize, dest, dest + maxOutputSize,
                    old(mem[dictStart + dictSize - hd..dictStart + dictSize]), Reaches(hd, DICT64K), r)
  {
    hide Decodes;
    var iend, oend, dictEnd := source + compressedSize, dest + maxOutputSize, dictStart + dictSize;
    ghost var h := mem[dictEnd - hd..dictEnd];
    assert h + mem[dest..dest] == h;
    r := WithHistory(mem, Job(source, iend, dest, oend, true, dest, dictEnd, DICT64K), hd, h);
  }

  method WithPrefix(mem: array<byte>, source: nat, iend: nat, dest: nat, oend: nat, lowPrefix: nat, ghost h: seq<byte>)
    returns (r: int)
    requires source <= iend && iend + 2 <= mem.Length && lowPrefix <= dest <= oend <= mem.Length
    requires Disjoint(source, iend, dest, oend) && h == mem[lowPrefix..dest]
    modifies mem
    ensures Decodes(old(mem[..]), mem[..], source, iend, dest, oend, h, true, r)
  {
    hide Decodes;
    NoDictionary(mem[..], lowPrefix, dest);
    r := WithHistory(mem, Job(source, iend, dest, oend, false, lowPrefix, 0, 0), 0, h);
  }

  lemma NoDictionary(m: seq<byte>, lo: nat, hi: nat)
    requires lo <= hi <= |m|
    ensures m[0..0] + m[lo..hi] == m[lo..hi]
  {
  }

  /** A long dictionary right before the output: the call looks at the last 64 KB of memory. */
  method WithPrefix64k(mem: array<byte>, source: nat, iend: nat, dest: nat, oend: nat, dictStart: nat, ghost h: seq<byte>)
    returns (r: int)
    requires source <= iend && iend + 2 <= mem.Length && 0 < dictStart <= dest <= oend <= mem.Length
    requires Disjoint(source, iend, dest, oend) && h == mem[dictStart..dest] && |h| >= DICT64K - 1
    modifies mem
    ensures Decodes(old(mem[..]), mem[..], source, iend, dest, oend, h, true, r)
  {
    hide Decodes;
    ghost var m0, w := mem[..], mem[dest - DICT64K..dest];
    Suffixes(m0, dest, |h|);
    r := WithPrefix(mem, source, iend, dest, oend, dest - DICT64K, w);
    SameSuffix(m0, mem[..], source, iend, dest, oend, w, h, true, r);
  }

  lemma Suffixes(m: seq<byte>, end: nat, n: nat)
    requires n <= end <= |m| && DICT64K <= end
    ensures var w, h := m[end - DICT64K..end], m[end - n..end];
            if |h| <= |w| then w[|w| - |h|..] == h else h[|h| - |w|..] == w
  {
    if n <= DICT64K {
      SliceOfSlice(m, end - DICT64K, end, end - n, end);
    } else {
      SliceOfSlice(m, end - n, end, end - DICT64K, end);
    }
  }

  /** Two histories, one of them ending with the other: a call that decodes with the first
      decodes with the second, unless the second is the shorter one and below 65535 bytes, or the
      longer one and the first was not intact. */
  lemma SameSuffix(m0: seq<byte>, m1: seq<byte>, source: nat, iend: nat, dest: nat, oend: nat,
                   w: seq<byte>, h: seq<byte>, intact: bool, r: int)
    requires source <= iend <= |m0| && dest <= oend && Decodes(m0, m1, source, iend, dest, oend, w, intact, r)
    requires if |h| <= |w| then w[|w| - |h|..] == h && |h| >= MAX_DISTANCE else h[|h| - |w|..] == w && |w| >= MAX_DISTANCE && intact
    ensures Decodes(m0, m1, source, iend, dest, oend, h, intact, r)
  {
    hide DecodedTo, MustDecode, Decode, SameOutside;
    var s, out, capacity := m0[source..iend], if r >= 0 then m1[dest..dest + r] else [], oend - dest;
    if |h| <= |w| {
      var x := w[..|w| - |h|];
      assert x + h == w;
      DecodedToMore(x, s, h, intact, r, out);
      HistoryGrows(x, s, h, capacity);
    } else {
      var x := h[..|h| - |w|];
      assert x + w == h;
      DecodedToMore(x, s, w, true, r, out);
      HistoryGrows(x, s, w, capacity);
    }
  }

  // ---------------------------------------------------------------- the round trip

  /** `s` ends with `t`. */
  ghost predicate EndsWith(s: seq<byte>, t: seq<byte>) {
    |t| <= |s| && s[|s| - |t|..] == t
  }

  lemma SuffixOfSuffix(a: seq<byte>, b: seq<byte>, c: seq<byte>)
    requires EndsWith(a, b) && EndsWith(b, c)
    ensures EndsWith(a, c)
  {
  }

  lemma SuffixMore(a: seq<byte>, b: seq<byte>, more: seq<byte>)
    requires EndsWith(a, b)
    ensures EndsWith(a + more, b + more) && EndsWith(a + more, more)
  {
  }

  lemma EmptySuffix(s: seq<byte>)
    ensures EndsWith(s, [])
  {
  }

  lemma EndsWithMore(x: seq<byte>, y: seq<byte>, z: seq<byte>)
    requires EndsWith(y, z)
    ensures EndsWith(x + y, z)
  {
  }

  lemma SliceSuffix(m: seq<byte>, a: nat, a': nat, b: nat)
    requires a <= a' <= b <= |m|
    ensures EndsWith(m[a..b], m[a'..b])
  {
    SliceOfSlice(m, a, b, a', b);
  }

  /** A decoder with history `w` has all a block made with history `h` can refer to: all of
      `h`, or its last 65535 bytes. */
  ghost predicate Sees(w: seq<byte>, h: seq<byte>) {
    EndsWith(w, h) || (EndsWith(h, w) && |w| >= MAX_DISTANCE)
  }

  /** A faithful block decodes to its source for every decoder that sees its history. */
  lemma SeesSource(block: seq<byte>, h: seq<byte>, w: seq<byte>, source: seq<byte>, qs: seq<Sequence>, capacity: nat)
    requires FaithfulBlock(block, h, source, qs) && Sees(w, h) && capacity >= |source|
    ensures MustDecode(block, w, capacity) && Decode(block, 0, w) == Some(w + source)
  {
    hide Decode, MustDecode, Restricted, FaithfulBlock;
    FaithfulMustDecode(block, h, source, qs, capacity);
    if EndsWith(w, h) {
      var x := w[..|w| - |h|];
      assert x + h == w && x + (h + source) == w + source;
      HistoryGrows(x, block, h, capacity);
      DecodeWithMoreHistory(x, block, 0, h);
    } else {
      var x := h[..|h| - |w|];
      assert x + w == h;
      HistoryGrows(x, block, w, capacity);
      MustDecodeDecodes(block, w, capacity);
      DecodeWithMoreHistory(x, block, 0, w);
      var v := Decode(block, 0, w).value;
      assert (x + v)[|x|..] == v && (h + source)[|x|..] == w + source;
    }
  }

  lemma DecodesSource(m0: seq<byte>, m1: seq<byte>, source: nat, iend: nat, dest: nat, oend: nat,
                      h: seq<byte>, w: seq<byte>, intact: bool, text: seq<byte>, qs: seq<Sequence>, r: int)
    requires source <= iend <= |m0| && dest <= oend && Decodes(m0, m1, source, iend, dest, oend, w, intact, r)
    requires FaithfulBlock(m0[source..iend], h, text, qs) && Sees(w, h) && oend - dest >= |text|
    ensures r == |text| && dest + r <= |m1| && m1[dest..dest + r] == text
  {
    hide Decode, MustDecode, FaithfulBlock, Sees, SameOutside;
    SeesSource(m0[source..iend], h, w, text, qs, oend - dest);
    var out := m1[dest..dest + r];
    assert (w + out)[|w|..] == out && (w + text)[|w|..] == text;
  }

  /** Compressing and decompressing gives the source back, whatever it is, provided that the
      acceleration is not a positive multiple of 2^26 or the source is short. */
  method RoundTrip(mem: array<byte>, src: nat, mid: nat, out: nat, n: nat, maxOutputSize: nat, acceleration: int, capacity: nat)
    returns (r: nat, d: int)
    requires n <= LZ4_MAX_INPUT_SIZE && src + n <= mem.Length && mid + CompressBound(n) <= mem.Length
    requires capacity >= n && out + capacity <= mem.Length && Disjoint(src, src + n, mid, mid + CompressBound(n))
    requires Disjoint(mid, mid + CompressBound(n), out, out + capacity) && Disjoint(out, out + capacity, src, src + n)
    requires mid + CompressBound(n) + 2 <= mem.Length && Works(acceleration, n)
    modifies mem
    ensures maxOutputSize >= CompressBound(n) ==> r > 0
    ensures r > 0 ==> d == n && mem[out..out + n] == old(mem[src..src + n]) == mem[src..src + n]
  {
    hide Decodes, FaithfulBlock, SameOutside;
    ghost var m0, source, qs := mem[..], mem[src..src + n], [];
    r, qs := CompressFastExtState(mem, src, mid, n, maxOutputSize, acceleration);
    ghost var m1 := mem[..];
    SliceKept(m0, m1, mid, mid + CompressBound(n), src, src + n);
    d := 0;
    if r > 0 {
      d := DecompressSafe(mem, mid, out, r, capacity);
      RoundTripEnds(m1, mem[..], src, mid, out, source, r, capacity, qs, d);
    }
  }

  lemma RoundTripEnds(m1: seq<byte>, m2: seq<byte>, src: nat, mid: nat, out: nat, source: seq<byte>, r: nat, capacity: nat,
                      qs: seq<Sequence>, d: int)
    requires src + |source| <= |m1| && m1[src..src + |source|] == source && mid + r <= |m1|
    requires capacity >= |source| && out + capacity <= |m1| && Disjoint(out, out + capacity, src, src + |source|)
    requires FaithfulBlock(m1[mid..mid + r], [], source, qs)
    requires Decodes(m1, m2, mid, mid + r, out, out + capacity, [], true, d)
    ensures |m2| == |m1| && d == |source| && m2[out..out + d] == source == m2[src..src + |source|]
  {
    hide FaithfulBlock, DecodedTo, MustDecode;
    DecodesSource(m1, m2, mid, mid + r, out, out + capacity, [], [], true, source, qs, d);
    SliceKept(m1, m2, out, out + capacity, src, src + |source|);
  }
}
