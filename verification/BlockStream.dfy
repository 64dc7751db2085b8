/** The two kinds of stream behind one face, as the frame compressor uses them: below level 3 the
    fast stream, from there on the high-compression stream.  What a stream remembers is a stretch
    of memory that ends with the newest content, and perhaps an older stretch elsewhere. */
module BlockStream {
  import opened BlockFormat
  import opened Memory
  import opened Encoding
  import opened Emitter
  import opened FastSearch
  import opened FastCompressor
  import opened FastDecoder
  import opened BlockApi
  import opened Streaming
  import opened HcSearch
  import HcStream

  const LZ4HC_CLEVEL_MIN := 3

  /** Where a stream's past stands: `start..end`, and before it `extLo..extHi`. */
  datatype Past = Past(start: int, end: int, extLo: int, extHi: int)
  {
    predicate Inside(size: nat) {
      0 <= start <= end <= size && 0 <= extLo <= extHi <= size
    }

    predicate Apart(lo: nat, hi: nat) {
      Disjoint(start, end, lo, hi)
    }

    predicate ExtApart(lo: nat, hi: nat) {
      Disjoint(extLo, extHi, lo, hi)
    }
  }

  const NO_PAST := Past(0, 0, 0, 0)

  /** The newer stretch is the end of content `c`. */
  ghost predicate Recalls(m: seq<byte>, p: Past, c: seq<byte>) {
    p.Inside(|m|) && EndsWith(c, m[p.start..p.end])
  }

  /** Both stretches together are. */
  ghost predicate RecallsAll(m: seq<byte>, p: Past, c: seq<byte>) {
    p.Inside(|m|) && EndsWith(c, m[p.extLo..p.extHi] + m[p.start..p.end])
  }

  lemma RecallsLess(m: seq<byte>, p: Past, c: seq<byte>)
    requires RecallsAll(m, p, c)
    ensures Recalls(m, p, c)
  {
    var x, y := m[p.extLo..p.extHi], m[p.start..p.end];
    assert (x + y)[|x|..] == y;
    assert EndsWith(x + y, y);
    SuffixOfSuffix(c, x + y, y);
  }

  /** How the past changes with a block from `src`: either the newer stretch goes on, and some of
      what is old may be forgotten, or it becomes the older one. */
  predicate Follows(p: Past, p': Past, src: nat, n: nat) {
    && p'.end == src + n
    && if src == p.end then p.start <= p'.start <= src && (p'.extLo == p'.extHi || p.extLo <= p'.extLo <= p'.extHi == p.extHi)
       else p'.start == src && (p'.extLo == p'.extHi || p.start <= p'.extLo <= p'.extHi == p.end)
  }

  function PastOfView(v: View): Past {
    if v.lowLimit < v.dictLimit then Past(v.LowPrefix(), v.end, v.dictBase + v.lowLimit, v.dictBase + v.dictLimit)
    else Past(v.LowPrefix(), v.end, 0, 0)
  }

  lemma PastText(m: seq<byte>, v: View)
    requires v.Valid(|m|)
    ensures var p := PastOfView(v); p.Inside(|m|) && v.Text(m) == m[p.extLo..p.extHi] + m[p.start..p.end]
  {
  }

  /** The history of a block from `src`, in terms of what the stream remembers. */
  lemma NextHistory(m: seq<byte>, v: View, src: nat, n: nat, c: seq<byte>)
    requires v.Valid(|m|) && src <= |m|
    requires if src == v.end then RecallsAll(m, PastOfView(v), c) else Recalls(m, PastOfView(v), c)
    ensures var v' := HcStream.NextView(true, v, src, n); v'.Valid(|m|) && v'.end == src && EndsWith(c, v'.Text(m))
  {
    hide View.Text, EndsWith, HcStream.TrimView, HcStream.RenewView, HcStream.ExternView, View.Valid;
    PastText(m, v);
    if src == v.end {
      HcStream.HistoryIsSuffix(m, v, src, n);
      SuffixOfSuffix(c, v.Text(m), HcStream.NextView(true, v, src, n).Text(m));
    } else {
      HcStream.ValidFacts(v, |m|);
      HcStream.RenewedFacts(v);
      var v1 := HcStream.RenewView(v);
      HcStream.RenewedIsSuffix(m, v);
      RenewedPrefix(m, v);
      HcStream.ExternIsSuffix(m, v1, src);
      var v2 := HcStream.ExternView(v1, src);
      HcStream.TrimmedIsSuffix(m, v2, src, src + n);
      SuffixOfSuffix(c, m[v.LowPrefix()..v.end], v2.Text(m));
      SuffixOfSuffix(c, v2.Text(m), HcStream.TrimView(v2, src, src + n).Text(m));
    }
  }

  lemma RenewedPrefix(m: seq<byte>, v: View)
    requires v.Valid(|m|)
    ensures var v1 := HcStream.RenewView(v);
            && v1.Valid(|m|) && v1.end == v.end && v.LowPrefix() <= v1.LowPrefix() <= v.end
            && EndsWith(m[v.LowPrefix()..v.end], m[v1.LowPrefix()..v1.end])
  {
    SliceSuffix(m, v.LowPrefix(), HcStream.RenewView(v).LowPrefix(), v.end);
  }

  lemma NextFollows(v: View, size: nat, src: nat, n: nat)
    requires v.Valid(size) && src <= size
    ensures var v' := HcStream.NextView(true, v, src, n);
            v'.end == src && Follows(PastOfView(v), PastOfView(v'.(end := src + n)), src, n)
  {
  }

  /** The block says `source` to whoever has content `c`, and no decoder with the room may refuse it. */
  ghost predicate Says(block: seq<byte>, c: seq<byte>, source: seq<byte>) {
    && Decode(block, 0, c) == Some(c + source)
    && forall capacity: nat :: capacity >= |source| ==> MustDecode(block, c, capacity)
  }

  lemma FaithfulSays(block: seq<byte>, h: seq<byte>, c: seq<byte>, source: seq<byte>, qs: seq<Sequence>)
    requires FaithfulBlock(block, h, source, qs) && EndsWith(c, h)
    ensures Says(block, c, source)
  {
    hide Decode, MustDecode, FaithfulBlock, EndsWith;
    SeesSource(block, h, c, source, qs, |source|);
    forall capacity: nat | capacity >= |source| ensures MustDecode(block, c, capacity) {
      SeesSource(block, h, c, source, qs, capacity);
    }
  }

  /** What is remembered of the source just compressed, and of what came before it. */
  lemma RecallsNext(m0: seq<byte>, m1: seq<byte>, p: Past, p': Past, src: nat, n: nat, lo: nat, hi: nat, c: seq<byte>, h: seq<byte>)
    requires SameOutside(m0, m1, lo, hi) && p'.Inside(|m0|) && p'.end == src + n && p'.start <= src
    requires EndsWith(c, h) && h == m0[p'.extLo..p'.extHi] + m0[p'.start..src]
    requires Disjoint(p'.start, src + n, lo, hi) && p'.ExtApart(lo, hi)
    ensures RecallsAll(m1, p', c + m0[src..src + n])
  {
    hide EndsWith, SameOutside;
    SliceKept(m0, m1, lo, hi, p'.extLo, p'.extHi);
    SliceKept(m0, m1, lo, hi, p'.start, src + n);
    SameLength(m0, m1, lo, hi);
    SuffixMore(c, h, m0[src..src + n]);
    Reassembled(m0, m0[p'.extLo..p'.extHi], p'.start, src, src + n);
  }

  lemma Reassembled(m: seq<byte>, x: seq<byte>, a: nat, b: nat, c: nat)
    requires a <= b <= c <= |m|
    ensures (x + m[a..b]) + m[b..c] == x + m[a..c]
  {
    assert m[a..c] == m[a..b] + m[b..c];
  }

  /** Before the first block there is no history. */
  lemma FirstHistory(m: seq<byte>, v0: View, src: nat, n: nat, c: seq<byte>)
    requires src <= |m|
    ensures var v := HcStream.NextView(false, v0, src, n);
            && v.Valid(|m|) && v.end == src && EndsWith(c, v.Text(m))
            && Follows(NO_PAST, PastOfView(v.(end := src + n)), src, n)
  {
  }

  lemma ApartNext(p: Past, p': Past, src: nat, n: nat, lo: nat, hi: nat)
    requires Follows(p, p', src, n) && p.Apart(lo, hi) && Disjoint(src, src + n, lo, hi) && lo < hi && n > 0
    requires src == p.end ==> p.ExtApart(lo, hi)
    ensures Disjoint(p'.start, src + n, lo, hi) && p'.ExtApart(lo, hi)
  {
  }

  lemma PromiseIsFaithful(block: seq<byte>, h: seq<byte>, source: seq<byte>, qs: seq<Sequence>)
    requires Promise(block, h, source, qs, true)
    ensures FaithfulBlock(block, h, source, qs)
  {
  }

  lemma FastHistory(m: seq<byte>, p: Past, p': Past, src: nat, n: nat, c: seq<byte>, h: seq<byte>)
    requires p.Inside(|m|) && EndsWith(c, h) && |h| <= p.end - p.start && h == m[p.end - |h|..p.end] && src + n <= |m|
    requires p' == Past(if src == p.end then src - |h| else src, src + n, 0, 0)
    ensures p'.Inside(|m|) && Follows(p, p', src, n)
    ensures var h' := m[p'.start..src]; EndsWith(c, h') && h' == m[p'.extLo..p'.extHi] + h'
  {
    var h' := m[p'.start..src];
    assert h' == m[0..0] + h';
  }

  /** The history of the fast compressor after a block. */
  lemma FastPast(m0: seq<byte>, m1: seq<byte>, p: Past, p': Past, src: nat, n: nat, lo: nat, hi: nat, c: seq<byte>, h: seq<byte>)
    requires p.Inside(|m0|) && EndsWith(c, h) && |h| <= p.end - p.start && h == m0[p.end - |h|..p.end] && src + n <= |m0|
    requires p' == Past(if src == p.end then src - |h| else src, src + n, 0, 0)
    requires SameOutside(m0, m1, lo, hi) && lo < hi && n > 0 && p.Apart(lo, hi) && Disjoint(src, src + n, lo, hi)
    requires src == p.end ==> p.ExtApart(lo, hi)
    ensures RecallsAll(m1, p', c + m0[src..src + n]) && Follows(p, p', src, n)
  {
    hide SameOutside, EndsWith, RecallsAll, Follows, Past.Apart, Past.ExtApart;
    FastHistory(m0, p, p', src, n, c, h);
    ApartNext(p, p', src, n, lo, hi);
    RecallsNext(m0, m1, p, p', src, n, lo, hi, c, m0[p'.start..src]);
  }

  lemma EndSaved(m0: seq<byte>, m1: seq<byte>, p: Past, at: nat, k: nat, c: seq<byte>)
    requires Recalls(m0, p, c) && k <= p.end - p.start && at + k <= |m1| && m1[at..at + k] == m0[p.end - k..p.end]
    ensures RecallsAll(m1, Past(at, at + k, 0, 0), c)
  {
    hide EndsWith;
    SliceSuffix(m0, p.start, p.end - k, p.end);
    SuffixOfSuffix(c, m0[p.start..p.end], m0[p.end - k..p.end]);
    assert m1[0..0] + m1[at..at + k] == m1[at..at + k];
  }

  class BlockStream {
    const fast: EncoderStream
    const hc: HcStream.HcEncoder
    var level: int

    constructor ()
      ensures fresh(fast) && fresh(fast.hashTable) && fresh(hc) && fresh(hc.hashTable) && fresh(hc.chainTable)
      ensures Separate() && fast.Valid() && fast.dictionary + fast.dictSize == 0 && forall size: nat :: hc.Valid(size)
    {
      fast := new EncoderStream();
      hc := new HcStream.HcEncoder(0);
      level := 0;
      new;
      assert hc.Valid(0);
    }

    predicate Separate() {
      fast.hashTable != hc.hashTable && fast.hashTable != hc.chainTable && hc.hashTable != hc.chainTable
    }

    ghost predicate Good(size: nat)
      reads fast, fast.hashTable, hc, hc.hashTable, hc.chainTable
    {
      Separate() && fast.Valid() && fast.dictionary + fast.dictSize + 3 <= size && hc.Valid(size)
    }

    predicate UsesHc()
      reads `level
    {
      level >= LZ4HC_CLEVEL_MIN
    }

    function Acceleration(): int
      reads `level
    {
      if level < -1 then -level else 1
    }

    function Remembers(): Past
      reads `level, fast, hc
    {
      if UsesHc() then if hc.ready then PastOfView(hc.view) else NO_PAST
      else Past(fast.dictionary, fast.dictionary + fast.dictSize, 0, 0)
    }

    /** How far the high-compression stream has come. */
    predicate HasExtent(e: HcStream.Extent)
      reads hc
    {
      && (hc.ready ==> 0 <= hc.view.LowPrefix() <= hc.view.end && hc.view.base <= hc.view.end)
      && HcStream.ExtentOf(hc.ready, hc.view) == e
    }

    /** What lies behind the history of one to three bytes, if they are all there is, may be taken
        for history. */
    predicate Tiny(src: nat)
      reads fast
    {
      TinyExternal(fast.currentOffset, fast.dictSize, fast.dictionary + fast.dictSize != src)
    }

    /** A block of `n` bytes for which `room` is given can be relied on. */
    predicate Reliable(src: nat, n: nat, room: nat)
      reads `level, fast
    {
      UsesHc() || Sure(n, room, Acceleration(), Tiny(src))
    }

    /** It goes wrong, and is small all the same. */
    ghost predicate Snare(m: seq<byte>, src: nat, n: nat)
      reads `level, fast
      requires fast.dictionary + fast.dictSize + 3 <= |m| && src + n <= |m|
    {
      !UsesHc() && Trapped(m, src, n, fast.dictionary, fast.dictSize, Acceleration(), Tiny(src), true)
    }

    /** LZ4_resetStream and LZ4_resetStreamHC. */
    method Reset(newLevel: int, ghost size: nat)
      requires Good(size)
      modifies this, fast, fast.hashTable, hc
      ensures Good(size) && level == newLevel && Remembers() == NO_PAST && fast.currentOffset == 0 && HasExtent(HcStream.UNUSED)
    {
      level := newLevel;
      fast.Reset();
      hc.ready, hc.compressionLevel := false, newLevel;
    }

    /** The caller's side of a call. */
    predicate Ready(size: nat, src: nat, n: nat, dst: nat)
      reads `level, fast, hc
    {
      var p := Remembers();
      && 0 < n <= LZ4_MAX_INPUT_SIZE && 0 < src && src + n + 3 <= size && dst + CompressBound(n) <= size
      && Disjoint(src, src + n, dst, dst + CompressBound(n)) && p.Apart(dst, dst + CompressBound(n)) && p.Apart(src, src + n)
      && (src == p.end ==> p.ExtApart(dst, dst + CompressBound(n)))
    }

    /** The view the next call is going to work with, and what becomes of the past. */
    lemma NextUp(m: seq<byte>, src: nat, n: nat, c: seq<byte>) returns (v: View, p': Past)
      requires hc.Valid(|m|) && UsesHc() && 0 < src && src + n <= |m|
      requires if src == Remembers().end then RecallsAll(m, Remembers(), c) else Recalls(m, Remembers(), c)
      ensures hc.ready ==> hc.view.Valid(|m|)
      ensures v == HcStream.NextView(hc.ready, hc.view, src, n) && v.Valid(|m|) && v.end == src && EndsWith(c, v.Text(m))
      ensures p' == PastOfView(v.(end := src + n)) && Follows(Remembers(), p', src, n) && p'.Inside(|m|)
      ensures p'.start <= src && p'.end == src + n && v.Text(m) == m[p'.extLo..p'.extHi] + m[p'.start..src]
    {
      hide Linked, EndsWith, View.Text, View.Valid, HcStream.NextView, Recalls, RecallsAll;
      if hc.ready {
        HcStream.ValidFacts(hc.view, |m|);
      }
      v := HcStream.NextView(hc.ready, hc.view, src, n);
      p' := PastOfView(v.(end := src + n));
      if hc.ready {
        NextHistory(m, hc.view, src, n, c);
        NextFollows(hc.view, |m|, src, n);
      } else {
        FirstHistory(m, hc.view, src, n, c);
      }
      PastText(m, v);
    }

    lemma HcReady(size: nat, src: nat, n: nat, dst: nat, v: View, p': Past)
      requires hc.Valid(size) && 0 < n <= LZ4_MAX_INPUT_SIZE && src + n <= size && dst + CompressBound(n) <= size
      requires hc.ready ==> hc.view.Valid(size)
      requires v == HcStream.NextView(hc.ready, hc.view, src, n) && p' == PastOfView(v.(end := src + n))
      requires Disjoint(p'.start, src + n, dst, dst + CompressBound(n)) && p'.ExtApart(dst, dst + CompressBound(n))
      ensures hc.Ready(size, src, n, dst)
    {
      hide Linked, HcStream.NextView;
    }

    /** One block of linked blocks: LZ4_compress_fast_continue or LZ4_compress_HC_continue. */
    method Compress(mem: array<byte>, src: nat, dst: nat, n: nat, dstCapacity: nat, ghost c: seq<byte>, ghost e: HcStream.Extent)
      returns (r: nat)
      requires Good(mem.Length) && Ready(mem.Length, src, n, dst) && (UsesHc() ==> HasExtent(e))
      requires if src == Remembers().end then RecallsAll(mem[..], Remembers(), c) else Recalls(mem[..], Remembers(), c)
      modifies fast, fast.hashTable, hc, hc.hashTable, hc.chainTable, mem
      ensures Good(mem.Length) && SameOutside(old(mem[..]), mem[..], dst, dst + CompressBound(n))
      ensures r <= dstCapacity && r <= CompressBound(n)
      ensures r > 0 && old(Reliable(src, n, dstCapacity)) ==> Says(mem[dst..dst + r], c, old(mem[src..src + n]))
      ensures old(Snare(mem[..], src, n)) && dstCapacity >= n - 1 ==> r > 0 && Misread(mem[dst..dst + r], c, old(mem[src..src + n]))
      ensures !UsesHc() ==> Counts(old(fast.currentOffset), old(fast.dictSize), old(Remembers().end) == src, n)
      ensures UsesHc() ==> HasExtent(HcStream.NextExtent(e, old(Remembers().end) == src, n))
      ensures RecallsAll(mem[..], Remembers(), c + old(mem[src..src + n])) && Follows(old(Remembers()), Remembers(), src, n)
    {
      hide SameOutside, Says, EndsWith, HcStream.HcEncoder.Valid, EncoderStream.Valid, Follows, RecallsAll, Recalls,
           Reliable, Ready, Trapped, Misread, Tiny, Counts, HasExtent;
      if UsesHc() {
        r := CompressHc(mem, src, dst, n, dstCapacity, c, e);
      } else {
        AllOrNewer(mem[..], src, c);
        r := CompressFast(mem, src, dst, n, dstCapacity, c);
      }
    }

    /** How offset and dictionary of the fast stream have grown, while they are small. */
    predicate Counts(offset: nat, dictSize: nat, near: bool, n: nat)
      reads fast
    {
      if offset <= 3 then fast.currentOffset == offset + n && fast.dictSize == n + (if near then dictSize else 0)
      else fast.currentOffset > 3
    }

    lemma AllOrNewer(m: seq<byte>, src: nat, c: seq<byte>)
      requires if src == Remembers().end then RecallsAll(m, Remembers(), c) else Recalls(m, Remembers(), c)
      ensures Recalls(m, Remembers(), c)
    {
      hide RecallsAll, Recalls;
      if src == Remembers().end {
        RecallsLess(m, Remembers(), c);
      }
    }

    lemma FastReady(m: seq<byte>, src: nat, n: nat, dst: nat, c: seq<byte>) returns (h: seq<byte>)
      requires fast.Valid() && fast.dictionary + fast.dictSize + 3 <= |m| && Ready(|m|, src, n, dst) && !UsesHc()
      requires Recalls(m, Remembers(), c)
      ensures fast.Ready(|m|, src, n, dst) && h == fast.History(m, src, n) && EndsWith(c, h)
      ensures fast.Usable(src, n) <= fast.dictSize
      ensures h == m[Remembers().end - |h|..Remembers().end] && |h| == fast.Usable(src, n)
    {
      hide EndsWith, Settled, EncoderStream.Ready, EncoderStream.Usable, Disjoint, CompressBound;
      FastApart(|m|, src, n, dst);
      var p := Remembers();
      h := fast.History(m, src, n);
      SliceSuffix(m, p.start, p.end - |h|, p.end);
      SuffixOfSuffix(c, m[p.start..p.end], h);
    }

    lemma FastApart(size: nat, src: nat, n: nat, dst: nat)
      requires fast.Valid() && fast.dictionary + fast.dictSize + 3 <= size && Ready(size, src, n, dst) && !UsesHc()
      ensures fast.Ready(size, src, n, dst)
    {
      hide Settled, EncoderStream.Usable, CompressBound;
    }

    lemma FastTiny(size: nat, src: nat, n: nat, dst: nat)
      requires fast.Valid() && Ready(size, src, n, dst) && !UsesHc()
      ensures fast.Tiny(src, n) == Tiny(src) && (fast.currentOffset <= 3 ==> fast.Usable(src, n) == fast.dictSize)
    {
      hide Settled, CompressBound;
    }

    lemma FastSnare(m: seq<byte>, src: nat, n: nat)
      requires fast.dictionary + fast.dictSize + 3 <= |m| && src + n <= |m| && Snare(m, src, n)
      requires fast.Tiny(src, n) == Tiny(src) && (fast.currentOffset <= 3 ==> fast.Usable(src, n) == fast.dictSize)
      ensures fast.Trap(m, src, n, Acceleration(), true) && fast.Trap(m, src, n, Acceleration(), false)
    {
      hide Overruns, Advancing, EncoderStream.Usable;
      var end, k := fast.dictionary + fast.dictSize, fast.Usable(src, n);
      var h, h' := m[fast.dictionary..end], m[end - k..end];
      assert forall i :: 0 <= i < |h'| ==> h'[i] == h[fast.dictSize - k + i];
      assert forall x: byte :: x in h' ==> x in h;
    }

    method CompressFast(mem: array<byte>, src: nat, dst: nat, n: nat, dstCapacity: nat, ghost c: seq<byte>) returns (r: nat)
      requires Good(mem.Length) && Ready(mem.Length, src, n, dst) && !UsesHc() && Recalls(mem[..], Remembers(), c)
      modifies fast, fast.hashTable, mem
      ensures Good(mem.Length) && SameOutside(old(mem[..]), mem[..], dst, dst + CompressBound(n))
      ensures r <= dstCapacity && r <= CompressBound(n)
      ensures r > 0 && old(Reliable(src, n, dstCapacity)) ==> Says(mem[dst..dst + r], c, old(mem[src..src + n]))
      ensures old(Snare(mem[..], src, n)) && dstCapacity >= n - 1 ==> r > 0 && Misread(mem[dst..dst + r], c, old(mem[src..src + n]))
      ensures !UsesHc() ==> Counts(old(fast.currentOffset), old(fast.dictSize), old(Remembers().end) == src, n)
      ensures RecallsAll(mem[..], Remembers(), c + old(mem[src..src + n])) && Follows(old(Remembers()), Remembers(), src, n)
    {
      hide SameOutside, FaithfulBlock, Promise, Says, EndsWith, HcStream.HcEncoder.Valid, EncoderStream.Valid,
           EncoderStream.Ready, EncoderStream.Usable, Recalls, RecallsAll, Follows, EncoderStream.History,
           EncoderStream.Tiny, EncoderStream.Trap, Sure, Tiny, Snare, Misread, Misleads, Past.Apart, Past.ExtApart,
           CompressBound;
      ghost var m0, p, h, p', qs := mem[..], Remembers(), [], Remembers(), [];
      h := FastReady(m0, src, n, dst, c);
      FastTiny(mem.Length, src, n, dst);
      if Snare(m0, src, n) {
        FastSnare(m0, src, n);
      }
      ghost var ok, snare, source := Reliable(src, n, dstCapacity), Snare(m0, src, n), m0[src..src + n];
      r, qs := fast.CompressFastContinue(mem, src, dst, n, dstCapacity, Acceleration());
      if r > 0 && ok {
        PromiseIsFaithful(mem[dst..dst + r], h, source, qs);
        FaithfulSays(mem[dst..dst + r], h, c, source, qs);
      }
      if snare && r > 0 {
        MisleadsThose(mem[dst..dst + r], h, c, source);
      }
      p' := Remembers();
      FastPast(m0, mem[..], p, p', src, n, dst, dst + CompressBound(n), c, h);
    }

    lemma MisleadsThose(block: seq<byte>, h: seq<byte>, c: seq<byte>, source: seq<byte>)
      requires Misleads(block, |h|, source) && EndsWith(c, h)
      ensures Misread(block, c, source)
    {
      hide Misread;
    }

    method CompressHc(mem: array<byte>, src: nat, dst: nat, n: nat, dstCapacity: nat, ghost c: seq<byte>, ghost e: HcStream.Extent)
      returns (r: nat)
      requires Good(mem.Length) && Ready(mem.Length, src, n, dst) && UsesHc() && HasExtent(e)
      requires if src == Remembers().end then RecallsAll(mem[..], Remembers(), c) else Recalls(mem[..], Remembers(), c)
      modifies hc, hc.hashTable, hc.chainTable, mem
      ensures Good(mem.Length) && SameOutside(old(mem[..]), mem[..], dst, dst + CompressBound(n))
      ensures r <= dstCapacity && r <= CompressBound(n)
      ensures r > 0 ==> Says(mem[dst..dst + r], c, old(mem[src..src + n]))
      ensures HasExtent(HcStream.NextExtent(e, old(Remembers().end) == src, n))
      ensures RecallsAll(mem[..], Remembers(), c + old(mem[src..src + n])) && Follows(old(Remembers()), Remembers(), src, n)
    {
      hide SameOutside, FaithfulBlock, Says, EndsWith, HcStream.HcEncoder.Valid, HcStream.NextView, View.Valid,
           View.Text, Follows, EncoderStream.Valid, Past.Apart, Past.ExtApart, Past.Inside, Recalls, RecallsAll,
           PastOfView, HasExtent, HcStream.NextExtent;
      ghost var m0, p := mem[..], Remembers();
      ghost var was, v0 := hc.ready, hc.view;
      ghost var v, p', qs := hc.view, p, [];
      v, p' := NextUp(m0, src, n, c);
      ApartNext(p, p', src, n, dst, dst + CompressBound(n));
      HcReady(mem.Length, src, n, dst, v, p');
      ExtentNext(mem.Length, src, n, e);
      r, qs := hc.CompressHcContinue(mem, src, dst, n, dstCapacity);
      ExtentThere(HcStream.NextExtent(e, p.end == src, n));
      if r > 0 {
        FaithfulSays(mem[dst..dst + r], v.Text(m0), c, m0[src..src + n], qs);
      }
      RecallsNext(m0, mem[..], p, p', src, n, dst, dst + CompressBound(n), c, v.Text(m0));
    }

    /** LZ4_saveDict and LZ4_saveDictHC, asked for 64 KB.  A negative result stands for a call that
        runs away. */
    method SaveDict(mem: array<byte>, safeBuffer: nat, ghost c: seq<byte>, ghost e: HcStream.Extent) returns (k: int)
      requires Good(mem.Length) && Recalls(mem[..], Remembers(), c) && Remembers().start < Remembers().end
      requires safeBuffer + DICT64K + 3 <= mem.Length && (UsesHc() ==> HasExtent(e))
      modifies fast, hc, mem
      ensures k < 0 <==> UsesHc() && e.prefix >= TWO31
      ensures k >= 0 ==>
        && Good(mem.Length) && SameOutside(old(mem[..]), mem[..], safeBuffer, safeBuffer + k)
        && 0 < k <= DICT64K && Remembers() == Past(safeBuffer, safeBuffer + k, 0, 0) && RecallsAll(mem[..], Remembers(), c)
        && fast.currentOffset == old(fast.currentOffset) && (old(fast.dictSize) <= DICT64K ==> fast.dictSize == old(fast.dictSize))
        && (UsesHc() ==> HasExtent(HcStream.Extent(e.index, Least(e.prefix, DICT64K))))
    {
      hide SameOutside, EndsWith, HcStream.HcEncoder.Valid, EncoderStream.Valid, HasExtent, HcStream.ExtentOf, Recalls, RecallsAll, View.Valid;
      ghost var m0, p := mem[..], Remembers();
      if UsesHc() {
        k := SaveHc(mem, safeBuffer, e);
      } else {
        k := fast.SaveDict(mem, safeBuffer, DICT64K);
      }
      if k >= 0 {
        EndSaved(m0, mem[..], p, safeBuffer, k, c);
      }
    }

    method SaveHc(mem: array<byte>, safeBuffer: nat, ghost e: HcStream.Extent) returns (k: int)
      requires hc.Valid(mem.Length) && UsesHc() && hc.ready && HasExtent(e) && Remembers().start < Remembers().end
      requires safeBuffer + DICT64K <= mem.Length
      modifies hc, mem
      ensures k < 0 <==> e.prefix >= TWO31
      ensures k >= 0 ==>
        && hc.Valid(mem.Length) && SameOutside(old(mem[..]), mem[..], safeBuffer, safeBuffer + k) && hc.ready
        && 0 < k <= DICT64K && k <= old(Remembers().end - Remembers().start) && Remembers() == Past(safeBuffer, safeBuffer + k, 0, 0)
        && mem[safeBuffer..safeBuffer + k] == old(mem[Remembers().end - k..Remembers().end])
        && HasExtent(HcStream.Extent(e.index, Least(e.prefix, DICT64K)))
    {
      hide SameOutside, EndsWith, HcStream.HcEncoder.Valid;
      ReadyFacts(mem.Length);
      k := hc.SaveDict(mem, safeBuffer, DICT64K);
    }

    lemma ExtentNext(size: nat, src: nat, n: nat, e: HcStream.Extent)
      requires hc.Valid(size) && HasExtent(e) && UsesHc() && 0 < src
      ensures hc.ready ==> hc.view.Valid(size)
      ensures var v := HcStream.NextView(hc.ready, hc.view, src, n).(end := src + n);
              && 0 <= v.LowPrefix() <= v.end && v.base <= v.end
              && HcStream.ExtentOf(true, v) == HcStream.NextExtent(e, Remembers().end == src, n)
    {
      hide Linked, HcStream.NextExtent, HcStream.NextView;
      HcStream.ViewExtent(hc.ready, hc.view, src, n, size);
      HcStream.FirstExtent(n);
    }

    lemma ExtentThere(e: HcStream.Extent)
      requires hc.ready && 0 <= hc.view.LowPrefix() <= hc.view.end && hc.view.base <= hc.view.end
      requires HcStream.ExtentOf(true, hc.view) == e
      ensures HasExtent(e)
    {
    }

    lemma ReadyFacts(size: nat)
      requires hc.Valid(size) && hc.ready
      ensures hc.view.Valid(size) && 0 <= hc.view.LowPrefix() <= hc.view.end && hc.view.end - hc.view.base < 2 * TWO31
    {
      hide Linked;
    }

    /** One independent block: LZ4_compress_fast_extState or LZ4_compress_HC_extStateHC. */
    method CompressAlone(mem: array<byte>, src: nat, dst: nat, n: nat, dstCapacity: nat) returns (r: nat)
      requires Good(mem.Length) && 0 < n <= LZ4_MAX_INPUT_SIZE && src + n <= mem.Length && dst + CompressBound(n) <= mem.Length
      requires Disjoint(src, src + n, dst, dst + CompressBound(n))
      modifies hc, hc.hashTable, hc.chainTable, mem
      ensures Good(mem.Length) && SameOutside(old(mem[..]), mem[..], dst, dst + CompressBound(n))
      ensures r <= dstCapacity && r <= CompressBound(n)
      ensures r > 0 && (UsesHc() || Works(Acceleration(), n)) ==> Says(mem[dst..dst + r], [], old(mem[src..src + n]))
      ensures !UsesHc() && !Works(Acceleration(), n) && Confusing([], old(mem[src..src + n])) && dstCapacity >= n - 1 ==>
        r > 0 && Misread(mem[dst..dst + r], [], old(mem[src..src + n]))
    {
      hide SameOutside, Says, HcStream.HcEncoder.Valid, EncoderStream.Valid, FaithfulBlock, Works, Decode, Misread,
           Confusing;
      ghost var source, qs := mem[src..src + n], [];
      if UsesHc() {
        r, qs := hc.CompressHcExtState(mem, src, dst, n, dstCapacity);
      } else {
        r, qs := CompressFastExtState(mem, src, dst, n, dstCapacity, Acceleration());
      }
      if r > 0 && (UsesHc() || Works(Acceleration(), n)) {
        FaithfulSays(mem[dst..dst + r], [], [], source, qs);
      }
    }
  }
}
