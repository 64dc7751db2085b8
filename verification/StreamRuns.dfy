/** Both ends of a block stream, over whole runs: whatever the compressing side does with its
    dictionary, the decompressing side keeps all that the next block can refer to. */
module StreamRuns {
  import opened BlockFormat
  import opened Memory
  import opened Emitter
  import opened FastSearch
  import opened FastDecoder
  import opened BlockApi
  import opened Streaming

  /** What of history `e` a block can refer to. */
  function Tail(e: seq<byte>): (t: seq<byte>)
    ensures |t| == if |e| > MAX_DISTANCE then MAX_DISTANCE else |e|
  {
    if |e| > MAX_DISTANCE then e[|e| - MAX_DISTANCE..] else e
  }

  /** History `w` of a decoder ends with all that a block made behind `e` can refer to. */
  ghost predicate Tracks(w: seq<byte>, e: seq<byte>) {
    EndsWith(w, Tail(e))
  }

  lemma TracksLess(w: seq<byte>, e: seq<byte>, e': seq<byte>)
    requires Tracks(w, e) && EndsWith(e, e')
    ensures Tracks(w, e')
  {
    assert EndsWith(Tail(e), Tail(e'));
    SuffixOfSuffix(w, Tail(e), Tail(e'));
  }

  lemma TracksMore(w: seq<byte>, e: seq<byte>, x: seq<byte>)
    requires Tracks(w, e)
    ensures Tracks(w + x, e + x)
  {
    SuffixMore(w, Tail(e), x);
    assert EndsWith(Tail(e) + x, Tail(e + x));
    SuffixOfSuffix(w + x, Tail(e) + x, Tail(e + x));
  }

  /** Part of a decoder's history does as well, if it is long enough. */
  lemma TracksPart(w: seq<byte>, w': seq<byte>, e: seq<byte>)
    requires Tracks(w, e) && EndsWith(w, w') && |Tail(e)| <= |w'|
    ensures Tracks(w', e)
  {
  }

  lemma TracksWhole(w: seq<byte>, w': seq<byte>, e: seq<byte>)
    requires Tracks(w', e) && EndsWith(w, w')
    ensures Tracks(w, e)
  {
    SuffixOfSuffix(w, w', Tail(e));
  }

  /** A block made behind `e` says its source to every decoder that tracks `e`. */
  lemma TracksSource(block: seq<byte>, e: seq<byte>, w: seq<byte>, source: seq<byte>, qs: seq<Sequence>, capacity: nat)
    requires FaithfulBlock(block, e, source, qs) && Tracks(w, e) && capacity >= |source|
    ensures MustDecode(block, w, capacity) && Decode(block, 0, w) == Some(w + source)
  {
    hide Decode, MustDecode, FaithfulBlock, Sees, Tail, EndsWith;
    TailSees(e);
    SeesSource(block, e, Tail(e), source, qs, capacity);
    WithMore(block, Tail(e), w, source, capacity);
  }

  lemma TailSees(e: seq<byte>)
    ensures Sees(Tail(e), e)
  {
  }

  lemma WithMore(block: seq<byte>, t: seq<byte>, w: seq<byte>, source: seq<byte>, capacity: nat)
    requires MustDecode(block, t, capacity) && Decode(block, 0, t) == Some(t + source) && EndsWith(w, t)
    ensures MustDecode(block, w, capacity) && Decode(block, 0, w) == Some(w + source)
  {
    hide Decode, MustDecode;
    var x := w[..|w| - |t|];
    assert x + t == w && x + (t + source) == w + source;
    HistoryGrows(x, block, t, capacity);
    DecodeWithMoreHistory(x, block, 0, t);
  }

  lemma TracksReturns(m0: seq<byte>, m1: seq<byte>, mid: nat, r: nat, dest: nat, oend: nat, e: seq<byte>, w: seq<byte>,
                      intact: bool, source: seq<byte>, qs: seq<Sequence>, d: int)
    requires mid + r <= |m0| && dest <= oend && Decodes(m0, m1, mid, mid + r, dest, oend, w, intact, d)
    requires FaithfulBlock(m0[mid..mid + r], e, source, qs) && Tracks(w, e) && oend - dest >= |source|
    ensures d == |source| && dest + d <= |m1| && m1[dest..dest + d] == source
  {
    hide Decode, MustDecode, FaithfulBlock, Tracks, SameOutside;
    TracksSource(m0[mid..mid + r], e, w, source, qs, oend - dest);
    var out := m1[dest..dest + d];
    assert (w + out)[|w|..] == out && (w + source)[|w|..] == source;
  }

  // ---------------------------------------------------------------- one block

  /** The places of a block: the encoder is ready for it, and block and output are clear of each
      other and of what both ends need. */
  predicate Places(enc: EncoderStream, dec: DecoderStream, size: nat, source: nat, n: nat, mid: nat, dest: nat, capacity: nat)
    reads enc, dec
    requires dec.Valid(size)
  {
    var bound, oend := mid + CompressBound(n), dest + capacity;
    && enc.Ready(size, source, n, mid) && bound + 2 <= size && n <= capacity && oend <= size
    && Disjoint(mid, bound, dest, oend) && Disjoint(source, source + n, dest, oend)
    && (enc.dictionary + enc.dictSize == source ==> Disjoint(source - enc.Usable(source, n), source, dest, oend))
    && Disjoint(dec.LowPrefix(dest), dest, mid, bound)
  }

  lemma PlacesFacts(enc: EncoderStream, dec: DecoderStream, size: nat, source: nat, n: nat, mid: nat, dest: nat, capacity: nat)
    requires dec.Valid(size) && Places(enc, dec, size, source, n, mid, dest, capacity)
    ensures enc.Ready(size, source, n, mid) && mid + CompressBound(n) + 2 <= size && source + n <= size
    ensures enc.dictionary + enc.dictSize <= size && n <= capacity && dest + capacity <= size
    ensures var k, bound, oend := enc.Usable(source, n), mid + CompressBound(n), dest + capacity;
            && Disjoint(source, source + n, mid, bound) && Disjoint(source, source + n, dest, oend)
            && Disjoint(mid, bound, dest, oend) && Disjoint(dec.LowPrefix(dest), dest, mid, bound)
            && (enc.dictionary + enc.dictSize == source ==>
                  k <= source && Disjoint(source - k, source, mid, bound) && Disjoint(source - k, source, dest, oend))
    ensures enc.dictionary + enc.dictSize == source ||
            Disjoint(enc.dictionary + enc.dictSize - enc.Usable(source, n), enc.dictionary + enc.dictSize, source, source + n)
  {
    hide Disjoint, CompressBound, EncoderStream.Usable;
  }

  /** One block, from `source` over `mid` to `dest`.  If the decoder tracks the history the encoder
      is going to use, it returns the source, and tracks the encoder's dictionary afterwards. */
  method SendBlock(enc: EncoderStream, dec: DecoderStream, mem: array<byte>, source: nat, n: nat, mid: nat, room: nat,
                   acceleration: int, dest: nat, capacity: nat, ghost hd: nat)
    returns (r: nat, d: int)
    requires enc.Valid() && dec.Valid(mem.Length) && Places(enc, dec, mem.Length, source, n, mid, dest, capacity)
    requires Sure(n, room, acceleration, enc.Tiny(source, n))
    requires hd <= dec.DictSize(dest) && Disjoint(dec.DictEnd(dest) - hd, dec.DictEnd(dest), dest, dest + capacity)
    requires Disjoint(dec.DictEnd(dest) - hd, dec.DictEnd(dest), mid, mid + CompressBound(n))
    requires enc.dictionary + enc.dictSize <= mem.Length && dest <= mem.Length
    requires Tracks(dec.Window(mem[..], dest, hd), enc.History(mem[..], source, n))
    modifies enc, enc.hashTable, dec, mem
    ensures enc.Valid() && dec.Valid(mem.Length) && enc.dictionary + enc.dictSize == source + n
    ensures n <= LZ4_MAX_INPUT_SIZE && room >= CompressBound(n) ==> r > 0
    ensures r > 0 ==> d == n && mem[dest..dest + n] == old(mem[source..source + n])
    ensures r > 0 ==> Tracks(dec.History(mem[..]), mem[enc.dictionary..enc.dictionary + enc.dictSize])
  {
    hide Tracks, FaithfulBlock, EndsWith, SameOutside, TwoParts, EncoderStream.Usable, EncoderStream.Tiny, Sure,
         Disjoint, CompressBound, Places, EncoderStream.Ready, EncoderStream.History, DecoderStream.Window,
         DecoderStream.DictEnd, DecoderStream.LowPrefix;
    PlacesFacts(enc, dec, mem.Length, source, n, mid, dest, capacity);
    ghost var m0, bound, text := mem[..], mid + CompressBound(n), mem[source..source + n];
    ghost var e, w, qs, near := enc.History(m0, source, n), dec.Window(m0, dest, hd), [], enc.dictionary + enc.dictSize == source;
    HistoryBefore(m0, enc, source, n, e);
    r, qs := MakeBlock(enc, mem, source, n, mid, room, acceleration, e, near);
    ghost var m1 := mem[..];
    d := 0;
    if r > 0 {
      WindowKept(m0, m1, mid, bound, dec, dest, hd);
      d := ReceiveBlock(dec, mem, mid, r, bound, dest, capacity, hd, e, w, text, qs);
      DictionaryIs(m0, m1, mem[..], source, n, |e|, near, mid, bound, dest, dest + capacity);
      assert enc.dictionary == source - if near then |e| else 0;
      StaysTracked(dec.History(mem[..]), w, e, text, near, mem[..][enc.dictionary..source + n]);
    }
  }

  lemma HistoryBefore(m: seq<byte>, enc: EncoderStream, source: nat, n: nat, e: seq<byte>)
    requires enc.dictionary + enc.dictSize <= |m| && e == enc.History(m, source, n)
    ensures enc.dictionary + enc.dictSize == source ==> |e| <= source && e == m[source - |e|..source]
  {
    hide EncoderStream.Usable;
  }

  /** The compressing half of it. */
  method MakeBlock(enc: EncoderStream, mem: array<byte>, source: nat, n: nat, mid: nat, room: nat, acceleration: int,
                   ghost e: seq<byte>, ghost near: bool)
    returns (r: nat, ghost qs: seq<Sequence>)
    requires enc.Valid() && enc.Ready(mem.Length, source, n, mid) && Sure(n, room, acceleration, enc.Tiny(source, n))
    requires e == enc.History(mem[..], source, n) && near == (enc.dictionary + enc.dictSize == source)
    modifies enc, enc.hashTable, mem
    ensures enc.Valid() && enc.dictionary + enc.dictSize == source + n && enc.dictSize == n + if near then |e| else 0
    ensures SameOutside(old(mem[..]), mem[..], mid, mid + CompressBound(n)) && r <= CompressBound(n)
    ensures n <= LZ4_MAX_INPUT_SIZE && room >= CompressBound(n) ==> r > 0
    ensures r > 0 ==> FaithfulBlock(mem[mid..mid + r], e, old(mem[source..source + n]), qs)
  {
    hide FaithfulBlock, SameOutside, EncoderStream.Usable, EncoderStream.Tiny, EncoderStream.Trap, Misleads, Sure,
         CompressBound;
    r, qs := enc.CompressFastContinue(mem, source, mid, n, room, acceleration);
  }

  /** The decoding half of it. */
  method ReceiveBlock(dec: DecoderStream, mem: array<byte>, mid: nat, r: nat, ghost bound: nat, dest: nat, capacity: nat,
                      ghost hd: nat, ghost e: seq<byte>, ghost w: seq<byte>, ghost text: seq<byte>, ghost qs: seq<Sequence>)
    returns (d: int)
    requires dec.Valid(mem.Length) && mid + r <= bound && bound + 2 <= mem.Length && |text| <= capacity
    requires dest + capacity <= mem.Length && Disjoint(mid, bound, dest, dest + capacity)
    requires hd <= dec.DictSize(dest) && Disjoint(dec.DictEnd(dest) - hd, dec.DictEnd(dest), dest, dest + capacity)
    requires w == dec.Window(mem[..], dest, hd) && Tracks(w, e) && FaithfulBlock(mem[mid..mid + r], e, text, qs)
    modifies dec, mem
    ensures dec.Valid(mem.Length) && d == |text| && mem[dest..dest + |text|] == text
    ensures SameOutside(old(mem[..]), mem[..], dest, dest + capacity) && EndsWith(dec.History(mem[..]), w + text)
  {
    hide Tracks, Decodes, FaithfulBlock, EndsWith, SameOutside, TwoParts, Reaches;
    ghost var m1, intact := mem[..], Reaches(hd, dec.DictSize(dest));
    assert m1[mid..mid + r] == mem[mid..mid + r];
    d := dec.DecompressSafeContinue(mem, mid, dest, r, capacity, hd);
    TracksReturns(m1, mem[..], mid, r, dest, dest + capacity, e, w, intact, text, qs, d);
    DecodesBounds(m1, mem[..], mid, mid + r, dest, dest + capacity, w, intact, d);
    assert mem[..][dest..dest + d] == mem[dest..dest + d];
  }

  lemma WindowSame(m0: seq<byte>, m1: seq<byte>, lo: nat, hi: nat, dictEnd: nat, hd: nat, low: nat, dest: nat)
    requires SameOutside(m0, m1, lo, hi) && hd <= dictEnd <= |m0| && low <= dest <= |m0|
    requires Disjoint(dictEnd - hd, dictEnd, lo, hi) && Disjoint(low, dest, lo, hi)
    ensures |m1| == |m0| && TwoParts(m1, dictEnd, hd, low, dest) == TwoParts(m0, dictEnd, hd, low, dest)
  {
    SliceKept(m0, m1, lo, hi, dictEnd - hd, dictEnd);
    SliceKept(m0, m1, lo, hi, low, dest);
  }

  lemma WindowKept(m0: seq<byte>, m1: seq<byte>, lo: nat, hi: nat, dec: DecoderStream, dest: nat, hd: nat)
    requires dec.Valid(|m0|) && dest <= |m0| && SameOutside(m0, m1, lo, hi) && hd <= dec.DictSize(dest)
    requires Disjoint(dec.DictEnd(dest) - hd, dec.DictEnd(dest), lo, hi) && Disjoint(dec.LowPrefix(dest), dest, lo, hi)
    ensures |m1| == |m0| && dec.Window(m1, dest, hd) == dec.Window(m0, dest, hd)
  {
    hide TwoParts, Disjoint;
    WindowSame(m0, m1, lo, hi, dec.DictEnd(dest), hd, dec.LowPrefix(dest), dest);
  }

  /** What the encoder's dictionary reads like after a block: the source, behind the history if
      that lay right before it. */
  lemma DictionaryIs(m0: seq<byte>, m1: seq<byte>, m2: seq<byte>, source: nat, n: nat, k: nat, near: bool,
                     lo1: nat, hi1: nat, lo2: nat, hi2: nat)
    requires SameOutside(m0, m1, lo1, hi1) && SameOutside(m1, m2, lo2, hi2) && source + n <= |m0|
    requires Disjoint(source, source + n, lo1, hi1) && Disjoint(source, source + n, lo2, hi2)
    requires near ==> k <= source && Disjoint(source - k, source, lo1, hi1) && Disjoint(source - k, source, lo2, hi2)
    ensures |m2| == |m0|
    ensures near ==> m2[source - k..source + n] == m0[source - k..source] + m0[source..source + n]
    ensures m2[source..source + n] == m0[source..source + n]
  {
    SliceKept(m0, m1, lo1, hi1, source, source + n);
    SliceKept(m1, m2, lo2, hi2, source, source + n);
    if near {
      SliceKept(m0, m1, lo1, hi1, source - k, source);
      SliceKept(m1, m2, lo2, hi2, source - k, source);
      assert m2[source - k..source + n] == m2[source - k..source] + m2[source..source + n];
    }
  }

  lemma StaysTracked(h: seq<byte>, w: seq<byte>, e: seq<byte>, text: seq<byte>, near: bool, dictionary: seq<byte>)
    requires Tracks(w, e) && EndsWith(h, w + text) && dictionary == if near then e + text else text
    ensures Tracks(h, dictionary)
  {
    hide Tracks;
    TracksMore(w, e, text);
    TracksWhole(h, w + text, e + text);
    assert EndsWith(e + text, text);
    TracksLess(h, e + text, dictionary);
  }

  // ---------------------------------------------------------------- whole runs

  /** What the two ends do: start over from a common dictionary (an empty one will do), move the
      encoder's dictionary, overwrite memory that neither needs, or pass on a message. */
  datatype Op =
    | Load(dict: nat, size: nat)
    | Save(safeBuffer: nat, wanted: int)
    | Write(at: nat, data: seq<byte>)
    | Message(text: seq<byte>, source: nat, mid: nat, dest: nat, capacity: nat, acceleration: int)

  function Messages(ops: seq<Op>): seq<seq<byte>> {
    if ops == [] then []
    else
      var op := ops[|ops| - 1];
      Messages(ops[..|ops| - 1]) + if op.Message? then [op.text] else []
  }

  /** How many of the `size` bytes before `end` are clear of `lo..hi`, counted from `end`. */
  function Spared(end: nat, size: nat, lo: nat, hi: nat): (k: nat)
    requires size <= end
    ensures k <= size && Disjoint(end - k, end, lo, hi)
    ensures k < size ==> !Disjoint(end - k - 1, end, lo, hi)
  {
    if end <= lo then size else if end < hi then 0 else if end - hi < size then end - hi else size
  }

  /** How much of the decoder's dictionary a message leaves alone: by being put in place, as a
      block, and when it comes out. */
  function LeftAlone(dec: DecoderStream, op: Op): (k: nat)
    reads dec
    requires op.Message? && dec.prefixSize <= dec.prefixEnd
    ensures k <= dec.DictSize(op.dest)
  {
    var end, size, n := dec.DictEnd(op.dest), dec.DictSize(op.dest), |op.text|;
    Least(Least(Spared(end, size, op.source, op.source + n), Spared(end, size, op.mid, op.mid + CompressBound(n))),
           Spared(end, size, op.dest, op.dest + op.capacity))
  }

  /** Nothing of what either end remembers lies in `lo..hi`. */
  predicate Unused(enc: EncoderStream, dec: DecoderStream, lo: nat, hi: nat)
    reads enc, dec
  {
    Disjoint(enc.dictionary, enc.dictionary + enc.dictSize, lo, hi) && Forgotten(dec, lo, hi)
  }

  predicate Forgotten(dec: DecoderStream, lo: nat, hi: nat)
    reads dec
  {
    && Disjoint(dec.externalDict, dec.externalDict + dec.extDictSize, lo, hi)
    && Disjoint(dec.prefixEnd - dec.prefixSize, dec.prefixEnd, lo, hi)
  }

  /** A message has its places, and what it leaves of the decoder's history is as much as the
      block may refer to. */
  predicate Fits(enc: EncoderStream, dec: DecoderStream, size: nat, op: Op)
    reads enc, dec
    requires op.Message? && dec.Valid(size)
  {
    var n, usable := |op.text|, enc.Usable(op.source, |op.text|);
    && n <= LZ4_MAX_INPUT_SIZE && Places(enc, dec, size, op.source, n, op.mid, op.dest, op.capacity)
    && Disjoint(dec.LowPrefix(op.dest), op.dest, op.source, op.source + n)
    && Least(usable, MAX_DISTANCE) <= LeftAlone(dec, op) + (op.dest - dec.LowPrefix(op.dest))
  }

  predicate Allowed(enc: EncoderStream, dec: DecoderStream, size: nat, op: Op)
    reads enc, dec
    requires dec.Valid(size)
  {
    match op
    case Load(dict, n) => dict + n <= size
    case Save(to, wanted) =>
      var k := SavedSize(wanted, enc.dictSize);
      to + k <= size && Forgotten(dec, to, to + k)
    case Write(at, data) => at + |data| <= size && Unused(enc, dec, at, at + |data|)
    case Message(text, source, _, _, _, acceleration) =>
      Fits(enc, dec, size, op) && Sure(|text|, CompressBound(|text|), acceleration, enc.Tiny(source, |text|))
  }

  /** The decoder tracks the encoder. */
  ghost predicate InStep(m: seq<byte>, enc: EncoderStream, dec: DecoderStream)
    reads enc, enc.hashTable, dec
  {
    && enc.Valid() && dec.Valid(|m|) && enc.dictionary + enc.dictSize <= |m|
    && Tracks(dec.History(m), m[enc.dictionary..enc.dictionary + enc.dictSize])
  }

  method DoLoad(enc: EncoderStream, dec: DecoderStream, mem: array<byte>, dict: nat, size: nat)
    requires InStep(mem[..], enc, dec) && dict + size <= mem.Length
    modifies enc, enc.hashTable, dec
    ensures InStep(mem[..], enc, dec)
  {
    hide Tracks, EndsWith, TwoParts, EncoderStream.OnlyFromDict;
    var _ := enc.LoadDict(mem, dict, size);
    dec.SetStreamDecode(mem, dict, size);
    ghost var m, lo, hi := mem[..], enc.dictionary, enc.dictionary + enc.dictSize;
    assert mem[dict..dict + size] == m[dict..dict + size];
    LoadedTracks(m, dict, dict + size, lo, hi);
  }

  lemma LoadedTracks(m: seq<byte>, dict: nat, end: nat, lo: nat, hi: nat)
    requires dict <= end <= |m| && lo <= hi <= |m| && (lo == hi || (dict <= lo && hi == end))
    ensures Tracks(m[dict..end], m[lo..hi])
  {
    if lo < hi {
      SliceSuffix(m, dict, lo, end);
    }
    assert EndsWith(m[lo..hi], Tail(m[lo..hi]));
    assert EndsWith(m[dict..end], m[lo..hi]);
    SuffixOfSuffix(m[dict..end], m[lo..hi], Tail(m[lo..hi]));
  }

  method DoSave(enc: EncoderStream, dec: DecoderStream, mem: array<byte>, to: nat, size: int)
    requires InStep(mem[..], enc, dec) && to + SavedSize(size, enc.dictSize) <= mem.Length
    requires Forgotten(dec, to, to + SavedSize(size, enc.dictSize))
    modifies enc, mem
    ensures InStep(mem[..], enc, dec)
  {
    hide Tracks, EndsWith, TwoParts, Disjoint, SavedSize, SameOutside;
    ghost var m0, lo, hi := mem[..], enc.dictionary, enc.dictionary + enc.dictSize;
    ghost var k := SavedSize(size, enc.dictSize);
    var _ := enc.SaveDict(mem, to, size);
    WindowSame(m0, mem[..], to, to + k, dec.externalDict + dec.extDictSize, dec.extDictSize,
               dec.prefixEnd - dec.prefixSize, dec.prefixEnd);
    assert mem[..][to..to + k] == m0[hi - k..hi];
    SliceSuffix(m0, lo, hi - k, hi);
    TracksLess(dec.History(m0), m0[lo..hi], m0[hi - k..hi]);
  }

  method DoWrite(enc: EncoderStream, dec: DecoderStream, mem: array<byte>, at: nat, data: seq<byte>)
    requires InStep(mem[..], enc, dec) && at + |data| <= mem.Length && Unused(enc, dec, at, at + |data|)
    modifies mem
    ensures InStep(mem[..], enc, dec)
  {
    hide Tracks, EndsWith, TwoParts, Disjoint, SameOutside;
    ghost var m0, hi := mem[..], at + |data|;
    Fill(mem, at, data);
    WindowSame(m0, mem[..], at, hi, dec.externalDict + dec.extDictSize, dec.extDictSize,
               dec.prefixEnd - dec.prefixSize, dec.prefixEnd);
    SliceKept(m0, mem[..], at, hi, enc.dictionary, enc.dictionary + enc.dictSize);
  }

  /** The message is put in place, compressed, and comes back. */
  method DoMessage(enc: EncoderStream, dec: DecoderStream, mem: array<byte>, op: Op) returns (text: seq<byte>)
    requires InStep(mem[..], enc, dec) && op.Message? && Fits(enc, dec, mem.Length, op)
    requires Sure(|op.text|, CompressBound(|op.text|), op.acceleration, enc.Tiny(op.source, |op.text|))
    modifies enc, enc.hashTable, dec, mem
    ensures InStep(mem[..], enc, dec) && text == op.text
  {
    hide Tracks, EndsWith, TwoParts, Disjoint, SameOutside, EncoderStream.Usable, EncoderStream.Tiny, CompressBound,
         Sure, LeftAlone, Places, EncoderStream.Ready, EncoderStream.History, DecoderStream.Window,
         DecoderStream.DictEnd, DecoderStream.LowPrefix;
    PlacesFacts(enc, dec, mem.Length, op.source, |op.text|, op.mid, op.dest, op.capacity);
    ghost var m0, hd := mem[..], LeftAlone(dec, op);
    var n := |op.text|;
    StillEnough(m0, enc, dec, op, hd);
    ghost var w, e := dec.Window(m0, op.dest, hd), enc.History(m0, op.source, n);
    Fill(mem, op.source, op.text);
    SparedByAll(dec, op, hd);
    WindowKept(m0, mem[..], op.source, op.source + n, dec, op.dest, hd);
    HistorySame(m0, mem[..], enc, op.source, n);
    var r, d := SendBlock(enc, dec, mem, op.source, n, op.mid, CompressBound(n), op.acceleration, op.dest, op.capacity, hd);
    text := mem[op.dest..op.dest + d];
  }

  lemma SparedByAll(dec: DecoderStream, op: Op, hd: nat)
    requires op.Message? && dec.prefixSize <= dec.prefixEnd && hd == LeftAlone(dec, op)
    ensures var end, n := dec.DictEnd(op.dest), |op.text|;
            && Disjoint(end - hd, end, op.source, op.source + n)
            && Disjoint(end - hd, end, op.mid, op.mid + CompressBound(n))
            && Disjoint(end - hd, end, op.dest, op.dest + op.capacity)
  {
    hide CompressBound;
  }

  lemma HistorySame(m0: seq<byte>, m1: seq<byte>, enc: EncoderStream, source: nat, n: nat)
    requires SameOutside(m0, m1, source, source + n) && enc.dictionary + enc.dictSize <= |m0|
    requires enc.dictionary + enc.dictSize == source ||
             Disjoint(enc.dictionary + enc.dictSize - enc.Usable(source, n), enc.dictionary + enc.dictSize, source, source + n)
    ensures |m1| == |m0| && enc.History(m1, source, n) == enc.History(m0, source, n)
  {
    var end := enc.dictionary + enc.dictSize;
    SliceKept(m0, m1, source, source + n, end - enc.Usable(source, n), end);
  }

  lemma StillEnough(m: seq<byte>, enc: EncoderStream, dec: DecoderStream, op: Op, hd: nat)
    requires InStep(m, enc, dec) && op.Message? && Fits(enc, dec, |m|, op) && hd == LeftAlone(dec, op) && op.dest <= |m|
    ensures Tracks(dec.Window(m, op.dest, hd), enc.History(m, op.source, |op.text|))
  {
    hide Tracks, EndsWith, TwoParts, Disjoint, LeftAlone, CompressBound, EncoderStream.Usable, Places,
         EncoderStream.Ready;
    PlacesFacts(enc, dec, |m|, op.source, |op.text|, op.mid, op.dest, op.capacity);
    var end, n := enc.dictionary + enc.dictSize, |op.text|;
    SliceSuffix(m, enc.dictionary, end - enc.Usable(op.source, n), end);
    TracksLess(dec.History(m), m[enc.dictionary..end], enc.History(m, op.source, n));
    WindowIsPart(m, dec, op.dest, hd);
    TracksPart(dec.History(m), dec.Window(m, op.dest, hd), enc.History(m, op.source, n));
  }

  lemma WindowIsPart(m: seq<byte>, dec: DecoderStream, dest: nat, hd: nat)
    requires dec.Valid(|m|) && dest <= |m| && hd <= dec.DictSize(dest)
    ensures EndsWith(dec.History(m), dec.Window(m, dest, hd))
  {
    hide EndsWith;
    var end, size := dec.DictEnd(dest), dec.DictSize(dest);
    SliceSuffix(m, end - size, end - hd, end);
    if dec.prefixEnd == dest {
      SuffixMore(m[end - size..end], m[end - hd..end], m[dec.prefixEnd - dec.prefixSize..dec.prefixEnd]);
    } else {
      assert m[end - hd..end] + m[dest..dest] == m[end - hd..end];
      EndsWithMore(m[dec.externalDict..dec.externalDict + dec.extDictSize], m[end - size..end], m[end - hd..end]);
    }
  }

  /** A whole run, from two new streams on: as long as the operations are allowed, every message
      comes back as it was sent.  What is allowed is known before an operation begins. */
  method Run(mem: array<byte>, ops: seq<Op>) returns (enc: EncoderStream, dec: DecoderStream, done: nat, received: seq<seq<byte>>)
    modifies mem
    ensures done <= |ops| && received == Messages(ops[..done])
    ensures InStep(mem[..], enc, dec) && (done < |ops| ==> !Allowed(enc, dec, mem.Length, ops[done]))
  {
    hide InStep, Allowed, Messages;
    enc := new EncoderStream();
    dec := new DecoderStream();
    InStepAtFirst(mem[..], enc, dec);
    done, received := 0, [];
    NoMessages(ops);
    while done < |ops|
      invariant fresh(enc) && fresh(dec) && fresh(enc.hashTable) && InStep(mem[..], enc, dec)
      invariant done <= |ops| && received == Messages(ops[..done])
      decreases |ops| - done
    {
      ValidHere(mem[..], enc, dec);
      if !Allowed(enc, dec, mem.Length, ops[done]) {
        return;
      }
      var more := Do(enc, dec, mem, ops[done]);
      OneMoreOp(ops, done);
      received, done := received + more, done + 1;
    }
  }

  method Do(enc: EncoderStream, dec: DecoderStream, mem: array<byte>, op: Op) returns (received: seq<seq<byte>>)
    requires InStep(mem[..], enc, dec) && Allowed(enc, dec, mem.Length, op)
    modifies enc, enc.hashTable, dec, mem
    ensures InStep(mem[..], enc, dec) && received == if op.Message? then [op.text] else []
  {
    hide InStep, Fits, Sure, EncoderStream.Tiny, Unused, Forgotten, SavedSize;
    received := [];
    match op {
      case Load(dict, size) => DoLoad(enc, dec, mem, dict, size);
      case Save(to, size) => DoSave(enc, dec, mem, to, size);
      case Write(at, data) => DoWrite(enc, dec, mem, at, data);
      case Message(_, _, _, _, _, _) =>
        var text := DoMessage(enc, dec, mem, op);
        received := [text];
    }
  }

  lemma ValidHere(m: seq<byte>, enc: EncoderStream, dec: DecoderStream)
    requires InStep(m, enc, dec)
    ensures dec.Valid(|m|)
  {
  }

  lemma InStepAtFirst(m: seq<byte>, enc: EncoderStream, dec: DecoderStream)
    requires enc.Valid() && enc.dictionary == enc.dictSize == 0
    requires dec.externalDict == dec.extDictSize == dec.prefixEnd == dec.prefixSize == 0
    ensures InStep(m, enc, dec)
  {
  }

  lemma NoMessages(ops: seq<Op>)
    ensures Messages(ops[..0]) == []
  {
  }

  lemma OneMoreOp(ops: seq<Op>, i: nat)
    requires i < |ops|
    ensures Messages(ops[..i + 1]) == Messages(ops[..i]) + if ops[i].Message? then [ops[i].text] else []
  {
    assert ops[..i + 1][..i] == ops[..i];
  }

  // ---------------------------------------------------------------- when a block is not sure

  lemma FirstReady(enc: EncoderStream, size: nat, at: nat, k: nat, mid: nat)
    requires enc.dictionary == enc.dictSize == 0 && k <= LZ4_MAX_INPUT_SIZE && at != 0 && at + k + 3 <= size
    requires mid + CompressBound(k) <= size && Disjoint(at, at + k + 3, mid, mid + CompressBound(k))
    ensures enc.Ready(size, at, k, mid) && enc.Usable(at, k) == 0 && enc.dictionary + enc.dictSize != at
  {
    hide CompressBound;
  }

  lemma SecondReady(enc: EncoderStream, size: nat, at: nat, k: nat, source: nat, n: nat, mid: nat)
    requires enc.dictionary == at && enc.dictSize == k && enc.currentOffset == k <= LZ4_MAX_INPUT_SIZE
    requires at + k + 3 <= size && 0 < n <= LZ4_MAX_INPUT_SIZE && source + n <= size && mid + CompressBound(n) <= size
    requires Disjoint(at, at + k + 3, mid, mid + CompressBound(n)) && Disjoint(source, source + n, mid, mid + CompressBound(n))
    requires Disjoint(at, at + k, source, source + n)
    ensures enc.Ready(size, source, n, mid) && enc.Usable(source, n) == k
    ensures Disjoint(at, at + k + 3, source, source + n) ==> at + k != source
  {
    hide CompressBound;
  }

  lemma StillZeros(m0: seq<byte>, m1: seq<byte>, at: nat, k: nat, lo: nat, hi: nat, all: bool)
    requires SameOutside(m0, m1, lo, hi) && at + k + 3 <= |m0| && m0[at..at + k + 3] == Zeros(k + 3)
    requires Disjoint(at, at + k, lo, hi) && (all ==> Disjoint(at, at + k + 3, lo, hi))
    ensures |m1| == |m0| && m1[at..at + k] == Zeros(k) && (all ==> m1[at..at + k + 3] == Zeros(k + 3))
  {
    SliceKept(m0, m1, lo, hi, at, at + k);
    if all {
      SliceKept(m0, m1, lo, hi, at, at + k + 3);
    }
    assert m0[at..at + k] == m0[at..at + k + 3][..k] == Zeros(k);
  }

  lemma TrapIsSet(enc: EncoderStream, m: seq<byte>, at: nat, k: nat, source: nat, n: nat, room: nat, acceleration: int) returns (small: bool)
    requires enc.dictionary == at && enc.dictSize == k && enc.currentOffset == k && enc.Usable(source, n) == k
    requires at + k + 3 <= |m| && source + n <= |m| && n > MFLIMIT + 1 && m[at..at + k] == Zeros(k)
    requires m[source..source + n] == if Advancing(acceleration) then OneThenZeros(n) else Counting(n)
    requires Advancing(acceleration) ==> 1 <= k <= 3 && at + k != source && m[at..at + k + 3] == Zeros(k + 3)
    requires room >= n - 1 && !Sure(n, room, acceleration, 1 <= k <= 3)
    ensures enc.Trap(m, source, n, acceleration, small) && enc.Trap(m, source, n, acceleration, false)
    ensures FitsTrap(n, room, acceleration, small)
  {
    hide EncoderStream.Usable, Counting, Advancing, HashPosition, Confusing;
    if Advancing(acceleration) {
      OneThenZerosOverruns(m, at, k, source, n);
    } else {
      CountingConfuses(Zeros(k), n);
    }
    small := !Advancing(acceleration) || n > MFLIMIT + MINMATCH;
  }

  /** A new stream that has seen `k` zeros, which stand at `at`. */
  method SeenZeros(mem: array<byte>, at: nat, k: nat, mid: nat) returns (enc: EncoderStream)
    requires k <= LZ4_MAX_INPUT_SIZE && at != 0 && at + k + 3 <= mem.Length
    requires mid + CompressBound(k) <= mem.Length && Disjoint(at, at + k + 3, mid, mid + CompressBound(k))
    modifies mem
    ensures fresh(enc) && fresh(enc.hashTable) && enc.Valid()
    ensures enc.dictionary == at && enc.dictSize == k && enc.currentOffset == k && mem[at..at + k + 3] == Zeros(k + 3)
  {
    hide SameOutside, Misleads, Promise, CompressBound, Disjoint, Sure, Settled, EncoderStream.Tiny, EncoderStream.Usable,
         EncoderStream.Ready, EncoderStream.Trap, EncoderStream.History;
    enc := new EncoderStream();
    Fill(mem, at, Zeros(k + 3));
    ghost var m0 := mem[..];
    FirstReady(enc, mem.Length, at, k, mid);
    var r;
    ghost var qs;
    r, qs := enc.CompressFastContinue(mem, at, mid, k, CompressBound(k), 1);
    SliceKept(m0, mem[..], mid, mid + CompressBound(k), at, at + k + 3);
  }

  /** What is not sure does go wrong, if there is room for as much as the source less one byte: for
      every size and acceleration, a new stream that has seen `k` bytes makes of some source a block
      that nobody with the right history gets the source from. */
  method GoesWrong(mem: array<byte>, k: nat, at: nat, n: nat, source: nat, mid: nat, room: nat, acceleration: int)
    returns (enc: EncoderStream, r: nat)
    requires n <= LZ4_MAX_INPUT_SIZE && k <= LZ4_MAX_INPUT_SIZE && room >= n - 1 && !Sure(n, room, acceleration, 1 <= k <= 3)
    requires at != 0 && at + k + 3 <= mem.Length && source + n <= mem.Length
    requires mid + CompressBound(k) <= mem.Length && mid + CompressBound(n) <= mem.Length
    requires Disjoint(at, at + k + 3, mid, mid + CompressBound(k)) && Disjoint(at, at + k + 3, mid, mid + CompressBound(n))
    requires Disjoint(source, source + n, mid, mid + CompressBound(n)) && Disjoint(at, at + k, source, source + n)
    requires Advancing(acceleration) ==> Disjoint(at, at + k + 3, source, source + n)
    modifies mem
    ensures 0 < r <= room && r <= CompressBound(n) && Misleads(mem[mid..mid + r], k, mem[source..source + n])
  {
    hide SameOutside, Misleads, Promise, CompressBound, Disjoint, Settled, Advancing, EncoderStream.Tiny,
         EncoderStream.Usable, EncoderStream.Ready, EncoderStream.Trap, EncoderStream.History, FitsTrap;
    enc := SeenZeros(mem, at, k, mid);
    ghost var m1 := mem[..];
    var text := if Advancing(acceleration) then OneThenZeros(n) else Counting(n);
    Fill(mem, source, text);
    ghost var m2 := mem[..];
    StillZeros(m1, m2, at, k, source, source + n, Advancing(acceleration));
    SecondReady(enc, mem.Length, at, k, source, n, mid);
    ghost var small := TrapIsSet(enc, m2, at, k, source, n, room, acceleration);
    r := SendTrapped(enc, mem, source, n, mid, room, acceleration, text, small);
  }

  method SendTrapped(enc: EncoderStream, mem: array<byte>, source: nat, n: nat, mid: nat, room: nat, acceleration: int,
                     ghost text: seq<byte>, ghost small: bool)
    returns (r: nat)
    requires enc.Valid() && enc.Ready(mem.Length, source, n, mid) && 0 < n <= LZ4_MAX_INPUT_SIZE
    requires source + n <= mem.Length && mem[source..source + n] == text && enc.dictionary + enc.dictSize + 3 <= mem.Length
    requires enc.Trap(mem[..], source, n, acceleration, false)
    requires enc.Trap(mem[..], source, n, acceleration, small) && FitsTrap(n, room, acceleration, small)
    requires Disjoint(source, source + n, mid, mid + CompressBound(n))
    modifies enc, enc.hashTable, mem
    ensures 0 < r <= room && r <= CompressBound(n) && mem[source..source + n] == text
    ensures Misleads(mem[mid..mid + r], old(enc.Usable(source, n)), text)
  {
    hide SameOutside, Misleads, Promise, CompressBound, Disjoint, Sure, Settled, Advancing, EncoderStream.Tiny,
         EncoderStream.Usable, EncoderStream.Ready, EncoderStream.Trap, EncoderStream.History, FitsTrap;
    ghost var m, qs := mem[..], [];
    r, qs := enc.CompressFastContinue(mem, source, mid, n, room, acceleration);
    SliceKept(m, mem[..], mid, mid + CompressBound(n), source, source + n);
    assert mem[..][source..source + n] == mem[source..source + n] && m[source..source + n] == text;
  }
}
