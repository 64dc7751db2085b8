/** The high-compression stream (LZ4_streamHC_t): its one-shot use, its dictionary, and the
    segment it keeps as external dictionary when the caller moves on to another buffer. */
module HcStream {
  import opened BlockFormat
  import opened Memory
  import opened Encoding
  import opened Emitter
  import opened BlockApi
  import opened HcSearch
  import opened HcCompressor
  import opened HcOptimal

  const LZ4HC_CLEVEL_DEFAULT := 9
  const LZ4HC_CLEVEL_OPT_MIN := 10
  const LZ4HC_CLEVEL_MAX := 12
  const TWO_GB := 0x8000_0000

  // ---------------------------------------------------------------- moving the view

  /** LZ4HC_init: nothing seen yet, indices starting at 64 KB. */
  function InitView(start: nat): View {
    View(start - DICT64K, start - DICT64K, DICT64K, DICT64K, start)
  }

  /** LZ4HC_setExternalDict: the prefix becomes the external dictionary, the old one is lost. */
  function ExternView(v: View, src: nat): View
    requires v.base <= v.end
  {
    View(src - (v.end - v.base), v.base, v.dictLimit, v.end - v.base, src)
  }

  /** When indices get too large, the stream starts over with the last 64 KB of its prefix. */
  function RenewView(v: View): View
    requires 0 <= v.LowPrefix() <= v.end
  {
    if v.end - v.base > TWO_GB then
      var size := v.end - v.LowPrefix();
      InitView(v.end - if size > DICT64K then DICT64K else size).(end := v.end)
    else v
  }

  /** The overlap check: of an external dictionary that the source overwrites, only what lies
      behind the source is kept. */
  function TrimView(v: View, src: nat, sourceEnd: nat): View {
    var dictBegin, dictEnd := v.dictBase + v.lowLimit, v.dictBase + v.dictLimit;
    if sourceEnd > dictBegin && src < dictEnd then
      var low := (if sourceEnd > dictEnd then dictEnd else sourceEnd) - v.dictBase;
      if low < 0 then v else if v.dictLimit - low < 4 then v.(lowLimit := v.dictLimit) else v.(lowLimit := low)
    else v
  }

  /** The view with which a call is going to work. */
  function NextView(ready: bool, v: View, src: nat, n: nat): View
    requires ready ==> v.base + v.dictLimit <= v.end && 0 <= v.LowPrefix() && v.base <= v.end
  {
    var v1 := RenewView(if ready then v else InitView(src));
    TrimView(if src != v1.end then ExternView(v1, src) else v1, src, src + n)
  }

  lemma LinkedNothing(hash: seq<nat>, chain: seq<nat>, start: nat)
    requires |hash| == HASH_SIZE && |chain| == CHAIN_SIZE && forall h :: 0 <= h < HASH_SIZE ==> hash[h] == 0
    ensures Linked(hash, chain, InitView(start), DICT64K)
  {
  }

  /** What has been inserted of the prefix stays inserted when it becomes the dictionary: all
      but its last three bytes. */
  lemma LinkedExtern(hash: seq<nat>, chain: seq<nat>, v: View, next: nat, src: nat)
    requires Linked(hash, chain, v, next) && v.lowLimit <= v.dictLimit <= v.end - v.base
    requires next == v.end - v.base - 3 || (v.end - v.base - 3 <= next && next == v.dictLimit)
    ensures Linked(hash, chain, ExternView(v, src), v.end - v.base)
  {
    var v', next' := ExternView(v, src), v.end - v.base;
    forall h | 0 <= h < HASH_SIZE ensures Known(hash[h], v', next') {
      assert Known(hash[h], v, next);
    }
    forall x: nat | Inserted(x, v', next') && next' <= x + CHAIN_SIZE
      ensures LinkOk(chain[x % CHAIN_SIZE], x, v', next')
    {
      assert Inserted(x, v, next) && LinkOk(chain[x % CHAIN_SIZE], x, v, next);
    }
  }

  /** Fewer positions count as readable: links stay good. */
  lemma LinkedLess(hash: seq<nat>, chain: seq<nat>, v: View, next: nat, v': View, next': nat)
    requires Linked(hash, chain, v, next) && next <= next' && v'.dictLimit <= next'
    requires forall x :: Inserted(x, v', next') ==> Inserted(x, v, next)
    requires forall x :: Known(x, v, next) ==> Known(x, v', next')
    ensures Linked(hash, chain, v', next')
  {
    forall x: nat | Inserted(x, v', next') && next' <= x + CHAIN_SIZE
      ensures LinkOk(chain[x % CHAIN_SIZE], x, v', next')
    {
      assert Inserted(x, v, next);
      assert LinkOk(chain[x % CHAIN_SIZE], x, v, next);
    }
  }

  lemma RenewedIsSuffix(m: seq<byte>, v: View)
    requires v.Valid(|m|)
    ensures RenewView(v).Valid(|m|) && EndsWith(v.Text(m), RenewView(v).Text(m)) && RenewView(v).end == v.end
  {
    if v.end - v.base > TWO_GB {
      var low := RenewView(v).LowPrefix();
      SliceSuffix(m, v.LowPrefix(), low, v.end);
      EndsWithMore(v.Dict(m), m[v.LowPrefix()..v.end], m[low..v.end]);
      assert [] + m[low..v.end] == m[low..v.end];
    }
  }

  lemma ExternIsSuffix(m: seq<byte>, v: View, src: nat)
    requires v.Valid(|m|) && src <= |m|
    ensures ExternView(v, src).Valid(|m|) && ExternView(v, src).Text(m) == m[v.LowPrefix()..v.end]
    ensures EndsWith(v.Text(m), ExternView(v, src).Text(m)) && ExternView(v, src).end == src
  {
    hide EndsWith;
    ExternDict(m, v, src);
    var prefix := m[v.LowPrefix()..v.end];
    assert ExternView(v, src).LowPrefix() == src && prefix + m[src..src] == prefix;
    EmptySuffix(v.Dict(m));
    SuffixMore(v.Dict(m), [], prefix);
    assert [] + prefix == prefix;
  }

  lemma ExternDict(m: seq<byte>, v: View, src: nat)
    requires v.Valid(|m|) && src <= |m|
    ensures ExternView(v, src).Valid(|m|) && ExternView(v, src).Dict(m) == m[v.LowPrefix()..v.end]
  {
    var w := ExternView(v, src);
    assert w.dictBase + w.lowLimit == v.LowPrefix() && w.dictBase + w.dictLimit == v.end;
  }

  lemma TrimmedIs(size: nat, v: View, src: nat, sourceEnd: nat)
    requires v.Valid(size) && src <= sourceEnd
    ensures var v' := TrimView(v, src, sourceEnd);
            v'.Valid(size) && v' == v.(lowLimit := v'.lowLimit) && v.lowLimit <= v'.lowLimit <= v.dictLimit
  {
  }

  lemma TrimmedDict(m: seq<byte>, v: View, low: nat)
    requires v.Valid(|m|) && v.lowLimit <= low <= v.dictLimit
    ensures v.(lowLimit := low).Valid(|m|) && EndsWith(v.Dict(m), v.(lowLimit := low).Dict(m))
  {
    hide EndsWith;
    if low < v.dictLimit {
      SliceSuffix(m, v.dictBase + v.lowLimit, v.dictBase + low, v.dictBase + v.dictLimit);
    } else {
      EmptySuffix(v.Dict(m));
    }
  }

  lemma TrimmedIsSuffix(m: seq<byte>, v: View, src: nat, sourceEnd: nat)
    requires v.Valid(|m|) && src <= sourceEnd
    ensures TrimView(v, src, sourceEnd).Valid(|m|) && EndsWith(v.Text(m), TrimView(v, src, sourceEnd).Text(m))
    ensures TrimView(v, src, sourceEnd).end == v.end
  {
    hide EndsWith, TrimView, View.Valid, View.Dict;
    TrimmedIs(|m|, v, src, sourceEnd);
    var v' := TrimView(v, src, sourceEnd);
    TrimmedDict(m, v, v'.lowLimit);
    ValidFacts(v, |m|);
    SuffixMore(v.Dict(m), v'.Dict(m), m[v.LowPrefix()..v.end]);
  }

  lemma ValidFacts(v: View, size: nat)
    requires v.Valid(size)
    ensures v.base <= v.end && 0 <= v.LowPrefix() <= v.end
  {
  }

  lemma RenewedFacts(v: View)
    requires 0 <= v.LowPrefix() <= v.end && v.base <= v.end
    ensures var w := RenewView(v); w.end == v.end && w.base <= w.end && 0 <= w.LowPrefix() <= w.end
  {
  }

  /** The history of the next call is always the end of what the stream has seen, as memory
      holds it now. */
  lemma HistoryIsSuffix(m: seq<byte>, v: View, src: nat, n: nat)
    requires v.Valid(|m|) && src <= |m|
    ensures var v' := NextView(true, v, src, n); v'.Valid(|m|) && v'.end == src && EndsWith(v.Text(m), v'.Text(m))
  {
    hide View.Text, EndsWith, TrimView, RenewView, ExternView, View.Valid;
    ValidFacts(v, |m|);
    RenewedFacts(v);
    var v1 := RenewView(v);
    RenewedIsSuffix(m, v);
    var v2 := if src != v1.end then ExternView(v1, src) else v1;
    ExternIsSuffix(m, v1, src);
    SuffixOfSuffix(v.Text(m), v1.Text(m), v2.Text(m));
    TrimmedIsSuffix(m, v2, src, src + n);
    SuffixOfSuffix(v.Text(m), v2.Text(m), TrimView(v2, src, src + n).Text(m));
  }

  // ---------------------------------------------------------------- the stream

  /** LZ4HC_compress_generic: the strategy of the level. */
  method CompressLevel(mem: array<byte>, hash: array<nat>, chain: array<nat>, c: HcCall, nextToUpdate: nat, level: int)
    returns (r: nat, next: nat, ghost qs: seq<Sequence>)
    requires c.Valid(mem.Length) && hash != chain
    requires Linked(hash[..], chain[..], c.v, nextToUpdate) && c.v.base + nextToUpdate <= c.src
    modifies mem, hash, chain
    ensures SameOutside(old(mem[..]), mem[..], c.dst, c.dst + c.OutRoom())
    ensures Linked(hash[..], chain[..], c.v, next)
    ensures next == nextToUpdate || c.v.base + next <= c.Iend() - 3
    ensures r <= c.OutRoom() && (c.limited ==> r <= c.maxOutputSize) && (!c.limited ==> r > 0)
    ensures r > 0 ==>
      FaithfulBlock(mem[c.dst..c.dst + r], old(c.History(mem[..])), old(mem[c.src..c.Iend()]), qs)
  {
    hide Linked, SameOutside, FaithfulBlock, HcCall.History, HcCall.Valid;
    var cLevel := if level < 1 then LZ4HC_CLEVEL_DEFAULT else if level > LZ4HC_CLEVEL_MAX then LZ4HC_CLEVEL_MAX else level;
    if cLevel < LZ4HC_CLEVEL_OPT_MIN {
      r, next, qs := CompressHashChain(mem, hash, chain, c, nextToUpdate, HashChainSearches(cLevel));
    } else if cLevel == 10 {
      r, next, qs := CompressOptimal(mem, hash, chain, c, nextToUpdate, 96, 64, false);
    } else if cLevel == 11 {
      r, next, qs := CompressOptimal(mem, hash, chain, c, nextToUpdate, 512, 128, false);
    } else {
      r, next, qs := CompressOptimal(mem, hash, chain, c, nextToUpdate, 8192, LZ4_OPT_NUM, true);
    }
  }

  function HashChainSearches(cLevel: int): nat {
    match cLevel
    case 3 => 4
    case 4 => 8
    case 5 => 16
    case 6 => 32
    case 7 => 64
    case 8 => 128
    case 9 => 256
    case _ => 2
  }

  class HcEncoder {
    const hashTable: array<nat>
    const chainTable: array<nat>
    var ready: bool                    // base is not NULL
    var view: View
    var nextToUpdate: nat
    var compressionLevel: int

    /** Positions up to `nextToUpdate` are inserted; what is not inserted of the prefix, should
        anything be, includes its last three bytes. */
    ghost predicate Valid(size: nat)
      reads this, hashTable, chainTable
    {
      && hashTable != chainTable && hashTable.Length == HASH_SIZE && chainTable.Length == CHAIN_SIZE
      && (ready ==>
            && view.Valid(size) && Linked(hashTable[..], chainTable[..], view, nextToUpdate)
            && (nextToUpdate == view.dictLimit || view.base + nextToUpdate <= view.end - 3)
            && view.end - view.base < 2 * TWO31)
    }

    constructor (level: int)
      ensures !ready && compressionLevel == level && fresh(hashTable) && fresh(chainTable)
      ensures forall size :: Valid(size)
    {
      hashTable := new nat[HASH_SIZE];
      chainTable := new nat[CHAIN_SIZE];
      ready, view, nextToUpdate, compressionLevel := false, InitView(0), 0, level;
    }

    /** LZ4HC_init. */
    method Init(start: nat, ghost size: nat)
      requires Valid(size) && start <= size
      modifies this, hashTable, chainTable
      ensures ready && Valid(size) && view == InitView(start) && nextToUpdate == DICT64K
      ensures compressionLevel == old(compressionLevel)
    {
      forall i | 0 <= i < HASH_SIZE {
        hashTable[i] := 0;
      }
      forall i | 0 <= i < CHAIN_SIZE {
        chainTable[i] := 0xFFFF;
      }
      ready, view, nextToUpdate := true, InitView(start), DICT64K;
      LinkedNothing(hashTable[..], chainTable[..], start);
    }

    /** Referencing the remaining positions of the prefix, all but its last three. */
    method InsertRest(mem: array<byte>)
      requires Valid(mem.Length) && ready
      modifies hashTable, chainTable, `nextToUpdate
      ensures Valid(mem.Length)
      ensures nextToUpdate == view.end - view.base - 3 || (view.end - view.base - 3 <= nextToUpdate && nextToUpdate == view.dictLimit)
    {
      hide Linked;
      LinkedFacts(hashTable[..], chainTable[..], view, nextToUpdate);
      if view.base + nextToUpdate <= view.end - 3 {
        nextToUpdate := Insert(mem, hashTable, chainTable, view, nextToUpdate, view.end - 3);
        LinkedFacts(hashTable[..], chainTable[..], view, nextToUpdate);
      }
    }

    /** LZ4_loadDictHC. */
    method LoadDict(mem: array<byte>, dict: nat, dictSize: nat) returns (size: nat)
      requires Valid(mem.Length) && dict + dictSize <= mem.Length
      modifies this, hashTable, chainTable
      ensures Valid(mem.Length) && ready && size == (if dictSize > DICT64K then DICT64K else dictSize)
      ensures view == InitView(dict + dictSize - size).(end := dict + dictSize)
      ensures compressionLevel == old(compressionLevel)
    {
      hide Linked;
      size := if dictSize > DICT64K then DICT64K else dictSize;
      Init(dict + dictSize - size, mem.Length);
      LinkedAny(hashTable[..], chainTable[..], view, nextToUpdate, view.(end := dict + dictSize));
      view := view.(end := dict + dictSize);
      if size >= 4 {
        InsertRest(mem);
      }
    }

    /** What comes before the compression in LZ4_compressHC_continue_generic. */
    method Attach(mem: array<byte>, src: nat, n: nat)
      requires Valid(mem.Length) && src + n <= mem.Length
      modifies this, hashTable, chainTable
      ensures Valid(mem.Length) && ready && view == NextView(old(ready), old(view), src, n) && view.end == src
      ensures compressionLevel == old(compressionLevel)
    {
      hide Linked, TrimView, RenewView, ExternView, InitView, View.Valid;
      if !ready {
        Init(src, mem.Length);
      }
      Renew(mem);
      if src != view.end {
        SetExternalDict(mem, src);
      }
      ViewFacts(view, mem[..], src, n);
      LinkedTrim(hashTable[..], chainTable[..], view, nextToUpdate, src, src + n);
      view := TrimView(view, src, src + n);
    }

    method Renew(mem: array<byte>)
      requires Valid(mem.Length) && ready
      modifies this, hashTable, chainTable
      ensures Valid(mem.Length) && ready && compressionLevel == old(compressionLevel)
      ensures old(0 <= view.LowPrefix() <= view.end) && view == RenewView(old(view))
    {
      hide Linked;
      if view.end - view.base > TWO_GB {
        var dictSize := view.end - view.base - view.dictLimit;
        if dictSize > DICT64K {
          dictSize := DICT64K;
        }
        var _ := LoadDict(mem, view.end - dictSize, dictSize);
      }
    }

    /** LZ4HC_setExternalDict. */
    method SetExternalDict(mem: array<byte>, newBlock: nat)
      requires Valid(mem.Length) && ready && newBlock <= mem.Length
      modifies this, hashTable, chainTable
      ensures Valid(mem.Length) && ready && compressionLevel == old(compressionLevel)
      ensures old(view.base <= view.end) && view == ExternView(old(view), newBlock) && view.end == newBlock
    {
      hide Linked;
      InsertRest(mem);
      LinkedExtern(hashTable[..], chainTable[..], view, nextToUpdate, newBlock);
      view, nextToUpdate := ExternView(view, newBlock), view.end - view.base;
    }

    /** The caller's side of a call: the output is clear of the source and of the history. */
    predicate Ready(size: nat, src: nat, n: nat, dst: nat)
      reads this
      requires ready ==> view.base + view.dictLimit <= view.end && 0 <= view.LowPrefix() && view.base <= view.end
    {
      var v := NextView(ready, view, src, n);
      && n <= INT_MAX && src + n <= size && dst + CompressBound(n) <= size
      && Disjoint(v.LowPrefix(), src + n, dst, dst + CompressBound(n))
      && Disjoint(v.dictBase + v.lowLimit, v.dictBase + v.dictLimit, dst, dst + CompressBound(n))
    }

    /** LZ4_compress_HC_continue, for every level: a positive result is a block faithful to the
        source behind the stream's history, and with the worst-case bound as room there is one. */
    method CompressHcContinue(mem: array<byte>, src: nat, dst: nat, n: nat, dstCapacity: nat)
      returns (r: nat, ghost qs: seq<Sequence>)
      requires Valid(mem.Length) && Ready(mem.Length, src, n, dst)
      modifies this, hashTable, chainTable, mem
      ensures Valid(mem.Length) && ready && r <= dstCapacity
      ensures SameOutside(old(mem[..]), mem[..], dst, dst + CompressBound(n))
      ensures n <= LZ4_MAX_INPUT_SIZE ==> view == old(NextView(ready, view, src, n)).(end := src + n)
      ensures n <= LZ4_MAX_INPUT_SIZE && dstCapacity >= CompressBound(n) ==> r > 0
      ensures r > 0 ==>
        && r <= CompressBound(n) && old(NextView(ready, view, src, n)).Valid(mem.Length)
        && FaithfulBlock(mem[dst..dst + r], old(NextView(ready, view, src, n)).Text(old(mem[..])),
                         old(mem[src..src + n]), qs)
    {
      hide Linked, SameOutside, FaithfulBlock, HcCall.History, View.Text, View.Valid, NextView;
      SameOutsideRefl(mem[..], dst, dst + CompressBound(n));
      if ready {
        ValidFacts(view, mem.Length);
      }
      IndexFits(ready, view, src, n, mem.Length);
      Attach(mem, src, n);
      r, qs := 0, [];
      if n <= LZ4_MAX_INPUT_SIZE {
        r, qs := Compress(mem, src, dst, n, dstCapacity, dstCapacity < CompressBound(n));
      }
    }

    /** The compression of a source that starts where the view ends. */
    method Compress(mem: array<byte>, src: nat, dst: nat, n: nat, dstCapacity: nat, limited: bool)
      returns (r: nat, ghost qs: seq<Sequence>)
      requires Valid(mem.Length) && ready && view.end == src && n <= LZ4_MAX_INPUT_SIZE && src + n <= mem.Length
      requires view.end - view.base <= TWO_GB
      requires dst + CompressBound(n) <= mem.Length && (!limited ==> CompressBound(n) <= dstCapacity)
      requires Disjoint(view.LowPrefix(), src + n, dst, dst + CompressBound(n))
      requires Disjoint(view.dictBase + view.lowLimit, view.dictBase + view.dictLimit, dst, dst + CompressBound(n))
      modifies this, hashTable, chainTable, mem
      ensures Valid(mem.Length) && ready && view == old(view).(end := src + n)
      ensures SameOutside(old(mem[..]), mem[..], dst, dst + CompressBound(n))
      ensures r <= dstCapacity && r <= CompressBound(n) && (!limited ==> r > 0) && old(view).Valid(mem.Length)
      ensures r > 0 ==> FaithfulBlock(mem[dst..dst + r], old(view).Text(old(mem[..])), old(mem[src..src + n]), qs)
    {
      hide Linked, SameOutside, FaithfulBlock, View.Text, HcCall.History;
      var c := HcCall(view.(end := src + n), src, n, dst, dstCapacity, limited);
      HistoryIs(mem[..], view, c);
      LinkedAny(hashTable[..], chainTable[..], view, nextToUpdate, c.v);
      LinkedFacts(hashTable[..], chainTable[..], view, nextToUpdate);
      view := c.v;
      r, nextToUpdate, qs := CompressLevel(mem, hashTable, chainTable, c, nextToUpdate, compressionLevel);
    }

    /** LZ4_compress_HC_extStateHC: one-shot compression.  A positive result decodes to the
        source without any history, whatever the level. */
    method CompressHcExtState(mem: array<byte>, src: nat, dst: nat, srcSize: int, dstCapacity: nat)
      returns (r: nat, ghost qs: seq<Sequence>)
      requires Valid(mem.Length)
      requires 0 <= srcSize <= LZ4_MAX_INPUT_SIZE ==>
        && src + srcSize <= mem.Length && dst + CompressBound(srcSize) <= mem.Length
        && Disjoint(src, src + srcSize, dst, dst + CompressBound(srcSize))
      modifies this, hashTable, chainTable, mem
      ensures Valid(mem.Length)
      ensures SameOutside(old(mem[..]), mem[..], dst, dst + CompressBound(srcSize))
      ensures r > 0 ==> 0 <= srcSize <= LZ4_MAX_INPUT_SIZE && r <= dstCapacity && r <= CompressBound(srcSize)
      ensures 0 <= srcSize <= LZ4_MAX_INPUT_SIZE && dstCapacity >= CompressBound(srcSize) ==> r > 0
      ensures r > 0 ==> FaithfulBlock(mem[dst..dst + r], [], old(mem[src..src + srcSize]), qs)
    {
      hide Linked, SameOutside, FaithfulBlock;
      SameOutsideRefl(mem[..], dst, dst + CompressBound(srcSize));
      r, qs := 0, [];
      if 0 <= srcSize <= LZ4_MAX_INPUT_SIZE {
        Init(src, mem.Length);
        assert view.Text(mem[..]) == [];
        r, qs := Compress(mem, src, dst, srcSize, dstCapacity, dstCapacity < CompressBound(srcSize));
      }
    }

    /** LZ4_saveDictHC: what is saved becomes the whole prefix, and the tables stay good.  But the
        size of the prefix is converted to int.  From 2 GB on that is negative, and becomes the
        size to be saved: the call sets out to move almost all of the address space.  Nothing is
        said of what happens then; the model stops before the move, and returns the size. */
    method SaveDict(mem: array<byte>, safeBuffer: nat, dictSize: int) returns (size: int)
      requires Valid(mem.Length) && ready
      requires safeBuffer + SavedSizeHc(dictSize, view.end - view.LowPrefix()) <= mem.Length
      modifies this, mem
      ensures Valid(mem.Length) && ready && size == SavedSizeHc(dictSize, old(view.end - view.LowPrefix()))
      ensures size < 0 <==> old(view.end - view.LowPrefix()) >= TWO31
      ensures size < 0 ==> mem[..] == old(mem[..]) && view == old(view)
      ensures size >= 0 ==>
        && view.end == safeBuffer + size && view.LowPrefix() == safeBuffer && view.lowLimit == view.dictLimit
        && view.end - view.base == old(view.end - view.base)
        && SameOutside(old(mem[..]), mem[..], safeBuffer, safeBuffer + size)
        && size <= old(view.end) <= mem.Length && mem[safeBuffer..safeBuffer + size] == old(mem[view.end - size..view.end])
    {
      hide Linked;
      LinkedFacts(hashTable[..], chainTable[..], view, nextToUpdate);
      var prefixSize := view.end - view.LowPrefix();
      size := SavedSizeHc(dictSize, prefixSize);
      if size < 0 {
        return;
      }
      ghost var m0 := mem[..];
      Move(mem, safeBuffer, view.end - size, size);
      Moved(m0, mem[..], safeBuffer, view.end - size, size);
      var endIndex := view.end - view.base;
      var v := View(safeBuffer + size - endIndex, view.dictBase, endIndex - size, endIndex - size, safeBuffer + size);
      var next := if nextToUpdate < v.dictLimit then v.dictLimit else nextToUpdate;
      LinkedSaved(hashTable[..], chainTable[..], view, nextToUpdate, v, next);
      view, nextToUpdate := v, next;
    }
  }

  /** How much LZ4_saveDictHC wants to keep. */
  function SavedSizeHc(dictSize: int, prefixSize: nat): (k: int)
    requires prefixSize < 2 * TWO31
    ensures k <= prefixSize && k <= DICT64K && (k < 0 <==> prefixSize >= TWO31)
  {
    var size := if dictSize > DICT64K then DICT64K else if dictSize < 4 then 0 else dictSize;
    if size > ToInt(prefixSize) then ToInt(prefixSize) else size
  }

  // ---------------------------------------------------------------- how far a stream has come

  /** The index of the next byte, and the size of the prefix; index 0 stands for a stream that has
      seen nothing. */
  datatype Extent = Extent(index: nat, prefix: nat)

  const UNUSED := Extent(0, 0)

  function ExtentOf(ready: bool, v: View): Extent
    requires ready ==> 0 <= v.LowPrefix() <= v.end && v.base <= v.end
  {
    if ready then Extent(v.end - v.base, v.end - v.LowPrefix()) else UNUSED
  }

  /** What a block of `n` bytes makes of it, which may follow the prefix: the index grows, unless it
      is too large and starts over. */
  function NextExtent(e: Extent, near: bool, n: nat): Extent {
    if e.index == 0 then Extent(DICT64K + n, n)
    else
      var kept := Least(e.prefix, DICT64K);
      if e.index > TWO_GB then Extent(DICT64K + kept + n, (if near then kept else 0) + n)
      else Extent(e.index + n, (if near then e.prefix else 0) + n)
  }

  lemma FirstExtent(n: nat)
    ensures NextExtent(UNUSED, false, n) == NextExtent(UNUSED, true, n)
  {
  }

  lemma ViewExtent(ready: bool, v: View, src: nat, n: nat, size: nat)
    requires ready ==> v.Valid(size)
    ensures var v' := NextView(ready, v, src, n).(end := src + n);
            && 0 <= v'.LowPrefix() <= v'.end && v'.base <= v'.end
            && ExtentOf(true, v') == NextExtent(ExtentOf(ready, v), src == v.end, n)
  {
  }

  /** Indices fit 32 bits. */
  lemma IndexFits(ready: bool, v: View, src: nat, n: nat, size: nat)
    requires ready ==> v.Valid(size)
    ensures var v' := NextView(ready, v, src, n); v'.end - v'.base <= TWO_GB
  {
  }

  lemma LinkedSaved(hash: seq<nat>, chain: seq<nat>, v: View, next: nat, v': View, next': nat)
    requires Linked(hash, chain, v, next) && v'.lowLimit == v'.dictLimit && v.lowLimit <= v.dictLimit <= v'.dictLimit
    requires next' == if next < v'.dictLimit then v'.dictLimit else next
    ensures Linked(hash, chain, v', next')
  {
    forall x | Known(x, v, next) ensures Known(x, v', next') {
    }
    assert forall x :: Inserted(x, v', next') ==> Inserted(x, v, next);
    LinkedLess(hash, chain, v, next, v', next');
  }

  lemma HistoryIs(m: seq<byte>, v: View, c: HcCall)
    requires v.Valid(|m|) && v.end == c.src && c.v == v.(end := c.Iend()) && c.n <= LZ4_MAX_INPUT_SIZE && c.Iend() <= |m|
    requires c.dst + c.OutRoom() <= |m| && Disjoint(v.LowPrefix(), c.Iend(), c.dst, c.dst + c.OutRoom())
    requires Disjoint(v.dictBase + v.lowLimit, v.dictBase + v.dictLimit, c.dst, c.dst + c.OutRoom())
    ensures c.Valid(|m|) && c.History(m) == v.Text(m)
  {
    hide Disjoint;
    assert m[v.LowPrefix()..c.Iend()][..c.src - v.LowPrefix()] == m[v.LowPrefix()..c.src];
    DropTail(v.Dict(m), m[v.LowPrefix()..c.src], m[v.LowPrefix()..c.Iend()]);
  }

  lemma DropTail(x: seq<byte>, y: seq<byte>, z: seq<byte>)
    requires |y| <= |z| && z[..|y|] == y
    ensures (x + z)[..|x| + |y|] == x + y
  {
  }

  lemma ViewFacts(v: View, m: seq<byte>, src: nat, n: nat)
    requires v.Valid(|m|)
    ensures v.lowLimit <= v.dictLimit && v.base <= v.end && 0 <= v.LowPrefix() <= v.end
    ensures var w := TrimView(v, src, src + n);
            w.Valid(|m|) && w.end == v.end && w.base == v.base && w.dictLimit == v.dictLimit
  {
    TrimmedIsSuffix(m, v, src, src + n);
  }

  lemma LinkedAny(hash: seq<nat>, chain: seq<nat>, v: View, next: nat, v': View)
    requires Linked(hash, chain, v, next) && v'.lowLimit == v.lowLimit && v'.dictLimit == v.dictLimit
    ensures Linked(hash, chain, v', next)
  {
    assert forall x :: Inserted(x, v', next) ==> Inserted(x, v, next);
    assert forall x :: Known(x, v, next) ==> Known(x, v', next);
    LinkedLess(hash, chain, v, next, v', next);
  }

  lemma LinkedTrim(hash: seq<nat>, chain: seq<nat>, v: View, next: nat, src: nat, sourceEnd: nat)
    requires Linked(hash, chain, v, next) && v.lowLimit <= v.dictLimit
    ensures Linked(hash, chain, TrimView(v, src, sourceEnd), next)
  {
    var v' := TrimView(v, src, sourceEnd);
    assert forall x :: Inserted(x, v', next) ==> Inserted(x, v, next);
    assert forall x :: Known(x, v, next) ==> Known(x, v', next);
    LinkedLess(hash, chain, v, next, v', next);
  }
}
