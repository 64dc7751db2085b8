/** The streaming layer: LZ4_stream_t on the compressing side, LZ4_streamDecode_t on the other.
    A stream remembers where the last bytes it has seen stand in memory; the caller moves its
    buffers around between calls. */
module Streaming {
  import opened BlockFormat
  import opened Memory
  import opened MatchCount
  import opened Encoding
  import opened Emitter
  import opened FastSearch
  import opened FastCompressor
  import opened FastDecoder
  import opened BlockApi

  const GB := 0x4000_0000
  const HASH_UNIT := 8
  const U32_MAX := 0xFFFF_FFFF
  const RENORM_LIMIT := 0x8000_0000

  // ---------------------------------------------------------------- the age of table entries

  /** Some source byte of the next block, whose first byte will get index `offset`, may still
      take entry `e` for a match: it is at most 65535 back. */
  predicate Selectable(e: nat, offset: nat) {
    e + MAX_DISTANCE >= offset
  }

  /** The two entries are selectable together, and then name the same byte of history. */
  predicate SameReach(e: nat, offset: nat, e': nat, offset': nat) {
    && (Selectable(e, offset) <==> Selectable(e', offset'))
    && (Selectable(e, offset) ==> offset - e == offset' - e')
  }

  /** Every entry is either unused or at least eight bytes before the end of what was seen. */
  ghost predicate Settled(table: seq<nat>, offset: nat) {
    forall i :: 0 <= i < |table| ==> table[i] == 0 || table[i] + HASH_UNIT <= offset
  }

  lemma SettledMore(t0: seq<nat>, t1: seq<nat>, p: Params)
    requires Settled(t0, p.currentOffset) && OnlyNewPositions(t0, t1, p) && p.dict != NoDict
    ensures Settled(t1, p.currentOffset + p.n)
  {
  }

  /** How much of a dictionary remains for a source that ends at `sourceEnd`, should it have
      overwritten the beginning. */
  function KeptSize(dictionary: nat, dictSize: nat, sourceEnd: nat): (k: nat)
    ensures k <= dictSize
    ensures dictionary < sourceEnd < dictionary + dictSize ==> sourceEnd <= dictionary + dictSize - k
  {
    var dictEnd := dictionary + dictSize;
    if dictionary < sourceEnd < dictEnd then
      var k := if dictEnd - sourceEnd > DICT64K then DICT64K else dictEnd - sourceEnd;
      if k < 4 then 0 else k
    else dictSize
  }

  function StreamParams(source: nat, n: nat, dest: nat, maxOutputSize: nat, acceleration: int,
                        currentOffset: nat, dictionary: nat, dictSize: nat): Params
  {
    Params(source, n, dest, maxOutputSize, true, ByU32,
           if dictionary + dictSize == source then WithPrefix64k else UsingExtDict,
           dictSize < DICT64K && dictSize < currentOffset,
           if acceleration < 1 then 1 else acceleration, currentOffset, dictionary, dictSize)
  }

  /** The one situation in which a search may run over the end of an external dictionary: the
      stream has seen one to three bytes, all of them in that dictionary, so that index 0, which
      fills an unused table entry, passes for a position in it. */
  predicate TinyExternal(currentOffset: nat, dictSize: nat, external: bool) {
    external && 1 <= currentOffset <= 3 && dictSize == currentOffset
  }

  /** When a block can be relied on: if it is short, or if the search advances and cannot run over
      the end of a tiny dictionary, or would not make the block smaller than the source by that. */
  predicate Sure(n: nat, room: nat, acceleration: int, tiny: bool) {
    n <= MFLIMIT + 1 || (Advancing(acceleration) && (!tiny || (n <= SHORT && room < n)))
  }

  lemma SureIsDependable(table: seq<nat>, p: Params, acceleration: int)
    requires p.dict != NoDict && p.limited && Settled(table, p.currentOffset) && p.dictSize <= p.currentOffset
    requires p.acceleration == if acceleration < 1 then 1 else acceleration
    ensures Sure(p.n, p.maxOutputSize, acceleration, TinyExternal(p.currentOffset, p.dictSize, p.dict == UsingExtDict)) ==>
      Dependable(p, table)
  {
    AdvancingIs(p.acceleration);
  }

  /** The promise of a compressing call: a block that is faithful to the source behind the
      history it used. */
  ghost predicate Promise(block: seq<byte>, h: seq<byte>, source: seq<byte>, qs: seq<Sequence>, sure: bool) {
    && AllWellFormed(qs)
    && (sure ==> FaithfulBlock(block, h, source, qs))
  }

  lemma BlockOfIsPromise(m0: seq<byte>, m1: seq<byte>, p: Params, r: nat, qs: seq<Sequence>, sound: bool, sure: bool)
    requires p.Valid(|m0|) && |m1| == |m0| && r <= p.OutRoom() && (sure ==> sound)
    requires BlockOf(m1, p, r, p.History(m0), p.Text(m0), qs, sound)
    ensures Promise(m1[p.dst..p.dst + r], p.History(m0), m0[p.src..p.Iend()], qs, sure)
  {
    hide Decode, Restricted, EncodeBlock, OffsetsLegal;
  }

  // ---------------------------------------------------------------- when it goes wrong

  /** The source repeats what memory holds at `dict`, beyond the `k` bytes of history there, in a
      way that a search over their end takes for a match, and a wrong one. */
  ghost predicate Overruns(m: seq<byte>, dict: nat, k: nat, source: nat, n: nat)
    requires source + n <= |m| && dict + 4 <= |m| && k <= 3
  {
    && n > MFLIMIT + 1 && HashPosition(m, source, ByU32) != HashPosition(m, source + 1, ByU32)
    && Agree(m, source + 1, dict, 4) && m[source + k + 1] != m[source]
  }

  /** A source, and memory around its history, for which a call goes wrong; and, if that is asked
      for, makes the block smaller than the source by it. */
  ghost predicate Trapped(m: seq<byte>, source: nat, n: nat, dict: nat, k: nat, acceleration: int, tiny: bool, small: bool)
    requires source + n <= |m| && dict + k <= |m| && (tiny ==> k <= 3 && dict + 4 <= |m|)
  {
    || (!Advancing(acceleration) && Confusing(m[dict..dict + k], m[source..source + n]))
    || (tiny && Overruns(m, dict, k, source, n)
        && (small ==> n > SHORT && forall i :: source + 1 <= i < source + n ==> m[i] == m[source + 1]))
  }

  /** Such a block is sure to fit the room, being smaller than the source, or as large as a short
      one. */
  predicate FitsTrap(n: nat, room: nat, acceleration: int, small: bool) {
    if small then room >= n - 1 else Advancing(acceleration) && n <= SHORT && room >= n
  }

  /** Nobody who has content of `k` bytes or more gets the source out of the block. */
  ghost predicate Misleads(block: seq<byte>, k: nat, source: seq<byte>) {
    forall c: seq<byte> :: |c| >= k ==> Misread(block, c, source)
  }

  /** What such a situation is to the search. */
  lemma TrappedIs(m: seq<byte>, t: seq<nat>, p: Params, acceleration: int, tiny: bool, small: bool)
    requires p.Valid(|m|) && p.dict != NoDict && p.tableType == ByU32 && p.DictEnd() + 3 <= |m| && |t| == TableSize(ByU32)
    requires p.dict == WithPrefix64k ==> p.DictEnd() == p.src
    requires Settled(t, p.currentOffset) && p.acceleration == if acceleration < 1 then 1 else acceleration
    requires tiny == TinyExternal(p.currentOffset, p.dictSize, p.dict == UsingExtDict)
    requires Trapped(m, p.src, p.n, p.dictionary, p.dictSize, acceleration, tiny, small)
    ensures if !Advancing(acceleration) && Confusing(p.History(m), m[p.src..p.Iend()]) then Stuck(m, p) && m[p.src] != 0
            else tiny && Straddles(m, t, p) && m[p.src + p.dictSize + 1] != m[p.src]
    ensures p.n > MFLIMIT + 1 && (FitsTrap(p.n, p.maxOutputSize, acceleration, small) ==> Hooked(m, t, p))
  {
    hide HashPosition;
    AdvancingIs(p.acceleration);
    var h, source := p.History(m), m[p.src..p.Iend()];
    assert h == m[p.dictionary..p.DictEnd()];
    if !Advancing(acceleration) && Confusing(h, source) {
      assert source[0] == m[p.src];
      ConfusingIsStuck(m, p, t, h, source);
    }
  }

  lemma TrappedMisleads(m0: seq<byte>, m1: seq<byte>, t: seq<nat>, p: Params, r: nat, qs: seq<Sequence>, acceleration: int,
                        tiny: bool, sound: bool)
    requires p.Valid(|m0|) && |m1| == |m0| && r <= p.OutRoom()
    requires p.dict != NoDict && p.tableType == ByU32 && p.DictEnd() + 3 <= |m0| && |t| == TableSize(ByU32)
    requires p.dict == WithPrefix64k ==> p.DictEnd() == p.src
    requires Settled(t, p.currentOffset) && p.acceleration == if acceleration < 1 then 1 else acceleration
    requires tiny == TinyExternal(p.currentOffset, p.dictSize, p.dict == UsingExtDict)
    requires Trapped(m0, p.src, p.n, p.dictionary, p.dictSize, acceleration, tiny, false)
    requires p.n > MFLIMIT ==> FaultyStart(m0, t, p, qs)
    requires BlockOf(m1, p, r, p.History(m0), p.Text(m0), qs, sound)
    ensures Misleads(m1[p.dst..p.dst + r], p.dictSize, m0[p.src..p.Iend()])
  {
    hide Decode, Restricted, EncodeBlock, OffsetsLegal, Stuck, Straddles, Confusing, Overruns, Misread;
    TrappedIs(m0, t, p, acceleration, tiny, false);
    var text, source, block := p.Text(m0), m0[p.src..p.Iend()], m1[p.dst..p.dst + r];
    var a: nat :| a <= |text| && block == EncodeBlock(qs, text[a..]);
    forall c: seq<byte> | |c| >= p.dictSize ensures Misread(block, c, source) {
      if !Advancing(acceleration) && Confusing(p.History(m0), source) {
        StuckIsWrong(c, source, qs, text[a..]);
      } else {
        StraddleIsWrong(p.dictSize, c, source, qs, text[a..]);
      }
    }
  }

  lemma StreamParamsValid(m: seq<byte>, source: nat, n: nat, dest: nat, maxOutputSize: nat, acceleration: int,
                          currentOffset: nat, dictionary: nat, dictSize: nat)
    requires n <= LZ4_MAX_INPUT_SIZE && currentOffset <= RENORM_LIMIT
    requires source + n <= |m| && dest + CompressBound(n) <= |m| && dictionary + dictSize + 3 <= |m|
    requires Disjoint(source, source + n, dest, dest + CompressBound(n))
    requires Disjoint(dictionary, dictionary + dictSize, dest, dest + CompressBound(n))
    requires dictionary + dictSize == source || Disjoint(dictionary, dictionary + dictSize, source, source + n)
    ensures var p := StreamParams(source, n, dest, maxOutputSize, acceleration, currentOffset, dictionary, dictSize);
            p.Valid(|m|) && p.History(m) == m[dictionary..dictionary + dictSize] && p.OutRoom() == CompressBound(n)
  {
  }

  /** CompressGeneric on a stream's table. */
  method CompressWithHistory(mem: array<byte>, table: array<nat>, p: Params, acceleration: int, ghost tiny: bool)
    returns (r: nat, ghost qs: seq<Sequence>)
    requires p.Valid(mem.Length) && p.dict != NoDict && p.limited && p.tableType == ByU32 && p.dictSize <= p.currentOffset
    requires p.DictEnd() + 3 <= mem.Length && (p.dict == WithPrefix64k ==> p.DictEnd() == p.src)
    requires table.Length == TableSize(ByU32) && Settled(table[..], p.currentOffset)
    requires p.acceleration == (if acceleration < 1 then 1 else acceleration)
    requires tiny == TinyExternal(p.currentOffset, p.dictSize, p.dict == UsingExtDict)
    modifies mem, table
    ensures SameOutside(old(mem[..]), mem[..], p.dst, p.dst + p.OutRoom())
    ensures Settled(table[..], p.currentOffset + p.n)
    ensures r <= p.OutRoom() && r <= p.maxOutputSize && (p.maxOutputSize >= p.OutRoom() ==> r > 0)
    ensures r > 0 ==>
      Promise(mem[p.dst..p.dst + r], old(p.History(mem[..])), old(mem[p.src..p.Iend()]), qs, Sure(p.n, p.maxOutputSize, acceleration, tiny))
    ensures r > 0 && Trapped(old(mem[..]), p.src, p.n, p.dictionary, p.dictSize, acceleration, tiny, false) ==>
      Misleads(mem[p.dst..p.dst + r], p.dictSize, old(mem[p.src..p.Iend()]))
    ensures forall small ::
      FitsTrap(p.n, p.maxOutputSize, acceleration, small)
      && Trapped(old(mem[..]), p.src, p.n, p.dictionary, p.dictSize, acceleration, tiny, small)
      ==> r > 0
  {
    hide SameOutside, FaithfulBlock, Settled, OnlyNewPositions, Dependable, BlockOf, FaultyStart, Trapped, Stuck,
         Straddles, Hooked, Confusing, Misleads, Promise, Sure, p.History, p.Text;
    ghost var m0, t0 := mem[..], table[..];
    SettledIsBelow(t0, p.currentOffset);
    forall small | Trapped(m0, p.src, p.n, p.dictionary, p.dictSize, acceleration, tiny, small)
      ensures FitsTrap(p.n, p.maxOutputSize, acceleration, small) ==> Hooked(m0, t0, p)
    {
      TrappedIs(m0, t0, p, acceleration, tiny, small);
    }
    r, qs := CompressGeneric(mem, table, p);
    SettledMore(t0, table[..], p);
    if r > 0 {
      SureIsDependable(t0, p, acceleration);
      assert mem[..][p.dst..p.dst + r] == mem[p.dst..p.dst + r] && m0[p.src..p.Iend()] == old(mem[p.src..p.Iend()]);
      BlockOfIsPromise(m0, mem[..], p, r, qs, Dependable(p, t0), Sure(p.n, p.maxOutputSize, acceleration, tiny));
      if Trapped(m0, p.src, p.n, p.dictionary, p.dictSize, acceleration, tiny, false) {
        TrappedMisleads(m0, mem[..], t0, p, r, qs, acceleration, tiny, Dependable(p, t0));
      }
    }
  }

  lemma DifferentHashes(m: seq<byte>, p: nat)
    requires p + 9 <= |m| && m[p] == 1 && Word(m, p + 1, 7) == 0 && Word(m, p + 1, 8) == 0
    ensures HashPosition(m, p, ByU32) != HashPosition(m, p + 1, ByU32)
  {
    assert Word(m, p, 8) == 1;
    assert Hash5(1, ByU32) == 3313 && Hash5(0, ByU32) == 0;
  }

  lemma {:induction false} ZeroWord(m: seq<byte>, p: nat, n: nat)
    requires p + n <= |m| && forall i :: p <= i < p + n ==> m[i] == 0
    ensures Word(m, p, n) == 0
    decreases n
  {
    if n > 0 {
      ZeroWord(m, p + 1, n - 1);
    }
  }

  /** 1, 0, 0, 0 and so on. */
  function OneThenZeros(n: nat): (s: seq<byte>)
    ensures |s| == n
  {
    seq(n, i => if i == 0 then 1 else 0)
  }

  lemma OneThenZerosOverruns(m: seq<byte>, dict: nat, k: nat, source: nat, n: nat)
    requires source + n <= |m| && dict + k + 3 <= |m| && 1 <= k <= 3 && n > MFLIMIT + 1
    requires m[source..source + n] == OneThenZeros(n) && m[dict..dict + k + 3] == Zeros(k + 3)
    ensures Overruns(m, dict, k, source, n)
    ensures forall i :: source < i < source + n ==> m[i] == 0
  {
    hide HashPosition;
    forall i | source <= i < source + n ensures m[i] == if i == source then 1 else 0 {
      assert m[i] == m[source..source + n][i - source];
    }
    forall i | dict <= i < dict + 4 ensures m[i] == 0 {
      assert m[i] == m[dict..dict + k + 3][i - dict];
    }
    ZeroWord(m, source + 1, 7);
    ZeroWord(m, source + 1, 8);
    DifferentHashes(m, source);
  }

  class EncoderStream {
    const hashTable: array<nat>
    var currentOffset: nat
    var dictionary: nat
    var dictSize: nat

    ghost predicate Valid()
      reads this, hashTable
    {
      && hashTable.Length == TableSize(ByU32)
      && Settled(hashTable[..], currentOffset)
      && dictSize <= currentOffset <= U32_MAX
    }

    /** LZ4_createStream. */
    constructor ()
      ensures Valid() && fresh(hashTable) && currentOffset == dictSize == dictionary == 0
    {
      hashTable := new nat[TableSize(ByU32)](i => 0);
      currentOffset, dictionary, dictSize := 0, 0, 0;
    }

    /** LZ4_resetStream. */
    method Reset()
      requires hashTable.Length == TableSize(ByU32)
      modifies this, hashTable
      ensures Valid() && currentOffset == dictSize == dictionary == 0
    {
      forall i | 0 <= i < hashTable.Length {
        hashTable[i] := 0;
      }
      currentOffset, dictionary, dictSize := 0, 0, 0;
    }

    /** Whatever the table says after LZ4_loadDict that a search may select stems from the
        dictionary just loaded, and names a byte of it under the right hash. */
    ghost predicate OnlyFromDict(m: seq<byte>)
      reads this, hashTable
    {
      && dictionary + dictSize <= |m| && hashTable.Length == TableSize(ByU32) && dictSize <= currentOffset
      && forall i {:trigger hashTable[i]} :: 0 <= i < hashTable.Length && Selectable(hashTable[i], currentOffset) ==>
           FromDict(m, i, hashTable[i], currentOffset, dictionary, dictSize)
    }

    /** LZ4_loadDict: the last 64 KB of the dictionary, hashed at every third position; all
        earlier entries grow too old to be selected, although the table is not cleared. */
    method LoadDict(mem: array<byte>, dict: nat, size: int) returns (r: nat)
      requires Valid() && (size > 0 ==> dict + size <= mem.Length)
      modifies this, hashTable
      ensures Valid() && r == dictSize
      ensures size < HASH_UNIT ==> dictSize == 0 && dictionary == 0
      ensures size >= HASH_UNIT ==>
        && dictSize == (if size > DICT64K then DICT64K else size) && dictionary + dictSize == dict + size
        && OnlyFromDict(mem[..])
    {
      hide HashPosition;
      if currentOffset > GB {
        Reset();
      }
      if size < HASH_UNIT {
        dictionary, dictSize := 0, 0;
        return 0;
      }
      var dictEnd := dict + size;
      var p := if dictEnd - dict > DICT64K then dictEnd - DICT64K else dict;
      currentOffset := currentOffset + DICT64K;
      var base: int := p - currentOffset;
      dictionary, dictSize := p, dictEnd - p;
      currentOffset := currentOffset + dictSize;
      while p <= dictEnd - HASH_UNIT
        invariant dictionary <= p && base == dictionary - (currentOffset - dictSize)
        invariant Settled(hashTable[..], currentOffset)
        invariant forall i {:trigger hashTable[i]} :: 0 <= i < hashTable.Length && Selectable(hashTable[i], currentOffset) ==>
            FromDict(mem[..], i, hashTable[i], currentOffset, dictionary, dictSize)
        modifies hashTable
      {
        var h := HashPosition(mem[..], p, ByU32);
        hashTable[h] := p - base;
        p := p + 3;
      }
      r := dictSize;
    }

    /** LZ4_renormDictT: when indices threaten to outgrow 32 bits, all of them are moved down;
        what was selectable stays selectable and keeps naming the same byte. */
    method RenormDict()
      requires Valid()
      modifies this, hashTable
      ensures Valid() && currentOffset <= RENORM_LIMIT
      ensures dictionary + dictSize == old(dictionary + dictSize)
      ensures old(currentOffset) <= RENORM_LIMIT ==> currentOffset == old(currentOffset) && dictSize == old(dictSize)
      ensures old(currentOffset) > RENORM_LIMIT ==>
        currentOffset == DICT64K && dictSize == (if old(dictSize) > DICT64K then DICT64K else old(dictSize))
      ensures forall i {:trigger hashTable[i]} :: 0 <= i < hashTable.Length ==>
        SameReach(old(hashTable[i]), old(currentOffset), hashTable[i], currentOffset)
    {
      if currentOffset > RENORM_LIMIT {
        var delta := currentOffset - DICT64K;
        var dictEnd := dictionary + dictSize;
        var i := 0;
        while i < hashTable.Length
          invariant 0 <= i <= hashTable.Length
          invariant forall k :: i <= k < hashTable.Length ==> hashTable[k] == old(hashTable[k])
          invariant forall k {:trigger hashTable[k]} :: 0 <= k < i ==>
              SameReach(old(hashTable[k]), old(currentOffset), hashTable[k], DICT64K)
          invariant Settled(hashTable[..i], DICT64K)
          modifies hashTable
        {
          if hashTable[i] < delta {
            hashTable[i] := 0;
          } else {
            hashTable[i] := hashTable[i] - delta;
          }
          i := i + 1;
        }
        currentOffset := DICT64K;
        if dictSize > DICT64K {
          dictSize := DICT64K;
        }
        dictionary := dictEnd - dictSize;
      }
    }

    /** LZ4_saveDict: moves the end of the dictionary to a safer place; table entries, which
        count from the end, keep their meaning. */
    method SaveDict(mem: array<byte>, safeBuffer: nat, size: int) returns (r: nat)
      requires Valid() && dictionary + dictSize <= mem.Length
      requires safeBuffer + SavedSize(size, dictSize) <= mem.Length
      modifies this, mem
      ensures Valid() && r == dictSize == SavedSize(size, old(dictSize)) && dictionary == safeBuffer
      ensures currentOffset == old(currentOffset)
      ensures mem[dictionary..dictionary + dictSize]
           == old(mem[dictionary + dictSize - SavedSize(size, dictSize)..dictionary + dictSize])
      ensures SameOutside(old(mem[..]), mem[..], safeBuffer, safeBuffer + r)
    {
      var previousDictEnd := dictionary + dictSize;
      r := SavedSize(size, dictSize);
      ghost var m0 := mem[..];
      Move(mem, safeBuffer, previousDictEnd - r, r);
      Moved(m0, mem[..], safeBuffer, previousDictEnd - r, r);
      dictionary, dictSize := safeBuffer, r;
    }

    /** How much of the dictionary a call with this source is going to use. */
    function Usable(source: nat, n: nat): (k: nat)
      reads this
      ensures k <= dictSize
    {
      var size := if currentOffset > RENORM_LIMIT && dictSize > DICT64K then DICT64K else dictSize;
      KeptSize(dictionary + dictSize - size, size, source + n)
    }

    /** The history such a call will use. */
    ghost function History(m: seq<byte>, source: nat, n: nat): (h: seq<byte>)
      reads this
      requires dictionary + dictSize <= |m|
      ensures |h| == Usable(source, n)
    {
      m[dictionary + dictSize - Usable(source, n)..dictionary + dictSize]
    }

    /** The caller's side of a call: everything in its place, nothing overlapping but the source
        and the part of the dictionary that the call gives up. */
    predicate Ready(size: nat, source: nat, n: nat, dest: nat)
      reads this
    {
      var dictEnd := dictionary + dictSize;
      && n <= INT_MAX && dictEnd + 3 <= size && source + n <= size && dest + CompressBound(n) <= size
      && Disjoint(source, source + n, dest, dest + CompressBound(n))
      && Disjoint(dictEnd - Usable(source, n), dictEnd, dest, dest + CompressBound(n))
      && (dictEnd == source || Disjoint(dictEnd - Usable(source, n), dictEnd, source, source + n))
    }

    /** The call is going to meet the exceptional situation of a tiny dictionary. */
    predicate Tiny(source: nat, n: nat)
      reads this
    {
      TinyExternal(currentOffset, Usable(source, n), dictionary + dictSize != source)
    }

    /** It is going to go wrong. */
    ghost predicate Trap(m: seq<byte>, source: nat, n: nat, acceleration: int, small: bool)
      reads this
      requires dictionary + dictSize + 3 <= |m| && source + n <= |m|
    {
      Trapped(m, source, n, dictionary + dictSize - Usable(source, n), Usable(source, n), acceleration, Tiny(source, n), small)
    }

    /** The overlap check of LZ4_compress_fast_continue. */
    method TrimDict(sourceEnd: nat)
      requires Valid()
      modifies this
      ensures Valid() && currentOffset == old(currentOffset) && dictionary + dictSize == old(dictionary + dictSize)
      ensures dictSize == KeptSize(old(dictionary), old(dictSize), sourceEnd)
    {
      var dictEnd := dictionary + dictSize;
      if sourceEnd > dictionary && sourceEnd < dictEnd {
        dictSize := dictEnd - sourceEnd;
        if dictSize > DICT64K {
          dictSize := DICT64K;
        }
        if dictSize < 4 {
          dictSize := 0;
        }
        dictionary := dictEnd - dictSize;
      }
    }

    /** Both adjustments a call makes before it compresses. */
    method Prepare(source: nat, n: nat)
      requires Valid()
      modifies this, hashTable
      ensures Valid() && dictionary + dictSize == old(dictionary + dictSize) && dictSize == old(Usable(source, n))
      ensures currentOffset <= RENORM_LIMIT
      ensures if old(currentOffset) <= 3 then currentOffset == old(currentOffset) else currentOffset > 3
    {
      RenormDict();
      TrimDict(source + n);
    }

    /** The compression itself, in prefix mode or in external dictionary mode. */
    method CompressPrepared(mem: array<byte>, source: nat, dest: nat, n: nat, maxOutputSize: nat, acceleration: int,
                            ghost h: seq<byte>)
      returns (r: nat, ghost qs: seq<Sequence>)
      requires Valid() && currentOffset <= RENORM_LIMIT && n <= INT_MAX
      requires source + n <= mem.Length && dest + CompressBound(n) <= mem.Length && dictionary + dictSize + 3 <= mem.Length
      requires Disjoint(source, source + n, dest, dest + CompressBound(n))
      requires Disjoint(dictionary, dictionary + dictSize, dest, dest + CompressBound(n))
      requires dictionary + dictSize == source || Disjoint(dictionary, dictionary + dictSize, source, source + n)
      requires h == mem[dictionary..dictionary + dictSize]
      modifies hashTable, mem
      ensures Settled(hashTable[..], currentOffset + n)
      ensures SameOutside(old(mem[..]), mem[..], dest, dest + CompressBound(n))
      ensures r <= maxOutputSize && r <= CompressBound(n)
      ensures n <= LZ4_MAX_INPUT_SIZE && maxOutputSize >= CompressBound(n) ==> r > 0
      ensures var tiny := TinyExternal(currentOffset, dictSize, dictionary + dictSize != source);
              && (r > 0 ==>
                    Promise(mem[dest..dest + r], h, old(mem[source..source + n]), qs, Sure(n, maxOutputSize, acceleration, tiny)))
              && (r > 0 && Trapped(old(mem[..]), source, n, dictionary, dictSize, acceleration, tiny, false) ==>
                    Misleads(mem[dest..dest + r], |h|, old(mem[source..source + n])))
              && (n <= LZ4_MAX_INPUT_SIZE ==> forall small ::
                    FitsTrap(n, maxOutputSize, acceleration, small)
                    && Trapped(old(mem[..]), source, n, dictionary, dictSize, acceleration, tiny, small)
                    ==> r > 0)
    {
      hide SameOutside, Promise, Settled, Params.Valid, Params.History, Params.Text, Trapped, Misleads, Sure;
      ghost var tiny := TinyExternal(currentOffset, dictSize, dictionary + dictSize != source);
      SameOutsideRefl(mem[..], dest, dest + CompressBound(n));
      r, qs := 0, [];
      if n <= LZ4_MAX_INPUT_SIZE {
        var p := StreamParams(source, n, dest, maxOutputSize, acceleration, currentOffset, dictionary, dictSize);
        StreamParamsValid(mem[..], source, n, dest, maxOutputSize, acceleration, currentOffset, dictionary, dictSize);
        r, qs := CompressWithHistory(mem, hashTable, p, acceleration, tiny);
      } else {
        SettledLater(hashTable[..], currentOffset, currentOffset + n);
      }
    }

    /** LZ4_compress_fast_continue.  A positive result is a block that is faithful to the source
        behind the history used; the stream remembers the source in any case, so that its next
        history ends with it.  A stream that has seen no more than three bytes, elsewhere than
        right before the source, is the exception. */
    method CompressFastContinue(mem: array<byte>, source: nat, dest: nat, n: nat, maxOutputSize: nat, acceleration: int)
      returns (r: nat, ghost qs: seq<Sequence>)
      requires Valid() && Ready(mem.Length, source, n, dest)
      modifies this, hashTable, mem
      ensures Valid() && dictionary + dictSize == source + n
      ensures dictSize == n + if old(dictionary + dictSize) == source then old(Usable(source, n)) else 0
      ensures if old(currentOffset) <= 3 then currentOffset == old(currentOffset) + n else currentOffset > 3
      ensures SameOutside(old(mem[..]), mem[..], dest, dest + CompressBound(n))
      ensures r <= maxOutputSize && r <= CompressBound(n)
      ensures n <= LZ4_MAX_INPUT_SIZE && maxOutputSize >= CompressBound(n) ==> r > 0
      ensures r > 0 ==>
        Promise(mem[dest..dest + r], old(History(mem[..], source, n)), old(mem[source..source + n]), qs,
                Sure(n, maxOutputSize, acceleration, old(Tiny(source, n))))
      ensures r > 0 && old(Trap(mem[..], source, n, acceleration, false)) ==>
        Misleads(mem[dest..dest + r], |old(History(mem[..], source, n))|, old(mem[source..source + n]))
      ensures n <= LZ4_MAX_INPUT_SIZE ==> forall small ::
                FitsTrap(n, maxOutputSize, acceleration, small) && old(Trap(mem[..], source, n, acceleration, small)) ==> r > 0
    {
      hide SameOutside, Promise, Settled, KeptSize, Trapped, Misleads, Sure;
      var dictEnd := dictionary + dictSize;
      ghost var h := History(mem[..], source, n);
      Prepare(source, n);
      r, qs := CompressPrepared(mem, source, dest, n, maxOutputSize, acceleration, h);
      if dictEnd != source {
        dictionary, dictSize := source, 0;
      }
      dictSize, currentOffset := dictSize + n, currentOffset + n;
    }
  }

  /** Entry `e` of hash `i` is the index of a position of the dictionary that has this hash. */
  ghost predicate FromDict(m: seq<byte>, i: int, e: nat, currentOffset: nat, dictionary: nat, dictSize: nat) {
    && currentOffset - dictSize <= e && e + HASH_UNIT <= currentOffset
    && var at := dictionary + (e - (currentOffset - dictSize));
       at + 8 <= |m| && HashPosition(m, at, ByU32) == i
  }

  /** How much LZ4_saveDict keeps: at most 64 KB, negative requests counting as large ones. */
  function SavedSize(size: int, dictSize: nat): (k: nat)
    ensures k <= dictSize && k <= DICT64K
  {
    var wanted := if size < 0 || size > DICT64K then DICT64K else size;
    if wanted > dictSize then dictSize else wanted
  }

  lemma SettledIsBelow(t: seq<nat>, offset: nat)
    requires Settled(t, offset)
    ensures Below(t, offset + 1)
  {
  }

  lemma SettledLater(t: seq<nat>, offset: nat, later: nat)
    requires Settled(t, offset) && offset <= later
    ensures Settled(t, later)
  {
  }

  // ---------------------------------------------------------------- the decoding side

  /** The last `dictSize` bytes of a dictionary, and the bytes of a prefix. */
  ghost function TwoParts(m: seq<byte>, dictEnd: nat, dictSize: nat, lo: nat, hi: nat): (w: seq<byte>)
    requires dictSize <= dictEnd <= |m| && lo <= hi <= |m|
    ensures |w| == dictSize + (hi - lo)
  {
    m[dictEnd - dictSize..dictEnd] + m[lo..hi]
  }

  class DecoderStream {
    var externalDict: nat
    var extDictSize: nat
    var prefixEnd: nat
    var prefixSize: nat

    predicate Valid(size: nat)
      reads this
    {
      prefixSize <= prefixEnd <= size && externalDict + extDictSize <= size
    }

    constructor ()
      ensures externalDict == extDictSize == prefixEnd == prefixSize == 0
    {
      externalDict, extDictSize, prefixEnd, prefixSize := 0, 0, 0, 0;
    }

    /** LZ4_setStreamDecode. */
    method SetStreamDecode(mem: array<byte>, dict: nat, size: nat)
      requires dict + size <= mem.Length
      modifies this
      ensures Valid(mem.Length) && History(mem[..]) == mem[dict..dict + size]
    {
      prefixSize, prefixEnd := size, dict + size;
      externalDict, extDictSize := 0, 0;
    }

    /** What the decoder believes to stand before the next byte. */
    ghost function History(m: seq<byte>): seq<byte>
      reads this
      requires Valid(|m|)
    {
      TwoParts(m, externalDict + extDictSize, extDictSize, prefixEnd - prefixSize, prefixEnd)
    }

    /** The external dictionary of a call with output at `dest`: an output that does not follow
        the prefix turns the prefix into the external dictionary. */
    function DictEnd(dest: nat): nat
      reads this
    {
      if prefixEnd == dest then externalDict + extDictSize else prefixEnd
    }

    function DictSize(dest: nat): nat
      reads this
    {
      if prefixEnd == dest then extDictSize else prefixSize
    }

    function LowPrefix(dest: nat): int
      reads this
    {
      if prefixEnd == dest then prefixEnd - prefixSize else dest
    }

    /** The history such a call reads, of the external dictionary only the last `hd` bytes. */
    ghost function Window(m: seq<byte>, dest: nat, hd: nat): (w: seq<byte>)
      reads this
      requires Valid(|m|) && dest <= |m| && hd <= DictSize(dest)
      ensures |w| == hd + (dest - LowPrefix(dest))
    {
      TwoParts(m, DictEnd(dest), hd, LowPrefix(dest), dest)
    }

    /** LZ4_decompress_safe_continue, for a caller who leaves the last `hd` bytes of the external
        dictionary alone: decodes as the reference decoder does, and the history it keeps ends
        with what it used followed by what it produced. */
    method DecompressSafeContinue(mem: array<byte>, source: nat, dest: nat, compressedSize: nat, maxOutputSize: nat,
                                  ghost hd: nat)
      returns (r: int)
      requires Valid(mem.Length) && source + compressedSize + 2 <= mem.Length && dest + maxOutputSize <= mem.Length
      requires Disjoint(source, source + compressedSize, dest, dest + maxOutputSize)
      requires hd <= DictSize(dest) && Disjoint(DictEnd(dest) - hd, DictEnd(dest), dest, dest + maxOutputSize)
      modifies this, mem
      ensures Decodes(old(mem[..]), mem[..], source, source + compressedSize, dest, dest + maxOutputSize,
                      old(Window(mem[..], dest, hd)), Reaches(hd, old(DictSize(dest))), r)
      ensures Valid(mem.Length)
      ensures extDictSize == old(DictSize(dest)) && externalDict + extDictSize == old(DictEnd(dest))
      ensures r > 0 ==> prefixEnd == dest + r && prefixSize == r + (dest - old(LowPrefix(dest)))
      ensures r <= 0 ==> prefixEnd == old(prefixEnd) && prefixSize == old(prefixSize)
      ensures r >= 0 ==>
        EndsWith(History(mem[..]), old(Window(mem[..], dest, hd)) + mem[dest..dest + r])
    {
      hide Decodes, EndsWith, TwoParts;
      ghost var w := Window(mem[..], dest, hd);
      if prefixEnd == dest {
        r := DecodeBehind(mem, source, source + compressedSize, dest, dest + maxOutputSize,
                          prefixEnd - prefixSize, externalDict + extDictSize, extDictSize, hd, w);
        if r <= 0 {
          return;
        }
        prefixSize := prefixSize + r;
        prefixEnd := prefixEnd + r;
      } else {
        extDictSize := prefixSize;
        externalDict := prefixEnd - extDictSize;
        r := DecodeBehind(mem, source, source + compressedSize, dest, dest + maxOutputSize,
                          dest, externalDict + extDictSize, extDictSize, hd, w);
        if r <= 0 {
          return;
        }
        prefixSize := r;
        prefixEnd := dest + r;
      }
    }
  }

  /** A decoding call with an external dictionary, and what the history reads like afterwards. */
  method DecodeBehind(mem: array<byte>, source: nat, iend: nat, dest: nat, oend: nat, lowPrefix: nat,
                      dictEnd: nat, dictSize: nat, ghost hd: nat, ghost w: seq<byte>)
    returns (r: int)
    requires source <= iend && iend + 2 <= mem.Length && lowPrefix <= dest <= oend <= mem.Length
    requires Disjoint(source, iend, dest, oend)
    requires hd <= dictSize <= dictEnd <= mem.Length && Disjoint(dictEnd - hd, dictEnd, dest, oend)
    requires w == TwoParts(mem[..], dictEnd, hd, lowPrefix, dest)
    modifies mem
    ensures Decodes(old(mem[..]), mem[..], source, iend, dest, oend, w, Reaches(hd, dictSize), r) && r <= oend - dest
    ensures r >= 0 ==>
      EndsWith(TwoParts(mem[..], dictEnd, dictSize, lowPrefix, dest + r), w + mem[dest..dest + r])
    ensures r == 0 && lowPrefix == dest ==>
      EndsWith(TwoParts(mem[..], dictEnd, dictSize, dictEnd - dictSize, dictEnd), w + mem[dest..dest + r])
  {
    hide Decodes, EndsWith;
    ghost var m0 := mem[..];
    r := WithHistory(mem, Job(source, iend, dest, oend, true, lowPrefix, dictEnd, dictSize), hd, w);
    DecodesBounds(m0, mem[..], source, iend, dest, oend, w, Reaches(hd, dictSize), r);
    if r >= 0 {
      HistoryExtends(m0, mem[..], dest, oend, lowPrefix, dictEnd, dictSize, hd, r);
    }
    if lowPrefix == dest {
      HistoryDoubled(m0, mem[..], dest, oend, dictEnd, dictSize, hd);
    }
  }

  lemma DecodesBounds(m0: seq<byte>, m1: seq<byte>, source: nat, iend: nat, dest: nat, oend: nat,
                      w: seq<byte>, intact: bool, r: int)
    requires source <= iend <= |m0| && dest <= oend && Decodes(m0, m1, source, iend, dest, oend, w, intact, r)
    ensures |m1| == |m0| && r <= oend - dest && SameOutside(m0, m1, dest, oend)
  {
    hide DecodedTo, MustDecode;
  }

  lemma HistoryExtends(m0: seq<byte>, m1: seq<byte>, dest: nat, oend: nat, lo: nat, dictEnd: nat, dictSize: nat, hd: nat, r: nat)
    requires SameOutside(m0, m1, dest, oend) && lo <= dest && dest + r <= oend <= |m0|
    requires hd <= dictSize <= dictEnd <= |m0| && Disjoint(dictEnd - hd, dictEnd, dest, oend)
    ensures EndsWith(TwoParts(m1, dictEnd, dictSize, lo, dest + r),
                     TwoParts(m0, dictEnd, hd, lo, dest) + m1[dest..dest + r])
  {
    BeforeKept(m0, m1, dest, oend, lo);
    SliceKept(m0, m1, dest, oend, dictEnd - hd, dictEnd);
    hide SameOutside, Disjoint;
    assert m1[dictEnd - dictSize..dictEnd] == m1[dictEnd - dictSize..dictEnd - hd] + m1[dictEnd - hd..dictEnd];
    assert m1[lo..dest + r] == m1[lo..dest] + m1[dest..dest + r];
  }

  lemma BeforeKept(m0: seq<byte>, m1: seq<byte>, dest: nat, oend: nat, lo: nat)
    requires SameOutside(m0, m1, dest, oend) && lo <= dest <= oend <= |m0|
    ensures |m1| == |m0| && m1[lo..dest] == m0[lo..dest]
  {
    SliceKept(m0, m1, dest, oend, lo, dest);
  }

  lemma HistoryDoubled(m0: seq<byte>, m1: seq<byte>, dest: nat, oend: nat, dictEnd: nat, dictSize: nat, hd: nat)
    requires SameOutside(m0, m1, dest, oend) && dest <= oend <= |m0|
    requires hd <= dictSize <= dictEnd <= |m0| && Disjoint(dictEnd - hd, dictEnd, dest, oend)
    ensures EndsWith(TwoParts(m1, dictEnd, dictSize, dictEnd - dictSize, dictEnd),
                     TwoParts(m0, dictEnd, hd, dest, dest) + m1[dest..dest])
  {
    var d := m1[dictEnd - dictSize..dictEnd];
    SliceKept(m0, m1, dest, oend, dictEnd - hd, dictEnd);
    assert d == m1[dictEnd - dictSize..dictEnd - hd] + m1[dictEnd - hd..dictEnd];
    assert d + d == (d + m1[dictEnd - dictSize..dictEnd - hd]) + m0[dictEnd - hd..dictEnd];
  }
}
