/** The match finder of the high-compression mode: a hash table that leads into chains of
    earlier positions with the same hash.  Positions are numbered by indices that run through an
    external dictionary and go on in the prefix and the source. */
module HcSearch {
  import opened BlockFormat
  import opened Memory
  import opened MatchCount
  import opened Encoding

  const HASH_SIZE := 0x8000
  const CHAIN_SIZE := 0x1_0000

  /** Where indices lead: `lowLimit..dictLimit` into the external dictionary, `dictLimit` and up
      into the prefix, which runs on into the source and ends at `end`. */
  datatype View = View(base: int, dictBase: int, lowLimit: nat, dictLimit: nat, end: nat)
  {
    function Lo(): int { base + lowLimit }
    function LowPrefix(): int { base + dictLimit }

    predicate Valid(size: nat) {
      && DICT64K <= lowLimit <= dictLimit
      && 0 <= base + dictLimit <= end <= size
      && (lowLimit < dictLimit ==> 0 <= dictBase + lowLimit && dictBase + dictLimit <= size)
    }

    /** The external dictionary. */
    ghost function Dict(m: seq<byte>): (d: seq<byte>)
      requires Valid(|m|)
      ensures |d| == dictLimit - lowLimit
    {
      if lowLimit < dictLimit then m[dictBase + lowLimit..dictBase + dictLimit] else []
    }

    /** Where the byte with virtual address `u` (`base` plus its index) really stands. */
    function Addr(u: int): int {
      if u < LowPrefix() then u - base + dictBase else u
    }

    ghost function Text(m: seq<byte>): (t: seq<byte>)
      requires Valid(|m|)
      ensures |t| == end - Lo()
    {
      Dict(m) + m[LowPrefix()..end]
    }
  }

  lemma ViewTextAt(m: seq<byte>, v: View, u: int)
    requires v.Valid(|m|) && v.Lo() <= u < v.end
    ensures 0 <= v.Addr(u) < |m| && v.Text(m)[u - v.Lo()] == m[v.Addr(u)]
  {
  }

  // ---------------------------------------------------------------- copies

  /** The `n` bytes at `ip` repeat those at virtual address `at`. */
  ghost predicate Copies(m: seq<byte>, v: View, ip: int, at: int, n: nat)
    requires v.Valid(|m|)
  {
    && v.Lo() <= at && at + n <= v.end && v.LowPrefix() <= ip && ip + n <= v.end
    && forall u :: at <= u < at + n ==> 0 <= v.Addr(u) < |m| && m[v.Addr(u)] == m[ip + (u - at)]
  }

  lemma CopiesIsReal(m: seq<byte>, v: View, ip: int, at: int, n: nat)
    requires v.Valid(|m|) && Copies(m, v, ip, at, n) && at < ip && ip - at <= MAX_DISTANCE
    ensures RealMatch(v.Text(m), ip - v.Lo(), at - v.Lo(), n)
  {
    hide View.Text;
    var t, q := v.Text(m), at - v.Lo();
    forall k | q <= k < q + n ensures t[k] == t[k + (ip - at)] {
      ViewTextAt(m, v, k + v.Lo());
      ViewTextAt(m, v, k + v.Lo() + (ip - at));
      var u := k + v.Lo();
      assert m[v.Addr(u)] == m[ip + (u - at)];
    }
  }

  lemma CopiesInSegment(m: seq<byte>, v: View, ip: nat, at: int, n: nat)
    requires v.Valid(|m|) && v.Lo() <= at && v.LowPrefix() <= ip && ip + n <= v.end && at <= ip
    requires at >= v.LowPrefix() || at + n <= v.LowPrefix()
    requires 0 <= v.Addr(at) && v.Addr(at) + n <= |m| && Agree(m, ip, v.Addr(at), n)
    ensures Copies(m, v, ip, at, n)
  {
    forall u | at <= u < at + n ensures 0 <= v.Addr(u) < |m| && m[v.Addr(u)] == m[ip + (u - at)] {
      assert m[ip + (u - at)] == m[ip + (u - at) + (v.Addr(at) - ip)];
    }
  }

  lemma CopiesJoin(m: seq<byte>, v: View, ip: int, at: int, n1: nat, n2: nat)
    requires v.Valid(|m|) && Copies(m, v, ip, at, n1) && Copies(m, v, ip + n1, at + n1, n2)
    ensures Copies(m, v, ip, at, n1 + n2)
  {
  }

  lemma CopiesOneBack(m: seq<byte>, v: View, ip: int, at: int, n: nat)
    requires v.Valid(|m|) && Copies(m, v, ip, at, n)
    requires v.Lo() < at && v.LowPrefix() < ip && 0 <= v.Addr(at - 1) < |m| && m[ip - 1] == m[v.Addr(at - 1)]
    ensures Copies(m, v, ip - 1, at - 1, n + 1)
  {
  }

  // ---------------------------------------------------------------- the tables

  /** A position that has been entered into the tables and can still be read. */
  predicate Inserted(x: int, v: View, next: nat) {
    v.lowLimit <= x && (x + MINMATCH <= v.dictLimit || v.dictLimit <= x < next)
  }

  /** A position the tables may lead to: one that is too old, or one that is inserted. */
  predicate Known(x: int, v: View, next: nat) {
    x < v.lowLimit || Inserted(x, v, next)
  }

  /** A chain link of position `x`: a step back of at least one, to a known position unless it
      is the longest step there is. */
  predicate LinkOk(d: nat, x: int, v: View, next: nat) {
    1 <= d <= MAX_DISTANCE && (d == MAX_DISTANCE || Known(x - d, v, next))
  }

  /** The tables with all positions up to `next` inserted. */
  ghost predicate Linked(hash: seq<nat>, chain: seq<nat>, v: View, next: nat) {
    && |hash| == HASH_SIZE && |chain| == CHAIN_SIZE && v.dictLimit <= next
    && (forall h :: 0 <= h < HASH_SIZE ==> Known(hash[h], v, next))
    && (forall x: nat :: Inserted(x, v, next) && next <= x + CHAIN_SIZE ==> LinkOk(chain[x % CHAIN_SIZE], x, v, next))
  }

  lemma LinkedStep(hash: seq<nat>, chain: seq<nat>, v: View, next: nat, h: nat, d: nat)
    requires Linked(hash, chain, v, next) && h < HASH_SIZE && v.lowLimit <= v.dictLimit
    requires d == if next - hash[h] > MAX_DISTANCE then MAX_DISTANCE else next - hash[h]
    ensures Linked(hash[h := next], chain[next % CHAIN_SIZE := d], v, next + 1)
  {
    var hash', chain' := hash[h := next], chain[next % CHAIN_SIZE := d];
    forall i | 0 <= i < HASH_SIZE ensures Known(hash'[i], v, next + 1) {
      assert i != h ==> Known(hash[i], v, next);
    }
    forall x: nat | Inserted(x, v, next + 1) && next + 1 <= x + CHAIN_SIZE
      ensures LinkOk(chain'[x % CHAIN_SIZE], x, v, next + 1)
    {
      if x == next {
        assert Known(hash[h], v, next);
      } else {
        SlotsDiffer(x, next);
        assert LinkOk(chain[x % CHAIN_SIZE], x, v, next);
      }
    }
  }

  lemma SlotsDiffer(x: nat, next: nat)
    requires x != next && x < next + CHAIN_SIZE && next < x + CHAIN_SIZE
    ensures x % CHAIN_SIZE != next % CHAIN_SIZE
  {
  }

  function HashPtr(m: seq<byte>, p: nat): (h: nat)
    requires p + 4 <= |m|
    ensures h < HASH_SIZE
  {
    Word(m, p, 4) * 2654435761 % 0x1_0000_0000 / 0x2_0000
  }

  /** LZ4HC_Insert: enters all positions before `ip`. */
  method Insert(mem: array<byte>, hash: array<nat>, chain: array<nat>, v: View, nextToUpdate: nat, ip: nat)
    returns (next: nat)
    requires v.Valid(mem.Length) && ip + 3 <= v.end && v.base + nextToUpdate <= ip
    requires hash != chain && Linked(hash[..], chain[..], v, nextToUpdate)
    modifies hash, chain
    ensures next == ip - v.base && Linked(hash[..], chain[..], v, next)
  {
    hide Linked, HashPtr;
    var target := ip - v.base;
    var idx: nat := nextToUpdate;
    LinkedFacts(hash[..], chain[..], v, idx);
    while idx < target
      invariant v.dictLimit <= idx <= target && hash.Length == HASH_SIZE && chain.Length == CHAIN_SIZE
      invariant Linked(hash[..], chain[..], v, idx)
    {
      var h := HashPtr(mem[..], v.base + idx);
      LinkedFacts(hash[..], chain[..], v, idx);
      ghost var t: seq<nat>, c: seq<nat> := hash[..], chain[..];
      var delta: nat := idx - hash[h];
      if delta > MAX_DISTANCE {
        delta := MAX_DISTANCE;
      }
      chain[idx % CHAIN_SIZE] := delta;
      hash[h] := idx;
      LinkedStep(t, c, v, idx, h, delta);
      assert hash[..] == t[h := idx] && chain[..] == c[idx % CHAIN_SIZE := delta];
      idx := idx + 1;
    }
    next := target;
  }

  lemma LinkedFacts(hash: seq<nat>, chain: seq<nat>, v: View, next: nat)
    requires Linked(hash, chain, v, next)
    ensures |hash| == HASH_SIZE && |chain| == CHAIN_SIZE && v.dictLimit <= next
    ensures forall h :: 0 <= h < HASH_SIZE ==> Known(hash[h], v, next)
    ensures v.lowLimit <= v.dictLimit ==> forall h :: 0 <= h < HASH_SIZE ==> hash[h] < next
  {
  }

  // ---------------------------------------------------------------- repeated patterns

  /** The `k`-th byte of the endless repetition of a 32-bit pattern. */
  function PatternByte(pattern: nat, k: int): byte {
    match k % 4
    case 0 => pattern % 256
    case 1 => pattern / 0x100 % 256
    case 2 => pattern / 0x1_0000 % 256
    case _ => pattern / 0x100_0000 % 256
  }

  /** The `n` bytes at `p` continue the pattern, the first of them as its byte `k`. */
  ghost predicate Patterned(m: seq<byte>, p: int, n: int, pattern: nat, k: int)
    requires 0 <= p && p + n <= |m|
  {
    forall i :: p <= i < p + n ==> m[i] == PatternByte(pattern, k + (i - p))
  }

  lemma PatternedJoin(m: seq<byte>, p: int, n1: nat, n2: nat, pattern: nat, k: int)
    requires 0 <= p && p + n1 + n2 <= |m| && Patterned(m, p, n1, pattern, k) && Patterned(m, p + n1, n2, pattern, k + n1)
    ensures Patterned(m, p, n1 + n2, pattern, k)
  {
    forall i | p <= i < p + n1 + n2 ensures m[i] == PatternByte(pattern, k + (i - p)) {
      if i >= p + n1 {
        assert k + n1 + (i - (p + n1)) == k + (i - p);
      }
    }
  }

  lemma PatternedTurn(m: seq<byte>, p: int, n: nat, pattern: nat, k: int, k': int)
    requires 0 <= p && p + n <= |m| && Patterned(m, p, n, pattern, k) && k % 4 == k' % 4
    ensures Patterned(m, p, n, pattern, k')
  {
    hide PatternByte;
    forall i | p <= i < p + n ensures m[i] == PatternByte(pattern, k' + (i - p)) {
      SameByte(pattern, k + (i - p), k' + (i - p));
    }
  }

  lemma SameByte(pattern: nat, k: int, k': int)
    requires k % 4 == k' % 4
    ensures PatternByte(pattern, k) == PatternByte(pattern, k')
  {
  }

  /** A word of memory is the pattern, or how far it agrees with it. */
  lemma PatternWord(m: seq<byte>, p: nat, pattern: nat, n: nat, word: nat)
    requires p + n <= |m| && pattern < 0x1_0000_0000
    requires (n == 4 && word == pattern) || (n == 8 && word == pattern + pattern * 0x1_0000_0000)
    ensures Word(m, p, n) == word <==> Patterned(m, p, n, pattern, 0)
    ensures Word(m, p, n) != word ==>
      var c := NbCommonBytes(Word(m, p, n), word);
      c < n && Patterned(m, p, c, pattern, 0) && m[p + c] != PatternByte(pattern, c)
  {
    hide Word, NbCommonBytes, PatternByte, Agree;
    var bytes: seq<byte> := seq(n, k => PatternByte(pattern, k));
    var both := m + bytes;
    SameWord(both, p, m, p, n);
    PatternBytesWord(bytes, pattern, n, word);
    SameWord(both, |m|, bytes, 0, n);
    WordsEqual(both, p, |m|, n);
    AgreesWithPattern(m, p, n, pattern, bytes, n);
    if Word(m, p, n) != word {
      NbCommonBytesCounts(both, p, |m|, n);
      AgreesWithPattern(m, p, n, pattern, bytes, NbCommonBytes(Word(m, p, n), word));
    }
  }

  lemma AgreesWithPattern(m: seq<byte>, p: nat, n: nat, pattern: nat, bytes: seq<byte>, c: nat)
    requires p + n <= |m| && c <= n == |bytes| && forall k :: 0 <= k < n ==> bytes[k] == PatternByte(pattern, k)
    ensures Agree(m + bytes, p, |m|, c) <==> Patterned(m, p, c, pattern, 0)
    ensures c < n ==> (m + bytes)[|m| + c] == PatternByte(pattern, c) && (m + bytes)[p + c] == m[p + c]
  {
    hide PatternByte;
    var both := m + bytes;
    if Agree(both, p, |m|, c) {
      forall i | p <= i < p + c ensures m[i] == PatternByte(pattern, 0 + (i - p)) {
        assert both[i] == both[i + (|m| - p)] == bytes[i - p];
      }
    }
    if Patterned(m, p, c, pattern, 0) {
      forall i | p <= i < p + c ensures both[i] == both[i + (|m| - p)] {
        assert m[i] == PatternByte(pattern, 0 + (i - p)) == bytes[i - p];
      }
    }
  }

  lemma PatternBytesWord(bytes: seq<byte>, pattern: nat, n: nat, word: nat)
    requires |bytes| == n && pattern < 0x1_0000_0000 && forall k :: 0 <= k < n ==> bytes[k] == PatternByte(pattern, k)
    requires (n == 4 && word == pattern) || (n == 8 && word == pattern + pattern * 0x1_0000_0000)
    ensures Word(bytes, 0, n) == word
  {
    FourBytes(bytes, 0, n, pattern);
    if n == 8 {
      FourBytes(bytes, 4, n, pattern);
      assert Word(bytes, 8, 0) == 0;
    }
  }

  lemma FourBytes(bytes: seq<byte>, p: nat, n: nat, pattern: nat)
    requires p + 4 <= n == |bytes| && pattern < 0x1_0000_0000 && p % 4 == 0
    requires forall k :: 0 <= k < n ==> bytes[k] == PatternByte(pattern, k)
    ensures Word(bytes, p, n - p) == pattern + 0x1_0000_0000 * Word(bytes, p + 4, n - p - 4)
  {
    var w := Word(bytes, p + 4, n - p - 4);
    assert bytes[p] == pattern % 256 && bytes[p + 1] == pattern / 0x100 % 256;
    assert bytes[p + 2] == pattern / 0x1_0000 % 256 && bytes[p + 3] == pattern / 0x100_0000 % 256;
    assert Word(bytes, p + 3, n - p - 3) == bytes[p + 3] + 256 * w;
    assert Word(bytes, p + 2, n - p - 2) == bytes[p + 2] + 256 * Word(bytes, p + 3, n - p - 3);
    assert Word(bytes, p + 1, n - p - 1) == bytes[p + 1] + 256 * Word(bytes, p + 2, n - p - 2);
    FourDigits(pattern);
  }

  lemma FourDigits(x: nat)
    requires x < 0x1_0000_0000
    ensures x == x % 256 + 256 * (x / 0x100 % 256) + 0x1_0000 * (x / 0x1_0000 % 256) + 0x100_0000 * (x / 0x100_0000 % 256)
  {
  }

  /** LZ4HC_countPattern: exactly how far, up to `iEnd`, memory goes on repeating the pattern. */
  method CountPattern(mem: array<byte>, ip: nat, iEnd: nat, pattern: nat) returns (n: nat)
    requires ip <= iEnd <= mem.Length && pattern < 0x1_0000_0000
    ensures ip + n <= iEnd && Patterned(mem[..], ip, n, pattern, 0)
    ensures ip + n < iEnd ==> mem[ip + n] != PatternByte(pattern, n)
  {
    hide Word, NbCommonBytes, PatternByte, Patterned;
    n := 0;
    NoPattern(mem[..], ip, pattern, 0);
    var word := pattern + pattern * 0x1_0000_0000;
    while ip + n < iEnd - 7
      invariant ip + n <= iEnd && n % 4 == 0 && Patterned(mem[..], ip, n, pattern, 0)
    {
      PatternWord(mem[..], ip + n, pattern, 8, word);
      var here := Word(mem[..], ip + n, 8);
      if here != word {
        var c := NbCommonBytes(here, word);
        PatternedOn(mem[..], ip, n, c, pattern);
        SameByte(pattern, c, n + c);
        n := n + c;
        return;
      }
      PatternedOn(mem[..], ip, n, 8, pattern);
      n := n + 8;
    }
    while ip + n < iEnd && mem[ip + n] == PatternByte(pattern, n)
      invariant ip + n <= iEnd && Patterned(mem[..], ip, n, pattern, 0)
    {
      OneMorePattern(mem[..], ip, n, pattern);
      n := n + 1;
    }
  }

  lemma NoPattern(m: seq<byte>, p: nat, pattern: nat, k: int)
    requires p <= |m|
    ensures Patterned(m, p, 0, pattern, k)
  {
  }

  lemma PatternedOn(m: seq<byte>, p: nat, n1: nat, n2: nat, pattern: nat)
    requires p + n1 + n2 <= |m| && n1 % 4 == 0
    requires Patterned(m, p, n1, pattern, 0) && Patterned(m, p + n1, n2, pattern, 0)
    ensures Patterned(m, p, n1 + n2, pattern, 0)
  {
    hide Patterned;
    PatternedTurn(m, p + n1, n2, pattern, 0, n1);
    PatternedJoin(m, p, n1, n2, pattern, 0);
  }

  lemma OneMorePattern(m: seq<byte>, p: nat, n: nat, pattern: nat)
    requires p + n < |m| && Patterned(m, p, n, pattern, 0) && m[p + n] == PatternByte(pattern, n)
    ensures Patterned(m, p, n + 1, pattern, 0)
  {
    hide PatternByte;
    assert n == 0 + (p + n - p);
  }

  /** LZ4HC_reverseCountPattern: exactly how far, down to `iLow`, memory repeats the pattern
      before `ip`. */
  method ReverseCountPattern(mem: array<byte>, ip: nat, iLow: nat, pattern: nat) returns (n: nat)
    requires ip <= mem.Length && pattern < 0x1_0000_0000
    ensures if iLow <= ip then iLow + n <= ip else n == 0
    ensures n <= ip && Patterned(mem[..], ip - n, n, pattern, 0 - n)
    ensures iLow + n < ip ==> mem[ip - n - 1] != PatternByte(pattern, 0 - n - 1)
  {
    hide Word, NbCommonBytes, PatternByte, Patterned;
    n := 0;
    NoPattern(mem[..], ip, pattern, 0);
    while ip - n >= iLow + 4
      invariant n <= ip && (iLow <= ip ==> iLow + n <= ip) && (iLow > ip ==> n == 0)
      invariant n % 4 == 0 && Patterned(mem[..], ip - n, n, pattern, 0 - n)
    {
      PatternWord(mem[..], ip - n - 4, pattern, 4, pattern);
      if Word(mem[..], ip - n - 4, 4) != pattern {
        break;
      }
      PatternedTurn(mem[..], ip - n - 4, 4, pattern, 0, 0 - n - 4);
      PatternedJoin(mem[..], ip - n - 4, 4, n, pattern, 0 - n - 4);
      n := n + 4;
    }
    while ip - n > iLow && mem[ip - n - 1] == PatternByte(pattern, 0 - n - 1)
      invariant n <= ip && (iLow <= ip ==> iLow + n <= ip) && (iLow > ip ==> n == 0)
      invariant Patterned(mem[..], ip - n, n, pattern, 0 - n)
    {
      OnePatternByte(mem[..], ip - n - 1, pattern, 0 - n - 1);
      PatternedJoin(mem[..], ip - n - 1, 1, n, pattern, 0 - n - 1);
      n := n + 1;
    }
  }

  lemma OnePatternByte(m: seq<byte>, p: nat, pattern: nat, k: int)
    requires p < |m| && m[p] == PatternByte(pattern, k)
    ensures Patterned(m, p, 1, pattern, k)
  {
    hide PatternByte;
    assert k == k + (p - p);
  }

  // ---------------------------------------------------------------- the search

  /** What a search for something longer than `longest0` has come up with. */
  ghost predicate Wider(m: seq<byte>, v: View, iLow: nat, ip: nat, iHigh: nat, longest0: nat,
                        longest: nat, matchpos: int, startpos: int)
    requires v.Valid(|m|)
  {
    && longest0 <= longest
    && (longest > longest0 ==>
          && longest >= MINMATCH && iLow <= startpos <= ip && startpos + longest <= iHigh
          && 1 <= startpos - matchpos <= MAX_DISTANCE && Copies(m, v, startpos, matchpos, longest))
  }

  /** Where the search works: `ip` may be moved down to `iLow`, a match may run up to `iHigh`. */
  predicate Bounds(v: View, size: nat, ip: nat, iLow: nat, iHigh: nat, longest: nat) {
    && v.Valid(size) && v.LowPrefix() <= iLow <= ip && ip + 8 <= iHigh < v.end
    && ip - iLow <= longest && iLow + longest <= iHigh
  }

  /** The full extent of a candidate in the prefix, both ways. */
  method PrefixMatch(mem: array<byte>, v: View, ip: nat, iLow: nat, iHigh: nat, matchPtr: nat)
    returns (mlt: nat, back: nat)
    requires v.Valid(mem.Length) && v.LowPrefix() <= iLow <= ip && ip + 8 <= iHigh < v.end
    requires v.LowPrefix() <= matchPtr < ip && Agree(mem[..], ip, matchPtr, MINMATCH)
    ensures iLow + back <= ip && ip - back + mlt <= iHigh && Copies(mem[..], v, ip - back, matchPtr - back, mlt)
    ensures mlt >= MINMATCH
  {
    hide Agree, Copies;
    mlt := Count(mem, ip + MINMATCH, matchPtr + MINMATCH, iHigh);
    AgreeMore(mem[..], ip, matchPtr, MINMATCH, mlt);
    mlt, back := MINMATCH + mlt, 0;
    CopiesInSegment(mem[..], v, ip, matchPtr, mlt);
    while ip - back > iLow && matchPtr - back > v.LowPrefix() && mem[ip - back - 1] == mem[matchPtr - back - 1]
      invariant iLow + back <= ip && v.LowPrefix() + back <= matchPtr && ip - back + mlt <= iHigh
      invariant Copies(mem[..], v, ip - back, matchPtr - back, mlt) && mlt >= MINMATCH
    {
      CopiesOneBack(mem[..], v, ip - back, matchPtr - back, mlt);
      mlt, back := mlt + 1, back + 1;
    }
  }

  /** The full extent of a candidate in the external dictionary: it may run on into the prefix. */
  method DictMatch(mem: array<byte>, v: View, ip: nat, iLow: nat, iHigh: nat, matchIndex: nat, lowLimit: nat)
    returns (mlt: nat, back: nat)
    requires v.Valid(mem.Length) && v.LowPrefix() <= iLow <= ip && ip + 8 <= iHigh < v.end
    requires v.lowLimit <= lowLimit <= matchIndex && matchIndex + MINMATCH <= v.dictLimit
    requires Agree(mem[..], ip, v.dictBase + matchIndex, MINMATCH)
    ensures iLow + back <= ip && ip - back + mlt <= iHigh && lowLimit + back <= matchIndex
    ensures Copies(mem[..], v, ip - back, v.base + matchIndex - back, mlt) && mlt >= MINMATCH
  {
    hide Agree, Copies, View.Valid;
    var matchPtr := v.dictBase + matchIndex;
    DictPlaces(mem[..], v, matchIndex);
    mlt := DictForward(mem, v, ip, iHigh, matchIndex);
    back := 0;
    while ip - back > iLow && matchIndex - back > lowLimit && mem[ip - back - 1] == mem[matchPtr - back - 1]
      invariant iLow + back <= ip && lowLimit + back <= matchIndex && ip - back + mlt <= iHigh
      invariant Copies(mem[..], v, ip - back, v.base + matchIndex - back, mlt) && mlt >= MINMATCH
    {
      CopiesOneBack(mem[..], v, ip - back, v.base + matchIndex - back, mlt);
      mlt, back := mlt + 1, back + 1;
    }
  }

  lemma DictPlaces(m: seq<byte>, v: View, matchIndex: nat)
    requires v.Valid(|m|) && v.lowLimit <= matchIndex && matchIndex + MINMATCH <= v.dictLimit
    ensures v.dictBase + v.dictLimit <= |m| && 0 <= v.dictBase + v.lowLimit && v.end <= |m| && 0 <= v.LowPrefix()
  {
  }

  method DictForward(mem: array<byte>, v: View, ip: nat, iHigh: nat, matchIndex: nat) returns (mlt: nat)
    requires v.Valid(mem.Length) && v.LowPrefix() <= ip && ip + 8 <= iHigh < v.end
    requires v.lowLimit <= matchIndex && matchIndex + MINMATCH <= v.dictLimit
    requires Agree(mem[..], ip, v.dictBase + matchIndex, MINMATCH)
    ensures ip + mlt <= iHigh && Copies(mem[..], v, ip, v.base + matchIndex, mlt) && mlt >= MINMATCH
  {
    hide Agree, Copies, View.Valid;
    DictPlaces(mem[..], v, matchIndex);
    var matchPtr := v.dictBase + matchIndex;
    var vLimit := ip + (v.dictLimit - matchIndex);
    if vLimit > iHigh {
      vLimit := iHigh;
    }
    mlt := Count(mem, ip + MINMATCH, matchPtr + MINMATCH, vLimit);
    AgreeMore(mem[..], ip, matchPtr, MINMATCH, mlt);
    mlt := mlt + MINMATCH;
    CopiesInDict(mem[..], v, ip, matchIndex, mlt);
    if ip + mlt == vLimit && vLimit < iHigh {
      var more := Count(mem, ip + mlt, v.LowPrefix(), iHigh);
      CopiesOn(mem[..], v, ip, matchIndex, mlt, more);
      mlt := mlt + more;
    }
  }

  lemma CopiesInDict(m: seq<byte>, v: View, ip: nat, matchIndex: nat, n: nat)
    requires v.Valid(|m|) && v.LowPrefix() <= ip && ip + n < v.end && v.lowLimit <= matchIndex && matchIndex + n <= v.dictLimit
    requires v.lowLimit < v.dictLimit && Agree(m, ip, v.dictBase + matchIndex, n)
    ensures Copies(m, v, ip, v.base + matchIndex, n)
  {
    hide Agree, Copies;
    CopiesInSegment(m, v, ip, v.base + matchIndex, n);
  }

  /** A match up to the end of the dictionary goes on at the beginning of the prefix. */
  lemma CopiesOn(m: seq<byte>, v: View, ip: nat, matchIndex: nat, n: nat, more: nat)
    requires v.Valid(|m|) && v.LowPrefix() <= ip && ip + n + more < v.end && v.lowLimit <= matchIndex && matchIndex + n == v.dictLimit
    requires Copies(m, v, ip, v.base + matchIndex, n) && v.LowPrefix() + more <= |m| && Agree(m, ip + n, v.LowPrefix(), more)
    ensures Copies(m, v, ip, v.base + matchIndex, n + more)
  {
    hide Agree, Copies;
    CopiesInSegment(m, v, ip + n, v.LowPrefix(), more);
    CopiesJoin(m, v, ip, v.base + matchIndex, n, more);
  }

  /** Looks at one candidate, and keeps it when it is longer than what there is. */
  method TryCandidate(mem: array<byte>, v: View, ip: nat, iLow: nat, iHigh: nat, lowLimit: nat, pattern: nat,
                      matchIndex: nat, longest0: nat, longest: nat, matchpos: int, startpos: int)
    returns (longest': nat, matchpos': int, startpos': int)
    requires Bounds(v, mem.Length, ip, iLow, iHigh, longest) && pattern == Word(mem[..], ip, 4)
    requires v.lowLimit <= lowLimit <= matchIndex && ip - v.base - matchIndex <= MAX_DISTANCE
    requires Inserted(matchIndex, v, ip - v.base)
    requires Wider(mem[..], v, iLow, ip, iHigh, longest0, longest, matchpos, startpos)
    ensures Wider(mem[..], v, iLow, ip, iHigh, longest0, longest', matchpos', startpos')
    ensures Bounds(v, mem.Length, ip, iLow, iHigh, longest')
  {
    hide Agree, Copies, Word;
    longest', matchpos', startpos' := longest, matchpos, startpos;
    var delta := ip - iLow;
    var mlt, back := 0, 0;
    if matchIndex >= v.dictLimit {
      var matchPtr := v.base + matchIndex;
      if mem[iLow + longest] != mem[matchPtr - delta + longest] {
        return;
      }
      WordsEqual(mem[..], ip, matchPtr, 4);
      if Word(mem[..], matchPtr, 4) != pattern {
        return;
      }
      mlt, back := PrefixMatch(mem, v, ip, iLow, iHigh, matchPtr);
    } else {
      WordsEqual(mem[..], ip, v.dictBase + matchIndex, 4);
      if Word(mem[..], v.dictBase + matchIndex, 4) != pattern {
        return;
      }
      mlt, back := DictMatch(mem, v, ip, iLow, iHigh, matchIndex, lowLimit);
    }
    if mlt > longest {
      longest', matchpos', startpos' := mlt, v.base + matchIndex - back, ip - back;
    }
  }

  datatype RepeatState = Untested | NotRepeated | Confirmed(srcPatternLength: nat)

  /** A 32-bit pattern of four equal bytes. */
  predicate OneByteOnly(pattern: nat) {
    pattern % 0x1_0000 == pattern / 0x1_0000 && pattern % 0x100 == pattern / 0x100_0000
  }

  /** The candidate after `matchIndex`: the chain's next, or, in the middle of a repeated
      pattern, one further back in the same segment.  It always lies strictly before. */
  method NextCandidate(mem: array<byte>, chain: array<nat>, v: View, ip: nat, iHigh: nat, lowLimit: nat, pattern: nat,
                       patternAnalysis: bool, matchIndex: nat, repeat: RepeatState)
    returns (next: int, repeat': RepeatState)
    requires v.Valid(mem.Length) && v.LowPrefix() <= ip && ip + 8 <= iHigh < v.end && pattern == Word(mem[..], ip, 4)
    requires chain.Length == CHAIN_SIZE && Inserted(matchIndex, v, ip - v.base)
    requires LinkOk(chain[matchIndex % CHAIN_SIZE], matchIndex, v, ip - v.base)
    requires v.lowLimit <= lowLimit <= matchIndex && ip - v.base <= lowLimit + MAX_DISTANCE
    ensures 0 <= next < matchIndex && (lowLimit <= next ==> Inserted(next, v, ip - v.base))
  {
    hide Word, PatternByte;
    repeat' := repeat;
    var nextOffset := chain[matchIndex % CHAIN_SIZE];
    next := matchIndex - nextOffset;
    if !(patternAnalysis && nextOffset == 1) {
      return;
    }
    PatternFits(mem[..], ip);
    if repeat'.Untested? {
      if OneByteOnly(pattern) {
        var n := CountPattern(mem, ip + 4, iHigh, pattern);
        repeat' := Confirmed(n + 4);
      } else {
        repeat' := NotRepeated;
      }
    }
    if repeat'.Confirmed? && next >= v.dictLimit {
      next := PatternJump(mem, v, ip, iHigh, pattern, next, repeat'.srcPatternLength);
    }
  }

  lemma PatternFits(m: seq<byte>, p: nat)
    requires p + 4 <= |m|
    ensures Word(m, p, 4) < 0x1_0000_0000
  {
    assert Word(m, p + 4, 0) == 0 && Word(m, p + 3, 1) < 0x100 && Word(m, p + 2, 2) < 0x1_0000;
    assert Word(m, p + 1, 3) < 0x100_0000;
  }

  /** From a candidate inside a stretch of one repeated byte, goes as far back as the stretch
      and the distance limit allow, or to where the stretch ahead is as long as the source's. */
  method PatternJump(mem: array<byte>, v: View, ip: nat, iHigh: nat, pattern: nat, matchIndex: nat, srcPatternLength: nat)
    returns (next: nat)
    requires v.Valid(mem.Length) && v.LowPrefix() <= ip && ip + 8 <= iHigh < v.end && pattern < 0x1_0000_0000
    requires v.dictLimit <= matchIndex < ip - v.base
    ensures v.dictLimit <= next <= matchIndex
  {
    hide Word, PatternByte;
    next := matchIndex;
    var matchPtr := v.base + matchIndex;
    if Word(mem[..], matchPtr, 4) == pattern {
      var n := CountPattern(mem, matchPtr + 4, iHigh, pattern);
      var forwardPatternLength := n + 4;
      var maxLowPtr := if v.LowPrefix() + MAX_DISTANCE >= ip then v.LowPrefix() else ip - MAX_DISTANCE;
      var backLength := ReverseCountPattern(mem, matchPtr, maxLowPtr, pattern);
      var currentSegmentLength := backLength + forwardPatternLength;
      if currentSegmentLength >= srcPatternLength && forwardPatternLength <= srcPatternLength {
        next := matchIndex + forwardPatternLength - srcPatternLength;
      } else {
        next := matchIndex - backLength;
      }
    }
  }

  lemma LinkAt(hash: seq<nat>, chain: seq<nat>, v: View, next: nat, x: nat)
    requires Linked(hash, chain, v, next) && Inserted(x, v, next) && next <= x + MAX_DISTANCE
    ensures LinkOk(chain[x % CHAIN_SIZE], x, v, next)
  {
  }

  /** LZ4HC_InsertAndGetWiderMatch: follows the chain of `ip`, and reports only real matches:
      byte-equal over their whole length, at most 65535 back, between `iLow` and `iHigh`. */
  method InsertAndGetWiderMatch(mem: array<byte>, hash: array<nat>, chain: array<nat>, v: View, nextToUpdate: nat,
                                ip: nat, iLow: nat, iHigh: nat, longest0: nat, maxNbAttempts: nat, patternAnalysis: bool)
    returns (longest: nat, matchpos: int, startpos: int, next: nat)
    requires Bounds(v, mem.Length, ip, iLow, iHigh, longest0) && hash != chain
    requires Linked(hash[..], chain[..], v, nextToUpdate) && v.base + nextToUpdate <= ip
    modifies hash, chain
    ensures next == ip - v.base && Linked(hash[..], chain[..], v, next)
    ensures Wider(mem[..], v, iLow, ip, iHigh, longest0, longest, matchpos, startpos)
  {
    hide Linked, HashPtr, Word, Copies;
    next := Insert(mem, hash, chain, v, nextToUpdate, ip);
    LinkedFacts(hash[..], chain[..], v, next);
    var lowLimit := if v.lowLimit + DICT64K > ip - v.base then v.lowLimit else ip - v.base - MAX_DISTANCE;
    var pattern := Word(mem[..], ip, 4);
    var matchIndex: int := hash[HashPtr(mem[..], ip)];
    var nbAttempts, repeat := maxNbAttempts, Untested;
    longest, matchpos, startpos := longest0, 0, ip;
    while matchIndex >= lowLimit && nbAttempts > 0
      invariant lowLimit <= matchIndex ==> Inserted(matchIndex, v, next)
      invariant Wider(mem[..], v, iLow, ip, iHigh, longest0, longest, matchpos, startpos)
      invariant Bounds(v, mem.Length, ip, iLow, iHigh, longest) && Linked(hash[..], chain[..], v, next)
      decreases matchIndex
    {
      nbAttempts := nbAttempts - 1;
      longest, matchpos, startpos := TryCandidate(mem, v, ip, iLow, iHigh, lowLimit, pattern, matchIndex,
                                                  longest0, longest, matchpos, startpos);
      LinkAt(hash[..], chain[..], v, next, matchIndex);
      matchIndex, repeat := NextCandidate(mem, chain, v, ip, iHigh, lowLimit, pattern, patternAnalysis, matchIndex, repeat);
    }
  }
}
