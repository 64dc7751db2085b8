/** The greedy match search of the fast compressor: hash table, skipping search, backward
    extension.  A compressor call is described by `Params`; memory is only read here. */
module FastSearch {
  import opened BlockFormat
  import opened Memory
  import opened MatchCount
  import opened Encoding
  import opened Emitter

  datatype TableType = ByU16 | ByU32
  datatype DictMode = NoDict | WithPrefix64k | UsingExtDict

  const SKIP_TRIGGER := 64            // 1 << LZ4_skipTrigger
  const TWO32 := 0x1_0000_0000
  const LIMIT64K := 65536 + MFLIMIT - 1   // LZ4_64Klimit

  function TableSize(t: TableType): nat {
    if t == ByU16 then 8192 else 4096
  }

  // ---------------------------------------------------------------- hashing

  function Hash4(sequence: nat, t: TableType): (h: nat)
    ensures h < TableSize(t)
  {
    (sequence * 2654435761 % TWO32) / (if t == ByU16 then 0x8_0000 else 0x10_0000)
  }

  function Hash5(sequence: nat, t: TableType): (h: nat)
    ensures h < TableSize(t)
  {
    (sequence * 0x100_0000 % 0x1_0000_0000_0000_0000 * 889523592379 % 0x1_0000_0000_0000_0000)
      / (if t == ByU16 then 0x8_0000_0000_0000 else 0x10_0000_0000_0000)
  }

  function HashPosition(m: seq<byte>, p: nat, t: TableType): (h: nat)
    requires p + 8 <= |m|
    ensures h < TableSize(t)
  {
    if t != ByU16 then Hash5(Word(m, p, 8), t) else Hash4(Word(m, p, 4), t)
  }

  // ---------------------------------------------------------------- the call

  /** Everything a call of LZ4_compress_generic works with, its hash table apart. */
  datatype Params = Params(src: nat, n: nat, dst: nat, maxOutputSize: nat, limited: bool,
                           tableType: TableType, dict: DictMode, dictSmall: bool, acceleration: nat,
                           currentOffset: nat, dictionary: nat, dictSize: nat)
  {
    function Iend(): nat { src + n }
    function Mflimit(): int { src + n - MFLIMIT }
    function Matchlimit(): int { src + n - LASTLITERALS }
    function DictEnd(): nat { dictionary + dictSize }
    function HistSize(): nat { if dict == NoDict then 0 else dictSize }
    /** The virtual address where history starts: history always reads as if it stood right
        before the source. */
    function Lo(): int { src - HistSize() }
    /** Index of the first source byte in the hash table's numbering. */
    function First(): nat { if dict == NoDict then 0 else currentOffset }
    function Base(): int { src - First() }
    function OutRoom(): nat { n + n / 255 + 16 }

    /** Source and history are in memory, and of a supported kind. */
    predicate Readable(size: nat) {
      && n <= LZ4_MAX_INPUT_SIZE && src + n <= size && currentOffset <= 0x8000_0000
      && (tableType == ByU16 ==> dict == NoDict && n < LIMIT64K)
      && (dict == WithPrefix64k ==> dictSize <= src)
      && (dict == UsingExtDict ==>
            DictEnd() + 3 <= size && Disjoint(dictionary, DictEnd(), src, src + n) && (n > 0 ==> dictionary != src))
      && (dict == NoDict ==> !dictSmall)
      && (dict != NoDict && !dictSmall ==> dictSize >= DICT64K || dictSize >= currentOffset)
    }

    /** And there is room for output, clear of them. */
    predicate Valid(size: nat) {
      && Readable(size) && dst + OutRoom() <= size && Disjoint(src, src + n, dst, dst + OutRoom())
      && (dict == WithPrefix64k ==> Disjoint(src - dictSize, src, dst, dst + OutRoom()))
      && (dict == UsingExtDict ==> Disjoint(dictionary, DictEnd(), dst, dst + OutRoom()))
    }

    /** Where the byte with virtual address `v` really stands. */
    function Addr(v: int): int {
      if dict == UsingExtDict && v < src then v + (DictEnd() - src) else v
    }

    /** History followed by the source. */
    ghost function Text(m: seq<byte>): (t: seq<byte>)
      requires Readable(|m|)
      ensures |t| == HistSize() + n
    {
      History(m) + m[src..Iend()]
    }

    ghost function History(m: seq<byte>): (h: seq<byte>)
      requires Readable(|m|)
      ensures |h| == HistSize()
    {
      match dict
      case NoDict => []
      case WithPrefix64k => m[src - dictSize..src]
      case UsingExtDict => m[dictionary..DictEnd()]
    }

    /** The first search counter, in 32-bit arithmetic.  A multiple of 2^26 makes it 0. */
    function FirstSearchNb(): (nb: nat)
      ensures nb < TWO32 && nb % SKIP_TRIGGER == 0
    {
      acceleration * SKIP_TRIGGER % TWO32
    }

    /** The search makes progress with every step. */
    predicate Advances() { FirstSearchNb() != 0 }
  }

  lemma TextAt(m: seq<byte>, p: Params, v: int)
    requires p.Readable(|m|) && p.Lo() <= v < p.Iend()
    ensures 0 <= p.Addr(v) < |m| && p.Text(m)[v - p.Lo()] == m[p.Addr(v)]
  {
    var i := v - p.Lo();
    if v < p.src {
      HistoryAt(m, p, v);
    } else {
      hide p.History;
      assert p.Text(m)[i] == m[p.src..p.Iend()][i - p.HistSize()];
    }
  }

  lemma HistoryAt(m: seq<byte>, p: Params, v: int)
    requires p.Readable(|m|) && p.Lo() <= v < p.src
    ensures 0 <= p.Addr(v) < |m| && p.History(m)[v - p.Lo()] == m[p.Addr(v)]
  {
  }

  /** No table entry is at or beyond index `lim`. */
  ghost predicate Below(table: seq<nat>, lim: int) {
    forall i :: 0 <= i < |table| ==> table[i] < lim
  }

  /** No usable entry points at the last three bytes of an external dictionary. */
  ghost predicate ClearOfDictEnd(table: seq<nat>, p: Params) {
    forall i :: 0 <= i < |table| && p.First() - p.HistSize() <= table[i] < p.First() ==> table[i] + 4 <= p.First()
  }

  /** The table after this call: old entries, and indices of source bytes at least twelve
      before its end. */
  ghost predicate OnlyNewPositions(old_: seq<nat>, new_: seq<nat>, p: Params) {
    && |old_| == |new_|
    && forall i :: 0 <= i < |new_| ==> new_[i] == old_[i] || p.First() <= new_[i] <= p.First() + p.n - MFLIMIT
  }

  lemma OnlyNewPositionsRefl(a: seq<nat>, p: Params)
    ensures OnlyNewPositions(a, a, p)
  {
  }

  lemma OnlyNewPositionsCompose(a: seq<nat>, b: seq<nat>, c: seq<nat>, p: Params)
    requires OnlyNewPositions(a, b, p) && OnlyNewPositions(b, c, p)
    ensures OnlyNewPositions(a, c, p)
  {
  }

  /** Virtual address `v` lies in the source, or comes from an entry that was there before. */
  ghost predicate FromTable(table: seq<nat>, p: Params, v: int) {
    v >= p.src || exists i :: 0 <= i < |table| && v == p.Base() + table[i]
  }

  lemma NewOrOld(t0: seq<nat>, t1: seq<nat>, p: Params, h: nat)
    requires OnlyNewPositions(t0, t1, p) && h < |t1|
    ensures FromTable(t0, p, p.Base() + t1[h])
  {
  }

  lemma ClearCandidate(t0: seq<nat>, t1: seq<nat>, p: Params, h: nat, v: int)
    requires OnlyNewPositions(t0, t1, p) && ClearOfDictEnd(t0, p) && h < |t1|
    requires v == p.Base() + t1[h] && p.Lo() <= v < p.src
    ensures v + 4 <= p.src
  {
  }

  /** What the search is entitled to rely on for its matches to be real. */
  ghost predicate Sound(p: Params, table: seq<nat>) {
    && p.Advances()
    && (p.dict == UsingExtDict ==> ClearOfDictEnd(table, p))
  }

  lemma SoundKept(t0: seq<nat>, t1: seq<nat>, p: Params)
    requires Sound(p, t0) && OnlyNewPositions(t0, t1, p)
    ensures Sound(p, t1)
  {
  }

  /** LZ4_putPosition: stores an index, truncated to the width of the entry. */
  method PutOnHash(table: array<nat>, p: Params, h: nat, pos: int)
    requires table.Length == TableSize(p.tableType) && h < table.Length
    requires p.currentOffset <= 0x8000_0000 && p.n <= LZ4_MAX_INPUT_SIZE && (p.tableType == ByU16 ==> p.dict == NoDict && p.n < LIMIT64K)
    requires p.src <= pos <= p.Mflimit()
    modifies table
    ensures table[h] == pos - p.Base()
    ensures forall i :: 0 <= i < table.Length && i != h ==> table[i] == old(table[i])
    ensures OnlyNewPositions(old(table[..]), table[..], p)
  {
    table[h] := (pos - p.Base()) % (if p.tableType == ByU16 then 0x1_0000 else TWO32);
  }

  method PutPosition(mem: array<byte>, table: array<nat>, p: Params, pos: nat)
    requires p.Readable(mem.Length) && table.Length == TableSize(p.tableType)
    requires p.src <= pos <= p.Mflimit()
    modifies table
    ensures forall i :: 0 <= i < table.Length && i != HashPosition(mem[..], pos, p.tableType) ==> table[i] == old(table[i])
    ensures table[HashPosition(mem[..], pos, p.tableType)] == pos - p.Base()
    ensures OnlyNewPositions(old(table[..]), table[..], p)
  {
    PutOnHash(table, p, HashPosition(mem[..], pos, p.tableType), pos);
  }

  /** Virtual address `v` is in reach of position `ip`. */
  ghost predicate InReach(p: Params, ip: nat, v: int, size: nat) {
    && p.Lo() <= v <= ip && ip - v <= MAX_DISTANCE && p.src <= ip && ip + 4 <= p.Iend()
    && 0 <= p.Addr(v) && p.Addr(v) + 4 <= size
  }

  /** A candidate with virtual address `v` for position `ip`: in reach, and its first four
      bytes agree. */
  ghost predicate Candidate(m: seq<byte>, p: Params, ip: nat, v: int)
    requires p.Readable(|m|)
  {
    InReach(p, ip, v, |m|) && Agree(m, ip, p.Addr(v), 4)
  }

  /** A candidate accepted by the search conditions. */
  method Accept(mem: array<byte>, p: Params, ip: nat, v: int) returns (ok: bool)
    requires p.Readable(mem.Length) && p.src < ip <= p.Mflimit()
    requires p.Base() <= v <= ip
    ensures ok ==> Candidate(mem[..], p, ip, v)
    ensures !ok && p.Lo() <= v && ip - v <= MAX_DISTANCE ==> !Agree(mem[..], ip, p.Addr(v), 4)
  {
    hide Agree, Word;
    if p.dictSmall && v < p.Lo() {
      return false;
    }
    if p.tableType != ByU16 && v + MAX_DISTANCE < ip {
      return false;
    }
    WordsEqual(mem[..], ip, p.Addr(v), 4);
    ok := Word(mem[..], p.Addr(v), 4) == Word(mem[..], ip, 4);
  }

  /** A search counter that starts at `64 * a` and is about to wrap around has been advanced
      so often that the search has left any source of supported size. */
  lemma FullWrapIsFar(a: nat)
    requires 1 <= a < 0x400_0000
    ensures (SKIP_TRIGGER * (0x400_0000 - a) - 1) * a > LZ4_MAX_INPUT_SIZE
  {
    var b := 0x400_0000 - a;
    ProductAtLeast(a, b);
    assert (SKIP_TRIGGER * b - 1) * a == SKIP_TRIGGER * (a * b) - a;
  }

  lemma CounterCannotWrap(nb0: nat, steps: nat, gone: nat)
    requires nb0 % SKIP_TRIGGER == 0 && 0 < nb0 && nb0 + steps <= TWO32 && steps >= 1
    requires gone >= 1 + (steps - 1) * (nb0 / SKIP_TRIGGER)
    requires gone <= LZ4_MAX_INPUT_SIZE
    ensures nb0 + steps < TWO32
  {
    var a := nb0 / SKIP_TRIGGER;
    FullWrapIsFar(a);
    assert nb0 + steps == TWO32 ==> steps - 1 == SKIP_TRIGGER * (0x400_0000 - a) - 1;
  }

  lemma ProductAtLeast(a: nat, b: nat)
    requires a >= 1 && b >= 1
    ensures a * b >= a + b - 1
  {
    assert (a - 1) * (b - 1) >= 0;
    assert (a - 1) * (b - 1) == a * b - a - b + 1;
  }

  /** The state of a search after `steps` steps, as long as its counter is not stuck at 0. */
  ghost predicate Marching(p: Params, start: nat, steps: nat, forwardIp: nat, step: nat, nb: nat) {
    var nb0 := p.FirstSearchNb();
    p.Advances() ==>
      && nb == nb0 + steps < TWO32
      && (steps == 0 ==> step == 1 && forwardIp == start)
      && (steps >= 1 ==> step >= nb0 / SKIP_TRIGGER && forwardIp - start >= 1 + (steps - 1) * (nb0 / SKIP_TRIGGER))
  }

  lemma MarchStart(p: Params, start: nat)
    ensures Marching(p, start, 0, start, 1, p.FirstSearchNb())
  {
  }

  lemma MarchOn(p: Params, start: nat, steps: nat, forwardIp: nat, step: nat, nb: nat)
    requires Marching(p, start, steps, forwardIp, step, nb) && nb < TWO32
    requires start <= forwardIp && forwardIp + step - start <= LZ4_MAX_INPUT_SIZE
    ensures Marching(p, start, steps + 1, forwardIp + step, nb / SKIP_TRIGGER, (nb + 1) % TWO32)
    ensures p.Advances() ==> step >= 1
  {
    var nb0 := p.FirstSearchNb();
    if p.Advances() {
      assert nb0 % SKIP_TRIGGER == 0;
      if steps >= 1 {
        assert (steps - 1) * (nb0 / SKIP_TRIGGER) + nb0 / SKIP_TRIGGER == steps * (nb0 / SKIP_TRIGGER);
      }
      CounterCannotWrap(nb0, steps + 1, forwardIp + step - start);
    }
  }

  /** Where the bytes of candidate `v` stand relative to its virtual address, and how far back
      it may be extended. */
  method Locate(p: Params, v: int) returns (refDelta: int, lowLimit: int)
    ensures p.Addr(v) == v + refDelta
    ensures lowLimit == if p.dict == UsingExtDict && v < p.src then p.dictionary
                        else if p.dict == WithPrefix64k then p.src - p.dictSize else p.src
  {
    if p.dict == UsingExtDict && v < p.src {
      return p.DictEnd() - p.src, p.dictionary;
    }
    return 0, if p.dict == WithPrefix64k then p.src - p.dictSize else p.src;
  }

  /** The very first table entry looked at is a good one. */
  ghost predicate FirstTry(m: seq<byte>, table: seq<nat>, p: Params, start: nat)
    requires p.Readable(|m|) && |table| == TableSize(p.tableType) && p.src < start <= p.Mflimit() + 1
  {
    start < p.Mflimit() && Candidate(m, p, start, p.Base() + table[HashPosition(m, start, p.tableType)])
  }

  /** A search whose counter starts at 0 stops moving after one step, and then finds the
      position it has just entered itself. */
  ghost predicate Stalling(m: seq<byte>, table: seq<nat>, p: Params, start: nat, steps: nat,
                           forwardIp: nat, step: nat, nb: nat)
    requires p.Readable(|m|) && |table| == TableSize(p.tableType) && forwardIp <= p.Mflimit() + 1
  {
    !p.Advances() ==>
      && (steps == 0 ==> forwardIp == start && step == 1 && nb == 0)
      && (steps >= 1 ==> forwardIp == start + 1 && step == 0 && nb == steps)
      && (steps >= 2 ==> p.Base() + table[HashPosition(m, forwardIp, p.tableType)] == forwardIp)
      && steps <= 2
  }

  lemma AcceptIff(m: seq<byte>, p: Params, ip: nat, v: int, ok: bool)
    requires p.Readable(|m|) && p.src < ip <= p.Mflimit() && p.Base() <= v <= ip
    requires ok ==> Candidate(m, p, ip, v)
    requires !ok && p.Lo() <= v && ip - v <= MAX_DISTANCE ==> !Agree(m, ip, p.Addr(v), 4)
    ensures ok <==> Candidate(m, p, ip, v)
    ensures v == ip ==> ok
  {
    if v == ip {
      assert Agree(m, ip, p.Addr(v), 4);
    }
  }

  lemma StallStart(m: seq<byte>, table: seq<nat>, p: Params, start: nat)
    requires p.Readable(|m|) && |table| == TableSize(p.tableType) && start <= p.Mflimit() + 1
    ensures Stalling(m, table, p, start, 0, start, 1, p.FirstSearchNb())
  {
  }

  lemma NoFirstTry(m: seq<byte>, table: seq<nat>, p: Params, start: nat, steps: nat, forwardIp: nat, step: nat, nb: nat)
    requires p.Readable(|m|) && |table| == TableSize(p.tableType) && p.src < start <= forwardIp <= p.Mflimit() + 1
    requires Stalling(m, table, p, start, steps, forwardIp, step, nb)
    requires forwardIp + step > p.Mflimit() && (steps == 0 ==> step == 1 && forwardIp == start)
    ensures steps == 0 ==> !FirstTry(m, table, p, start)
    ensures p.Advances() || start >= p.Mflimit()
  {
    hide Candidate, HashPosition;
  }

  lemma FirstTryIs(m: seq<byte>, table: seq<nat>, p: Params, start: nat, v: int, ok: bool)
    requires p.Readable(|m|) && |table| == TableSize(p.tableType) && p.src < start < p.Mflimit()
    requires v == p.Base() + table[HashPosition(m, start, p.tableType)]
    requires ok <==> Candidate(m, p, start, v)
    ensures ok <==> FirstTry(m, table, p, start)
  {
    hide Candidate, HashPosition;
  }

  lemma StallStep(m: seq<byte>, t: seq<nat>, t': seq<nat>, p: Params, start: nat, steps: nat,
                  ip: nat, forwardIp: nat, step: nat, nb: nat, ok: bool)
    requires p.Readable(|m|) && |t| == |t'| == TableSize(p.tableType) && start <= ip <= forwardIp <= p.Mflimit()
    requires Stalling(m, t, p, start, steps, ip, forwardIp - ip, if nb == 0 then TWO32 - 1 else nb - 1)
    requires step == (if nb == 0 then TWO32 - 1 else nb - 1) / SKIP_TRIGGER
    requires t'[HashPosition(m, ip, p.tableType)] == ip - p.Base()
    requires p.Base() + t[HashPosition(m, ip, p.tableType)] == ip ==> ok
    ensures !ok ==> Stalling(m, t', p, start, steps + 1, forwardIp, step, nb)
    ensures !p.Advances() ==> ip <= start + 1
  {
    hide HashPosition;
  }

  /** One step of the search: look up the candidate for `ip`, enter `ip` in its place, prepare
      the hash of the next position. */
  method SearchStep(mem: array<byte>, table: array<nat>, p: Params, h: nat, ip: nat, next: nat)
    returns (ok: bool, v: int, forwardH: nat)
    requires p.Readable(mem.Length) && table.Length == TableSize(p.tableType)
    requires p.src < ip <= p.Mflimit() && p.src <= next <= p.Mflimit() && h == HashPosition(mem[..], ip, p.tableType)
    requires Below(table[..], ip - p.Base() + if p.Advances() then 0 else 1)
    modifies table
    ensures forwardH == HashPosition(mem[..], next, p.tableType) && v == p.Base() + old(table[h])
    ensures table[h] == ip - p.Base() && OnlyNewPositions(old(table[..]), table[..], p)
    ensures Below(table[..], ip + 1 - p.Base())
    ensures ok <==> Candidate(mem[..], p, ip, v)
    ensures v == ip ==> ok
    ensures ok ==> Candidate(mem[..], p, ip, v) && (Sound(p, old(table[..])) ==> Whole(p, ip, v))
    ensures p.Advances() ==> v < ip
  {
    hide HashPosition, Candidate, Agree, OnlyNewPositions, ClearOfDictEnd, p.FirstSearchNb;
    ghost var t0 := table[..];
    v := p.Base() + table[h];
    forwardH := HashPosition(mem[..], next, p.tableType);
    PutOnHash(table, p, h, ip);
    ok := Accept(mem, p, ip, v);
    AcceptIff(mem[..], p, ip, v, ok);
    if ok && Sound(p, t0) && p.dict == UsingExtDict && v < p.src {
      CandidateInReach(mem[..], p, ip, v);
      OnlyNewPositionsRefl(t0, p);
      ClearCandidate(t0, t0, p, h, v);
    }
  }

  /** The candidate lies before `ip` and does not straddle the end of an external dictionary. */
  ghost predicate Whole(p: Params, ip: nat, v: int) {
    v < ip && (p.dict == UsingExtDict && v < p.src ==> v + MINMATCH <= p.src)
  }

  /** The skipping search: from `start` on, until a position with an acceptable candidate is
      found or the end of the searchable source is reached. */
  method FindMatch(mem: array<byte>, table: array<nat>, p: Params, start: nat)
    returns (found: bool, ip: nat, v: int)
    requires p.Readable(mem.Length) && table.Length == TableSize(p.tableType)
    requires p.src < start <= p.Mflimit() + 1
    requires Below(table[..], start - p.Base())
    modifies table
    ensures OnlyNewPositions(old(table[..]), table[..], p)
    ensures found ==> start <= ip <= p.Mflimit() && Candidate(mem[..], p, ip, v)
    ensures found ==> Below(table[..], ip + 1 - p.Base())
    ensures found && Sound(p, old(table[..])) ==> Whole(p, ip, v)
    ensures found ==> FromTable(old(table[..]), p, v) && (p.Advances() ==> v < ip)
    ensures FirstTry(mem[..], old(table[..]), p, start) ==>
      found && ip == start && v == p.Base() + old(table[..])[HashPosition(mem[..], start, p.tableType)]
    ensures !p.Advances() && start < p.Mflimit() ==> found && ip <= start + 1
    ensures start >= p.Mflimit() ==> !found
  {
    hide Candidate, HashPosition, OnlyNewPositions, FirstTry, Sound, Whole, Searching, FromTable, p.FirstSearchNb;
    ghost var t0, m := table[..], mem[..];
    ghost var steps := 0;
    var forwardIp := start;
    var forwardH := HashPosition(mem[..], forwardIp, p.tableType);
    var step: nat, nb: nat := 1, p.FirstSearchNb();
    SearchingStart(m, t0, p, start);
    while true
      invariant forwardIp <= p.Mflimit() + 1 && forwardH == HashPosition(m, forwardIp, p.tableType)
      invariant Searching(m, t0, table[..], p, start, steps, forwardIp, step, nb)
      decreases p.Mflimit() + 1 - forwardIp, if step == 0 then 100 - nb else 0
    {
      SearchingBounds(m, t0, table[..], p, start, steps, forwardIp, step, nb);
      ip := forwardIp;
      forwardIp := forwardIp + step;
      if forwardIp > p.Mflimit() {
        return false, ip, 0;
      }
      var ok;
      ok, v, forwardH := TryPosition(mem, table, p, forwardH, ip, forwardIp, start, steps, step, nb, t0);
      if ok {
        return true, ip, v;
      }
      step, nb, steps := nb / SKIP_TRIGGER, (nb + 1) % TWO32, steps + 1;
    }
  }

  /** The state of the search between two steps. */
  ghost predicate Searching(m: seq<byte>, t0: seq<nat>, t: seq<nat>, p: Params, start: nat, steps: nat,
                            forwardIp: nat, step: nat, nb: nat)
    requires p.Readable(|m|) && |t0| == |t| == TableSize(p.tableType) && p.src < start <= p.Mflimit() + 1
  {
    && start <= forwardIp <= p.Mflimit() + 1 && nb < TWO32
    && Marching(p, start, steps, forwardIp, step, nb) && Stalling(m, t, p, start, steps, forwardIp, step, nb)
    && (step == 0 ==> nb <= SKIP_TRIGGER)
    && Below(t, forwardIp - p.Base() + if p.Advances() then 0 else 1) && OnlyNewPositions(t0, t, p)
    && (steps == 0 ==> step == 1 && t == t0 && forwardIp == start)
    && (steps > 0 ==> !FirstTry(m, t0, p, start) && start < p.Mflimit())
  }

  lemma SearchingStart(m: seq<byte>, t: seq<nat>, p: Params, start: nat)
    requires p.Readable(|m|) && |t| == TableSize(p.tableType) && p.src < start <= p.Mflimit() + 1
    requires Below(t, start - p.Base())
    ensures Searching(m, t, t, p, start, 0, start, 1, p.FirstSearchNb())
  {
    hide FirstTry, HashPosition, Marching, Stalling;
    MarchStart(p, start);
    StallStart(m, t, p, start);
    OnlyNewPositionsRefl(t, p);
  }

  lemma SearchingBounds(m: seq<byte>, t0: seq<nat>, t: seq<nat>, p: Params, start: nat, steps: nat,
                        forwardIp: nat, step: nat, nb: nat)
    requires p.Readable(|m|) && |t0| == |t| == TableSize(p.tableType) && p.src < start <= p.Mflimit() + 1
    requires Searching(m, t0, t, p, start, steps, forwardIp, step, nb)
    ensures start <= forwardIp && nb < TWO32 && (step == 0 ==> nb <= SKIP_TRIGGER) && OnlyNewPositions(t0, t, p)
    ensures forwardIp + step > p.Mflimit() ==>
      !FirstTry(m, t0, p, start) && (p.Advances() || start >= p.Mflimit())
  {
    hide FirstTry, HashPosition, Marching, OnlyNewPositions;
    if forwardIp + step > p.Mflimit() {
      NoFirstTry(m, t, p, start, steps, forwardIp, step, nb);
    }
  }

  /** One round of the search, at position `ip`; the next one is going to be `next`. */
  method TryPosition(mem: array<byte>, table: array<nat>, p: Params, h: nat, ip: nat, next: nat,
                     ghost start: nat, ghost steps: nat, ghost step: nat, ghost nb: nat, ghost t0: seq<nat>)
    returns (ok: bool, v: int, forwardH: nat)
    requires p.Readable(mem.Length) && table.Length == |t0| == TableSize(p.tableType) && p.src < start <= p.Mflimit() + 1
    requires Searching(mem[..], t0, table[..], p, start, steps, ip, step, nb)
    requires next == ip + step <= p.Mflimit() && h == HashPosition(mem[..], ip, p.tableType)
    modifies table
    ensures forwardH == HashPosition(mem[..], next, p.tableType) && OnlyNewPositions(t0, table[..], p)
    ensures !ok ==> Searching(mem[..], t0, table[..], p, start, steps + 1, next, nb / SKIP_TRIGGER, (nb + 1) % TWO32)
    ensures ok ==> Candidate(mem[..], p, ip, v) && Below(table[..], ip + 1 - p.Base())
    ensures ok && Sound(p, t0) ==> Whole(p, ip, v)
    ensures FromTable(t0, p, v) && (p.Advances() ==> v < ip)
    ensures FirstTry(mem[..], t0, p, start) ==>
      ok && ip == start && v == p.Base() + t0[HashPosition(mem[..], start, p.tableType)]
    ensures !p.Advances() ==> ip <= start + 1
  {
    hide Candidate, Word, HashPosition, Marching, OnlyNewPositions, FirstTry, Stalling, Sound, Whole, FromTable,
         p.FirstSearchNb;
    ghost var m, t1 := mem[..], table[..];
    NewOrOld(t0, t1, p, h);
    MarchOn(p, start, steps, ip, step, nb);
    if Sound(p, t0) {
      SoundKept(t0, t1, p);
    }
    ok, v, forwardH := SearchStep(mem, table, p, h, ip, next);
    OnlyNewPositionsCompose(t0, t1, table[..], p);
    StallStep(m, t1, table[..], p, start, steps, ip, next, nb / SKIP_TRIGGER, (nb + 1) % TWO32, ok);
    if steps == 0 {
      FirstTryIs(m, t0, p, start, v, ok);
    }
  }

  lemma CandidateInReach(m: seq<byte>, p: Params, ip: nat, v: int)
    requires p.Readable(|m|) && Candidate(m, p, ip, v)
    ensures InReach(p, ip, v, |m|)
  {
  }
}
