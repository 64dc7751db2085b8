/** XXH32 and XXH64: the one-shot hash as a function, the loops that compute it, and the
    streaming state, whose digest never depends on how the input was cut into updates. */
module XxHash {
  import opened BlockFormat
  import opened Memory
  import opened MatchCount

  datatype Width = W32 | W64

  /** Sizes, the five primes and the rotations of either width. */
  function Modulus(w: Width): (m: nat)
    ensures m > 0
  {
    if w == W32 then 0x1_0000_0000 else 0x1_0000_0000_0000_0000
  }

  function Lane(w: Width): nat { if w == W32 then 4 else 8 }
  function StripeSize(w: Width): (n: nat)
    ensures n > 0
  {
    4 * Lane(w)
  }

  function Prime(w: Width, i: nat): nat {
    match (w, i)
    case (W32, 1) => 2654435761
    case (W32, 2) => 2246822519
    case (W32, 3) => 3266489917
    case (W32, 4) => 668265263
    case (W32, _) => 374761393
    case (W64, 1) => 11400714785074694791
    case (W64, 2) => 14029467366897019727
    case (W64, 3) => 1609587929392839161
    case (W64, 4) => 9650029242287828579
    case (W64, _) => 2870177450012600261
  }

  function Shl(x: nat, n: nat): nat
    decreases n
  {
    if n == 0 then x else Shl(2 * x, n - 1)
  }

  function Shr(x: nat, n: nat): nat
    decreases n
  {
    if n == 0 then x else Shr(x / 2, n - 1)
  }

  function Rotl(w: Width, x: nat, r: nat): nat
    requires r <= 8 * Lane(w)
  {
    Shl(x, r) % Modulus(w) + Shr(x % Modulus(w), 8 * Lane(w) - r)
  }

  function Xor(a: nat, b: nat): nat
    decreases a + b
  {
    if a == 0 && b == 0 then 0 else (a + b) % 2 + 2 * Xor(a / 2, b / 2)
  }

  /** h ^= h >> n */
  function XorShift(h: nat, n: nat): nat { Xor(h, Shr(h, n)) }

  function Round(w: Width, acc: nat, input: nat): nat {
    Rotl(w, (acc + input * Prime(w, 2)) % Modulus(w), if w == W32 then 13 else 31) * Prime(w, 1) % Modulus(w)
  }

  // ---------------------------------------------------------------- the hash as a function

  /** The four accumulators. */
  datatype Acc = Acc(v1: nat, v2: nat, v3: nat, v4: nat)

  function Init(w: Width, seed: nat): Acc {
    var m := Modulus(w);
    Acc((seed + Prime(w, 1) + Prime(w, 2)) % m, (seed + Prime(w, 2)) % m, seed % m, (seed + m - Prime(w, 1) % m) % m)
  }

  function Stripe(w: Width, a: Acc, s: seq<byte>, p: nat): Acc
    requires p + StripeSize(w) <= |s|
  {
    var n := Lane(w);
    Acc(Round(w, a.v1, Word(s, p, n)), Round(w, a.v2, Word(s, p + n, n)),
        Round(w, a.v3, Word(s, p + 2 * n, n)), Round(w, a.v4, Word(s, p + 3 * n, n)))
  }

  /** The accumulators after all full stripes of the input. */
  function Stripes(w: Width, a: Acc, s: seq<byte>): Acc
    decreases |s|
  {
    if |s| < StripeSize(w) then a else Stripes(w, Stripe(w, a, s, 0), s[StripeSize(w)..])
  }

  /** How much of the input lies behind its last full stripe. */
  function Rest(w: Width, s: seq<byte>): (r: seq<byte>)
    ensures |r| < StripeSize(w) && |r| <= |s|
    decreases |s|
  {
    if |s| < StripeSize(w) then s else Rest(w, s[StripeSize(w)..])
  }

  function MergeRound(acc: nat, val: nat): nat {
    (Xor(acc, Round(W64, 0, val)) * Prime(W64, 1) + Prime(W64, 4)) % Modulus(W64)
  }

  function Converge(w: Width, a: Acc): nat {
    var h := (Rotl(w, a.v1, 1) + Rotl(w, a.v2, 7) + Rotl(w, a.v3, 12) + Rotl(w, a.v4, 18)) % Modulus(w);
    if w == W32 then h
    else MergeRound(MergeRound(MergeRound(MergeRound(h, a.v1), a.v2), a.v3), a.v4)
  }

  function Step8(h: nat, x: nat): nat {
    (Rotl(W64, Xor(h, Round(W64, 0, x)), 27) * Prime(W64, 1) + Prime(W64, 4)) % Modulus(W64)
  }

  function Step4(w: Width, h: nat, x: nat): nat {
    if w == W32 then Rotl(w, (h + x * Prime(w, 3)) % Modulus(w), 17) * Prime(w, 4) % Modulus(w)
    else (Rotl(w, Xor(h, x * Prime(w, 1) % Modulus(w)), 23) * Prime(w, 2) + Prime(w, 3)) % Modulus(w)
  }

  function Step1(w: Width, h: nat, x: nat): nat {
    if w == W32 then Rotl(w, (h + x * Prime(w, 5)) % Modulus(w), 11) * Prime(w, 1) % Modulus(w)
    else Rotl(w, Xor(h, x * Prime(w, 5) % Modulus(w)), 11) * Prime(w, 1) % Modulus(w)
  }

  /** The bytes behind the last stripe, eight, four and one at a time. */
  function Tail(w: Width, h: nat, s: seq<byte>, p: nat): nat
    requires p <= |s|
    decreases |s| - p
  {
    if w == W64 && p + 8 <= |s| then Tail(w, Step8(h, Word(s, p, 8)), s, p + 8)
    else if p + 4 <= |s| then Tail(w, Step4(w, h, Word(s, p, 4)), s, p + 4)
    else if p < |s| then Tail(w, Step1(w, h, s[p]), s, p + 1)
    else h
  }

  function Avalanche(w: Width, h: nat): nat {
    if w == W32 then XorShift(XorShift(XorShift(h, 15) * Prime(w, 2) % Modulus(w), 13) * Prime(w, 3) % Modulus(w), 16)
    else XorShift(XorShift(XorShift(h, 33) * Prime(w, 2) % Modulus(w), 29) * Prime(w, 3) % Modulus(w), 32)
  }

  /** What either digest makes of accumulators, total length and the bytes left. */
  function Finalize(w: Width, start: nat, length: nat, rest: seq<byte>): nat {
    Avalanche(w, Tail(w, (start + length) % Modulus(w), rest, 0))
  }

  /** XXH32 and XXH64 of a sequence of bytes. */
  function Hash(w: Width, s: seq<byte>, seed: nat): nat {
    Finalize(w, if |s| >= StripeSize(w) then Converge(w, Stripes(w, Init(w, seed), s)) else (seed + Prime(w, 5)) % Modulus(w),
             |s|, Rest(w, s))
  }

  function Pow2(n: nat): nat {
    if n == 0 then 1 else 2 * Pow2(n - 1)
  }

  lemma {:induction false} XorBelow(a: nat, b: nat, n: nat)
    requires a < Pow2(n) && b < Pow2(n)
    ensures Xor(a, b) < Pow2(n)
    decreases n
  {
    if n > 0 {
      XorBelow(a / 2, b / 2, n - 1);
    }
  }

  lemma {:induction false} ShrBelow(x: nat, n: nat)
    ensures Shr(x, n) <= x
    decreases n
  {
    if n > 0 {
      ShrBelow(x / 2, n - 1);
    }
  }

  lemma AvalancheFits(h: nat)
    ensures Avalanche(W32, h) < 0x1_0000_0000
  {
    hide Xor, Shr, Pow2;
    var x := XorShift(XorShift(h, 15) * Prime(W32, 2) % Modulus(W32), 13) * Prime(W32, 3) % Modulus(W32);
    ShrBelow(x, 16);
    Pow2Of32();
    XorBelow(x, Shr(x, 16), 32);
  }

  lemma Pow2Of32()
    ensures Pow2(32) == 0x1_0000_0000
  {
    Pow2Byte(0);
    Pow2Byte(8);
    Pow2Byte(16);
    Pow2Byte(24);
  }

  lemma Pow2Byte(n: nat)
    ensures Pow2(n + 8) == 256 * Pow2(n)
  {
    assert Pow2(n + 8) == 2 * Pow2(n + 7) == 4 * Pow2(n + 6) == 8 * Pow2(n + 5) == 16 * Pow2(n + 4);
    assert Pow2(n + 4) == 2 * Pow2(n + 3) == 4 * Pow2(n + 2) == 8 * Pow2(n + 1) == 16 * Pow2(n);
  }

  /** XXH32 is a 32-bit value. */
  lemma Hash32Fits(s: seq<byte>, seed: nat)
    ensures Hash(W32, s, seed) < 0x1_0000_0000
  {
    hide Avalanche, Tail, Stripes, Converge, Prime, Rest, Init;
    forall h: nat ensures Avalanche(W32, h) < 0x1_0000_0000 {
      AvalancheFits(h);
    }
  }

  // ---------------------------------------------------------------- laws of the stripes

  lemma {:induction false} StripesAppend(w: Width, a: Acc, s: seq<byte>, t: seq<byte>)
    requires |s| % StripeSize(w) == 0
    ensures Stripes(w, a, s + t) == Stripes(w, Stripes(w, a, s), t) && Rest(w, s + t) == Rest(w, t)
    decreases |s|
  {
    hide Stripe, Modulus, StripeSize;
    var n := StripeSize(w);
    if s == [] {
      assert s + t == t;
    } else {
      assert (s + t)[n..] == s[n..] + t;
      NotShort(w, |s|);
      StripeSame(w, a, s + t, 0, s, 0);
      StripesAppend(w, Stripe(w, a, s, 0), s[n..], t);
    }
  }

  lemma NotShort(w: Width, k: nat)
    requires k > 0 && k % StripeSize(w) == 0
    ensures k >= StripeSize(w) && (k - StripeSize(w)) % StripeSize(w) == 0
  {
    if w == W32 {
    } else {
    }
  }

  lemma StripeSame(w: Width, a: Acc, s: seq<byte>, p: nat, t: seq<byte>, q: nat)
    requires p + StripeSize(w) <= |s| && q + StripeSize(w) <= |t|
    requires forall i :: p <= i < p + StripeSize(w) ==> s[i] == t[i + (q - p)]
    ensures Stripe(w, a, s, p) == Stripe(w, a, t, q)
  {
    hide Round, Word;
    if w == W32 {
      FourWords(s, p, t, q, 4);
    } else {
      FourWords(s, p, t, q, 8);
    }
  }

  lemma FourWords(s: seq<byte>, p: nat, t: seq<byte>, q: nat, n: nat)
    requires n == 4 || n == 8
    requires p + 4 * n <= |s| && q + 4 * n <= |t| && forall i :: p <= i < p + 4 * n ==> s[i] == t[i + (q - p)]
    ensures Word(s, p, n) == Word(t, q, n) && Word(s, p + n, n) == Word(t, q + n, n)
    ensures Word(s, p + 2 * n, n) == Word(t, q + 2 * n, n) && Word(s, p + 3 * n, n) == Word(t, q + 3 * n, n)
  {
    hide Word;
    SameWord(s, p, t, q, n);
    SameWord(s, p + n, t, q + n, n);
    SameWord(s, p + 2 * n, t, q + 2 * n, n);
    SameWord(s, p + 3 * n, t, q + 3 * n, n);
  }

  lemma SumMultiple(w: Width, a: nat, b: nat)
    requires a % StripeSize(w) == 0 && b % StripeSize(w) == 0
    ensures (a + b) % StripeSize(w) == 0
  {
    if w == W32 {
    } else {
    }
  }

  lemma OneStripe(w: Width, a: Acc, s: seq<byte>, t: seq<byte>)
    requires |s| % StripeSize(w) == 0 && |t| == StripeSize(w)
    ensures Stripes(w, a, s + t) == Stripe(w, Stripes(w, a, s), t, 0) && (|s| + |t|) % StripeSize(w) == 0
  {
    hide Stripe;
    StripesAppend(w, a, s, t);
    SumMultiple(w, |s|, |t|);
    assert t[StripeSize(w)..] == [];
  }

  lemma ShortRest(w: Width, a: Acc, s: seq<byte>, t: seq<byte>)
    requires |s| % StripeSize(w) == 0 && |t| < StripeSize(w)
    ensures Stripes(w, a, s + t) == Stripes(w, a, s) && Rest(w, s + t) == t
  {
    hide Stripe;
    StripesAppend(w, a, s, t);
  }

  lemma {:induction false} TailSame(w: Width, h: nat, s: seq<byte>, p: nat, t: seq<byte>)
    requires p <= |s| && t == s[p..]
    ensures Tail(w, h, s, p) == Tail(w, h, t, 0)
    decreases |s| - p
  {
    hide Step8, Step4, Step1;
    TailShift(w, h, s, p, t, 0);
  }

  lemma {:induction false} TailShift(w: Width, h: nat, s: seq<byte>, p: nat, t: seq<byte>, q: nat)
    requires p <= |s| && q <= |t| && |s| - p == |t| - q && forall i :: p <= i < |s| ==> s[i] == t[i + (q - p)]
    ensures Tail(w, h, s, p) == Tail(w, h, t, q)
    decreases |s| - p
  {
    hide Step8, Step4, Step1;
    if w == W64 && p + 8 <= |s| {
      SameWord(s, p, t, q, 8);
      TailShift(w, Step8(h, Word(s, p, 8)), s, p + 8, t, q + 8);
    } else if p + 4 <= |s| {
      SameWord(s, p, t, q, 4);
      TailShift(w, Step4(w, h, Word(s, p, 4)), s, p + 4, t, q + 4);
    } else if p < |s| {
      TailShift(w, Step1(w, h, s[p]), s, p + 1, t, q + 1);
    }
  }

  // ---------------------------------------------------------------- the loops

  /** Runs over all full stripes at `p..bEnd`. */
  method StripeLoop(mem: array<byte>, w: Width, a0: Acc, p: nat, bEnd: nat) returns (a: Acc, q: nat)
    requires p <= bEnd <= mem.Length
    ensures p <= q <= bEnd && bEnd - q < StripeSize(w) && (q - p) % StripeSize(w) == 0
    ensures a == Stripes(w, a0, mem[p..q])
  {
    hide Stripe, Stripes;
    a, q := a0, p;
    NoStripe(w, a0, mem[p..q]);
    while q + StripeSize(w) <= bEnd
      invariant p <= q <= bEnd && (q - p) % StripeSize(w) == 0 && a == Stripes(w, a0, mem[p..q])
    {
      ghost var t := mem[q..q + StripeSize(w)];
      StripeSame(w, a, mem[..], q, t, 0);
      OneStripe(w, a0, mem[p..q], t);
      assert mem[p..q] + t == mem[p..q + StripeSize(w)];
      a := Stripe(w, a, mem[..], q);
      q := q + StripeSize(w);
    }
  }

  lemma NoStripe(w: Width, a: Acc, s: seq<byte>)
    requires s == []
    ensures Stripes(w, a, s) == a
  {
  }

  /** Runs over the bytes left at `p..bEnd`. */
  method TailLoop(mem: array<byte>, w: Width, h0: nat, p: nat, bEnd: nat) returns (h: nat)
    requires p <= bEnd <= mem.Length
    ensures h == Tail(w, h0, mem[p..bEnd], 0)
  {
    hide Step8, Step4, Step1, Word;
    ghost var s := mem[..bEnd];
    TailSame(w, h0, s, p, mem[p..bEnd]);
    h := h0;
    var q := p;
    while w == W64 && q + 8 <= bEnd
      invariant p <= q <= bEnd && Tail(w, h, s, q) == Tail(w, h0, s, p)
    {
      SameWord(s, q, mem[..], q, 8);
      h, q := Step8(h, Word(mem[..], q, 8)), q + 8;
    }
    while q + 4 <= bEnd
      invariant p <= q <= bEnd && Tail(w, h, s, q) == Tail(w, h0, s, p) && (w == W64 ==> bEnd - q < 8)
    {
      SameWord(s, q, mem[..], q, 4);
      h, q := Step4(w, h, Word(mem[..], q, 4)), q + 4;
    }
    while q < bEnd
      invariant p <= q <= bEnd && Tail(w, h, s, q) == Tail(w, h0, s, p) && bEnd - q < 4
    {
      h, q := Step1(w, h, mem[q]), q + 1;
    }
  }

  lemma HashIs(w: Width, s: seq<byte>, seed: nat, done: seq<byte>, rest: seq<byte>)
    requires s == done + rest && |done| % StripeSize(w) == 0 && |rest| < StripeSize(w)
    ensures Hash(w, s, seed)
         == Finalize(w, if |s| >= StripeSize(w) then Converge(w, Stripes(w, Init(w, seed), done))
                        else (seed + Prime(w, 5)) % Modulus(w), |s|, rest)
  {
    hide Finalize, Converge, Stripes, Init;
    ShortRest(w, Init(w, seed), done, rest);
  }

  lemma FinalizeIs(w: Width, start: nat, length: nat, rest: seq<byte>)
    ensures Finalize(w, start, length, rest) == Avalanche(w, Tail(w, (start + length) % Modulus(w), rest, 0))
    ensures Finalize(w, start, length % Modulus(w), rest) == Finalize(w, start, length, rest)
  {
    hide Tail, Avalanche;
    ModSum(start, length, w);
  }

  lemma ModSum(a: nat, b: nat, w: Width)
    ensures (a + b % Modulus(w)) % Modulus(w) == (a + b) % Modulus(w)
    ensures (a % Modulus(w) + b) % Modulus(w) == (a + b) % Modulus(w)
  {
    if w == W32 {
      ModSum32(a, b);
      ModSum32(b, a);
    } else {
      ModSum64(a, b);
      ModSum64(b, a);
    }
  }

  lemma ModSum32(a: nat, b: nat)
    ensures (a + b % 0x1_0000_0000) % 0x1_0000_0000 == (a + b) % 0x1_0000_0000
  {
  }

  lemma ModSum64(a: nat, b: nat)
    ensures (a + b % 0x1_0000_0000_0000_0000) % 0x1_0000_0000_0000_0000 == (a + b) % 0x1_0000_0000_0000_0000
  {
  }

  /** XXH32 and XXH64. */
  method OneShot(mem: array<byte>, w: Width, input: nat, len: nat, seed: nat) returns (h: nat)
    requires input + len <= mem.Length
    ensures h == Hash(w, mem[input..input + len], seed)
  {
    hide Tail, Stripes, Converge, Init, Prime, Avalanche, Modulus, Hash, Finalize, Rest;
    var p, bEnd, start := input, input + len, 0;
    if len >= StripeSize(w) {
      var a;
      a, p := StripeLoop(mem, w, Init(w, seed), p, bEnd);
      start := Converge(w, a);
    } else {
      start := (seed + Prime(w, 5)) % Modulus(w);
    }
    ghost var done, rest := mem[input..p], mem[p..bEnd];
    assert done + rest == mem[input..bEnd];
    HashIs(w, mem[input..bEnd], seed, done, rest);
    FinalizeIs(w, start, len, rest);
    h := TailLoop(mem, w, (start + len) % Modulus(w), p, bEnd);
    h := Avalanche(w, h);
  }

  // ---------------------------------------------------------------- streaming

  /** XXH32_state_t and XXH64_state_t. */
  class HashState {
    const w: Width
    const buffer: array<byte>
    var totalLen: nat
    var largeLen: bool
    var acc: Acc
    var memSize: nat
    ghost var seed: nat
    ghost var seen: seq<byte>          // everything hashed so far

    ghost predicate Valid()
      reads this, buffer
    {
      && buffer.Length == StripeSize(w) && memSize < StripeSize(w) && memSize <= |seen|
      && Buffered(w, seed, seen, acc, buffer[..memSize])
      && totalLen == |seen| % Modulus(w) && largeLen == (|seen| >= StripeSize(w))
    }

    constructor (w: Width)
      ensures this.w == w && fresh(buffer) && buffer.Length == StripeSize(w)
    {
      this.w := w;
      buffer := new byte[StripeSize(w)];
      acc := Acc(0, 0, 0, 0);
    }

    method Reset(seed: nat)
      requires buffer.Length == StripeSize(w)
      modifies this
      ensures Valid() && this.seed == seed && seen == []
    {
      hide Init, Stripes;
      totalLen, largeLen, acc, memSize := 0, false, Init(w, seed), 0;
      this.seed, seen := seed, [];
      NothingBuffered(w, seed);
      assert buffer[..memSize] == [];
    }

    /** XXH32_update and XXH64_update. */
    method Update(mem: array<byte>, input: nat, len: nat)
      requires Valid() && input + len <= mem.Length && mem != buffer
      modifies this, buffer
      ensures Valid() && seed == old(seed) && seen == old(seen) + mem[input..input + len]
    {
      hide Buffered, Modulus;
      ghost var s, t, old_ := seen, mem[input..input + len], buffer[..memSize];
      ModSum(len, |s|, w);
      totalLen := (totalLen + len) % Modulus(w);
      largeLen := largeLen || len >= StripeSize(w) || totalLen >= StripeSize(w);
      SmallTotal(w, |s|, len);
      seen := s + t;
      if memSize + len < StripeSize(w) {
        Store(mem, input, len);
        BufferMore(w, seed, s, acc, old_, t);
        memSize := memSize + len;
        return;
      }
      Absorb(mem, input, input + len, s);
    }

    /** Takes in everything up to `bEnd`, which completes at least one stripe. */
    method Absorb(mem: array<byte>, input: nat, bEnd: nat, ghost s: seq<byte>)
      requires buffer.Length == StripeSize(w) && memSize < StripeSize(w) && Buffered(w, seed, s, acc, buffer[..memSize])
      requires input <= bEnd <= mem.Length && mem != buffer && memSize + (bEnd - input) >= StripeSize(w)
      modifies `acc, `memSize, buffer
      ensures memSize < StripeSize(w) && Buffered(w, seed, s + mem[input..bEnd], acc, buffer[..memSize])
    {
      hide Buffered, Stripe, Stripes, Init;
      BufferedSplit(w, seed, s, acc, buffer[..memSize]);
      ghost var done := s[..|s| - memSize];
      var p := input;
      if memSize > 0 {
        var n := StripeSize(w) - memSize;
        ghost var old_ := buffer[..memSize];
        Store(mem, input, n);
        assert buffer[..] == buffer[..memSize + n] == old_ + mem[input..input + n];
        StripeDone(w, seed, done, acc, buffer[..]);
        acc := Stripe(w, acc, buffer[..], 0);
        done := done + buffer[..];
        p, memSize := p + n, 0;
        assert done == s + mem[input..p];
      }
      assert done + mem[p..bEnd] == s + mem[input..bEnd];
      Bulk(mem, p, bEnd, done);
    }

    /** Takes in full stripes and buffers what is left. */
    method Bulk(mem: array<byte>, p: nat, bEnd: nat, ghost done: seq<byte>)
      requires buffer.Length == StripeSize(w) && memSize == 0 && p <= bEnd <= mem.Length && mem != buffer
      requires |done| % StripeSize(w) == 0 && acc == Stripes(w, Init(w, seed), done)
      modifies `acc, `memSize, buffer
      ensures memSize < StripeSize(w) && Buffered(w, seed, done + mem[p..bEnd], acc, buffer[..memSize])
    {
      hide Buffered, Stripes, Init;
      ghost var a0 := acc;
      var q;
      acc, q := StripeLoop(mem, w, acc, p, bEnd);
      Store(mem, q, bEnd - q);
      memSize := bEnd - q;
      assert buffer[..memSize] == mem[q..bEnd];
      assert (done + mem[p..q]) + mem[q..bEnd] == done + mem[p..bEnd];
      BufferAll(w, seed, done, mem[p..q], mem[q..bEnd], a0, acc);
    }

    /** Copies input behind what is buffered. */
    method Store(mem: array<byte>, input: nat, n: nat)
      requires input + n <= mem.Length && memSize + n <= buffer.Length && mem != buffer
      modifies buffer
      ensures buffer[..memSize + n] == old(buffer[..memSize]) + mem[input..input + n]
    {
      forall i | 0 <= i < n {
        buffer[memSize + i] := mem[input + i];
      }
    }

    /** XXH32_digest and XXH64_digest: the hash of everything seen, whatever the updates were;
        for the narrow width also when its length counter has wrapped around. */
    method Digest() returns (h: nat)
      requires Valid() && (w == W64 ==> |seen| < Modulus(W64))
      ensures h == Hash(w, seen, seed)
    {
      hide Tail, Stripes, Converge, Prime, Avalanche, Modulus, Hash, Finalize, Buffered, Rest, StripeSize;
      var large := if w == W32 then largeLen else totalLen >= StripeSize(w);
      var start := if large then Converge(w, acc) else (acc.v3 + Prime(w, 5)) % Modulus(w);
      if w == W64 {
        SmallModulus(w, |seen|);
      }
      BufferedSplit(w, seed, seen, acc, buffer[..memSize]);
      DigestIs(w, seed, seen, acc, buffer[..memSize], start);
      FinalizeIs(w, start, |seen|, buffer[..memSize]);
      FinalizeIs(w, start, totalLen, buffer[..memSize]);
      h := TailLoop(buffer, w, (start + totalLen) % Modulus(w), 0, memSize);
      h := Avalanche(w, h);
    }
  }

  /** The accumulators have taken all of `seen` but its end, which is buffered. */
  ghost predicate Buffered(w: Width, seed: nat, seen: seq<byte>, acc: Acc, rest: seq<byte>) {
    && |rest| <= |seen| && seen[|seen| - |rest|..] == rest
    && (|seen| - |rest|) % StripeSize(w) == 0 && acc == Stripes(w, Init(w, seed), seen[..|seen| - |rest|])
  }

  lemma NothingBuffered(w: Width, seed: nat)
    ensures Buffered(w, seed, [], Init(w, seed), [])
  {
    hide Init;
  }

  lemma BufferMore(w: Width, seed: nat, s: seq<byte>, acc: Acc, rest: seq<byte>, t: seq<byte>)
    requires Buffered(w, seed, s, acc, rest)
    ensures Buffered(w, seed, s + t, acc, rest + t)
  {
    hide Init, Stripes;
    assert (s + t)[..|s| - |rest|] == s[..|s| - |rest|];
  }

  lemma BufferedSplit(w: Width, seed: nat, s: seq<byte>, acc: Acc, rest: seq<byte>)
    requires Buffered(w, seed, s, acc, rest)
    ensures |rest| <= |s| && s == s[..|s| - |rest|] + rest
    ensures (|s| - |rest|) % StripeSize(w) == 0 && acc == Stripes(w, Init(w, seed), s[..|s| - |rest|])
  {
    hide Init, Stripes;
  }

  lemma StripeDone(w: Width, seed: nat, done: seq<byte>, acc: Acc, t: seq<byte>)
    requires |done| % StripeSize(w) == 0 && acc == Stripes(w, Init(w, seed), done) && |t| == StripeSize(w)
    ensures Stripe(w, acc, t, 0) == Stripes(w, Init(w, seed), done + t) && |done + t| % StripeSize(w) == 0
  {
    hide Init, Stripes, Stripe;
    OneStripe(w, Init(w, seed), done, t);
  }

  lemma BufferAll(w: Width, seed: nat, done: seq<byte>, more: seq<byte>, rest: seq<byte>, a0: Acc, a: Acc)
    requires |done| % StripeSize(w) == 0 && |more| % StripeSize(w) == 0
    requires a0 == Stripes(w, Init(w, seed), done) && a == Stripes(w, a0, more)
    ensures Buffered(w, seed, (done + more) + rest, a, rest)
  {
    hide Init, Stripes, StripeSize, Rest;
    StripesAppend(w, Init(w, seed), done, more);
    SumMultiple(w, |done|, |more|);
    var s := (done + more) + rest;
    assert s[..|s| - |rest|] == done + more;
  }

  /** Whether sixteen bytes have been seen shows in the wrapped length as long as it matters. */
  lemma SmallTotal(w: Width, before: nat, len: nat)
    ensures (before + len >= StripeSize(w))
         <==> before >= StripeSize(w) || len >= StripeSize(w) || (before % Modulus(w) + len) % Modulus(w) >= StripeSize(w)
  {
    ModSum(len, before, w);
  }

  lemma SmallModulus(w: Width, n: nat)
    requires n < Modulus(w)
    ensures n % Modulus(w) == n
  {
  }

  lemma DigestIs(w: Width, seed: nat, seen: seq<byte>, acc: Acc, rest: seq<byte>, start: nat)
    requires Buffered(w, seed, seen, acc, rest) && |rest| < StripeSize(w)
    requires start == if |seen| >= StripeSize(w) then Converge(w, acc) else (acc.v3 + Prime(w, 5)) % Modulus(w)
    ensures Hash(w, seen, seed) == Finalize(w, start, |seen|, rest)
  {
    hide Finalize, Converge, Stripes, Modulus, Hash, Prime;
    var done := seen[..|seen| - |rest|];
    assert seen == done + rest;
    HashIs(w, seen, seed, done, rest);
    if |seen| < StripeSize(w) {
      assert done == [] by { Multiple(|done|, StripeSize(w)); }
      NoStripe(w, Init(w, seed), done);
      ModSum(Prime(w, 5), seed, w);
    }
  }

  lemma Multiple(n: nat, m: nat)
    requires m > 0 && n < m && n % m == 0
    ensures n == 0
  {
  }
}
