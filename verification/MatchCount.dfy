/** LZ4_count: how far two positions of memory agree, found eight bytes at a time. */
module MatchCount {
  import opened BlockFormat
  import opened Memory

  /** The little-endian value of `n` bytes of memory. */
  function Word(m: seq<byte>, p: nat, n: nat): nat
    requires p + n <= |m|
    decreases n
  {
    if n == 0 then 0 else m[p] + 256 * Word(m, p + 1, n - 1)
  }

  /** LZ4_NbCommonBytes(a ^ b): on how many low-order bytes two different words agree. */
  function NbCommonBytes(a: nat, b: nat): nat
    requires a != b
    decreases a + b
  {
    if a % 256 != b % 256 then 0 else 1 + NbCommonBytes(a / 256, b / 256)
  }

  /** The `n` bytes at `p` equal those at `q`. */
  ghost predicate Agree(m: seq<byte>, p: nat, q: nat, n: nat)
    requires p + n <= |m| && q + n <= |m|
  {
    forall i :: p <= i < p + n ==> m[i] == m[i + (q - p)]
  }

  lemma WordSplit(m: seq<byte>, p: nat, n: nat)
    requires p + n <= |m| && n > 0
    ensures Word(m, p, n) % 256 == m[p] && Word(m, p, n) / 256 == Word(m, p + 1, n - 1)
  {
  }

  lemma {:induction false} SameWord(a: seq<byte>, p: nat, b: seq<byte>, q: nat, n: nat)
    requires p + n <= |a| && q + n <= |b| && forall i :: p <= i < p + n ==> a[i] == b[i + (q - p)]
    ensures Word(a, p, n) == Word(b, q, n)
    decreases n
  {
    if n > 0 {
      SameWord(a, p + 1, b, q + 1, n - 1);
    }
  }

  lemma {:induction false} WordsEqual(m: seq<byte>, p: nat, q: nat, n: nat)
    requires p + n <= |m| && q + n <= |m|
    ensures Word(m, p, n) == Word(m, q, n) <==> Agree(m, p, q, n)
    decreases n
  {
    if n > 0 {
      WordsEqual(m, p + 1, q + 1, n - 1);
      WordSplit(m, p, n);
      WordSplit(m, q, n);
      assert Agree(m, p, q, n) <==> m[p] == m[q] && Agree(m, p + 1, q + 1, n - 1);
    }
  }

  lemma {:induction false} NbCommonBytesCounts(m: seq<byte>, p: nat, q: nat, n: nat)
    requires p + n <= |m| && q + n <= |m|
    requires Word(m, p, n) != Word(m, q, n)
    ensures var c := NbCommonBytes(Word(m, p, n), Word(m, q, n));
            c < n && m[p + c] != m[q + c] && Agree(m, p, q, c)
    decreases n
  {
    if n > 0 {
      WordSplit(m, p, n);
      WordSplit(m, q, n);
      if m[p] == m[q] {
        NbCommonBytesCounts(m, p + 1, q + 1, n - 1);
      }
    }
  }

  lemma AgreeMore(m: seq<byte>, p: nat, q: nat, n: nat, n': nat)
    requires p + n + n' <= |m| && q + n + n' <= |m|
    requires Agree(m, p, q, n) && Agree(m, p + n, q + n, n')
    ensures Agree(m, p, q, n + n')
  {
  }

  lemma AgreeOne(m: seq<byte>, p: nat, q: nat)
    requires p < |m| && q < |m| && m[p] == m[q]
    ensures Agree(m, p, q, 1)
  {
  }

  lemma AgreeNone(m: seq<byte>, p: nat, q: nat)
    requires p <= |m| && q <= |m|
    ensures Agree(m, p, q, 0)
  {
  }

  /** How many bytes from `pIn` up to `limit` repeat those at `pMatch`: exactly up to the first
      difference.  A limit below `pIn` counts nothing. */
  method Count(mem: array<byte>, pIn: nat, pMatch: nat, limit: int) returns (n: nat)
    requires pIn <= mem.Length && pMatch <= mem.Length
    requires limit <= mem.Length && pMatch + (limit - pIn) <= mem.Length
    ensures if pIn <= limit then pIn + n <= limit else n == 0
    ensures Agree(mem[..], pIn, pMatch, n)
    ensures pIn + n < limit ==> mem[pIn + n] != mem[pMatch + n]
  {
    hide Agree, Word, NbCommonBytes;
    n := 0;
    AgreeNone(mem[..], pIn, pMatch);
    if limit < pIn {
      return;
    }
    while pIn + n < limit - 7
      invariant pIn + n <= limit && Agree(mem[..], pIn, pMatch, n)
    {
      var a, b := Word(mem[..], pMatch + n, 8), Word(mem[..], pIn + n, 8);
      if a != b {
        NbCommonBytesCounts(mem[..], pIn + n, pMatch + n, 8);
        var c := NbCommonBytes(b, a);
        AgreeMore(mem[..], pIn, pMatch, n, c);
        n := n + c;
        return;
      }
      WordsEqual(mem[..], pIn + n, pMatch + n, 8);
      AgreeMore(mem[..], pIn, pMatch, n, 8);
      n := n + 8;
    }
    n := CountTail(mem, pIn, pMatch, limit, n);
  }

  /** The last, fewer than eight, bytes of Count: four, two, one. */
  method CountTail(mem: array<byte>, pIn: nat, pMatch: nat, limit: int, n0: nat) returns (n: nat)
    requires limit <= mem.Length && pMatch + (limit - pIn) <= mem.Length
    requires limit - 7 <= pIn + n0 <= limit && Agree(mem[..], pIn, pMatch, n0)
    ensures pIn + n <= limit && Agree(mem[..], pIn, pMatch, n)
    ensures pIn + n < limit ==> mem[pIn + n] != mem[pMatch + n]
  {
    n := CountTailWord(mem, pIn, pMatch, limit, n0, 4);
    n := CountTailWord(mem, pIn, pMatch, limit, n, 2);
    hide Agree;
    if pIn + n < limit && mem[pMatch + n] == mem[pIn + n] {
      AgreeOne(mem[..], pIn + n, pMatch + n);
      AgreeMore(mem[..], pIn, pMatch, n, 1);
      n := n + 1;
    }
  }

  /** One `size`-byte step of the tail, taken when it fits and agrees.  A step that fits but
      differs leaves fewer than `size` agreeing bytes behind. */
  method CountTailWord(mem: array<byte>, pIn: nat, pMatch: nat, limit: int, n0: nat, size: nat) returns (n: nat)
    requires limit <= mem.Length && pMatch + (limit - pIn) <= mem.Length && size > 0
    requires pIn + n0 <= limit && Agree(mem[..], pIn, pMatch, n0)
    requires TailEndsWithin(mem[..], pIn + n0, pMatch + n0, limit, 2 * size)
    ensures pIn + n <= limit && Agree(mem[..], pIn, pMatch, n)
    ensures TailEndsWithin(mem[..], pIn + n, pMatch + n, limit, size)
  {
    n := n0;
    if pIn + n < limit - (size - 1) {
      WordsEqual(mem[..], pIn + n, pMatch + n, size);
      if Word(mem[..], pMatch + n, size) == Word(mem[..], pIn + n, size) {
        AgreeMore(mem[..], pIn, pMatch, n, size);
        n := n + size;
      }
    }
  }

  /** Fewer than `size` bytes are left, or one of the next `size` bytes differs. */
  ghost predicate TailEndsWithin(m: seq<byte>, p: nat, q: nat, limit: int, size: nat)
    requires p <= limit <= |m| && q + (limit - p) <= |m|
  {
    limit - p < size || !Agree(m, p, q, size)
  }
}
