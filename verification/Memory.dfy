/** The flat memory all buffers live in, and the copy routines that work on it in place.
    A pointer is an index; address 0 stands for NULL and belongs to no buffer. */
module Memory {
  import opened BlockFormat

  const WILDCOPYLENGTH := 8
  const DICT64K := 65536   // 64 KB, as far back as any compressor keeps history

  /** Nothing outside `lo..hi` differs. */
  ghost predicate SameOutside(a: seq<byte>, b: seq<byte>, lo: int, hi: int) {
    && |a| == |b|
    && forall k :: 0 <= k < |a| && !(lo <= k < hi) ==> a[k] == b[k]
  }

  lemma SameOutsideRefl(a: seq<byte>, lo: int, hi: int)
    ensures SameOutside(a, a, lo, hi)
  {
  }

  lemma SameOutsideWiden(a: seq<byte>, b: seq<byte>, lo: int, hi: int, lo': int, hi': int)
    requires SameOutside(a, b, lo, hi) && lo' <= lo && hi <= hi'
    ensures SameOutside(a, b, lo', hi')
  {
  }

  lemma SameOutsideCompose(a: seq<byte>, b: seq<byte>, c: seq<byte>, lo: int, lo': int, hi: int)
    requires SameOutside(a, b, lo, hi) && SameOutside(b, c, lo', hi) && lo <= lo'
    ensures SameOutside(a, c, lo, hi)
  {
  }

  lemma SameLength(a: seq<byte>, b: seq<byte>, lo: int, hi: int)
    requires SameOutside(a, b, lo, hi)
    ensures |a| == |b|
  {
  }

  lemma SliceKept(a: seq<byte>, b: seq<byte>, lo: int, hi: int, i: nat, j: nat)
    requires SameOutside(a, b, lo, hi) && i <= j <= |a| && Disjoint(i, j, lo, hi)
    ensures b[i..j] == a[i..j]
  {
    forall k: nat | k < j - i
      ensures b[i..j][k] == a[i..j][k]
    {
      assert b[i + k] == a[i + k];
    }
  }

  lemma SliceOfSlice(m: seq<byte>, lo: nat, hi: nat, a: nat, b: nat)
    requires lo <= a <= b <= hi <= |m|
    ensures m[lo..hi][a - lo..b - lo] == m[a..b]
  {
    var s := m[lo..hi];
    assert |s[a - lo..b - lo]| == |m[a..b]|;
    forall i: nat | i < b - a
      ensures s[a - lo..b - lo][i] == m[a..b][i]
    {
      assert s[a - lo..b - lo][i] == s[a - lo + i];
    }
  }

  /** The ranges do not overlap; an empty first range overlaps nothing. */
  predicate Disjoint(lo1: int, hi1: int, lo2: int, hi2: int) {
    hi1 <= lo2 || hi2 <= lo1 || hi1 <= lo1
  }

  function Zeros(n: nat): (z: seq<byte>)
    ensures |z| == n && forall i :: 0 <= i < n ==> z[i] == 0
  {
    seq(n, i => 0)
  }

  const TWO31 := 0x8000_0000

  /** A size converted to int, as C does it on a machine with 32-bit ints: what does not fit wraps
      around. */
  function ToInt(x: nat): (i: int)
    ensures x < TWO31 <==> i == x
    ensures TWO31 <= x < 2 * TWO31 ==> i == x - 2 * TWO31 < 0
  {
    var r := x % (2 * TWO31);
    if r < TWO31 then r else r - 2 * TWO31
  }

  function Least(a: nat, b: nat): (r: nat)
    ensures r <= a && r <= b && (r == a || r == b)
  {
    if a < b then a else b
  }

  /** A caller puts `data` into a buffer of its own. */
  method Fill(mem: array<byte>, at: nat, data: seq<byte>)
    requires at + |data| <= mem.Length
    modifies mem
    ensures mem[at..at + |data|] == data && SameOutside(old(mem[..]), mem[..], at, at + |data|)
  {
    forall i | 0 <= i < |data| {
      mem[at + i] := data[i];
    }
  }

  /** memmove, which also stands for memcpy on ranges that do not overlap. */
  method Move(mem: array<byte>, d: nat, s: nat, n: nat)
    requires d + n <= mem.Length && s + n <= mem.Length
    modifies mem
    ensures forall k :: d <= k < d + n ==> mem[k] == old(mem[s + (k - d)])
    ensures SameOutside(old(mem[..]), mem[..], d, d + n)
  {
    forall k | d <= k < d + n {
      mem[k] := mem[s + (k - d)];
    }
  }

  lemma Moved(m0: seq<byte>, m1: seq<byte>, d: nat, s: nat, n: nat)
    requires d + n <= |m1| && s + n <= |m0| && forall k :: d <= k < d + n ==> m1[k] == m0[s + (k - d)]
    ensures m1[d..d + n] == m0[s..s + n]
  {
    var a, b := m1[d..d + n], m0[s..s + n];
    forall i: nat | i < n ensures a[i] == b[i] {
      assert m1[d + i] == m0[s + (d + i - d)];
    }
  }

  /** The same, stated for whole ranges. */
  method Copy(mem: array<byte>, d: nat, s: nat, n: nat)
    requires d + n <= mem.Length && s + n <= mem.Length
    modifies mem
    ensures mem[d..d + n] == old(mem[s..s + n]) && SameOutside(old(mem[..]), mem[..], d, d + n)
  {
    hide SameOutside;
    ghost var m0 := mem[..];
    Move(mem, d, s, n);
    Moved(m0, mem[..], d, s, n);
  }

  /** One past the last byte an eight-byte-at-a-time copy up to `e` may write. */
  function WildEnd(d: int, e: int): int {
    (if d < e then e else d + 1) + WILDCOPYLENGTH - 1
  }

  /** LZ4_wildCopy: copies eight bytes at a time until `e` is reached, so it may write up to
      seven bytes too many, and eight even when there is nothing to copy.  The source may lie
      at least eight bytes below the destination, in which case the copy reads bytes it wrote
      itself. */
  method WildCopy(mem: array<byte>, d: nat, s: nat, e: nat)
    requires WildEnd(d, e) <= mem.Length && s + (WildEnd(d, e) - d) <= mem.Length
    requires s + WILDCOPYLENGTH <= d || WildEnd(d, e) <= s
    modifies mem
    ensures forall k :: d <= k < e ==> mem[k] == mem[s + (k - d)]
    ensures SameOutside(old(mem[..]), mem[..], d, WildEnd(d, e))
  {
    Move(mem, d, s, 8);
    var n := 8;
    while d + n < e
      invariant 8 <= n <= WildEnd(d, e) - d
      invariant forall k :: d <= k < d + n ==> mem[k] == mem[s + (k - d)]
      invariant SameOutside(old(mem[..]), mem[..], d, WildEnd(d, e))
    {
      ghost var m := mem[..];
      Move(mem, d + n, s + n, 8);
      forall k | d <= k < d + n + 8
        ensures mem[k] == mem[s + (k - d)]
      {
        assert mem[..][s + (k - d)] == m[s + (k - d)];
        if k < d + n {
          assert mem[..][k] == m[k];
        }
      }
      assert SameOutside(old(mem[..]), mem[..], d, WildEnd(d, e)) by {
        assert forall k :: 0 <= k < |m| && !(d <= k < WildEnd(d, e)) ==> mem[..][k] == m[k];
      }
      n := n + 8;
    }
  }
}
