/** The frame decoder's history of linked blocks: the last 64 KB of content must be found where
    `dict` points, although the caller takes decoded data away, and moves and overwrites the
    buffers it was delivered to. */
module FrameHistory {
  import opened BlockFormat
  import opened Memory
  import opened BlockApi

  /** The `n` bytes before address `end` can serve as history of content `c`: they are at least
      as many as anyone needs, and the last 64 KB of them are right.  What lies further back may
      be stale. */
  ghost predicate Recent(m: seq<byte>, end: int, n: nat, c: seq<byte>) {
    && n <= end <= |m| && Least(n, DICT64K) == Least(|c|, DICT64K)
    && EndsWith(c, m[end - Least(n, DICT64K)..end])
  }

  lemma Adjacent(m: seq<byte>, a: nat, b: nat, c: nat)
    requires a <= b <= c <= |m|
    ensures m[a..b] + m[b..c] == m[a..c]
  {
  }

  lemma RecentGrows(m: seq<byte>, end: nat, n: nat, c: seq<byte>, x: seq<byte>)
    requires Recent(m, end, n, c) && end + |x| <= |m| && m[end..end + |x|] == x
    ensures Recent(m, end + |x|, n + |x|, c + x)
  {
    hide EndsWith;
    RecentJoin(m, m, end, n, c, end - Least(n, DICT64K), Least(n, DICT64K), x);
    RecentWiden(m, end + |x|, Least(n, DICT64K) + |x|, n + |x|, c + x);
  }

  /** The end of the history copied to `p`, and more content behind it. */
  lemma RecentJoin(m: seq<byte>, m': seq<byte>, end: nat, n: nat, c: seq<byte>, p: nat, j: nat, x: seq<byte>)
    requires Recent(m, end, n, c) && j <= Least(n, DICT64K) && (j + |x| >= DICT64K || j == Least(n, DICT64K))
    requires p + j + |x| <= |m'| && m'[p..p + j] == m[end - j..end] && m'[p + j..p + j + |x|] == x
    ensures Recent(m', p + j + |x|, j + |x|, c + x)
  {
    hide EndsWith, Least, Recent;
    var e := p + j + |x|;
    RecentPart(m, end, n, c, j);
    SuffixGrows(m', p, p + j, e, c, x);
    LeastSum(j, n, |c|, |x|);
    RecentTail(m', p, e, j + |x|, c + x);
  }

  lemma RecentPart(m: seq<byte>, end: nat, n: nat, c: seq<byte>, j: nat)
    requires Recent(m, end, n, c) && j <= Least(n, DICT64K)
    ensures j <= n <= end <= |m| && EndsWith(c, m[end - j..end]) && Least(n, DICT64K) == Least(|c|, DICT64K)
  {
    hide EndsWith;
    var k := Least(n, DICT64K);
    SliceSuffix(m, end - k, end - j, end);
    SuffixOfSuffix(c, m[end - k..end], m[end - j..end]);
  }

  lemma LeastSum(j: nat, n: nat, c: nat, x: nat)
    requires Least(n, DICT64K) == Least(c, DICT64K)
    requires j <= Least(n, DICT64K) && (j + x >= DICT64K || j == Least(n, DICT64K))
    ensures Least(j + x, DICT64K) == Least(c + x, DICT64K)
  {
  }

  lemma RecentWiden(m: seq<byte>, end: nat, n: nat, n': nat, c: seq<byte>)
    requires Recent(m, end, n, c) && n' <= end && Least(n', DICT64K) == Least(n, DICT64K)
    ensures Recent(m, end, n', c)
  {
  }

  lemma RecentKept(m0: seq<byte>, m1: seq<byte>, lo: int, hi: int, end: nat, n: nat, c: seq<byte>)
    requires Recent(m0, end, n, c) && SameOutside(m0, m1, lo, hi)
    requires Disjoint(end - Least(n, DICT64K), end, lo, hi)
    ensures Recent(m1, end, n, c)
  {
    hide EndsWith;
    SliceKept(m0, m1, lo, hi, end - Least(n, DICT64K), end);
  }

  /** What was delivered in this call stands in front of `dst`. */
  ghost predicate Delivered(m: seq<byte>, dst0: nat, dst: nat, c: seq<byte>) {
    dst0 <= dst <= |m| && EndsWith(c, m[dst0..dst])
  }

  /** Everything produced since `dst0` in this call, if that is 64 KB or more, will do. */
  lemma RecentHere(m: seq<byte>, dst0: nat, dst: nat, c: seq<byte>, x: seq<byte>)
    requires Delivered(m, dst0, dst, c) && dst + |x| <= |m| && m[dst..dst + |x|] == x && dst - dst0 + |x| >= DICT64K
    ensures Recent(m, dst + |x|, dst - dst0 + |x|, c + x)
  {
    var e := dst + |x|;
    DeliveredMore(m, dst0, dst, c, x);
    RecentTail(m, dst0, e, e - dst0, c + x);
  }

  lemma DeliveredMore(m: seq<byte>, dst0: nat, dst: nat, c: seq<byte>, x: seq<byte>)
    requires Delivered(m, dst0, dst, c) && dst + |x| <= |m| && m[dst..dst + |x|] == x
    ensures Delivered(m, dst0, dst + |x|, c + x)
  {
    hide EndsWith;
    SuffixMore(c, m[dst0..dst], x);
    Adjacent(m, dst0, dst, dst + |x|);
  }

  /** Two copies into the buffer, one behind the other. */
  lemma AfterCopies(m0: seq<byte>, m1: seq<byte>, m2: seq<byte>, lo: nat, hi: nat, j: nat, src: nat, n: nat)
    requires SameOutside(m0, m1, lo, lo + j) && SameOutside(m1, m2, lo + j, lo + j + n) && lo + j + n <= hi <= |m0|
    requires src + n <= |m0| && Disjoint(src, src + n, lo, hi)
    requires m2[lo + j..lo + j + n] == m1[src..src + n]
    ensures SameOutside(m0, m2, lo, hi) && m2[lo..lo + j] == m1[lo..lo + j] && m2[lo + j..lo + j + n] == m0[src..src + n]
  {
    SliceKept(m0, m1, lo, lo + j, src, src + n);
    SliceKept(m1, m2, lo + j, lo + j + n, lo, lo + j);
  }

  /** The last `j` bytes of a history and new output, brought together at the start of the buffer. */
  method JoinAtStart(mem: array<byte>, lo: nat, hi: nat, end: nat, n: nat, j: nat, dstPtr: nat, dstSize: nat, ghost c: seq<byte>)
    requires Recent(mem[..], end, n, c) && j <= Least(n, DICT64K) && (j + dstSize >= DICT64K || j == Least(n, DICT64K))
    requires lo + j + dstSize <= hi <= mem.Length && dstPtr + dstSize <= mem.Length && Disjoint(dstPtr, dstPtr + dstSize, lo, hi)
    modifies mem
    ensures Recent(mem[..], lo + j + dstSize, j + dstSize, c + old(mem[dstPtr..dstPtr + dstSize]))
    ensures SameOutside(old(mem[..]), mem[..], lo, hi)
  {
    hide Recent, SameOutside, Least;
    ghost var m0, x := mem[..], mem[dstPtr..dstPtr + dstSize];
    RecentBounds(m0, end, n, c);
    Copy(mem, lo, end - j, j);
    ghost var m1 := mem[..];
    Copy(mem, lo + j, dstPtr, dstSize);
    ghost var m2 := mem[..];
    AfterCopies(m0, m1, m2, lo, hi, j, dstPtr, dstSize);
    RecentJoin(m0, m2, end, n, c, lo, j, x);
  }

  lemma RecentBounds(m: seq<byte>, end: int, n: nat, c: seq<byte>)
    requires Recent(m, end, n, c)
    ensures n <= end <= |m|
  {
  }

  /** New output appended to a history that stands in the buffer. */
  method AppendInTmp(mem: array<byte>, lo: nat, hi: nat, n: nat, dstPtr: nat, dstSize: nat, ghost c: seq<byte>)
    requires Recent(mem[..], lo + n, n, c) && lo + n + dstSize <= hi <= mem.Length
    requires dstPtr + dstSize <= mem.Length && Disjoint(dstPtr, dstPtr + dstSize, lo, hi)
    modifies mem
    ensures Recent(mem[..], lo + n + dstSize, n + dstSize, c + old(mem[dstPtr..dstPtr + dstSize]))
    ensures SameOutside(old(mem[..]), mem[..], lo, hi)
  {
    hide Recent, SameOutside;
    ghost var m0, x := mem[..], mem[dstPtr..dstPtr + dstSize];
    Copy(mem, lo + n, dstPtr, dstSize);
    ghost var m1 := mem[..];
    RecentKept(m0, m1, lo + n, lo + n + dstSize, lo + n, n, c);
    RecentGrows(m1, lo + n, n, c, x);
    SameOutsideWiden(m0, m1, lo + n, lo + n + dstSize, lo, hi);
  }

  /** The last `size` bytes of `out` stand at `at`. */
  ghost predicate Block(m: seq<byte>, at: nat, size: nat, out: seq<byte>) {
    at + size <= |m| && size <= |out| && m[at..at + size] == out[|out| - size..]
  }

  /** `c` is all of `out` but its last `size - start` bytes. */
  ghost predicate UpTo(c: seq<byte>, out: seq<byte>, size: nat, start: nat) {
    start <= size <= |out| && c == out[..|out| - size + start]
  }

  lemma UpToMore(c: seq<byte>, out: seq<byte>, size: nat, start: nat, x: seq<byte>)
    requires UpTo(c, out, size, start) && start + |x| <= size && x == out[|c|..|c| + |x|]
    ensures UpTo(c + x, out, size, start + |x|)
  {
  }

  /** Where a dictionary outside the buffer can be after `n` more bytes have gone to `dst`. */
  predicate Moves(dict0: nat, size0: nat, dict: nat, size: nat, dst0: nat, dst: nat, n: nat) {
    || (dict == dict0 && dict0 + size0 == dst && size == size0 + n)
    || (dict == dst0 && dst0 <= dst && size == dst - dst0 + n)
  }

  class DecodedHistory {
    const tmpOutBuffer: nat
    var maxBufferSize: nat
    var dict: nat
    var dictSize: nat
    var tmpOut: nat
    var tmpOutSize: nat
    var tmpOutStart: nat

    constructor (tmpOutBuffer: nat)
      ensures this.tmpOutBuffer == tmpOutBuffer && maxBufferSize == 0 && dict == dictSize == 0
    {
      this.tmpOutBuffer := tmpOutBuffer;
      maxBufferSize, dict, dictSize, tmpOut, tmpOutSize, tmpOutStart := 0, 0, 0, 0, 0, 0;
    }

    function TmpEnd(): nat
      reads this`maxBufferSize
    {
      tmpOutBuffer + maxBufferSize
    }

    /** The dictionary is in the buffer, or else what matters of it is clear of the buffer. */
    predicate Placed(size: nat)
      reads this`maxBufferSize, this`dict, this`dictSize
    {
      && maxBufferSize >= 3 * DICT64K && TmpEnd() <= size && dict + dictSize <= size
      && if dict == tmpOutBuffer then dictSize <= maxBufferSize
         else Disjoint(dict + dictSize - Least(dictSize, DICT64K), dict + dictSize, tmpOutBuffer, TmpEnd())
    }

    /** Between blocks: the history of content `c` is in place. */
    ghost predicate Ready(m: seq<byte>, c: seq<byte>)
      reads this`maxBufferSize, this`dict, this`dictSize
    {
      Placed(|m|) && Recent(m, dict + dictSize, dictSize, c)
    }

    /** While a block decoded into the buffer is being delivered: `c` has been, `out` will be. */
    ghost predicate Flushing(m: seq<byte>, c: seq<byte>, out: seq<byte>)
      reads this
    {
      FlushingFrom(m, c, out, tmpOutStart)
    }

    ghost predicate FlushingFrom(m: seq<byte>, c: seq<byte>, out: seq<byte>, start: nat)
      reads this`maxBufferSize, this`dict, this`dictSize, this`tmpOut, this`tmpOutSize
    {
      && Placed(|m|) && tmpOutBuffer <= tmpOut && tmpOut + tmpOutSize <= TmpEnd()
      && Block(m, tmpOut, tmpOutSize, out) && UpTo(c, out, tmpOutSize, start)
      && Least(tmpOut - tmpOutBuffer, DICT64K) == Least(|out| - tmpOutSize, DICT64K)
      && if dict == tmpOutBuffer then
           && dict + dictSize == tmpOut + start
           && Recent(m, tmpOut + tmpOutSize, tmpOut + tmpOutSize - tmpOutBuffer, out)
         else Recent(m, dict + dictSize, dictSize, c)
    }

    /** The output space `lo..hi` of a call is clear of the buffer, with a gap between them, and
        its part from `dst` on of what matters of a dictionary outside the buffer. */
    predicate Clear(lo: nat, dst: nat, hi: nat)
      reads this`maxBufferSize, this`dict, this`dictSize
    {
      && (hi < tmpOutBuffer || TmpEnd() < lo)
      && (dict != tmpOutBuffer ==> Disjoint(dict + dictSize - Least(dictSize, DICT64K), dict + dictSize, dst, hi))
    }

    /** LZ4F_updateDict after output straight to the caller's buffer. */
    method UpdateDict(mem: array<byte>, dstPtr: nat, dstSize: nat, dstPtr0: nat, ghost c: seq<byte>)
      requires Ready(mem[..], c) && Delivered(mem[..], dstPtr0, dstPtr, c) && dstPtr + dstSize <= mem.Length
      requires dstPtr + dstSize < tmpOutBuffer || TmpEnd() < dstPtr0
      modifies this`dict, this`dictSize, mem
      ensures Ready(mem[..], c + old(mem[dstPtr..dstPtr + dstSize]))
      ensures SameOutside(old(mem[..]), mem[..], tmpOutBuffer, TmpEnd())
      ensures if dict == tmpOutBuffer then dstPtr - dstPtr0 + dstSize < DICT64K
              else Moves(old(dict), old(dictSize), dict, dictSize, dstPtr0, dstPtr, dstSize)
    {
      hide Recent, SameOutside, Delivered;
      ghost var m0, x := mem[..], mem[dstPtr..dstPtr + dstSize];
      SameOutsideRefl(m0, tmpOutBuffer, TmpEnd());
      EmptyRecent(m0, dict + dictSize, dictSize, c);
      var done := ExtendDict(mem, dstPtr, dstSize, dstPtr0, c, x);
      if !done {
        DeliveredBounds(m0, dstPtr0, dstPtr, c);
        CopyToTmp(mem, dstPtr, dstSize, c);
      }
    }

    /** The two ways to take new output as it stands: it continues the dictionary, or what this
        call has delivered is large enough to replace it. */
    method ExtendDict(mem: array<byte>, dstPtr: nat, n: nat, dstPtr0: nat, ghost c: seq<byte>, ghost x: seq<byte>)
      returns (done: bool)
      requires Placed(mem.Length) && (dict != tmpOutBuffer ==> Recent(mem[..], dict + dictSize, dictSize, c))
      requires dictSize == 0 ==> c == []
      requires Delivered(mem[..], dstPtr0, dstPtr, c) && dstPtr + n <= mem.Length && mem[dstPtr..dstPtr + n] == x && |x| == n
      requires dstPtr + n < tmpOutBuffer || TmpEnd() < dstPtr0
      modifies this`dict, this`dictSize
      ensures done ==> Placed(mem.Length) && dict != tmpOutBuffer && Recent(mem[..], dict + dictSize, dictSize, c + x)
      ensures done ==> Moves(old(dict), old(dictSize), dict, dictSize, dstPtr0, dstPtr, n)
      ensures !done ==> dict == old(dict) && dictSize == old(dictSize) && dstPtr - dstPtr0 + n < DICT64K
    {
      hide Recent, Delivered;
      DeliveredBounds(mem[..], dstPtr0, dstPtr, c);
      if dictSize == 0 {
        NothingDelivered(mem[..], dstPtr0, dstPtr, c);
        RecentNothing(mem[..], dstPtr, c);
        dict := dstPtr;
      }
      done := true;
      if dict + dictSize == dstPtr {
        RecentGrows(mem[..], dstPtr, dictSize, c, x);
        dictSize := dictSize + n;
      } else if dstPtr - dstPtr0 + n >= DICT64K {
        RecentHere(mem[..], dstPtr0, dstPtr, c, x);
        dict := dstPtr0;
        dictSize := dstPtr - dstPtr0 + n;
      } else {
        done := false;
      }
    }

    /** New output that has to be copied into the buffer, to the dictionary or together with it. */
    method CopyToTmp(mem: array<byte>, dstPtr: nat, dstSize: nat, ghost c: seq<byte>)
      requires Ready(mem[..], c) && dstSize < DICT64K && dstPtr + dstSize <= mem.Length
      requires Disjoint(dstPtr, dstPtr + dstSize, tmpOutBuffer, TmpEnd())
      modifies this`dict, this`dictSize, mem
      ensures Ready(mem[..], c + old(mem[dstPtr..dstPtr + dstSize])) && dict == tmpOutBuffer
      ensures SameOutside(old(mem[..]), mem[..], tmpOutBuffer, TmpEnd())
    {
      hide Recent, SameOutside;
      if dict == tmpOutBuffer && dictSize + dstSize <= maxBufferSize {
        AppendInTmp(mem, tmpOutBuffer, TmpEnd(), dictSize, dstPtr, dstSize, c);
        dictSize := dictSize + dstSize;
      } else {
        var preserveSize := DICT64K - dstSize;
        if preserveSize > dictSize {
          preserveSize := dictSize;
        }
        JoinAtStart(mem, tmpOutBuffer, TmpEnd(), dict + dictSize, dictSize, preserveSize, dstPtr, dstSize, c);
        dict := tmpOutBuffer;
        dictSize := preserveSize + dstSize;
      }
    }

    /** The flush stage for linked blocks: the next bytes of the block, `x`, are delivered at
        `dstPtr`, and LZ4F_updateDict sees to it that they stay available as history. */
    method FlushLinked(mem: array<byte>, dstPtr: nat, n: nat, dstPtr0: nat, ghost c: seq<byte>, ghost out: seq<byte>)
      returns (ghost x: seq<byte>)
      requires Flushing(mem[..], c, out) && n <= tmpOutSize - tmpOutStart
      requires Delivered(mem[..], dstPtr0, dstPtr, c) && dstPtr + n <= mem.Length
      requires Clear(dstPtr0, dstPtr, dstPtr + n)
      modifies this`dict, this`dictSize, this`tmpOutStart, mem
      ensures tmpOutStart == old(tmpOutStart) + n && |x| == n && Flushing(mem[..], c + x, out)
      ensures mem[dstPtr..dstPtr + n] == x && |c| + n <= |out| && x == out[|c|..|c| + n]
      ensures forall i :: 0 <= i < mem.Length && !(tmpOutBuffer <= i < TmpEnd()) && !(dstPtr <= i < dstPtr + n) ==>
        mem[i] == old(mem[i])
      ensures if dict == tmpOutBuffer then dstPtr - dstPtr0 + n < DICT64K
              else Moves(old(dict), old(dictSize), dict, dictSize, dstPtr0, dstPtr, n)
    {
      hide SameOutside, Delivered, FlushingFrom;
      ghost var m0 := mem[..];
      DeliveredBounds(m0, dstPtr0, dstPtr, c);
      FlushingBounds(m0, c, out);
      x := CopyOut(mem, dstPtr, n, dstPtr0, c, out);
      ghost var m1 := mem[..];
      Account(mem, dstPtr, n, dstPtr0, c, out, x);
      TwoAreas(m0, m1, mem[..], dstPtr, n, tmpOutBuffer, TmpEnd());
      tmpOutStart := tmpOutStart + n;
    }

    method CopyOut(mem: array<byte>, dstPtr: nat, n: nat, ghost dstPtr0: nat, ghost c: seq<byte>, ghost out: seq<byte>)
      returns (ghost x: seq<byte>)
      requires Flushing(mem[..], c, out) && n <= tmpOutSize - tmpOutStart
      requires Delivered(mem[..], dstPtr0, dstPtr, c) && dstPtr + n <= mem.Length
      requires Clear(dstPtr0, dstPtr, dstPtr + n)
      modifies mem
      ensures Flushing(mem[..], c, out) && Delivered(mem[..], dstPtr0, dstPtr, c)
      ensures |x| == n && mem[dstPtr..dstPtr + n] == x && |c| + n <= |out| && x == out[|c|..|c| + n]
      ensures SameOutside(old(mem[..]), mem[..], dstPtr, dstPtr + n)
    {
      hide Recent, SameOutside, Delivered, Block, UpTo;
      ghost var m0 := mem[..];
      DeliveredBounds(m0, dstPtr0, dstPtr, c);
      NextPart(m0, tmpOut, tmpOutSize, tmpOutStart, n, c, out);
      x := out[|c|..|c| + n];
      Copy(mem, dstPtr, tmpOut + tmpOutStart, n);
      ghost var m1 := mem[..];
      BlockKept(m0, m1, dstPtr, dstPtr + n, tmpOut, tmpOutSize, out);
      DeliveredKept(m0, m1, dstPtr0, dstPtr, n, c);
      if dict == tmpOutBuffer {
        RecentKept(m0, m1, dstPtr, dstPtr + n, tmpOut + tmpOutSize, tmpOut + tmpOutSize - tmpOutBuffer, out);
      } else {
        RecentKept(m0, m1, dstPtr, dstPtr + n, dict + dictSize, dictSize, c);
      }
    }

    /** LZ4F_updateDict within the buffer. */
    method Account(mem: array<byte>, dstPtr: nat, n: nat, dstPtr0: nat, ghost c: seq<byte>, ghost out: seq<byte>,
                   ghost x: seq<byte>)
      requires Flushing(mem[..], c, out) && n <= tmpOutSize - tmpOutStart && |x| == n
      requires Delivered(mem[..], dstPtr0, dstPtr, c) && dstPtr + n <= mem.Length
      requires mem[dstPtr..dstPtr + n] == x && |c| + n <= |out| && x == out[|c|..|c| + n]
      requires dstPtr + n < tmpOutBuffer || TmpEnd() < dstPtr0
      modifies this`dict, this`dictSize, mem
      ensures FlushingFrom(mem[..], c + x, out, tmpOutStart + n)
      ensures SameOutside(old(mem[..]), mem[..], tmpOutBuffer, TmpEnd())
      ensures if dict == tmpOutBuffer then dstPtr - dstPtr0 + n < DICT64K
              else Moves(old(dict), old(dictSize), dict, dictSize, dstPtr0, dstPtr, n)
    {
      hide Recent, SameOutside, Delivered, Block, UpTo;
      ghost var m0 := mem[..];
      UpToMore(c, out, tmpOutSize, tmpOutStart, x);
      SameOutsideRefl(m0, tmpOutBuffer, TmpEnd());
      if dictSize == 0 {
        NothingYet(m0, c, out);
      }
      var done := ExtendDict(mem, dstPtr, n, dstPtr0, c, x);
      if !done {
        if dict == tmpOutBuffer {
          dictSize := dictSize + n;
        } else {
          BringIntoTmp(mem, n, c, out);
        }
      }
    }

    lemma FlushingBounds(m: seq<byte>, c: seq<byte>, out: seq<byte>)
      requires Flushing(m, c, out)
      ensures TmpEnd() <= |m| && tmpOutStart <= tmpOutSize && |c| + tmpOutSize - tmpOutStart == |out|
    {
    }

    lemma NothingYet(m: seq<byte>, c: seq<byte>, out: seq<byte>)
      requires Flushing(m, c, out) && dictSize == 0
      ensures c == []
    {
    }

    /** The dictionary's end is copied in front of the block being delivered, which makes the
        buffer the dictionary; `extra` bytes of the block are delivered and not yet counted. */
    method BringIntoTmp(mem: array<byte>, extra: nat, ghost c: seq<byte>, ghost out: seq<byte>)
      requires Flushing(mem[..], c, out) && dict != tmpOutBuffer && tmpOutStart + extra <= tmpOutSize
      modifies this`dict, this`dictSize, mem
      ensures Placed(mem.Length) && dict == tmpOutBuffer && dictSize == tmpOut - tmpOutBuffer + tmpOutStart + extra
      ensures Block(mem[..], tmpOut, tmpOutSize, out)
      ensures Recent(mem[..], tmpOut + tmpOutSize, tmpOut + tmpOutSize - tmpOutBuffer, out)
      ensures SameOutside(old(mem[..]), mem[..], tmpOutBuffer, TmpEnd())
    {
      hide SameOutside, Recent;
      ghost var old_, block := out[..|out| - tmpOutSize], out[|out| - tmpOutSize..];
      SplitOut(out, tmpOutSize, tmpOutStart);
      CopyInFront(mem, tmpOutBuffer, tmpOut, tmpOutSize, tmpOutStart, dict, dictSize, old_, block);
      SameOutsideWidenIn(old(mem[..]), mem[..], tmpOutBuffer, tmpOut, TmpEnd());
      dictSize := tmpOut - tmpOutBuffer + tmpOutStart + extra;
      dict := tmpOutBuffer;
    }

    /** Before a block is decoded into the buffer: room for it behind the history. */
    method PlaceTmpOut(mem: array<byte>, maxBlockSize: nat, ghost c: seq<byte>)
      requires Ready(mem[..], c) && maxBufferSize >= maxBlockSize + 2 * DICT64K
      modifies this`dictSize, this`tmpOut, mem
      ensures Ready(mem[..], c) && tmpOutBuffer <= tmpOut && tmpOut + maxBlockSize <= TmpEnd()
      ensures Least(tmpOut - tmpOutBuffer, DICT64K) == Least(|c|, DICT64K)
      ensures if dict == tmpOutBuffer then dict + dictSize == tmpOut else dictSize == old(dictSize)
      ensures SameOutside(old(mem[..]), mem[..], tmpOutBuffer, TmpEnd())
    {
      hide Recent, SameOutside;
      SameOutsideRefl(mem[..], tmpOutBuffer, TmpEnd());
      RecentLengths(mem[..], dict + dictSize, dictSize, c);
      if dict == tmpOutBuffer {
        if dictSize > 2 * DICT64K {
          KeepEnd(mem, tmpOutBuffer, TmpEnd(), dict + dictSize, dictSize, c);
          dictSize := DICT64K;
        }
        tmpOut := tmpOutBuffer + dictSize;
      } else {
        tmpOut := tmpOutBuffer + Least(dictSize, DICT64K);
      }
    }

    /** The block has been decoded into the buffer. */
    method StartFlush(mem: array<byte>, size: nat, ghost m0: seq<byte>, ghost maxBlockSize: nat, ghost c: seq<byte>, ghost block: seq<byte>)
      requires Ready(m0, c) && SameOutside(m0, mem[..], tmpOut, tmpOut + maxBlockSize) && size <= maxBlockSize
      requires tmpOutBuffer <= tmpOut && tmpOut + maxBlockSize <= TmpEnd() && |block| == size
      requires Least(tmpOut - tmpOutBuffer, DICT64K) == Least(|c|, DICT64K)
      requires dict == tmpOutBuffer ==> dict + dictSize == tmpOut
      requires tmpOut + size <= mem.Length && mem[tmpOut..tmpOut + size] == block
      modifies this`tmpOutSize, this`tmpOutStart
      ensures Flushing(mem[..], c, c + block) && tmpOutSize == size && tmpOutStart == 0
    {
      hide Recent, SameOutside, Least, Block, UpTo;
      tmpOutSize, tmpOutStart := size, 0;
      SameLength(m0, mem[..], tmpOut, tmpOut + maxBlockSize);
      BlockThere(mem[..], tmpOut, c, block);
      HistoryBehind(m0, mem[..], maxBlockSize, c, block);
    }

    lemma HistoryBehind(m0: seq<byte>, m1: seq<byte>, maxBlockSize: nat, c: seq<byte>, block: seq<byte>)
      requires Ready(m0, c) && SameOutside(m0, m1, tmpOut, tmpOut + maxBlockSize)
      requires tmpOutBuffer <= tmpOut && tmpOut + maxBlockSize <= TmpEnd()
      requires dict == tmpOutBuffer ==> dict + dictSize == tmpOut
      requires tmpOut + |block| <= |m1| && m1[tmpOut..tmpOut + |block|] == block
      ensures if dict == tmpOutBuffer then Recent(m1, tmpOut + |block|, tmpOut + |block| - tmpOutBuffer, c + block)
              else Recent(m1, dict + dictSize, dictSize, c)
    {
      hide Recent, SameOutside;
      RecentKept(m0, m1, tmpOut, tmpOut + maxBlockSize, dict + dictSize, dictSize, c);
      if dict == tmpOutBuffer {
        RecentGrows(m1, tmpOut, dictSize, c, block);
      }
    }

    /** The end of a call: a dictionary in the caller's buffer is saved, lest the caller should
        overwrite it. */
    method Preserve(mem: array<byte>, flushing: bool, ghost c: seq<byte>, ghost out: seq<byte>)
      requires if flushing then Flushing(mem[..], c, out) else Ready(mem[..], c)
      modifies this`dict, this`dictSize, this`tmpOut, mem
      ensures if flushing then Flushing(mem[..], c, out) else Ready(mem[..], c)
      ensures dict == tmpOutBuffer && SameOutside(old(mem[..]), mem[..], tmpOutBuffer, TmpEnd())
    {
      hide Recent, SameOutside, Block, UpTo;
      SameOutsideRefl(mem[..], tmpOutBuffer, TmpEnd());
      if dict != tmpOutBuffer {
        if flushing {
          FlushingBounds(mem[..], c, out);
          BringIntoTmp(mem, 0, c, out);
        } else {
          var newDictSize := Least(dictSize, DICT64K);
          KeepEnd(mem, tmpOutBuffer, TmpEnd(), dict + dictSize, dictSize, c);
          dict, dictSize := tmpOutBuffer, newDictSize;
          tmpOut := tmpOutBuffer + newDictSize;
        }
      }
    }
  }

  /** The last 64 KB of a history, copied to the start of the buffer. */
  method KeepEnd(mem: array<byte>, lo: nat, hi: nat, end: nat, n: nat, ghost c: seq<byte>)
    requires Recent(mem[..], end, n, c) && lo + DICT64K <= hi <= mem.Length
    modifies mem
    ensures Recent(mem[..], lo + Least(n, DICT64K), Least(n, DICT64K), c)
    ensures SameOutside(old(mem[..]), mem[..], lo, hi)
  {
    hide Recent, SameOutside, Least;
    ghost var m0 := mem[..];
    RecentBounds(m0, end, n, c);
    var j := Least(n, DICT64K);
    Copy(mem, lo, end - j, j);
    SameOutsideWiden(m0, mem[..], lo, lo + j, lo, hi);
    assert mem[lo + j..lo + j] == [] && c + [] == c;
    RecentJoin(m0, mem[..], end, n, c, lo, j, []);
  }

  lemma RecentLengths(m: seq<byte>, end: int, n: nat, c: seq<byte>)
    requires Recent(m, end, n, c)
    ensures Least(n, DICT64K) == Least(|c|, DICT64K)
  {
  }

  lemma SameOutsideWidenIn(m0: seq<byte>, m1: seq<byte>, lo: nat, mid: nat, hi: nat)
    requires SameOutside(m0, m1, lo, mid) && mid <= hi
    ensures SameOutside(m0, m1, lo, hi)
  {
  }

  lemma BlockThere(m: seq<byte>, at: nat, c: seq<byte>, x: seq<byte>)
    requires at + |x| <= |m| && m[at..at + |x|] == x
    ensures Block(m, at, |x|, c + x) && UpTo(c, c + x, |x|, 0)
  {
  }

  lemma SplitOut(out: seq<byte>, size: nat, start: nat)
    requires start <= size <= |out|
    ensures var old_, block := out[..|out| - size], out[|out| - size..];
            old_ + block == out && old_ + block[..start] == out[..|out| - size + start]
  {
  }

  method CopyInFront(mem: array<byte>, tmpOutBuffer: nat, tmpOut: nat, tmpOutSize: nat, tmpOutStart: nat,
                     dict: nat, dictSize: nat, ghost old_: seq<byte>, ghost block: seq<byte>)
    requires tmpOutBuffer <= tmpOut && tmpOut + tmpOutSize <= mem.Length && tmpOutStart <= tmpOutSize == |block|
    requires mem[tmpOut..tmpOut + tmpOutSize] == block
    requires Recent(mem[..], dict + dictSize, dictSize, old_ + block[..tmpOutStart])
    requires Least(tmpOut - tmpOutBuffer, DICT64K) == Least(|old_|, DICT64K)
    modifies mem
    ensures SameOutside(old(mem[..]), mem[..], tmpOutBuffer, tmpOut)
    ensures mem[tmpOut..tmpOut + tmpOutSize] == block
    ensures Recent(mem[..], tmpOut + tmpOutSize, tmpOut + tmpOutSize - tmpOutBuffer, old_ + block)
  {
    hide SameOutside, Recent, EndsWith, Least;
    ghost var m0 := mem[..];
    var preserveSize := tmpOut - tmpOutBuffer;
    var copySize := Least(if tmpOutSize > DICT64K then 0 else DICT64K - tmpOutSize, preserveSize);
    CopyEnough(m0, dict + dictSize, dictSize, old_, block[..tmpOutStart], tmpOutSize, preserveSize, copySize);
    CopyDown(mem, tmpOutBuffer, tmpOut, dict + dictSize - tmpOutStart, copySize, old_);
    ghost var m1 := mem[..];
    SliceKept(m0, m1, tmpOutBuffer, tmpOut, tmpOut, tmpOut + tmpOutSize);
    RecentBehind(m1, tmpOut - copySize, tmpOut, tmpOut + tmpOutSize, preserveSize + tmpOutSize, old_, block);
  }

  /** The last `n` bytes of `s`, which end at `end`, come to end at `to`, in a buffer that begins at `from`. */
  method CopyDown(mem: array<byte>, from: nat, to: nat, end: int, n: nat, ghost s: seq<byte>)
    requires from + n <= to <= mem.Length && (n > 0 ==> n <= end <= mem.Length && EndsWith(s, mem[end - n..end]))
    modifies mem
    ensures SameOutside(old(mem[..]), mem[..], from, to) && EndsWith(s, mem[to - n..to])
  {
    hide SameOutside, EndsWith;
    ghost var m0 := mem[..];
    SameOutsideRefl(m0, from, to);
    NoSuffix(s, m0, to);
    if n > 0 {
      Copy(mem, to - n, end - n, n);
      SameOutsideWiden(m0, mem[..], to - n, to, from, to);
    }
  }

  lemma NoSuffix(s: seq<byte>, m: seq<byte>, p: nat)
    requires p <= |m|
    ensures EndsWith(s, m[p..p])
  {
  }

  /** The end of the old content, and then the block. */
  lemma RecentBehind(m: seq<byte>, from: nat, mid: nat, end: nat, n: nat, old_: seq<byte>, block: seq<byte>)
    requires from <= mid <= end <= |m| && n <= end && EndsWith(old_, m[from..mid]) && m[mid..end] == block
    requires Least(end - from, DICT64K) == Least(|old_| + |block|, DICT64K) == Least(n, DICT64K)
    ensures Recent(m, end, n, old_ + block)
  {
    hide EndsWith;
    SuffixGrows(m, from, mid, end, old_, block);
    RecentTail(m, from, end, n, old_ + block);
  }

  lemma SuffixGrows(m: seq<byte>, from: nat, mid: nat, end: nat, old_: seq<byte>, block: seq<byte>)
    requires from <= mid <= end <= |m| && EndsWith(old_, m[from..mid]) && m[mid..end] == block
    ensures EndsWith(old_ + block, m[from..end])
  {
    hide EndsWith;
    SuffixMore(old_, m[from..mid], block);
    Adjacent(m, from, mid, end);
  }

  lemma RecentTail(m: seq<byte>, from: nat, end: nat, n: nat, c: seq<byte>)
    requires from <= end <= |m| && n <= end && EndsWith(c, m[from..end])
    requires Least(end - from, DICT64K) == Least(|c|, DICT64K) == Least(n, DICT64K)
    ensures Recent(m, end, n, c)
  {
    hide EndsWith, Least;
    var k := Least(n, DICT64K);
    SliceSuffix(m, from, end - k, end);
    SuffixOfSuffix(c, m[from..end], m[end - k..end]);
  }

  /** As much of the old history as matters can be found in front of what was delivered of the
      current block. */
  lemma CopyEnough(m: seq<byte>, end: nat, n: nat, old_: seq<byte>, y: seq<byte>, size: nat, preserveSize: nat, copySize: nat)
    requires |y| <= size && Recent(m, end, n, old_ + y)
    requires Least(preserveSize, DICT64K) == Least(|old_|, DICT64K)
    requires copySize == Least(if size > DICT64K then 0 else DICT64K - size, preserveSize)
    ensures copySize > 0 ==>
      copySize + |y| <= n <= end <= |m| && EndsWith(old_, m[end - |y| - copySize..end - |y|])
    ensures Least(copySize + size, DICT64K) == Least(|old_| + size, DICT64K) == Least(preserveSize + size, DICT64K)
  {
    hide EndsWith, Recent;
    if copySize > 0 {
      RecentLengths(m, end, n, old_ + y);
      RecentPart(m, end, n, old_ + y, copySize + |y|);
      SuffixDropped(m, old_, y, end - |y| - copySize, end - |y|, end);
    }
  }

  lemma SuffixDropped(m: seq<byte>, s: seq<byte>, y: seq<byte>, a: nat, b: nat, c: nat)
    requires a <= b <= c <= |m| && EndsWith(s + y, m[a..c]) && |y| == c - b
    ensures EndsWith(s, m[a..b])
  {
    assert m[a..b] == m[a..c][..b - a];
    assert s[|s| - (b - a)..] == (s + y)[|s + y| - (c - a)..][..b - a];
  }

  lemma NextPart(m: seq<byte>, tmpOut: nat, size: nat, start: nat, n: nat, c: seq<byte>, out: seq<byte>)
    requires start + n <= size && Block(m, tmpOut, size, out) && UpTo(c, out, size, start)
    ensures |c| + n <= |out| && m[tmpOut + start..tmpOut + start + n] == out[|c|..|c| + n]
  {
    SliceOfSlice(m, tmpOut, tmpOut + size, tmpOut + start, tmpOut + start + n);
    SliceOfSlice(out, |out| - size, |out|, |c|, |c| + n);
  }

  lemma BlockKept(m0: seq<byte>, m1: seq<byte>, lo: int, hi: int, at: nat, size: nat, out: seq<byte>)
    requires Block(m0, at, size, out) && SameOutside(m0, m1, lo, hi) && Disjoint(at, at + size, lo, hi)
    ensures Block(m1, at, size, out)
  {
    SliceKept(m0, m1, lo, hi, at, at + size);
  }

  lemma DeliveredKept(m0: seq<byte>, m1: seq<byte>, dst0: nat, dst: nat, n: nat, c: seq<byte>)
    requires Delivered(m0, dst0, dst, c) && SameOutside(m0, m1, dst, dst + n)
    ensures Delivered(m1, dst0, dst, c)
  {
    hide EndsWith;
    SliceKept(m0, m1, dst, dst + n, dst0, dst);
  }

  lemma EmptyRecent(m: seq<byte>, end: int, n: nat, c: seq<byte>)
    requires Recent(m, end, n, c)
    ensures n == 0 ==> c == []
  {
  }

  lemma RecentNothing(m: seq<byte>, end: nat, c: seq<byte>)
    requires end <= |m| && c == []
    ensures Recent(m, end, 0, c)
  {
  }

  lemma TwoAreas(m0: seq<byte>, m1: seq<byte>, m2: seq<byte>, d: nat, n: nat, lo: nat, hi: nat)
    requires SameOutside(m0, m1, d, d + n) && SameOutside(m1, m2, lo, hi) && d + n <= |m0| && Disjoint(d, d + n, lo, hi)
    ensures |m2| == |m0| && m2[d..d + n] == m1[d..d + n]
    ensures forall i :: 0 <= i < |m0| && !(lo <= i < hi) && !(d <= i < d + n) ==> m2[i] == m0[i]
  {
    SliceKept(m1, m2, lo, hi, d, d + n);
  }

  lemma NothingDelivered(m: seq<byte>, dst0: nat, dst: nat, c: seq<byte>)
    requires Delivered(m, dst0, dst, c) && c == []
    ensures dst == dst0
  {
  }

  lemma DeliveredBounds(m: seq<byte>, dst0: nat, dst: nat, c: seq<byte>)
    requires Delivered(m, dst0, dst, c)
    ensures dst0 <= dst <= |m|
  {
  }
}
