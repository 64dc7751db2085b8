/** The fast ways the decoder copies a match: two small tables spread a short offset to a
    distance of at least eight, after which eight bytes are copied at a time. */
module MatchCopy {
  import opened BlockFormat
  import opened Memory

  const INC32 := [0, 1, 2, 1, 0, 4, 4, 4]
  const DEC64 := [0, 0, 0, -1, -4, 1, 2, 3]

  /** What byte `k` of a match with this offset must be. */
  ghost predicate Follows(m: seq<byte>, offset: nat, k: int)
    requires offset <= k < |m|
  {
    m[k] == if offset == 0 then 0 else m[k - offset]
  }

  /** After the first eight bytes the source pointer trails the destination by `d`: a
      multiple of the offset, at least eight, and not more than eight beyond the offset. */
  ghost predicate Spread(offset: nat, d: int) {
    && 8 <= d <= offset + 8
    && (offset >= 8 ==> d == offset)
    && (0 < offset < 8 ==> exists c: nat :: c * offset == d)
  }

  lemma SpreadTable(offset: nat, c: nat, d: int)
    requires 0 < offset < 8
    requires d == c * offset && 8 <= d <= offset + 8
    ensures Spread(offset, d)
  {
  }

  /** The first four bytes of a match, written one at a time. */
  method CopyFirst4(mem: array<byte>, op: nat, offset: nat)
    requires offset < 8 && offset <= op && op + 8 <= mem.Length
    requires offset == 0 ==> forall k :: op <= k < op + 4 ==> mem[k] == 0
    modifies mem
    ensures forall k :: op <= k < op + 4 ==> mem[k] == if offset == 0 then 0 else mem[k - offset]
    ensures SameOutside(old(mem[..]), mem[..], op, op + 4)
  {
    var m := op - offset;
    mem[op] := mem[m];
    mem[op + 1] := mem[m + 1];
    mem[op + 2] := mem[m + 2];
    mem[op + 3] := mem[m + 3];
  }

  /** The second four bytes, taken INC32 places after the match start, keep the period. */
  lemma SecondFour(was: seq<byte>, now: seq<byte>, op: nat, offset: nat)
    requires offset < 8 && offset <= op && op + 8 <= |was| == |now|
    requires forall k :: op <= k < op + 4 ==> Follows(was, offset, k)
    requires forall k :: 0 <= k < op + 4 ==> now[k] == was[k]
    requires forall k :: op + 4 <= k < op + 8 ==> now[k] == was[op - offset + INC32[offset] + (k - (op + 4))]
    ensures forall k :: op <= k < op + 8 ==> Follows(now, offset, k)
  {
    assert Follows(was, offset, op) && Follows(was, offset, op + 1)
        && Follows(was, offset, op + 2) && Follows(was, offset, op + 3);
    assert Follows(now, offset, op + 4);
    assert Follows(now, offset, op + 5);
    assert Follows(now, offset, op + 6);
    assert Follows(now, offset, op + 7);
    forall k | op <= k < op + 8 ensures Follows(now, offset, k) {
      if k < op + 4 {
        assert Follows(was, offset, k);
      }
    }
  }

  /** The first eight bytes when the offset is below eight. */
  method CopyFirst8Near(mem: array<byte>, op: nat, offset: nat) returns (from: int)
    requires offset < 8 && offset <= op && op + 8 <= mem.Length
    requires offset == 0 ==> forall k :: op <= k < op + 4 ==> mem[k] == 0
    modifies mem
    ensures forall k :: op <= k < op + 8 ==> mem[k] == if offset == 0 then 0 else mem[k - offset]
    ensures SameOutside(old(mem[..]), mem[..], op, op + 8)
    ensures Spread(offset, op + 8 - from)
  {
    CopyFirst4(mem, op, offset);
    from := op - offset + INC32[offset];
    ghost var was := mem[..];
    Move(mem, op + 4, from, 4);
    from := from - DEC64[offset];
    ghost var now := mem[..];
    assert forall k :: 0 <= k < op + 4 ==> now[k] == was[k];
    assert forall k :: op + 4 <= k < op + 8 ==> now[k] == was[op - offset + INC32[offset] + (k - (op + 4))];
    assert forall i :: op <= i < op + 4 ==> Follows(was, offset, i);
    SecondFour(was, now, op, offset);
    forall k | op <= k < op + 8 ensures mem[k] == if offset == 0 then 0 else mem[k - offset] {
      assert Follows(now, offset, k);
    }
    if offset > 0 {
      SpreadTable(offset, [0, 8, 4, 3, 2, 2, 2, 2][offset], op + 8 - from);
    }
  }

  /** The first eight bytes of a match that lies wholly in the current segment. */
  method CopyFirst8(mem: array<byte>, op: nat, offset: nat) returns (from: int)
    requires offset <= op && op + 8 <= mem.Length
    requires offset == 0 ==> forall k :: op <= k < op + 4 ==> mem[k] == 0
    modifies mem
    ensures forall k :: op <= k < op + 8 ==> mem[k] == if offset == 0 then 0 else mem[k - offset]
    ensures SameOutside(old(mem[..]), mem[..], op, op + 8)
    ensures Spread(offset, op + 8 - from)
  {
    if offset < 8 {
      from := CopyFirst8Near(mem, op, offset);
    } else {
      Move(mem, op, op - offset, 8);
      from := op - offset + 8;
    }
  }

  /** Copies onwards from `op` to `cpy` at distance `op - from`, eight bytes at a time where
      that stays inside the buffer and byte by byte at its very end. */
  method CopyRest(mem: array<byte>, op: nat, from: nat, cpy: nat, length: nat, oend: nat)
    requires from + 8 <= op && oend <= mem.Length && MINMATCH <= length
    requires cpy == op - 8 + length && cpy <= oend - LASTLITERALS && op - 8 + 12 <= oend
    modifies mem
    ensures forall k :: op <= k < cpy ==> mem[k] == mem[k - (op - from)]
    ensures SameOutside(old(mem[..]), mem[..], op, oend)
  {
    if cpy > oend - 12 {
      CopyRestAtEnd(mem, op, from, cpy, oend);
    } else {
      Move(mem, op, from, 8);
      if length > 16 {
        ghost var was := mem[..];
        WildCopy(mem, op + 8, from + 8, cpy);
        assert forall k :: 0 <= k < op + 8 ==> mem[..][k] == was[k];
      }
    }
  }

  method CopyRestAtEnd(mem: array<byte>, op: nat, from: nat, cpy: nat, oend: nat)
    requires from + 8 <= op && oend <= mem.Length
    requires cpy <= oend - LASTLITERALS && op <= oend
    modifies mem
    ensures forall k :: op <= k < cpy ==> mem[k] == mem[k - (op - from)]
    ensures SameOutside(old(mem[..]), mem[..], op, oend)
  {
    var oCopyLimit := oend - (WILDCOPYLENGTH - 1);
    var o, f := op, from;
    if o < oCopyLimit {
      WildCopy(mem, o, f, oCopyLimit);
      f := f + (oCopyLimit - o);
      o := oCopyLimit;
    }
    while o < cpy
      invariant op <= o && o - f == op - from && o <= oend
      invariant o < cpy ==> o <= cpy
      invariant forall k :: op <= k < o ==> mem[k] == mem[k - (op - from)]
      invariant SameOutside(old(mem[..]), mem[..], op, oend)
    {
      mem[o] := mem[f];
      o, f := o + 1, f + 1;
    }
  }

  lemma {:induction false} StepsBack(m: seq<byte>, lo: int, hi: int, offset: nat, x: int, j: nat)
    requires 0 < offset <= lo <= hi <= |m|
    requires forall k :: lo <= k < hi ==> m[k] == m[k - offset]
    requires lo - offset <= x - j * offset <= x < hi
    ensures m[x] == m[x - j * offset]
    decreases j
  {
    if j > 0 {
      assert x >= lo - offset + j * offset >= lo;
      StepsBack(m, lo, hi, offset, x - offset, j - 1);
    }
  }

  /** Copying at a spread distance prolongs the period of the first eight bytes. */
  lemma {:induction false} SpreadKeepsPeriod(m: seq<byte>, op: nat, cpy: int, offset: nat, d: int, k: int)
    requires offset <= op && op + 8 <= |m| && cpy <= |m|
    requires Spread(offset, d)
    requires forall i :: op <= i < op + 8 ==> Follows(m, offset, i)
    requires forall i :: op + 8 <= i < cpy ==> m[i] == m[i - d]
    requires op <= k < cpy
    ensures Follows(m, offset, k)
    decreases k
  {
    if k < op + 8 || offset >= 8 {
    } else if offset == 0 {
      SpreadKeepsPeriod(m, op, cpy, offset, d, k - d);
    } else if k - offset >= op + 8 {
      SpreadKeepsPeriod(m, op, cpy, offset, d, k - d);
      assert m[k - offset] == m[k - offset - d];
    } else {
      var c: nat :| c * offset == d;
      assert c >= 1;
      forall i | op <= i < op + 8 ensures m[i] == m[i - offset] {
        assert Follows(m, offset, i);
      }
      assert (c - 1) * offset == d - offset;
      StepsBack(m, op, op + 8, offset, k - offset, c - 1);
    }
  }

  /** Copies a match inside the current segment; fails when it would end in the last five
      bytes of the buffer. */
  method CopyMatchInSegment(mem: array<byte>, op: nat, offset: nat, length: nat, oend: nat) returns (ok: bool)
    requires offset <= op && op + MFLIMIT <= oend <= mem.Length && MINMATCH <= length
    requires offset == 0 ==> forall k :: op <= k < op + 4 ==> mem[k] == 0
    modifies mem
    ensures ok <==> op + length <= oend - LASTLITERALS
    ensures ok ==> forall k :: op <= k < op + length ==> Follows(mem[..], offset, k)
    ensures SameOutside(old(mem[..]), mem[..], op, oend)
  {
    var cpy := op + length;
    var from := CopyFirst8(mem, op, offset);
    if cpy > oend - LASTLITERALS {
      return false;
    }
    ghost var was := mem[..];
    CopyRest(mem, op + 8, from, cpy, length, oend);
    ghost var now := mem[..];
    assert forall k :: 0 <= k < op + 8 ==> now[k] == was[k];
    assert forall i :: op <= i < op + 8 ==> Follows(now, offset, i);
    forall k | op <= k < cpy ensures Follows(now, offset, k) {
      SpreadKeepsPeriod(now, op, cpy, offset, op + 8 - from, k);
    }
    ok := true;
  }

  /** Copies a match that starts in the external dictionary (which ends at `dictEnd`) and may
      run on into the current segment (which starts at `lowPrefix`). */
  method CopyMatchFromDict(mem: array<byte>, op: nat, offset: nat, length: nat, oend: nat, lowPrefix: nat, dictEnd: nat)
    returns (ok: bool)
    requires lowPrefix <= op <= oend <= mem.Length
    requires op - lowPrefix < offset <= op - lowPrefix + dictEnd && dictEnd <= mem.Length
    modifies mem
    ensures ok <==> op + length <= oend - LASTLITERALS
    ensures var n := offset - (op - lowPrefix);
            ok ==> forall k :: op <= k < op + length && k < op + n && Disjoint(dictEnd - n, dictEnd, op, oend)
                          ==> mem[k] == old(mem[dictEnd - n + (k - op)])
    ensures var n := offset - (op - lowPrefix);
            ok ==> forall k :: op + n <= k < op + length ==> mem[k] == mem[k - offset]
    ensures SameOutside(old(mem[..]), mem[..], op, oend)
  {
    if op + length > oend - LASTLITERALS {
      return false;
    }
    var n := offset - (op - lowPrefix);
    if length <= n {
      Move(mem, op, dictEnd - n, length);
    } else {
      Move(mem, op, dictEnd - n, n);
      ghost var was := mem[..];
      CopyTail(mem, op + n, lowPrefix, length - n, oend);
      assert forall k :: op <= k < op + n ==> mem[..][k] == was[k];
      assert op + n - lowPrefix == offset;
    }
    ok := true;
  }

  /** The rest of a match that started in the dictionary: byte by byte when it overlaps
      itself, in one go otherwise. */
  method CopyTail(mem: array<byte>, op: nat, lowPrefix: nat, restSize: nat, oend: nat)
    requires lowPrefix < op && op + restSize <= oend <= mem.Length
    modifies mem
    ensures forall k :: op <= k < op + restSize ==> mem[k] == mem[k - (op - lowPrefix)]
    ensures SameOutside(old(mem[..]), mem[..], op, op + restSize)
  {
    if restSize > op - lowPrefix {
      var o, from := op, lowPrefix;
      while o < op + restSize
        invariant op <= o <= op + restSize && o - from == op - lowPrefix
        invariant forall k :: op <= k < o ==> mem[k] == mem[k - (op - lowPrefix)]
        invariant SameOutside(old(mem[..]), mem[..], op, op + restSize)
      {
        mem[o] := mem[from];
        o, from := o + 1, from + 1;
      }
    } else {
      Move(mem, op, lowPrefix, restSize);
    }
  }
}
