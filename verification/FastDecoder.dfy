/** LZ4_decompress_generic (endOnInputSize, full decoding), proved to refine the
    byte-at-a-time reference decoder for every block, capacity and history. */
module FastDecoder {
  import opened BlockFormat
  import opened Memory
  import opened MatchCopy

  /** Where a decoding call finds its input, its output space and its history.  The history
      is an optional external dictionary followed by the bytes at `lowPrefix..dst`. */
  datatype Job = Job(src: nat, iend: nat, dst: nat, oend: nat,
                     usingExtDict: bool, lowPrefix: nat, dictEnd: nat, dictSize: nat)
  {
    predicate Valid(size: nat) {
      && src <= iend && iend + 2 <= size
      && lowPrefix <= dst <= oend <= size
      && dictSize <= dictEnd <= size
      && (!usingExtDict ==> dictSize == 0)
      && Disjoint(src, iend, dst, oend)
    }
  }

  /** The last `hd` bytes of the dictionary are all that any offset can reach. */
  predicate Reaches(hd: nat, dictSize: nat) {
    hd == dictSize || hd >= MAX_DISTANCE
  }

  /** History and output as one sequence; of the dictionary only its last `hd` bytes, those
      no output can overwrite. */
  ghost function Window(m: seq<byte>, j: Job, hd: nat, op: nat): (w: seq<byte>)
    requires j.Valid(|m|) && hd <= j.dictSize && j.lowPrefix <= op <= |m|
    ensures |w| == hd + (op - j.lowPrefix)
  {
    m[j.dictEnd - hd..j.dictEnd] + m[j.lowPrefix..op]
  }

  ghost function Input(m: seq<byte>, j: Job): (s: seq<byte>)
    requires j.Valid(|m|)
    ensures |s| == j.iend - j.src
  {
    m[j.src..j.iend]
  }

  lemma InputAt(m: seq<byte>, j: Job, p: nat)
    requires j.Valid(|m|) && j.src <= p < j.iend
    ensures Input(m, j)[p - j.src] == m[p]
  {
  }

  lemma InputSlice(m: seq<byte>, j: Job, a: nat, b: nat)
    requires j.Valid(|m|) && j.src <= a <= b <= j.iend
    ensures m[a..b] == Input(m, j)[a - j.src..b - j.src]
  {
    SliceOfSlice(m, j.src, j.iend, a, b);
  }

  lemma LiteralsExtendWindow(m0: seq<byte>, m1: seq<byte>, j: Job, hd: nat, op: nat, lits: seq<byte>)
    requires j.Valid(|m0|) && hd <= j.dictSize && j.dst <= op && op + |lits| <= j.oend
    requires Disjoint(j.dictEnd - hd, j.dictEnd, j.dst, j.oend)
    requires SameOutside(m0, m1, op, j.oend)
    requires m1[op..op + |lits|] == lits
    ensures Window(m1, j, hd, op + |lits|) == Window(m0, j, hd, op) + lits
  {
    assert m1[j.lowPrefix..op + |lits|] == m0[j.lowPrefix..op] + lits by {
      assert m1[j.lowPrefix..op + |lits|] == m1[j.lowPrefix..op] + m1[op..op + |lits|];
      assert m1[j.lowPrefix..op] == m0[j.lowPrefix..op];
    }
    assert m1[j.dictEnd - hd..j.dictEnd] == m0[j.dictEnd - hd..j.dictEnd];
  }

  /** What byte `k` of a match must be, wherever its source lies. */
  ghost predicate Copied(m: seq<byte>, j: Job, offset: nat, k: nat)
    requires j.Valid(|m|) && j.lowPrefix <= k < |m| && offset <= (k - j.lowPrefix) + j.dictSize
  {
    m[k] == if offset == 0 then 0
            else if k - offset >= j.lowPrefix then m[k - offset]
            else m[j.dictEnd - (j.lowPrefix - (k - offset))]
  }

  lemma WindowAt(m: seq<byte>, j: Job, hd: nat, op: nat, i: nat)
    requires j.Valid(|m|) && hd <= j.dictSize && j.lowPrefix <= op <= |m|
    requires i < hd + (op - j.lowPrefix)
    ensures Window(m, j, hd, op)[i] == if i < hd then m[j.dictEnd - hd + i] else m[j.lowPrefix + (i - hd)]
  {
  }

  lemma CopiedInWindow(m: seq<byte>, j: Job, hd: nat, op: nat, offset: nat, i: nat)
    requires j.Valid(|m|) && hd <= j.dictSize && j.lowPrefix <= op <= |m|
    requires hd <= i < hd + (op - j.lowPrefix) && offset <= i
    requires Copied(m, j, offset, j.lowPrefix + (i - hd))
    ensures var r := Window(m, j, hd, op); r[i] == if offset == 0 then 0 else r[i - offset]
  {
    WindowAt(m, j, hd, op, i);
    WindowAt(m, j, hd, op, i - offset);
  }

  lemma MatchExtendsWindow(m0: seq<byte>, m1: seq<byte>, j: Job, hd: nat, op: nat, offset: nat, ml: nat)
    requires j.Valid(|m0|) && hd <= j.dictSize && j.dst <= op && op + ml <= j.oend
    requires Disjoint(j.dictEnd - hd, j.dictEnd, j.dst, j.oend)
    requires SameOutside(m0, m1, op, j.oend)
    requires offset <= (op - j.lowPrefix) + hd
    requires forall k :: op <= k < op + ml ==> Copied(m1, j, offset, k)
    ensures Window(m1, j, hd, op + ml) == CopyMatch(Window(m0, j, hd, op), offset, ml)
  {
    hide CopyMatch, Window;
    var w, r := Window(m0, j, hd, op), Window(m1, j, hd, op + ml);
    LiteralsExtendWindow(m0, m1, j, hd, op, m1[op..op + ml]);
    forall i | |w| <= i < |r| ensures r[i] == if offset == 0 then 0 else r[i - offset] {
      assert Copied(m1, j, offset, j.lowPrefix + (i - hd));
      CopiedInWindow(m1, j, hd, op + ml, offset, i);
    }
    CopyMatchUnique(w, offset, ml, r);
  }

  // ---------------------------------------------------------------- reading lengths

  /** The literal-length run; it may stop early, but only where the length already overruns
      the input. */
  method ReadLiteralRun(mem: array<byte>, src: nat, iend: nat, ip0: nat) returns (length: nat, ip: nat)
    requires src <= iend && src <= ip0 <= iend + 1 && iend + 2 <= mem.Length
    ensures ip0 < ip && 15 <= length
    ensures ip + length <= iend ==> ReadRun(mem[src..iend], ip0 - src, 15) == Some((length, ip - src))
    ensures match ReadRun(mem[src..iend], ip0 - src, 15)
            case None => true
            case Some((v, q)) => src + q + v <= iend ==> length == v && ip == src + q
  {
    ghost var s := mem[src..iend];
    var b: int := mem[ip0];
    ip, length := ip0 + 1, 15 + b;
    while ip < iend - 15 && b == 255
      invariant ip0 < ip && 15 <= length && 0 <= b <= 255 && (b == 255 ==> 15 + 255 <= length)
      invariant ip0 < iend ==> ip <= iend
      invariant ip0 < iend ==>
        ReadRun(s, ip0 - src, 15) == if b == 255 then ReadRun(s, ip - src, length) else Some((length, ip - src))
      decreases iend - ip
    {
      b := mem[ip];
      assert b == s[ip - src];
      ip, length := ip + 1, length + b;
    }
  }

  /** The match-length run, which must leave at least the last five bytes unread. */
  method ReadMatchRun(mem: array<byte>, src: nat, iend: nat, ip0: nat) returns (ok: bool, length: nat, ip: nat)
    requires src <= ip0 <= iend && iend + 2 <= mem.Length
    ensures ok ==> ip <= iend - LASTLITERALS && ReadRun(mem[src..iend], ip0 - src, 15) == Some((length, ip - src))
    ensures match ReadRun(mem[src..iend], ip0 - src, 15)
            case None => true
            case Some((v, q)) => src + q <= iend - LASTLITERALS ==> ok
  {
    ghost var s := mem[src..iend];
    var b: int := 255;
    ip, length := ip0, 15;
    ok := true;
    while b == 255
      invariant ip0 <= ip <= iend && 0 <= b <= 255
      invariant ip == ip0 || ip <= iend - LASTLITERALS
      invariant b != 255 ==> ip0 < ip
      invariant ReadRun(s, ip0 - src, 15) == if b == 255 then ReadRun(s, ip - src, length) else Some((length, ip - src))
      decreases iend - ip, b
    {
      b := mem[ip];
      ip := ip + 1;
      if ip > iend - LASTLITERALS {
        return false, length, ip;
      }
      assert b == s[ip - 1 - src];
      length := length + b;
    }
  }

  // ---------------------------------------------------------------- one sequence

  datatype Status = Continue | Done | Error

  /** What decoding the sequence at index `i` of block `s` does to window `w`: a final
      sequence appends its literals, a full one its literals and its match.  The result `w'`
      is only pinned down when the offset stays within `w`. */
  ghost predicate Stepped(s: seq<byte>, j: Job, w: seq<byte>, w': seq<byte>, i: nat, op: nat,
                          status: Status, i': nat, op': nat)
  {
    match status
    case Error => true
    case Done =>
      var p := ParseAt(s, i);
      && p.Final? && op' == op + (|s| - p.literals) && op' <= j.oend
      && w' == w + s[p.literals..]
    case Continue =>
      var p := ParseAt(s, i);
      && p.Full? && i' == p.next && op' == op + p.length + p.matchLength && op' <= j.oend
      && p.offset <= (op - j.lowPrefix) + p.length + j.dictSize
      && (p.offset <= |w| + p.length ==>
            w' == CopyMatch(w + s[p.literals..p.literals + p.length], p.offset, p.matchLength))
  }

  /** A sequence the decoder must not refuse. */
  ghost predicate MustAccept(s: seq<byte>, j: Job, i: nat, op: nat) {
    match ParseAt(s, i)
    case Malformed => false
    case Final(p) => op + (|s| - p) <= j.oend
    case Full(_, ll, offset, ml, q) =>
      && op + ll + MFLIMIT <= j.oend && op + ll + ml + LASTLITERALS <= j.oend
      && q + 1 + LASTLITERALS <= |s|
      && offset <= (op - j.lowPrefix) + ll + j.dictSize
  }

  lemma ShortcutWindow(m0: seq<byte>, m1: seq<byte>, m2: seq<byte>, j: Job, hd: nat,
                       ip: nat, op: nat, ll: nat, off: nat, ml: nat)
    requires j.Valid(|m0|) && hd <= j.dictSize && Disjoint(j.dictEnd - hd, j.dictEnd, j.dst, j.oend)
    requires j.src <= ip && ip + 16 <= j.iend && j.dst <= op && op + 32 <= j.oend
    requires ll <= 14 && ml <= 18 && off >= 18 && op + ll - off >= j.lowPrefix
    requires SameOutside(m0, m1, op, op + 16) && SameOutside(m1, m2, op + ll, op + ll + 18)
    requires forall k :: op <= k < op + ll ==> m1[k] == m0[ip + (k - op)]
    requires forall k :: op + ll <= k < op + ll + ml ==> m2[k] == m1[k - off]
    ensures SameOutside(m0, m2, op, j.oend)
    ensures Window(m2, j, hd, op + ll + ml)
         == CopyMatch(Window(m0, j, hd, op) + Input(m0, j)[ip - j.src..ip - j.src + ll], off, ml)
  {
    hide CopyMatch, Window, Input;
    InputSlice(m0, j, ip, ip + ll);
    assert m1[op..op + ll] == m0[ip..ip + ll];
    LiteralsExtendWindow(m0, m1, j, hd, op, m0[ip..ip + ll]);
    forall k | op + ll <= k < op + ll + ml ensures Copied(m2, j, off, k) {
      assert m2[k] == m1[k - off];
    }
    MatchExtendsWindow(m1, m2, j, hd, op + ll, off, ml);
  }

  /** The shortcut for short literal runs followed by short matches with no overlap: sixteen
      bytes, then eighteen bytes, copied without looking at the true lengths. */
  method Shortcut(mem: array<byte>, j: Job, ghost hd: nat, ip: nat, op: nat, ll: nat, off: nat, ml: nat)
    requires j.Valid(mem.Length) && hd <= j.dictSize && Disjoint(j.dictEnd - hd, j.dictEnd, j.dst, j.oend)
    requires j.src <= ip && ip + 16 <= j.iend && j.dst <= op && op + 32 <= j.oend
    requires ll <= 14 && MINMATCH <= ml <= 18 && off >= 18 && op + ll - off >= j.lowPrefix
    modifies mem
    ensures SameOutside(old(mem[..]), mem[..], op, j.oend)
    ensures Window(mem[..], j, hd, op + ll + ml)
         == CopyMatch(old(Window(mem[..], j, hd, op) + Input(mem[..], j)[ip - j.src..ip - j.src + ll]), off, ml)
  {
    ghost var m0 := mem[..];
    Move(mem, op, ip, 16);
    ghost var m1 := mem[..];
    assert forall k :: op <= k < op + ll ==> m1[k] == m0[ip + (k - op)];
    Move(mem, op + ll, op + ll - off, 18);
    ghost var m2 := mem[..];
    assert forall k :: op + ll <= k < op + ll + ml ==> m2[k] == m1[k - off];
    ShortcutWindow(m0, m1, m2, j, hd, ip, op, ll, off, ml);
  }

  /** The match of a sequence, once its offset and length are known. */
  method CopyOneMatch(mem: array<byte>, j: Job, ghost hd: nat, op: nat, offset: nat, length: nat) returns (ok: bool)
    requires j.Valid(mem.Length) && hd <= j.dictSize && Disjoint(j.dictEnd - hd, j.dictEnd, j.dst, j.oend)
    requires j.dst <= op && op + MFLIMIT <= j.oend && MINMATCH <= length
    requires offset <= (op - j.lowPrefix) + j.dictSize
    requires offset == 0 ==> forall k :: op <= k < op + 4 ==> mem[k] == 0
    modifies mem
    ensures ok <==> op + length <= j.oend - LASTLITERALS
    ensures SameOutside(old(mem[..]), mem[..], op, j.oend)
    ensures ok && offset <= (op - j.lowPrefix) + hd ==>
      Window(mem[..], j, hd, op + length) == CopyMatch(old(Window(mem[..], j, hd, op)), offset, length)
  {
    ghost var m0 := mem[..];
    if j.usingExtDict && op - offset < j.lowPrefix {
      ok := CopyMatchFromDict(mem, op, offset, length, j.oend, j.lowPrefix, j.dictEnd);
      ghost var m1 := mem[..];
      if ok && offset <= (op - j.lowPrefix) + hd {
        ghost var n := offset - (op - j.lowPrefix);
        forall k | op <= k < op + length ensures Copied(m1, j, offset, k) {
          if k < op + n {
            assert m1[k] == m0[j.dictEnd - n + (k - op)];
            assert m1[j.dictEnd - n + (k - op)] == m0[j.dictEnd - n + (k - op)];
          }
        }
        MatchExtendsWindow(m0, m1, j, hd, op, offset, length);
      }
    } else {
      ok := CopyMatchInSegment(mem, op, offset, length, j.oend);
      ghost var m1 := mem[..];
      if ok {
        forall k | op <= k < op + length ensures Copied(m1, j, offset, k) {
          assert Follows(m1, offset, k);
        }
        if offset <= (op - j.lowPrefix) + hd {
          MatchExtendsWindow(m0, m1, j, hd, op, offset, length);
        }
      }
    }
  }

  /** Puts the offset bytes where the match will go: this is what makes offset 0 mean zeros. */
  method WriteOffset(mem: array<byte>, j: Job, ghost hd: nat, p: nat, op: nat) returns (offset: nat)
    requires j.Valid(mem.Length) && hd <= j.dictSize && Disjoint(j.dictEnd - hd, j.dictEnd, j.dst, j.oend)
    requires j.src <= p && p + 2 <= j.iend && j.dst <= op && op + 4 <= j.oend
    modifies mem
    ensures offset == ReadLE16(old(Input(mem[..], j)), p - j.src)
    ensures Input(mem[..], j) == old(Input(mem[..], j))
    ensures Window(mem[..], j, hd, op) == old(Window(mem[..], j, hd, op))
    ensures offset == 0 ==> forall k :: op <= k < op + 4 ==> mem[k] == 0
    ensures SameOutside(old(mem[..]), mem[..], op, j.oend)
  {
    ghost var m0 := mem[..];
    var lo: int, hi: int := mem[p], mem[p + 1];
    assert lo == Input(m0, j)[p - j.src] && hi == Input(m0, j)[p - j.src + 1];
    offset := lo + 256 * hi;
    mem[op], mem[op + 1], mem[op + 2], mem[op + 3] := mem[p], mem[p + 1], 0, 0;
    WindowKept(m0, mem[..], j, hd, op);
  }

  /** The match length behind an offset. */
  method ReadMatchLength(mem: array<byte>, j: Job, nibble: nat, p: nat) returns (ok: bool, ml: nat, ip: nat)
    requires j.Valid(mem.Length) && nibble <= 15 && j.src <= p && p + 6 <= j.iend
    ensures ok ==> j.src <= ip <= j.iend - LASTLITERALS
    ensures ok ==> ReadLength(Input(mem[..], j), p - j.src, nibble) == Some((ml, ip - j.src))
    ensures var l := ReadLength(Input(mem[..], j), p - j.src, nibble);
            l.Some? && j.src + l.value.1 + LASTLITERALS <= j.iend ==> ok
  {
    if nibble == 15 {
      ok, ml, ip := ReadMatchRun(mem, j.src, j.iend, p);
    } else {
      ok, ml, ip := true, nibble, p;
    }
  }

  /** The match part of a sequence on the careful path: offset, length, copy. */
  method DecodeMatch(mem: array<byte>, j: Job, ghost hd: nat, nibble: nat, p: nat, op: nat)
    returns (ok: bool, ip': nat, op': nat)
    requires j.Valid(mem.Length) && hd <= j.dictSize && Disjoint(j.dictEnd - hd, j.dictEnd, j.dst, j.oend)
    requires nibble <= 15 && j.src <= p && p + 8 <= j.iend && j.dst <= op && op + MFLIMIT <= j.oend
    modifies mem
    ensures SameOutside(old(mem[..]), mem[..], op, j.oend)
    ensures ok ==> j.src <= ip' <= j.iend && op <= op' <= j.oend
    ensures ok ==>
      MatchDecoded(old(Input(mem[..], j)), j, old(Window(mem[..], j, hd, op)), Window(mem[..], j, hd, op'),
                   nibble, p - j.src, op, ip' - j.src, op')
    ensures MatchAcceptable(old(Input(mem[..], j)), j, nibble, p - j.src, op) ==> ok
  {
    hide CopyMatch, Window, Input;
    ip', op' := p, op;
    ghost var m0 := mem[..];
    ghost var s := Input(mem[..], j);
    var offset := WriteOffset(mem, j, hd, p, op);
    if j.dictSize < DICT64K && op - offset + j.dictSize < j.lowPrefix {
      return false, ip', op';   // offset outside buffers
    }
    assert Input(m0, j) == s;
    assert offset <= (op - j.lowPrefix) + j.dictSize;
    var ml;
    ok, ml, ip' := ReadMatchLength(mem, j, nibble, p + 2);
    if !ok {
      return;
    }
    ok := CopyOneMatch(mem, j, hd, op, offset, ml + MINMATCH);
    op' := op + ml + MINMATCH;
  }

  /** The match described by the fields at index `p` of `s` takes window `w` to `w'`. */
  ghost predicate MatchDecoded(s: seq<byte>, j: Job, w: seq<byte>, w': seq<byte>, nibble: nat, p: nat, op: nat,
                               i': nat, op': nat)
    requires nibble <= 15 && p + 2 <= |s|
  {
    var offset := ReadLE16(s, p);
    var l := ReadLength(s, p + 2, nibble);
    && l.Some? && i' == l.value.1 && op' == op + l.value.0 + MINMATCH
    && op' + LASTLITERALS <= j.oend && offset <= (op - j.lowPrefix) + j.dictSize
    && (offset <= |w| ==> w' == CopyMatch(w, offset, l.value.0 + MINMATCH))
  }

  ghost predicate MatchAcceptable(s: seq<byte>, j: Job, nibble: nat, p: nat, op: nat)
    requires nibble <= 15 && p + 2 <= |s|
  {
    var l := ReadLength(s, p + 2, nibble);
    && ReadLE16(s, p) <= (op - j.lowPrefix) + j.dictSize
    && l.Some? && op + l.value.0 + MINMATCH + LASTLITERALS <= j.oend
    && l.value.1 + LASTLITERALS <= |s|
  }

  /** Writing in the output space leaves the window below and the input alone. */
  lemma WindowKept(m0: seq<byte>, m1: seq<byte>, j: Job, hd: nat, op: nat)
    requires j.Valid(|m0|) && hd <= j.dictSize && Disjoint(j.dictEnd - hd, j.dictEnd, j.dst, j.oend)
    requires j.dst <= op <= j.oend
    requires SameOutside(m0, m1, op, j.oend)
    ensures Window(m1, j, hd, op) == Window(m0, j, hd, op)
    ensures Input(m1, j) == Input(m0, j)
  {
    assert m1[j.dictEnd - hd..j.dictEnd] == m0[j.dictEnd - hd..j.dictEnd];
    assert m1[j.lowPrefix..op] == m0[j.lowPrefix..op];
  }

  /** The literals of the last sequence, which must use up the input exactly. */
  method FinishBlock(mem: array<byte>, j: Job, ghost hd: nat, p: nat, op: nat, length: nat) returns (ok: bool)
    requires j.Valid(mem.Length) && hd <= j.dictSize && Disjoint(j.dictEnd - hd, j.dictEnd, j.dst, j.oend)
    requires j.src <= p && j.dst <= op <= j.oend
    modifies mem
    ensures ok <==> p + length == j.iend && op + length <= j.oend
    ensures SameOutside(old(mem[..]), mem[..], op, j.oend)
    ensures ok ==> Window(mem[..], j, hd, op + length) == old(Window(mem[..], j, hd, op) + Input(mem[..], j)[p - j.src..])
  {
    if p + length != j.iend || op + length > j.oend {
      return false;
    }
    hide Window, Input, SameOutside;
    ghost var m0 := mem[..];
    Copy(mem, op, p, length);
    LastLiteralsCopied(m0, mem[..], j, hd, p, op, length);
    ok := true;
  }

  lemma LastLiteralsCopied(m0: seq<byte>, m1: seq<byte>, j: Job, hd: nat, p: nat, op: nat, length: nat)
    requires j.Valid(|m0|) && hd <= j.dictSize && Disjoint(j.dictEnd - hd, j.dictEnd, j.dst, j.oend)
    requires j.src <= p && p + length == j.iend && j.dst <= op && op + length <= j.oend
    requires SameOutside(m0, m1, op, op + length) && m1[op..op + length] == m0[p..p + length]
    ensures SameOutside(m0, m1, op, j.oend)
    ensures Window(m1, j, hd, op + length) == Window(m0, j, hd, op) + Input(m0, j)[p - j.src..]
  {
    hide Window;
    InputSlice(m0, j, p, j.iend);
    LiteralsExtendWindow(m0, m1, j, hd, op, m0[p..j.iend]);
  }

  /** The literals of a sequence that a match follows. */
  method CopyLiterals(mem: array<byte>, j: Job, ghost hd: nat, p: nat, op: nat, length: nat)
    requires j.Valid(mem.Length) && hd <= j.dictSize && Disjoint(j.dictEnd - hd, j.dictEnd, j.dst, j.oend)
    requires j.src <= p && p + length + 8 <= j.iend && j.dst <= op && op + length + MFLIMIT <= j.oend
    modifies mem
    ensures SameOutside(old(mem[..]), mem[..], op, j.oend)
    ensures Window(mem[..], j, hd, op + length)
         == old(Window(mem[..], j, hd, op) + Input(mem[..], j)[p - j.src..p - j.src + length])
    ensures Input(mem[..], j) == old(Input(mem[..], j))
  {
    ghost var m0 := mem[..];
    WildCopy(mem, op, p, op + length);
    ghost var m1 := mem[..];
    assert forall k :: op <= k < op + length ==> m1[k] == m1[p + (k - op)];
    LiteralsCopied(m0, m1, j, hd, p, op, length);
  }

  lemma LiteralsCopied(m0: seq<byte>, m1: seq<byte>, j: Job, hd: nat, p: nat, op: nat, length: nat)
    requires j.Valid(|m0|) && hd <= j.dictSize && Disjoint(j.dictEnd - hd, j.dictEnd, j.dst, j.oend)
    requires j.src <= p && p + length <= j.iend && j.dst <= op && op + length + WILDCOPYLENGTH <= j.oend
    requires SameOutside(m0, m1, op, WildEnd(op, op + length))
    requires forall k :: op <= k < op + length ==> m1[k] == m1[p + (k - op)]
    ensures SameOutside(m0, m1, op, j.oend)
    ensures Window(m1, j, hd, op + length) == Window(m0, j, hd, op) + Input(m0, j)[p - j.src..p - j.src + length]
    ensures Input(m1, j) == Input(m0, j)
  {
    hide Window, Input;
    assert m1[op..op + length] == m0[p..p + length] by {
      assert forall k :: op <= k < op + length ==> m1[k] == m0[p + (k - op)];
    }
    InputSlice(m0, j, p, p + length);
    LiteralsExtendWindow(m0, m1, j, hd, op, m0[p..p + length]);
    WindowKept(m0, m1, j, hd, op);
  }

  /** Literal length of the sequence whose token has this high nibble. */
  method ReadLiteralLength(mem: array<byte>, j: Job, nibble: nat, p: nat) returns (length: nat, ip: nat)
    requires j.Valid(mem.Length) && nibble <= 15 && j.src < p <= j.iend + 1
    ensures p <= ip
    ensures ip + length <= j.iend ==>
      ReadLength(Input(mem[..], j), p - j.src, nibble) == Some((length, ip - j.src))
    ensures p <= j.iend ==>
      match ReadLength(Input(mem[..], j), p - j.src, nibble)
      case None => true
      case Some((v, q)) => q + v <= j.iend - j.src ==> length == v && ip == j.src + q
  {
    if nibble == 15 {
      length, ip := ReadLiteralRun(mem, j.src, j.iend, p);
    } else {
      length, ip := nibble, p;
    }
  }

  lemma ShortcutStepped(s: seq<byte>, j: Job, w: seq<byte>, w': seq<byte>, i: nat, op: nat, ll: nat, off: nat, ml: nat)
    requires i + 17 <= |s| && s[i] == 16 * ll + (ml - MINMATCH) && ll < 15 && MINMATCH <= ml < 15 + MINMATCH
    requires off == ReadLE16(s, i + 1 + ll) && op + ll - off >= j.lowPrefix && op + 32 <= j.oend
    requires off <= |w| + ll ==> w' == CopyMatch(w + s[i + 1..i + 1 + ll], off, ml)
    ensures Stepped(s, j, w, w', i, op, Continue, i + 1 + ll + 2, op + ll + ml)
  {
    assert s[i] / 16 == ll && s[i] % 16 == ml - MINMATCH;
    assert ParseAt(s, i) == Full(i + 1, ll, off, ml, i + 1 + ll + 2);
  }

  lemma CarefulStepped(s: seq<byte>, j: Job, w: seq<byte>, w1: seq<byte>, w': seq<byte>, i: nat, op: nat,
                       length: nat, p: nat, i': nat, op': nat)
    requires i < |s| && i < p && p + length + 8 <= |s|
    requires ReadLength(s, i + 1, s[i] / 16) == Some((length, p))
    requires w1 == w + s[p..p + length]
    requires MatchDecoded(s, j, w1, w', s[i] % 16, p + length, op + length, i', op')
    ensures Stepped(s, j, w, w', i, op, Continue, i', op')
  {
    var l := ReadLength(s, p + length + 2, s[i] % 16).value;
    assert ParseAt(s, i) == Full(p, length, ReadLE16(s, p + length), l.0 + MINMATCH, l.1);
  }

  lemma FinishStepped(s: seq<byte>, j: Job, w: seq<byte>, w': seq<byte>, i: nat, op: nat, length: nat, p: nat)
    requires i < |s| && p + length == |s| && op + length <= j.oend
    requires ReadLength(s, i + 1, s[i] / 16) == Some((length, p))
    requires w' == w + s[p..]
    ensures Stepped(s, j, w, w', i, op, Done, |s|, op + length)
  {
    assert ParseAt(s, i) == Final(p);
  }

  /** A sequence past the end of the input is never acceptable. */
  lemma AcceptableIsInside(s: seq<byte>, j: Job, i: nat, op: nat)
    requires MustAccept(s, j, i, op)
    ensures i < |s|
  {
  }

  /** An acceptable sequence passes the checks of the careful path. */
  lemma CarefulAccepts(s: seq<byte>, j: Job, i: nat, op: nat, length: nat, p: nat)
    requires i < |s| && MustAccept(s, j, i, op)
    requires match ReadLength(s, i + 1, s[i] / 16)
             case None => true
             case Some((v, q)) => q + v <= |s| ==> length == v && p == q
    ensures p + length <= |s|
    ensures p + length == |s| ==> op + length <= j.oend
    ensures p + length < |s| ==>
      && p + length + 8 <= |s| && op + length + MFLIMIT <= j.oend
      && MatchAcceptable(s, j, s[i] % 16, p + length, op + length)
  {
  }

  method FetchLE16(mem: array<byte>, j: Job, p: nat) returns (v: nat)
    requires j.Valid(mem.Length) && j.src <= p && p + 2 <= j.iend
    ensures v == ReadLE16(Input(mem[..], j), p - j.src)
  {
    var lo: int, hi: int := mem[p], mem[p + 1];
    assert lo == Input(mem[..], j)[p - j.src] && hi == Input(mem[..], j)[p - j.src + 1];
    v := lo + 256 * hi;
  }

  /** Decodes the sequence at `ip`, or finds that there is none to decode. */
  method DecodeSequence(mem: array<byte>, j: Job, ghost hd: nat, ip: nat, op: nat)
    returns (status: Status, ip': nat, op': nat)
    requires j.Valid(mem.Length) && hd <= j.dictSize && Disjoint(j.dictEnd - hd, j.dictEnd, j.dst, j.oend)
    requires j.src <= ip <= j.iend && j.dst <= op <= j.oend
    modifies mem
    ensures SameOutside(old(mem[..]), mem[..], op, j.oend)
    ensures status != Error ==> j.src <= ip' <= j.iend && op <= op' <= j.oend
    ensures status != Error ==>
      Stepped(old(Input(mem[..], j)), j, old(Window(mem[..], j, hd, op)), Window(mem[..], j, hd, op'),
              ip - j.src, op, status, ip' - j.src, op')
    ensures MustAccept(old(Input(mem[..], j)), j, ip - j.src, op) ==> status != Error
  {
    hide Window, Input, SameOutside, CopyMatch, MustAccept, Stepped;
    ghost var s, w := Input(mem[..], j), Window(mem[..], j, hd, op);
    var token := mem[ip];
    var p := ip + 1;
    if p + 16 <= j.iend && op + 32 <= j.oend && token < 240 && token % 16 != 15 {
      var ll, ml := token / 16, token % 16 + MINMATCH;
      var off := FetchLE16(mem, j, p + ll);
      if off >= 18 && op + ll - off >= j.lowPrefix {
        InputAt(mem[..], j, ip);
        Shortcut(mem, j, hd, p, op, ll, off, ml);
        ShortcutStepped(s, j, w, Window(mem[..], j, hd, op + ll + ml), ip - j.src, op, ll, off, ml);
        return Continue, p + ll + 2, op + ll + ml;
      }
    }
    status, ip', op' := CarefulSequence(mem, j, hd, ip, op, token);
  }

  /** The general path of DecodeSequence. */
  method CarefulSequence(mem: array<byte>, j: Job, ghost hd: nat, ip: nat, op: nat, token: byte)
    returns (status: Status, ip': nat, op': nat)
    requires j.Valid(mem.Length) && hd <= j.dictSize && Disjoint(j.dictEnd - hd, j.dictEnd, j.dst, j.oend)
    requires j.src <= ip <= j.iend && j.dst <= op <= j.oend && token == mem[ip]
    modifies mem
    ensures SameOutside(old(mem[..]), mem[..], op, j.oend)
    ensures status != Error ==> j.src <= ip' <= j.iend && op <= op' <= j.oend
    ensures status != Error ==>
      Stepped(old(Input(mem[..], j)), j, old(Window(mem[..], j, hd, op)), Window(mem[..], j, hd, op'),
              ip - j.src, op, status, ip' - j.src, op')
    ensures MustAccept(old(Input(mem[..], j)), j, ip - j.src, op) ==> status != Error
  {
    hide Window, Input, SameOutside, CopyMatch, Decode, Restricted;
    hide MustAccept, Stepped, ReadLength, MatchAcceptable;
    ghost var s, w := Input(mem[..], j), Window(mem[..], j, hd, op);
    ip', op' := ip, op;
    if ip < j.iend {
      InputAt(mem[..], j, ip);
    }
    var length, p := ReadLiteralLength(mem, j, token / 16, ip + 1);
    if MustAccept(s, j, ip - j.src, op) {
      AcceptableIsInside(s, j, ip - j.src, op);
      CarefulAccepts(s, j, ip - j.src, op, length, p - j.src);
    }
    if op + length > j.oend - MFLIMIT || p + length > j.iend - (2 + 1 + LASTLITERALS) {
      var ok := FinishBlock(mem, j, hd, p, op, length);
      if ok {
        FinishStepped(s, j, w, Window(mem[..], j, hd, op + length), ip - j.src, op, length, p - j.src);
        return Done, j.iend, op + length;
      }
      return Error, ip', op';
    }
    status, ip', op' := LiteralsAndMatch(mem, j, hd, ip, op, token, length, p);
  }

  method LiteralsAndMatch(mem: array<byte>, j: Job, ghost hd: nat, ip: nat, op: nat, token: byte, length: nat, p: nat)
    returns (status: Status, ip': nat, op': nat)
    requires j.Valid(mem.Length) && hd <= j.dictSize && Disjoint(j.dictEnd - hd, j.dictEnd, j.dst, j.oend)
    requires j.src <= ip < p && p + length + 8 <= j.iend && j.dst <= op && op + length + MFLIMIT <= j.oend
    requires token == Input(mem[..], j)[ip - j.src]
    requires ReadLength(Input(mem[..], j), ip + 1 - j.src, token / 16) == Some((length, p - j.src))
    modifies mem
    ensures SameOutside(old(mem[..]), mem[..], op, j.oend)
    ensures status == Error || status == Continue
    ensures status != Error ==> j.src <= ip' <= j.iend && op <= op' <= j.oend
    ensures status != Error ==>
      Stepped(old(Input(mem[..], j)), j, old(Window(mem[..], j, hd, op)), Window(mem[..], j, hd, op'),
              ip - j.src, op, status, ip' - j.src, op')
    ensures MatchAcceptable(old(Input(mem[..], j)), j, token % 16, p + length - j.src, op + length) ==> status != Error
  {
    hide Window, Input, SameOutside, CopyMatch;
    ghost var s, w := Input(mem[..], j), Window(mem[..], j, hd, op);
    CopyLiterals(mem, j, hd, p, op, length);
    ghost var w1 := Window(mem[..], j, hd, op + length);
    var ok;
    ghost var m0, m1 := old(mem[..]), mem[..];
    ok, ip', op' := DecodeMatch(mem, j, hd, token % 16, p + length, op + length);
    SameOutsideCompose(m0, m1, mem[..], op, op + length, j.oend);
    if ok {
      CarefulStepped(s, j, w, w1, Window(mem[..], j, hd, op'), ip - j.src, op, length, p - j.src, ip' - j.src, op');
    }
    status := if ok then Continue else Error;
  }

  // ---------------------------------------------------------------- whole blocks

  /** A block the decoder has to decode: well formed, within the parsing restrictions, and
      small enough for the space given. */
  ghost predicate MustDecode(s: seq<byte>, h: seq<byte>, capacity: nat) {
    var d := Decode(s, 0, h);
    && d.Some? && Restricted(s, 0, |h|, |d.value|) && |d.value| - |h| <= capacity
    && (capacity > 0 || s == [0])
  }

  lemma MustDecodeDecodes(s: seq<byte>, h: seq<byte>, capacity: nat)
    requires MustDecode(s, h, capacity)
    ensures Decode(s, 0, h).Some?
  {
  }

  /** The decoder's progress: from index `i` on, the rest of block `s` makes of `w` what the
      whole block makes of history `h`. */
  ghost predicate Halfway(s: seq<byte>, h: seq<byte>, capacity: nat, w: seq<byte>, i: nat) {
    && Decode(s, i, w) == Decode(s, 0, h)
    && (MustDecode(s, h, capacity) ==> Restricted(s, i, |w|, |Decode(s, 0, h).value|))
  }

  lemma HalfwayStart(s: seq<byte>, h: seq<byte>, capacity: nat)
    ensures Halfway(s, h, capacity, h, 0)
  {
    hide Decode, Restricted;
  }

  lemma HalfwayIs(s: seq<byte>, h: seq<byte>, capacity: nat, w: seq<byte>, i: nat)
    requires Halfway(s, h, capacity, w, i)
    ensures Decode(s, i, w) == Decode(s, 0, h)
  {
  }

  lemma HalfwayMustAccept(s: seq<byte>, j: Job, h: seq<byte>, w: seq<byte>, i: nat, op: nat)
    requires j.lowPrefix <= j.dst <= op <= j.oend && |w| - (op - j.lowPrefix) == |h| - (j.dst - j.lowPrefix) <= j.dictSize
    requires Halfway(s, h, j.oend - j.dst, w, i) && MustDecode(s, h, j.oend - j.dst)
    ensures MustAccept(s, j, i, op)
  {
    var total := |Decode(s, 0, h).value|;
    var p := ParseAt(s, i);
    if p.Full? {
      RestrictedLeavesInput(s, p.next, |w| + p.length + p.matchLength, total);
    }
  }

  lemma HalfwayStep(s: seq<byte>, j: Job, h: seq<byte>, capacity: nat, w: seq<byte>, w': seq<byte>,
                    i: nat, op: nat, i': nat, op': nat)
    requires Halfway(s, h, capacity, w, i)
    requires Stepped(s, j, w, w', i, op, Continue, i', op')
    ensures var p := ParseAt(s, i);
            if p.offset <= |w| + p.length then Halfway(s, h, capacity, w', i') else Decode(s, 0, h).None?
  {
    hide CopyMatch;
  }

  /** LZ4_decompress_generic.  For any block: a non-negative result is the number of bytes the
      reference decoder produces, and those bytes are in place.  A block within the parsing
      restrictions is never refused.  `hd` is the part of the dictionary that the output
      space does not overlap; when that is all of it, or all that an offset can reach, success
      alone already implies that the reference decoder succeeds. */
  method DecompressGeneric(mem: array<byte>, j: Job, ghost hd: nat) returns (r: int)
    requires j.Valid(mem.Length) && hd <= j.dictSize && Disjoint(j.dictEnd - hd, j.dictEnd, j.dst, j.oend)
    modifies mem
    ensures SameOutside(old(mem[..]), mem[..], j.dst, j.oend)
    ensures r <= j.oend - j.dst
    ensures var d := Decode(old(Input(mem[..], j)), 0, old(Window(mem[..], j, hd, j.dst)));
            r >= 0 ==>
              && (Reaches(hd, j.dictSize) ==> d.Some?)
              && (d.Some? ==> Window(mem[..], j, hd, j.dst + r) == d.value)
    ensures MustDecode(old(Input(mem[..], j)), old(Window(mem[..], j, hd, j.dst)), j.oend - j.dst) ==> r >= 0
  {
    hide Window, Input, CopyMatch, SameOutside, Decode, Restricted, ParseAt, Halfway, MustDecode, MustAccept, Stepped;
    ghost var m0 := mem[..];
    ghost var s, h := Input(m0, j), Window(m0, j, hd, j.dst);
    SameOutsideRefl(m0, j.dst, j.oend);
    if j.oend == j.dst {
      r := EmptyOutput(mem, j, hd);
      return;
    }
    var ip, op := j.src, j.dst;
    ghost var tracked := true;
    HalfwayStart(s, h, j.oend - j.dst);
    if MustDecode(s, h, j.oend - j.dst) {
      MustDecodeDecodes(s, h, j.oend - j.dst);
    }
    while true
      invariant j.src <= ip <= j.iend && j.dst <= op <= j.oend
      invariant SameOutside(m0, mem[..], j.dst, j.oend)
      invariant Input(mem[..], j) == s
      invariant if tracked then Halfway(s, h, j.oend - j.dst, Window(mem[..], j, hd, op), ip - j.src)
                else !Reaches(hd, j.dictSize) && Decode(s, 0, h).None?
      decreases j.iend - ip
    {
      ghost var m, w := mem[..], Window(mem[..], j, hd, op);
      if tracked {
        HalfwayIs(s, h, j.oend - j.dst, w, ip - j.src);
      }
      if tracked && MustDecode(s, h, j.oend - j.dst) {
        HalfwayMustAccept(s, j, h, w, ip - j.src, op);
      }
      var status, ip', op' := DecodeSequence(mem, j, hd, ip, op);
      SameOutsideCompose(m0, m, mem[..], j.dst, op, j.oend);
      WindowKept(m0, mem[..], j, hd, j.dst);
      match status {
        case Error =>
          return -1 - (ip - j.src);
        case Done =>
          DoneStep(s, h, w, Window(mem[..], j, hd, op'), j, ip - j.src, op, ip' - j.src, op');
          return op' - j.dst;
        case Continue =>
          ContinueProgress(s, j, w, Window(mem[..], j, hd, op'), ip - j.src, op, ip' - j.src, op');
          if tracked {
            HalfwayStep(s, j, h, j.oend - j.dst, w, Window(mem[..], j, hd, op'), ip - j.src, op, ip' - j.src, op');
          }
          tracked := tracked && ParseAt(s, ip - j.src).offset <= |w| + ParseAt(s, ip - j.src).length;
          ip, op := ip', op';
      }
    }
  }

  lemma ContinueProgress(s: seq<byte>, j: Job, w: seq<byte>, w': seq<byte>, i: nat, op: nat, i': nat, op': nat)
    requires Stepped(s, j, w, w', i, op, Continue, i', op')
    ensures ParseAt(s, i).Full? && i < i'
    ensures ParseAt(s, i).offset <= (op - j.lowPrefix) + ParseAt(s, i).length + j.dictSize
    ensures ParseAt(s, i).offset <= MAX_DISTANCE
  {
    hide CopyMatch;
  }

  lemma DoneStep(s: seq<byte>, h: seq<byte>, w: seq<byte>, w': seq<byte>, j: Job, i: nat, op: nat, i': nat, op': nat)
    requires Stepped(s, j, w, w', i, op, Done, i', op')
    ensures Decode(s, i, w) == Some(w')
  {
  }

  /** With no room at all, only the block of a single zero token is accepted. */
  method EmptyOutput(mem: array<byte>, j: Job, ghost hd: nat) returns (r: int)
    requires j.Valid(mem.Length) && hd <= j.dictSize && j.oend == j.dst
    ensures r == if Input(mem[..], j) == [0] then 0 else -1
    ensures r == 0 ==>
      Decode(Input(mem[..], j), 0, Window(mem[..], j, hd, j.dst)) == Some(Window(mem[..], j, hd, j.dst))
    ensures MustDecode(Input(mem[..], j), Window(mem[..], j, hd, j.dst), 0) ==> r >= 0
  {
    ghost var s := Input(mem[..], j);
    assert j.src < j.iend ==> s[0] == mem[j.src];
    if j.iend - j.src == 1 && mem[j.src] == 0 {
      assert s == [0];
      assert ParseAt(s, 0) == Final(1);
      assert Window(mem[..], j, hd, j.dst) + s[1..] == Window(mem[..], j, hd, j.dst);
      return 0;
    }
    r := -1;
  }
}
