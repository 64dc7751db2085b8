/** The LZ4 block format as mathematics: how a block is cut into sequences, what a
    sequence means, and which blocks respect the end-of-block rules.  Everything else in
    the project (the fast decoder, the four compressors, the streams, the frames) is
    proved against the functions of this module. */
module BlockFormat {

  type byte = x: int | 0 <= x < 256

  const MINMATCH := 4
  const LASTLITERALS := 5
  const MFLIMIT := 12
  const MAX_DISTANCE := 65535

  datatype Option<+T> = None | Some(value: T)

  /** One sequence of a block: some literals, then a match copied from `offset` bytes back. */
  datatype Sequence = Sequence(literals: seq<byte>, offset: nat, matchLength: nat)

  // ---------------------------------------------------------------- meaning of a match

  /** The byte an offset names, given everything produced so far.  Offset 0 is not a legal
      offset; this decoder version turns it into zero bytes. */
  function Referenced(w: seq<byte>, offset: nat): byte
    requires offset <= |w|
  {
    if offset == 0 then 0 else w[|w| - offset]
  }

  /** The reference meaning of a match: append one byte at a time, so that a match longer
      than its offset reads bytes it has itself produced. */
  function CopyMatch(w: seq<byte>, offset: nat, n: nat): (r: seq<byte>)
    requires offset <= |w|
    ensures |r| == |w| + n
    decreases n
  {
    if n == 0 then w else CopyMatch(w + [Referenced(w, offset)], offset, n - 1)
  }

  /** `r` extends `w` by `n` bytes, each of them equal to the byte `offset` places before it. */
  ghost predicate IsMatchCopy(w: seq<byte>, offset: nat, n: nat, r: seq<byte>)
    requires offset <= |w|
  {
    && |r| == |w| + n
    && r[..|w|] == w
    && forall k :: |w| <= k < |r| ==> r[k] == if offset == 0 then 0 else r[k - offset]
  }

  /** The byte-at-a-time copy is the only sequence of the right length with period `offset`. */
  lemma {:induction false} CopyMatchUnique(w: seq<byte>, offset: nat, n: nat, r: seq<byte>)
    requires offset <= |w|
    requires IsMatchCopy(w, offset, n, r)
    ensures r == CopyMatch(w, offset, n)
    decreases n
  {
    if n == 0 {
      assert r == r[..|w|];
    } else {
      var w' := w + [Referenced(w, offset)];
      assert r[..|w'|] == w';
      CopyMatchUnique(w', offset, n - 1, r);
    }
  }

  lemma {:induction false} CopyMatchIsMatchCopy(w: seq<byte>, offset: nat, n: nat)
    requires offset <= |w|
    ensures IsMatchCopy(w, offset, n, CopyMatch(w, offset, n))
    decreases n
  {
    if n > 0 {
      var w' := w + [Referenced(w, offset)];
      CopyMatchIsMatchCopy(w', offset, n - 1);
      var r := CopyMatch(w, offset, n);
      assert r[..|w|] == r[..|w'|][..|w|];
      assert r[|w|] == r[..|w'|][|w|];
      assert offset > 0 ==> r[|w| - offset] == r[..|w'|][|w| - offset];
    }
  }

  // ---------------------------------------------------------------- parsing a block

  /** Reads a run of length bytes starting at `i`: every 255 asks for one more byte. */
  function ReadRun(s: seq<byte>, i: nat, acc: nat): (r: Option<(nat, nat)>)
    ensures r.Some? ==> acc <= r.value.0 && i < r.value.1 <= |s|
    decreases |s| - i
  {
    if i >= |s| then None
    else if s[i] == 255 then ReadRun(s, i + 1, acc + 255)
    else Some((acc + s[i], i + 1))
  }

  /** A length field: four bits of the token, continued by a run when they are all ones. */
  function ReadLength(s: seq<byte>, i: nat, nibble: nat): (r: Option<(nat, nat)>)
    requires nibble <= 15 && i <= |s|
    ensures r.Some? ==> nibble <= r.value.0 && i <= r.value.1 <= |s|
  {
    if nibble == 15 then ReadRun(s, i, 15) else Some((nibble, i))
  }

  /** A 16-bit little-endian field. */
  function ReadLE16(s: seq<byte>, i: nat): nat
    requires i + 2 <= |s|
  {
    var lo: int, hi: int := s[i], s[i + 1];
    lo + 256 * hi
  }

  datatype Parsed =
    | Malformed
    | Final(literals: nat)                                      // literals run from here to the end
    | Full(literals: nat, length: nat, offset: nat, matchLength: nat, next: nat)

  /** Cuts the sequence that starts at index `i` out of block `s`. */
  function ParseAt(s: seq<byte>, i: nat): (r: Parsed)
    ensures r.Final? ==> i < r.literals <= |s|
    ensures r.Full? ==>
      i < r.literals && r.literals + r.length + 2 <= r.next <= |s| && r.matchLength >= MINMATCH
  {
    if i >= |s| then Malformed
    else
      match ReadLength(s, i + 1, s[i] / 16)
      case None => Malformed
      case Some((ll, p)) =>
        if p + ll == |s| then Final(p)
        else if p + ll + 2 > |s| then Malformed
        else
          match ReadLength(s, p + ll + 2, s[i] % 16)
          case None => Malformed
          case Some((ml, q)) => Full(p, ll, ReadLE16(s, p + ll), ml + MINMATCH, q)
  }

  /** The reference decoder: what block `s`, read from index `i`, makes of window `w`
      (history followed by the bytes produced so far). */
  function Decode(s: seq<byte>, i: nat, w: seq<byte>): (r: Option<seq<byte>>)
    ensures r.Some? ==> |w| <= |r.value|
    decreases |s| - i
  {
    match ParseAt(s, i)
    case Malformed => None
    case Final(p) => Some(w + s[p..])
    case Full(p, ll, offset, ml, q) =>
      var w1 := w + s[p..p + ll];
      if offset > |w1| then None else Decode(s, q, CopyMatch(w1, offset, ml))
  }

  /** The two parsing restrictions of the block format, for a window of `n` bytes that ends
      up `total` bytes long: every match starts at least 12 bytes and ends at least 5 bytes
      before the end. */
  predicate Restricted(s: seq<byte>, i: nat, n: nat, total: nat)
    decreases |s| - i
  {
    match ParseAt(s, i)
    case Malformed => false
    case Final(p) => n + (|s| - p) == total
    case Full(_, ll, _, ml, q) =>
      && n + ll + MFLIMIT <= total
      && n + ll + ml + LASTLITERALS <= total
      && Restricted(s, q, n + ll + ml, total)
  }

  /** Because the last five bytes are literals, at least six bytes of input are left behind
      every match: this is what the decoder's input-side checks rely on. */
  lemma {:induction false} RestrictedLeavesInput(s: seq<byte>, i: nat, n: nat, total: nat)
    requires Restricted(s, i, n, total)
    requires n + LASTLITERALS <= total
    ensures i + 1 + LASTLITERALS <= |s|
    decreases |s| - i
  {
    var p := ParseAt(s, i);
    if p.Full? {
      RestrictedLeavesInput(s, p.next, n + p.length + p.matchLength, total);
    }
  }

  // ---------------------------------------------------------------- dependence on history

  /** Putting more history in front of the window changes nothing: the same bytes come out
      behind it. */
  lemma {:induction false} DecodeWithMoreHistory(x: seq<byte>, s: seq<byte>, i: nat, w: seq<byte>)
    requires Decode(s, i, w).Some?
    ensures Decode(s, i, x + w) == Some(x + Decode(s, i, w).value)
    decreases |s| - i
  {
    hide CopyMatch, ParseAt;
    var p := ParseAt(s, i);
    match p
    case Final(k) =>
      assert (x + w) + s[k..] == x + (w + s[k..]);
    case Full(k, ll, offset, ml, q) =>
      var w1 := w + s[k..k + ll];
      assert (x + w) + s[k..k + ll] == x + w1;
      var w2 := CopyMatch(w1, offset, ml);
      CopyMatchWithMoreHistory(x, w1, offset, ml);
      DecodeWithMoreHistory(x, s, q, w2);
  }

  lemma {:induction false} CopyMatchWithMoreHistory(x: seq<byte>, w: seq<byte>, offset: nat, n: nat)
    requires offset <= |w|
    ensures CopyMatch(x + w, offset, n) == x + CopyMatch(w, offset, n)
    decreases n
  {
    if n > 0 {
      var w' := w + [Referenced(w, offset)];
      assert (x + w) + [Referenced(x + w, offset)] == x + w';
      CopyMatchWithMoreHistory(x, w', offset, n - 1);
    }
  }

  /** 65535 bytes of history are all a block can reach: once the window is that long, what
      lies before it decides neither between success and failure nor what comes out. */
  lemma {:induction false} DecodeNeedsOnly64K(x: seq<byte>, s: seq<byte>, i: nat, w: seq<byte>)
    requires |w| >= MAX_DISTANCE
    ensures Decode(s, i, x + w) == if Decode(s, i, w).Some? then Some(x + Decode(s, i, w).value) else None
    decreases |s| - i
  {
    var p := ParseAt(s, i);
    if Decode(s, i, w).Some? {
      DecodeWithMoreHistory(x, s, i, w);
    } else if p.Full? {
      var w1 := w + s[p.literals..p.literals + p.length];
      assert (x + w) + s[p.literals..p.literals + p.length] == x + w1;
      CopyMatchWithMoreHistory(x, w1, p.offset, p.matchLength);
      DecodeNeedsOnly64K(x, s, p.next, CopyMatch(w1, p.offset, p.matchLength));
    }
  }
}
