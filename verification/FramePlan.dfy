/** How the frame compressor cuts content into blocks, and which of these blocks can be relied on:
    both depend on nothing but preferences and sizes. */
module FramePlan {
  import opened BlockFormat
  import opened Memory
  import opened FastSearch
  import opened FastCompressor
  import opened BlockApi
  import opened Streaming
  import HcStream

  /** What decides: the size of a full block, whether anything is ever buffered, whether blocks are
      linked, and for fast levels the acceleration. */
  datatype Mode = Mode(maxBlock: nat, autoFlush: bool, linked: bool, fast: bool, acceleration: int)

  /** A block of `n` bytes.  It is `far` from its history if it is made straight from the caller's
      buffer while the one to three bytes before it have been put elsewhere. */
  datatype Piece = Piece(n: nat, far: bool)

  function Total(ps: seq<Piece>): nat {
    if ps == [] then 0 else Total(ps[..|ps| - 1]) + ps[|ps| - 1].n
  }

  predicate NoneFar(ps: seq<Piece>) {
    forall p :: p in ps ==> !p.far
  }

  /** The next block can be relied on: on fast levels, if it is short; or if the search advances, and
      the block is not the first far one, unless it is so short that the search's mistake would
      not make it smaller. */
  predicate SurePiece(mode: Mode, before: seq<Piece>, p: Piece) {
    || !mode.fast || p.n <= MFLIMIT + 1
    || (Advancing(mode.acceleration) && (!p.far || p.n <= SHORT || !NoneFar(before)))
  }

  predicate AllSure(mode: Mode, ps: seq<Piece>) {
    ps == [] || (AllSure(mode, ps[..|ps| - 1]) && SurePiece(mode, ps[..|ps| - 1], ps[|ps| - 1]))
  }

  lemma OneMorePiece(mode: Mode, ps: seq<Piece>, p: Piece)
    ensures Total(ps + [p]) == Total(ps) + p.n && (NoneFar(ps + [p]) <==> NoneFar(ps) && !p.far)
    ensures AllSure(mode, ps + [p]) <==> AllSure(mode, ps) && SurePiece(mode, ps, p)
    ensures !AllSure(mode, ps + [p]) ==> TrapStart(mode, ps + [p]) == if AllSure(mode, ps) then Total(ps) else TrapStart(mode, ps)
  {
    assert (ps + [p])[..|ps|] == ps;
    assert p in ps + [p] && forall q :: q in ps ==> q in ps + [p];
  }

  // ---------------------------------------------------------------- the plan

  /** A block made straight from the caller's buffer, `total` bytes having gone before. */
  function Direct(mode: Mode, total: nat, n: nat): Piece {
    Piece(n, mode.linked && mode.fast && 1 <= total <= 3)
  }

  /** What becomes of `k` bytes of input with nothing buffered. */
  function DirectPieces(mode: Mode, total: nat, k: nat): seq<Piece>
    requires mode.maxBlock > 0
    decreases k
  {
    if k >= mode.maxBlock then [Direct(mode, total, mode.maxBlock)] + DirectPieces(mode, total + mode.maxBlock, k - mode.maxBlock)
    else if mode.autoFlush && k > 0 then [Direct(mode, total, k)]
    else []
  }

  /** What becomes of them with `b` bytes buffered. */
  function UpdatePieces(mode: Mode, total: nat, b: nat, k: nat): seq<Piece>
    requires b < mode.maxBlock
  {
    if b == 0 then DirectPieces(mode, total, k)
    else if b + k < mode.maxBlock then []
    else [Piece(mode.maxBlock, false)] + DirectPieces(mode, total + mode.maxBlock, b + k - mode.maxBlock)
  }

  /** What is buffered afterwards: less than a block, and nothing if nothing ever is. */
  function Left(mode: Mode, b: nat, k: nat): (r: nat)
    requires b < mode.maxBlock && (mode.autoFlush ==> b == 0)
    ensures r < mode.maxBlock && (mode.autoFlush ==> r == 0)
  {
    UpdateTotal(mode, 0, b, k);
    b + k - Total(UpdatePieces(mode, 0, b, k))
  }

  lemma {:induction false} TotalOf(ps: seq<Piece>, qs: seq<Piece>)
    ensures Total(ps + qs) == Total(ps) + Total(qs)
    decreases |qs|
  {
    if qs == [] {
      assert ps + qs == ps;
    } else {
      assert (ps + qs)[..|ps + qs| - 1] == ps + qs[..|qs| - 1];
      TotalOf(ps, qs[..|qs| - 1]);
    }
  }

  lemma {:induction false} DirectTotal(mode: Mode, total: nat, k: nat)
    requires mode.maxBlock > 0
    ensures Total(DirectPieces(mode, total, k)) <= k < Total(DirectPieces(mode, total, k)) + mode.maxBlock
    ensures mode.autoFlush ==> Total(DirectPieces(mode, total, k)) == k
    ensures Total(DirectPieces(mode, total, k)) == Total(DirectPieces(mode, 0, k))
    decreases k
  {
    if k >= mode.maxBlock {
      DirectTotal(mode, total + mode.maxBlock, k - mode.maxBlock);
      DirectTotal(mode, mode.maxBlock, k - mode.maxBlock);
      TotalOf([Direct(mode, total, mode.maxBlock)], DirectPieces(mode, total + mode.maxBlock, k - mode.maxBlock));
      TotalOf([Direct(mode, 0, mode.maxBlock)], DirectPieces(mode, mode.maxBlock, k - mode.maxBlock));
    }
  }

  lemma UpdateTotal(mode: Mode, total: nat, b: nat, k: nat)
    requires b < mode.maxBlock && (mode.autoFlush ==> b == 0)
    ensures var t := Total(UpdatePieces(mode, total, b, k));
            && t <= b + k < t + mode.maxBlock && (mode.autoFlush ==> t == b + k) && t == Total(UpdatePieces(mode, 0, b, k))
  {
    if b == 0 {
      DirectTotal(mode, total, k);
    } else if b + k >= mode.maxBlock {
      var rest := b + k - mode.maxBlock;
      DirectTotal(mode, total + mode.maxBlock, rest);
      DirectTotal(mode, mode.maxBlock, rest);
      TotalOf([Piece(mode.maxBlock, false)], DirectPieces(mode, total + mode.maxBlock, rest));
      TotalOf([Piece(mode.maxBlock, false)], DirectPieces(mode, mode.maxBlock, rest));
    }
  }

  lemma NothingDirect(mode: Mode, total: nat)
    requires mode.maxBlock > 0
    ensures DirectPieces(mode, total, 0) == []
  {
  }

  /** Of `k` bytes of input, `left` are not taken yet, which began with pieces `ps0` and is at `ps`. */
  predicate Planned(mode: Mode, ps0: seq<Piece>, k: nat, ps: seq<Piece>, left: nat)
    requires mode.maxBlock > 0
  {
    ps + DirectPieces(mode, Total(ps), left) == ps0 + DirectPieces(mode, Total(ps0), k)
  }

  lemma PlannedAll(mode: Mode, ps: seq<Piece>, k: nat)
    requires mode.maxBlock > 0
    ensures Planned(mode, ps, k, ps, k)
  {
  }

  lemma PlannedOn(mode: Mode, ps0: seq<Piece>, k: nat, ps: seq<Piece>, left: nat)
    requires 0 < mode.maxBlock <= left && Planned(mode, ps0, k, ps, left)
    ensures Planned(mode, ps0, k, ps + [Direct(mode, Total(ps), mode.maxBlock)], left - mode.maxBlock)
  {
    hide Total, DirectPieces;
    var p := Direct(mode, Total(ps), mode.maxBlock);
    OneMorePiece(mode, ps, p);
    FullFirst(mode, Total(ps), left);
    Regrouped(ps, p, DirectPieces(mode, Total(ps) + mode.maxBlock, left - mode.maxBlock));
  }

  lemma FullFirst(mode: Mode, total: nat, k: nat)
    requires 0 < mode.maxBlock <= k
    ensures DirectPieces(mode, total, k)
         == [Direct(mode, total, mode.maxBlock)] + DirectPieces(mode, total + mode.maxBlock, k - mode.maxBlock)
  {
  }

  lemma Regrouped(ps: seq<Piece>, p: Piece, ds: seq<Piece>)
    ensures (ps + [p]) + ds == ps + ([p] + ds)
  {
  }

  lemma PlanDone(mode: Mode, ps0: seq<Piece>, b: nat, n: nat, ps1: seq<Piece>, left1: nat, ps2: seq<Piece>, left2: nat)
    requires b < mode.maxBlock && Planned(mode, ps1, left1, ps2, left2)
    requires b == 0 ==> ps1 == ps0 && left1 == n
    requires b > 0 && b + n < mode.maxBlock ==> ps1 == ps0 && left1 == 0
    requires b > 0 && b + n >= mode.maxBlock ==> ps1 == ps0 + [Piece(mode.maxBlock, false)] && left1 == b + n - mode.maxBlock
    ensures ps2 + DirectPieces(mode, Total(ps2), left2) == ps0 + UpdatePieces(mode, Total(ps0), b, n)
  {
    hide Total, DirectPieces;
    if b > 0 && b + n >= mode.maxBlock {
      var p := Piece(mode.maxBlock, false);
      OneMorePiece(mode, ps0, p);
      Regrouped(ps0, p, DirectPieces(mode, Total(ps0) + mode.maxBlock, left1));
    } else if b > 0 {
      NothingDirect(mode, Total(ps0));
    }
  }

  function FlushPieces(b: nat): seq<Piece> {
    if b > 0 then [Piece(b, false)] else []
  }

  // ---------------------------------------------------------------- how far the HC stream comes

  /** What `k` bytes of input, with nothing buffered, make of the extent of the stream. */
  function DirectExtent(mode: Mode, e: HcStream.Extent, near: bool, k: nat): HcStream.Extent
    requires mode.maxBlock > 0
    decreases k
  {
    if k >= mode.maxBlock then DirectExtent(mode, HcStream.NextExtent(e, near, mode.maxBlock), true, k - mode.maxBlock)
    else if mode.autoFlush && k > 0 then HcStream.NextExtent(e, near, k)
    else e
  }

  /** The same with `b` bytes buffered.  The history may be right before these (`nearTmp`), or else
      right before the input (`nearSrc`). */
  function UpdateExtent(mode: Mode, e: HcStream.Extent, nearTmp: bool, nearSrc: bool, b: nat, k: nat): HcStream.Extent
    requires b < mode.maxBlock
  {
    if b == 0 then DirectExtent(mode, e, nearSrc, k)
    else if b + k < mode.maxBlock then e
    else DirectExtent(mode, HcStream.NextExtent(e, nearTmp, mode.maxBlock), false, b + k - mode.maxBlock)
  }

  function FlushExtent(e: HcStream.Extent, nearTmp: bool, b: nat): HcStream.Extent {
    if b > 0 then HcStream.NextExtent(e, nearTmp, b) else e
  }

  /** Some block is made straight from the input. */
  predicate AnyDirect(mode: Mode, b: nat, k: nat) {
    var d := if b == 0 then k else b + k - mode.maxBlock;
    d >= mode.maxBlock || (mode.autoFlush && d > 0)
  }

  /** The history is in the caller's buffer at the end of the update, and so much of it that
      LZ4_saveDictHC cannot save it: its size is no 32-bit int. */
  predicate RunsAway(mode: Mode, e: HcStream.Extent, nearTmp: bool, nearSrc: bool, b: nat, k: nat)
    requires b < mode.maxBlock
  {
    mode.linked && !mode.fast && AnyDirect(mode, b, k) && UpdateExtent(mode, e, nearTmp, nearSrc, b, k).prefix >= TWO31
  }

  /** What is left of it after the history has been saved. */
  function Kept(e: HcStream.Extent): HcStream.Extent {
    HcStream.Extent(e.index, Least(e.prefix, DICT64K))
  }

  /** Of what came before an update only what can be saved matters, as long as its history is in the
      buffer, if there is any. */
  lemma KeptIsEnough(mode: Mode, e: HcStream.Extent, nearTmp: bool, nearSrc: bool, b: nat, k: nat)
    requires b < mode.maxBlock && (e.index > 0 ==> nearTmp && !nearSrc)
    ensures Kept(UpdateExtent(mode, e, nearTmp, nearSrc, b, k)) == Kept(UpdateExtent(mode, Kept(e), true, false, b, k))
    ensures RunsAway(mode, e, nearTmp, nearSrc, b, k) <==> RunsAway(mode, Kept(e), true, false, b, k)
  {
    hide HcStream.NextExtent;
    if b == 0 {
      KeptDirect(mode, e, Kept(e), nearSrc, k);
    } else if b + k >= mode.maxBlock {
      KeptNext(e, nearTmp, mode.maxBlock);
      KeptDirect(mode, HcStream.NextExtent(e, nearTmp, mode.maxBlock), HcStream.NextExtent(Kept(e), true, mode.maxBlock), false,
                 b + k - mode.maxBlock);
    }
  }

  lemma KeptNext(e: HcStream.Extent, near: bool, n: nat)
    requires e.index > 0 ==> near
    ensures Kept(HcStream.NextExtent(e, near, n)) == Kept(HcStream.NextExtent(Kept(e), true, n))
  {
  }

  lemma KeptDirect(mode: Mode, e: HcStream.Extent, e': HcStream.Extent, near: bool, k: nat)
    requires mode.maxBlock > 0 && Kept(e) == Kept(e') && (e.index > 0 ==> !near)
    ensures if k >= mode.maxBlock || (mode.autoFlush && k > 0) then DirectExtent(mode, e, near, k) == DirectExtent(mode, e', false, k)
            else DirectExtent(mode, e, near, k) == e && DirectExtent(mode, e', false, k) == e'
  {
    assert forall n: nat :: HcStream.NextExtent(e, near, n) == HcStream.NextExtent(e', false, n);
  }

  /** The history made by an update is no larger than what it was made of. */
  lemma {:induction false} DirectPrefix(mode: Mode, e: HcStream.Extent, near: bool, k: nat)
    requires mode.maxBlock > 0 && (k >= mode.maxBlock || (mode.autoFlush && k > 0))
    ensures DirectExtent(mode, e, near, k).prefix <= (if near then e.prefix else 0) + k
    decreases k
  {
    if k >= mode.maxBlock {
      var rest := k - mode.maxBlock;
      if rest >= mode.maxBlock || (mode.autoFlush && rest > 0) {
        DirectPrefix(mode, HcStream.NextExtent(e, near, mode.maxBlock), true, rest);
      }
    }
  }

  /** Updates of less than 2 GB never run away. */
  lemma SmallUpdate(mode: Mode, e: HcStream.Extent, b: nat, k: nat)
    requires b < mode.maxBlock && k < TWO31
    ensures !RunsAway(mode, e, true, false, b, k)
  {
    hide HcStream.NextExtent, DirectExtent;
    if AnyDirect(mode, b, k) {
      if b == 0 {
        DirectPrefix(mode, e, false, k);
      } else {
        DirectPrefix(mode, HcStream.NextExtent(e, true, mode.maxBlock), false, b + k - mode.maxBlock);
      }
    }
  }

  lemma Stepped(k: nat, n: nat)
    requires 0 < n <= k && k % n == 0
    ensures (k - n) % n == 0
  {
    var d: int := k / n - 1 - (k - n) / n;
    assert d * n == (k - n) % n;
  }

  /** A stream that has seen nothing else takes up to 2 GB before it starts over. */
  lemma {:induction false} RunOn(mode: Mode, e: HcStream.Extent, k: nat)
    requires DICT64K <= mode.maxBlock && e.index == e.prefix + DICT64K && e.prefix > 0
    requires k % mode.maxBlock == 0 && e.prefix + k <= TWO31
    ensures DirectExtent(mode, e, true, k) == HcStream.Extent(e.index + k, e.prefix + k)
    decreases k
  {
    if k >= mode.maxBlock {
      var n := mode.maxBlock;
      Stepped(k, n);
      assert HcStream.NextExtent(e, true, n) == HcStream.Extent(e.index + n, e.prefix + n);
      hide HcStream.NextExtent;
      RunOn(mode, HcStream.Extent(e.index + n, e.prefix + n), k - n);
      ExtentOn(mode, e, true, k);
    } else {
      ExtentDone(mode, e, true, k);
    }
  }

  /** A first update of exactly 2 GB does, whatever the size of the blocks. */
  lemma TwoGigabytes(mode: Mode)
    requires mode.linked && !mode.fast && DICT64K <= mode.maxBlock <= TWO31 && TWO31 % mode.maxBlock == 0
    ensures RunsAway(mode, HcStream.UNUSED, true, false, 0, TWO31)
  {
    hide DirectExtent;
    var n := mode.maxBlock;
    Stepped(TWO31, n);
    assert HcStream.NextExtent(HcStream.UNUSED, false, n) == HcStream.Extent(DICT64K + n, n);
    RunOn(mode, HcStream.Extent(DICT64K + n, n), TWO31 - n);
    ExtentOn(mode, HcStream.UNUSED, false, TWO31);
  }

  lemma NextExtentPositive(e: HcStream.Extent, near: bool, n: nat)
    requires n > 0
    ensures var e' := HcStream.NextExtent(e, near, n); e'.index > 0 && e'.prefix > 0
  {
  }

  lemma ExtentOn(mode: Mode, e: HcStream.Extent, near: bool, k: nat)
    requires 0 < mode.maxBlock <= k
    ensures DirectExtent(mode, e, near, k) == DirectExtent(mode, HcStream.NextExtent(e, near, mode.maxBlock), true, k - mode.maxBlock)
  {
  }

  lemma ExtentPlan(mode: Mode, e0: HcStream.Extent, nearTmp: bool, nearSrc: bool, b: nat, n: nat, e1: HcStream.Extent, near1: bool, left1: nat)
    requires b < mode.maxBlock
    requires b == 0 ==> e1 == e0 && near1 == nearSrc && left1 == n
    requires b > 0 && b + n < mode.maxBlock ==> e1 == e0 && left1 == 0
    requires b > 0 && b + n >= mode.maxBlock ==>
      e1 == HcStream.NextExtent(e0, nearTmp, mode.maxBlock) && !near1 && left1 == b + n - mode.maxBlock
    ensures DirectExtent(mode, e1, near1, left1) == UpdateExtent(mode, e0, nearTmp, nearSrc, b, n)
    ensures AnyDirect(mode, b, n) <==> left1 >= mode.maxBlock || (mode.autoFlush && left1 > 0)
  {
  }

  lemma ExtentDone(mode: Mode, e: HcStream.Extent, near: bool, k: nat)
    requires k < mode.maxBlock
    ensures DirectExtent(mode, e, near, k) == if mode.autoFlush && k > 0 then HcStream.NextExtent(e, near, k) else e
  {
  }

  // ---------------------------------------------------------------- content to go wrong with

  /** How much content goes before the first block that cannot be relied on. */
  function TrapStart(mode: Mode, ps: seq<Piece>): nat
    requires !AllSure(mode, ps)
  {
    var before := ps[..|ps| - 1];
    if AllSure(mode, before) then Total(before) else TrapStart(mode, before)
  }

  /** Zeros; and from `start` on, what the search will stumble over. */
  function BaitAt(mode: Mode, start: nat, i: nat): byte {
    if i < start then 0
    else if i == start then 1
    else if !Advancing(mode.acceleration) && i < start + 6 then i - start + 1
    else 0
  }

  ghost predicate Baited(mode: Mode, start: nat, content: seq<byte>) {
    forall i :: 0 <= i < |content| ==> content[i] == BaitAt(mode, start, i)
  }

  lemma BaitedParts(mode: Mode, start: nat, c: seq<byte>, data: seq<byte>)
    requires Baited(mode, start, c + data)
    ensures Baited(mode, start, c)
    ensures |c| <= start ==> c == Zeros(|c|)
    ensures |c| == start ==> data == if Advancing(mode.acceleration) then OneThenZeros(|data|) else Counting(|data|)
  {
    hide Advancing;
    assert forall i :: 0 <= i < |c| ==> c[i] == (c + data)[i];
    assert forall i :: 0 <= i < |data| ==> data[i] == (c + data)[|c| + i];
  }
}
