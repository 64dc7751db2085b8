/** From content to frame to content: a caller that compresses as it likes and another that
    decompresses as it likes come to the same content. */
module FrameRoundTrip {
  import opened BlockFormat
  import opened Memory
  import opened FrameFormat
  import opened FramePlan
  import opened FrameCompressor
  import opened FrameDecoder
  import FrameReading
  import HcStream

  /** What a compressing caller does: hand over some content, from wherever it puts it, or flush. */
  datatype Op = Update(src: nat, data: seq<byte>) | FlushNow

  function Data(ops: seq<Op>): seq<byte> {
    if ops == [] then [] else Data(ops[..|ops| - 1]) + (if ops[|ops| - 1].Update? then ops[|ops| - 1].data else [])
  }

  lemma DataOfOneMore(ops: seq<Op>, i: nat)
    requires i < |ops|
    ensures Data(ops[..i + 1]) == Data(ops[..i]) + if ops[i].Update? then ops[i].data else []
  {
    assert ops[..i + 1][..i] == ops[..i];
  }

  // ---------------------------------------------------------------- the plan of a whole frame

  /** The blocks so far, and how much is buffered. */
  datatype Cut = Cut(ps: seq<Piece>, b: nat)

  predicate GoodCut(mode: Mode, c: Cut) {
    c.b < mode.maxBlock && (mode.autoFlush ==> c.b == 0)
  }

  function After(mode: Mode, c: Cut, op: Op): (c': Cut)
    requires GoodCut(mode, c)
    ensures GoodCut(mode, c')
  {
    match op
    case Update(_, data) => Cut(c.ps + UpdatePieces(mode, Total(c.ps), c.b, |data|), Left(mode, c.b, |data|))
    case FlushNow => Cut(c.ps + FlushPieces(c.b), 0)
  }

  function Plan(mode: Mode, ops: seq<Op>): (c: Cut)
    requires mode.maxBlock > 0
    ensures GoodCut(mode, c)
  {
    if ops == [] then Cut([], 0) else After(mode, Plan(mode, ops[..|ops| - 1]), ops[|ops| - 1])
  }

  /** All blocks of a frame: they depend on preferences and sizes alone. */
  function Blocks(preferences: Preferences, ops: seq<Op>): seq<Piece> {
    AllPieces(Plan(ModeOf(Effective(preferences)), ops))
  }

  function AllPieces(c: Cut): seq<Piece> {
    c.ps + FlushPieces(c.b)
  }

  /** All of them can be relied on: what decides about the round trip. */
  predicate Reliable(preferences: Preferences, ops: seq<Op>) {
    AllSure(ModeOf(Effective(preferences)), Blocks(preferences, ops))
  }

  /** The HC stream is used for linked blocks. */
  predicate LinkedHc(prefs: Preferences) {
    ModeOf(prefs).linked && !ModeOf(prefs).fast
  }

  /** How far the HC stream has come, as far as that can be saved, and whether all history could be
      saved so far. */
  datatype Course = Course(e: HcStream.Extent, safe: bool)

  function Onward(mode: Mode, c: Course, b: nat, op: Op): Course
    requires b < mode.maxBlock
  {
    match op
    case Update(_, data) =>
      Course(Kept(UpdateExtent(mode, c.e, true, false, b, |data|)), c.safe && !RunsAway(mode, c.e, true, false, b, |data|))
    case FlushNow => c.(e := Kept(FlushExtent(c.e, true, b)))
  }

  function CourseOf(mode: Mode, ops: seq<Op>): Course
    requires mode.maxBlock > 0
  {
    if ops == [] then Course(HcStream.UNUSED, true)
    else Onward(mode, CourseOf(mode, ops[..|ops| - 1]), Plan(mode, ops[..|ops| - 1]).b, ops[|ops| - 1])
  }

  /** No update of linked blocks on an HC level leaves history of 2 GB and more to be saved: what
      decides about whether compression gets to its end.  It depends on preferences and sizes alone. */
  predicate Savable(preferences: Preferences, ops: seq<Op>) {
    CourseOf(ModeOf(Effective(preferences)), ops).safe
  }

  lemma CourseOfOneMore(mode: Mode, ops: seq<Op>, i: nat)
    requires mode.maxBlock > 0 && i < |ops|
    ensures CourseOf(mode, ops[..i + 1]) == Onward(mode, CourseOf(mode, ops[..i]), Plan(mode, ops[..i]).b, ops[i])
  {
    assert ops[..i + 1][..i] == ops[..i];
  }

  lemma {:induction false} SafeSoFar(mode: Mode, ops: seq<Op>, i: nat)
    requires mode.maxBlock > 0 && i <= |ops| && CourseOf(mode, ops).safe
    ensures CourseOf(mode, ops[..i]).safe
    decreases |ops|
  {
    hide Plan, UpdateExtent, RunsAway;
    if i == |ops| {
      assert ops[..i] == ops;
    } else {
      assert ops[..|ops| - 1][..i] == ops[..i];
      SafeSoFar(mode, ops[..|ops| - 1], i);
    }
  }

  /** Updates of less than 2 GB each are always fine. */
  lemma {:induction false} SmallUpdatesSave(preferences: Preferences, ops: seq<Op>)
    requires forall i :: 0 <= i < |ops| && ops[i].Update? ==> |ops[i].data| < TWO31
    ensures Savable(preferences, ops)
    decreases |ops|
  {
    hide UpdateExtent, RunsAway, ModeOf, Effective, After;
    if ops != [] {
      var mode, ops0 := ModeOf(Effective(preferences)), ops[..|ops| - 1];
      SmallUpdatesSave(preferences, ops0);
      if ops[|ops| - 1].Update? {
        SmallUpdate(mode, CourseOf(mode, ops0).e, Plan(mode, ops0).b, |ops[|ops| - 1].data|);
      }
    }
  }

  /** A first update of exactly 2 GB never is, on any HC level, for linked blocks of any size. */
  lemma TwoGigabytesRunAway(preferences: Preferences, ops: seq<Op>)
    requires LinkedHc(preferences) && Effective(preferences).info.Valid()
    requires ops != [] && ops[0].Update? && |ops[0].data| == TWO31
    ensures !Savable(preferences, ops)
  {
    hide UpdateExtent, RunsAway;
    var mode := ModeOf(Effective(preferences));
    BlockSizes(preferences);
    TwoGigabytes(mode);
    assert ops[..1][..0] == [] && ops[..1][0] == ops[0];
    assert CourseOf(mode, []) == Course(HcStream.UNUSED, true) && Plan(mode, []).b == 0;
    CourseOfOneMore(mode, ops, 0);
    assert ops[..0] == [];
    if Savable(preferences, ops) {
      SafeSoFar(mode, ops, 1);
    }
  }

  lemma BlockSizes(preferences: Preferences)
    requires Effective(preferences).info.Valid()
    ensures var n := ModeOf(Effective(preferences)).maxBlock; DICT64K <= n <= TWO31 && TWO31 % n == 0
  {
  }

  lemma PlanOfOneMore(mode: Mode, ops: seq<Op>, i: nat)
    requires mode.maxBlock > 0 && i < |ops|
    ensures Plan(mode, ops[..i + 1]) == After(mode, Plan(mode, ops[..i]), ops[i])
  {
    assert ops[..i + 1][..i] == ops[..i];
  }

  /** What is buffered follows from what was taken and what is in blocks. */
  lemma BufferedIs(c: FrameCompressor, m: seq<byte>)
    requires c.Valid(m)
    ensures |c.taken| == Total(c.pieces) + c.tmpInSize && GoodCut(ModeOf(c.prefs), Cut(c.pieces, c.tmpInSize))
  {
    hide FrameCompressor.Keeps, FrameCompressor.Blank, FrameCompressor.Unattached, Content, Total, AllSure,
         ValidBlocks, Caught;
  }

  lemma CutAfter(mode: Mode, ps: seq<Piece>, b: nat, k: nat, ps': seq<Piece>, b': nat)
    requires GoodCut(mode, Cut(ps, b)) && ps' == ps + UpdatePieces(mode, Total(ps), b, k) && Total(ps') + b' == Total(ps) + b + k
    ensures b' == Left(mode, b, k)
  {
    hide UpdatePieces;
    UpdateTotal(mode, Total(ps), b, k);
    TotalOf(ps, UpdatePieces(mode, Total(ps), b, k));
  }

  // ---------------------------------------------------------------- the compressing caller

  /** The caller's buffers are where they may be. */
  predicate Spaces(c: FrameCompressor, size: nat, ops: seq<Op>, dst: nat, room: nat) {
    && c.FlushSpace(size, dst, room)
    && forall i :: 0 <= i < |ops| && ops[i].Update? ==> c.Space(size, ops[i].src, |ops[i].data|, dst, room)
  }

  /** The room asked for by LZ4F_compressBound, for every call. */
  predicate Enough(prefs: Preferences, ops: seq<Op>, room: nat) {
    && room >= MAX_FH_SIZE && room >= PublicBound(0, prefs)
    && forall i :: 0 <= i < |ops| && ops[i].Update? ==> room >= PublicBound(|ops[i].data|, prefs)
  }

  /** The caller puts content into a buffer of its own, and hands it over. */
  method HandOver(mem: array<byte>, c: FrameCompressor, src: nat, data: seq<byte>, dst: nat, room: nat) returns (res: WriteResult)
    requires c.Objects(mem) && c.cStage == 1 && c.Valid(mem[..]) && c.Unattached() && c.Space(mem.Length, src, |data|, dst, room)
    modifies c, c.stream.fast, c.stream.fast.hashTable, c.stream.hc, c.stream.hc.hashTable, c.stream.hc.chainTable, c.xxh, c.xxh.buffer, mem
    ensures old(c.tmpInSize) < ModeOf(old(c.prefs)).maxBlock
    ensures var mode, e, b := ModeOf(old(c.prefs)), Kept(old(c.extent)), old(c.tmpInSize);
            && (room >= BoundInternal(|data|, old(c.prefs), b) && !RunsAway(mode, e, true, false, b, |data|) ==> res.Written?)
            && (res.Written? ==>
                  && !RunsAway(mode, e, true, false, b, |data|)
                  && (old(LinkedHc(c.prefs)) ==> Kept(c.extent) == Kept(UpdateExtent(mode, e, true, false, b, |data|))))
    ensures res.Written? ==>
      && c.cStage == 1 && c.Valid(mem[..]) && c.Unattached() && c.prefs == old(c.prefs) && dst + res.size <= mem.Length
      && c.taken == old(c.taken) + data && c.clean == old(c.clean)
      && AllBlockBytes(c.prefs.info, c.bs) == AllBlockBytes(c.prefs.info, old(c.bs)) + mem[dst..dst + res.size]
      && c.pieces == old(c.pieces) + UpdatePieces(ModeOf(c.prefs), Total(old(c.pieces)), old(c.tmpInSize), |data|)
  {
    hide FrameCompressor.Valid, FrameCompressor.Unattached, AllBlockBytes, BoundInternal, FrameCompressor.Clear,
         FrameCompressor.Touches, FrameCompressor.PastClear, SameOutside, UpdatePieces, Total, UpdateExtent, RunsAway,
         FlushExtent, Kept;
    ghost var m0 := mem[..];
    WhereHistoryIs(c, m0, src, |data|);
    Fill(mem, src, data);
    OutsideTmp(c, m0, mem[..], src, |data|);
    c.CallersBuffers(m0, mem[..]);
    c.UnattachedIsClear(mem.Length, src, |data|, dst, room);
    res := c.CompressUpdate(mem, dst, room, src, |data|, false);
  }

  /** One step of the compressing caller; afterwards it overwrites its buffers. */
  method DoOne(mem: array<byte>, c: FrameCompressor, op: Op, dst: nat, room: nat, noise: byte) returns (res: WriteResult, out: seq<byte>)
    requires c.Objects(mem) && c.cStage == 1 && c.Valid(mem[..]) && c.Unattached() && c.FlushSpace(mem.Length, dst, room)
    requires op.Update? ==> c.Space(mem.Length, op.src, |op.data|, dst, room)
    modifies c, c.stream.fast, c.stream.fast.hashTable, c.stream.hc, c.stream.hc.hashTable, c.stream.hc.chainTable, c.xxh, c.xxh.buffer, mem
    ensures old(c.tmpInSize) < ModeOf(old(c.prefs)).maxBlock
    ensures var next := Onward(ModeOf(old(c.prefs)), Course(Kept(old(c.extent)), true), old(c.tmpInSize), op);
            && (room >= PublicBound(if op.Update? then |op.data| else 0, old(c.prefs)) && next.safe ==> res.Written?)
            && (res.Written? ==> next.safe && (old(LinkedHc(c.prefs)) ==> Kept(c.extent) == next.e))
    ensures res.Written? ==>
      && c.cStage == 1 && c.Valid(mem[..]) && c.Unattached() && c.prefs == old(c.prefs)
      && c.taken == old(c.taken) + (if op.Update? then op.data else [])
      && AllBlockBytes(c.prefs.info, c.bs) == AllBlockBytes(c.prefs.info, old(c.bs)) + out
      && c.clean == old(c.clean) && GoodCut(ModeOf(c.prefs), Cut(old(c.pieces), old(c.tmpInSize)))
      && Cut(c.pieces, c.tmpInSize) == After(ModeOf(c.prefs), Cut(old(c.pieces), old(c.tmpInSize)), op)
  {
    hide FrameCompressor.Valid, FrameCompressor.Unattached, AllBlockBytes, PublicBound, FrameCompressor.Clear,
         FrameCompressor.Touches, FrameCompressor.PastClear, SameOutside, Left, UpdatePieces, Total, UpdateExtent,
         RunsAway, FlushExtent, Kept, BoundInternal, ModeOf, LinkedHc, FrameCompressor.Space, FrameCompressor.Outside;
    BufferedIs(c, mem[..]);
    BoundsHere(c, mem[..], if op.Update? then |op.data| else 0);
    if op.Update? {
      res := HandOver(mem, c, op.src, op.data, dst, room);
    } else {
      WhereHistoryIs(c, mem[..], 0, 0);
      FlushIsClear(c, mem.Length, dst, room);
      res := c.Flush(mem, dst, room);
    }
    out := [];
    if res.Written? {
      out := mem[dst..dst + res.size];
      ghost var m1 := mem[..];
      BufferedIs(c, m1);
      if op.Update? {
        CutAfter(ModeOf(c.prefs), old(c.pieces), old(c.tmpInSize), |op.data|, c.pieces, c.tmpInSize);
      }
      ApartOfRoom(c, mem.Length, dst, room);
      FrameReading.Overwrite(mem, dst, room, noise);
      OutsideTmp(c, m1, mem[..], dst, room);
      c.CallersBuffers(m1, mem[..]);
    }
  }

  lemma ApartOfRoom(c: FrameCompressor, size: nat, dst: nat, room: nat)
    requires c.FlushSpace(size, dst, room)
    ensures c.Outside(dst, dst + room) && dst + room <= size
  {
  }

  /** History, if there is any, is right before what is buffered, and not before the input. */
  lemma WhereHistoryIs(c: FrameCompressor, m: seq<byte>, src: nat, k: nat)
    requires c.Valid(m) && c.Unattached() && (k > 0 ==> c.Outside(src, src + k))
    ensures c.tmpInSize < ModeOf(c.prefs).maxBlock
    ensures var mode, b := ModeOf(c.prefs), c.tmpInSize;
            && (RunsAway(mode, c.extent, c.Joins(c.tmpIn), c.Joins(src), b, k) <==> RunsAway(mode, Kept(c.extent), true, false, b, k))
            && (LinkedHc(c.prefs) ==>
                  && Kept(UpdateExtent(mode, c.extent, c.Joins(c.tmpIn), c.Joins(src), b, k))
                       == Kept(UpdateExtent(mode, Kept(c.extent), true, false, b, k))
                  && Kept(FlushExtent(c.extent, c.Joins(c.tmpIn), b)) == Kept(FlushExtent(Kept(c.extent), true, b)))
  {
  }

  lemma BoundsHere(c: FrameCompressor, m: seq<byte>, n: nat)
    requires c.Valid(m)
    ensures c.tmpInSize < c.prefs.info.MaxBlock() && BoundInternal(n, c.prefs, c.tmpInSize) <= PublicBound(n, c.prefs)
    ensures c.tmpInSize + 4 <= PublicBound(0, c.prefs)
  {
    hide FrameCompressor.Keeps, FrameInfo.MaxBlock, PublicBound, BoundInternal;
    PublicBoundHolds(n, c.prefs, c.tmpInSize);
    EndWithinBound(c.prefs, c.tmpInSize);
  }

  lemma OutsideTmp(c: FrameCompressor, m0: seq<byte>, m1: seq<byte>, lo: nat, n: nat)
    requires c.Outside(lo, lo + n) && SameOutside(m0, m1, lo, lo + n)
    ensures |m1| == |m0| && forall i :: 0 <= i < |m0| && c.tmpBuff <= i < c.tmpBuff + TMP_MAX ==> m1[i] == m0[i]
  {
  }

  lemma FlushIsClear(c: FrameCompressor, size: nat, dst: nat, room: nat)
    requires c.Unattached() && c.FlushSpace(size, dst, room)
    ensures c.Clear(dst, 0, dst, room)
  {
  }

  /** A caller that compresses a whole frame: it begins, does what it likes, and ends.  With the
      room that LZ4F_compressBound asks for, and without a content size that is wrong, it gets
      there; and what it has then is a frame that holds what it handed over. */
  method CompressAll(mem: array<byte>, c: FrameCompressor, preferences: Preferences, ops: seq<Op>, dst: nat, room: nat, noise: byte)
    returns (ok: bool, frame: seq<byte>)
    requires c.Objects(mem) && c.Layout(mem.Length) && c.stream.Good(mem.Length) && Effective(preferences).info.Valid()
    requires Spaces(c, mem.Length, ops, dst, room) && |Data(ops)| < TWO64
    modifies c, c.stream, c.stream.fast, c.stream.fast.hashTable, c.stream.hc, c.stream.hc.hashTable, c.stream.hc.chainTable
    modifies c.xxh, c.xxh.buffer, mem
    ensures Enough(Effective(preferences), ops, room) && SizeFits(Effective(preferences).info, Data(ops)) && Savable(preferences, ops) ==> ok
    ensures !Savable(preferences, ops) ==> !ok
    ensures ok ==>
      && c.prefs == Effective(preferences) && frame == FrameBytes(c.prefs.info, c.bs) && Content(c.bs) == Data(ops)
      && SizeFits(c.prefs.info, Data(ops))
      && (Reliable(preferences, ops) ==> ValidBlocks(c.prefs.info, c.bs))
      && (old(mem[c.tmpBuff..c.tmpBuff + BLANK]) == Zeros(BLANK) ==> Caught(c.prefs, Blocks(preferences, ops), c.bs, true))
  {
    hide FrameCompressor.Valid, FrameCompressor.Unattached, AllBlockBytes, PublicBound, FrameCompressor.Touches,
         SameOutside, FrameCompressor.Layout, Data, Content, HeaderBytes, EndBytes, FrameBytes, FrameInfo.Valid,
         ValidBlocks, FrameCompressor.Blank, Effective, FrameCompressor.FlushSpace, FrameCompressor.Space, Plan,
         AllSure, Caught, FlushPieces;
    RoomEnough(c, mem.Length, dst, room);
    BlankInside(c, mem.Length);
    ok, frame := false, [];
    var res := c.Begin(mem, dst, room, preferences);
    if !res.Written? {
      return;
    }
    frame := mem[dst..dst + res.size];
    StillBlank(c, old(mem[..]), mem[..], dst, room, res.size);
    var header := frame;
    NoBlocks(c.prefs.info, header);
    var body;
    ok, body := FillAndEnd(mem, c, ops, dst, room, noise);
    frame := header + body;
    if ok {
      FrameComplete(c.prefs.info, c.bs, header, body);
    }
  }

  /** All calls but the first. */
  method FillAndEnd(mem: array<byte>, c: FrameCompressor, ops: seq<Op>, dst: nat, room: nat, noise: byte) returns (ok: bool, body: seq<byte>)
    requires c.Objects(mem) && c.cStage == 1 && c.Valid(mem[..]) && c.Unattached() && c.bs == [] && c.taken == [] && c.pieces == []
    requires c.extent == HcStream.UNUSED && Spaces(c, mem.Length, ops, dst, room) && |Data(ops)| < TWO64
    modifies c, c.stream.fast, c.stream.fast.hashTable, c.stream.hc, c.stream.hc.hashTable, c.stream.hc.chainTable, c.xxh, c.xxh.buffer, mem
    ensures var mode := ModeOf(old(c.prefs));
            && (Enough(old(c.prefs), ops, room) && SizeFits(old(c.prefs).info, Data(ops)) && CourseOf(mode, ops).safe ==> ok)
            && (!CourseOf(mode, ops).safe ==> !ok)
    ensures ok ==>
      && c.prefs == old(c.prefs) && AllBlockBytes(c.prefs.info, c.bs) + EndBytes(c.prefs.info, Content(c.bs)) == body
      && Content(c.bs) == Data(ops) && SizeFits(c.prefs.info, Data(ops))
      && var ps := AllPieces(Plan(ModeOf(c.prefs), ops));
         (AllSure(ModeOf(c.prefs), ps) ==> ValidBlocks(c.prefs.info, c.bs)) && Caught(c.prefs, ps, c.bs, old(c.clean))
  {
    hide FrameCompressor.Valid, FrameCompressor.Unattached, AllBlockBytes, PublicBound, FrameCompressor.Touches, Data,
         Content, EndBytes, FrameInfo.Valid, ValidBlocks, FrameCompressor.FlushSpace, FrameCompressor.Space, Plan,
         AllSure, Caught, FlushPieces, CourseOf;
    ok, body := DoAll(mem, c, ops, dst, room, noise);
    if !ok {
      return;
    }
    FlushIsClear(c, mem.Length, dst, room);
    BoundsHere(c, mem[..], 0);
    var res := c.End(mem, dst, room);
    if !res.Written? {
      return false, body;
    }
    body := body + mem[dst..dst + res.size];
  }

  lemma StillBlank(c: FrameCompressor, m0: seq<byte>, m1: seq<byte>, dst: nat, room: nat, n: nat)
    requires c.tmpBuff + BLANK <= |m0| && c.FlushSpace(|m0|, dst, room) && n <= room && SameOutside(m0, m1, dst, dst + n)
    ensures |m1| == |m0| && m1[c.tmpBuff..c.tmpBuff + BLANK] == m0[c.tmpBuff..c.tmpBuff + BLANK]
  {
    SliceKept(m0, m1, dst, dst + n, c.tmpBuff, c.tmpBuff + BLANK);
  }

  /** All that the compressing caller does between beginning and end. */
  method DoAll(mem: array<byte>, c: FrameCompressor, ops: seq<Op>, dst: nat, room: nat, noise: byte) returns (ok: bool, body: seq<byte>)
    requires c.Objects(mem) && c.cStage == 1 && c.Valid(mem[..]) && c.Unattached() && c.bs == [] && c.taken == [] && c.pieces == []
    requires c.extent == HcStream.UNUSED
    requires Spaces(c, mem.Length, ops, dst, room)
    modifies c, c.stream.fast, c.stream.fast.hashTable, c.stream.hc, c.stream.hc.hashTable, c.stream.hc.chainTable, c.xxh, c.xxh.buffer, mem
    ensures c.prefs == old(c.prefs) || !ok
    ensures Enough(old(c.prefs), ops, room) && CourseOf(ModeOf(old(c.prefs)), ops).safe ==> ok
    ensures !CourseOf(ModeOf(old(c.prefs)), ops).safe ==> !ok
    ensures ok ==>
      && c.cStage == 1 && c.Valid(mem[..]) && c.Unattached() && c.taken == Data(ops)
      && AllBlockBytes(c.prefs.info, c.bs) == body && c.clean == old(c.clean)
      && Cut(c.pieces, c.tmpInSize) == Plan(ModeOf(c.prefs), ops)
  {
    hide FrameCompressor.Valid, FrameCompressor.Unattached, AllBlockBytes, PublicBound, Data,
         FrameCompressor.FlushSpace, FrameCompressor.Space, Total, Plan, After, CourseOf, UpdateExtent;
    BufferedIs(c, mem[..]);
    EmptyPlan(ModeOf(c.prefs));
    ok, body := true, [];
    NoBlocks(c.prefs.info, []);
    assert ops[..0] == [];
    NoData();
    var i := 0;
    while i < |ops|
      invariant i <= |ops| && c.Objects(mem) && c.cStage == 1 && c.Valid(mem[..]) && c.Unattached()
      invariant c.prefs == old(c.prefs) && c.taken == Data(ops[..i])
      invariant body == AllBlockBytes(c.prefs.info, c.bs) && c.clean == old(c.clean)
      invariant Cut(c.pieces, c.tmpInSize) == Plan(ModeOf(c.prefs), ops[..i])
      invariant CourseOf(ModeOf(c.prefs), ops[..i]).safe
      invariant LinkedHc(c.prefs) ==> Kept(c.extent) == CourseOf(ModeOf(c.prefs), ops[..i]).e
    {
      CourseOfOneMore(ModeOf(c.prefs), ops, i);
      var res, out := DoOne(mem, c, ops[i], dst, room, noise);
      if !res.Written? {
        if CourseOf(ModeOf(old(c.prefs)), ops).safe {
          SafeSoFar(ModeOf(old(c.prefs)), ops, i + 1);
        }
        return false, body;
      }
      DataOfOneMore(ops, i);
      PlanOfOneMore(ModeOf(c.prefs), ops, i);
      body := body + out;
      i := i + 1;
    }
    assert ops[..i] == ops;
  }

  lemma EmptyPlan(mode: Mode)
    requires mode.maxBlock > 0
    ensures Plan(mode, []) == Cut([], 0) && Total([]) == 0 && CourseOf(mode, []) == Course(HcStream.UNUSED, true)
  {
  }

  /** A content size, if announced, is right. */
  predicate SizeFits(info: FrameInfo, content: seq<byte>) {
    info.contentSize > 0 ==> info.contentSize == |content|
  }

  lemma RoomEnough(c: FrameCompressor, size: nat, dst: nat, room: nat)
    requires c.FlushSpace(size, dst, room)
    ensures dst + room <= size
  {
  }

  lemma NoBlocks(info: FrameInfo, header: seq<byte>)
    ensures header == header + AllBlockBytes(info, []) && AllBlockBytes(info, []) == []
  {
  }

  lemma NoData()
    ensures Data([]) == []
  {
  }

  lemma FrameComplete(info: FrameInfo, bs: seq<FrameBlock>, header: seq<byte>, body: seq<byte>)
    requires info.Valid() && header == HeaderBytes(info) && AllBlockBytes(info, bs) + EndBytes(info, Content(bs)) == body
    ensures header + body == FrameBytes(info, bs)
  {
    hide AllBlockBytes, EndBytes, HeaderBytes, Content;
    assert FrameBytes(info, bs) == HeaderBytes(info) + (AllBlockBytes(info, bs) + EndBytes(info, Content(bs)));
  }

  // ---------------------------------------------------------------- the round trip

  /** The two contexts share nothing. */
  predicate Separate(c: FrameCompressor, d: FrameDecoder) {
    && c.xxh != d.xxh && c.xxh != d.blockChecksum && c.xxh.buffer != d.xxh.buffer && c.xxh.buffer != d.blockChecksum.buffer
  }

  /** A context that waits for a frame does not care for what is in memory. */
  lemma WaitsAnywhere(d: FrameDecoder, m0: seq<byte>, m1: seq<byte>)
    requires d.Rests(m0) && d.dStage.GetFrameHeader? && |m1| == |m0|
    ensures d.Rests(m1)
  {
  }

  /** No decoding call is going to go astray: blocks are not linked, or content or room is limited. */
  predicate Manageable(preferences: Preferences, ops: seq<Op>, offers: seq<FrameReading.Offer>) {
    !Effective(preferences).info.linked || |Data(ops)| < TWO31 || FrameReading.SmallRooms(offers)
  }

  /** The frame round trip.  Whatever content is handed over in whatever pieces, with flushes
      anywhere, for whatever block size, mode, checksums and level: if the compressing caller gets
      to its end, and all blocks can be relied on, the decompressing caller, whatever pieces
      of the frame it offers and whatever room, never fails, never gets anything but the beginning
      of the content, gets all of it when it is told that the frame is over, and is told so when
      it has offered enough. */
  method RoundTrip(mem: array<byte>, c: FrameCompressor, d: FrameDecoder, preferences: Preferences, ops: seq<Op>, dst: nat, room: nat,
                   noise: byte, offers: seq<FrameReading.Offer>)
    returns (ok: bool, failed: bool, astray: bool, finished: bool, delivered: seq<byte>, frame: seq<byte>)
    requires c.Objects(mem) && c.Layout(mem.Length) && c.stream.Good(mem.Length) && Effective(preferences).info.Valid()
    requires Spaces(c, mem.Length, ops, dst, room) && |Data(ops)| < TWO64 && Separate(c, d)
    requires d.Objects(mem) && d.Rests(mem[..]) && d.dStage.GetFrameHeader?
    requires forall o :: o in offers ==> d.Space(mem.Length, o.src, o.n, o.dst, o.room)
    modifies c, c.stream, c.stream.fast, c.stream.fast.hashTable, c.stream.hc, c.stream.hc.hashTable, c.stream.hc.chainTable
    modifies c.xxh, c.xxh.buffer, mem, d, d.h, d.xxh, d.xxh.buffer, d.blockChecksum, d.blockChecksum.buffer
    ensures Enough(Effective(preferences), ops, room) && SizeFits(Effective(preferences).info, Data(ops)) && Savable(preferences, ops) ==> ok
    ensures ok && Reliable(preferences, ops) ==> !failed && delivered <= Data(ops) && (finished ==> delivered == Data(ops))
    ensures ok && Reliable(preferences, ops) && Manageable(preferences, ops, offers) ==>
      && !astray
      && (|offers| >= |frame| + |Data(ops)| && (forall o :: o in offers ==> o.n > 0 && o.room > 0) ==> finished)
  {
    hide FrameCompressor.Layout, FrameDecoder.Rests, FrameDecoder.Space, Data, Content, FrameBytes, FrameInfo.Valid,
         ValidBlocks, FrameCompressor.Blank, Effective, Spaces, Enough, FrameCompressor.Objects, Caught, Reliable,
         Blocks;
    ghost var m0 := mem[..];
    failed, astray, finished, delivered := false, false, false, [];
    ok, frame := CompressAll(mem, c, preferences, ops, dst, room, noise);
    if ok {
      WaitsAnywhere(d, m0, mem[..]);
      ghost var info, bs := c.prefs.info, c.bs;
      var pos;
      failed, astray, finished, delivered, pos := FrameReading.DecodeInPieces(mem, d, frame, offers, info, bs);
    }
  }

  // ---------------------------------------------------------------- when blocks cannot be relied on

  /** The same calls with the same amounts of data. */
  predicate SameShape(ops: seq<Op>, ops': seq<Op>) {
    && |ops'| == |ops|
    && forall i :: 0 <= i < |ops| ==>
         if ops[i].Update? then ops'[i].Update? && ops'[i].src == ops[i].src && |ops'[i].data| == |ops[i].data| else ops'[i] == ops[i]
  }

  function BaitData(mode: Mode, start: nat, n: nat, k: nat): (s: seq<byte>)
    ensures |s| == k && forall j :: 0 <= j < k ==> s[j] == BaitAt(mode, start, n + j)
  {
    if k == 0 then [] else BaitData(mode, start, n, k - 1) + [BaitAt(mode, start, n + k - 1)]
  }

  /** The calls with the data replaced by bait. */
  function Bait(mode: Mode, start: nat, ops: seq<Op>): seq<Op> {
    if ops == [] then []
    else
      var ops0, op, n := ops[..|ops| - 1], ops[|ops| - 1], |Data(ops[..|ops| - 1])|;
      Bait(mode, start, ops0) + [if op.Update? then op.(data := BaitData(mode, start, n, |op.data|)) else op]
  }

  /** One call more. */
  lemma BaitLast(mode: Mode, start: nat, ops: seq<Op>) returns (ops0: seq<Op>, op: Op, op': Op)
    requires ops != []
    ensures ops0 == ops[..|ops| - 1] && op == ops[|ops| - 1] && Bait(mode, start, ops) == Bait(mode, start, ops0) + [op']
    ensures op' == if op.Update? then op.(data := BaitData(mode, start, |Data(ops0)|, |op.data|)) else op
  {
    hide BaitData, Data;
    ops0, op := ops[..|ops| - 1], ops[|ops| - 1];
    op' := if op.Update? then op.(data := BaitData(mode, start, |Data(ops0)|, |op.data|)) else op;
  }

  lemma {:induction false} BaitFits(mode: Mode, start: nat, ops: seq<Op>)
    ensures var ops' := Bait(mode, start, ops);
            SameShape(ops, ops') && |Data(ops')| == |Data(ops)| && Baited(mode, start, Data(ops'))
    decreases |ops|
  {
    hide BaitAt, BaitData, Bait;
    if ops != [] {
      var ops0, op, op' := BaitLast(mode, start, ops);
      BaitFits(mode, start, ops0);
      assert (Bait(mode, start, ops0) + [op'])[..|ops| - 1] == Bait(mode, start, ops0);
    } else {
      assert Bait(mode, start, ops) == [] by { BaitNothing(mode, start); }
    }
  }

  lemma BaitNothing(mode: Mode, start: nat)
    ensures Bait(mode, start, []) == []
  {
  }

  /** How the content is cut, and how far the stream comes, depends on sizes alone. */
  lemma {:induction false} BaitCourse(mode: Mode, start: nat, ops: seq<Op>)
    requires mode.maxBlock > 0
    ensures var ops' := Bait(mode, start, ops); Plan(mode, ops') == Plan(mode, ops) && CourseOf(mode, ops') == CourseOf(mode, ops)
    decreases |ops|
  {
    hide After, BaitAt, BaitData, UpdateExtent, RunsAway, FlushExtent, Kept, Data, Bait;
    if ops != [] {
      var ops0, op, op' := BaitLast(mode, start, ops);
      BaitCourse(mode, start, ops0);
      var ops' := Bait(mode, start, ops);
      assert ops'[..|ops'| - 1] == Bait(mode, start, ops0) && ops'[|ops'| - 1] == op';
      AfterSame(mode, Plan(mode, ops0), op, op');
    } else {
      BaitNothing(mode, start);
    }
  }

  lemma AfterSame(mode: Mode, c: Cut, op: Op, op': Op)
    requires GoodCut(mode, c) && if op.Update? then op'.Update? && |op'.data| == |op.data| else op' == op
    ensures After(mode, c, op') == After(mode, c, op)
  {
  }

  lemma ShapeFits(c: FrameCompressor, size: nat, prefs: Preferences, ops: seq<Op>, ops': seq<Op>, dst: nat, room: nat)
    requires SameShape(ops, ops')
    ensures Spaces(c, size, ops, dst, room) ==> Spaces(c, size, ops', dst, room)
    ensures Enough(prefs, ops, room) ==> Enough(prefs, ops', room)
  {
    hide FrameCompressor.Space, FrameCompressor.FlushSpace, PublicBound;
  }

  /** The other half of the round trip: whenever there is a block that cannot be relied on, the same
      calls with other data of the same sizes, on a context whose buffer is still zero, as every
      frame finds it that has just had it allocated, make a frame of which no reader gets the
      data. */
  method GoesWrong(mem: array<byte>, c: FrameCompressor, preferences: Preferences, ops: seq<Op>, dst: nat, room: nat, noise: byte)
    returns (ok: bool, ops': seq<Op>, frame: seq<byte>)
    requires c.Objects(mem) && c.Layout(mem.Length) && c.stream.Good(mem.Length) && Effective(preferences).info.Valid()
    requires Spaces(c, mem.Length, ops, dst, room) && |Data(ops)| < TWO64 && !Reliable(preferences, ops)
    modifies c, c.stream, c.stream.fast, c.stream.fast.hashTable, c.stream.hc, c.stream.hc.hashTable, c.stream.hc.chainTable
    modifies c.xxh, c.xxh.buffer, mem
    ensures SameShape(ops, ops')
    ensures Enough(Effective(preferences), ops, room) && SizeFits(Effective(preferences).info, Data(ops)) && Savable(preferences, ops) ==> ok
    ensures ok ==> var r := FeedAll(START, frame); !(r.stage.Finished? && r.out == Data(ops'))
  {
    hide FrameCompressor.Layout, Data, Content, FrameBytes, FrameInfo.Valid, ValidBlocks, Effective, Spaces, Enough,
         FrameCompressor.Objects, Caught, Plan, AllSure, TrapStart, Baited, FeedAll, Bait, SameShape, HasBad,
         CourseOf;
    BlankInside(c, mem.Length);
    Fill(mem, c.tmpBuff, Zeros(BLANK));
    var mode := ModeOf(Effective(preferences));
    var start := TrapStart(mode, Blocks(preferences, ops));
    ops' := Bait(mode, start, ops);
    BaitFits(mode, start, ops);
    BaitCourse(mode, start, ops);
    ShapeFits(c, mem.Length, Effective(preferences), ops, ops', dst, room);
    ok, frame := CompressAll(mem, c, preferences, ops', dst, room, noise);
    if ok {
      CaughtIsBad(c.prefs, Blocks(preferences, ops'), c.bs);
    }
  }

  lemma BlankInside(c: FrameCompressor, size: nat)
    requires c.Layout(size)
    ensures c.tmpBuff + BLANK <= size
  {
  }

  lemma CaughtIsBad(prefs: Preferences, ps: seq<Piece>, bs: seq<FrameBlock>)
    requires prefs.info.Valid() && Caught(prefs, ps, bs, true) && !AllSure(ModeOf(prefs), ps)
    requires Baited(ModeOf(prefs), TrapStart(ModeOf(prefs), ps), Content(bs))
    ensures var r := FeedAll(START, FrameBytes(prefs.info, bs)); !(r.stage.Finished? && r.out == Content(bs))
  {
    hide Content, FrameBytes, FrameInfo.Valid, ValidBlocks, AllSure, TrapStart, Baited, FeedAll, BadBlock;
    var i: nat :| i < |bs| && ValidBlocks(prefs.info, bs[..i]) && BadBlock(prefs.info, Content(bs[..i]), bs[i]);
    FrameReading.BadFrame(prefs.info, bs, i);
  }
}
