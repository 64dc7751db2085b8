/** Whole frames, read in any pieces: whatever input a caller offers with each call, whatever room
    for output, wherever its buffers are and whatever it does to them between the calls, the
    decoder delivers the content. */
module FrameReading {
  import opened BlockFormat
  import opened Memory
  import opened MatchCount
  import opened FrameFormat
  import opened FrameHistory
  import opened FrameDecoder

  /** What the caller offers with one call: some input, a place to put it, room for output, and a
      byte to overwrite the output with once it has been taken away. */
  datatype Offer = Offer(src: nat, n: nat, dst: nat, room: nat, noise: byte)

  method Overwrite(mem: array<byte>, dst: nat, n: nat, noise: byte)
    requires dst + n <= mem.Length
    modifies mem
    ensures SameOutside(old(mem[..]), mem[..], dst, dst + n)
  {
    forall i | dst <= i < dst + n {
      mem[i] := noise;
    }
  }

  // ---------------------------------------------------------------- the reader on a frame

  lemma {:induction false} FinishedForGood(r: Reader, x: seq<byte>)
    requires r.stage.Finished?
    ensures FeedAll(r, x) == r
    decreases |x|
  {
    if x != [] {
      FinishedForGood(r, x[1..]);
    }
  }

  /** Content is only ever added to. */
  lemma {:induction false} OutGrows(r: Reader, x: seq<byte>)
    requires r.stage.InHeader? ==> r.out == []
    ensures r.out <= FeedAll(r, x).out
    decreases |x|
  {
    if x != [] {
      FeedGrows(r, x[0]);
      OutGrows(Feed(r, x[0]), x[1..]);
    }
  }

  lemma FeedGrows(r: Reader, b: byte)
    requires r.stage.InHeader? ==> r.out == []
    ensures r.out <= Feed(r, b).out && (Feed(r, b).stage.InHeader? ==> Feed(r, b).out == [])
  {
    hide Decode, ReadHeader, Checksum;
  }

  /** What lies behind some of the blocks. */
  lemma {:induction false} BlocksSplit(info: FrameInfo, bs: seq<FrameBlock>, i: nat) returns (more: seq<byte>, rest: seq<byte>)
    requires i < |bs|
    ensures Content(bs) == Content(bs[..i]) + bs[i].data + more
    ensures AllBlockBytes(info, bs) == AllBlockBytes(info, bs[..i]) + (BlockBytes(info, bs[i]) + rest)
    decreases |bs|
  {
    hide BlockBytes;
    var bs', b := bs[..|bs| - 1], bs[|bs| - 1];
    if i == |bs| - 1 {
      more, rest := [], [];
      assert BlockBytes(info, b) + [] == BlockBytes(info, b);
      assert Content(bs') + b.data + [] == Content(bs') + b.data;
    } else {
      assert bs'[..i] == bs[..i] && bs'[i] == bs[i];
      var more', rest' := BlocksSplit(info, bs', i);
      more, rest := more' + b.data, rest' + BlockBytes(info, b);
      assert (Content(bs[..i]) + bs[i].data + more') + b.data == Content(bs[..i]) + bs[i].data + (more' + b.data);
      assert (AllBlockBytes(info, bs[..i]) + (BlockBytes(info, bs[i]) + rest')) + BlockBytes(info, b)
          == AllBlockBytes(info, bs[..i]) + (BlockBytes(info, bs[i]) + (rest' + BlockBytes(info, b)));
    }
  }

  /** A frame with a block that nobody gets its data from never comes to an end with its content. */
  lemma BadFrame(info: FrameInfo, bs: seq<FrameBlock>, i: nat)
    requires info.Valid() && i < |bs| && ValidBlocks(info, bs[..i]) && BadBlock(info, Content(bs[..i]), bs[i])
    ensures var r := FeedAll(START, FrameBytes(info, bs)); !(r.stage.Finished? && r.out == Content(bs))
  {
    hide FeedAll, Feed, LeBytes, Checksum, Word, AllBlockBytes, HeaderBytes, ValidBlocks, ReadHeader, BadBlock,
         BlockBytes, Content, EndBytes;
    var h, pre, b, e := HeaderBytes(info), bs[..i], bs[i], EndBytes(info, Content(bs));
    HeaderReads(info);
    HeaderLength(info);
    assert [] + h[..|h| - 1] == h[..|h| - 1] && [] + h == h;
    FeedHeader(START, h);
    var r := Reader(Collecting(BlockHeader, []), info, [], true, 0);
    var more, rest := BlocksSplit(info, bs, i);
    var x, y := AllBlockBytes(info, pre), BlockBytes(info, b);
    assert FrameBytes(info, bs) == h + (x + (y + (rest + e)));
    FeedInPieces(START, h, x + (y + (rest + e)));
    FeedInPieces(r, x, y + (rest + e));
    FeedBlocks(r, pre);
    var r1 := r.(out := Content(pre), deepest := Deepest(pre));
    FeedInPieces(r1, y, rest + e);
    FeedBadBlock(r1, b);
    NeverRight(FeedAll(r1, y), rest + e, Content(pre), b.data, more, Content(bs));
  }

  lemma NeverRight(r: Reader, x: seq<byte>, c: seq<byte>, data: seq<byte>, more: seq<byte>, content: seq<byte>)
    requires content == c + data + more
    requires || r.stage.Failed?
             || (!r.stage.InHeader? && exists i :: 0 <= i < |data| && |c| + i < |r.out| && r.out[|c| + i] != data[i])
    ensures var r' := FeedAll(r, x); !(r'.stage.Finished? && r'.out == content)
  {
    hide Feed, FeedAll;
    if r.stage.Failed? {
      FailedForGood(r, x);
    } else {
      OutGrows(r, x);
      var i :| 0 <= i < |data| && |c| + i < |r.out| && r.out[|c| + i] != data[i];
      assert content[|c| + i] == data[i] && FeedAll(r, x).out[|c| + i] == r.out[|c| + i];
    }
  }

  /** The last byte of a frame is needed. */
  lemma NotBefore(info: FrameInfo, bs: seq<FrameBlock>)
    requires info.Valid() && ValidBlocks(info, bs) && (info.contentSize > 0 ==> info.contentSize == |Content(bs)|)
    ensures var x := FrameBytes(info, bs); |x| > 0 && !FeedAll(START, x[..|x| - 1]).stage.Finished?
  {
    hide FeedAll, Feed, LeBytes, Checksum, AllBlockBytes, HeaderBytes, ValidBlocks, ReadHeader;
    var x, h, rest, e := FrameBytes(info, bs), HeaderBytes(info), AllBlockBytes(info, bs), EndBytes(info, Content(bs));
    HeaderReads(info);
    HeaderLength(info);
    assert [] + h[..|h| - 1] == h[..|h| - 1] && [] + h == h;
    FeedHeader(START, h);
    var r := Reader(Collecting(BlockHeader, []), info, [], true, 0);
    var y := e[..|e| - 1];
    assert x[..|x| - 1] == h + (rest + y);
    FeedInPieces(START, h, rest + y);
    FeedInPieces(r, rest, y);
    FeedBlocks(r, bs);
    EndNotBefore(r.(out := Content(bs), deepest := Deepest(bs)));
  }

  lemma EndNotBefore(r: Reader)
    requires r.stage == Collecting(BlockHeader, []) && (r.info.contentSize > 0 ==> r.info.contentSize == |r.out|)
    ensures var e := EndBytes(r.info, r.out); !FeedAll(r, e[..|e| - 1]).stage.Finished?
  {
    hide FeedAll, Feed, LeBytes, Checksum, Word;
    var e, head := EndBytes(r.info, r.out), LeBytes(0, 4);
    if r.info.contentChecksum {
      var crc := LeBytes(Checksum(r.out), 4);
      assert e[..|e| - 1] == head + crc[..3];
      FeedField(r, head);
      assert [] + head == head && head[0..4] == head;
      Le32(head, 0, 0);
      FeedInPieces(r, head, crc[..3]);
      FeedField(FeedAll(r, head), crc[..3]);
    } else {
      FeedField(r, e[..|e| - 1]);
    }
  }

  /** The parameters of a frame stay what the header says. */
  lemma {:induction false} InfoStays(r: Reader, x: seq<byte>)
    requires !r.stage.InHeader?
    ensures var e := FeedAll(r, x); !e.stage.InHeader? && e.info == r.info
    decreases |x|
  {
    hide Feed;
    if x != [] {
      InfoStaysNext(r, x[0]);
      InfoStays(Feed(r, x[0]), x[1..]);
    }
  }

  lemma InfoStaysNext(r: Reader, b: byte)
    requires !r.stage.InHeader?
    ensures Feed(r, b).info == r.info && !Feed(r, b).stage.InHeader?
  {
    hide Decode, ReadHeader, Checksum;
  }

  /** Before that there are none. */
  lemma {:induction false} NoInfoInHeader(r: Reader, x: seq<byte>)
    requires r.stage.InHeader? && !r.info.linked
    ensures var e := FeedAll(r, x); e.stage.InHeader? ==> !e.info.linked
    decreases |x|
  {
    hide ReadHeader;
    if x != [] {
      if Feed(r, x[0]).stage.InHeader? {
        NoInfoInHeader(Feed(r, x[0]), x[1..]);
      } else {
        InfoStays(Feed(r, x[0]), x[1..]);
      }
    }
  }

  /** The reader part-way through a frame that is in order. */
  lemma PartWay(info: FrameInfo, bs: seq<FrameBlock>, n: nat)
    requires info.Valid() && ValidBlocks(info, bs) && (info.contentSize > 0 ==> info.contentSize == |Content(bs)|)
    requires n <= |FrameBytes(info, bs)|
    ensures var e := FeedAll(START, FrameBytes(info, bs)[..n]);
            && !Unacceptable(e) && e.out <= Content(bs)
            && (e.stage.Finished? <==> n == |FrameBytes(info, bs)|) && (e.stage.Finished? ==> e.out == Content(bs))
            && (e.info.linked ==> info.linked)
  {
    hide FeedAll, FrameBytes, ValidBlocks, Content;
    NoInfoInHeader(START, FrameBytes(info, bs)[..n]);
    var x := FrameBytes(info, bs);
    var e := FeedAll(START, x[..n]);
    FrameReads(info, bs);
    assert x[..n] + x[n..] == x;
    FeedInPieces(START, x[..n], x[n..]);
    if !e.stage.InHeader? {
      InfoStays(e, x[n..]);
    }
    StrictForGood(e, x[n..]);
    if e.stage.Failed? {
      FailedForGood(e, x[n..]);
    }
    OutGrows(START, x[..n]);
    StartsEmpty(x[..n]);
    OutGrows(e, x[n..]);
    if e.stage.Finished? {
      FinishedForGood(e, x[n..]);
      NotBefore(info, bs);
      if n < |x| {
        var y := x[n..|x| - 1];
        assert x[..n] + y == x[..|x| - 1];
        FeedInPieces(START, x[..n], y);
        FinishedForGood(e, y);
      }
    }
    assert x[..|x|] == x;
  }

  lemma {:induction false} StartsEmpty(x: seq<byte>)
    ensures var e := FeedAll(START, x); e.stage.InHeader? ==> e.out == []
  {
    EmptyInHeader(START, x);
  }

  lemma {:induction false} EmptyInHeader(r: Reader, x: seq<byte>)
    requires r.stage.InHeader? ==> r.out == []
    ensures var e := FeedAll(r, x); e.stage.InHeader? ==> e.out == []
    decreases |x|
  {
    if x != [] {
      FeedGrows(r, x[0]);
      EmptyInHeader(Feed(r, x[0]), x[1..]);
    }
  }

  // ---------------------------------------------------------------- the caller

  method TakeOffer(mem: array<byte>, d: FrameDecoder, o: Offer, x: seq<byte>) returns (res: Result, used: nat, got: seq<byte>)
    requires d.Objects(mem) && d.Rests(mem[..]) && d.Unattached() && d.Space(mem.Length, o.src, o.n, o.dst, o.room) && |x| <= o.n
    modifies d, d.h, d.xxh, d.xxh.buffer, d.blockChecksum, d.blockChecksum.buffer, mem
    ensures res.Failure? ==> Unacceptable(FeedAll(old(d.r), x))
    ensures res.Astray? ==>
      o.room > TWO31 && used <= |x| && var e := FeedAll(old(d.r), x[..used]); e.info.linked && |e.out| >= TWO31
    ensures res.Hint? ==> used <= |x| && |got| <= o.room && d.Rests(mem[..]) && d.Unattached()
    ensures res.Hint? && res.size > 0 ==>
      && d.r == FeedAll(old(d.r), x[..used]) && d.given == old(d.given) + got && d.given <= d.r.out
      && !d.r.stage.Finished? && (used == |x| || |got| == o.room)
    ensures res.Hint? && res.size == 0 ==>
      d.r == START && d.given == [] && FrameEnds(FeedAll(old(d.r), x[..used]), old(d.given) + got)
  {
    hide FrameDecoder.Rests, FrameDecoder.Outside, FeedAll, SameOutside, FrameDecoder.Inside;
    ghost var m0, r0, given0 := mem[..], d.r, d.given;
    Fill(mem, o.src, x);
    OutsideOf(d, m0, mem[..], o.src, |x|, o.n);
    d.CallersBuffers(m0, mem[..]);
    SpaceLess(d, mem.Length, o, |x|);
    var n;
    res, used, n := d.Decompress(mem, o.src, |x|, o.dst, o.room, false);
    if !res.Hint? {
      got := [];
      return;
    }
    got := mem[o.dst..o.dst + n];
    ghost var m1 := mem[..];
    Overwrite(mem, o.dst, o.room, o.noise);
    OutsideOf(d, m1, mem[..], o.dst, o.room, o.room);
    d.CallersBuffers(m1, mem[..]);
    NotFinished(d, mem[..]);
  }

  lemma NotFinished(d: FrameDecoder, m: seq<byte>)
    requires d.Rests(m)
    ensures !d.r.stage.Finished? && d.given <= d.r.out
  {
    hide FrameDecoder.Valid;
    d.GivenIsPrefix(m);
  }

  lemma SpaceLess(d: FrameDecoder, size: nat, o: Offer, n: nat)
    requires d.Space(size, o.src, o.n, o.dst, o.room) && n <= o.n
    ensures d.Space(size, o.src, n, o.dst, o.room)
  {
  }

  lemma OutsideOf(d: FrameDecoder, m0: seq<byte>, m1: seq<byte>, lo: nat, n: nat, room: nat)
    requires d.Outside(lo, lo + room) && n <= room && SameOutside(m0, m1, lo, lo + n)
    ensures |m1| == |m0| && forall i :: 0 <= i < |m0| && d.Inside(i) ==> m1[i] == m0[i]
  {
  }

  /** `frame` is a frame of these blocks, and in order. */
  ghost predicate InOrder(frame: seq<byte>, info: FrameInfo, bs: seq<FrameBlock>) {
    && info.Valid() && ValidBlocks(info, bs) && (info.contentSize > 0 ==> info.contentSize == |Content(bs)|)
    && frame == FrameBytes(info, bs)
  }

  /** No call is given room for more than 2 GB. */
  predicate SmallRooms(offers: seq<Offer>) {
    forall o :: o in offers ==> o.room <= TWO31
  }

  /** A caller that hands bytes to the decoder as its offers say, collecting what is delivered.
      If they are a frame that is in order, no call fails; what is collected is always the
      beginning of the content; the decoder says that it is through exactly when it has read the
      whole frame, and then all of the content is there.  Offers that are not empty bring it there.
      Only a frame of linked blocks with 2 GB of content or more can lead a call astray, and only
      one that is given room for more than 2 GB. */
  method DecodeInPieces(mem: array<byte>, d: FrameDecoder, frame: seq<byte>, offers: seq<Offer>,
                        ghost info: FrameInfo, ghost bs: seq<FrameBlock>)
    returns (failed: bool, astray: bool, finished: bool, delivered: seq<byte>, pos: nat)
    requires d.Objects(mem) && d.Rests(mem[..]) && d.dStage.GetFrameHeader?
    requires forall o :: o in offers ==> d.Space(mem.Length, o.src, o.n, o.dst, o.room)
    modifies d, d.h, d.xxh, d.xxh.buffer, d.blockChecksum, d.blockChecksum.buffer, mem
    ensures pos <= |frame| && (finished ==> !failed && !astray && d.r == START && d.given == [] && d.Rests(mem[..]))
    ensures astray ==> !SmallRooms(offers)
    ensures InOrder(frame, info, bs) ==>
      && !failed && delivered <= Content(bs) && (finished ==> pos == |frame| && delivered == Content(bs))
      && (astray ==> info.linked && |Content(bs)| >= TWO31)
      && (!astray ==>
            && (pos == |frame| ==> finished)
            && (|offers| >= |frame| + |Content(bs)| && (forall o :: o in offers ==> o.n > 0 && o.room > 0) ==> finished))
  {
    hide FrameDecoder.Rests, FrameDecoder.Space, FeedAll, FrameDecoder.Objects, InOrder, Content, Unacceptable;
    FreshStart(d, mem[..]);
    FeedNothing(START);
    failed, astray, finished, delivered, pos := false, false, false, [], 0;
    assert frame[..0] == [];
    if InOrder(frame, info, bs) {
      InFrameSoFar(frame, info, bs, 0, 0);
    }
    var i := 0;
    while i < |offers| && !finished
      invariant i <= |offers| && pos <= |frame| && d.Objects(mem) && d.Rests(mem[..]) && d.Unattached() && !failed && !astray
      invariant !finished ==> d.r == FeedAll(START, frame[..pos]) && d.given == delivered
      invariant finished ==> d.r == START && d.given == []
      invariant InOrder(frame, info, bs) ==>
        && delivered <= Content(bs) && (finished <==> pos == |frame|) && (finished ==> delivered == Content(bs))
      invariant !finished && (forall o :: o in offers ==> o.n > 0 && o.room > 0) ==> i <= pos + |delivered| || pos == |frame|
    {
      var o := offers[i];
      var n := Least(o.n, |frame| - pos);
      var x := frame[pos..pos + n];
      ghost var pos0 := pos;
      var res, used, got := TakeOffer(mem, d, o, x);
      if InOrder(frame, info, bs) {
        InFrameSoFar(frame, info, bs, pos0, n);
      }
      if res.Failure? {
        return true, false, false, delivered, pos;
      }
      assert x[..used] == frame[pos0..pos0 + used];
      if InOrder(frame, info, bs) {
        InFrameSoFar(frame, info, bs, pos0, used);
      }
      if res.Astray? {
        assert o in offers;
        return false, true, false, delivered, pos;
      }
      assert frame[..pos0] + frame[pos0..pos0 + used] == frame[..pos0 + used];
      FeedInPieces(START, frame[..pos0], frame[pos0..pos0 + used]);
      pos := pos + used;
      delivered := delivered + got;
      finished := res == Hint(0);
      i := i + 1;
    }
  }

  lemma FreshStart(d: FrameDecoder, m: seq<byte>)
    requires d.Rests(m) && d.dStage.GetFrameHeader?
    ensures d.r == START && d.given == [] && d.Unattached()
  {
  }

  /** The reader, having read some of a frame and then some more. */
  lemma InFrameSoFar(frame: seq<byte>, info: FrameInfo, bs: seq<FrameBlock>, pos: nat, n: nat)
    requires InOrder(frame, info, bs) && pos + n <= |frame|
    ensures var e := FeedAll(FeedAll(START, frame[..pos]), frame[pos..pos + n]);
            && e == FeedAll(START, frame[..pos + n]) && !Unacceptable(e) && e.out <= Content(bs)
            && (e.stage.Finished? <==> pos + n == |frame|) && (e.stage.Finished? ==> e.out == Content(bs))
            && (e.info.linked ==> info.linked)
  {
    hide FeedAll, FrameBytes, Content, ValidBlocks;
    assert frame[..pos] + frame[pos..pos + n] == frame[..pos + n];
    FeedInPieces(START, frame[..pos], frame[pos..pos + n]);
    PartWay(info, bs, pos + n);
  }
}
