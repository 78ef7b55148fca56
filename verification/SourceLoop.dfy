/**
 * One turn of the loop of `_handle_source` in src/caster.py, on the objects: parse what was read, count errors
 * and frames, and fan the frames out as one chunk.
 */
module SourceLoop {
  import opened ByteStrings
  import opened Scanner
  import opened Rtcm
  import ByteQueues
  import opened Hub
  import Delivery

  function Types(frames: seq<RtcmFrame>): seq<nat>
  {
    if frames == [] then [] else Types(frames[..|frames| - 1]) + [frames[|frames| - 1].msgType]
  }

  /** The types the frames carry, read from their bytes. */
  function WireTypes(frames: seq<RtcmFrame>): seq<nat>
  {
    seq(|frames|, k requires 0 <= k < |frames| => WireType(frames[k].raw))
  }

  lemma {:induction false} TypesAreCarried(frames: seq<RtcmFrame>)
    requires forall f :: f in frames ==> f.msgType == WireType(f.raw)
    ensures Types(frames) == WireTypes(frames)
  {
    if frames != [] {
      var init := frames[..|frames| - 1];
      assert forall f :: f in init ==> f in frames;
      TypesAreCarried(init);
      assert frames[|frames| - 1] in frames;
      assert WireTypes(frames) == WireTypes(init) + [WireType(frames[|frames| - 1].raw)];
    }
  }

  /** So what is counted for a read is what its frames carry. */
  lemma CountedTypesAreCarried(stream: Bytes)
    ensures Types(ScanRtcm(stream).frames) == WireTypes(ScanRtcm(stream).frames)
  {
    FramesTyped(stream);
    TypesAreCarried(ScanRtcm(stream).frames);
  }

  /** The loop over the frames of one read. */
  method RecordFrames(hub: MountpointHub, frames: seq<RtcmFrame>) returns (out: Bytes)
    requires hub.Valid()
    modifies hub`rtcmFramesTotal, hub`msgCounts, hub`recorded
    ensures hub.Valid() && hub.recorded == old(hub.recorded) + Types(frames)
    ensures out == RawBytes(frames)
  {
    out := [];
    for i := 0 to |frames|
      invariant hub.Valid() && hub.recorded == old(hub.recorded) + Types(frames[..i])
      invariant out == RawBytes(frames[..i])
    {
      hub.RecordRtcmFrame(frames[i].msgType);
      NextFrame(frames, i);
      out := out + frames[i].raw;
    }
    assert frames[..|frames|] == frames;
  }

  lemma NextFrame(frames: seq<RtcmFrame>, i: nat)
    requires i < |frames|
    ensures Types(frames[..i + 1]) == Types(frames[..i]) + [frames[i].msgType]
    ensures RawBytes(frames[..i + 1]) == RawBytes(frames[..i]) + frames[i].raw
  {
    assert frames[..i + 1] == frames[..i] + [frames[i]];
    assert frames[..i + 1][..i] == frames[..i];
    RawBytesAppend(frames[..i], [frames[i]]);
    assert [frames[i]][1..] == [];
    assert RawBytes([frames[i]]) == frames[i].raw;
  }

  /** Count the frames found in one read and offer them, as one chunk, to every attached rover. */
  method PublishFrames(hub: MountpointHub, frames: seq<RtcmFrame>, now: real, ghost before: seq<Rover>)
    requires hub.Valid() && hub.Shows(before) && RawBytes(frames) != []
    modifies hub`rtcmFramesTotal, hub`msgCounts, hub`recorded, hub`rxBytes, hub`droppedBytesTotal, hub.Footprint()
    ensures hub.Valid() && hub.recorded == old(hub.recorded) + Types(frames)
    ensures hub.Shows(OfferAll(before, RawBytes(frames), now))
    ensures hub.rxBytes == old(hub.rxBytes) + |RawBytes(frames)|
    ensures hub.droppedBytesTotal == old(hub.droppedBytesTotal) + SumDrops(before, RawBytes(frames), now)
  {
    var out := RecordFrames(hub, frames);
    hub.OnSourceData(out, now, before);
  }

  /** A read without frames publishes nothing. */
  method PublishAny(hub: MountpointHub, frames: seq<RtcmFrame>, now: real, ghost before: seq<Rover>)
    requires hub.Valid() && hub.Shows(before) && Types(frames) == WireTypes(frames)
    requires if frames == [] then RawBytes(frames) == [] && Types(frames) == [] else RawBytes(frames) != []
    modifies hub`rtcmFramesTotal, hub`msgCounts, hub`recorded, hub`rxBytes, hub`droppedBytesTotal, hub.Footprint()
    ensures hub.Valid() && hub.recorded == old(hub.recorded) + WireTypes(frames)
    ensures hub.Shows(if frames == [] then before else OfferAll(before, RawBytes(frames), now))
    ensures hub.rxBytes == old(hub.rxBytes) + |RawBytes(frames)|
    ensures hub.droppedBytesTotal == old(hub.droppedBytesTotal) +
      if frames == [] then 0 else SumDrops(before, RawBytes(frames), now)
  {
    if frames != [] {
      PublishFrames(hub, frames, now, before);
    }
  }

  /** Feed the parser and count its errors. */
  method ParseRead(parser: RtcmStreamParser, hub: MountpointHub, chunk: Bytes, ghost before: seq<Rover>,
                   ghost s: Scanned)
    returns (frames: seq<RtcmFrame>)
    requires hub.Valid() && hub.Shows(before) && s == ScanRtcm(parser.buf + chunk)
    modifies parser, hub`rtcmCrcErrorsTotal
    ensures hub.Valid() && hub.Shows(before) && hub.Footprint() == old(hub.Footprint())
    ensures hub.recorded == old(hub.recorded) && hub.rxBytes == old(hub.rxBytes)
    ensures hub.droppedBytesTotal == old(hub.droppedBytesTotal)
    ensures frames == s.frames && parser.buf == s.rest && Types(frames) == WireTypes(frames)
    ensures hub.rtcmCrcErrorsTotal == old(hub.rtcmCrcErrorsTotal) + s.errors
    ensures if frames == [] then RawBytes(frames) == [] && Types(frames) == [] else RawBytes(frames) != []
  {
    FramesHaveBytes(parser.buf + chunk, s);
    CountedTypesAreCarried(parser.buf + chunk);
    var errs;
    frames, errs := parser.Feed(chunk);
    if errs > 0 {
      hub.RecordRtcmCrcErrors(errs);
    }
  }

  /**
   * What a read does: the parser continues its scan, whose outcome is `s`, and every attached rover is offered
   * the frames found.
   */
  method OnRead(parser: RtcmStreamParser, hub: MountpointHub, chunk: Bytes, now: real, ghost before: seq<Rover>,
                ghost s: Scanned)
    requires hub.Valid() && hub.Shows(before) && s == ScanRtcm(parser.buf + chunk)
    modifies parser, hub`rtcmCrcErrorsTotal
    modifies hub`rtcmFramesTotal, hub`msgCounts, hub`recorded, hub`rxBytes, hub`droppedBytesTotal, hub.Footprint()
    ensures hub.Valid() && parser.buf == s.rest
    ensures hub.rtcmCrcErrorsTotal == old(hub.rtcmCrcErrorsTotal) + s.errors
    ensures hub.recorded == old(hub.recorded) + WireTypes(s.frames)
    ensures hub.Shows(if s.frames == [] then before else OfferAll(before, RawBytes(s.frames), now))
    ensures hub.rxBytes == old(hub.rxBytes) + |RawBytes(s.frames)|
    ensures hub.droppedBytesTotal == old(hub.droppedBytesTotal) +
      if s.frames == [] then 0 else SumDrops(before, RawBytes(s.frames), now)
  {
    var frames := ParseRead(parser, hub, chunk, before, s);
    PublishAny(hub, frames, now, before);
  }

  /** Frames are never empty, so the chunk made of them is not either. */
  lemma FramesHaveBytes(buf: Bytes, s: Scanned)
    requires s == ScanRtcm(buf)
    ensures s.frames == [] ==> RawBytes(s.frames) == [] && Types(s.frames) == []
    ensures s.frames != [] ==> RawBytes(s.frames) != []
  {
    ClassifyLawful();
    ScanEmitsWhole(Classify, buf);
    var frames := ScanRtcm(buf).frames;
    if frames != [] {
      assert WholeBy(Classify, frames[0]);
      assert RawBytes(frames) == frames[0].raw + RawBytes(frames[1..]);
    }
  }

  /** The transition system offers a chunk to an attached session exactly as the hub does. */
  lemma OfferedAsByHub(s: Delivery.Session, chunk: Bytes, index: nat, now: real)
    ensures Delivery.Offered(s, chunk, index, now).rover == if s.attached then Offer(s.rover, chunk, now) else s.rover
  {
  }

  /** The rovers of the attached sessions, in order. */
  function Attached(ss: seq<Delivery.Session>): seq<Rover>
  {
    if ss == [] then []
    else Attached(ss[..|ss| - 1]) + (if ss[|ss| - 1].attached then [ss[|ss| - 1].rover] else [])
  }

  /** So a read in the transition system leaves the attached rovers as `OnRead` leaves those of the hub. */
  lemma {:induction false} FanOutAgrees(ss: seq<Delivery.Session>, chunk: Bytes, index: nat, now: real)
    ensures Attached(Delivery.OfferedAll(ss, chunk, index, now)) == OfferAll(Attached(ss), chunk, now)
  {
    if ss != [] {
      var init, last := ss[..|ss| - 1], ss[|ss| - 1];
      FanOutAgrees(init, chunk, index, now);
      OfferedAsByHub(last, chunk, index, now);
      var all := Delivery.OfferedAll(ss, chunk, index, now);
      assert all[..|all| - 1] == Delivery.OfferedAll(init, chunk, index, now);
      if last.attached {
        assert OfferAll(Attached(init) + [last.rover], chunk, now) ==
          OfferAll(Attached(init), chunk, now) + [Offer(last.rover, chunk, now)];
      } else {
        assert Attached(ss) == Attached(init);
      }
    }
  }

  /** A departing source leaves the attached rovers of the transition system as it leaves those of the hub. */
  lemma {:induction false} DetachAgrees(ss: seq<Delivery.Session>)
    ensures Attached(Delivery.ClosedAll(ss)) == CloseAll(Attached(ss))
  {
    if ss != [] {
      var init, last := ss[..|ss| - 1], ss[|ss| - 1];
      DetachAgrees(init);
      var all := Delivery.ClosedAll(ss);
      assert all[..|all| - 1] == Delivery.ClosedAll(init);
      if last.attached {
        assert CloseAll(Attached(init) + [last.rover]) ==
          CloseAll(Attached(init)) + [last.rover.(queue := ByteQueues.Close(last.rover.queue))];
      } else {
        assert Attached(ss) == Attached(init);
      }
    }
  }
}
