/**
 * The framing of src/rtcm.py, for the transport layer of RTCM 10403.2 (section 4): preamble, ten bits
 * of length, payload, CRC-24Q.
 */
module Rtcm {
  import opened ByteStrings
  import opened Scanner
  import Crc24q

  const PREAMBLE: byte := 0xD3
  const MAX_RESIDUAL: nat := 1028

  /** Ten bits of length: two from the second byte, eight from the third. */
  function PayloadLength(buf: Bytes): (n: nat)
    requires |buf| >= 3
    ensures n <= 1023
  {
    buf[1] as nat % 4 * 256 + buf[2]
  }

  function Total(buf: Bytes): nat
    requires |buf| >= 3
  {
    3 + PayloadLength(buf) + 3
  }

  /**
   * The message type of a payload, or nothing when it has fewer than two bytes. The result stays
   * below 4096, so the mask the source applies to it changes nothing.
   */
  function MessageType(payload: Bytes): (t: Option<nat>)
    ensures t.Some? ==> t.value < 4096
  {
    if |payload| < 2 then None else Some(payload[0] as nat * 16 + payload[1] as nat / 16)
  }

  /** The message type is the number in the first twelve bits of the payload. */
  lemma MessageTypeIsFirstTwelveBits(payload: Bytes)
    requires |payload| >= 2
    ensures MessageType(payload) == Some(BitsNat(Bits(payload)[..12]))
  {
    TwoBytesFirst(payload);
    TwelveFirst(payload[0], payload[1], Bits(payload[2..]));
  }

  lemma TwelveFirst(x: nat, y: nat, rest: seq<bool>)
    requires x < 256 && y < 256
    ensures BitsNat((NatBits(x, 8) + NatBits(y, 8) + rest)[..12]) == x * 16 + y / 16
  {
    NibbleSplit(y);
    FirstTwelve(NatBits(x, 8), NatBits(y / 16, 4), NatBits(y % 16, 4), rest);
    TwelveBits(NatBits(x, 8) + NatBits(y / 16, 4), x, y / 16);
  }

  lemma FirstTwelve(a: seq<bool>, b: seq<bool>, c: seq<bool>, d: seq<bool>)
    requires |a| == 8 && |b| == 4
    ensures (a + (b + c) + d)[..12] == a + b
  {
  }

  lemma TwoBytesFirst(payload: Bytes)
    requires |payload| >= 2
    ensures Bits(payload) == NatBits(payload[0], 8) + NatBits(payload[1], 8) + Bits(payload[2..])
  {
    assert payload[1..][1..] == payload[2..];
    assert Bits(payload) == NatBits(payload[0], 8) + Bits(payload[1..]);
  }

  lemma NibbleSplit(b: nat)
    requires b < 256
    ensures NatBits(b, 8) == NatBits(b / 16, 4) + NatBits(b % 16, 4)
  {
    assert Pow2(4) == 16;
    NatBitsPeel(b / 16, b % 16, 4, 4);
  }

  lemma TwelveBits(bits: seq<bool>, a: nat, h: nat)
    requires a < 256 && h < 16 && bits == NatBits(a, 8) + NatBits(h, 4)
    ensures BitsNat(bits) == a * 16 + h
  {
    assert Pow2(4) == 16;
    assert Pow2(8) == 256;
    NatRoundTrip(a, 8);
    NatRoundTrip(h, 4);
    BitsNatAppend(NatBits(a, 8), NatBits(h, 4));
  }

  /** What the scanner decides about the bytes at the head of its buffer. */
  function Classify(buf: Bytes): Head
  {
    if buf == [] then Incomplete
    else if buf[0] != PREAMBLE then Noise
    else if |buf| < 3 || |buf| < Total(buf) then Incomplete
    else
      var frame := buf[..Total(buf)];
      if !Crc24q.CheckOk(frame) then Rejected
      else
        match MessageType(frame[3..3 + PayloadLength(buf)])
        case None => Rejected
        case Some(t) => Accepted(RtcmFrame(t, frame))
  }

  lemma ClassifyStable(a: Bytes, b: Bytes)
    requires a != [] && !Classify(a).Incomplete?
    ensures Classify(a + b) == Classify(a)
  {
    if a[0] == PREAMBLE {
      assert (a + b)[..Total(a)] == a[..Total(a)];
    }
  }

  lemma AcceptedIsWhole(buf: Bytes)
    requires Classify(buf).Accepted?
    ensures var f := Classify(buf).frame; Classify(f.raw) == Accepted(f)
  {
    var f := Classify(buf).frame;
    assert f.raw[..Total(f.raw)] == f.raw;
  }

  /** The head verdicts of the source satisfy the scanner's laws. */
  lemma ClassifyLawful()
    ensures Lawful(Classify)
  {
    forall a: Bytes, b: Bytes | a != [] && !Classify(a).Incomplete?
      ensures Classify(a + b) == Classify(a)
    {
      ClassifyStable(a, b);
    }
    forall buf: Bytes | buf != [] && Classify(buf).Accepted?
      ensures WholeBy(Classify, Classify(buf).frame)
    {
      AcceptedIsWhole(buf);
      CutIsIncomplete(buf);
    }
  }

  lemma CutIsIncomplete(buf: Bytes)
    requires Classify(buf).Accepted?
    ensures var raw := Classify(buf).frame.raw; forall k :: 0 < k < |raw| ==> Classify(raw[..k]) == Incomplete
  {
  }

  lemma ClassifyShaped()
    ensures Shaped(Classify)
  {
  }

  /** One scan of a whole byte string with the verdicts of the source. */
  ghost function ScanRtcm(buf: Bytes): Scanned
  {
    ClassifyShaped();
    Scan(Classify, buf)
  }

  /** The type a frame carries: the number in its bits 24 to 35, the first twelve of the payload. */
  function WireType(raw: Bytes): nat
  {
    if |raw| < 5 then 0 else BitsNat(Bits(raw)[24..36])
  }

  lemma BitsBetween(a: Bytes, b: Bytes, c: Bytes, n: nat)
    requires n <= 8 * |b|
    ensures Bits(a + b + c)[8 * |a|..8 * |a| + n] == Bits(b)[..n]
  {
    BitsAppend(a + b, c);
    BitsAppend(a, b);
  }

  lemma AcceptedType(f: RtcmFrame)
    requires f.raw != [] && Classify(f.raw) == Accepted(f)
    ensures |f.raw| >= 8 && f.msgType == WireType(f.raw)
  {
    var raw, n := f.raw, PayloadLength(f.raw);
    var payload := raw[3..3 + n];
    MessageTypeIsFirstTwelveBits(payload);
    assert raw == raw[..3] + payload + raw[3 + n..];
    BitsBetween(raw[..3], payload, raw[3 + n..], 12);
  }

  /** Every frame found in a stream is reported with the type it carries. */
  lemma FramesTyped(stream: Bytes)
    ensures forall f :: f in ScanRtcm(stream).frames ==> |f.raw| >= 8 && f.msgType == WireType(f.raw)
  {
    ClassifyLawful();
    ScanEmitsWhole(Classify, stream);
    var frames := ScanRtcm(stream).frames;
    forall f | f in frames
      ensures |f.raw| >= 8 && f.msgType == WireType(f.raw)
    {
      var k :| 0 <= k < |frames| && frames[k] == f;
      assert WholeBy(Classify, frames[k]);
      AcceptedType(f);
    }
  }

  // ----- the parser object -----

  lemma SkipNoise(buf: Bytes, i: nat)
    requires i < |buf| && buf[i] != PREAMBLE
    ensures ScanRtcm(buf[i..]) == ScanRtcm(buf[i + 1..])
  {
    ClassifyShaped();
    assert buf[i..][1..] == buf[i + 1..];
    JoinJoin([], 0, [], 0, Scan(Classify, buf[i + 1..]));
  }

  /** Taking a frame off the head of the buffer, on top of what was found before. */
  lemma Take(frames: seq<RtcmFrame>, errors: nat, buf: Bytes, f: RtcmFrame)
    requires Classify(buf) == Accepted(f)
    ensures 1 <= |f.raw| <= |buf|
    ensures Join(frames, errors, ScanRtcm(buf)) == Join(frames + [f], errors, ScanRtcm(buf[|f.raw|..]))
  {
    ClassifyShaped();
    JoinJoin(frames, errors, [f], 0, ScanRtcm(buf[|f.raw|..]));
  }

  /** Rejecting the frame that seemed to start at the head: one byte goes, one error is counted. */
  lemma Reject(frames: seq<RtcmFrame>, errors: nat, buf: Bytes)
    requires buf != [] && Classify(buf) == Rejected
    ensures Join(frames, errors, ScanRtcm(buf)) == Join(frames, errors + 1, ScanRtcm(buf[1..]))
  {
    ClassifyShaped();
    JoinJoin(frames, errors, [], 1, ScanRtcm(buf[1..]));
    assert frames + [] == frames;
  }

  /** Waiting for more bytes ends the scan. */
  lemma Wait(frames: seq<RtcmFrame>, errors: nat, buf: Bytes)
    requires Classify(buf).Incomplete?
    ensures Join(frames, errors, ScanRtcm(buf)) == Scanned(frames, errors, buf)
  {
    ClassifyShaped();
    assert frames + [] == frames;
  }

  class RtcmStreamParser {
    var buf: Bytes

    constructor ()
      ensures buf == []
    {
      buf := [];
    }

    /** The inner loop: drop bytes up to the next preamble. */
    method SkipToPreamble()
      modifies this
      ensures buf != [] ==> buf[0] == PREAMBLE
      ensures |buf| <= |old(buf)| && buf == old(buf)[|old(buf)| - |buf|..]
      ensures ScanRtcm(buf) == ScanRtcm(old(buf))
    {
      var i := 0;
      ghost var s := ScanRtcm(buf);
      assert buf[0..] == buf;
      while i < |buf| && buf[i] != PREAMBLE
        modifies {}
        invariant 0 <= i <= |buf|
        invariant ScanRtcm(buf[i..]) == s
      {
        SkipNoise(buf, i);
        i := i + 1;
      }
      if i > 0 {
        buf := buf[i..];
      }
    }

    /** The part of the loop that inspects the head, once noise was skipped. */
    method Inspect() returns (h: Head)
      requires buf != [] ==> buf[0] == PREAMBLE
      ensures h == Classify(buf) && !h.Noise?
    {
      if |buf| < 3 {
        return Incomplete;
      }
      var length := buf[1] as nat % 4 * 256 + buf[2];
      var total := 3 + length + 3;
      if |buf| < total {
        return Incomplete;
      }
      var frame := buf[..total];
      var payload := frame[3..3 + length];
      var expected := frame[total - 3] as nat * 0x10000 + frame[total - 2] as nat * 0x100 + frame[total - 1];
      var computed := Crc24q.ComputeCrc24q(frame[..total - 3]);
      Crc24q.ComparisonDecidesCheck(frame, computed);
      if computed != expected {
        return Rejected;
      }
      var mt := MessageType(payload);
      if mt == None {
        return Rejected;
      }
      return Accepted(RtcmFrame(mt.value, frame));
    }

    /** One turn of the outer loop: skip to a preamble, then take, reject or wait for a frame. */
    method Turn(frames: seq<RtcmFrame>, crcErrors: nat) returns (frames': seq<RtcmFrame>, crcErrors': nat, more: bool)
      modifies this
      ensures Join(frames', crcErrors', ScanRtcm(buf)) == Join(frames, crcErrors, ScanRtcm(old(buf)))
      ensures if more then |buf| < |old(buf)| else Classify(buf).Incomplete?
    {
      frames', crcErrors' := frames, crcErrors;
      SkipToPreamble();
      var h := Inspect();
      more := !h.Incomplete?;
      if h.Accepted? {
        Take(frames, crcErrors, buf, h.frame);
        frames' := frames + [h.frame];
        buf := buf[|h.frame.raw|..];
      } else if h.Rejected? {
        Reject(frames, crcErrors, buf);
        crcErrors' := crcErrors + 1;
        buf := buf[1..];
      }
    }

    /** `feed`: add the chunk, then take turns until more bytes are needed. */
    method Feed(chunk: Bytes) returns (frames: seq<RtcmFrame>, crcErrors: nat)
      modifies this
      ensures Scanned(frames, crcErrors, buf) == ScanRtcm(old(buf) + chunk)
    {
      ghost var input := buf + chunk;
      if chunk != [] {
        buf := buf + chunk;
      }
      assert buf == input;
      frames, crcErrors := [], 0;
      JoinJoin([], 0, [], 0, ScanRtcm(input));
      var more := true;
      while more
        invariant ScanRtcm(input) == Join(frames, crcErrors, ScanRtcm(buf))
        invariant !more ==> Classify(buf).Incomplete?
        decreases more, |buf|
      {
        frames, crcErrors, more := Turn(frames, crcErrors);
      }
      Wait(frames, crcErrors, buf);
    }
  }

  // ----- what a run of the parser guarantees -----

  /** However a stream is cut into chunks, a fresh parser fed with them ends like one fed with all of it. */
  lemma RtcmChunking(chunks: seq<Bytes>)
    ensures Shaped(Classify) && FeedRun(Classify, [], chunks) == ScanRtcm(Concat(chunks))
  {
    ClassifyLawful();
    ChunkingIndependence(Classify, chunks);
  }

  /** The residual of a scan is at most 1028 bytes, and with the frames it fits in the input. */
  lemma ResidualBound(buf: Bytes)
    ensures var s := ScanRtcm(buf); |s.rest| <= MAX_RESIDUAL && |RawBytes(s.frames)| + s.errors + |s.rest| <= |buf|
  {
    ClassifyShaped();
    ScanRest(Classify, buf);
    ScanLength(Classify, buf);
  }

  /**
   * Positions and residual of a scan are the only ones that make up a greedy parse; the frames are
   * those at the positions, and the errors the rejected positions outside them.
   */
  lemma RtcmGreedy(stream: Bytes, starts: seq<int>, r: int)
    ensures GreedyParse(Classify, stream, starts, r) ==>
      var s := ScanRtcm(stream);
      && s.frames == FramesAt(Classify, stream, starts)
      && s.errors == |Rejections(Classify, stream, starts, 0, r)|
      && s.rest == stream[r..]
    ensures exists starts', r' :: GreedyParse(Classify, stream, starts', r')
  {
    ClassifyShaped();
    ScanIsGreedy(Classify, stream);
    var starts0, r0 := Starts(Classify, stream, 0), Stop(Classify, stream, 0);
    if GreedyParse(Classify, stream, starts, r) {
      GreedyUnique(Classify, stream, starts, r, starts0, r0, 0);
    }
  }

  /** A valid frame stands at position `p` of a stream: preamble, whole, at least two bytes of payload, right check. */
  predicate ValidFrameAt(stream: Bytes, p: int)
  {
    && 0 <= p && p + 6 <= |stream| && stream[p] == PREAMBLE
    && var length := stream[p + 1] as nat % 4 * 256 + stream[p + 2] as nat;
       length >= 2 && p + length + 6 <= |stream| && Crc24q.CheckOk(stream[p..p + length + 6])
  }

  /** The frames of a greedy parse are the valid frames of the stream. */
  lemma FrameAtIsValidFrame(stream: Bytes, p: int)
    ensures FrameAt(Classify, stream, p) <==> ValidFrameAt(stream, p)
    ensures FrameAt(Classify, stream, p) ==>
      EndOf(Classify, stream, p) == p + stream[p + 1] as nat % 4 * 256 + stream[p + 2] as nat + 6
  {
    if 0 <= p && p + 3 <= |stream| {
      var buf := stream[p..];
      assert buf[0] == stream[p] && buf[1] == stream[p + 1] && buf[2] == stream[p + 2];
      var total := stream[p + 1] as nat % 4 * 256 + stream[p + 2] as nat + 6;
      assert total == Total(buf);
      if p + total <= |stream| {
        assert buf[..total] == stream[p..p + total];
      }
    }
  }

  /** The preambles before the residual that no emitted frame covers. */
  ghost function SkippedPreambles(stream: Bytes, starts: seq<int>, r: int): set<int>
    requires r <= |stream|
  {
    set p | 0 <= p < r && !Covered(Classify, stream, starts, p) && stream[p] == PREAMBLE
  }

  /** The error count is the number of preamble bytes skipped. */
  lemma ErrorsAreSkippedPreambles(stream: Bytes, starts: seq<int>, r: int)
    requires GreedyParse(Classify, stream, starts, r)
    ensures ScanRtcm(stream).errors == |SkippedPreambles(stream, starts, r)|
  {
    RtcmGreedy(stream, starts, r);
    forall p | 0 <= p < r && !Covered(Classify, stream, starts, p)
      ensures RejectedAt(Classify, stream, p) <==> stream[p] == PREAMBLE
    {
      assert NoFrameAt(Classify, stream, p);
      assert stream[p..][0] == stream[p];
    }
    assert SkippedPreambles(stream, starts, r) == Rejections(Classify, stream, starts, 0, r);
  }

  // ----- damaged frames -----

  lemma {:induction false} XorNothing(a: nat)
    ensures NatXor(a, 0) == a
  {
    if a > 0 {
      XorNothing(a / 2);
    }
  }

  lemma XorStep(a: nat, e: nat)
    ensures NatXor(a, e) / 2 == NatXor(a / 2, e / 2)
    ensures NatXor(a, e) % 2 == if a % 2 != e % 2 then 1 else 0
  {
  }

  lemma TwoBits(a: nat)
    ensures a % 4 == a / 2 % 2 * 2 + a % 2
  {
  }

  lemma XorKeepsLength(a: nat, e: nat)
    requires e % 4 == 0
    ensures NatXor(a, e) % 4 == a % 4
  {
    XorStep(a, e);
    XorStep(a / 2, e / 2);
    TwoBits(a);
    TwoBits(e);
    TwoBits(NatXor(a, e));
  }

  lemma XorAtHeader(a: Bytes, b: Bytes)
    requires |a| == |b| >= 3
    ensures Crc24q.XorBytes(a, b)[0] == NatXor(a[0], b[0]) && Crc24q.XorBytes(a, b)[1] == NatXor(a[1], b[1]) &&
            Crc24q.XorBytes(a, b)[2] == NatXor(a[2], b[2])
  {
    var a1, b1 := a[1..], b[1..];
    assert Crc24q.XorBytes(a, b)[1..] == Crc24q.XorBytes(a1, b1);
    assert Crc24q.XorBytes(a1, b1)[1..] == Crc24q.XorBytes(a1[1..], b1[1..]);
  }

  /**
   * With preamble and length intact, a burst of at most 24 bits or an odd number of flipped bits
   * makes the scanner reject the frame at its position, whatever follows.
   */
  lemma DamagedFrameRejected(f: RtcmFrame, error: Bytes, tail: Bytes)
    requires Classify(f.raw) == Accepted(f) && |error| == |f.raw| && Crc24q.Detectable(error)
    requires error[0] == 0 && error[1] as nat % 4 == 0 && error[2] == 0
    ensures Classify(Crc24q.XorBytes(f.raw, error) + tail) == Rejected
  {
    var bad := Crc24q.XorBytes(f.raw, error);
    assert f.raw[..Total(f.raw)] == f.raw;
    Crc24q.ErrorDetected(f.raw, error);
    XorAtHeader(f.raw, error);
    XorNothing(f.raw[0]);
    XorKeepsLength(f.raw[1], error[1]);
    XorNothing(f.raw[2]);
    assert Total(bad) == |bad|;
    assert bad[..|bad|] == bad;
    ClassifyStable(bad, tail);
  }
}
