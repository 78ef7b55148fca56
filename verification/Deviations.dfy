/**
 * For which tiers a send loop can stand still for good, and which bytes would vanish if the tiers were not
 * validated. The runs that show it feed valid frames of any total size.
 */
module Deviations {
  import opened ByteStrings
  import opened Scanner
  import opened Rtcm
  import opened Tiers
  import opened Hub
  import opened Delivery
  import opened Guarantees
  import opened Entitlements
  import Crc24q

  // ----- valid frames of any total size -----

  const LONGEST: nat := 1029  // a payload of 1023 bytes

  function ZeroBytes(n: nat): (r: Bytes)
    ensures |r| == n && forall i :: 0 <= i < n ==> r[i] == 0
  {
    seq(n, _ => 0)
  }

  /** Preamble, length and a payload of zeros. */
  function FrameHead(size: nat): (r: Bytes)
    requires 8 <= size <= LONGEST
    ensures |r| == size - 3
  {
    var length: nat := size - 6;
    [PREAMBLE, length / 256, length % 256] + ZeroBytes(length)
  }

  function FrameBytes(size: nat): (r: Bytes)
    requires 8 <= size <= LONGEST
    ensures |r| == size
  {
    FrameHead(size) + Pack(Crc24q.Checksum(FrameHead(size)))
  }

  lemma FrameChecks(size: nat)
    requires 8 <= size <= LONGEST
    ensures Crc24q.CheckOk(FrameBytes(size))
  {
    var raw := FrameBytes(size);
    PackRoundTrip(Crc24q.Checksum(FrameHead(size)));
    assert raw[..size - 3] == FrameHead(size) && raw[size - 3..] == Pack(Crc24q.Checksum(FrameHead(size)));
  }

  lemma FrameStarts(size: nat)
    requires 8 <= size <= LONGEST
    ensures var raw := FrameBytes(size);
      raw[0] == PREAMBLE && PayloadLength(raw) == size - 6 && raw[3] == 0 && raw[4] == 0
  {
    var raw, head := FrameBytes(size), FrameHead(size);
    assert raw[0] == head[0] && raw[1] == head[1] && raw[2] == head[2] && raw[3] == head[3] && raw[4] == head[4];
  }

  lemma TypeZeroAccepted(raw: Bytes)
    requires |raw| >= 8 && raw[0] == PREAMBLE && PayloadLength(raw) == |raw| - 6 && raw[3] == 0 && raw[4] == 0
    requires Crc24q.CheckOk(raw)
    ensures WholeBy(Classify, RtcmFrame(0, raw))
  {
    assert raw[..|raw|] == raw;
    assert Classify(raw) == Accepted(RtcmFrame(0, raw));
    CutIsIncomplete(raw);
  }

  lemma FrameOfSize(size: nat) returns (f: RtcmFrame)
    requires 8 <= size <= LONGEST
    ensures |f.raw| == size && WholeBy(Classify, f)
  {
    FrameChecks(size);
    FrameStarts(size);
    TypeZeroAccepted(FrameBytes(size));
    f := RtcmFrame(0, FrameBytes(size));
  }

  /** The first frame is as long as can be, but leaves room for another. */
  function FirstSize(n: nat): (k: nat)
    requires n >= 8
    ensures 8 <= k <= LONGEST && (k == n || k + 8 <= n)
  {
    if n <= LONGEST then n else if n >= LONGEST + 8 then LONGEST else n - 8
  }

  lemma OneMoreWhole(first: RtcmFrame, rest: seq<RtcmFrame>)
    requires WholeBy(Classify, first) && AllWhole(Classify, rest)
    ensures AllWhole(Classify, [first] + rest)
    ensures |RawBytes([first] + rest)| == |first.raw| + |RawBytes(rest)|
  {
    assert ([first] + rest)[1..] == rest;
  }

  /** Frames of `n` bytes in all. */
  lemma {:induction false} FramesOfSize(n: nat) returns (frames: seq<RtcmFrame>)
    requires n >= 8
    ensures AllWhole(Classify, frames) && |RawBytes(frames)| == n
    ensures frames != [] && |frames[0].raw| == FirstSize(n)
    decreases n
  {
    var first := FrameOfSize(FirstSize(n));
    var rest: seq<RtcmFrame> := [];
    if FirstSize(n) < n {
      rest := FramesOfSize(n - FirstSize(n));
    }
    OneMoreWhole(first, rest);
    frames := [first] + rest;
  }

  /** Before its first frame is complete, a stream of whole frames is kept as it is. */
  lemma KeptUntilWhole(frames: seq<RtcmFrame>, k: nat)
    requires frames != [] && AllWhole(Classify, frames) && 0 < k < |frames[0].raw|
    ensures k <= |RawBytes(frames)|
    ensures ScanRtcm(RawBytes(frames)[..k]) == Scanned([], 0, RawBytes(frames)[..k])
  {
    var raw := frames[0].raw;
    assert WholeBy(Classify, frames[0]);
    assert RawBytes(frames)[..k] == raw[..k];
  }

  // ----- one source, one rover, one chunk of any size -----

  /** The first `k` bytes hold no frame, and all of them are frames. */
  ghost predicate InTwoReads(stream: Bytes, k: nat)
  {
    && 0 < k < |stream| && k <= READ_LIMIT && |stream| - k <= READ_LIMIT
    && ScanRtcm(stream[..k]) == Scanned([], 0, stream[..k])
    && ScanRtcm(stream).frames != [] && RawBytes(ScanRtcm(stream).frames) == stream
  }

  /** How much of the stream is read first, so that the rest fits in one read. */
  function FirstRead(n: nat): (k: nat)
    requires 8 <= n <= CHUNK_LIMIT
    ensures 0 < k < FirstSize(n) && k < n <= k + READ_LIMIT
  {
    if n > READ_LIMIT then n - READ_LIMIT else 1
  }

  /** There are valid frames of any total size up to the largest chunk that two reads deliver. */
  lemma StreamOfSize(n: nat) returns (stream: Bytes)
    requires 8 <= n <= CHUNK_LIMIT
    ensures |stream| == n && InTwoReads(stream, FirstRead(n))
  {
    var frames := FramesOfSize(n);
    WholeScan(frames);
    KeptUntilWhole(frames, FirstRead(n));
    stream := RawBytes(frames);
  }

  function Reads(stream: Bytes, k: nat): seq<Delivery.Step>
    requires k <= |stream|
  {
    [Read(stream[..k], 0.0), Read(stream[k..], 0.0)]
  }

  /** A source has connected, this much has been read from it, and there is one session. */
  function Waiting(s: Session, kept: Bytes): System
  {
    System([kept], kept, [], 0, 0, 0, 0, [s], 0.0)
  }

  /** With this much before it, a rover of the tier is the first, and waits for the source. */
  ghost predicate FirstOf(tier: Tier, before: seq<Delivery.Step>)
  {
    && Delivery.IsRun(EMPTY, before) && NextSession(before) == 0
    && Joined(tier, before) == Waiting(NewSession(tier, 0.0), [])
  }

  lemma AdmittedFirst(tier: Tier)
    ensures FirstOf(tier, [Connect])
  {
    OneStep(EMPTY, Connect);
  }

  /** A read that completes no frame only changes what is kept. */
  lemma KeptRead(sys: System, chunk: Bytes, now: real)
    requires sys.feeds != [] && ScanRtcm(sys.parser + chunk) == Scanned([], 0, sys.parser + chunk)
    ensures var n := |sys.feeds| - 1;
      Receive(sys, chunk, now) ==
        sys.(feeds := sys.feeds[n := sys.feeds[n] + chunk], parser := sys.parser + chunk, clock := now)
  {
  }

  lemma FirstReadKept(s: Session, kept: Bytes)
    requires 0 < |kept| <= READ_LIMIT && ScanRtcm(kept) == Scanned([], 0, kept)
    ensures Delivery.Enabled(Waiting(s, []), Read(kept, 0.0))
    ensures Apply(Waiting(s, []), Read(kept, 0.0)) == Waiting(s, kept)
  {
    assert [] + kept == kept;
    KeptRead(Waiting(s, []), kept, 0.0);
    assert [[]][0 := kept] == [kept];
  }

  /** The session after the reads was offered all frames as one chunk. */
  lemma AllFramesOffered(s: Session, stream: Bytes, k: nat)
    requires InTwoReads(stream, k)
    ensures Delivery.Enabled(Waiting(s, stream[..k]), Reads(stream, k)[1])
    ensures var sys := Apply(Waiting(s, stream[..k]), Reads(stream, k)[1]);
      sys.sessions == [Offered(s, stream, 0, 0.0)] && sys.clock == 0.0
  {
    assert stream[..k] + stream[k..] == stream;
  }

  lemma RunCons(sys: System, step: Delivery.Step, rest: seq<Delivery.Step>)
    requires Delivery.Enabled(sys, step) && Delivery.IsRun(Apply(sys, step), rest)
    ensures Delivery.IsRun(sys, [step] + rest)
    ensures Delivery.After(sys, [step] + rest) == Delivery.After(Apply(sys, step), rest)
  {
    assert ([step] + rest)[1..] == rest;
  }

  lemma TwoSteps(sys: System, first: Delivery.Step, second: Delivery.Step, rest: seq<Delivery.Step>)
    requires Delivery.Enabled(sys, first) && Delivery.Enabled(Apply(sys, first), second)
    requires Delivery.IsRun(Apply(Apply(sys, first), second), rest)
    ensures Delivery.IsRun(sys, [first, second] + rest)
    ensures Delivery.After(sys, [first, second] + rest) == Delivery.After(Apply(Apply(sys, first), second), rest)
  {
    RunCons(Apply(sys, first), second, rest);
    RunCons(sys, first, [second] + rest);
    assert [first, second] + rest == [first] + ([second] + rest);
  }

  /** The reads, and whatever the rover does next. */
  lemma ReadsRun(s: Session, stream: Bytes, k: nat, rest: seq<Delivery.Step>)
    requires InTwoReads(stream, k) && Delivery.Enabled(Waiting(s, stream[..k]), Reads(stream, k)[1])
    requires Delivery.IsRun(Apply(Waiting(s, stream[..k]), Reads(stream, k)[1]), rest)
    ensures Delivery.IsRun(Waiting(s, []), Reads(stream, k) + rest)
    ensures Delivery.After(Waiting(s, []), Reads(stream, k) + rest) ==
      Delivery.After(Apply(Waiting(s, stream[..k]), Reads(stream, k)[1]), rest)
  {
    FirstReadKept(s, stream[..k]);
    TwoSteps(Waiting(s, []), Reads(stream, k)[0], Reads(stream, k)[1], rest);
  }

  // ----- what the validation of tiers keeps out -----

  ghost function VanishedAt(sys: System, i: nat): nat
  {
    if i < |sys.sessions| then sys.sessions[i].vanished else 0
  }

  /** Whenever a rover of this tier is admitted, and however the run goes on, none of its bytes vanish. */
  ghost predicate NothingVanishes(tier: Tier)
  {
    forall before, steps :: Delivery.IsRun(EMPTY, before) && Delivery.IsRun(Joined(tier, before), steps) ==>
      VanishedAt(Delivery.After(Joined(tier, before), steps), NextSession(before)) == 0
  }

  lemma RoomKeepsBytes(tier: Tier, before: seq<Delivery.Step>, steps: seq<Delivery.Step>)
    requires Delivery.IsRun(EMPTY, before) && Delivery.IsRun(Joined(tier, before), steps) && tier.maxQueueBytes >= 0
    ensures VanishedAt(Delivery.After(Joined(tier, before), steps), NextSession(before)) == 0
  {
    var sys, next, i := Delivery.After(EMPTY, before), Joined(tier, before), NextSession(before);
    SizeZeroIffNegative(tier, sys.clock);
    SizeStays(next, steps, i);
    assert Ok(Delivery.After(next, steps)) by {
      Reached(before);
      ApplyKeepsOk(sys, Admit(tier));
      Delivery.RunKeepsOk(next, steps);
    }
    NoVanishing(Delivery.After(next, steps), i);
  }

  lemma NoVanishing(sys: System, i: nat)
    requires Ok(sys) && i < |sys.sessions| && sys.sessions[i].rover.queue.max > 0
    ensures sys.sessions[i].vanished == 0
  {
    assert SessionOk(sys.sessions[i], sys.published, sys.clock);
  }

  /** With a negative `max_queue_bytes` valid frames would be gone: neither queued nor counted as dropped. */
  lemma NegativeQueueLosesFrames(tier: Tier, stream: Bytes, k: nat)
    requires tier.maxQueueBytes < 0 && InTwoReads(stream, k)
    ensures Delivery.IsRun(Waiting(NewSession(tier, 0.0), []), Reads(stream, k))
    ensures var ss := Delivery.After(Waiting(NewSession(tier, 0.0), []), Reads(stream, k)).sessions;
      |ss| == 1 && var s := ss[0];
      s.offered == |stream| && s.vanished == |stream| && s.rover.dropped == 0 && s.rover.queue.buf == []
  {
    AllFramesOffered(NewSession(tier, 0.0), stream, k);
    ReadsRun(NewSession(tier, 0.0), stream, k, []);
    assert Reads(stream, k) + [] == Reads(stream, k);
    VanishesIffSizeZero(NewSession(tier, 0.0), stream, 0, 0.0);
  }

  lemma VanishingHappens(tier: Tier, before: seq<Delivery.Step>, stream: Bytes, k: nat)
    requires tier.maxQueueBytes < 0 && FirstOf(tier, before) && InTwoReads(stream, k)
    ensures !NothingVanishes(tier)
  {
    NegativeQueueLosesFrames(tier, stream, k);
    assert VanishedAt(Delivery.After(Joined(tier, before), Reads(stream, k)), NextSession(before)) > 0;
  }

  /** What the byte ledger needs of a tier is exactly what is validated about its `max_queue_bytes`. */
  lemma NothingVanishesIff(tier: Tier)
    ensures NothingVanishes(tier) <==> tier.maxQueueBytes >= 0
  {
    if tier.maxQueueBytes >= 0 {
      forall before, steps | Delivery.IsRun(EMPTY, before) && Delivery.IsRun(Joined(tier, before), steps)
        ensures VanishedAt(Delivery.After(Joined(tier, before), steps), NextSession(before)) == 0
      {
        RoomKeepsBytes(tier, before, steps);
      }
    } else {
      AdmittedFirst(tier);
      var stream := StreamOfSize(8);
      VanishingHappens(tier, [Connect], stream, FirstRead(8));
    }
  }

  // ----- a send loop that stands still -----

  /** From here on the send loop of the session, in its wait loop, never gets to write. */
  ghost predicate Stalled(sys: System, i: nat)
  {
    i < |sys.sessions| && sys.sessions[i].phase.Holding? && forall more :: !PaidAfter(sys, more, i)
  }

  /** Some run admits a rover of this tier and leaves it in its wait loop for good. */
  ghost predicate CanStall(tier: Tier)
  {
    exists before, steps ::
      && Delivery.IsRun(EMPTY, before) && Delivery.IsRun(Joined(tier, before), steps)
      && Stalled(Delivery.After(Joined(tier, before), steps), NextSession(before))
  }

  /** Some chunk, of one frame up to a full residual and a full read, fits in the queue but not in the bucket. */
  predicate TooSlow(tier: Tier)
  {
    && tier.rateBps > 0
    && QueueSize(tier) >= 8
    && 2 * tier.rateBps < CHUNK_LIMIT
    && 2 * tier.rateBps < QueueSize(tier)
  }

  function StallSize(tier: Tier): nat
    requires TooSlow(tier)
  {
    if QueueSize(tier) < CHUNK_LIMIT then QueueSize(tier) else CHUNK_LIMIT
  }

  lemma ChunkQueued(tier: Tier, stream: Bytes)
    requires TooSlow(tier) && |stream| == StallSize(tier)
    ensures var s := Offered(NewSession(tier, 0.0), stream, 0, 0.0);
      && s.phase.Polling? && s.rover.queue.buf == [stream] && Oversize(Looked(s, s.rover.queue), stream)
      && Looked(s, s.rover.queue).phase == Holding(stream)
  {
  }

  lemma OversizeStalls(sys: System, i: nat, chunk: Bytes)
    requires i < |sys.sessions| && sys.sessions[i].phase == Holding(chunk) && Oversize(sys.sessions[i], chunk)
    ensures Stalled(sys, i)
  {
    forall more | Delivery.IsRun(sys, more)
      ensures !PaidAfter(sys, more, i)
    {
      OversizeNeverPaid(sys, more, i, chunk);
    }
  }

  /** The run: the chunk is read in two reads, offered, and taken by the send loop. */
  lemma StallRun(tier: Tier, stream: Bytes, k: nat)
    requires TooSlow(tier) && |stream| == StallSize(tier) && InTwoReads(stream, k)
    ensures var start, steps := Waiting(NewSession(tier, 0.0), []), Reads(stream, k) + [Local(0, Get)];
      Delivery.IsRun(start, steps) && Stalled(Delivery.After(start, steps), 0)
  {
    var s := NewSession(tier, 0.0);
    AllFramesOffered(s, stream, k);
    ChunkQueued(tier, stream);
    var offered := Apply(Waiting(s, stream[..k]), Reads(stream, k)[1]);
    OneStep(offered, Local(0, Get));
    ReadsRun(s, stream, k, [Local(0, Get)]);
    OversizeStalls(Apply(offered, Local(0, Get)), 0, stream);
  }

  lemma StallHappensAfter(tier: Tier, before: seq<Delivery.Step>, stream: Bytes, k: nat)
    requires TooSlow(tier) && |stream| == StallSize(tier) && InTwoReads(stream, k) && FirstOf(tier, before)
    ensures CanStall(tier)
  {
    var steps := Reads(stream, k) + [Local(0, Get)];
    StallRun(tier, stream, k);
    assert Stalled(Delivery.After(Joined(tier, before), steps), NextSession(before));
  }

  /** Every such tier has a run, of valid frames in two reads, after which the send loop never writes. */
  lemma StallHappens(tier: Tier)
    requires TooSlow(tier)
    ensures CanStall(tier)
  {
    AdmittedFirst(tier);
    var stream := StreamOfSize(StallSize(tier));
    StallHappensAfter(tier, [Connect], stream, FirstRead(StallSize(tier)));
  }

  /** A session that holds a chunk and has no bucket, or one the chunk fits in, can go on to write. */
  lemma StalledIsOversize(sys: System, i: nat)
    requires Ok(sys) && Stalled(sys, i)
    ensures sys.sessions[i].bucket.Some?
    ensures var b := sys.sessions[i].bucket.value;
      b.capacity == AdmissionCapacity(b.rate) && b.rate > 0 && b.capacity < |sys.sessions[i].phase.chunk|
  {
    var s := sys.sessions[i];
    assert SessionOk(s, sys.published, sys.clock);
    if s.bucket == None {
      var step := Local(i, Pay(sys.clock, sys.clock));
      OneStep(sys, step);
      assert PaidAfter(sys, [step], i);
      assert false;
    }
    var b := s.bucket.value;
    if |s.phase.chunk| <= b.capacity {
      FittingIsPaid(sys, i, b);
    }
  }

  lemma StalledIsTooSlow(sys: System, i: nat, tier: Tier)
    requires Ok(sys) && Stalled(sys, i) && OfTier(sys.sessions[i], tier)
    ensures TooSlow(tier)
  {
    var s := sys.sessions[i];
    StalledIsOversize(sys, i);
    assert 8 <= |s.phase.chunk| <= CHUNK_LIMIT by {
      assert SessionOk(s, sys.published, sys.clock);
      HeldChunkBounded(s, sys.published, sys.clock);
    }
    assert s.phase.chunk in Held(s.phase);
  }

  lemma StallingIsTooSlow(tier: Tier, before: seq<Delivery.Step>, steps: seq<Delivery.Step>)
    requires Delivery.IsRun(EMPTY, before) && Delivery.IsRun(Joined(tier, before), steps)
    requires Stalled(Delivery.After(Joined(tier, before), steps), NextSession(before))
    ensures TooSlow(tier)
  {
    var next, i := Joined(tier, before), NextSession(before);
    Reached(before);
    ApplyKeepsOk(Delivery.After(EMPTY, before), Admit(tier));
    TierRun(next, steps, i, tier);
    StalledIsTooSlow(Delivery.After(next, steps), i, tier);
  }

  /**
   * A tier can leave a rover waiting for good exactly when some chunk fits in the queue but not in the bucket;
   * with room for the largest chunk that is when the rate is positive and below 2562 bytes a second.
   */
  lemma CanStallIff(tier: Tier)
    ensures CanStall(tier) <==> TooSlow(tier)
    ensures QueueSize(tier) >= CHUNK_LIMIT ==> (CanStall(tier) <==> 0 < tier.rateBps < 2562)
  {
    if TooSlow(tier) {
      StallHappens(tier);
    }
    if CanStall(tier) {
      var before, steps :|
        && Delivery.IsRun(EMPTY, before) && Delivery.IsRun(Joined(tier, before), steps)
        && Stalled(Delivery.After(Joined(tier, before), steps), NextSession(before));
      StallingIsTooSlow(tier, before, steps);
    }
  }
}
