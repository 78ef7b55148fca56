/** What a rover of one mountpoint can rely on, in every run of the transition system. */
module Guarantees {
  import opened ByteStrings
  import opened Scanner
  import opened Rtcm
  import opened ByteQueues
  import opened Tiers
  import opened Hub
  import opened Delivery

  lemma Reached(steps: seq<Delivery.Step>)
    requires Delivery.IsRun(EMPTY, steps)
    ensures Ok(Delivery.After(EMPTY, steps))
  {
    Delivery.RunKeepsOk(EMPTY, steps);
  }

  // ----- subsequences -----

  ghost predicate Embeds<T>(a: seq<T>, b: seq<T>, at: seq<nat>)
  {
    && |at| == |a|
    && (forall k :: 0 <= k < |at| ==> at[k] < |b| && a[k] == b[at[k]])
    && (forall j, k :: 0 <= j < k < |at| ==> at[j] < at[k])
  }

  /** The elements of `a` occur in `b` in the same order. */
  ghost predicate IsSubsequence<T>(a: seq<T>, b: seq<T>)
  {
    exists at: seq<nat> :: Embeds(a, b, at)
  }

  lemma SubsequenceOfLonger<T>(a: seq<T>, b: seq<T>, c: seq<T>)
    requires IsSubsequence(a, b)
    ensures IsSubsequence(a, b + c) && IsSubsequence(a + c, b + c)
  {
    var at: seq<nat> :| Embeds(a, b, at);
    assert Embeds(a, b + c, at);
    var more: seq<nat> := at + seq(|c|, k => |b| + k);
    assert Embeds(a + c, b + c, more);
  }

  /** The frames of the published chunks with the given indices. */
  ghost function FramesOf(published: seq<seq<RtcmFrame>>, picks: seq<nat>): seq<RtcmFrame>
    requires forall k :: 0 <= k < |picks| ==> picks[k] < |published|
  {
    if picks == [] then [] else FramesOf(published, picks[..|picks| - 1]) + published[picks[|picks| - 1]]
  }

  lemma {:induction false} FramesOfPrefix(published: seq<seq<RtcmFrame>>, n: nat, picks: seq<nat>)
    requires n <= |published| && forall k :: 0 <= k < |picks| ==> picks[k] < n
    ensures FramesOf(published[..n], picks) == FramesOf(published, picks)
    decreases |picks|
  {
    if picks != [] {
      FramesOfPrefix(published, n, picks[..|picks| - 1]);
    }
  }

  lemma EmptySubsequence<T>(b: seq<T>)
    ensures IsSubsequence([], b)
  {
    var none: seq<T> := [];
    assert Embeds(none, b, []);
  }

  lemma {:induction false} PickedFramesInOrder(published: seq<seq<RtcmFrame>>, picks: seq<nat>)
    requires Picks(picks, |published|)
    ensures IsSubsequence(FramesOf(published, picks), Flatten(published))
    decreases |published|
  {
    if picks == [] {
      EmptySubsequence(Flatten(published));
    } else {
      assert picks[0] < |published|;
      var n := |published| - 1;
      var before, last := published[..n], published[n];
      assert Flatten(published) == Flatten(before) + last;
      var kept := if picks[|picks| - 1] == n then picks[..|picks| - 1] else picks;
      PickedFramesInOrder(before, kept);
      FramesOfPrefix(published, n, kept);
      SubsequenceOfLonger(FramesOf(published, kept), Flatten(before), last);
    }
  }

  lemma {:induction false} PickedBytes(published: seq<seq<RtcmFrame>>, picks: seq<nat>)
    requires forall k :: 0 <= k < |picks| ==> picks[k] < |published|
    ensures Concat(ChunksAt(published, picks)) == RawBytes(FramesOf(published, picks))
    decreases |picks|
  {
    if picks != [] {
      var m := |picks| - 1;
      PickedBytes(published, picks[..m]);
      var last := RawBytes(published[picks[m]]);
      assert ChunksAt(published, picks) == ChunksAt(published, picks[..m]) + [last];
      ConcatAppend(ChunksAt(published, picks[..m]), [last]);
      ConcatOne(last);
      RawBytesAppend(FramesOf(published, picks[..m]), published[picks[m]]);
    }
  }

  lemma ConcatOne(b: Bytes)
    ensures Concat([b]) == b
  {
    assert [b][1..] == [];
  }

  lemma {:induction false} PickedWhole(published: seq<seq<RtcmFrame>>, picks: seq<nat>)
    requires PublishedOk(published) && forall k :: 0 <= k < |picks| ==> picks[k] < |published|
    ensures AllWhole(Classify, FramesOf(published, picks))
    decreases |picks|
  {
    if picks != [] {
      PickedWhole(published, picks[..|picks| - 1]);
      assert ChunkOk(published[picks[|picks| - 1]]);
    }
  }

  // ----- end to end -----

  lemma PrefixAt(published: seq<seq<RtcmFrame>>, picks: seq<nat>, chunks: seq<Bytes>)
    requires Picks(picks, |published|) && chunks <= ChunksAt(published, picks)
    ensures Picks(picks[..|chunks|], |published|) && chunks == ChunksAt(published, picks[..|chunks|])
  {
  }

  /** The first `n` stored chunks of a session are the frames of its first `n` picks. */
  lemma StoredPrefix(s: Session, published: seq<seq<RtcmFrame>>, clock: real, chunks: seq<Bytes>)
    requires SessionOk(s, published, clock) && PublishedOk(published) && chunks <= Flow(s)
    ensures var fs := FramesOf(published, s.picks[..|chunks|]);
      && Concat(chunks) == RawBytes(fs)
      && AllWhole(Classify, fs)
      && IsSubsequence(fs, Flatten(published))
  {
    var picks := s.picks[..|chunks|];
    PrefixAt(published, s.picks, chunks);
    PickedBytes(published, picks);
    PickedWhole(published, picks);
    PickedFramesInOrder(published, picks);
  }

  /**
   * Whatever the gate or the queue dropped and however the source bytes were cut into reads: the bytes
   * written to a rover are whole frames, a subsequence in source order of all frames the parser found on
   * the source connections, and a fresh parser fed with them yields exactly those frames, no error and
   * an empty buffer.
   */
  lemma EndToEnd(steps: seq<Delivery.Step>, i: nat)
    requires Delivery.IsRun(EMPTY, steps) && i < |Delivery.After(EMPTY, steps).sessions|
    ensures var sys := Delivery.After(EMPTY, steps);
      var bytes := Concat(sys.sessions[i].written);
      exists fs ::
        IsSubsequence(fs, AllFrames(sys.feeds)) && bytes == RawBytes(fs) && ScanRtcm(bytes) == Scanned(fs, 0, [])
  {
    Reached(steps);
    var sys := Delivery.After(EMPTY, steps);
    WrittenOf(sys.sessions[i], sys.published, sys.clock);
  }

  lemma WrittenOf(s: Session, published: seq<seq<RtcmFrame>>, clock: real)
    requires SessionOk(s, published, clock) && PublishedOk(published)
    ensures var bytes := Concat(s.written);
      exists fs ::
        IsSubsequence(fs, Flatten(published)) && bytes == RawBytes(fs) && ScanRtcm(bytes) == Scanned(fs, 0, [])
  {
    assert s.written <= Flow(s);
    StoredPrefix(s, published, clock, s.written);
    WholeScan(FramesOf(published, s.picks[..|s.written|]));
  }

  lemma WholeScan(fs: seq<RtcmFrame>)
    requires AllWhole(Classify, fs)
    ensures ScanRtcm(RawBytes(fs)) == Scanned(fs, 0, [])
  {
    ClassifyLawful();
    ScanWhole(Classify, fs, []);
    assert RawBytes(fs) + [] == RawBytes(fs);
    assert fs + [] == fs;
  }

  /** The bytes scan without error into the first of some frames of the source in order, and a frame cut off. */
  ghost predicate ScansAsCut(bytes: Bytes, source: seq<RtcmFrame>)
  {
    exists fs :: CleanScan(ScanRtcm(bytes), fs, bytes) && IsSubsequence(fs, source)
  }

  /**
   * A write that fails, or is cancelled, may leave part of a chunk on the wire. Even then the rover's
   * bytes scan without error, into frames of the source in order, and only the frame cut off at the
   * very end stays incomplete.
   */
  lemma EndToEndAfterFailure(steps: seq<Delivery.Step>, i: nat)
    requires Delivery.IsRun(EMPTY, steps) && i < |Delivery.After(EMPTY, steps).sessions|
    ensures var sys := Delivery.After(EMPTY, steps);
      var bytes := Concat(sys.sessions[i].written) + sys.sessions[i].reached;
      ScansAsCut(bytes, AllFrames(sys.feeds))
  {
    Reached(steps);
    var sys := Delivery.After(EMPTY, steps);
    ReachedOf(sys.sessions[i], sys.published, sys.clock);
  }

  /** What starts with the stored chunks scans as a cut of the frames published. */
  lemma FlowScans(s: Session, published: seq<seq<RtcmFrame>>, clock: real, chunks: seq<Bytes>, bytes: Bytes)
    requires SessionOk(s, published, clock) && PublishedOk(published)
    requires chunks <= Flow(s) && bytes <= Concat(chunks)
    ensures ScansAsCut(bytes, Flatten(published))
  {
    StoredPrefix(s, published, clock, chunks);
    var fs := FramesOf(published, s.picks[..|chunks|]);
    CutScan(fs, bytes);
  }

  lemma ReachedOf(s: Session, published: seq<seq<RtcmFrame>>, clock: real)
    requires SessionOk(s, published, clock) && PublishedOk(published)
    ensures ScansAsCut(Concat(s.written) + s.reached, Flatten(published))
  {
    var chunks, bytes := s.written + s.lost, Concat(s.written) + s.reached;
    assert chunks <= Flow(s) && bytes <= Concat(chunks) by {
      assert Held(s.phase) == [] || s.lost == [];
      ReachedIsCut(s);
    }
    FlowScans(s, published, clock, chunks, bytes);
  }

  /**
   * While a write is pending, any part of the chunk may be out: the rover's bytes scan just as well, without
   * error into frames of the source in order.
   */
  lemma EndToEndWhileWriting(steps: seq<Delivery.Step>, i: nat, k: nat)
    requires Delivery.IsRun(EMPTY, steps) && i < |Delivery.After(EMPTY, steps).sessions|
    requires var p := Delivery.After(EMPTY, steps).sessions[i].phase; p.Paid? && k <= |p.chunk|
    ensures var sys := Delivery.After(EMPTY, steps);
      var bytes := Concat(sys.sessions[i].written) + sys.sessions[i].phase.chunk[..k];
      ScansAsCut(bytes, AllFrames(sys.feeds))
  {
    Reached(steps);
    var sys := Delivery.After(EMPTY, steps);
    PendingOf(sys.sessions[i], sys.published, sys.clock, k);
  }

  lemma PendingOf(s: Session, published: seq<seq<RtcmFrame>>, clock: real, k: nat)
    requires SessionOk(s, published, clock) && PublishedOk(published) && s.phase.Paid? && k <= |s.phase.chunk|
    ensures ScansAsCut(Concat(s.written) + s.phase.chunk[..k], Flatten(published))
  {
    var chunks, bytes := s.written + [s.phase.chunk], Concat(s.written) + s.phase.chunk[..k];
    assert chunks <= Flow(s);
    ConcatAppend(s.written, [s.phase.chunk]);
    ConcatOne(s.phase.chunk);
    FlowScans(s, published, clock, chunks, bytes);
  }

  lemma ReachedIsCut(s: Session)
    requires if s.lost == [] then s.reached == [] else |s.lost| == 1 && s.reached <= s.lost[0]
    ensures Concat(s.written) + s.reached <= Concat(s.written + s.lost)
  {
    ConcatAppend(s.written, s.lost);
    if s.lost != [] {
      assert s.lost == [s.lost[0]];
      ConcatOne(s.lost[0]);
    }
  }

  lemma CutScan(fs: seq<RtcmFrame>, bytes: Bytes)
    requires AllWhole(Classify, fs) && bytes <= RawBytes(fs)
    ensures CleanScan(ScanRtcm(bytes), fs, bytes)
  {
    ClassifyLawful();
    ScanCut(Classify, fs, |bytes|);
    assert RawBytes(fs)[..|bytes|] == bytes;
  }

  // ----- the byte ledger -----

  /**
   * In every run: bytes offered to a session past its gate are those sent, held, lost, queued, dropped,
   * or ignored by a queue of size 0; the queue's byte count is exact and bounded; what was written, held,
   * lost and queued is, in order, what was stored; the hub's sent and dropped counters are the sums over all
   * sessions it ever had; and its receive counter is the size of all frames found.
   */
  lemma Ledger(steps: seq<Delivery.Step>, i: nat)
    requires Delivery.IsRun(EMPTY, steps) && i < |Delivery.After(EMPTY, steps).sessions|
    ensures var sys := Delivery.After(EMPTY, steps);
      var s := sys.sessions[i];
      var q := s.rover.queue;
      && s.offered == s.sent + SumLen(Held(s.phase)) + SumLen(s.lost) + SumLen(q.buf) + s.rover.dropped + s.vanished
      && (s.vanished > 0 ==> q.max == 0)
      && q.bytes == SumLen(q.buf) <= q.max
      && |s.lost| <= 1 && (s.lost != [] ==> s.phase.Ended?)
      && s.sent == SumLen(s.written)
      && Picks(s.picks, |sys.published|)
      && s.written + Held(s.phase) + s.lost + q.buf == ChunksAt(sys.published, s.picks)
      && sys.tx == Sent(sys.sessions) && sys.dropped == Dropped(sys.sessions)
      && sys.rx == |RawBytes(AllFrames(sys.feeds))|
  {
    Reached(steps);
    ReceivedBytes(EMPTY, steps);
  }

  lemma ReceivedStep(sys: System, step: Delivery.Step)
    requires Delivery.Enabled(sys, step) && sys.rx == |RawBytes(Flatten(sys.published))|
    ensures Apply(sys, step).rx == |RawBytes(Flatten(Apply(sys, step).published))|
  {
    if step.Read? {
      var frames := ScanRtcm(sys.parser + step.chunk).frames;
      RawBytesAppend(Flatten(sys.published), frames);
      assert (sys.published + [frames])[..|sys.published|] == sys.published;
    }
  }

  lemma {:induction false} ReceivedBytes(sys: System, steps: seq<Delivery.Step>)
    requires Delivery.IsRun(sys, steps) && sys.rx == |RawBytes(Flatten(sys.published))|
    ensures Delivery.After(sys, steps).rx == |RawBytes(Flatten(Delivery.After(sys, steps).published))|
    decreases |steps|
  {
    if steps != [] {
      ReceivedStep(sys, steps[0]);
      ReceivedBytes(Apply(sys, steps[0]), steps[1..]);
    }
  }

  lemma SizeAct(s: Session, a: Act, clock: real)
    requires Can(s, a, clock)
    ensures Perform(s, a, clock).rover.queue.max == s.rover.queue.max
  {
  }

  lemma SizeStep(sys: System, step: Delivery.Step, i: nat)
    requires Delivery.Enabled(sys, step) && i < |sys.sessions|
    ensures i < |Apply(sys, step).sessions|
    ensures Apply(sys, step).sessions[i].rover.queue.max == sys.sessions[i].rover.queue.max
  {
    if step.Local? && step.i == i {
      SizeAct(sys.sessions[i], step.act, sys.clock);
    }
  }

  lemma {:induction false} SizeStays(sys: System, steps: seq<Delivery.Step>, i: nat)
    requires Delivery.IsRun(sys, steps) && i < |sys.sessions|
    ensures i < |Delivery.After(sys, steps).sessions|
    ensures Delivery.After(sys, steps).sessions[i].rover.queue.max == sys.sessions[i].rover.queue.max
    decreases |steps|
  {
    if steps != [] {
      SizeStep(sys, steps[0], i);
      SizeStays(Apply(sys, steps[0]), steps[1..], i);
    }
  }

  /** Every rover is admitted with a tier that passed the validation of the configuration. */
  predicate AllValidated(steps: seq<Delivery.Step>)
  {
    forall k :: 0 <= k < |steps| && steps[k].Admit? ==> Validated(steps[k].tier)
  }

  ghost predicate AllRoomy(sys: System)
  {
    forall i :: 0 <= i < |sys.sessions| ==> sys.sessions[i].rover.queue.max > 0
  }

  lemma RoomyStep(sys: System, step: Delivery.Step)
    requires Delivery.Enabled(sys, step) && AllRoomy(sys) && (step.Admit? ==> Validated(step.tier))
    ensures AllRoomy(Apply(sys, step))
  {
    var next := Apply(sys, step);
    forall i | 0 <= i < |next.sessions|
      ensures next.sessions[i].rover.queue.max > 0
    {
      if i < |sys.sessions| {
        SizeStep(sys, step, i);
      }
    }
  }

  lemma {:induction false} RoomyRun(sys: System, steps: seq<Delivery.Step>)
    requires Delivery.IsRun(sys, steps) && AllRoomy(sys) && AllValidated(steps)
    ensures AllRoomy(Delivery.After(sys, steps))
    decreases |steps|
  {
    if steps != [] {
      RoomyStep(sys, steps[0]);
      RoomyRun(Apply(sys, steps[0]), steps[1..]);
    }
  }

  /**
   * With validated tiers nothing is ever ignored: in every run, bytes offered to a session past its gate are
   * those sent, held, lost, queued and dropped.
   */
  lemma ValidatedLedger(steps: seq<Delivery.Step>, i: nat)
    requires Delivery.IsRun(EMPTY, steps) && AllValidated(steps) && i < |Delivery.After(EMPTY, steps).sessions|
    ensures var s := Delivery.After(EMPTY, steps).sessions[i];
      && s.vanished == 0
      && s.offered == s.sent + SumLen(Held(s.phase)) + SumLen(s.lost) + SumLen(s.rover.queue.buf) + s.rover.dropped
  {
    RoomyRun(EMPTY, steps);
    Ledger(steps, i);
  }

  /** The queue size of a session is 0 exactly when its tier's `max_queue_bytes` is negative. */
  lemma SizeZeroIffNegative(tier: Tier, clock: real)
    ensures NewSession(tier, clock).rover.queue.max == 0 <==> tier.maxQueueBytes < 0
  {
  }

  /** A chunk past the gate goes missing from every counter exactly when the open queue has size 0. */
  lemma VanishesIffSizeZero(s: Session, chunk: Bytes, index: nat, now: real)
    requires s.attached && Gated(s.rover, now) && chunk != []
    ensures Offered(s, chunk, index, now).vanished > s.vanished <==> s.rover.queue.max == 0 && !s.rover.queue.closed
  {
  }

  // ----- progress of the send loop -----

  /** A frame has a preamble, two bytes of length, at least two of payload and three of check. */
  lemma FrameAtLeastEight(f: RtcmFrame)
    requires WholeBy(Classify, f)
    ensures |f.raw| >= 8
  {
  }

  lemma HeldChunkBounded(s: Session, published: seq<seq<RtcmFrame>>, clock: real)
    requires SessionOk(s, published, clock) && PublishedOk(published) && (s.phase.Holding? || s.phase.Paid?)
    ensures 8 <= |s.phase.chunk| <= CHUNK_LIMIT
  {
    var k := |s.written|;
    assert Flow(s)[k] == s.phase.chunk;
    assert ChunksAt(published, s.picks)[k] == RawBytes(published[s.picks[k]]);
    ChunkAtLeastEight(published[s.picks[k]]);
  }

  lemma ChunkAtLeastEight(frames: seq<RtcmFrame>)
    requires ChunkOk(frames)
    ensures 8 <= |RawBytes(frames)| <= CHUNK_LIMIT
  {
    assert WholeBy(Classify, frames[0]);
    FrameAtLeastEight(frames[0]);
    assert RawBytes(frames) == frames[0].raw + RawBytes(frames[1..]);
  }

  /** How long the send loop sleeps after `consume` failed at `now` and it asked at `next`. */
  function Sleep(b: Bucket, n: nat, now: real, next: real): real
  {
    Max(WaitTime(ConsumeAt(b, n, now).0, n, next), 0.001)
  }

  /**
   * In every run: a send loop that holds a chunk no larger than its bucket leaves the wait loop after
   * the wait it asked for; and every chunk is that small when the rate is at least 2562 bytes a second.
   */
  lemma WaitLoopEnds(steps: seq<Delivery.Step>, i: nat, now: real, next: real, later: real, after: real)
    requires Delivery.IsRun(EMPTY, steps) && i < |Delivery.After(EMPTY, steps).sessions|
    requires var sys := Delivery.After(EMPTY, steps); var s := sys.sessions[i];
      && s.phase.Holding? && s.bucket.Some? && sys.clock <= now <= next
      && (|s.phase.chunk| <= s.bucket.value.capacity || s.bucket.value.rate >= 2562)
      && later >= next + Sleep(s.bucket.value, |s.phase.chunk|, now, next)
    ensures var s := Delivery.After(EMPTY, steps).sessions[i];
      PayFor(s, now, next).phase.Paid? || PayFor(PayFor(s, now, next), later, after).phase.Paid?
  {
    Reached(steps);
    var sys := Delivery.After(EMPTY, steps);
    var s := sys.sessions[i];
    HeldChunkBounded(s, sys.published, sys.clock);
    OneWaitSuffices(s.bucket.value, |s.phase.chunk|, now, next, later);
  }

  lemma OneWaitSuffices(b: Bucket, n: nat, now: real, next: real, later: real)
    requires b.Limited() && b.Valid() && b.t <= now <= next && n <= b.capacity
    requires later >= next + Sleep(b, n, now, next)
    ensures ConsumeAt(b, n, now).1 || ConsumeAt(AskAt(ConsumeAt(b, n, now).0, next), n, later).1
  {
    if !ConsumeAt(b, n, now).1 {
      DoKeepsValid(b, Op.Consume(n, now));
      WaitSuffices(ConsumeAt(b, n, now).0, n, next, later);
    }
  }

  /** The loop ended, or it holds this chunk, which is larger than its bucket. */
  predicate Oversize(s: Session, chunk: Bytes)
  {
    && (s.phase == Holding(chunk) || s.phase.Ended?)
    && s.bucket.Some? && s.bucket.value.Limited() && |chunk| > s.bucket.value.capacity
  }

  lemma ActKeepsOversize(s: Session, a: Act, clock: real, chunk: Bytes)
    requires Can(s, a, clock) && Oversize(s, chunk)
    ensures Oversize(Perform(s, a, clock), chunk)
  {
  }

  /** A send loop that holds a chunk larger than its bucket never writes again, however the run goes on. */
  lemma {:induction false} OversizeNeverPaid(sys: System, steps: seq<Delivery.Step>, i: nat, chunk: Bytes)
    requires Delivery.IsRun(sys, steps) && i < |sys.sessions| && Oversize(sys.sessions[i], chunk)
    ensures i < |Delivery.After(sys, steps).sessions| && Oversize(Delivery.After(sys, steps).sessions[i], chunk)
    decreases |steps|
  {
    if steps != [] {
      if steps[0].Local? && steps[0].i == i {
        ActKeepsOversize(sys.sessions[i], steps[0].act, sys.clock, chunk);
      }
      OversizeNeverPaid(Apply(sys, steps[0]), steps[1..], i, chunk);
    }
  }

  ghost predicate PaidAfter(sys: System, steps: seq<Delivery.Step>, i: nat)
  {
    && Delivery.IsRun(sys, steps) && i < |Delivery.After(sys, steps).sessions|
    && Delivery.After(sys, steps).sessions[i].phase.Paid?
  }

  /** In any reachable state: a send loop in its wait loop can ever leave it to write exactly when its chunk fits. */
  lemma LeavesWaitLoopIff(before: seq<Delivery.Step>, sys: System, i: nat, b: Bucket)
    requires Delivery.IsRun(EMPTY, before) && sys == Delivery.After(EMPTY, before)
    requires i < |sys.sessions| && sys.sessions[i].phase.Holding? && sys.sessions[i].bucket == Some(b)
    ensures (exists steps :: PaidAfter(sys, steps, i)) <==> |sys.sessions[i].phase.chunk| <= b.capacity
  {
    assert b.Limited() && b.Valid() && b.t <= sys.clock by {
      Reached(before);
      assert SessionOk(sys.sessions[i], sys.published, sys.clock);
    }
    if |sys.sessions[i].phase.chunk| <= b.capacity {
      FittingIsPaid(sys, i, b);
    } else {
      forall steps | Delivery.IsRun(sys, steps)
        ensures !PaidAfter(sys, steps, i)
      {
        OversizeNeverPaid(sys, steps, i, sys.sessions[i].phase.chunk);
      }
    }
  }

  lemma FittingIsPaid(sys: System, i: nat, b: Bucket)
    requires i < |sys.sessions| && sys.sessions[i].phase.Holding? && sys.sessions[i].bucket == Some(b)
    requires b.Limited() && b.Valid() && b.t <= sys.clock && |sys.sessions[i].phase.chunk| <= b.capacity
    ensures exists steps :: PaidAfter(sys, steps, i)
  {
    var now, n := sys.clock, |sys.sessions[i].phase.chunk|;
    var later := now + Sleep(b, n, now, now);
    var first, second := Local(i, Pay(now, now)), Local(i, Pay(later, later));
    OneWaitSuffices(b, n, now, now, later);
    if ConsumeAt(b, n, now).1 {
      OneStep(sys, first);
      assert PaidAfter(sys, [first], i);
    } else {
      OneStep(Apply(sys, first), second);
      assert [first, second][1..] == [second];
      assert PaidAfter(sys, [first, second], i);
    }
  }

  lemma OneStep(sys: System, step: Delivery.Step)
    requires Delivery.Enabled(sys, step)
    ensures Delivery.IsRun(sys, [step]) && Delivery.After(sys, [step]) == Apply(sys, step)
  {
    assert [step][1..] == [];
  }

  // ----- closing -----

  /** The turns of session `i`'s send loop in a run: looks at the queue that did not park. */
  ghost function Turns(sys: System, steps: seq<Delivery.Step>, i: nat): nat
    requires Delivery.IsRun(sys, steps)
    decreases |steps|
  {
    if steps == [] then 0
    else
      var next := Apply(sys, steps[0]);
      (if LooksAt(steps[0], i) && !next.sessions[i].phase.Parked? then 1 else 0) + Turns(next, steps[1..], i)
  }

  ghost predicate LooksAt(step: Delivery.Step, i: nat)
  {
    step.Local? && step.i == i && (step.act.Get? || step.act.Resume?)
  }

  /** What a send loop with a closed queue may still do. */
  function Remaining(s: Session): nat
  {
    if s.phase.Ended? then 0 else |s.rover.queue.buf| + 1
  }

  lemma ClosedAct(s: Session, a: Act, clock: real)
    requires s.rover.queue.closed && Can(s, a, clock)
    ensures Perform(s, a, clock).rover.queue.closed && Remaining(Perform(s, a, clock)) <= Remaining(s)
    ensures a.Get? || a.Resume? ==>
      Remaining(Perform(s, a, clock)) < Remaining(s) && !Perform(s, a, clock).phase.Parked?
  {
  }

  lemma ClosedStep(sys: System, step: Delivery.Step, i: nat)
    requires Delivery.Enabled(sys, step) && i < |sys.sessions| && sys.sessions[i].rover.queue.closed
    ensures var t := Apply(sys, step);
      && i < |t.sessions| && t.sessions[i].rover.queue.closed
      && Remaining(t.sessions[i]) + (if LooksAt(step, i) then 1 else 0) <= Remaining(sys.sessions[i])
  {
    if step.Local? && step.i == i {
      ClosedAct(sys.sessions[i], step.act, sys.clock);
    }
  }

  /** Once its queue is closed, a send loop returns within as many turns as chunks are buffered, plus one. */
  lemma {:induction false} ClosedLoopReturns(sys: System, steps: seq<Delivery.Step>, i: nat)
    requires Delivery.IsRun(sys, steps) && i < |sys.sessions| && sys.sessions[i].rover.queue.closed
    ensures i < |Delivery.After(sys, steps).sessions|
    ensures Turns(sys, steps, i) + Remaining(Delivery.After(sys, steps).sessions[i]) <= Remaining(sys.sessions[i])
    decreases |steps|
  {
    if steps != [] {
      ClosedStep(sys, steps[0], i);
      ClosedLoopReturns(Apply(sys, steps[0]), steps[1..], i);
    }
  }

  /**
   * When the source leaves: however the run goes on, the send loop of every rover attached at that moment takes
   * at most one turn more than it then has chunks buffered, and it is over once it has taken that many.
   */
  lemma DetachedLoopsReturn(sys: System, steps: seq<Delivery.Step>, i: nat)
    requires i < |sys.sessions| && sys.sessions[i].attached && Delivery.IsRun(Apply(sys, Detach), steps)
    ensures var next := Apply(sys, Detach);
      var most := |sys.sessions[i].rover.queue.buf| + 1;
      && i < |Delivery.After(next, steps).sessions|
      && Turns(next, steps, i) <= most
      && (Turns(next, steps, i) == most ==> Delivery.After(next, steps).sessions[i].phase.Ended?)
  {
    ClosedLoopReturns(Apply(sys, Detach), steps, i);
  }

  /** No send loop waits beside a buffered chunk or a closed queue once its notifications have run. */
  lemma SendLoopNeverStuck(steps: seq<Delivery.Step>, i: nat)
    requires Delivery.IsRun(EMPTY, steps) && i < |Delivery.After(EMPTY, steps).sessions|
    requires var s := Delivery.After(EMPTY, steps).sessions[i]; s.phase.Parked? && Quiet(s.rover.queue)
    ensures var q := Delivery.After(EMPTY, steps).sessions[i].rover.queue; q.buf == [] && !q.closed
  {
    Reached(steps);
  }
}
