/**
 * One mountpoint of src/caster.py as a transition system: a source connection feeding the parser, the
 * hub fanning chunks out, and one send loop per rover. Each step is what a task does between two points
 * where it really suspends; steps of different tasks interleave freely.
 */
module Delivery {
  import opened ByteStrings
  import opened Scanner
  import opened Rtcm
  import opened ByteQueues
  import opened Tiers
  import opened Hub

  const READ_LIMIT: nat := 4096
  const CHUNK_LIMIT: nat := 5124  // a full residual and a full read

  /** Where a send loop is: about to `get`, parked in it, holding a chunk, past the bucket, or over. */
  datatype Phase = Polling | Parked | Holding(chunk: Bytes) | Paid(chunk: Bytes) | Ended

  /**
   * A rover session. The fields from `offered` on are its history: bytes past the gate, bytes a queue
   * without room for anything ignored, which published chunks were stored, which were written, the one
   * lost when the loop ended, and how much of that one had gone out.
   */
  datatype Session = Session(rover: Rover, bucket: Option<Bucket>, attached: bool, phase: Phase, sent: nat,
                             offered: nat, vanished: nat, picks: seq<nat>, written: seq<Bytes>,
                             lost: seq<Bytes>, reached: Bytes)

  /** `feeds` holds what was read on each source connection; `published` the frames of each fan-out. */
  datatype System = System(feeds: seq<Bytes>, parser: Bytes, published: seq<seq<RtcmFrame>>,
                           crcErrors: nat, rx: nat, tx: nat, dropped: nat,
                           sessions: seq<Session>, clock: real)

  const EMPTY: System := System([], [], [], 0, 0, 0, 0, [], 0.0)

  // ----- steps of one session -----

  function NewSession(tier: Tier, clock: real): Session
  {
    var capacity := AdmissionCapacity(tier.rateBps);
    var bucket := if tier.rateBps > 0 then Some(Bucket(tier.rateBps, capacity, capacity as real, clock)) else None;
    var rover := Rover(tier.epochsPerMinute, None, NewQueue(QueueSize(tier)), 0);
    Session(rover, bucket, true, Polling, 0, 0, 0, [], [], [], [])
  }

  function Offered(s: Session, chunk: Bytes, index: nat, now: real): Session
  {
    if !s.attached || !Gated(s.rover, now) then s
    else
      var r := Put(s.rover.queue, chunk).1;
      s.(rover := Offer(s.rover, chunk, now),
         offered := s.offered + |chunk|,
         vanished := s.vanished + (if r.Ignored? then |chunk| else 0),
         picks := s.picks + (if r.Stored? then [index] else []))
  }

  /** `Pay` reads the clock twice: `consume` at `now`, and `time_to_available`, if it gets there, at `next`. */
  datatype Act =
    | Get | Resume | Notify | Broadcast | Pay(now: real, next: real) | Write | Fail(k: nat) | Cancel(k: nat)
    | Kick | Leave

  predicate Can(s: Session, a: Act, clock: real)
  {
    match a
    case Get => s.phase.Polling?
    case Resume => s.phase.Parked? && s.rover.queue.woken > 0
    case Notify => s.rover.queue.notifies > 0
    case Broadcast => s.rover.queue.broadcasts > 0
    case Pay(now, next) => s.phase.Holding? && clock <= now <= next
    case Write => s.phase.Paid?
    case Fail(k) => s.phase.Paid? && k <= |s.phase.chunk|
    case Cancel(k) => !s.phase.Ended? && (if s.phase.Paid? then k <= |s.phase.chunk| else k == 0)
    case Kick => true
    case Leave => s.attached
  }

  function WithQueue(s: Session, q: Queue): Session
  {
    s.(rover := s.rover.(queue := q))
  }

  /** The send loop looks at its queue and goes on accordingly. */
  function Looked(s: Session, q: Queue): Session
  {
    var (q', r) := Look(q);
    WithQueue(s, q').(phase := match r case Chunk(b) => Holding(b) case Finished => Ended case Waiting => Parked)
  }

  function Held(p: Phase): seq<Bytes>
  {
    if p.Holding? || p.Paid? then [p.chunk] else []
  }

  /** The loop ends with what it holds lost, `k` bytes of it already out. */
  function Stopped(s: Session, k: nat): Session
    requires s.phase.Paid? ==> k <= |s.phase.chunk|
  {
    s.(phase := Ended, lost := Held(s.phase), reached := if s.phase.Paid? then s.phase.chunk[..k] else [])
  }

  /** A cancelled getter leaves the condition. */
  function Unpark(q: Queue): Queue
  {
    if q.parked > 0 then q.(parked := q.parked - 1) else if q.woken > 0 then q.(woken := q.woken - 1) else q
  }

  function Perform(s: Session, a: Act, clock: real): Session
    requires Can(s, a, clock)
  {
    var q := s.rover.queue;
    match a
    case Get => Looked(s, q)
    case Resume => Looked(s, q.(woken := q.woken - 1))
    case Notify => WithQueue(s, Next(q, NotifyStep))
    case Broadcast => WithQueue(s, Next(q, BroadcastStep))
    case Pay(now, next) => PayFor(s, now, next)
    case Write => s.(phase := Polling, written := s.written + [s.phase.chunk], sent := s.sent + |s.phase.chunk|)
    case Fail(k) => Stopped(s, k)
    case Cancel(k) => Stopped(if s.phase.Parked? then WithQueue(s, Unpark(q)) else s, k)
    case Kick => WithQueue(s, Close(q))
    case Leave => WithQueue(s, Close(q)).(attached := false)
  }

  /** One turn of the wait loop: consume, or ask how long to wait and stay. */
  function PayFor(s: Session, now: real, next: real): Session
    requires s.phase.Holding?
  {
    match s.bucket
    case None => s.(phase := Paid(s.phase.chunk))
    case Some(b) =>
      var (c, ok) := ConsumeAt(b, |s.phase.chunk|, now);
      if ok then s.(bucket := Some(c), phase := Paid(s.phase.chunk))
      else s.(bucket := Some(AskAt(c, next)))
  }

  // ----- steps of the system -----

  datatype Step = Connect | Read(chunk: Bytes, now: real) | Detach | Admit(tier: Tier) | Local(i: nat, act: Act)

  predicate Enabled(sys: System, step: Step)
  {
    match step
    case Read(chunk, now) => sys.feeds != [] && 1 <= |chunk| <= READ_LIMIT && now >= sys.clock
    case Local(i, act) => i < |sys.sessions| && Can(sys.sessions[i], act, sys.clock)
    case _ => true
  }

  function OfferedAll(ss: seq<Session>, chunk: Bytes, index: nat, now: real): (r: seq<Session>)
    ensures |r| == |ss|
    ensures forall i :: 0 <= i < |ss| ==> r[i] == Offered(ss[i], chunk, index, now)
  {
    seq(|ss|, i requires 0 <= i < |ss| => Offered(ss[i], chunk, index, now))
  }

  function Sent(ss: seq<Session>): nat
  {
    if ss == [] then 0 else ss[0].sent + Sent(ss[1..])
  }

  function Dropped(ss: seq<Session>): nat
  {
    if ss == [] then 0 else ss[0].rover.dropped + Dropped(ss[1..])
  }

  /** Bytes the hub adds to its drop counter for one chunk. */
  function NewDrops(ss: seq<Session>, chunk: Bytes, now: real): nat
  {
    if ss == [] then 0
    else (if ss[0].attached then Drop(ss[0].rover, chunk, now) else 0) + NewDrops(ss[1..], chunk, now)
  }

  /** Parse what was read, count the errors, and fan out the frames found, if any, as one chunk. */
  ghost function Receive(sys: System, chunk: Bytes, now: real): System
    requires sys.feeds != []
  {
    var n := |sys.feeds| - 1;
    var s := ScanRtcm(sys.parser + chunk);
    var parsed := sys.(feeds := sys.feeds[n := sys.feeds[n] + chunk], parser := s.rest,
                       crcErrors := sys.crcErrors + s.errors, clock := now);
    if s.frames == [] then parsed
    else
      var out := RawBytes(s.frames);
      parsed.(published := sys.published + [s.frames], rx := sys.rx + |out|,
              dropped := sys.dropped + NewDrops(sys.sessions, out, now),
              sessions := OfferedAll(sys.sessions, out, |sys.published|, now))
  }

  function ClosedAll(ss: seq<Session>): (r: seq<Session>)
    ensures |r| == |ss|
    ensures forall i :: 0 <= i < |ss| ==>
      r[i] == if ss[i].attached then WithQueue(ss[i], Close(ss[i].rover.queue)) else ss[i]
  {
    seq(|ss|, i requires 0 <= i < |ss| =>
      if ss[i].attached then WithQueue(ss[i], Close(ss[i].rover.queue)) else ss[i])
  }

  ghost function Apply(sys: System, step: Step): System
    requires Enabled(sys, step)
  {
    match step
    case Connect => sys.(feeds := sys.feeds + [[]], parser := [])
    case Read(chunk, now) => Receive(sys, chunk, now)
    case Detach => sys.(sessions := ClosedAll(sys.sessions))
    case Admit(tier) => sys.(sessions := sys.sessions + [NewSession(tier, sys.clock)])
    case Local(i, act) =>
      var s := sys.sessions[i];
      sys.(sessions := sys.sessions[i := Perform(s, act, sys.clock)],
           tx := sys.tx + (if act.Write? then |s.phase.chunk| else 0),
           clock := if act.Pay? then act.next else sys.clock)
  }

  ghost predicate IsRun(sys: System, steps: seq<Step>)
    decreases |steps|
  {
    steps == [] || (Enabled(sys, steps[0]) && IsRun(Apply(sys, steps[0]), steps[1..]))
  }

  ghost function After(sys: System, steps: seq<Step>): System
    requires IsRun(sys, steps)
    decreases |steps|
  {
    if steps == [] then sys else After(Apply(sys, steps[0]), steps[1..])
  }

  // ----- what every step keeps: sessions -----

  ghost predicate Picks(picks: seq<nat>, n: nat)
  {
    && (forall k :: 0 <= k < |picks| ==> picks[k] < n)
    && (forall j, k :: 0 <= j < k < |picks| ==> picks[j] < picks[k])
  }

  /** The published chunks with the given indices. */
  ghost function ChunksAt(published: seq<seq<RtcmFrame>>, picks: seq<nat>): (r: seq<Bytes>)
    requires forall k :: 0 <= k < |picks| ==> picks[k] < |published|
    ensures |r| == |picks|
  {
    seq(|picks|, k requires 0 <= k < |picks| => RawBytes(published[picks[k]]))
  }

  /** In storing order: what was written, what the loop holds, what was lost, what is queued. */
  function Flow(s: Session): seq<Bytes>
  {
    s.written + Held(s.phase) + s.lost + s.rover.queue.buf
  }

  /** Every byte offered past the gate is accounted for. */
  predicate Balanced(s: Session)
  {
    s.offered == s.sent + SumLen(Held(s.phase)) + SumLen(s.lost) + s.rover.queue.bytes + s.rover.dropped + s.vanished
  }

  ghost predicate SessionOk(s: Session, published: seq<seq<RtcmFrame>>, clock: real)
  {
    && ByteQueues.Valid(s.rover.queue)
    && s.rover.queue.parked + s.rover.queue.woken == (if s.phase.Parked? then 1 else 0)
    && Picks(s.picks, |published|)
    && Flow(s) == ChunksAt(published, s.picks)
    && s.sent == SumLen(s.written)
    && Balanced(s)
    && (s.vanished > 0 ==> s.rover.queue.max == 0)
    && (if s.lost == [] then s.reached == [] else s.phase.Ended? && |s.lost| == 1 && s.reached <= s.lost[0])
    && (s.bucket.Some? ==> s.bucket.value.Limited() && s.bucket.value.Valid() && s.bucket.value.t <= clock)
    && (s.bucket.Some? ==> s.bucket.value.capacity == AdmissionCapacity(s.bucket.value.rate))
  }

  lemma NewSessionOk(tier: Tier, published: seq<seq<RtcmFrame>>, clock: real)
    ensures SessionOk(NewSession(tier, clock), published, clock)
  {
    var s := NewSession(tier, clock);
    assert Flow(s) == [] && ChunksAt(published, s.picks) == [];
    assert ByteQueues.Valid(s.rover.queue) && Balanced(s);
  }

  lemma SumLenOne(b: Bytes)
    ensures SumLen([b]) == |b|
  {
    assert [b][1..] == [];
  }

  lemma ClockKeepsOk(s: Session, published: seq<seq<RtcmFrame>>, clock: real, now: real)
    requires SessionOk(s, published, clock) && clock <= now
    ensures SessionOk(s, published, now)
  {
  }

  /** Publishing one more chunk leaves the earlier ones where they were. */
  lemma GrowthKeepsOk(s: Session, published: seq<seq<RtcmFrame>>, frames: seq<RtcmFrame>, clock: real)
    requires SessionOk(s, published, clock)
    ensures SessionOk(s, published + [frames], clock)
  {
    assert ChunksAt(published + [frames], s.picks) == ChunksAt(published, s.picks);
  }

  /** The stored chunk joins the end of the flow under its own index. */
  lemma StoreFlows(s: Session, t: Session, published: seq<seq<RtcmFrame>>, frames: seq<RtcmFrame>)
    requires Picks(s.picks, |published|) && Flow(s) == ChunksAt(published + [frames], s.picks)
    requires t.picks == s.picks + [|published|] && t.rover.queue.buf == s.rover.queue.buf + [RawBytes(frames)]
    requires t.phase == s.phase && t.written == s.written && t.lost == s.lost
    ensures Picks(t.picks, |published + [frames]|) && Flow(t) == ChunksAt(published + [frames], t.picks)
  {
    var longer := published + [frames];
    assert ChunksAt(longer, t.picks) == ChunksAt(longer, s.picks) + [RawBytes(frames)];
    assert Flow(t) == Flow(s) + [RawBytes(frames)];
  }

  lemma StoreKeepsOk(s: Session, published: seq<seq<RtcmFrame>>, frames: seq<RtcmFrame>, clock: real, now: real)
    requires SessionOk(s, published, clock) && SessionOk(s, published + [frames], now)
    requires s.attached && Gated(s.rover, now) && Put(s.rover.queue, RawBytes(frames)).1.Stored?
    ensures SessionOk(Offered(s, RawBytes(frames), |published|, now), published + [frames], now)
  {
    var chunk := RawBytes(frames);
    var t := Offered(s, chunk, |published|, now);
    NextKeepsValid(s.rover.queue, PutStep(chunk));
    StoreFlows(s, t, published, frames);
  }

  lemma RefuseKeepsOk(s: Session, published: seq<seq<RtcmFrame>>, chunk: Bytes, index: nat, now: real)
    requires SessionOk(s, published, now)
    requires s.attached && Gated(s.rover, now) && !Put(s.rover.queue, chunk).1.Stored?
    ensures SessionOk(Offered(s, chunk, index, now), published, now)
  {
    var t := Offered(s, chunk, index, now);
    assert t.rover.queue == s.rover.queue;
    assert t.picks == s.picks;
    assert Flow(t) == Flow(s);
  }

  /** A new chunk at the end of the published ones, offered to a session. */
  lemma OfferKeepsOk(s: Session, published: seq<seq<RtcmFrame>>, frames: seq<RtcmFrame>, clock: real, now: real)
    requires SessionOk(s, published, clock) && clock <= now
    ensures SessionOk(Offered(s, RawBytes(frames), |published|, now), published + [frames], now)
  {
    GrowthKeepsOk(s, published, frames, clock);
    ClockKeepsOk(s, published + [frames], clock, now);
    if s.attached && Gated(s.rover, now) {
      if Put(s.rover.queue, RawBytes(frames)).1.Stored? {
        StoreKeepsOk(s, published, frames, clock, now);
      } else {
        RefuseKeepsOk(s, published + [frames], RawBytes(frames), |published|, now);
      }
    }
  }

  lemma OfferCounts(s: Session, chunk: Bytes, index: nat, now: real)
    ensures var t := Offered(s, chunk, index, now);
      t.sent == s.sent && t.rover.dropped == s.rover.dropped + (if s.attached then Drop(s.rover, chunk, now) else 0)
  {
  }

  /** Nothing to take: only the phase and the parked getters of the queue change. */
  lemma IdleKeepsOk(s: Session, published: seq<seq<RtcmFrame>>, clock: real)
    requires SessionOk(s, published, clock) && s.phase.Polling? && s.rover.queue.buf == []
    ensures SessionOk(Looked(s, s.rover.queue), published, clock)
  {
    var t := Looked(s, s.rover.queue);
    assert Held(t.phase) == Held(s.phase);
    assert Flow(t) == Flow(s);
  }

  /** The oldest chunk moves from the queue into the loop. */
  lemma TakeMoves(s: Session, t: Session)
    requires s.rover.queue.buf != [] && s.phase.Polling? && t == Looked(s, s.rover.queue)
    requires s.rover.queue.bytes == SumLen(s.rover.queue.buf)
    ensures t.phase.Holding? && s.rover.queue.buf == Held(t.phase) + t.rover.queue.buf
    ensures SumLen(Held(t.phase)) + t.rover.queue.bytes == s.rover.queue.bytes
  {
    SumLenOne(t.phase.chunk);
  }

  lemma TakeKeepsOk(s: Session, published: seq<seq<RtcmFrame>>, clock: real)
    requires SessionOk(s, published, clock) && s.phase.Polling? && s.rover.queue.buf != []
    ensures SessionOk(Looked(s, s.rover.queue), published, clock)
  {
    var t := Looked(s, s.rover.queue);
    TakeMoves(s, t);
    NextKeepsValid(s.rover.queue, GetStep);
    assert Flow(t) == Flow(s);
  }

  lemma GetKeepsOk(s: Session, published: seq<seq<RtcmFrame>>, clock: real)
    requires SessionOk(s, published, clock) && s.phase.Polling?
    ensures SessionOk(Looked(s, s.rover.queue), published, clock)
  {
    if s.rover.queue.buf == [] {
      IdleKeepsOk(s, published, clock);
    } else {
      TakeKeepsOk(s, published, clock);
    }
  }

  /** A woken getter leaves the condition before it looks again. */
  lemma WakeKeepsOk(s: Session, published: seq<seq<RtcmFrame>>, clock: real)
    requires SessionOk(s, published, clock) && s.phase.Parked? && s.rover.queue.woken > 0
    ensures SessionOk(WithQueue(s, s.rover.queue.(woken := s.rover.queue.woken - 1)).(phase := Polling),
                      published, clock)
  {
    assert Flow(WithQueue(s, s.rover.queue.(woken := s.rover.queue.woken - 1)).(phase := Polling)) == Flow(s);
  }

  lemma ResumeKeepsOk(s: Session, published: seq<seq<RtcmFrame>>, clock: real)
    requires SessionOk(s, published, clock) && s.phase.Parked? && s.rover.queue.woken > 0
    ensures SessionOk(Looked(s, s.rover.queue.(woken := s.rover.queue.woken - 1)), published, clock)
  {
    WakeKeepsOk(s, published, clock);
    GetKeepsOk(WithQueue(s, s.rover.queue.(woken := s.rover.queue.woken - 1)).(phase := Polling), published, clock);
  }

  lemma TaskKeepsOk(s: Session, step: ByteQueues.Step, published: seq<seq<RtcmFrame>>, clock: real)
    requires SessionOk(s, published, clock) && (step.NotifyStep? || step.BroadcastStep?)
    requires ByteQueues.Enabled(s.rover.queue, step)
    ensures SessionOk(WithQueue(s, Next(s.rover.queue, step)), published, clock)
  {
    NextKeepsValid(s.rover.queue, step);
    assert Flow(WithQueue(s, Next(s.rover.queue, step))) == Flow(s);
  }

  lemma PayKeepsOk(s: Session, now: real, next: real, published: seq<seq<RtcmFrame>>, clock: real)
    requires SessionOk(s, published, clock) && s.phase.Holding? && clock <= now <= next
    ensures SessionOk(PayFor(s, now, next), published, next)
  {
    assert Held(PayFor(s, now, next).phase) == Held(s.phase);
    match s.bucket
    case None =>
    case Some(b) =>
      var n := |s.phase.chunk|;
      DoKeepsValid(b, Op.Consume(n, now));
      DoKeepsValid(ConsumeAt(b, n, now).0, Query(n, next));
  }

  lemma StopKeepsOk(s: Session, k: nat, published: seq<seq<RtcmFrame>>, clock: real)
    requires SessionOk(s, published, clock) && !s.phase.Ended? && !s.phase.Parked?
    requires if s.phase.Paid? then k <= |s.phase.chunk| else k == 0
    ensures SessionOk(Stopped(s, k), published, clock)
  {
    var t := Stopped(s, k);
    assert s.lost == [];
    assert Flow(t) == Flow(s);
  }

  lemma UnparkKeepsOk(s: Session, published: seq<seq<RtcmFrame>>, clock: real)
    requires SessionOk(s, published, clock) && s.phase.Parked?
    ensures SessionOk(WithQueue(s, Unpark(s.rover.queue)).(phase := Polling), published, clock)
  {
    assert Flow(WithQueue(s, Unpark(s.rover.queue)).(phase := Polling)) == Flow(s);
  }

  lemma WriteKeepsOk(s: Session, published: seq<seq<RtcmFrame>>, clock: real)
    requires SessionOk(s, published, clock) && s.phase.Paid?
    ensures SessionOk(Perform(s, Write, clock), published, clock)
  {
    var t := Perform(s, Write, clock);
    SumLenOne(s.phase.chunk);
    SumLenSnoc(s.written, s.phase.chunk);
    assert Flow(t) == Flow(s);
  }

  lemma CancelKeepsOk(s: Session, k: nat, published: seq<seq<RtcmFrame>>, clock: real)
    requires SessionOk(s, published, clock) && Can(s, Cancel(k), clock)
    ensures SessionOk(Perform(s, Cancel(k), clock), published, clock)
  {
    if s.phase.Parked? {
      UnparkKeepsOk(s, published, clock);
      StopKeepsOk(WithQueue(s, Unpark(s.rover.queue)).(phase := Polling), k, published, clock);
    } else {
      StopKeepsOk(s, k, published, clock);
    }
  }

  /** What the send loop itself does. */
  lemma LoopKeepsOk(s: Session, a: Act, published: seq<seq<RtcmFrame>>, clock: real)
    requires SessionOk(s, published, clock) && Can(s, a, clock) && (a.Get? || a.Resume? || a.Write? || a.Fail?)
    ensures SessionOk(Perform(s, a, clock), published, clock)
  {
    match a
    case Get =>
      GetKeepsOk(s, published, clock);
      assert Perform(s, a, clock) == Looked(s, s.rover.queue);
    case Resume =>
      ResumeKeepsOk(s, published, clock);
      assert Perform(s, a, clock) == Looked(s, s.rover.queue.(woken := s.rover.queue.woken - 1));
    case Write => WriteKeepsOk(s, published, clock);
    case Fail(k) =>
      StopKeepsOk(s, k, published, clock);
      assert Perform(s, a, clock) == Stopped(s, k);
  }

  lemma DoKeepsOk(s: Session, a: Act, published: seq<seq<RtcmFrame>>, clock: real)
    requires SessionOk(s, published, clock) && Can(s, a, clock)
    ensures SessionOk(Perform(s, a, clock), published, if a.Pay? then a.next else clock)
  {
    match a
    case Pay(now, next) => PayKeepsOk(s, now, next, published, clock);
    case Notify => TaskKeepsOk(s, NotifyStep, published, clock);
    case Broadcast => TaskKeepsOk(s, BroadcastStep, published, clock);
    case Cancel(k) => CancelKeepsOk(s, k, published, clock);
    case Kick => CloseKeepsOk(s, published, clock);
    case Leave => CloseKeepsOk(s, published, clock);
    case _ => LoopKeepsOk(s, a, published, clock);
  }

  lemma DoCounts(s: Session, a: Act, clock: real)
    requires Can(s, a, clock)
    ensures Perform(s, a, clock).rover.dropped == s.rover.dropped
    ensures Perform(s, a, clock).sent == s.sent + (if a.Write? then |s.phase.chunk| else 0)
  {
  }

  lemma CloseKeepsOk(s: Session, published: seq<seq<RtcmFrame>>, clock: real)
    requires SessionOk(s, published, clock)
    ensures SessionOk(WithQueue(s, Close(s.rover.queue)), published, clock)
    ensures SessionOk(WithQueue(s, Close(s.rover.queue)).(attached := false), published, clock)
  {
    NextKeepsValid(s.rover.queue, CloseStep);
    assert Flow(WithQueue(s, Close(s.rover.queue))) == Flow(s);
    assert Flow(WithQueue(s, Close(s.rover.queue)).(attached := false)) == Flow(s);
  }

  // ----- what every step keeps: the system -----

  /** All frames the parser found, connection by connection. */
  ghost function AllFrames(feeds: seq<Bytes>): seq<RtcmFrame>
  {
    if feeds == [] then [] else AllFrames(feeds[..|feeds| - 1]) + ScanRtcm(feeds[|feeds| - 1]).frames
  }

  ghost function ParseErrors(feeds: seq<Bytes>): nat
  {
    if feeds == [] then 0 else ParseErrors(feeds[..|feeds| - 1]) + ScanRtcm(feeds[|feeds| - 1]).errors
  }

  function Flatten(published: seq<seq<RtcmFrame>>): seq<RtcmFrame>
  {
    if published == [] then [] else Flatten(published[..|published| - 1]) + published[|published| - 1]
  }

  ghost predicate ParserOk(sys: System)
  {
    && (if sys.feeds == [] then sys.parser == [] else sys.parser == ScanRtcm(sys.feeds[|sys.feeds| - 1]).rest)
    && Flatten(sys.published) == AllFrames(sys.feeds)
    && sys.crcErrors == ParseErrors(sys.feeds)
  }

  /** A published chunk: whole frames, at least one, at most a full residual and a full read. */
  ghost predicate ChunkOk(frames: seq<RtcmFrame>)
  {
    frames != [] && AllWhole(Classify, frames) && |RawBytes(frames)| <= CHUNK_LIMIT
  }

  ghost predicate PublishedOk(published: seq<seq<RtcmFrame>>)
  {
    forall k :: 0 <= k < |published| ==> ChunkOk(published[k])
  }

  ghost predicate SessionsOk(ss: seq<Session>, published: seq<seq<RtcmFrame>>, clock: real)
  {
    forall i :: 0 <= i < |ss| ==> SessionOk(ss[i], published, clock)
  }

  ghost predicate Ok(sys: System)
  {
    && ParserOk(sys)
    && PublishedOk(sys.published)
    && SessionsOk(sys.sessions, sys.published, sys.clock)
    && sys.tx == Sent(sys.sessions)
    && sys.dropped == Dropped(sys.sessions)
  }

  /** Reading one more chunk continues the scan of the connection. */
  lemma ReadContinues(feed: Bytes, chunk: Bytes)
    ensures var s, t := ScanRtcm(feed), ScanRtcm(ScanRtcm(feed).rest + chunk);
      ScanRtcm(feed + chunk) == Scanned(s.frames + t.frames, s.errors + t.errors, t.rest)
  {
    ClassifyLawful();
    ScanAppend(Classify, feed, chunk);
  }

  lemma ReadIsChunk(feed: Bytes, chunk: Bytes)
    requires |chunk| <= READ_LIMIT
    ensures var t := ScanRtcm(ScanRtcm(feed).rest + chunk); t.frames != [] ==> ChunkOk(t.frames)
  {
    ResidualBound(feed);
    ResidualBound(ScanRtcm(feed).rest + chunk);
    ClassifyLawful();
    ScanEmitsWhole(Classify, ScanRtcm(feed).rest + chunk);
  }

  lemma FlattenMore(published: seq<seq<RtcmFrame>>, frames: seq<RtcmFrame>)
    ensures Flatten(published + [frames]) == Flatten(published) + frames
  {
    assert (published + [frames])[..|published|] == published;
  }

  /** The frames of a read, published unless there are none. */
  function Published(published: seq<seq<RtcmFrame>>, frames: seq<RtcmFrame>): (r: seq<seq<RtcmFrame>>)
    ensures Flatten(r) == Flatten(published) + frames
  {
    FlattenMore(published, frames);
    if frames == [] then published else published + [frames]
  }

  lemma ReceiveKeepsParserOk(sys: System, chunk: Bytes, now: real)
    requires ParserOk(sys) && sys.feeds != []
    ensures ParserOk(Receive(sys, chunk, now))
  {
    AllFramesGrow(sys.feeds, chunk);
    assert Receive(sys, chunk, now).published == Published(sys.published, ScanRtcm(sys.parser + chunk).frames);
  }

  lemma AllFramesGrow(feeds: seq<Bytes>, chunk: Bytes)
    requires feeds != []
    ensures var n := |feeds| - 1;
      var more, t := feeds[n := feeds[n] + chunk], ScanRtcm(ScanRtcm(feeds[n]).rest + chunk);
      && AllFrames(more) == AllFrames(feeds) + t.frames
      && ParseErrors(more) == ParseErrors(feeds) + t.errors
      && ScanRtcm(more[n]).rest == t.rest
  {
    var n := |feeds| - 1;
    ReadContinues(feeds[n], chunk);
    var more := feeds[n := feeds[n] + chunk];
    assert more[..n] == feeds[..n];
    var s, t := ScanRtcm(feeds[n]), ScanRtcm(ScanRtcm(feeds[n]).rest + chunk);
    assert AllFrames(feeds[..n]) + (s.frames + t.frames) == (AllFrames(feeds[..n]) + s.frames) + t.frames;
  }

  lemma OffersKeepOk(ss: seq<Session>, published: seq<seq<RtcmFrame>>, frames: seq<RtcmFrame>, clock: real, now: real)
    requires SessionsOk(ss, published, clock) && clock <= now
    ensures SessionsOk(OfferedAll(ss, RawBytes(frames), |published|, now), published + [frames], now)
  {
    var r := OfferedAll(ss, RawBytes(frames), |published|, now);
    forall i | 0 <= i < |r| ensures SessionOk(r[i], published + [frames], now) {
      OfferKeepsOk(ss[i], published, frames, clock, now);
      assert r[i] == Offered(ss[i], RawBytes(frames), |published|, now);
    }
  }

  lemma {:induction false} SumsAfterOffer(ss: seq<Session>, chunk: Bytes, index: nat, now: real)
    ensures var r := OfferedAll(ss, chunk, index, now);
      Sent(r) == Sent(ss) && Dropped(r) == Dropped(ss) + NewDrops(ss, chunk, now)
    decreases |ss|
  {
    if ss != [] {
      OfferCounts(ss[0], chunk, index, now);
      SumsAfterOffer(ss[1..], chunk, index, now);
      assert OfferedAll(ss, chunk, index, now)[1..] == OfferedAll(ss[1..], chunk, index, now);
    }
  }

  lemma {:induction false} SumsAfterClose(ss: seq<Session>)
    ensures Sent(ClosedAll(ss)) == Sent(ss) && Dropped(ClosedAll(ss)) == Dropped(ss)
    decreases |ss|
  {
    if ss != [] {
      assert ClosedAll(ss)[1..] == ClosedAll(ss[1..]);
      SumsAfterClose(ss[1..]);
    }
  }

  lemma {:induction false} SumsAfterUpdate(ss: seq<Session>, i: nat, s: Session)
    requires i < |ss|
    ensures Sent(ss[i := s]) + ss[i].sent == Sent(ss) + s.sent
    ensures Dropped(ss[i := s]) + ss[i].rover.dropped == Dropped(ss) + s.rover.dropped
    decreases |ss|
  {
    if i == 0 {
      assert ss[0 := s][1..] == ss[1..];
    } else {
      assert ss[i := s][1..] == ss[1..][i - 1 := s];
      SumsAfterUpdate(ss[1..], i - 1, s);
    }
  }

  lemma {:induction false} SumsAfterAdmit(ss: seq<Session>, s: Session)
    ensures Sent(ss + [s]) == Sent(ss) + s.sent && Dropped(ss + [s]) == Dropped(ss) + s.rover.dropped
  {
    if ss == [] {
      assert [s][1..] == [];
    } else {
      assert (ss + [s])[1..] == ss[1..] + [s];
      SumsAfterAdmit(ss[1..], s);
    }
  }

  lemma ReceiveKeepsOk(sys: System, chunk: Bytes, now: real)
    requires Ok(sys) && Enabled(sys, Read(chunk, now))
    ensures Ok(Receive(sys, chunk, now))
  {
    var t := ScanRtcm(sys.parser + chunk);
    ReceiveKeepsParserOk(sys, chunk, now);
    ReadIsChunk(sys.feeds[|sys.feeds| - 1], chunk);
    if t.frames == [] {
      forall i | 0 <= i < |sys.sessions| ensures SessionOk(sys.sessions[i], sys.published, now) {
        ClockKeepsOk(sys.sessions[i], sys.published, sys.clock, now);
      }
    } else {
      OffersKeepOk(sys.sessions, sys.published, t.frames, sys.clock, now);
      SumsAfterOffer(sys.sessions, RawBytes(t.frames), |sys.published|, now);
    }
  }

  lemma LocalKeepsSessions(ss: seq<Session>, i: nat, act: Act, published: seq<seq<RtcmFrame>>, clock: real)
    requires SessionsOk(ss, published, clock) && i < |ss| && Can(ss[i], act, clock)
    ensures SessionsOk(ss[i := Perform(ss[i], act, clock)], published, if act.Pay? then act.next else clock)
  {
    DoKeepsOk(ss[i], act, published, clock);
    forall j | 0 <= j < |ss| ensures SessionOk(ss[j], published, if act.Pay? then act.next else clock) {
      ClockKeepsOk(ss[j], published, clock, if act.Pay? then act.next else clock);
    }
  }

  lemma ReplaceKeepsOk(sys: System, i: nat, t: Session, clock: real)
    requires Ok(sys) && i < |sys.sessions| && SessionsOk(sys.sessions[i := t], sys.published, clock)
    requires t.rover.dropped == sys.sessions[i].rover.dropped && t.sent >= sys.sessions[i].sent
    ensures Ok(sys.(sessions := sys.sessions[i := t], tx := sys.tx + (t.sent - sys.sessions[i].sent), clock := clock))
  {
    SumsAfterUpdate(sys.sessions, i, t);
  }

  lemma LocalApplied(sys: System, i: nat, act: Act, t: Session, clock: real)
    requires Enabled(sys, Local(i, act)) && t == Perform(sys.sessions[i], act, sys.clock)
    requires clock == if act.Pay? then act.next else sys.clock
    ensures t.rover.dropped == sys.sessions[i].rover.dropped && t.sent >= sys.sessions[i].sent
    ensures Apply(sys, Local(i, act)) ==
      sys.(sessions := sys.sessions[i := t], tx := sys.tx + (t.sent - sys.sessions[i].sent), clock := clock)
  {
    DoCounts(sys.sessions[i], act, sys.clock);
  }

  lemma LocalKeepsOk(sys: System, i: nat, act: Act, t: Session, clock: real)
    requires Ok(sys) && Enabled(sys, Local(i, act)) && t == Perform(sys.sessions[i], act, sys.clock)
    requires clock == if act.Pay? then act.next else sys.clock
    ensures Ok(Apply(sys, Local(i, act)))
  {
    assert SessionsOk(sys.sessions[i := t], sys.published, clock) by {
      LocalKeepsSessions(sys.sessions, i, act, sys.published, sys.clock);
    }
    LocalApplied(sys, i, act, t, clock);
    ReplaceKeepsOk(sys, i, t, clock);
  }

  lemma ClosedKeepsOk(ss: seq<Session>, published: seq<seq<RtcmFrame>>, clock: real)
    requires SessionsOk(ss, published, clock)
    ensures SessionsOk(ClosedAll(ss), published, clock)
  {
    var closed := ClosedAll(ss);
    forall i | 0 <= i < |closed| ensures SessionOk(closed[i], published, clock) {
      CloseKeepsOk(ss[i], published, clock);
      assert closed[i] == if ss[i].attached then WithQueue(ss[i], Close(ss[i].rover.queue)) else ss[i];
    }
  }

  lemma DetachKeepsOk(sys: System)
    requires Ok(sys)
    ensures Ok(Apply(sys, Detach))
  {
    SumsAfterClose(sys.sessions);
    ClosedKeepsOk(sys.sessions, sys.published, sys.clock);
  }

  lemma AppendKeepsOk(sys: System, s: Session)
    requires Ok(sys) && SessionOk(s, sys.published, sys.clock) && s.sent == 0 && s.rover.dropped == 0
    ensures Ok(sys.(sessions := sys.sessions + [s]))
  {
    SumsAfterAdmit(sys.sessions, s);
    var ss := sys.sessions + [s];
    forall i | 0 <= i < |ss| ensures SessionOk(ss[i], sys.published, sys.clock) {
      assert ss[i] == if i < |sys.sessions| then sys.sessions[i] else s;
    }
  }

  lemma AdmitKeepsOk(sys: System, tier: Tier)
    requires Ok(sys)
    ensures Ok(Apply(sys, Admit(tier)))
  {
    var s := NewSession(tier, sys.clock);
    assert Apply(sys, Admit(tier)) == sys.(sessions := sys.sessions + [s]);
    assert SessionOk(s, sys.published, sys.clock) by {
      NewSessionOk(tier, sys.published, sys.clock);
    }
    AppendKeepsOk(sys, s);
  }

  lemma ApplyKeepsOk(sys: System, step: Step)
    requires Ok(sys) && Enabled(sys, step)
    ensures Ok(Apply(sys, step))
  {
    match step
    case Connect => ConnectKeepsParserOk(sys);
    case Read(chunk, now) => ReceiveKeepsOk(sys, chunk, now);
    case Detach => DetachKeepsOk(sys);
    case Admit(tier) => AdmitKeepsOk(sys, tier);
    case Local(i, act) =>
      LocalKeepsOk(sys, i, act, Perform(sys.sessions[i], act, sys.clock), if act.Pay? then act.next else sys.clock);
  }

  lemma ConnectKeepsParserOk(sys: System)
    requires ParserOk(sys)
    ensures ParserOk(sys.(feeds := sys.feeds + [[]], parser := []))
  {
    ClassifyShaped();
    var feeds: seq<Bytes> := sys.feeds + [[]];
    assert feeds[..|sys.feeds|] == sys.feeds;
    assert AllFrames(feeds) == AllFrames(sys.feeds) + [];
  }

  lemma {:induction false} RunKeepsOk(sys: System, steps: seq<Step>)
    requires Ok(sys) && IsRun(sys, steps)
    ensures Ok(After(sys, steps))
    decreases |steps|
  {
    if steps != [] {
      ApplyKeepsOk(sys, steps[0]);
      RunKeepsOk(Apply(sys, steps[0]), steps[1..]);
    }
  }
}
