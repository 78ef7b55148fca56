/** What a rover of a tier gets from its admission on: what it is offered, what is stored, when it may write. */
module Entitlements {
  import opened ByteStrings
  import opened Scanner
  import opened Rtcm
  import opened Tiers
  import opened Hub
  import opened Delivery
  import opened Guarantees
  import opened RunLimits
  import ByteQueues

  /** The state in which a run goes on once a rover of the tier is admitted, and the number of its session. */
  ghost function Joined(tier: Tier, before: seq<Delivery.Step>): System
    requires Delivery.IsRun(EMPTY, before)
  {
    Apply(Delivery.After(EMPTY, before), Admit(tier))
  }

  ghost function NextSession(before: seq<Delivery.Step>): nat
    requires Delivery.IsRun(EMPTY, before)
  {
    |Delivery.After(EMPTY, before).sessions|
  }

  /** What stays of the tier in a session: its gate, its rate, its queue size, and chunks that fit in its queue. */
  ghost predicate OfTier(s: Session, tier: Tier)
  {
    && s.rover.epm == tier.epochsPerMinute
    && s.rover.queue.max == (if QueueSize(tier) > 0 then QueueSize(tier) else 0)
    && (if tier.rateBps > 0 then s.bucket.Some? && s.bucket.value.rate == tier.rateBps else s.bucket == None)
    && forall c :: c in Held(s.phase) ==> |c| <= s.rover.queue.max
  }

  lemma FirstWithinSum(buf: seq<Bytes>)
    requires buf != []
    ensures |buf[0]| <= SumLen(buf)
  {
  }

  lemma TierLook(s: Session, q: ByteQueues.Queue, tier: Tier)
    requires OfTier(s, tier) && ByteQueues.Valid(s.rover.queue) && q.buf == s.rover.queue.buf
    requires q.max == s.rover.queue.max && q.bytes == s.rover.queue.bytes
    ensures OfTier(Looked(s, q), tier)
  {
    if q.buf != [] {
      FirstWithinSum(q.buf);
    }
  }

  lemma TierPay(s: Session, now: real, next: real, tier: Tier)
    requires OfTier(s, tier) && s.phase.Holding?
    ensures OfTier(PayFor(s, now, next), tier)
  {
  }

  lemma TierStop(s: Session, k: nat, tier: Tier)
    requires OfTier(s, tier) && (s.phase.Paid? ==> k <= |s.phase.chunk|)
    ensures OfTier(Stopped(s, k), tier)
  {
  }

  lemma TierAct(s: Session, a: Act, clock: real, tier: Tier)
    requires Can(s, a, clock) && OfTier(s, tier) && ByteQueues.Valid(s.rover.queue)
    ensures OfTier(Perform(s, a, clock), tier)
  {
    match a
    case Get => TierLook(s, s.rover.queue, tier);
    case Resume => TierLook(s, s.rover.queue.(woken := s.rover.queue.woken - 1), tier);
    case Pay(now, next) => TierPay(s, now, next, tier);
    case Fail(k) => TierStop(s, k, tier);
    case Cancel(k) => TierStop(if s.phase.Parked? then WithQueue(s, Unpark(s.rover.queue)) else s, k, tier);
    case _ =>
  }

  lemma TierStep(sys: System, step: Delivery.Step, i: nat, tier: Tier)
    requires Delivery.Enabled(sys, step) && i < |sys.sessions| && OfTier(sys.sessions[i], tier)
    requires ByteQueues.Valid(sys.sessions[i].rover.queue)
    ensures i < |Apply(sys, step).sessions| && OfTier(Apply(sys, step).sessions[i], tier)
  {
    if step.Local? && step.i == i {
      TierAct(sys.sessions[i], step.act, sys.clock, tier);
    }
  }

  lemma QueueValid(sys: System, i: nat)
    requires Ok(sys) && i < |sys.sessions|
    ensures ByteQueues.Valid(sys.sessions[i].rover.queue)
  {
    assert SessionOk(sys.sessions[i], sys.published, sys.clock);
  }

  lemma {:induction false} TierRun(sys: System, steps: seq<Delivery.Step>, i: nat, tier: Tier)
    requires Ok(sys) && Delivery.IsRun(sys, steps) && i < |sys.sessions| && OfTier(sys.sessions[i], tier)
    ensures Ok(Delivery.After(sys, steps))
    ensures i < |Delivery.After(sys, steps).sessions| && OfTier(Delivery.After(sys, steps).sessions[i], tier)
    decreases |steps|
  {
    if steps != [] {
      QueueValid(sys, i);
      TierStep(sys, steps[0], i, tier);
      ApplyKeepsOk(sys, steps[0]);
      TierRun(Apply(sys, steps[0]), steps[1..], i, tier);
    }
  }

  // ----- the gate -----

  /** A rover is offered what the gate of its tier lets through of all data since its admission. */
  lemma OffersOfTier(tier: Tier, before: seq<Delivery.Step>, steps: seq<Delivery.Step>)
    requires Delivery.IsRun(EMPTY, before) && Delivery.IsRun(Joined(tier, before), steps)
    ensures var sys, i := Joined(tier, before), NextSession(before);
      OfferTimes(sys, steps, i) == Offers(None, tier.epochsPerMinute, DataTimes(sys, steps, i))
  {
    OffersInRun(Joined(tier, before), steps, NextSession(before));
  }

  // ----- the queue -----

  lemma OfferedStored(s: Session, chunk: Bytes, index: nat, now: real)
    requires s.attached && Gated(s.rover, now) && ByteQueues.Valid(s.rover.queue) && s.rover.queue.max > 0
    ensures var q, t := s.rover.queue, Offered(s, chunk, index, now);
      if !q.closed && SumLen(q.buf) + |chunk| <= q.max
      then t.rover.queue.buf == q.buf + [chunk] && t.rover.dropped == s.rover.dropped
      else t.rover.queue == q && t.rover.dropped == s.rover.dropped + |chunk|
  {
    ByteQueues.RoomDecides(s.rover.queue, chunk);
  }

  /**
   * Whatever happened before and since its admission with a validated tier: a rover that data reaches past its gate
   * stores it, behind what is queued, exactly when its open queue has room for it, and has it dropped otherwise.
   */
  lemma DropsIffNoRoom(tier: Tier, before: seq<Delivery.Step>, steps: seq<Delivery.Step>, step: Delivery.Step)
    requires Validated(tier) && Delivery.IsRun(EMPTY, before) && Delivery.IsRun(Joined(tier, before), steps)
    requires var sys := Delivery.After(Joined(tier, before), steps);
      Delivery.Enabled(sys, step) && OffersTo(sys, step, NextSession(before))
    ensures var sys, i := Delivery.After(Joined(tier, before), steps), NextSession(before);
      var room := if tier.maxQueueBytes > 0 then tier.maxQueueBytes else 262144;
      var chunk := RawBytes(ScanRtcm(sys.parser + step.chunk).frames);
      var r, t := sys.sessions[i].rover, Apply(sys, step).sessions[i].rover;
      if !r.queue.closed && SumLen(r.queue.buf) + |chunk| <= room
      then t.queue.buf == r.queue.buf + [chunk] && t.dropped == r.dropped
      else t.queue == r.queue && t.dropped == r.dropped + |chunk|
  {
    var sys, i := Delivery.After(Joined(tier, before), steps), NextSession(before);
    JoinedStays(tier, before, steps);
    QueueValid(sys, i);
    OfferedStored(sys.sessions[i], RawBytes(ScanRtcm(sys.parser + step.chunk).frames), |sys.published|, step.now);
  }

  /** In every state after its admission the session is there, and of its tier. */
  lemma JoinedStays(tier: Tier, before: seq<Delivery.Step>, steps: seq<Delivery.Step>)
    requires Delivery.IsRun(EMPTY, before) && Delivery.IsRun(Joined(tier, before), steps)
    ensures var sys, i := Delivery.After(Joined(tier, before), steps), NextSession(before);
      Ok(sys) && i < |sys.sessions| && OfTier(sys.sessions[i], tier)
  {
    Reached(before);
    ApplyKeepsOk(Delivery.After(EMPTY, before), Admit(tier));
    TierRun(Joined(tier, before), steps, NextSession(before), tier);
  }

  // ----- the bucket -----

  /** The step lets the chunk that session `i` holds past the wait loop. */
  ghost predicate LetsPass(sys: System, step: Delivery.Step, i: nat)
    requires Delivery.Enabled(sys, step)
  {
    step.Local? && step.i == i && step.act.Pay? && PayFor(sys.sessions[i], step.act.now, step.act.next).phase.Paid?
  }

  /** The operations a step makes on the bucket of session `i`. */
  ghost function BucketOps(sys: System, step: Delivery.Step, i: nat): seq<Op>
    requires Delivery.Enabled(sys, step)
  {
    if step.Local? && step.i == i && step.act.Pay? then
      var n := |sys.sessions[i].phase.chunk|;
      [Consume(n, step.act.now)] + if LetsPass(sys, step, i) then [] else [Query(n, step.act.next)]
    else []
  }

  ghost function OpsInRun(sys: System, steps: seq<Delivery.Step>, i: nat): seq<Op>
    requires Delivery.IsRun(sys, steps)
    decreases |steps|
  {
    if steps == [] then [] else BucketOps(sys, steps[0], i) + OpsInRun(Apply(sys, steps[0]), steps[1..], i)
  }

  lemma OneOp(b: Bucket, op: Op)
    ensures Run(b, [op]) == Do(b, op) && Used(b, [op]) == Passed(b, op)
    ensures Timely(b.t, [op]) <==> b.t <= op.at
  {
    assert [op][1..] == [];
  }

  lemma TwoOps(b: Bucket, first: Op, second: Op)
    requires b.Limited() && b.Valid() && b.t <= first.at <= second.at
    ensures Run(b, [first, second]) == Do(Do(b, first), second)
    ensures Used(b, [first, second]) == Passed(b, first) + Passed(Do(b, first), second)
    ensures Timely(b.t, [first, second])
  {
    DoKeepsValid(b, first);
    assert [first, second][1..] == [second];
    OneOp(Do(b, first), second);
  }

  lemma OpsOfStep(sys: System, step: Delivery.Step, i: nat, b: Bucket)
    requires Delivery.Enabled(sys, step) && i < |sys.sessions| && sys.sessions[i].bucket == Some(b)
    requires Metered(sys.sessions[i], sys.clock)
    ensures var next, ops := Apply(sys, step), BucketOps(sys, step, i);
      && i < |next.sessions| && next.sessions[i].bucket == Some(Run(b, ops))
      && Used(b, ops) == PaidBy(sys, step, i) && Timely(b.t, ops)
  {
    SessionStays(sys, step, i);
    if step.Local? && step.i == i && step.act.Pay? {
      var n, now, next := |sys.sessions[i].phase.chunk|, step.act.now, step.act.next;
      if LetsPass(sys, step, i) {
        OneOp(b, Consume(n, now));
      } else {
        TwoOps(b, Consume(n, now), Query(n, next));
      }
    } else {
      BucketSame(sys, step, i);
    }
  }

  /** The bucket of a session after a run is what the operations of the run make of it. */
  lemma {:induction false} BucketInRun(sys: System, steps: seq<Delivery.Step>, i: nat, b: Bucket)
    requires Delivery.IsRun(sys, steps) && i < |sys.sessions| && sys.sessions[i].bucket == Some(b)
    requires Metered(sys.sessions[i], sys.clock)
    ensures var end, ops := Delivery.After(sys, steps), OpsInRun(sys, steps, i);
      && i < |end.sessions| && end.sessions[i].bucket == Some(Run(b, ops)) && Metered(end.sessions[i], end.clock)
      && Used(b, ops) == PaidBytes(sys, steps, i) && Timely(b.t, ops)
    decreases |steps|
  {
    if steps != [] {
      var first, rest := BucketOps(sys, steps[0], i), OpsInRun(Apply(sys, steps[0]), steps[1..], i);
      OpsOfStep(sys, steps[0], i, b);
      BucketStep(sys, steps[0], i);
      BucketInRun(Apply(sys, steps[0]), steps[1..], i, Run(b, first));
      RunAppend(b, first, rest);
      TimelyJoin(b, first, rest);
    }
  }

  /** The bucket of a tier, full at admission: two seconds of its rate. */
  function FreshBucket(rate: int, t: real): Bucket
  {
    Bucket(rate, 2 * rate, (2 * rate) as real, t)
  }

  lemma PaysIff(s: Session, now: real, next: real)
    requires s.phase.Holding? && s.bucket.Some?
    ensures PayFor(s, now, next).phase.Paid? <==> ConsumeAt(s.bucket.value, |s.phase.chunk|, now).1
  {
  }

  lemma FreshIsMetered(tier: Tier, before: seq<Delivery.Step>)
    requires Delivery.IsRun(EMPTY, before) && tier.rateBps > 0
    ensures var sys, i := Joined(tier, before), NextSession(before);
      var b := FreshBucket(tier.rateBps, sys.clock);
      i < |sys.sessions| && sys.sessions[i].bucket == Some(b) && b.Limited() && b.Valid() &&
      Metered(sys.sessions[i], sys.clock)
  {
  }

  /**
   * Whatever happened before and since its admission: a rate-limited rover may write the chunk its send loop holds
   * exactly when the chunk is at most two seconds of the rate, all bytes let through since its admission and the
   * chunk are at most that plus rate times time, and so are those let through since any turn of its wait loop.
   */
  lemma MayWriteIff(tier: Tier, before: seq<Delivery.Step>, steps: seq<Delivery.Step>, now: real, next: real)
    requires Delivery.IsRun(EMPTY, before) && Delivery.IsRun(Joined(tier, before), steps) && tier.rateBps > 0
    requires var sys, i := Delivery.After(Joined(tier, before), steps), NextSession(before);
      i < |sys.sessions| && sys.sessions[i].phase.Holding? && sys.clock <= now <= next
    ensures var start, sys, i := Joined(tier, before), Delivery.After(Joined(tier, before), steps), NextSession(before);
      var b, ops := FreshBucket(tier.rateBps, start.clock), OpsInRun(start, steps, i);
      && Used(b, ops) == PaidBytes(start, steps, i)
      && (PayFor(sys.sessions[i], now, next).phase.Paid? <==>
            WithinAllRates(b, ops, |sys.sessions[i].phase.chunk|, now))
  {
    var start, sys, i := Joined(tier, before), Delivery.After(Joined(tier, before), steps), NextSession(before);
    var b, ops := FreshBucket(tier.rateBps, start.clock), OpsInRun(start, steps, i);
    FreshIsMetered(tier, before);
    BucketInRun(start, steps, i, b);
    PaysIff(sys.sessions[i], now, next);
    PassesIffWithinRate(b, ops, |sys.sessions[i].phase.chunk|, now);
  }

  /** Without a rate limit it may always write. */
  lemma UnlimitedMayWrite(tier: Tier, before: seq<Delivery.Step>, steps: seq<Delivery.Step>, now: real, next: real)
    requires Delivery.IsRun(EMPTY, before) && Delivery.IsRun(Joined(tier, before), steps) && tier.rateBps <= 0
    requires var sys, i := Delivery.After(Joined(tier, before), steps), NextSession(before);
      i < |sys.sessions| && sys.sessions[i].phase.Holding?
    ensures var sys, i := Delivery.After(Joined(tier, before), steps), NextSession(before);
      PayFor(sys.sessions[i], now, next).phase.Paid?
  {
    JoinedStays(tier, before, steps);
  }
}
