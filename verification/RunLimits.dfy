/** The epoch gate and the token bucket of one rover over whole runs of the transition system. */
module RunLimits {
  import opened ByteStrings
  import opened Rtcm
  import opened Tiers
  import opened Hub
  import opened Delivery
  import opened Guarantees

  lemma SessionStays(sys: System, step: Delivery.Step, i: nat)
    requires Delivery.Enabled(sys, step) && i < |sys.sessions|
    ensures i < |Apply(sys, step).sessions| && sys.clock <= Apply(sys, step).clock
  {
  }

  // ----- the gate -----

  /** The step brings data for session `i`: a read that completes frames, while it is attached. */
  ghost predicate DataFor(sys: System, step: Delivery.Step, i: nat)
  {
    && step.Read? && i < |sys.sessions| && sys.sessions[i].attached
    && ScanRtcm(sys.parser + step.chunk).frames != []
  }

  /** The data passes its gate. */
  ghost predicate OffersTo(sys: System, step: Delivery.Step, i: nat)
  {
    DataFor(sys, step, i) && Gated(sys.sessions[i].rover, step.now)
  }

  /** When there is data for session `i` in a run. */
  ghost function DataTimes(sys: System, steps: seq<Delivery.Step>, i: nat): seq<real>
    requires Delivery.IsRun(sys, steps)
    decreases |steps|
  {
    if steps == [] then []
    else (if DataFor(sys, steps[0], i) then [steps[0].now] else []) + DataTimes(Apply(sys, steps[0]), steps[1..], i)
  }

  /** When session `i` is offered data in a run. */
  ghost function OfferTimes(sys: System, steps: seq<Delivery.Step>, i: nat): seq<real>
    requires Delivery.IsRun(sys, steps)
    decreases |steps|
  {
    if steps == [] then []
    else
      (if OffersTo(sys, steps[0], i) then [steps[0].now] else []) + OfferTimes(Apply(sys, steps[0]), steps[1..], i)
  }

  lemma GateUntouched(s: Session, a: Act, clock: real)
    requires Can(s, a, clock)
    ensures Perform(s, a, clock).rover.epm == s.rover.epm && Perform(s, a, clock).rover.epLast == s.rover.epLast
  {
  }

  lemma GateStep(sys: System, step: Delivery.Step, i: nat)
    requires Delivery.Enabled(sys, step) && i < |sys.sessions|
    ensures i < |Apply(sys, step).sessions|
    ensures var r, t := sys.sessions[i].rover, Apply(sys, step).sessions[i].rover;
      t.epm == r.epm && t.epLast == if OffersTo(sys, step, i) && r.epm > 0 then Some(step.now) else r.epLast
  {
    SessionStays(sys, step, i);
    if step.Local? && step.i == i {
      GateUntouched(sys.sessions[i], step.act, sys.clock);
    }
  }

  lemma OffersOne(last: Option<real>, epm: int, t: real, times: seq<real>)
    ensures Offers(last, epm, [t] + times) ==
      if EpochGateOk(last, epm, t) then [t] + Offers(if epm > 0 then Some(t) else last, epm, times)
      else Offers(last, epm, times)
  {
    assert ([t] + times)[1..] == times;
  }

  /** In a run a session is offered what the gate lets through of the data there is for it. */
  lemma {:induction false} OffersInRun(sys: System, steps: seq<Delivery.Step>, i: nat)
    requires Delivery.IsRun(sys, steps) && i < |sys.sessions|
    ensures var r := sys.sessions[i].rover;
      OfferTimes(sys, steps, i) == Offers(r.epLast, r.epm, DataTimes(sys, steps, i))
    decreases |steps|
  {
    if steps != [] {
      var next, rest, r := Apply(sys, steps[0]), steps[1..], sys.sessions[i].rover;
      GateStep(sys, steps[0], i);
      OffersInRun(next, rest, i);
      if DataFor(sys, steps[0], i) {
        OffersOne(r.epLast, r.epm, steps[0].now, DataTimes(next, rest, i));
      } else {
        assert OfferTimes(sys, steps, i) == OfferTimes(next, rest, i);
        assert DataTimes(sys, steps, i) == DataTimes(next, rest, i);
      }
    }
  }

  lemma LatestAfter(last: Option<real>, first: seq<real>, rest: seq<real>)
    ensures Latest(Latest(last, first), rest) == Latest(last, first + rest)
  {
  }

  lemma {:induction false} LatestInRun(sys: System, steps: seq<Delivery.Step>, i: nat)
    requires Delivery.IsRun(sys, steps) && i < |sys.sessions| && sys.sessions[i].rover.epm > 0
    ensures var end, r := Delivery.After(sys, steps), sys.sessions[i].rover;
      && i < |end.sessions| && end.sessions[i].rover.epm == r.epm
      && end.sessions[i].rover.epLast == Latest(r.epLast, OfferTimes(sys, steps, i))
    decreases |steps|
  {
    if steps != [] {
      var next, rest := Apply(sys, steps[0]), steps[1..];
      GateStep(sys, steps[0], i);
      LatestInRun(next, rest, i);
      LatestAfter(sys.sessions[i].rover.epLast, if OffersTo(sys, steps[0], i) then [steps[0].now] else [],
                  OfferTimes(next, rest, i));
    }
  }

  /**
   * After any run, data for a gated session is kept back exactly when it comes less than a period after the last
   * data it was offered, in the run or before it.
   */
  lemma KeptBackInRun(sys: System, steps: seq<Delivery.Step>, i: nat, step: Delivery.Step)
    requires Delivery.IsRun(sys, steps) && i < |sys.sessions| && sys.sessions[i].rover.epm > 0
    requires DataFor(Delivery.After(sys, steps), step, i)
    ensures var r := sys.sessions[i].rover; var latest := Latest(r.epLast, OfferTimes(sys, steps, i));
      !OffersTo(Delivery.After(sys, steps), step, i) <==>
        latest.Some? && step.now - latest.value < 60.0 / r.epm as real
  {
    LatestInRun(sys, steps, i);
  }

  /** Data spaced by at least the period, and all data without a gate, is offered completely. */
  lemma AllOfferedInRun(sys: System, steps: seq<Delivery.Step>, i: nat)
    requires Delivery.IsRun(sys, steps) && i < |sys.sessions|
    requires var r, times := sys.sessions[i].rover, DataTimes(sys, steps, i);
      r.epm > 0 ==> && Spaced(times, 60.0 / r.epm as real)
                    && (times != [] && r.epLast.Some? ==> times[0] - r.epLast.value >= 60.0 / r.epm as real)
    ensures OfferTimes(sys, steps, i) == DataTimes(sys, steps, i)
  {
    var r := sys.sessions[i].rover;
    OffersInRun(sys, steps, i);
    if r.epm > 0 {
      SpacedAllOffered(r.epLast, r.epm, DataTimes(sys, steps, i));
    } else {
      UngatedAllOffered(r.epLast, r.epm, DataTimes(sys, steps, i));
    }
  }

  /** In any run, any window of length `T` offers a gated rover at most floor(T * epm / 60) + 1 chunks. */
  lemma GateHolds(sys: System, steps: seq<Delivery.Step>, i: nat, epm: int, times: seq<real>, j: nat, k: nat, T: real)
    requires Delivery.IsRun(sys, steps) && i < |sys.sessions| && times == OfferTimes(sys, steps, i)
    requires epm == sys.sessions[i].rover.epm > 0
    requires j <= k < |times| && times[k] - times[j] <= T
    ensures k - j + 1 <= (T * epm as real / 60.0).Floor + 1
  {
    OffersInRun(sys, steps, i);
    GateWindow(sys.sessions[i].rover.epLast, epm, DataTimes(sys, steps, i), j, k, T);
  }

  // ----- the bucket -----

  /** Tokens there would be at `now`. */
  function Available(b: Bucket, now: real): real
    requires b.Limited()
  {
    Refill(b, now).tokens
  }

  lemma AvailableLater(b: Bucket, s: real, u: real)
    requires b.Limited() && b.Valid() && b.t <= s <= u
    ensures Available(b, u) <= Available(b, s) + Earned(u - s, b.rate)
  {
    RefillComposes(b, s, u);
  }

  lemma RefillAgain(b: Bucket, now: real)
    requires b.Limited() && b.t == now && b.tokens <= b.capacity as real
    ensures Refill(b, now) == b
  {
    EarnedIsProduct(0.0, b.rate);
    assert now - b.t == 0.0;
  }

  /** Bytes the step lets out of the bucket of session `i`. */
  ghost function PaidBy(sys: System, step: Delivery.Step, i: nat): nat
    requires Delivery.Enabled(sys, step)
  {
    if step.Local? && step.i == i && step.act.Pay? && PayFor(sys.sessions[i], step.act.now, step.act.next).phase.Paid?
    then |sys.sessions[i].phase.chunk| else 0
  }

  ghost function PaidBytes(sys: System, steps: seq<Delivery.Step>, i: nat): nat
    requires Delivery.IsRun(sys, steps)
    decreases |steps|
  {
    if steps == [] then 0 else PaidBy(sys, steps[0], i) + PaidBytes(Apply(sys, steps[0]), steps[1..], i)
  }

  /** The session has a bucket in use, last refilled in the past. */
  ghost predicate Metered(s: Session, clock: real)
  {
    s.bucket.Some? && s.bucket.value.Limited() && s.bucket.value.Valid() && s.bucket.value.t <= clock
  }

  /** `consume` takes exactly what it lets out. */
  lemma ConsumeTakes(b: Bucket, n: nat, now: real)
    requires b.Limited() && b.Valid() && b.t <= now
    ensures var (c, ok) := ConsumeAt(b, n, now);
      && c.Limited() && c.Valid() && c.t == now && c.rate == b.rate && c.capacity == b.capacity
      && (if ok then n else 0) as real + Available(c, now) == Available(b, now)
  {
    var c := Refill(b, now);
    EarnedGrows(now - b.t, b.rate);
    RefillAgain(c, now);
    if c.tokens >= n as real {
      RefillAgain(c.(tokens := c.tokens - n as real), now);
    }
  }

  /** Asking how long to wait takes nothing. */
  lemma AskTakesNothing(c: Bucket, now: real)
    requires c.Limited() && c.Valid() && c.t <= now
    ensures var d := AskAt(c, now);
      d.Limited() && d.Valid() && d.t == now && d.rate == c.rate && Available(d, now) == Available(c, now)
  {
    EarnedGrows(now - c.t, c.rate);
    RefillAgain(Refill(c, now), now);
  }

  /** What one turn of the wait loop lets out is paid for by what there was and what accrued meanwhile. */
  lemma PayTakes(s: Session, clock: real, now: real, next: real)
    requires s.phase.Holding? && Metered(s, clock) && clock <= now <= next
    ensures var t := PayFor(s, now, next);
      && Metered(t, next) && t.bucket.value.rate == s.bucket.value.rate
      && (if t.phase.Paid? then |s.phase.chunk| else 0) as real + Available(t.bucket.value, next) <=
         Available(s.bucket.value, clock) + Earned(next - clock, s.bucket.value.rate)
  {
    var b, n := s.bucket.value, |s.phase.chunk|;
    var c := ConsumeAt(b, n, now).0;
    AvailableLater(b, clock, now);
    ConsumeTakes(b, n, now);
    AvailableLater(c, now, next);
    AskTakesNothing(c, next);
    EarnedAdds(now - clock, next - now, b.rate);
    assert (now - clock) + (next - now) == next - clock;
  }

  lemma BucketUntouched(s: Session, a: Act, clock: real)
    requires Can(s, a, clock) && !a.Pay?
    ensures Perform(s, a, clock).bucket == s.bucket
  {
  }

  lemma BucketSame(sys: System, step: Delivery.Step, i: nat)
    requires Delivery.Enabled(sys, step) && i < |sys.sessions|
    requires !(step.Local? && step.i == i && step.act.Pay?)
    ensures i < |Apply(sys, step).sessions| && Apply(sys, step).sessions[i].bucket == sys.sessions[i].bucket
  {
    if step.Local? && step.i == i {
      BucketUntouched(sys.sessions[i], step.act, sys.clock);
    }
  }

  lemma BucketStep(sys: System, step: Delivery.Step, i: nat)
    requires Delivery.Enabled(sys, step) && i < |sys.sessions| && Metered(sys.sessions[i], sys.clock)
    ensures var next := Apply(sys, step);
      var b := sys.sessions[i].bucket.value;
      && i < |next.sessions|
      && Metered(next.sessions[i], next.clock) && next.sessions[i].bucket.value.rate == b.rate
      && PaidBy(sys, step, i) as real + Available(next.sessions[i].bucket.value, next.clock) <=
         Available(b, sys.clock) + Earned(next.clock - sys.clock, b.rate)
  {
    var s, next := sys.sessions[i], Apply(sys, step);
    SessionStays(sys, step, i);
    if step.Local? && step.i == i && step.act.Pay? {
      PayTakes(s, sys.clock, step.act.now, step.act.next);
    } else {
      BucketSame(sys, step, i);
      AvailableLater(s.bucket.value, sys.clock, next.clock);
    }
  }

  lemma EarnedBetween(s: real, t: real, u: real, rate: nat)
    ensures Earned(u - s, rate) == Earned(t - s, rate) + Earned(u - t, rate)
  {
    EarnedAdds(t - s, u - t, rate);
    assert (t - s) + (u - t) == u - s;
  }

  lemma NothingPaid(s: Session, clock: real)
    requires Metered(s, clock)
    ensures 0.0 <= Available(s.bucket.value, clock) + Earned(clock - clock, s.bucket.value.rate)
  {
    var b := s.bucket.value;
    EarnedGrows(clock - b.t, b.rate);
    EarnedIsProduct(0.0, b.rate);
  }

  lemma {:induction false} PaidWithinBudget(sys: System, steps: seq<Delivery.Step>, i: nat)
    requires Delivery.IsRun(sys, steps) && i < |sys.sessions| && Metered(sys.sessions[i], sys.clock)
    ensures var b, end := sys.sessions[i].bucket.value, Delivery.After(sys, steps);
      PaidBytes(sys, steps, i) as real <= Available(b, sys.clock) + Earned(end.clock - sys.clock, b.rate)
    decreases |steps|
  {
    var b := sys.sessions[i].bucket.value;
    if steps == [] {
      NothingPaid(sys.sessions[i], sys.clock);
    } else {
      var next, end := Apply(sys, steps[0]), Delivery.After(sys, steps);
      BucketStep(sys, steps[0], i);
      PaidWithinBudget(next, steps[1..], i);
      EarnedBetween(sys.clock, next.clock, end.clock, b.rate);
    }
  }

  lemma ReachedMetered(sys: System, i: nat)
    requires Ok(sys) && i < |sys.sessions| && sys.sessions[i].bucket.Some?
    ensures var b := sys.sessions[i].bucket.value;
      Metered(sys.sessions[i], sys.clock) && b.capacity == AdmissionCapacity(b.rate)
  {
    assert SessionOk(sys.sessions[i], sys.published, sys.clock);
  }

  lemma PaidAccrues(before: seq<Delivery.Step>, sys: System, steps: seq<Delivery.Step>, i: nat, b: Bucket,
                    elapsed: real)
    requires Delivery.IsRun(EMPTY, before) && sys == Delivery.After(EMPTY, before) && Delivery.IsRun(sys, steps)
    requires i < |sys.sessions| && sys.sessions[i].bucket == Some(b)
    requires elapsed == Delivery.After(sys, steps).clock - sys.clock
    ensures b.rate > 0
    ensures WithinEarned(PaidBytes(sys, steps, i), AdmissionCapacity(b.rate), b.rate, elapsed)
  {
    assert Metered(sys.sessions[i], sys.clock) && b.capacity == AdmissionCapacity(b.rate) by {
      Delivery.RunKeepsOk(EMPTY, before);
      ReachedMetered(sys, i);
    }
    PaidWithinBudget(sys, steps, i);
  }

  /**
   * From any reachable state on: what a send loop gets past its bucket is at most the capacity, which is two
   * seconds of the rate, plus rate times the time that goes by.
   */
  lemma RateHolds(before: seq<Delivery.Step>, sys: System, steps: seq<Delivery.Step>, i: nat, b: Bucket, elapsed: real)
    requires Delivery.IsRun(EMPTY, before) && sys == Delivery.After(EMPTY, before) && Delivery.IsRun(sys, steps)
    requires i < |sys.sessions| && sys.sessions[i].bucket == Some(b)
    requires elapsed == Delivery.After(sys, steps).clock - sys.clock
    ensures b.rate > 0
    ensures WithinRate(PaidBytes(sys, steps, i), AdmissionCapacity(b.rate), b.rate, elapsed)
  {
    PaidAccrues(before, sys, steps, i, b, elapsed);
    EarnedIffRate(PaidBytes(sys, steps, i), AdmissionCapacity(b.rate), b.rate, elapsed);
  }

  // ----- what is written -----

  function PaidHeld(s: Session): nat
  {
    if s.phase.Paid? then |s.phase.chunk| else 0
  }

  lemma SentAct(s: Session, a: Act, clock: real)
    requires Can(s, a, clock)
    ensures s.sent <= Perform(s, a, clock).sent
    ensures var t := Perform(s, a, clock);
      t.sent + PaidHeld(t) <= s.sent + PaidHeld(s) + if a.Pay? && t.phase.Paid? then |s.phase.chunk| else 0
  {
  }

  lemma SentStep(sys: System, step: Delivery.Step, i: nat)
    requires Delivery.Enabled(sys, step) && i < |sys.sessions|
    ensures var next := Apply(sys, step);
      && i < |next.sessions| && sys.sessions[i].sent <= next.sessions[i].sent
      && next.sessions[i].sent + PaidHeld(next.sessions[i]) <=
         sys.sessions[i].sent + PaidHeld(sys.sessions[i]) + PaidBy(sys, step, i)
  {
    SessionStays(sys, step, i);
    if step.Local? && step.i == i {
      SentAct(sys.sessions[i], step.act, sys.clock);
    }
  }

  /** What is written in a run left the bucket in that run, but for one chunk that had left it before. */
  lemma {:induction false} SentWasPaid(sys: System, steps: seq<Delivery.Step>, i: nat)
    requires Delivery.IsRun(sys, steps) && i < |sys.sessions|
    ensures i < |Delivery.After(sys, steps).sessions|
    ensures sys.sessions[i].sent <= Delivery.After(sys, steps).sessions[i].sent <=
      sys.sessions[i].sent + PaidHeld(sys.sessions[i]) + PaidBytes(sys, steps, i)
    decreases |steps|
  {
    if steps != [] {
      SentStep(sys, steps[0], i);
      SentWasPaid(Apply(sys, steps[0]), steps[1..], i);
    }
  }

  /** So what is written from any reachable state on is bounded by the rate too, up to one chunk. */
  lemma WriteRateHolds(before: seq<Delivery.Step>, sys: System, steps: seq<Delivery.Step>, i: nat, b: Bucket,
                       elapsed: real)
    requires Delivery.IsRun(EMPTY, before) && sys == Delivery.After(EMPTY, before) && Delivery.IsRun(sys, steps)
    requires i < |sys.sessions| && sys.sessions[i].bucket == Some(b)
    requires elapsed == Delivery.After(sys, steps).clock - sys.clock
    ensures i < |Delivery.After(sys, steps).sessions| && b.rate > 0
    ensures sys.sessions[i].sent <= Delivery.After(sys, steps).sessions[i].sent
    ensures WithinRate(Delivery.After(sys, steps).sessions[i].sent - sys.sessions[i].sent,
                       CHUNK_LIMIT + AdmissionCapacity(b.rate), b.rate, elapsed)
  {
    RateHolds(before, sys, steps, i, b, elapsed);
    SentWasPaid(sys, steps, i);
    assert PaidHeld(sys.sessions[i]) <= CHUNK_LIMIT by {
      Delivery.RunKeepsOk(EMPTY, before);
      HeldWithinLimit(sys, i);
    }
    MoreCapacity(PaidBytes(sys, steps, i), AdmissionCapacity(b.rate), b.rate, elapsed,
                 Delivery.After(sys, steps).sessions[i].sent - sys.sessions[i].sent, CHUNK_LIMIT);
  }

  lemma MoreCapacity(used: nat, capacity: int, rate: int, elapsed: real, more: nat, extra: nat)
    requires WithinRate(used, capacity, rate, elapsed) && more <= used + extra
    ensures WithinRate(more, extra + capacity, rate, elapsed)
  {
  }

  lemma HeldWithinLimit(sys: System, i: nat)
    requires Ok(sys) && i < |sys.sessions|
    ensures PaidHeld(sys.sessions[i]) <= CHUNK_LIMIT
  {
    if sys.sessions[i].phase.Paid? {
      HeldChunkBounded(sys.sessions[i], sys.published, sys.clock);
    }
  }
}
