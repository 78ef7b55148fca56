/** Rate limiting of src/tiers.py over exact reals: the token bucket and the epoch gate. */
module Tiers {
  import opened ByteStrings

  // ----- the token bucket as a value -----

  datatype Bucket = Bucket(rate: int, capacity: int, tokens: real, t: real) {
    predicate Limited() { rate > 0 && capacity > 0 }

    ghost predicate Valid() { Limited() ==> 0.0 <= tokens <= capacity as real }
  }

  function Min(a: real, b: real): real { if a <= b then a else b }

  function Max(a: real, b: real): real { if a >= b then a else b }

  /** Tokens accrued in `dt` seconds, `rate` times `dt`: one `dt` for each token per second. */
  function Earned(dt: real, rate: nat): real
    decreases rate
  {
    if rate == 0 then 0.0 else dt + Earned(dt, rate - 1)
  }

  lemma {:induction false} EarnedIsProduct(dt: real, rate: nat)
    ensures Earned(dt, rate) == dt * rate as real
    decreases rate
  {
    if rate > 0 {
      EarnedIsProduct(dt, rate - 1);
      assert dt * rate as real == dt + dt * (rate - 1) as real;
    }
  }

  lemma {:induction false} EarnedAdds(x: real, y: real, rate: nat)
    ensures Earned(x + y, rate) == Earned(x, rate) + Earned(y, rate)
    decreases rate
  {
    if rate > 0 {
      EarnedAdds(x, y, rate - 1);
    }
  }

  lemma {:induction false} EarnedGrows(dt: real, rate: nat)
    requires dt >= 0.0
    ensures Earned(dt, rate) >= 0.0
    decreases rate
  {
    if rate > 0 {
      EarnedGrows(dt, rate - 1);
    }
  }

  function Refill(b: Bucket, now: real): Bucket
    requires b.Limited()
  {
    b.(tokens := Min(b.capacity as real, b.tokens + Earned(now - b.t, b.rate)), t := now)
  }

  function ConsumeAt(b: Bucket, n: nat, now: real): (Bucket, bool)
  {
    if !b.Limited() then (b, true)
    else
      var c := Refill(b, now);
      if c.tokens >= n as real then (c.(tokens := c.tokens - n as real), true) else (c, false)
  }

  /** `time_to_available` refills and takes nothing. */
  function AskAt(b: Bucket, now: real): Bucket
  {
    if b.Limited() then Refill(b, now) else b
  }

  /** The time the missing tokens take. */
  function WaitTime(b: Bucket, n: nat, now: real): real
  {
    if !b.Limited() then 0.0
    else
      var c := Refill(b, now);
      if c.tokens >= n as real then 0.0 else Max((n as real - c.tokens) / c.rate as real, 0.0)
  }

  function WaitAt(b: Bucket, n: nat, now: real): (Bucket, real)
  {
    (AskAt(b, now), WaitTime(b, n, now))
  }

  class TokenBucket {
    const rate: int
    const capacity: int
    var tokens: real
    var t: real

    function View(): Bucket
      reads this
    {
      Bucket(rate, capacity, tokens, t)
    }

    constructor (rateBps: int, capacity: int, now: real)
      ensures View() == Bucket(rateBps, capacity, capacity as real, now)
    {
      this.rate := rateBps;
      this.capacity := capacity;
      this.tokens := capacity as real;
      this.t := now;
    }

    method Consume(n: nat, now: real) returns (ok: bool)
      modifies this
      ensures View() == ConsumeAt(old(View()), n, now).0 && ok == ConsumeAt(old(View()), n, now).1
    {
      if rate <= 0 || capacity <= 0 {
        return true;
      }
      var dt := now - t;
      t := now;
      tokens := Min(capacity as real, tokens + dt * rate as real);
      ghost var c := Refill(old(View()), now);
      EarnedIsProduct(dt, rate);
      assert View() == c;
      if tokens >= n as real {
        tokens := tokens - n as real;
        assert View() == c.(tokens := c.tokens - n as real);
        return true;
      }
      return false;
    }

    method TimeToAvailable(n: nat, now: real) returns (wait: real)
      modifies this
      ensures View() == WaitAt(old(View()), n, now).0 && wait == WaitAt(old(View()), n, now).1
    {
      if rate <= 0 || capacity <= 0 {
        return 0.0;
      }
      var dt := now - t;
      t := now;
      tokens := Min(capacity as real, tokens + dt * rate as real);
      EarnedIsProduct(dt, rate);
      if tokens >= n as real {
        return 0.0;
      }
      var missing := n as real - tokens;
      return Max(missing / rate as real, 0.0);
    }
  }

  // ----- runs of a bucket -----

  datatype Op = Consume(n: nat, at: real) | Query(n: nat, at: real)

  /** The clock never runs backwards along the operations. */
  predicate Timely(from: real, ops: seq<Op>)
    decreases |ops|
  {
    ops == [] || (from <= ops[0].at && Timely(ops[0].at, ops[1..]))
  }

  function Do(b: Bucket, op: Op): Bucket
  {
    match op
    case Consume(n, at) => ConsumeAt(b, n, at).0
    case Query(_, at) => AskAt(b, at)
  }

  /** Bytes let through by one operation. */
  function Passed(b: Bucket, op: Op): nat
  {
    if op.Consume? && ConsumeAt(b, op.n, op.at).1 then op.n else 0
  }

  function Run(b: Bucket, ops: seq<Op>): Bucket
    decreases |ops|
  {
    if ops == [] then b else Run(Do(b, ops[0]), ops[1..])
  }

  function Used(b: Bucket, ops: seq<Op>): nat
    decreases |ops|
  {
    if ops == [] then 0 else Passed(b, ops[0]) + Used(Do(b, ops[0]), ops[1..])
  }

  /** The answers to the `consume` calls of a run, in order. */
  function Answers(b: Bucket, ops: seq<Op>): seq<bool>
    decreases |ops|
  {
    if ops == [] then []
    else (if ops[0].Consume? then [ConsumeAt(b, ops[0].n, ops[0].at).1] else []) + Answers(Do(b, ops[0]), ops[1..])
  }

  function OnlyConsumes(ops: seq<Op>): seq<Op>
  {
    if ops == [] then [] else (if ops[0].Consume? then [ops[0]] else []) + OnlyConsumes(ops[1..])
  }

  /** Refilling in two steps is refilling once. */
  lemma RefillComposes(b: Bucket, s: real, u: real)
    requires b.Limited() && b.Valid() && b.t <= s <= u
    ensures Refill(Refill(b, s), u) == Refill(b, u)
  {
    EarnedAdds(s - b.t, u - s, b.rate);
    assert (s - b.t) + (u - s) == u - b.t;
    EarnedGrows(s - b.t, b.rate);
    EarnedGrows(u - s, b.rate);
  }

  lemma DoKeepsValid(b: Bucket, op: Op)
    requires b.Valid() && (b.Limited() ==> b.t <= op.at)
    ensures Do(b, op).Valid() && Do(b, op).rate == b.rate && Do(b, op).capacity == b.capacity
    ensures b.Limited() ==> Do(b, op).t == op.at
  {
    if b.Limited() {
      EarnedGrows(op.at - b.t, b.rate);
    }
  }

  /** The token count stays between 0 and the capacity along every run. */
  lemma {:induction false} RunKeepsValid(b: Bucket, ops: seq<Op>)
    requires b.Valid() && Timely(b.t, ops)
    ensures Run(b, ops).Valid() && Run(b, ops).rate == b.rate && Run(b, ops).capacity == b.capacity
    decreases |ops|
  {
    if ops != [] && b.Limited() {
      DoKeepsValid(b, ops[0]);
      RunKeepsValid(Do(b, ops[0]), ops[1..]);
    } else if ops != [] {
      UnlimitedUnchanged(b, ops);
    }
  }

  lemma {:induction false} UnlimitedUnchanged(b: Bucket, ops: seq<Op>)
    requires !b.Limited()
    ensures Run(b, ops) == b
    decreases |ops|
  {
    if ops != [] {
      UnlimitedUnchanged(b, ops[1..]);
    }
  }

  /** A bucket without a rate or a capacity lets everything through, at once. */
  lemma {:induction false} UnlimitedPasses(b: Bucket, ops: seq<Op>, n: nat, now: real)
    requires !b.Limited()
    ensures ConsumeAt(Run(b, ops), n, now).1 && WaitTime(Run(b, ops), n, now) == 0.0
    ensures false !in Answers(b, ops)
    decreases |ops|
  {
    if ops != [] {
      UnlimitedPasses(b, ops[1..], n, now);
    }
  }

  /** What passes is paid for by the tokens there were and those that accrued. */
  lemma {:induction false} UsedWithinBudget(b: Bucket, ops: seq<Op>)
    requires b.Limited() && b.Valid() && Timely(b.t, ops) && ops != []
    ensures Used(b, ops) as real + Run(b, ops).tokens <= b.tokens + Earned(ops[|ops| - 1].at - b.t, b.rate)
    decreases |ops|
  {
    var op := ops[0];
    OneWithinBudget(b, op);
    DoKeepsValid(b, op);
    if |ops| > 1 {
      UsedWithinBudget(Do(b, op), ops[1..]);
      var last := ops[|ops| - 1].at;
      assert ops[1..][|ops| - 2].at == last;
      EarnedAdds(op.at - b.t, last - op.at, b.rate);
      assert (op.at - b.t) + (last - op.at) == last - b.t;
    } else {
      assert ops[1..] == [];
    }
  }

  lemma OneWithinBudget(b: Bucket, op: Op)
    requires b.Limited() && b.Valid() && b.t <= op.at
    ensures Passed(b, op) as real + Do(b, op).tokens <= b.tokens + Earned(op.at - b.t, b.rate)
  {
  }

  predicate WithinEarned(used: nat, capacity: int, rate: int, elapsed: real)
    requires rate > 0
  {
    used as real <= capacity as real + Earned(elapsed, rate)
  }

  /** At most the capacity plus the rate times the elapsed time. */
  predicate WithinRate(used: nat, capacity: int, rate: int, elapsed: real)
  {
    used as real <= capacity as real + elapsed * rate as real
  }

  lemma EarnedIffRate(used: nat, capacity: int, rate: int, elapsed: real)
    requires rate > 0
    ensures WithinEarned(used, capacity, rate, elapsed) <==> WithinRate(used, capacity, rate, elapsed)
  {
    EarnedIsProduct(elapsed, rate);
  }

  lemma WindowAtRate(c: Bucket, window: seq<Op>)
    requires c.Limited() && c.Valid() && Timely(c.t, window) && window != []
    ensures WithinRate(Used(c, window), c.capacity, c.rate, window[|window| - 1].at - window[0].at)
  {
    WindowFrom(c, window);
    EarnedIffRate(Used(c, window), c.capacity, c.rate, window[|window| - 1].at - window[0].at);
  }

  /**
   * In any window of any run, from its first to its last operation, at most the capacity plus the rate
   * times the length of the window passes.
   */
  lemma WindowBound(b: Bucket, before: seq<Op>, window: seq<Op>)
    requires b.Limited() && b.Valid() && Timely(b.t, before + window) && window != []
    ensures WithinRate(Used(Run(b, before), window), b.capacity, b.rate, window[|window| - 1].at - window[0].at)
  {
    TimelySplit(b, before, window);
    RunKeepsValid(b, before);
    WindowAtRate(Run(b, before), window);
  }

  lemma WindowFrom(c: Bucket, window: seq<Op>)
    requires c.Limited() && c.Valid() && Timely(c.t, window) && window != []
    ensures Used(c, window) as real <= c.capacity as real + Earned(window[|window| - 1].at - window[0].at, c.rate)
  {
    TimelyFrom(c.t, window);
    RefillThenRun(c, window);
    RefillValid(c, window[0].at);
    WindowFromFull(Refill(c, window[0].at), window);
  }

  lemma RefillValid(c: Bucket, now: real)
    requires c.Limited() && c.Valid() && c.t <= now
    ensures Refill(c, now).Valid()
  {
    EarnedGrows(now - c.t, c.rate);
  }

  lemma WindowFromFull(d: Bucket, window: seq<Op>)
    requires d.Limited() && d.Valid() && Timely(d.t, window) && window != []
    ensures Used(d, window) as real <= d.capacity as real + Earned(window[|window| - 1].at - d.t, d.rate)
  {
    UsedWithinBudget(d, window);
    RunKeepsValid(d, window);
  }

  lemma TimelyFrom(from: real, ops: seq<Op>)
    requires ops != [] && Timely(from, ops)
    ensures from <= ops[0].at && Timely(ops[0].at, ops)
  {
  }

  lemma {:induction false} TimelySplit(b: Bucket, before: seq<Op>, window: seq<Op>)
    requires b.Limited() && b.Valid() && Timely(b.t, before + window)
    ensures Timely(b.t, before) && Timely(Run(b, before).t, window)
    decreases |before|
  {
    if before == [] {
      assert before + window == window;
    } else {
      assert (before + window)[1..] == before[1..] + window;
      DoKeepsValid(b, before[0]);
      TimelySplit(Do(b, before[0]), before[1..], window);
    }
  }

  lemma {:induction false} RunAppend(b: Bucket, first: seq<Op>, rest: seq<Op>)
    ensures Run(b, first + rest) == Run(Run(b, first), rest)
    ensures Used(b, first + rest) == Used(b, first) + Used(Run(b, first), rest)
    decreases |first|
  {
    if first == [] {
      assert first + rest == rest;
    } else {
      assert (first + rest)[1..] == first[1..] + rest;
      RunAppend(Do(b, first[0]), first[1..], rest);
    }
  }

  lemma {:induction false} TimelyJoin(b: Bucket, first: seq<Op>, rest: seq<Op>)
    requires b.Limited() && b.Valid() && Timely(b.t, first) && Timely(Run(b, first).t, rest)
    ensures Timely(b.t, first + rest)
    decreases |first|
  {
    if first == [] {
      assert first + rest == rest;
    } else {
      assert (first + rest)[1..] == first[1..] + rest;
      DoKeepsValid(b, first[0]);
      TimelyJoin(Do(b, first[0]), first[1..], rest);
    }
  }

  /** A bucket shows the time of its last operation. */
  lemma {:induction false} LastOpTime(b: Bucket, ops: seq<Op>)
    requires b.Limited() && b.Valid() && Timely(b.t, ops)
    ensures Run(b, ops).t == if ops == [] then b.t else ops[|ops| - 1].at
    decreases |ops|
  {
    if ops != [] {
      DoKeepsValid(b, ops[0]);
      LastOpTime(Do(b, ops[0]), ops[1..]);
    }
  }

  /** Refilling up to the first operation beforehand changes neither what passes nor the end state. */
  lemma RefillThenRun(b: Bucket, ops: seq<Op>)
    requires b.Limited() && b.Valid() && ops != [] && b.t <= ops[0].at
    ensures Used(Refill(b, ops[0].at), ops) == Used(b, ops) && Run(Refill(b, ops[0].at), ops) == Run(b, ops)
  {
    var d := Refill(b, ops[0].at);
    RefillComposes(b, ops[0].at, ops[0].at);
    assert Do(d, ops[0]) == Do(b, ops[0]);
    assert Passed(d, ops[0]) == Passed(b, ops[0]);
  }

  /** Extra `time_to_available` calls never change an answer of `consume`. */
  lemma QueriesChangeNothing(b: Bucket, ops: seq<Op>)
    requires b.Valid() && Timely(b.t, ops)
    ensures Answers(b, ops) == Answers(b, OnlyConsumes(ops))
  {
    if b.Limited() {
      RefillNow(b);
      QueriesChangeNothingFrom(b, b, ops);
    } else {
      UnlimitedAnswers(b, ops);
    }
  }

  lemma RefillNow(b: Bucket)
    requires b.Limited() && b.Valid()
    ensures Refill(b, b.t) == b
  {
    EarnedIsProduct(0.0, b.rate);
  }

  lemma {:induction false} UnlimitedAnswers(b: Bucket, ops: seq<Op>)
    requires !b.Limited()
    ensures Answers(b, ops) == Answers(b, OnlyConsumes(ops))
    decreases |ops|
  {
    if ops != [] {
      UnlimitedAnswers(b, ops[1..]);
      if ops[0].Consume? {
        assert OnlyConsumes(ops)[1..] == OnlyConsumes(ops[1..]);
      } else {
        assert OnlyConsumes(ops) == OnlyConsumes(ops[1..]);
        assert [] + Answers(b, ops[1..]) == Answers(b, ops[1..]);
      }
    }
  }

  /** `b` was asked about up to time `b.t`, `c` is the same bucket left alone. */
  lemma {:induction false} QueriesChangeNothingFrom(b: Bucket, c: Bucket, ops: seq<Op>)
    requires b.Limited() && b.Valid() && c.Limited() && c.Valid() && c.t <= b.t && b == Refill(c, b.t)
    requires Timely(b.t, ops)
    ensures Answers(b, ops) == Answers(c, OnlyConsumes(ops))
    decreases |ops|
  {
    if ops != [] {
      var op, rest := ops[0], ops[1..];
      RefillComposes(c, b.t, op.at);
      DoKeepsValid(b, op);
      if op.Consume? {
        assert Do(b, op) == Do(c, op);
        assert OnlyConsumes(ops)[1..] == OnlyConsumes(rest);
        RefillNow(Do(b, op));
        QueriesChangeNothingFrom(Do(b, op), Do(b, op), rest);
      } else {
        assert OnlyConsumes(ops) == OnlyConsumes(rest);
        QueriesChangeNothingFrom(Do(b, op), c, rest);
        assert [] + Answers(Do(b, op), rest) == Answers(Do(b, op), rest);
      }
    }
  }

  // ----- exactly what passes -----

  /** Bytes that pass from operation `k` on. */
  function UsedFrom(b: Bucket, ops: seq<Op>, k: nat): nat
    requires k <= |ops|
  {
    Used(Run(b, ops[..k]), ops[k..])
  }

  /** With `n` more bytes at `now`, the window that starts at operation `k` is within its budget. */
  ghost predicate WindowOk(b: Bucket, ops: seq<Op>, k: nat, n: nat, now: real)
    requires b.rate > 0 && k < |ops|
  {
    WithinEarned(UsedFrom(b, ops, k) + n, b.capacity, b.rate, now - ops[k].at)
  }

  ghost predicate WindowsWithinEarned(b: Bucket, ops: seq<Op>, n: nat, now: real)
    requires b.rate > 0
  {
    forall k :: 0 <= k < |ops| ==> WindowOk(b, ops, k, n, now)
  }

  ghost predicate Conforms(b: Bucket, ops: seq<Op>, n: nat, now: real)
    requires b.rate > 0
  {
    && n <= b.capacity
    && (Used(b, ops) + n) as real <= b.tokens + Earned(now - b.t, b.rate)
    && WindowsWithinEarned(b, ops, n, now)
  }

  lemma UsedFromNext(b: Bucket, ops: seq<Op>, k: nat)
    requires k < |ops|
    ensures UsedFrom(b, ops, k + 1) == UsedFrom(Do(b, ops[0]), ops[1..], k)
  {
    assert ops[..k + 1][1..] == ops[1..][..k];
    assert ops[k + 1..] == ops[1..][k..];
  }

  lemma UsedFromStart(b: Bucket, ops: seq<Op>)
    ensures UsedFrom(b, ops, 0) == Used(b, ops)
  {
    assert ops[0..] == ops;
  }

  lemma WindowOkNext(b: Bucket, ops: seq<Op>, k: nat, n: nat, now: real, c: Bucket)
    requires b.rate > 0 && k + 1 < |ops| && c == Do(b, ops[0]) && c.rate == b.rate && c.capacity == b.capacity
    ensures WindowOk(b, ops, k + 1, n, now) <==> WindowOk(c, ops[1..], k, n, now)
  {
    UsedFromNext(b, ops, k);
  }

  lemma WindowsNext(b: Bucket, ops: seq<Op>, n: nat, now: real, c: Bucket)
    requires b.rate > 0 && ops != [] && c == Do(b, ops[0]) && c.rate == b.rate && c.capacity == b.capacity
    ensures WindowsWithinEarned(b, ops, n, now) <==>
      WindowOk(b, ops, 0, n, now) && WindowsWithinEarned(c, ops[1..], n, now)
  {
    forall k | 0 <= k < |ops| - 1
      ensures WindowOk(b, ops, k + 1, n, now) <==> WindowOk(c, ops[1..], k, n, now)
    {
      WindowOkNext(b, ops, k, n, now, c);
    }
    if WindowsWithinEarned(c, ops[1..], n, now) && WindowOk(b, ops, 0, n, now) {
      forall k | 0 <= k < |ops|
        ensures WindowOk(b, ops, k, n, now)
      {
        if k > 0 {
          assert WindowOk(c, ops[1..], k - 1, n, now);
          assert WindowOk(b, ops, k - 1 + 1, n, now);
        }
      }
    }
  }

  /** What is left after one operation, and accrues later, suffices exactly if it does within both budgets. */
  lemma TokensNext(b: Bucket, op: Op, later: nat, now: real)
    requires b.Limited() && b.Valid() && b.t <= op.at <= now
    ensures later as real <= Do(b, op).tokens + Earned(now - op.at, b.rate) <==>
      && (Passed(b, op) + later) as real <= b.capacity as real + Earned(now - op.at, b.rate)
      && (Passed(b, op) + later) as real <= b.tokens + Earned(now - b.t, b.rate)
  {
    EarnedAdds(op.at - b.t, now - op.at, b.rate);
    assert (op.at - b.t) + (now - op.at) == now - b.t;
  }

  lemma ConformsNext(b: Bucket, ops: seq<Op>, n: nat, now: real)
    requires b.Limited() && b.Valid() && ops != [] && b.t <= ops[0].at <= now
    ensures Conforms(b, ops, n, now) <==> Conforms(Do(b, ops[0]), ops[1..], n, now)
  {
    var c := Do(b, ops[0]);
    DoKeepsValid(b, ops[0]);
    WindowsNext(b, ops, n, now, c);
    UsedFromStart(b, ops);
    TokensNext(b, ops[0], Used(c, ops[1..]) + n, now);
  }

  lemma {:induction false} PassesIffConforms(b: Bucket, ops: seq<Op>, n: nat, now: real)
    requires b.Limited() && b.Valid() && Timely(b.t, ops) && now >= (if ops == [] then b.t else ops[|ops| - 1].at)
    ensures ConsumeAt(Run(b, ops), n, now).1 <==> Conforms(b, ops, n, now)
    decreases |ops|
  {
    if ops != [] {
      DoKeepsValid(b, ops[0]);
      TimelyLast(b.t, ops);
      PassesIffConforms(Do(b, ops[0]), ops[1..], n, now);
      ConformsNext(b, ops, n, now);
    }
  }

  lemma {:induction false} TimelyLast(from: real, ops: seq<Op>)
    requires ops != [] && Timely(from, ops)
    ensures from <= ops[0].at <= ops[|ops| - 1].at
    decreases |ops|
  {
    if |ops| > 1 {
      TimelyLast(ops[0].at, ops[1..]);
    }
  }

  /** At most the tokens there were plus the rate times the elapsed time. */
  predicate WithinTokens(used: nat, tokens: real, rate: int, elapsed: real)
  {
    used as real <= tokens + elapsed * rate as real
  }

  lemma TokensIffRate(used: nat, tokens: real, rate: int, elapsed: real)
    requires rate > 0
    ensures used as real <= tokens + Earned(elapsed, rate) <==> WithinTokens(used, tokens, rate, elapsed)
  {
    EarnedIsProduct(elapsed, rate);
  }

  ghost predicate WindowsWithinRate(b: Bucket, ops: seq<Op>, n: nat, now: real)
  {
    forall k :: 0 <= k < |ops| ==> WithinRate(UsedFrom(b, ops, k) + n, b.capacity, b.rate, now - ops[k].at)
  }

  lemma WindowsAtRate(b: Bucket, ops: seq<Op>, n: nat, now: real)
    requires b.rate > 0
    ensures WindowsWithinEarned(b, ops, n, now) <==> WindowsWithinRate(b, ops, n, now)
  {
    forall k | 0 <= k < |ops|
      ensures WindowOk(b, ops, k, n, now) <==>
        WithinRate(UsedFrom(b, ops, k) + n, b.capacity, b.rate, now - ops[k].at)
    {
      EarnedIffRate(UsedFrom(b, ops, k) + n, b.capacity, b.rate, now - ops[k].at);
    }
  }

  /**
   * `n` is at most the capacity; all that passed and `n` are at most the initial tokens plus rate times time; and
   * what passed since any operation and `n` are at most the capacity plus rate times time.
   */
  ghost predicate WithinAllRates(b: Bucket, ops: seq<Op>, n: nat, now: real)
  {
    && n <= b.capacity
    && WithinTokens(Used(b, ops) + n, b.tokens, b.rate, now - b.t)
    && WindowsWithinRate(b, ops, n, now)
  }

  /** After any run, `consume(n)` succeeds exactly when that keeps every window within its rate. */
  lemma PassesIffWithinRate(b: Bucket, ops: seq<Op>, n: nat, now: real)
    requires b.Limited() && b.Valid() && Timely(b.t, ops) && Run(b, ops).t <= now
    ensures ConsumeAt(Run(b, ops), n, now).1 <==> WithinAllRates(b, ops, n, now)
  {
    LastOpTime(b, ops);
    PassesIffConforms(b, ops, n, now);
    TokensIffRate(Used(b, ops) + n, b.tokens, b.rate, now - b.t);
    WindowsAtRate(b, ops, n, now);
  }

  // ----- progress of the wait loop -----

  lemma Pays(missing: real, rate: nat, elapsed: real)
    requires rate > 0 && missing >= 0.0 && elapsed >= Max(missing / rate as real, 0.0)
    ensures Earned(elapsed, rate) >= missing
  {
    var q := missing / rate as real;
    EarnedIsProduct(q, rate);
    EarnedAdds(q, elapsed - q, rate);
    assert q + (elapsed - q) == elapsed;
    EarnedGrows(elapsed - q, rate);
  }

  /** Whatever the amount, rate times the wait is what is missing. */
  lemma WaitPaysMissing(b: Bucket, n: nat, now: real)
    requires b.Limited()
    ensures WaitTime(b, n, now) * b.rate as real == Max(n as real - Refill(b, now).tokens, 0.0)
  {
    var missing := n as real - Refill(b, now).tokens;
    assert missing / b.rate as real * b.rate as real == missing;
  }

  /** After a failed `consume(n)` and the wait it asks for, `consume(n)` succeeds if `n` fits at all. */
  lemma WaitSuffices(b: Bucket, n: nat, now: real, later: real)
    requires b.Limited() && b.Valid() && b.t <= now && n <= b.capacity
    requires later >= now + WaitAt(b, n, now).1
    ensures ConsumeAt(WaitAt(b, n, now).0, n, later).1
  {
    var c := Refill(b, now);
    EarnedGrows(now - b.t, b.rate);
    if c.tokens < n as real {
      Pays(n as real - c.tokens, b.rate, later - now);
    } else {
      EarnedGrows(later - now, b.rate);
    }
  }

  /** And no shorter wait does. */
  lemma WaitIsLeast(b: Bucket, n: nat, now: real, later: real)
    requires b.Limited() && b.Valid() && b.t <= now <= later < now + WaitAt(b, n, now).1
    ensures !ConsumeAt(WaitAt(b, n, now).0, n, later).1
  {
    var c := Refill(b, now);
    if c.tokens < n as real {
      Lacks(n as real - c.tokens, b.rate, later - now);
    }
  }

  lemma Lacks(missing: real, rate: nat, elapsed: real)
    requires rate > 0 && 0.0 <= elapsed < Max(missing / rate as real, 0.0)
    ensures Earned(elapsed, rate) < missing
  {
    var q := missing / rate as real;
    EarnedIsProduct(q, rate);
    assert Earned(q, rate) == missing;
    EarnedAdds(elapsed, q - elapsed, rate);
    assert elapsed + (q - elapsed) == q;
    EarnedPositive(q - elapsed, rate);
  }

  lemma {:induction false} EarnedPositive(dt: real, rate: nat)
    requires dt > 0.0 && rate > 0
    ensures Earned(dt, rate) > 0.0
    decreases rate
  {
    if rate > 1 {
      EarnedPositive(dt, rate - 1);
    }
  }

  /** A chunk can ever leave the wait loop exactly when it fits in the bucket. */
  lemma PassesEventuallyIffFits(b: Bucket, n: nat)
    requires b.Limited() && b.Valid()
    ensures (exists later :: later >= b.t && ConsumeAt(b, n, later).1) <==> n <= b.capacity
  {
    if n <= b.capacity {
      var w := WaitAt(b, n, b.t);
      var later := b.t + w.1;
      WaitSuffices(b, n, b.t, later);
      RefillComposes(b, b.t, later);
      assert ConsumeAt(b, n, later).1;
    }
  }

  /** The bucket an admitted rover gets: room for two seconds of its rate, at least one token. */
  function AdmissionCapacity(rate: int): int
  {
    if rate * 2 >= 1 then rate * 2 else 1
  }

  // ----- the epoch gate -----

  lemma Distribute(x: real, y: real, r: real)
    ensures (x + y) * r == x * r + y * r
  {
  }

  lemma GrowsWithTime(d: real, r: real)
    requires d >= 0.0 && r >= 0.0
    ensures d * r >= 0.0
  {
  }

  function EpochGateOk(last: Option<real>, epm: int, now: real): bool
  {
    if epm <= 0 then true
    else
      match last
      case None => true
      case Some(ts) => now - ts >= 60.0 / epm as real
  }

  /** The times at which a gated rover is offered data, when data comes at the given times. */
  function Offers(last: Option<real>, epm: int, times: seq<real>): seq<real>
    decreases |times|
  {
    if times == [] then []
    else if EpochGateOk(last, epm, times[0]) then
      [times[0]] + Offers(if epm > 0 then Some(times[0]) else last, epm, times[1..])
    else Offers(last, epm, times[1..])
  }

  /** The last offer, or what came before the first. */
  function Latest(last: Option<real>, offers: seq<real>): Option<real>
  {
    if offers == [] then last else Some(offers[|offers| - 1])
  }

  lemma {:induction false} OffersAppend(last: Option<real>, epm: int, a: seq<real>, b: seq<real>)
    requires epm > 0
    ensures Offers(last, epm, a + b) == Offers(last, epm, a) + Offers(Latest(last, Offers(last, epm, a)), epm, b)
    decreases |a|
  {
    if a == [] {
      assert a + b == b;
    } else {
      assert (a + b)[0] == a[0] && (a + b)[1..] == a[1..] + b;
      OffersAppend(if EpochGateOk(last, epm, a[0]) then Some(a[0]) else last, epm, a[1..], b);
    }
  }

  /**
   * Whatever came before: data at `t` is kept back exactly when it comes less than a period after the last offer,
   * or after the one that preceded them all.
   */
  lemma KeptBackIffEarly(last: Option<real>, epm: int, times: seq<real>, t: real)
    requires epm > 0
    ensures var o := Offers(last, epm, times); var latest := Latest(last, o);
      Offers(last, epm, times + [t]) == o + if latest.Some? && t - latest.value < 60.0 / epm as real then [] else [t]
  {
    OffersAppend(last, epm, times, [t]);
    assert [t][1..] == [];
  }

  ghost predicate Spaced(times: seq<real>, period: real)
  {
    forall i :: 0 <= i < |times| - 1 ==> times[i + 1] - times[i] >= period
  }

  lemma {:induction false} OffersSpaced(last: Option<real>, epm: int, times: seq<real>)
    requires epm > 0
    ensures var o := Offers(last, epm, times); var period := 60.0 / epm as real;
      Spaced(o, period) && (o != [] && last.Some? ==> o[0] - last.value >= period)
    decreases |times|
  {
    if times != [] {
      if EpochGateOk(last, epm, times[0]) {
        OffersSpaced(Some(times[0]), epm, times[1..]);
      } else {
        OffersSpaced(last, epm, times[1..]);
      }
    }
  }

  /** Data spaced by at least a period is offered completely. */
  lemma {:induction false} SpacedAllOffered(last: Option<real>, epm: int, times: seq<real>)
    requires epm > 0 && Spaced(times, 60.0 / epm as real)
    requires times != [] && last.Some? ==> times[0] - last.value >= 60.0 / epm as real
    ensures Offers(last, epm, times) == times
    decreases |times|
  {
    if times != [] {
      var rest := times[1..];
      assert forall i :: 0 <= i < |rest| ==> rest[i] == times[i + 1];
      SpacedAllOffered(Some(times[0]), epm, rest);
      assert times == [times[0]] + rest;
    }
  }

  /** Without a gate all data is offered. */
  lemma {:induction false} UngatedAllOffered(last: Option<real>, epm: int, times: seq<real>)
    requires epm <= 0
    ensures Offers(last, epm, times) == times
    decreases |times|
  {
    if times != [] {
      UngatedAllOffered(last, epm, times[1..]);
      assert times == [times[0]] + times[1..];
    }
  }

  lemma {:induction false} SpacedSpan(times: seq<real>, period: real, i: nat, j: nat)
    requires Spaced(times, period) && i <= j < |times|
    ensures times[j] - times[i] >= (j - i) as real * period
    decreases j
  {
    if i < j {
      SpacedSpan(times, period, i, j - 1);
      assert times[j - 1 + 1] - times[j - 1] >= period;
      Distribute((j - 1 - i) as real, 1.0, period);
    }
  }

  /** Times at least a period apart: a window of length `T` holds at most floor(T * epm / 60) + 1 of them. */
  lemma SpacedWindow(o: seq<real>, epm: int, i: nat, j: nat, T: real)
    requires epm > 0 && Spaced(o, 60.0 / epm as real) && i <= j < |o| && o[j] - o[i] <= T
    ensures j - i + 1 <= (T * epm as real / 60.0).Floor + 1
  {
    var k, e := (j - i) as real, epm as real;
    SpacedSpan(o, 60.0 / e, i, j);
    assert k * (60.0 / e) <= T;
    GrowsWithTime(T - k * (60.0 / e), e / 60.0);
    Distribute(T - k * (60.0 / e), k * (60.0 / e), e / 60.0);
    Cancels(k, e);
    assert T * (e / 60.0) == T * e / 60.0;
  }

  /** In any window of length `T` a rover gated to `epm` is offered at most floor(T * epm / 60) + 1 chunks. */
  lemma GateWindow(last: Option<real>, epm: int, times: seq<real>, i: nat, j: nat, T: real)
    requires epm > 0
    requires var o := Offers(last, epm, times); i <= j < |o| && o[j] - o[i] <= T
    ensures j - i + 1 <= (T * epm as real / 60.0).Floor + 1
  {
    OffersSpaced(last, epm, times);
    SpacedWindow(Offers(last, epm, times), epm, i, j, T);
  }

  lemma Cancels(k: real, e: real)
    requires e > 0.0
    ensures k * (60.0 / e) * (e / 60.0) == k
  {
    assert (60.0 / e) * (e / 60.0) == 1.0;
    assert k * (60.0 / e) * (e / 60.0) == k * ((60.0 / e) * (e / 60.0));
  }
}
