/**
 * The bounded chunk queue of src/caster.py. Event-loop steps are atomic: the condition's lock is never
 * held across a suspension, and each notification runs later as a task of its own.
 */
module ByteQueues {
  import opened ByteStrings

  /**
   * `parked` getters wait on the condition; `woken` ones were notified and have yet to run;
   * `notifies` and `broadcasts` count the notification tasks that have yet to run.
   */
  datatype Queue = Queue(max: nat, buf: seq<Bytes>, bytes: int, closed: bool,
                         parked: nat, woken: nat, notifies: nat, broadcasts: nat)

  datatype PutResult = Stored | Ignored | Full

  datatype GetResult = Chunk(b: Bytes) | Finished | Waiting

  function NewQueue(maxBytes: int): Queue
  {
    Queue(if maxBytes > 0 then maxBytes else 0, [], 0, false, 0, 0, 0, 0)
  }

  function Put(q: Queue, b: Bytes): (Queue, PutResult)
  {
    if q.closed then (q, Full)
    else if q.max == 0 then (q, Ignored)
    else if |b| > q.max || q.bytes + |b| > q.max then (q, Full)
    else (q.(buf := q.buf + [b], bytes := q.bytes + |b|, notifies := q.notifies + 1), Stored)
  }

  function Close(q: Queue): Queue
  {
    q.(closed := true, broadcasts := q.broadcasts + 1)
  }

  /** What a getter does each time it looks at the queue. */
  function Look(q: Queue): (Queue, GetResult)
  {
    if q.buf == [] && !q.closed then (q.(parked := q.parked + 1), Waiting)
    else if q.buf == [] then (q, Finished)
    else (q.(buf := q.buf[1..], bytes := q.bytes - |q.buf[0]|), Chunk(q.buf[0]))
  }

  // ----- runs -----

  datatype Step = PutStep(b: Bytes) | CloseStep | GetStep | ResumeStep | NotifyStep | BroadcastStep

  predicate Enabled(q: Queue, s: Step)
  {
    match s
    case ResumeStep => q.woken > 0
    case NotifyStep => q.notifies > 0
    case BroadcastStep => q.broadcasts > 0
    case _ => true
  }

  function Next(q: Queue, s: Step): Queue
    requires Enabled(q, s)
  {
    match s
    case PutStep(b) => Put(q, b).0
    case CloseStep => Close(q)
    case GetStep => Look(q).0
    case ResumeStep => Look(q.(woken := q.woken - 1)).0
    case NotifyStep =>
      if q.parked > 0 then q.(notifies := q.notifies - 1, parked := q.parked - 1, woken := q.woken + 1)
      else q.(notifies := q.notifies - 1)
    case BroadcastStep => q.(broadcasts := q.broadcasts - 1, parked := 0, woken := q.woken + q.parked)
  }

  ghost predicate IsRun(q: Queue, steps: seq<Step>)
    decreases |steps|
  {
    steps == [] || (Enabled(q, steps[0]) && IsRun(Next(q, steps[0]), steps[1..]))
  }

  ghost function After(q: Queue, steps: seq<Step>): Queue
    requires IsRun(q, steps)
    decreases |steps|
  {
    if steps == [] then q else After(Next(q, steps[0]), steps[1..])
  }

  /**
   * The byte count is exact and within the bound; while a getter is parked, every buffered chunk has
   * a notification under way, and a closed queue has a broadcast under way.
   */
  ghost predicate Valid(q: Queue)
  {
    && q.bytes == SumLen(q.buf)
    && (if q.max == 0 then q.buf == [] else q.bytes <= q.max)
    && (q.parked > 0 ==> |q.buf| <= q.notifies + q.woken)
    && (q.parked > 0 && q.closed ==> q.broadcasts > 0)
    && (q.broadcasts > 0 ==> q.closed)
  }

  lemma SumLenSnoc(buf: seq<Bytes>, b: Bytes)
    ensures SumLen(buf + [b]) == SumLen(buf) + |b|
  {
    SumLenAppend(buf, [b]);
    assert [b][1..] == [];
  }

  lemma NextKeepsValid(q: Queue, s: Step)
    requires Valid(q) && Enabled(q, s)
    ensures Valid(Next(q, s)) && Next(q, s).max == q.max
  {
    if s.PutStep? {
      SumLenSnoc(q.buf, s.b);
    }
  }

  lemma {:induction false} RunKeepsValid(q: Queue, steps: seq<Step>)
    requires Valid(q) && IsRun(q, steps)
    ensures Valid(After(q, steps)) && After(q, steps).max == q.max
    decreases |steps|
  {
    if steps != [] {
      NextKeepsValid(q, steps[0]);
      RunKeepsValid(Next(q, steps[0]), steps[1..]);
    }
  }

  /** Steps the event loop takes by itself. */
  predicate Internal(s: Step) { s.ResumeStep? || s.NotifyStep? || s.BroadcastStep? }

  predicate Quiet(q: Queue) { q.woken == 0 && q.notifies == 0 && q.broadcasts == 0 }

  function Weight(q: Queue): nat
  {
    q.broadcasts + 2 * q.notifies + q.woken + (if q.closed then q.parked else 0)
  }

  lemma {:induction false} InternalRunEnds(q: Queue, steps: seq<Step>)
    requires Valid(q) && IsRun(q, steps) && forall k :: 0 <= k < |steps| ==> Internal(steps[k])
    ensures |steps| + Weight(After(q, steps)) <= Weight(q)
    decreases |steps|
  {
    if steps != [] {
      NextKeepsValid(q, steps[0]);
      assert Internal(steps[0]);
      assert Weight(Next(q, steps[0])) < Weight(q);
      InternalRunEnds(Next(q, steps[0]), steps[1..]);
    }
  }

  /**
   * No wakeup is lost: after any run from an empty queue, however the event loop orders the pending
   * tasks, it comes to rest after boundedly many of them, and then no getter waits beside a buffered
   * chunk or a closed queue.
   */
  lemma NoLostWakeup(maxBytes: int, run: seq<Step>, settling: seq<Step>)
    requires IsRun(NewQueue(maxBytes), run)
    requires IsRun(After(NewQueue(maxBytes), run), settling)
    requires forall k :: 0 <= k < |settling| ==> Internal(settling[k])
    ensures var q := After(NewQueue(maxBytes), run);
      && |settling| <= Weight(q)
      && var end := After(q, settling);
         Quiet(end) && end.parked > 0 ==> end.buf == [] && !end.closed
  {
    RunKeepsValid(NewQueue(maxBytes), run);
    var q := After(NewQueue(maxBytes), run);
    InternalRunEnds(q, settling);
    RunKeepsValid(q, settling);
  }

  /** Chunks the run stored, and chunks it handed to getters, in order. */
  ghost function StoredBy(q: Queue, steps: seq<Step>): seq<Bytes>
    requires IsRun(q, steps)
    decreases |steps|
  {
    if steps == [] then []
    else
      (if steps[0].PutStep? && Put(q, steps[0].b).1.Stored? then [steps[0].b] else []) +
      StoredBy(Next(q, steps[0]), steps[1..])
  }

  function Handed(q: Queue, s: Step): seq<Bytes>
    requires Enabled(q, s)
  {
    var r := if s.GetStep? then Look(q).1 else if s.ResumeStep? then Look(q.(woken := q.woken - 1)).1 else Waiting;
    if r.Chunk? then [r.b] else []
  }

  ghost function HandedBy(q: Queue, steps: seq<Step>): seq<Bytes>
    requires IsRun(q, steps)
    decreases |steps|
  {
    if steps == [] then [] else Handed(q, steps[0]) + HandedBy(Next(q, steps[0]), steps[1..])
  }

  /** First in, first out, nothing lost and nothing invented, along every run. */
  lemma {:induction false} Fifo(q: Queue, steps: seq<Step>)
    requires IsRun(q, steps)
    ensures q.buf + StoredBy(q, steps) == HandedBy(q, steps) + After(q, steps).buf
    decreases |steps|
  {
    if steps == [] {
      assert q.buf + [] == [] + q.buf;
    } else {
      var s, next := steps[0], Next(q, steps[0]);
      Fifo(next, steps[1..]);
      var put := if s.PutStep? && Put(q, s.b).1.Stored? then [s.b] else [];
      FifoStep(q, s, put);
      Regroup(q.buf, put, Handed(q, s), next.buf, StoredBy(next, steps[1..]), HandedBy(next, steps[1..]),
              After(q, steps).buf);
    }
  }

  lemma Regroup<T>(a: seq<T>, p: seq<T>, h: seq<T>, n: seq<T>, l: seq<T>, g: seq<T>, e: seq<T>)
    requires a + p == h + n && n + l == g + e
    ensures a + (p + l) == (h + g) + e
  {
    assert a + (p + l) == (a + p) + l;
    assert (h + n) + l == h + (n + l);
    assert h + (g + e) == (h + g) + e;
  }

  /** What a look takes from the queue is its oldest chunk. */
  lemma LookTakes(q: Queue)
    ensures var (next, r) := Look(q); q.buf == (if r.Chunk? then [r.b] else []) + next.buf
  {
    if q.buf != [] {
      assert q.buf == [q.buf[0]] + q.buf[1..];
    } else {
      assert [] + q.buf == q.buf;
    }
  }

  lemma FifoStep(q: Queue, s: Step, put: seq<Bytes>)
    requires Enabled(q, s) && put == if s.PutStep? && Put(q, s.b).1.Stored? then [s.b] else []
    ensures q.buf + put == Handed(q, s) + Next(q, s).buf
  {
    match s
    case GetStep =>
      LookTakes(q);
      assert q.buf + [] == q.buf;
    case ResumeStep =>
      LookTakes(q.(woken := q.woken - 1));
      assert q.buf + [] == q.buf;
    case PutStep(b) => assert [] + (q.buf + put) == q.buf + put;
    case _ => assert q.buf + [] == [] + q.buf;
  }

  /** After any run: a chunk is stored, behind all others, exactly when the queue is open and has room, else refused. */
  lemma StoredIffRoom(maxBytes: int, run: seq<Step>, b: Bytes)
    requires maxBytes > 0 && IsRun(NewQueue(maxBytes), run)
    ensures var q := After(NewQueue(maxBytes), run); var (next, r) := Put(q, b);
      if !q.closed && SumLen(q.buf) + |b| <= maxBytes
      then r == Stored && next == q.(buf := q.buf + [b], bytes := SumLen(q.buf) + |b|, notifies := q.notifies + 1)
      else r == Full && next == q
  {
    RunKeepsValid(NewQueue(maxBytes), run);
    RoomDecides(After(NewQueue(maxBytes), run), b);
  }

  lemma RoomDecides(q: Queue, b: Bytes)
    requires Valid(q) && q.max > 0
    ensures var (next, r) := Put(q, b);
      if !q.closed && SumLen(q.buf) + |b| <= q.max
      then r == Stored && next == q.(buf := q.buf + [b], bytes := SumLen(q.buf) + |b|, notifies := q.notifies + 1)
      else r == Full && next == q
  {
  }

  /**
   * After any run a getter is given the oldest chunk stored and not handed out yet, even by a closed queue; when
   * there is none it is told the end exactly if the queue is closed, and waits otherwise.
   */
  lemma GetsNext(maxBytes: int, run: seq<Step>)
    requires IsRun(NewQueue(maxBytes), run)
    ensures var q := After(NewQueue(maxBytes), run);
      var stored, handed := StoredBy(NewQueue(maxBytes), run), HandedBy(NewQueue(maxBytes), run);
      && |handed| <= |stored|
      && Look(q).1 == if |handed| < |stored| then Chunk(stored[|handed|]) else if q.closed then Finished else Waiting
  {
    Fifo(NewQueue(maxBytes), run);
    var q := After(NewQueue(maxBytes), run);
    var stored, handed := StoredBy(NewQueue(maxBytes), run), HandedBy(NewQueue(maxBytes), run);
    assert NewQueue(maxBytes).buf + stored == stored;
    assert stored == handed + q.buf;
  }

  /** Once closed, a queue hands out at most what it still holds, and stores nothing more. */
  lemma {:induction false} ClosedDrains(q: Queue, steps: seq<Step>)
    requires q.closed && IsRun(q, steps)
    ensures StoredBy(q, steps) == [] && |HandedBy(q, steps)| <= |q.buf|
    decreases |steps|
  {
    if steps != [] {
      ClosedDrains(Next(q, steps[0]), steps[1..]);
    }
  }

  // ----- the queue object -----

  class ByteQueue {
    const max: nat
    var buf: seq<Bytes>
    var bytes: int
    var closed: bool
    ghost var parked: nat
    ghost var woken: nat
    ghost var notifies: nat
    ghost var broadcasts: nat

    ghost function View(): Queue
      reads this
    {
      Queue(max, buf, bytes, closed, parked, woken, notifies, broadcasts)
    }

    constructor (maxBytes: int)
      ensures View() == NewQueue(maxBytes)
    {
      max := if maxBytes > 0 then maxBytes else 0;
      buf, bytes, closed := [], 0, false;
      parked, woken, notifies, broadcasts := 0, 0, 0, 0;
    }

    method SetClosed()
      modifies this
      ensures View() == Close(old(View()))
    {
      closed := true;
      broadcasts := broadcasts + 1;
    }

    method PutNowait(b: Bytes) returns (r: PutResult)
      modifies this
      ensures View() == Put(old(View()), b).0 && r == Put(old(View()), b).1
    {
      if closed {
        return Full;
      }
      if max <= 0 {
        return Ignored;
      }
      if |b| > max {
        return Full;
      }
      if bytes + |b| > max {
        return Full;
      }
      buf := buf + [b];
      bytes := bytes + |b|;
      notifies := notifies + 1;
      return Stored;
    }

    /** `get` up to its next suspension, when it is called or when it wakes up. */
    method TryGet() returns (r: GetResult)
      modifies this
      ensures View() == Look(old(View())).0 && r == Look(old(View())).1
    {
      if buf == [] && !closed {
        parked := parked + 1;
        return Waiting;
      }
      if buf == [] {
        return Finished;
      }
      var b := buf[0];
      buf := buf[1..];
      bytes := bytes - |b|;
      return Chunk(b);
    }
  }
}
