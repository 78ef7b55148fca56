/** The per-mountpoint hub of src/caster.py: source slot, rover set, fan-out and counters. */
module Hub {
  import opened ByteStrings
  import opened ByteQueues
  import opened Tiers
  import Maps

  datatype Tier = Tier(rateBps: int, epochsPerMinute: int, maxQueueBytes: int)

  /** What `validate_config` demands of a tier, at start and at every reload. */
  predicate Validated(tier: Tier)
  {
    tier.rateBps >= 0 && tier.epochsPerMinute >= 0 && tier.maxQueueBytes >= 0
  }

  /** The size a rover's queue is given. */
  function QueueSize(tier: Tier): int
  {
    if tier.maxQueueBytes != 0 then tier.maxQueueBytes else 262144
  }

  // ----- what fan-out does to one rover -----

  /** The part of a rover session that fan-out reads and writes. */
  datatype Rover = Rover(epm: int, epLast: Option<real>, queue: Queue, dropped: nat)

  predicate Gated(r: Rover, now: real)
  {
    EpochGateOk(r.epLast, r.epm, now)
  }

  function Offer(r: Rover, chunk: Bytes, now: real): Rover
  {
    if !Gated(r, now) then r
    else
      var (q, res) := Put(r.queue, chunk);
      r.(epLast := if r.epm > 0 then Some(now) else r.epLast,
         queue := q,
         dropped := r.dropped + (if res.Full? then |chunk| else 0))
  }

  /** Bytes the hub counts as dropped when a chunk is offered. */
  function Drop(r: Rover, chunk: Bytes, now: real): nat
  {
    if Gated(r, now) && Put(r.queue, chunk).1.Full? then |chunk| else 0
  }

  /** Fan-out of one chunk to a list of rovers. */
  function OfferAll(rs: seq<Rover>, chunk: Bytes, now: real): (r: seq<Rover>)
    ensures |r| == |rs|
    ensures forall i :: 0 <= i < |rs| ==> r[i] == Offer(rs[i], chunk, now)
  {
    seq(|rs|, i requires 0 <= i < |rs| => Offer(rs[i], chunk, now))
  }

  /** What a departing source does to a list of rovers. */
  function CloseAll(rs: seq<Rover>): (r: seq<Rover>)
    ensures |r| == |rs|
    ensures forall i :: 0 <= i < |rs| ==> r[i] == rs[i].(queue := Close(rs[i].queue))
  {
    seq(|rs|, i requires 0 <= i < |rs| => rs[i].(queue := Close(rs[i].queue)))
  }

  /** Bytes the hub counts as dropped when a chunk is offered to the first `k` rovers. */
  function DropsUpTo(rs: seq<Rover>, chunk: Bytes, now: real, k: nat): nat
    requires k <= |rs|
  {
    if k == 0 then 0 else DropsUpTo(rs, chunk, now, k - 1) + Drop(rs[k - 1], chunk, now)
  }

  function SumDrops(rs: seq<Rover>, chunk: Bytes, now: real): nat
  {
    DropsUpTo(rs, chunk, now, |rs|)
  }

  // ----- the source slot -----

  /** Whether a source may have the slot, and what the slot shows afterwards. */
  function Attach(slot: Option<string>, addr: string): (bool, Option<string>)
  {
    if slot.Some? && slot.value != addr then (false, slot) else (true, Some(addr))
  }

  // ----- the bounded table of message counts -----

  const MAX_TYPES: nat := 64

  function RecordType(counts: map<nat, nat>, t: nat): map<nat, nat>
  {
    if t in counts then counts[t := counts[t] + 1]
    else if |counts| >= MAX_TYPES then counts[0 := Maps.Get(counts, 0) + 1]
    else counts[t := 1]
  }

  /** The table after recording a list of types. */
  function Recorded(types: seq<nat>): map<nat, nat>
  {
    if types == [] then map[] else RecordType(Recorded(types[..|types| - 1]), types[|types| - 1])
  }

  /** How often a type occurs in a list. */
  function Occurrences(types: seq<nat>, t: nat): nat
  {
    if types == [] then 0 else Occurrences(types[..|types| - 1], t) + (if types[|types| - 1] == t then 1 else 0)
  }

  /** How often a type occurs that the table does not track under its own key. */
  function Untracked(types: seq<nat>, counts: map<nat, nat>): nat
  {
    if types == [] then 0
    else Untracked(types[..|types| - 1], counts) +
         (if types[|types| - 1] == 0 || types[|types| - 1] !in counts then 1 else 0)
  }

  /** The distinct types of a list. */
  function Distinct(types: seq<nat>): set<nat>
  {
    set t | t in types
  }

  lemma DistinctSnoc(types: seq<nat>, t: nat)
    ensures Distinct(types + [t]) == Distinct(types) + {t}
  {
  }

  lemma {:induction false} OccurrencesIn(types: seq<nat>, t: nat)
    ensures Occurrences(types, t) > 0 <==> t in types
  {
    if types != [] {
      OccurrencesIn(types[..|types| - 1], t);
      assert types == types[..|types| - 1] + [types[|types| - 1]];
    }
  }

  /** The keys: the distinct types while there are fewer than 64, then frozen except for key 0. */
  lemma {:induction false} RecordedKeys(types: seq<nat>)
    ensures var counts := Recorded(types);
      && counts.Keys <= Distinct(types) + {0}
      && |counts| <= MAX_TYPES + 1
      && (|counts| < MAX_TYPES ==> counts.Keys == Distinct(types))
      && (|counts| > MAX_TYPES ==> 0 in counts)
  {
    if types != [] {
      var init, t := types[..|types| - 1], types[|types| - 1];
      assert types == init + [t];
      RecordedKeys(init);
      DistinctSnoc(init, t);
      var counts := Recorded(init);
      assert |counts| == |counts.Keys|;
      if t in counts {
        assert Recorded(types).Keys == counts.Keys;
      } else if |counts| >= MAX_TYPES {
        assert Recorded(types).Keys == counts.Keys + {0};
      } else {
        assert Recorded(types).Keys == counts.Keys + {t};
      }
      assert |Recorded(types)| == |Recorded(types).Keys|;
    }
  }

  /** Once a type is tracked it stays tracked. */
  lemma {:induction false} KeysGrow(types: seq<nat>, n: nat)
    requires n <= |types|
    ensures Recorded(types[..n]).Keys <= Recorded(types).Keys
    decreases |types| - n
  {
    if n < |types| {
      assert types[..n + 1][..n] == types[..n];
      KeysGrow(types, n + 1);
    } else {
      assert types[..n] == types;
    }
  }

  /** Every tracked non-zero type has its exact number of occurrences since the start. */
  lemma {:induction false} TrackedExactly(types: seq<nat>, t: nat)
    requires t != 0 && t in Recorded(types)
    ensures Recorded(types)[t] == Occurrences(types, t)
  {
    if types != [] {
      var init, u := types[..|types| - 1], types[|types| - 1];
      if t in Recorded(init) {
        TrackedExactly(init, t);
      } else {
        RecordedKeys(init);
        OccurrencesIn(init, t);
      }
    }
  }

  /** Key 0 holds the frames of type 0 and those of every type that is not tracked. */
  lemma {:induction false} KeyZeroHoldsTheRest(types: seq<nat>)
    ensures Maps.Get(Recorded(types), 0) == Untracked(types, Recorded(types))
  {
    if types != [] {
      var init, t := types[..|types| - 1], types[|types| - 1];
      var counts, next := Recorded(init), Recorded(types);
      KeyZeroHoldsTheRest(init);
      RecordedKeys(init);
      if t != 0 && t !in counts && |counts| < MAX_TYPES {
        assert t !in Distinct(init);
      }
      UntrackedSame(init, counts, next);
    }
  }

  /** Recording a type does not change which of the earlier frames are tracked. */
  lemma {:induction false} UntrackedSame(types: seq<nat>, counts: map<nat, nat>, next: map<nat, nat>)
    requires forall t :: t in types && t != 0 ==> (t in counts <==> t in next)
    ensures Untracked(types, counts) == Untracked(types, next)
  {
    if types != [] {
      var init := types[..|types| - 1];
      assert forall t :: t in init ==> t in types;
      UntrackedSame(init, counts, next);
    }
  }

  /** A non-zero type is tracked exactly when fewer than 64 distinct types came before its first frame. */
  lemma TrackedIffEarly(types: seq<nat>, n: nat)
    requires n < |types| && types[n] != 0 && types[n] !in types[..n]
    ensures types[n] in Recorded(types) <==> |Distinct(types[..n])| < 64
  {
    var t, before := types[n], types[..n];
    assert types[..n + 1][..n] == before && types[..n + 1][n] == t;
    RecordedKeys(before);
    KeysGrow(types, n + 1);
    if |Distinct(before)| < MAX_TYPES {
      TableNotFull(before);
    } else {
      TableFull(before);
      FullStaysFull(types, n, t);
    }
  }

  lemma {:induction false} TableNotFull(types: seq<nat>)
    requires |Distinct(types)| < MAX_TYPES
    ensures |Recorded(types)| < MAX_TYPES && Recorded(types).Keys == Distinct(types)
  {
    if types != [] {
      var init, t := types[..|types| - 1], types[|types| - 1];
      assert types == init + [t];
      DistinctSnoc(init, t);
      SubsetSize(Distinct(init), Distinct(types));
      TableNotFull(init);
      assert |Recorded(init)| == |Recorded(init).Keys|;
      assert Recorded(types).Keys == Distinct(types);
      assert |Recorded(types)| == |Recorded(types).Keys|;
    }
  }

  lemma {:induction false} SubsetSize<T>(a: set<T>, b: set<T>)
    requires a <= b
    ensures |a| <= |b|
  {
    if a != {} {
      var x :| x in a;
      SubsetSize(a - {x}, b - {x});
    }
  }

  lemma TableFull(types: seq<nat>)
    requires |Distinct(types)| >= MAX_TYPES
    ensures |Recorded(types)| >= MAX_TYPES
  {
    RecordedKeys(types);
  }

  /** A type first seen after the table filled up is never tracked. */
  lemma {:induction false} FullStaysFull(types: seq<nat>, n: nat, t: nat)
    requires n <= |types| && |Recorded(types[..n])| >= MAX_TYPES && t != 0 && t !in Recorded(types[..n])
    ensures t !in Recorded(types) && |Recorded(types)| >= MAX_TYPES
    decreases |types| - n
  {
    if n < |types| {
      var now, next := Recorded(types[..n]), Recorded(types[..n + 1]);
      assert types[..n + 1][..n] == types[..n];
      assert now.Keys <= next.Keys;
      SubsetSize(now.Keys, next.Keys);
      assert |now| == |now.Keys| && |next| == |next.Keys|;
      FullStaysFull(types, n + 1, t);
    } else {
      assert types[..n] == types;
    }
  }

  /** The counts add up to the number of frames recorded. */
  lemma {:induction false} CountsAddUp(types: seq<nat>)
    ensures Maps.Sum(Recorded(types)) == |types|
  {
    if types != [] {
      var init, t := types[..|types| - 1], types[|types| - 1];
      var counts := Recorded(init);
      CountsAddUp(init);
      var k := if t in counts || |counts| < MAX_TYPES then t else 0;
      assert Recorded(types) == counts[k := Maps.Get(counts, k) + 1];
      Maps.SumUpdate(counts, k, Maps.Get(counts, k) + 1);
    }
  }

  // ----- the objects -----

  class RoverSession {
    const tier: Tier
    const queue: ByteQueue
    var epLastTs: Option<real>
    var droppedBytes: nat
    var sentBytes: nat

    ghost function View(): Rover
      reads this, queue
    {
      Rover(tier.epochsPerMinute, epLastTs, queue.View(), droppedBytes)
    }

    constructor (tier: Tier)
      ensures this.tier == tier && fresh(queue)
      ensures View() == Rover(tier.epochsPerMinute, None, NewQueue(QueueSize(tier)), 0)
      ensures sentBytes == 0
    {
      this.tier := tier;
      this.queue := new ByteQueue(QueueSize(tier));
      epLastTs, droppedBytes, sentBytes := None, 0, 0;
    }
  }

  /** No session, and no queue, occurs twice. */
  ghost predicate Apart(list: seq<RoverSession>)
  {
    forall i, j :: 0 <= i < j < |list| ==> list[i] != list[j] && list[i].queue != list[j].queue
  }

  /** `views` is what the sessions look like to the fan-out. */
  ghost predicate Looks(list: seq<RoverSession>, views: seq<Rover>)
    reads list, set i | 0 <= i < |list| :: list[i].queue
  {
    |views| == |list| && forall i :: 0 <= i < |list| ==> list[i].View() == views[i]
  }

  /** The sessions while a loop over them has done its work on the first `k`. */
  ghost predicate LooksUpTo(list: seq<RoverSession>, before: seq<Rover>, after: seq<Rover>, k: nat)
    reads list, set i | 0 <= i < |list| :: list[i].queue
  {
    && |before| == |after| == |list|
    && forall i :: 0 <= i < |list| ==> list[i].View() == if i < k then after[i] else before[i]
  }

  ghost function Touched(list: seq<RoverSession>): set<object>
  {
    (set s: RoverSession | s in list :: s as object) + (set s: RoverSession | s in list :: s.queue as object)
  }

  class MountpointHub {
    var sourceAddr: Option<string>
    var rovers: seq<RoverSession>  // the set of attached sessions, in some order
    var rxBytes: nat
    var txBytesTotal: nat
    var droppedBytesTotal: nat
    var rtcmFramesTotal: nat
    var rtcmCrcErrorsTotal: nat
    var msgCounts: map<nat, nat>
    ghost var recorded: seq<nat>  // every message type recorded so far

    /** No session, and no queue, is attached twice; the type table is that of the recorded frames. */
    ghost predicate Valid()
      reads this
    {
      && Apart(rovers)
      && msgCounts == Recorded(recorded)
      && rtcmFramesTotal == |recorded|
    }

    ghost function Footprint(): set<object>
      reads this
    {
      Touched(rovers)
    }

    /** `views` is what the attached sessions look like to the fan-out. */
    ghost predicate Shows(views: seq<Rover>)
      reads this, rovers, set i | 0 <= i < |rovers| :: rovers[i].queue
    {
      Looks(rovers, views)
    }

    constructor ()
      ensures Valid() && sourceAddr == None && rovers == [] && recorded == []
      ensures rxBytes == txBytesTotal == droppedBytesTotal == rtcmCrcErrorsTotal == 0
    {
      sourceAddr, rovers := None, [];
      rxBytes, txBytesTotal, droppedBytesTotal, rtcmFramesTotal, rtcmCrcErrorsTotal := 0, 0, 0, 0, 0;
      msgCounts, recorded := map[], [];
    }

    method RecordSentBytes(n: nat)
      modifies this`txBytesTotal
      ensures txBytesTotal == old(txBytesTotal) + n
    {
      if n > 0 {
        txBytesTotal := txBytesTotal + n;
      }
    }

    method RecordRtcmCrcErrors(n: nat)
      modifies this`rtcmCrcErrorsTotal
      ensures rtcmCrcErrorsTotal == old(rtcmCrcErrorsTotal) + n
    {
      if n > 0 {
        rtcmCrcErrorsTotal := rtcmCrcErrorsTotal + n;
      }
    }

    method RecordRtcmFrame(t: nat)
      requires Valid()
      modifies this`rtcmFramesTotal, this`msgCounts, this`recorded
      ensures Valid() && recorded == old(recorded) + [t]
    {
      rtcmFramesTotal := rtcmFramesTotal + 1;
      recorded := recorded + [t];
      assert recorded[..|recorded| - 1] == old(recorded);
      if t in msgCounts {
        msgCounts := msgCounts[t := msgCounts[t] + 1];
        return;
      }
      if |msgCounts| >= MAX_TYPES {
        msgCounts := msgCounts[0 := Maps.Get(msgCounts, 0) + 1];
        return;
      }
      msgCounts := msgCounts[t := 1];
    }

    method AttachSource(addr: string) returns (ok: bool)
      modifies this`sourceAddr
      ensures ok <==> old(sourceAddr) == None || old(sourceAddr) == Some(addr)
      ensures sourceAddr == if ok then Some(addr) else old(sourceAddr)
      ensures (ok, sourceAddr) == Attach(old(sourceAddr), addr)
    {
      if sourceAddr != None && sourceAddr != Some(addr) {
        return false;
      }
      sourceAddr := Some(addr);
      return true;
    }

    method AddRover(s: RoverSession)
      requires Valid() && forall i :: 0 <= i < |rovers| ==> rovers[i].queue != s.queue
      modifies this`rovers
      ensures Valid() && rovers == old(rovers) + [s]
    {
      rovers := rovers + [s];
    }

    method RemoveRover(s: RoverSession)
      requires Valid()
      modifies this`rovers
      ensures Valid() && s !in rovers
      ensures forall r :: r in old(rovers) && r != s ==> r in rovers
      ensures |rovers| == |old(rovers)| - (if s in old(rovers) then 1 else 0)
    {
      if s in rovers {
        var i :| 0 <= i < |rovers| && rovers[i] == s;
        var rest := rovers[..i] + rovers[i + 1..];
        assert forall k :: 0 <= k < |rest| ==> rest[k] == if k < i then rovers[k] else rovers[k + 1];
        forall r | r in rovers && r != s
          ensures r in rest
        {
          var k :| 0 <= k < |rovers| && rovers[k] == r;
          assert rest[if k < i then k else k - 1] == r;
        }
        rovers := rest;
      }
    }

    /** Free the slot, then close the queue of every rover attached at that moment. */
    method DetachSource(ghost before: seq<Rover>)
      requires Valid() && Shows(before)
      modifies this`sourceAddr, Footprint()
      ensures Valid() && sourceAddr == None && Shows(CloseAll(before))
    {
      sourceAddr := None;
      CloseQueues(rovers, before);
    }

    /** The loop over a snapshot of the rover set. */
    method CloseQueues(list: seq<RoverSession>, ghost before: seq<Rover>)
      requires Apart(list) && Looks(list, before)
      modifies Touched(list)
      ensures Looks(list, CloseAll(before))
    {
      ghost var after := CloseAll(before);
      for k := 0 to |list|
        invariant forall i :: 0 <= i < k ==> list[i].View() == after[i]
        invariant forall i :: k <= i < |list| ==> list[i].View() == before[i]
      {
        assert list[k] in list;
        list[k].queue.SetClosed();
      }
    }

    /** The body of the fan-out loop, for one rover. */
    method OfferTo(s: RoverSession, chunk: Bytes, now: real, ghost before: Rover)
      requires s.View() == before
      modifies this`droppedBytesTotal, s`epLastTs, s`droppedBytes, s.queue
      ensures s.View() == Offer(before, chunk, now)
      ensures droppedBytesTotal == old(droppedBytesTotal) + Drop(before, chunk, now)
    {
      if EpochGateOk(s.epLastTs, s.tier.epochsPerMinute, now) {
        if s.tier.epochsPerMinute > 0 {
          s.epLastTs := Some(now);
        }
        var r := s.queue.PutNowait(chunk);
        if r.Full? {
          s.droppedBytes := s.droppedBytes + |chunk|;
          droppedBytesTotal := droppedBytesTotal + |chunk|;
        }
      }
    }

    /** Offer a chunk to every attached rover that passes its epoch gate; count what the queues refuse. */
    method OnSourceData(chunk: Bytes, now: real, ghost before: seq<Rover>)
      requires Valid() && Shows(before)
      modifies this`rxBytes, this`droppedBytesTotal, Footprint()
      ensures Valid()
      ensures chunk == [] ==> Shows(before) && rxBytes == old(rxBytes) && droppedBytesTotal == old(droppedBytesTotal)
      ensures chunk != [] ==> Shows(OfferAll(before, chunk, now)) && rxBytes == old(rxBytes) + |chunk|
      ensures chunk != [] ==> droppedBytesTotal == old(droppedBytesTotal) + SumDrops(before, chunk, now)
    {
      if chunk == [] {
        return;
      }
      rxBytes := rxBytes + |chunk|;
      FanOut(rovers, chunk, now, before);
      assert rovers == old(rovers) && recorded == old(recorded) && msgCounts == old(msgCounts);
    }

    /** One turn of the fan-out loop: the other rovers stay as they are. */
    method OfferToNext(list: seq<RoverSession>, k: nat, s: RoverSession, chunk: Bytes, now: real,
                       ghost before: seq<Rover>, ghost after: seq<Rover>)
      requires Apart(list) && LooksUpTo(list, before, after, k)
      requires k < |list| && s == list[k] && after[k] == Offer(before[k], chunk, now)
      modifies this`droppedBytesTotal, s`epLastTs, s`droppedBytes, s.queue
      ensures LooksUpTo(list, before, after, k + 1)
      ensures droppedBytesTotal == old(droppedBytesTotal) + Drop(before[k], chunk, now)
    {
      assert forall i :: 0 <= i < |list| && i != k ==> list[i] != list[k] && list[i].queue != list[k].queue;
      OfferTo(s, chunk, now, before[k]);
    }

    /** The fan-out loop over a snapshot of the rover set. */
    method FanOut(list: seq<RoverSession>, chunk: Bytes, now: real, ghost before: seq<Rover>)
      requires Apart(list) && Looks(list, before)
      modifies this`droppedBytesTotal, Touched(list)
      ensures Looks(list, OfferAll(before, chunk, now))
      ensures droppedBytesTotal == old(droppedBytesTotal) + SumDrops(before, chunk, now)
    {
      ghost var after := OfferAll(before, chunk, now);
      for k := 0 to |list|
        invariant LooksUpTo(list, before, after, k)
        invariant droppedBytesTotal == old(droppedBytesTotal) + DropsUpTo(before, chunk, now, k)
      {
        assert list[k] in list;
        OfferToNext(list, k, list[k], chunk, now, before, after);
      }
    }
  }
}
