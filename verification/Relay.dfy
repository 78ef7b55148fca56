/**
 * The WebSocket fan-out of `IoTRelay` (src/iot.py) with its bounded queues (src/api.py): a full queue
 * drops its oldest envelope to make room for the newest.
 */
module Relay {
  import opened ByteStrings

  type Envelope = Bytes

  /** `maxsize` of every subscriber's queue. */
  const LIMIT: nat := 64

  /** What the fan-out does to one queue. */
  function Offer(queue: seq<Envelope>, e: Envelope): seq<Envelope>
  {
    (if |queue| >= LIMIT then queue[1..] else queue) + [e]
  }

  // ----- the classes -----

  /** An `asyncio.Queue` with `maxsize` LIMIT; `false` and `None` stand for QueueFull and QueueEmpty. */
  class SubscriberQueue {
    var items: seq<Envelope>

    constructor ()
      ensures Valid() && items == []
    {
      items := [];
    }

    predicate Valid()
      reads this
    {
      |items| <= LIMIT
    }

    predicate Full()
      reads this
    {
      |items| >= LIMIT
    }

    method PutNowait(e: Envelope) returns (ok: bool)
      requires Valid()
      modifies this
      ensures Valid() && ok == !old(Full())
      ensures items == if ok then old(items) + [e] else old(items)
    {
      ok := !Full();
      if ok {
        items := items + [e];
      }
    }

    method GetNowait() returns (e: Option<Envelope>)
      requires Valid()
      modifies this
      ensures Valid()
      ensures e == if old(items) == [] then None else Some(old(items)[0])
      ensures items == if old(items) == [] then [] else old(items)[1..]
    {
      if items == [] {
        return None;
      }
      e := Some(items[0]);
      items := items[1..];
    }
  }

  /** Make room if the queue is full, then put. The put never fails. */
  method DropOldestAndPut(q: SubscriberQueue, e: Envelope) returns (ok: bool)
    requires q.Valid()
    modifies q
    ensures ok && q.Valid() && q.items == Offer(old(q.items), e)
  {
    if q.Full() {
      var oldest := q.GetNowait();
    }
    ok := q.PutNowait(e);
  }

  class IoTRelay {
    var subscribers: seq<SubscriberQueue>

    constructor ()
      ensures Valid() && subscribers == []
    {
      subscribers := [];
    }

    /** No queue subscribes twice, and none is beyond its bound. */
    ghost predicate Valid()
      reads this, subscribers
    {
      && (forall i, j :: 0 <= i < j < |subscribers| ==> subscribers[i] != subscribers[j])
      && (forall q :: q in subscribers ==> q.Valid())
    }

    method AddWebsocketQueue(q: SubscriberQueue)
      requires Valid() && q !in subscribers && q.Valid()
      modifies this
      ensures Valid() && subscribers == old(subscribers) + [q]
    {
      subscribers := subscribers + [q];
    }

    method RemoveWebsocketQueue(q: SubscriberQueue)
      requires Valid()
      modifies this
      ensures Valid()
      ensures forall s :: s in subscribers <==> s in old(subscribers) && s != q
      ensures q !in old(subscribers) ==> subscribers == old(subscribers)
      ensures q in old(subscribers) ==> exists i ::
        && 0 <= i < |old(subscribers)| && old(subscribers)[i] == q
        && subscribers == old(subscribers)[..i] + old(subscribers)[i + 1..]
    {
      var i := 0;
      while i < |subscribers| && subscribers[i] != q
        modifies {}
        invariant i <= |subscribers| && q !in subscribers[..i]
      {
        i := i + 1;
      }
      if i < |subscribers| {
        ghost var before := subscribers;
        subscribers := subscribers[..i] + subscribers[i + 1..];
        assert before == before[..i] + [q] + before[i + 1..];
      }
    }

    /** The fan-out of one envelope; no queue is ever found dead. */
    method FanOut(e: Envelope)
      requires Valid()
      modifies subscribers
      ensures Valid()
      ensures forall q :: q in subscribers ==> q.items == Offer(old(q.items), e)
    {
      var dead: seq<SubscriberQueue> := [];
      for i := 0 to |subscribers|
        invariant Valid() && dead == []
        invariant forall k :: 0 <= k < i ==> subscribers[k].items == Offer(old(subscribers[k].items), e)
        invariant forall k :: i <= k < |subscribers| ==> subscribers[k].items == old(subscribers[k].items)
      {
        var q := subscribers[i];
        var ok := DropOldestAndPut(q, e);
        if !ok {
          dead := dead + [q];
        }
      }
    }
  }

  // ----- runs -----

  /** A subscriber: how many envelopes were published before it came, its queue, what it was given. */
  datatype Subscriber = Subscriber(since: nat, queue: seq<Envelope>, received: seq<Envelope>)

  datatype System = System(published: seq<Envelope>, subscribers: map<nat, Subscriber>)

  datatype Act = Subscribe(id: nat) | Unsubscribe(id: nat) | Publish(e: Envelope) | Receive(id: nat)

  function Publishing(s: System, e: Envelope): System
  {
    System(s.published + [e],
           map id | id in s.subscribers :: s.subscribers[id].(queue := Offer(s.subscribers[id].queue, e)))
  }

  function Receiving(sub: Subscriber): Subscriber
  {
    if sub.queue == [] then sub
    else Subscriber(sub.since, sub.queue[1..], sub.received + [sub.queue[0]])
  }

  function Step(s: System, a: Act): System
  {
    match a
    case Subscribe(id) =>
      if id in s.subscribers then s
      else s.(subscribers := s.subscribers[id := Subscriber(|s.published|, [], [])])
    case Unsubscribe(id) => s.(subscribers := s.subscribers - {id})
    case Publish(e) => Publishing(s, e)
    case Receive(id) =>
      if id in s.subscribers then s.(subscribers := s.subscribers[id := Receiving(s.subscribers[id])]) else s
  }

  function Run(acts: seq<Act>): System
  {
    if acts == [] then System([], map[]) else Step(Run(acts[..|acts| - 1]), acts[|acts| - 1])
  }

  /**
   * `picked` holds the publication numbers of the received envelopes: increasing, since the subscription and
   * before everything still queued. The queue is the latest part of what was published. Whatever is neither
   * received nor queued has at least LIMIT newer envelopes.
   */
  ghost predicate Explains(published: seq<Envelope>, sub: Subscriber, picked: seq<nat>)
  {
    && |sub.queue| <= LIMIT
    && sub.since + |sub.queue| <= |published|
    && sub.queue == published[|published| - |sub.queue|..]
    && InOrder(published, sub.since, |published| - |sub.queue|, sub.received, picked)
    && forall i :: sub.since <= i < |published| - |sub.queue| && i !in picked ==> i + LIMIT < |published|
  }

  ghost predicate InOrder(published: seq<Envelope>, from: nat, to: nat, received: seq<Envelope>, picked: seq<nat>)
    requires to <= |published|
  {
    && |picked| == |received|
    && (forall k :: 0 <= k < |picked| ==> from <= picked[k] < to && published[picked[k]] == received[k])
    && (forall j, k :: 0 <= j < k < |picked| ==> picked[j] < picked[k])
  }

  lemma PublishKeeps(published: seq<Envelope>, sub: Subscriber, e: Envelope, picked: seq<nat>)
    requires Explains(published, sub, picked)
    ensures Explains(published + [e], sub.(queue := Offer(sub.queue, e)), picked)
  {
    var queue := Offer(sub.queue, e);
    var all := published + [e];
    assert queue == all[|all| - |queue|..];
    assert InOrder(all, sub.since, |all| - |queue|, sub.received, picked);
    forall i | sub.since <= i < |all| - |queue| && i !in picked
      ensures i + LIMIT < |all|
    {
      if i < |published| - |sub.queue| {
        assert i + LIMIT < |published|;
      }
    }
  }

  lemma ReceiveKeeps(published: seq<Envelope>, sub: Subscriber, picked: seq<nat>)
    requires Explains(published, sub, picked) && sub.queue != []
    ensures Explains(published, Receiving(sub), picked + [|published| - |sub.queue|])
  {
    var n: nat := |published| - |sub.queue|;
    var after, now := Receiving(sub), picked + [n];
    assert after.queue == published[n + 1..];
    assert sub.queue[0] == published[n];
    assert InOrder(published, sub.since, n + 1, after.received, now);
    forall i | sub.since <= i < n + 1 && i !in now
      ensures i + LIMIT < |published|
    {
      assert n in now && i != n;
      assert forall k :: k in picked ==> k in now;
    }
  }

  /** In every run, every subscriber's queue and received envelopes are explained by what was published. */
  lemma {:induction false} RunExplained(acts: seq<Act>, id: nat)
    requires id in Run(acts).subscribers
    ensures exists picked :: Explains(Run(acts).published, Run(acts).subscribers[id], picked)
  {
    var before, a := Run(acts[..|acts| - 1]), acts[|acts| - 1];
    if id !in before.subscribers {
      assert Explains(before.published, Run(acts).subscribers[id], []);
    } else {
      RunExplained(acts[..|acts| - 1], id);
      var sub := before.subscribers[id];
      var picked :| Explains(before.published, sub, picked);
      match a
      case Publish(e) =>
        PublishKeeps(before.published, sub, e, picked);
      case Receive(i) =>
        if i == id && sub.queue != [] {
          ReceiveKeeps(before.published, sub, picked);
        }
      case Subscribe(_) =>
      case Unsubscribe(_) =>
    }
  }

  /** An envelope with fewer than LIMIT newer ones is still queued or was received. */
  lemma RecentIsNotLost(acts: seq<Act>, id: nat, i: nat)
    requires id in Run(acts).subscribers
    requires Run(acts).subscribers[id].since <= i < |Run(acts).published| <= i + 64
    ensures var s := Run(acts); s.published[i] in s.subscribers[id].received + s.subscribers[id].queue
  {
    RunExplained(acts, id);
    var s := Run(acts);
    var sub := s.subscribers[id];
    var picked :| Explains(s.published, sub, picked);
    var n := |s.published| - |sub.queue|;
    if i < n {
      assert i in picked;
      var k :| 0 <= k < |picked| && picked[k] == i;
      assert sub.received[k] == s.published[i];
    } else {
      assert sub.queue[i - n] == s.published[i];
    }
  }

  // ----- what is lost -----

  /** How many publications found the subscriber's queue full. */
  function Drops(acts: seq<Act>, id: nat): nat
  {
    if acts == [] then 0
    else
      var before, a := Run(acts[..|acts| - 1]), acts[|acts| - 1];
      if id !in before.subscribers then 0
      else Drops(acts[..|acts| - 1], id) +
           if a.Publish? && |before.subscribers[id].queue| >= LIMIT then 1 else 0
  }

  ghost predicate Balanced(published: seq<Envelope>, sub: Subscriber, drops: nat)
  {
    && sub.since <= |published|
    && |sub.received| + |sub.queue| + drops == |published| - sub.since
    && (drops == 0 ==> sub.received + sub.queue == published[sub.since..])
  }

  lemma PublishBalances(published: seq<Envelope>, sub: Subscriber, drops: nat, e: Envelope)
    requires Balanced(published, sub, drops)
    ensures Balanced(published + [e], sub.(queue := Offer(sub.queue, e)),
                     drops + if |sub.queue| >= LIMIT then 1 else 0)
  {
    assert (published + [e])[sub.since..] == published[sub.since..] + [e];
    if |sub.queue| < LIMIT {
      assert sub.received + (sub.queue + [e]) == (sub.received + sub.queue) + [e];
    }
  }

  lemma ReceiveBalances(published: seq<Envelope>, sub: Subscriber, drops: nat)
    requires Balanced(published, sub, drops)
    ensures Balanced(published, Receiving(sub), drops)
  {
    if sub.queue != [] {
      assert (sub.received + [sub.queue[0]]) + sub.queue[1..] == sub.received + sub.queue;
    }
  }

  lemma ActBalances(before: System, a: Act, id: nat, drops: nat)
    requires id in before.subscribers && id in Step(before, a).subscribers
    requires Balanced(before.published, before.subscribers[id], drops)
    ensures Balanced(Step(before, a).published, Step(before, a).subscribers[id],
                     drops + if a.Publish? && |before.subscribers[id].queue| >= LIMIT then 1 else 0)
  {
    var sub := before.subscribers[id];
    match a
    case Publish(e) => PublishBalances(before.published, sub, drops, e);
    case Receive(_) => ReceiveBalances(before.published, sub, drops);
    case Subscribe(_) =>
    case Unsubscribe(_) =>
  }

  /** Published since the subscription = received + queued + dropped, and without drops nothing is missing. */
  lemma {:induction false} Conservation(acts: seq<Act>, id: nat)
    requires id in Run(acts).subscribers
    ensures Balanced(Run(acts).published, Run(acts).subscribers[id], Drops(acts, id))
  {
    var before, a := Run(acts[..|acts| - 1]), acts[|acts| - 1];
    if id in before.subscribers {
      Conservation(acts[..|acts| - 1], id);
      ActBalances(before, a, id, Drops(acts[..|acts| - 1], id));
    } else {
      FreshBalances(before, a, id);
    }
  }

  lemma FreshBalances(before: System, a: Act, id: nat)
    requires id !in before.subscribers && id in Step(before, a).subscribers
    ensures Balanced(Step(before, a).published, Step(before, a).subscribers[id], 0)
  {
  }

  /** A subscriber is given everything since it came, in order, exactly when no publication found it full. */
  lemma LosslessIffNeverFull(acts: seq<Act>, id: nat)
    requires id in Run(acts).subscribers
    ensures var s := Run(acts); var sub := s.subscribers[id];
      && sub.since <= |s.published|
      && (sub.received + sub.queue == s.published[sub.since..] <==> Drops(acts, id) == 0)
  {
    Conservation(acts, id);
    var s := Run(acts);
    var sub := s.subscribers[id];
    assert |s.published[sub.since..]| == |s.published| - sub.since;
    assert |sub.received + sub.queue| == |sub.received| + |sub.queue|;
  }
}
