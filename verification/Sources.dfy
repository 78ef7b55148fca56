/**
 * The source side of src/caster.py: one slot per mountpoint, taken by `attach_source` and freed by
 * `detach_source`. The limit check and the attachment run without suspension in between; the reply, sent
 * before the `try` whose `finally` frees the slot, does suspend and may raise.
 */
module Sources {
  import opened ByteStrings
  import Hub

  datatype Phase = Replying | Streaming

  datatype Source = Source(mountpoint: string, addr: string, phase: Phase)

  /** `slots` maps each attached mountpoint to `_source_addr`; `live` holds the connections still open. */
  datatype Sources = Sources(slots: map<string, string>, live: map<nat, Source>)

  const EMPTY: Sources := Sources(map[], map[])

  datatype Answer = Accepted | TooMany | Busy

  /** The decision of `_handle_source`, up to and including `attach_source`. */
  function Decide(s: Sources, mountpoint: string, addr: string, limit: int): Answer
  {
    if limit > 0 && mountpoint !in s.slots && |s.slots| >= limit then TooMany
    else if mountpoint in s.slots && s.slots[mountpoint] != addr then Busy
    else Accepted
  }

  datatype Step = Connect(id: nat, mountpoint: string, addr: string, limit: int) | ReplySent(id: nat) |
                  ReplyRaised(id: nat) | Finish(id: nat)

  /** Addresses of open connections are distinct: a peer address names one connection. */
  predicate Enabled(s: Sources, step: Step)
  {
    match step
    case Connect(id, _, addr, _) => id !in s.live && forall j :: j in s.live ==> s.live[j].addr != addr
    case ReplySent(id) => id in s.live && s.live[id].phase == Replying
    case ReplyRaised(id) => id in s.live && s.live[id].phase == Replying
    case Finish(id) => id in s.live && s.live[id].phase == Streaming
  }

  function Apply(s: Sources, step: Step): Sources
    requires Enabled(s, step)
  {
    match step
    case Connect(id, mountpoint, addr, limit) =>
      if Decide(s, mountpoint, addr, limit).Accepted?
      then Sources(s.slots[mountpoint := addr], s.live[id := Source(mountpoint, addr, Replying)])
      else s
    case ReplySent(id) => s.(live := s.live[id := s.live[id].(phase := Streaming)])
    case ReplyRaised(id) => s.(live := s.live - {id})
    case Finish(id) => Sources(s.slots - {s.live[id].mountpoint}, s.live - {id})
  }

  predicate IsRun(s: Sources, steps: seq<Step>)
    decreases |steps|
  {
    steps == [] || (Enabled(s, steps[0]) && IsRun(Apply(s, steps[0]), steps[1..]))
  }

  function After(s: Sources, steps: seq<Step>): Sources
    requires IsRun(s, steps)
    decreases |steps|
  {
    if steps == [] then s else After(Apply(s, steps[0]), steps[1..])
  }

  // ----- the hub's part -----

  /** What the hub of a mountpoint shows as its source. */
  function Slot(s: Sources, mountpoint: string): Option<string>
  {
    if mountpoint in s.slots then Some(s.slots[mountpoint]) else None
  }

  /** Past the limit check a connecting source is answered as `attach_source` answers, and the slot ends as it does. */
  lemma ConnectIsAttach(s: Sources, id: nat, mountpoint: string, addr: string, limit: int)
    requires Enabled(s, Connect(id, mountpoint, addr, limit)) && !Decide(s, mountpoint, addr, limit).TooMany?
    ensures var (ok, slot) := Hub.Attach(Slot(s, mountpoint), addr);
      && (Decide(s, mountpoint, addr, limit).Accepted? <==> ok)
      && Slot(Apply(s, Connect(id, mountpoint, addr, limit)), mountpoint) == slot
    ensures forall m :: m != mountpoint ==> Slot(Apply(s, Connect(id, mountpoint, addr, limit)), m) == Slot(s, m)
  {
  }

  // ----- exclusivity -----

  /** Every open connection holds its mountpoint's slot, and no two have the same address. */
  ghost predicate Exclusive(s: Sources)
  {
    && (forall id :: id in s.live ==>
          s.live[id].mountpoint in s.slots && s.slots[s.live[id].mountpoint] == s.live[id].addr)
    && (forall i, j :: i in s.live && j in s.live && i != j ==> s.live[i].addr != s.live[j].addr)
  }

  lemma {:induction false} RunKeepsExclusive(s: Sources, steps: seq<Step>)
    requires Exclusive(s) && IsRun(s, steps)
    ensures Exclusive(After(s, steps))
    decreases |steps|
  {
    if steps != [] {
      ApplyKeepsExclusive(s, steps[0]);
      RunKeepsExclusive(Apply(s, steps[0]), steps[1..]);
    }
  }

  lemma ApplyKeepsExclusive(s: Sources, step: Step)
    requires Exclusive(s) && Enabled(s, step)
    ensures Exclusive(Apply(s, step))
  {
  }

  /**
   * In every run, replies that raise included: a connection that is replying or streaming is the one whose
   * address its mountpoint shows, and no mountpoint has two.
   */
  lemma OneSourcePerMountpoint(steps: seq<Step>, i: nat, j: nat)
    requires IsRun(EMPTY, steps)
    ensures var s := After(EMPTY, steps);
      i in s.live ==>
        && s.live[i].mountpoint in s.slots && s.slots[s.live[i].mountpoint] == s.live[i].addr
        && (j in s.live && s.live[j].mountpoint == s.live[i].mountpoint ==> i == j)
  {
    RunKeepsExclusive(EMPTY, steps);
  }

  // ----- the limit -----

  /** Under a fixed limit the held slots never exceed it. */
  lemma {:induction false} LimitHolds(s: Sources, steps: seq<Step>, limit: int)
    requires IsRun(s, steps) && limit > 0 && |s.slots| <= limit
    requires forall k :: 0 <= k < |steps| && steps[k].Connect? ==> steps[k].limit == limit
    ensures |After(s, steps).slots| <= limit
    decreases |steps|
  {
    if steps != [] {
      StepWithinLimit(s, steps[0], limit);
      LimitHolds(Apply(s, steps[0]), steps[1..], limit);
    }
  }

  lemma StepWithinLimit(s: Sources, step: Step, limit: int)
    requires Enabled(s, step) && limit > 0 && |s.slots| <= limit && (step.Connect? ==> step.limit == limit)
    ensures |Apply(s, step).slots| <= limit
  {
    if step.Finish? {
      FewerKeys(s.slots, s.live[step.id].mountpoint);
    }
  }

  lemma FewerKeys(slots: map<string, string>, m: string)
    ensures |slots - {m}| <= |slots|
  {
    if m in slots {
      assert (slots - {m})[m := slots[m]] == slots;
    } else {
      assert slots - {m} == slots;
    }
  }

  // ----- slots nobody streams to -----

  ghost predicate Manned(s: Sources)
  {
    forall m :: m in s.slots ==> exists id :: id in s.live && s.live[id].mountpoint == m
  }

  /** While no reply raises, every held slot belongs to an open connection. */
  lemma {:induction false} HeldMeansOpen(s: Sources, steps: seq<Step>)
    requires IsRun(s, steps) && Exclusive(s) && Manned(s)
    requires forall k :: 0 <= k < |steps| ==> !steps[k].ReplyRaised?
    ensures Manned(After(s, steps))
    decreases |steps|
  {
    if steps != [] {
      ApplyKeepsExclusive(s, steps[0]);
      StepKeepsManned(s, steps[0]);
      HeldMeansOpen(Apply(s, steps[0]), steps[1..]);
    }
  }

  lemma StepKeepsManned(s: Sources, step: Step)
    requires Enabled(s, step) && Exclusive(s) && Manned(s) && !step.ReplyRaised?
    ensures Manned(Apply(s, step))
  {
    var t := Apply(s, step);
    forall m | m in t.slots
      ensures exists id :: id in t.live && t.live[id].mountpoint == m
    {
      if step.Connect? && m !in s.slots {
        assert t.live[step.id].mountpoint == m;
      } else {
        var id :| id in s.live && s.live[id].mountpoint == m;
        assert id in t.live && t.live[id].mountpoint == m;
      }
    }
  }

  /** A reply that raises leaves its slot held with no open connection behind it, whatever came before. */
  lemma RaisedReplyLeavesSlot(s: Sources, id: nat)
    requires Exclusive(s) && Enabled(s, ReplyRaised(id))
    ensures var t := Apply(s, ReplyRaised(id)); var m := s.live[id].mountpoint;
      m in t.slots && t.slots[m] == s.live[id].addr && forall j :: j in t.live ==> t.live[j].mountpoint != m
  {
  }

  /** A step leaves some slot without an open connection exactly when it is a reply that raises. */
  lemma StaysMannedIff(s: Sources, step: Step)
    requires Enabled(s, step) && Exclusive(s) && Manned(s)
    ensures Manned(Apply(s, step)) <==> !step.ReplyRaised?
  {
    if step.ReplyRaised? {
      RaisedReplyLeavesSlot(s, step.id);
      assert s.live[step.id].mountpoint in Apply(s, step).slots;
    } else {
      StepKeepsManned(s, step);
    }
  }

  /** Every held slot belongs to an open connection after the first `k` steps. */
  ghost predicate MannedAfter(s: Sources, steps: seq<Step>, k: nat)
    requires k <= |steps|
  {
    IsRun(s, steps[..k]) && Manned(After(s, steps[..k]))
  }

  lemma MannedNext(s: Sources, steps: seq<Step>, k: nat)
    requires IsRun(s, steps) && k < |steps|
    ensures MannedAfter(s, steps, k + 1) <==> MannedAfter(Apply(s, steps[0]), steps[1..], k)
  {
    assert steps[..k + 1][1..] == steps[1..][..k];
  }

  lemma MannedShift(s: Sources, steps: seq<Step>)
    requires IsRun(s, steps) && steps != [] && Manned(s)
    ensures (forall k :: 0 <= k <= |steps| ==> MannedAfter(s, steps, k)) <==>
      (forall k :: 0 <= k <= |steps| - 1 ==> MannedAfter(Apply(s, steps[0]), steps[1..], k))
  {
    forall k | 0 <= k < |steps|
      ensures MannedAfter(s, steps, k + 1) <==> MannedAfter(Apply(s, steps[0]), steps[1..], k)
    {
      MannedNext(s, steps, k);
    }
    if forall k :: 0 <= k <= |steps| ==> MannedAfter(s, steps, k) {
      forall k | 0 <= k <= |steps| - 1
        ensures MannedAfter(Apply(s, steps[0]), steps[1..], k)
      {
        assert MannedAfter(s, steps, k + 1);
      }
    } else {
      var k :| 0 <= k <= |steps| && !MannedAfter(s, steps, k);
      assert !MannedAfter(Apply(s, steps[0]), steps[1..], k - 1);
    }
  }

  lemma {:induction false} RunStaysMannedIff(s: Sources, steps: seq<Step>)
    requires IsRun(s, steps) && Exclusive(s) && Manned(s)
    ensures (forall k :: 0 <= k <= |steps| ==> MannedAfter(s, steps, k)) <==>
      (forall k :: 0 <= k < |steps| ==> !steps[k].ReplyRaised?)
    decreases |steps|
  {
    if steps == [] {
      assert MannedAfter(s, steps, 0);
    } else {
      var next, rest := Apply(s, steps[0]), steps[1..];
      MannedShift(s, steps);
      StaysMannedIff(s, steps[0]);
      ApplyKeepsExclusive(s, steps[0]);
      if steps[0].ReplyRaised? {
        assert !MannedAfter(next, rest, 0);
      } else {
        RunStaysMannedIff(next, rest);
        assert forall k :: 1 <= k < |steps| ==> steps[k] == rest[k - 1];
        assert forall k :: 0 <= k < |rest| ==> rest[k] == steps[k + 1];
      }
    }
  }

  /** The mountpoint is served by one of the open connections. */
  ghost predicate Serves(s: Sources, m: string)
  {
    exists id :: id in s.live && s.live[id].mountpoint == m
  }

  /** Every slot has one connection, and every connection a slot. */
  ghost predicate Paired(slots: map<string, string>, live: map<nat, Source>)
  {
    && (forall id :: id in live ==> live[id].mountpoint in slots)
    && (forall i, j :: i in live && j in live && i != j ==> live[i].mountpoint != live[j].mountpoint)
    && (forall m :: m in slots ==> exists id :: id in live && live[id].mountpoint == m)
  }

  lemma PairedWithout(slots: map<string, string>, live: map<nat, Source>, id: nat)
    requires Paired(slots, live) && id in live
    ensures Paired(slots - {live[id].mountpoint}, live - {id})
  {
    var m := live[id].mountpoint;
    var rest := live - {id};
    forall m' | m' in slots && m' != m
      ensures exists j :: j in rest && rest[j].mountpoint == m'
    {
      var j :| j in live && live[j].mountpoint == m';
      assert j in rest && rest[j].mountpoint == m';
    }
  }

  lemma OneKeyLess<K, V>(a: map<K, V>, k: K)
    requires k in a
    ensures |a| == |a - {k}| + 1
  {
    assert a.Keys == (a - {k}).Keys + {k};
  }

  lemma NoneLeft(slots: map<string, string>, live: map<nat, Source>)
    requires Paired(slots, live) && live.Keys == {}
    ensures |slots| == |live|
  {
    assert forall m :: m !in slots;
    assert slots.Keys == {};
  }

  lemma {:induction false} PairedSizes(slots: map<string, string>, live: map<nat, Source>)
    requires Paired(slots, live)
    ensures |slots| == |live|
    decreases |live|
  {
    if live.Keys == {} {
      NoneLeft(slots, live);
    } else {
      var id :| id in live;
      PairedWithout(slots, live, id);
      OneKeyLess(live, id);
      OneKeyLess(slots, live[id].mountpoint);
      PairedSizes(slots - {live[id].mountpoint}, live - {id});
    }
  }

  /**
   * While no reply has raised: a source from a new address is turned away as too many exactly when its mountpoint is
   * free and as many connections are open as a limit that is set, as busy exactly when its mountpoint is served, and
   * accepted otherwise.
   */
  lemma DecidedByConnections(steps: seq<Step>, id: nat, mountpoint: string, addr: string, limit: int)
    requires IsRun(EMPTY, steps) && forall k :: 0 <= k < |steps| ==> !steps[k].ReplyRaised?
    requires Enabled(After(EMPTY, steps), Connect(id, mountpoint, addr, limit))
    ensures var s := After(EMPTY, steps);
      Decide(s, mountpoint, addr, limit) ==
        if Serves(s, mountpoint) then Busy else if limit > 0 && |s.live| >= limit then TooMany else Accepted
  {
    var s := After(EMPTY, steps);
    RunKeepsExclusive(EMPTY, steps);
    HeldMeansOpen(EMPTY, steps);
    PairedSizes(s.slots, s.live);
  }

  /** From an idle server: no slot is ever without a connection exactly when no reply of the run raises. */
  lemma AlwaysMannedIff(steps: seq<Step>)
    requires IsRun(EMPTY, steps)
    ensures (forall k :: 0 <= k <= |steps| ==> MannedAfter(EMPTY, steps, k)) <==>
      (forall k :: 0 <= k < |steps| ==> !steps[k].ReplyRaised?)
  {
    RunStaysMannedIff(EMPTY, steps);
  }

  /** A connection whose reply raises: the slot is held, no connection is open, and only its address gets in again. */
  lemma SlotAbandoned(id: nat, mountpoint: string, addr: string, limit: int, other: string)
    requires other != addr
    ensures var steps := [Connect(id, mountpoint, addr, limit), ReplyRaised(id)];
      && IsRun(EMPTY, steps)
      && var s := After(EMPTY, steps);
         s.live == map[] && s.slots == map[mountpoint := addr] &&
         Decide(s, mountpoint, other, limit) == Busy && Decide(s, mountpoint, addr, limit) == Accepted
  {
    var connect, raised := Connect(id, mountpoint, addr, limit), ReplyRaised(id);
    assert [connect, raised][1..] == [raised] && [raised][1..] == [];
    var s := Apply(EMPTY, connect);
    assert IsRun(s, [raised]) && After(s, [raised]) == Apply(s, raised);
  }

  /** Such a slot stays held, and refuses every source but one coming back from the very same address. */
  lemma {:induction false} AbandonedSlotStaysBusy(s: Sources, steps: seq<Step>, m: string)
    requires IsRun(s, steps) && m in s.slots && forall j :: j in s.live ==> s.live[j].mountpoint != m
    requires forall k ::
      0 <= k < |steps| && steps[k].Connect? && steps[k].mountpoint == m ==> steps[k].addr != s.slots[m]
    ensures var t := After(s, steps);
      && m in t.slots && t.slots[m] == s.slots[m]
      && (forall j :: j in t.live ==> t.live[j].mountpoint != m)
      && forall addr, limit :: addr != s.slots[m] ==> Decide(t, m, addr, limit) == Busy
    decreases |steps|
  {
    if steps != [] {
      AbandonedSlotStaysBusy(Apply(s, steps[0]), steps[1..], m);
    }
  }
}
