/**
 * Admission and teardown of rover sessions in src/caster.py. The checks, the insertion into the hub and the
 * counter updates run without suspension in between; the ICY reply and the service of the session do suspend.
 */
module Admissions {
  import Maps

  /** A handler task: sending its reply, serving, or gone because the reply raised. */
  datatype Phase = Replying | Serving | Stranded

  datatype Handler = Handler(ip: string, mountpoint: string, phase: Phase)

  /** `rovers` are the hubs' session sets; `handlers` remembers every session not torn down. */
  datatype Caster = Caster(total: nat, ipCounts: map<string, nat>, rovers: map<string, set<nat>>,
                           idSeq: nat, handlers: map<nat, Handler>)

  const EMPTY: Caster := Caster(0, map[], map[], 0, map[])

  datatype Limits = Limits(total: int, perIp: int)

  predicate Refused(c: Caster, ip: string, limits: Limits)
  {
    (limits.total > 0 && c.total >= limits.total) || (limits.perIp > 0 && Maps.Get(c.ipCounts, ip) >= limits.perIp)
  }

  function Members(rovers: map<string, set<nat>>, mountpoint: string): set<nat>
  {
    if mountpoint in rovers then rovers[mountpoint] else {}
  }

  function Enter(c: Caster, ip: string, mountpoint: string): Caster
  {
    var id := c.idSeq + 1;
    Caster(c.total + 1, c.ipCounts[ip := Maps.Get(c.ipCounts, ip) + 1],
           c.rovers[mountpoint := Members(c.rovers, mountpoint) + {id}], id,
           c.handlers[id := Handler(ip, mountpoint, Replying)])
  }

  /** `max(n - 1, 0)` */
  function Decrement(n: nat): nat { if n > 0 then n - 1 else 0 }

  function Leave(c: Caster, id: nat): Caster
    requires id in c.handlers
  {
    var h := c.handlers[id];
    var count := if h.ip in c.ipCounts then c.ipCounts[h.ip] else 1;
    Caster(Decrement(c.total), c.ipCounts[h.ip := Decrement(count)],
           c.rovers[h.mountpoint := Members(c.rovers, h.mountpoint) - {id}], c.idSeq, c.handlers - {id})
  }

  /** `badHeader`: an `Ntrip-GGA` header does not parse, so logging it raises before the session enters. */
  datatype Step =
    | Admit(ip: string, mountpoint: string, limits: Limits, badHeader: bool)
    | ReplySent(id: nat) | ReplyRaised(id: nat) | Teardown(id: nat)

  predicate Enabled(c: Caster, s: Step)
  {
    match s
    case Admit(_, _, _, _) => true
    case ReplySent(id) => id in c.handlers && c.handlers[id].phase == Replying
    case ReplyRaised(id) => id in c.handlers && c.handlers[id].phase == Replying
    case Teardown(id) => id in c.handlers && c.handlers[id].phase == Serving
  }

  function SetPhase(c: Caster, id: nat, p: Phase): Caster
    requires id in c.handlers
  {
    c.(handlers := c.handlers[id := c.handlers[id].(phase := p)])
  }

  function Apply(c: Caster, s: Step): Caster
    requires Enabled(c, s)
  {
    match s
    case Admit(ip, mountpoint, limits, badHeader) =>
      if Refused(c, ip, limits) then c
      else if badHeader then c.(idSeq := c.idSeq + 1)
      else Enter(c, ip, mountpoint)
    case ReplySent(id) => SetPhase(c, id, Serving)
    case ReplyRaised(id) => SetPhase(c, id, Stranded)
    case Teardown(id) => Leave(c, id)
  }

  predicate IsRun(c: Caster, steps: seq<Step>)
    decreases |steps|
  {
    steps == [] || (Enabled(c, steps[0]) && IsRun(Apply(c, steps[0]), steps[1..]))
  }

  function After(c: Caster, steps: seq<Step>): Caster
    requires IsRun(c, steps)
    decreases |steps|
  {
    if steps == [] then c else After(Apply(c, steps[0]), steps[1..])
  }

  // ----- the books balance -----

  function ByIp(handlers: map<nat, Handler>, ip: string): set<nat>
  {
    set id | id in handlers && handlers[id].ip == ip
  }

  function ByMountpoint(handlers: map<nat, Handler>, mountpoint: string): set<nat>
  {
    set id | id in handlers && handlers[id].mountpoint == mountpoint
  }

  function Sizes(rovers: map<string, set<nat>>): map<string, nat>
  {
    map m | m in rovers :: |rovers[m]|
  }

  /** Per address and per mountpoint, the books show exactly the sessions there are. */
  ghost predicate Exact(c: Caster)
  {
    && (forall id :: id in c.handlers ==> id <= c.idSeq)
    && (forall ip :: Maps.Get(c.ipCounts, ip) == |ByIp(c.handlers, ip)|)
    && (forall m :: Members(c.rovers, m) == ByMountpoint(c.handlers, m))
  }

  ghost predicate Balanced(c: Caster)
  {
    && c.total == |c.handlers|
    && c.total == Maps.Sum(c.ipCounts)
    && c.total == Maps.Sum(Sizes(c.rovers))
  }

  lemma InsertByIp(handlers: map<nat, Handler>, id: nat, h: Handler, ip: string)
    requires id !in handlers
    ensures |ByIp(handlers[id := h], ip)| == |ByIp(handlers, ip)| + (if h.ip == ip then 1 else 0)
  {
    assert id !in ByIp(handlers, ip);
    assert ByIp(handlers[id := h], ip) == ByIp(handlers, ip) + (if h.ip == ip then {id} else {});
  }

  lemma EnterByIp(c: Caster, ip: string, mountpoint: string, other: string)
    requires c.idSeq + 1 !in c.handlers && Maps.Get(c.ipCounts, other) == |ByIp(c.handlers, other)|
    ensures Maps.Get(Enter(c, ip, mountpoint).ipCounts, other) == |ByIp(Enter(c, ip, mountpoint).handlers, other)|
  {
    InsertByIp(c.handlers, c.idSeq + 1, Handler(ip, mountpoint, Replying), other);
  }

  lemma InsertByMountpoint(handlers: map<nat, Handler>, id: nat, h: Handler, m: string)
    requires id !in handlers
    ensures ByMountpoint(handlers[id := h], m) == ByMountpoint(handlers, m) + (if h.mountpoint == m then {id} else {})
  {
  }

  lemma EnterByMountpoint(c: Caster, ip: string, mountpoint: string, other: string)
    requires c.idSeq + 1 !in c.handlers && Members(c.rovers, other) == ByMountpoint(c.handlers, other)
    ensures Members(Enter(c, ip, mountpoint).rovers, other) == ByMountpoint(Enter(c, ip, mountpoint).handlers, other)
  {
    var id := c.idSeq + 1;
    InsertByMountpoint(c.handlers, id, Handler(ip, mountpoint, Replying), other);
    MembersUpdate(c.rovers, mountpoint, id, other);
  }

  lemma MembersUpdate(rovers: map<string, set<nat>>, m: string, id: nat, other: string)
    ensures Members(rovers[m := Members(rovers, m) + {id}], other) ==
      Members(rovers, other) + (if m == other then {id} else {})
  {
  }

  lemma SizesUpdate(rovers: map<string, set<nat>>, m: string, s: set<nat>)
    ensures Maps.Sum(Sizes(rovers[m := s])) + |Members(rovers, m)| == Maps.Sum(Sizes(rovers)) + |s|
  {
    assert Sizes(rovers[m := s]) == Sizes(rovers)[m := |s|];
    Maps.SumUpdate(Sizes(rovers), m, |s|);
  }

  lemma EnterKeepsExact(c: Caster, ip: string, mountpoint: string)
    requires Exact(c)
    ensures Exact(Enter(c, ip, mountpoint))
  {
    var d := Enter(c, ip, mountpoint);
    forall other ensures Maps.Get(d.ipCounts, other) == |ByIp(d.handlers, other)| {
      EnterByIp(c, ip, mountpoint, other);
    }
    forall other ensures Members(d.rovers, other) == ByMountpoint(d.handlers, other) {
      EnterByMountpoint(c, ip, mountpoint, other);
    }
  }

  lemma SizesInsert(rovers: map<string, set<nat>>, m: string, id: nat)
    requires id !in Members(rovers, m)
    ensures Maps.Sum(Sizes(rovers[m := Members(rovers, m) + {id}])) == Maps.Sum(Sizes(rovers)) + 1
  {
    SizesUpdate(rovers, m, Members(rovers, m) + {id});
  }

  lemma SizesRemove(rovers: map<string, set<nat>>, m: string, id: nat)
    requires id in Members(rovers, m)
    ensures Maps.Sum(Sizes(rovers[m := Members(rovers, m) - {id}])) == Maps.Sum(Sizes(rovers)) - 1
  {
    SizesUpdate(rovers, m, Members(rovers, m) - {id});
  }

  lemma EnterCountsIp(c: Caster, ip: string, mountpoint: string)
    ensures Maps.Sum(Enter(c, ip, mountpoint).ipCounts) == Maps.Sum(c.ipCounts) + 1
  {
    Maps.SumUpdate(c.ipCounts, ip, Maps.Get(c.ipCounts, ip) + 1);
  }

  lemma EnterCountsMember(c: Caster, ip: string, mountpoint: string)
    requires c.idSeq + 1 !in Members(c.rovers, mountpoint)
    ensures Maps.Sum(Sizes(Enter(c, ip, mountpoint).rovers)) == Maps.Sum(Sizes(c.rovers)) + 1
  {
    SizesInsert(c.rovers, mountpoint, c.idSeq + 1);
  }

  lemma EnterCountsHandler(c: Caster, ip: string, mountpoint: string)
    requires c.idSeq + 1 !in c.handlers
    ensures |Enter(c, ip, mountpoint).handlers| == |c.handlers| + 1
  {
    Maps.InsertSize(c.handlers, c.idSeq + 1, Handler(ip, mountpoint, Replying));
  }

  lemma EnterKeepsBalanced(c: Caster, ip: string, mountpoint: string)
    requires Balanced(c) && c.idSeq + 1 !in c.handlers && c.idSeq + 1 !in Members(c.rovers, mountpoint)
    ensures Balanced(Enter(c, ip, mountpoint))
  {
    EnterCountsIp(c, ip, mountpoint);
    EnterCountsMember(c, ip, mountpoint);
    EnterCountsHandler(c, ip, mountpoint);
  }

  lemma NewIdUnused(c: Caster, mountpoint: string)
    requires Exact(c)
    ensures c.idSeq + 1 !in c.handlers && c.idSeq + 1 !in Members(c.rovers, mountpoint)
  {
    assert Members(c.rovers, mountpoint) == ByMountpoint(c.handlers, mountpoint);
  }

  lemma EnterKeeps(c: Caster, ip: string, mountpoint: string)
    requires Exact(c) && Balanced(c)
    ensures Exact(Enter(c, ip, mountpoint)) && Balanced(Enter(c, ip, mountpoint))
  {
    NewIdUnused(c, mountpoint);
    EnterKeepsExact(c, ip, mountpoint);
    EnterKeepsBalanced(c, ip, mountpoint);
  }

  /** A session about to be torn down is counted, so none of the `max(..., 0)` clamps binds. */
  lemma ClampsNeverBind(c: Caster, id: nat)
    requires Exact(c) && Balanced(c) && id in c.handlers
    ensures var h := c.handlers[id];
      c.total >= 1 && h.ip in c.ipCounts && c.ipCounts[h.ip] >= 1 && id in Members(c.rovers, h.mountpoint)
  {
    var h := c.handlers[id];
    assert id in ByIp(c.handlers, h.ip);
    assert Maps.Get(c.ipCounts, h.ip) == |ByIp(c.handlers, h.ip)|;
    assert Members(c.rovers, h.mountpoint) == ByMountpoint(c.handlers, h.mountpoint);
    assert id in c.handlers.Keys && |c.handlers| == |c.handlers.Keys|;
  }

  lemma LeaveByIp(c: Caster, id: nat, other: string)
    requires Exact(c) && Balanced(c) && id in c.handlers
    ensures Maps.Get(Leave(c, id).ipCounts, other) == |ByIp(Leave(c, id).handlers, other)|
  {
    var d := Leave(c, id);
    ClampsNeverBind(c, id);
    assert Maps.Get(c.ipCounts, other) == |ByIp(c.handlers, other)|;
    if other == c.handlers[id].ip {
      assert ByIp(d.handlers, other) == ByIp(c.handlers, other) - {id};
      assert id in ByIp(c.handlers, other);
    } else {
      assert ByIp(d.handlers, other) == ByIp(c.handlers, other);
    }
  }

  lemma LeaveByMountpoint(c: Caster, id: nat, other: string)
    requires Exact(c) && id in c.handlers
    ensures Members(Leave(c, id).rovers, other) == ByMountpoint(Leave(c, id).handlers, other)
  {
    var d := Leave(c, id);
    assert Members(c.rovers, other) == ByMountpoint(c.handlers, other);
    if other == c.handlers[id].mountpoint {
      assert ByMountpoint(d.handlers, other) == ByMountpoint(c.handlers, other) - {id};
    } else {
      assert ByMountpoint(d.handlers, other) == ByMountpoint(c.handlers, other);
    }
  }

  lemma LeaveKeepsExact(c: Caster, id: nat)
    requires Exact(c) && Balanced(c) && id in c.handlers
    ensures Exact(Leave(c, id))
  {
    var d := Leave(c, id);
    forall other ensures Maps.Get(d.ipCounts, other) == |ByIp(d.handlers, other)| { LeaveByIp(c, id, other); }
    forall other ensures Members(d.rovers, other) == ByMountpoint(d.handlers, other) {
      LeaveByMountpoint(c, id, other);
    }
  }

  lemma LeaveCountsIp(c: Caster, id: nat)
    requires id in c.handlers && c.handlers[id].ip in c.ipCounts && c.ipCounts[c.handlers[id].ip] >= 1
    ensures Maps.Sum(Leave(c, id).ipCounts) + 1 == Maps.Sum(c.ipCounts)
  {
    var ip := c.handlers[id].ip;
    Maps.SumUpdate(c.ipCounts, ip, c.ipCounts[ip] - 1);
  }

  lemma LeaveCountsMember(c: Caster, id: nat)
    requires id in c.handlers && id in Members(c.rovers, c.handlers[id].mountpoint)
    ensures Maps.Sum(Sizes(Leave(c, id).rovers)) + 1 == Maps.Sum(Sizes(c.rovers))
  {
    SizesRemove(c.rovers, c.handlers[id].mountpoint, id);
  }

  lemma LeaveCountsHandler(c: Caster, id: nat)
    requires id in c.handlers
    ensures |Leave(c, id).handlers| + 1 == |c.handlers|
  {
    Maps.RemoveSize(c.handlers, id);
  }

  lemma LeaveKeepsBalanced(c: Caster, id: nat)
    requires Balanced(c) && id in c.handlers && c.total >= 1
    requires var h := c.handlers[id];
      h.ip in c.ipCounts && c.ipCounts[h.ip] >= 1 && id in Members(c.rovers, h.mountpoint)
    ensures Balanced(Leave(c, id))
  {
    LeaveCountsIp(c, id);
    LeaveCountsMember(c, id);
    LeaveCountsHandler(c, id);
  }

  lemma LeaveKeeps(c: Caster, id: nat)
    requires Exact(c) && Balanced(c) && id in c.handlers
    ensures Exact(Leave(c, id)) && Balanced(Leave(c, id))
  {
    ClampsNeverBind(c, id);
    LeaveKeepsExact(c, id);
    LeaveKeepsBalanced(c, id);
  }

  lemma SetPhaseKeeps(c: Caster, id: nat, p: Phase)
    requires Exact(c) && Balanced(c) && id in c.handlers
    ensures Exact(SetPhase(c, id, p)) && Balanced(SetPhase(c, id, p))
  {
    var d := SetPhase(c, id, p);
    assert d.handlers.Keys == c.handlers.Keys;
    forall ip ensures ByIp(d.handlers, ip) == ByIp(c.handlers, ip) { }
    forall m ensures ByMountpoint(d.handlers, m) == ByMountpoint(c.handlers, m) { }
    assert |d.handlers| == |d.handlers.Keys| && |c.handlers| == |c.handlers.Keys|;
    assert forall ip :: Maps.Get(d.ipCounts, ip) == |ByIp(c.handlers, ip)|;
  }

  lemma ApplyKeeps(c: Caster, s: Step)
    requires Exact(c) && Balanced(c) && Enabled(c, s)
    ensures Exact(Apply(c, s)) && Balanced(Apply(c, s))
  {
    match s
    case Admit(ip, mountpoint, _, _) => EnterKeeps(c, ip, mountpoint);
    case ReplySent(id) => SetPhaseKeeps(c, id, Serving);
    case ReplyRaised(id) => SetPhaseKeeps(c, id, Stranded);
    case Teardown(id) => LeaveKeeps(c, id);
  }

  lemma {:induction false} RunKeeps(c: Caster, steps: seq<Step>)
    requires Exact(c) && Balanced(c) && IsRun(c, steps)
    ensures Exact(After(c, steps)) && Balanced(After(c, steps))
    decreases |steps|
  {
    if steps != [] {
      ApplyKeeps(c, steps[0]);
      RunKeeps(Apply(c, steps[0]), steps[1..]);
    }
  }

  /**
   * At every point between steps of every run, replies that raise included: the total is the sum of the
   * per-address counts and of the hubs' set sizes, and each of those is exact.
   */
  lemma AccountsBalance(steps: seq<Step>)
    requires IsRun(EMPTY, steps)
    ensures var c := After(EMPTY, steps);
      && c.total == Maps.Sum(c.ipCounts) == Maps.Sum(Sizes(c.rovers)) == |c.handlers|
      && (forall ip :: Maps.Get(c.ipCounts, ip) == |ByIp(c.handlers, ip)|)
      && (forall m :: Members(c.rovers, m) == ByMountpoint(c.handlers, m))
  {
    EmptyBalanced();
    RunKeeps(EMPTY, steps);
  }

  lemma EmptyBalanced()
    ensures Exact(EMPTY) && Balanced(EMPTY)
  {
    forall ip ensures ByIp(EMPTY.handlers, ip) == {} { }
    forall m ensures ByMountpoint(EMPTY.handlers, m) == {} { }
    assert Sizes(EMPTY.rovers) == map[];
  }

  // ----- limits -----

  ghost predicate Within(c: Caster, limits: Limits)
  {
    && (limits.total > 0 ==> c.total <= limits.total)
    && (limits.perIp > 0 ==> forall ip :: Maps.Get(c.ipCounts, ip) <= limits.perIp)
  }

  /** Under fixed limits neither the total nor any per-address count ever exceeds its limit. */
  /**
   * After any run, replies that raised included: a rover is refused exactly when the sessions there are, or those
   * of its address, are as many as a limit that is set.
   */
  lemma RefusedIffFull(steps: seq<Step>, ip: string, limits: Limits)
    requires IsRun(EMPTY, steps)
    ensures var c := After(EMPTY, steps);
      Refused(c, ip, limits) <==>
        || (limits.total > 0 && |c.handlers| >= limits.total)
        || (limits.perIp > 0 && |ByIp(c.handlers, ip)| >= limits.perIp)
  {
    EmptyBalanced();
    RunKeeps(EMPTY, steps);
  }

  lemma {:induction false} LimitsHold(c: Caster, steps: seq<Step>, limits: Limits)
    requires IsRun(c, steps) && Exact(c) && Balanced(c) && Within(c, limits)
    requires forall k :: 0 <= k < |steps| && steps[k].Admit? ==> steps[k].limits == limits
    ensures Within(After(c, steps), limits)
    decreases |steps|
  {
    if steps != [] {
      ApplyKeeps(c, steps[0]);
      StepWithin(c, steps[0], limits);
      LimitsHold(Apply(c, steps[0]), steps[1..], limits);
    }
  }

  lemma StepWithin(c: Caster, s: Step, limits: Limits)
    requires Enabled(c, s) && Exact(c) && Balanced(c) && Within(c, limits) && (s.Admit? ==> s.limits == limits)
    ensures Within(Apply(c, s), limits)
  {
    var d := Apply(c, s);
    if s.Teardown? {
      ClampsNeverBind(c, s.id);
      assert forall ip :: Maps.Get(d.ipCounts, ip) <= Maps.Get(c.ipCounts, ip);
    } else if s.Admit? && !Refused(c, s.ip, limits) {
      assert forall ip :: ip != s.ip ==> Maps.Get(d.ipCounts, ip) == Maps.Get(c.ipCounts, ip);
    }
  }

  // ----- sessions nobody serves -----

  function StrandedIn(handlers: map<nat, Handler>): set<nat>
  {
    set id | id in handlers && handlers[id].phase == Stranded
  }

  function ServedIn(handlers: map<nat, Handler>): set<nat>
  {
    set id | id in handlers && handlers[id].phase != Stranded
  }

  function Raised(steps: seq<Step>): nat
  {
    if steps == [] then 0 else (if steps[0].ReplyRaised? then 1 else 0) + Raised(steps[1..])
  }

  lemma StepStrands(c: Caster, s: Step)
    requires Enabled(c, s) && Exact(c)
    ensures |StrandedIn(Apply(c, s).handlers)| == |StrandedIn(c.handlers)| + (if s.ReplyRaised? then 1 else 0)
  {
    match s
    case Admit(ip, mountpoint, limits, badHeader) =>
      if !Refused(c, ip, limits) && !badHeader {
        PhaseChange(c.handlers, c.idSeq + 1, Handler(ip, mountpoint, Replying));
      }
    case ReplySent(id) => PhaseChange(c.handlers, id, c.handlers[id].(phase := Serving));
    case ReplyRaised(id) => PhaseChange(c.handlers, id, c.handlers[id].(phase := Stranded));
    case Teardown(id) => assert StrandedIn(c.handlers - {id}) == StrandedIn(c.handlers);
  }

  lemma PhaseChange(handlers: map<nat, Handler>, id: nat, h: Handler)
    requires id in handlers ==> handlers[id].phase != Stranded
    ensures |StrandedIn(handlers[id := h])| == |StrandedIn(handlers)| + (if h.phase == Stranded then 1 else 0)
  {
    assert id !in StrandedIn(handlers);
    assert StrandedIn(handlers[id := h]) == StrandedIn(handlers) + (if h.phase == Stranded then {id} else {});
  }

  lemma {:induction false} RunStrands(c: Caster, steps: seq<Step>)
    requires IsRun(c, steps) && Exact(c) && Balanced(c)
    ensures |StrandedIn(After(c, steps).handlers)| == |StrandedIn(c.handlers)| + Raised(steps)
    decreases |steps|
  {
    if steps != [] {
      StepStrands(c, steps[0]);
      ApplyKeeps(c, steps[0]);
      RunStrands(Apply(c, steps[0]), steps[1..]);
    }
  }

  /**
   * The counters do not say how many sessions are served: every reply that raised leaves one counted
   * session behind for good. They agree exactly when no reply ever raised.
   */
  lemma CountedAreServedOrStranded(steps: seq<Step>)
    requires IsRun(EMPTY, steps)
    ensures var c := After(EMPTY, steps);
      var served := |ServedIn(c.handlers)|;
      c.total == served + Raised(steps) && (c.total == served <==> Raised(steps) == 0)
  {
    EmptyBalanced();
    assert StrandedIn(EMPTY.handlers) == {};
    RunKeeps(EMPTY, steps);
    RunStrands(EMPTY, steps);
    SplitStranded(After(EMPTY, steps).handlers);
  }

  lemma SplitStranded(handlers: map<nat, Handler>)
    ensures |handlers| == |ServedIn(handlers)| + |StrandedIn(handlers)|
  {
    var all := ServedIn(handlers) + StrandedIn(handlers);
    assert handlers.Keys == all;
    assert |all| == |ServedIn(handlers)| + |StrandedIn(handlers)|;
    assert |handlers| == |handlers.Keys|;
  }

  /** Once as many replies have raised as the total limit allows sessions, every rover is refused. */
  lemma StrandedSessionsExhaustLimit(steps: seq<Step>, ip: string, limits: Limits)
    requires IsRun(EMPTY, steps) && limits.total > 0 && Raised(steps) >= limits.total
    ensures Refused(After(EMPTY, steps), ip, limits)
  {
    CountedAreServedOrStranded(steps);
  }

  /** A shortest run that strands a session: admitted, then the reply raises. */
  lemma StrandingHappens(ip: string, mountpoint: string, limits: Limits)
    requires !Refused(EMPTY, ip, limits)
    ensures var steps := [Admit(ip, mountpoint, limits, false), ReplyRaised(1)];
      IsRun(EMPTY, steps) && After(EMPTY, steps).total == 1 && Raised(steps) == 1
  {
    var a, r := Admit(ip, mountpoint, limits, false), ReplyRaised(1);
    assert [a, r][1..] == [r] && [r][1..] == [];
    var c := Apply(EMPTY, a);
    assert IsRun(c, [r]);
    assert After(c, [r]) == Apply(c, r);
    assert Raised([r]) == 1;
  }

  // ----- the object -----

  datatype Admission = SentAway | Raises | Entered(id: nat)

  class NtripCaster {
    var roverTotal: nat
    var roverIpCounts: map<string, nat>
    var rovers: map<string, set<nat>>
    var idSeq: nat
    ghost var handlers: map<nat, Handler>

    ghost function View(): Caster
      reads this
    {
      Caster(roverTotal, roverIpCounts, rovers, idSeq, handlers)
    }

    constructor ()
      ensures View() == EMPTY
    {
      roverTotal, roverIpCounts, rovers, idSeq, handlers := 0, map[], map[], 0, map[];
    }

    /** From the limit checks to the counter updates. */
    method AdmitRover(ip: string, mountpoint: string, maxTotal: int, maxPerIp: int, badHeader: bool)
      returns (r: Admission)
      modifies this
      ensures View() == Apply(old(View()), Admit(ip, mountpoint, Limits(maxTotal, maxPerIp), badHeader))
      ensures r == if Refused(old(View()), ip, Limits(maxTotal, maxPerIp)) then SentAway
                   else if badHeader then Raises else Entered(old(idSeq) + 1)
    {
      if maxTotal > 0 && roverTotal >= maxTotal {
        return SentAway;
      }
      if maxPerIp > 0 && Maps.Get(roverIpCounts, ip) >= maxPerIp {
        return SentAway;
      }
      idSeq := idSeq + 1;
      if badHeader {
        return Raises;
      }
      rovers := rovers[mountpoint := Members(rovers, mountpoint) + {idSeq}];
      roverTotal := roverTotal + 1;
      roverIpCounts := roverIpCounts[ip := Maps.Get(roverIpCounts, ip) + 1];
      handlers := handlers[idSeq := Handler(ip, mountpoint, Replying)];
      return Entered(idSeq);
    }

    /** The end of the handler, after one of the session's tasks finished. */
    method TeardownRover(id: nat, ip: string, mountpoint: string)
      requires Enabled(View(), Teardown(id)) && handlers[id].ip == ip && handlers[id].mountpoint == mountpoint
      modifies this
      ensures View() == Apply(old(View()), Teardown(id))
    {
      rovers := rovers[mountpoint := Members(rovers, mountpoint) - {id}];
      roverTotal := Decrement(roverTotal);
      var count := if ip in roverIpCounts then roverIpCounts[ip] else 1;
      roverIpCounts := roverIpCounts[ip := Decrement(count)];
      handlers := handlers - {id};
    }
  }
}
