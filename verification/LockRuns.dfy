/**
 What the events of a run say about its state, read off the run itself: which phase each
 command is in, when it began, when each lock last had a heartbeat, what the clock shows;
 and how a command ends that no other event interrupts.
 */
module LockRuns {
  import opened Wrappers
  import opened LockScopes
  import opened LockRegistries
  import opened LockCommands
  import opened LockProtocol

  // ------------------------------------------------------------------------
  // Phases
  // ------------------------------------------------------------------------

  /** The event is a step of this command. */
  predicate IsStepOf(e: Event, c: CommandId) {
    match e
    case Begin(d, _, _) => c == d
    case AcquireNext(d) => c == d
    case LookUp(d) => c == d
    case PoolAnswer(d, _) => c == d
    case Finish(d) => c == d
    case ReleaseNext(d) => c == d
    case Return(d) => c == d
    case _ => false
  }

  /** What the steps of a command say about its phase. */
  ghost predicate PhaseTold(events: seq<Event>, s: State, c: CommandId) {
    if c !in s.commands then forall n | 0 <= n < |events| :: !IsStepOf(events[n], c)
    else
      var phase := s.commands[c].phase;
      && (phase == Abandoned <==> PoolAnswer(c, false) in events)
      && (phase == Holding <==> PoolAnswer(c, true) in events && Finish(c) !in events)
      && (phase == Releasing <==> Finish(c) in events && Return(c) !in events)
      && (phase == Returned <==> Return(c) in events)
      && (Finish(c) in events ==> PoolAnswer(c, true) in events)
  }

  /** How each step moves the phase. */
  lemma PhaseStep(s: State, e: Event, c: CommandId)
    requires Enabled(s, e)
    ensures c in Apply(s, e).commands <==> c in s.commands || (e.Begin? && e.c == c)
    ensures c in s.commands ==>
      var before, after := s.commands[c].phase, Apply(s, e).commands[c].phase;
      if !IsStepOf(e, c) then after == before
      else match e
        case AcquireNext(_) => before == Acquiring && (after == Looking || after == RollingBack)
        case LookUp(_) => before == Looking && (after == Acquiring || after == Panicked)
        case PoolAnswer(_, hit) => before == Acquiring && after == if hit then Holding else Abandoned
        case Finish(_) => before == Holding && after == Releasing
        case ReleaseNext(_) => after == before && (before == RollingBack || before == Releasing)
        case Return(_) => (before == RollingBack || before == Releasing) && after == Returned
        case _ => false
    ensures c !in s.commands && c in Apply(s, e).commands ==> Apply(s, e).commands[c].phase == Acquiring
    ensures c !in s.commands && IsStepOf(e, c) ==> e.Begin?
  {
  }

  lemma MemberSnoc(events: seq<Event>, e: Event, x: Event)
    ensures x in events + [e] <==> x in events || x == e
  {
  }

  lemma NotYet(events: seq<Event>, c: CommandId)
    requires forall n | 0 <= n < |events| :: !IsStepOf(events[n], c)
    ensures forall e | e in events :: !IsStepOf(e, c)
  {
  }

  lemma PhaseToldStep(events: seq<Event>, s: State, e: Event, c: CommandId)
    requires PhaseTold(events, s, c) && Enabled(s, e)
    ensures PhaseTold(events + [e], Apply(s, e), c)
  {
    PhaseStep(s, e, c);
    MemberSnoc(events, e, PoolAnswer(c, false));
    MemberSnoc(events, e, PoolAnswer(c, true));
    MemberSnoc(events, e, Finish(c));
    MemberSnoc(events, e, Return(c));
    if c !in s.commands {
      NotYet(events, c);
    }
  }

  /**
   In every reachable state a command is abandoned exactly when the client pool has
   answered it with a miss; at work exactly when it was answered with a client and has not
   finished; giving its locks back after the work exactly when it has finished and not
   returned; and it has returned exactly when it took that step.
   */
  lemma {:induction false} PhaseExact(events: seq<Event>, s: State, c: CommandId)
    requires Reaches(events, s)
    ensures PhaseTold(events, s, c)
    decreases |events|
  {
    if events == [] {
    } else {
      var last := |events| - 1;
      var before :| Reaches(events[..last], before) && Enabled(before, events[last])
        && s == Apply(before, events[last]);
      PhaseExact(events[..last], before, c);
      PhaseToldStep(events[..last], before, events[last], c);
      assert events == events[..last] + [events[last]];
    }
  }

  /** What is left to give back: the locks from the k-th on, of a copy or move the destination's first. */
  ghost predicate InOrder(cmd: Command, k: nat) {
    match cmd.phase
    case RollingBack => k <= |cmd.ids| && cmd.pending == cmd.ids[k..]
    case Releasing =>
      if cmd.request.Transfer? then k <= 2 == |cmd.ids| && cmd.pending == [cmd.ids[1], cmd.ids[0]][k..]
      else k <= |cmd.ids| && cmd.pending == cmd.ids[k..]
    case _ => true
  }

  lemma OrderStep(s: State, e: Event, c: CommandId, k: nat) returns (k': nat)
    requires Enabled(s, e) && c in s.commands && InOrder(s.commands[c], k)
    requires s.commands[c].phase == Holding && s.commands[c].request.Transfer? ==> |s.commands[c].ids| == 2
    ensures InOrder(Apply(s, e).commands[c], k')
  {
    k' := if e == ReleaseNext(c) then k + 1 else if e == AcquireNext(c) || e == Finish(c) then 0 else k;
    PhaseStep(s, e, c);
  }

  lemma HoldsBoth(s: State, c: CommandId)
    requires Inv(s) && AsRequested(s) && c in s.commands
    requires s.commands[c].phase == Holding && s.commands[c].request.Transfer?
    ensures |s.commands[c].ids| == 2
  {
    assert Owns(s, c, s.commands[c]);
  }

  /** In every reachable state a command gives back what it holds in this order. */
  lemma {:induction false} GivesBackInOrder(events: seq<Event>, s: State, c: CommandId) returns (k: nat)
    requires Reaches(events, s) && c in s.commands
    ensures InOrder(s.commands[c], k)
    decreases |events|
  {
    var last := |events| - 1;
    var b :| Reaches(events[..last], b) && Enabled(b, events[last]) && s == Apply(b, events[last]);
    if c in b.commands {
      k := GivesBackInOrder(events[..last], b, c);
      if b.commands[c].phase == Holding && b.commands[c].request.Transfer? {
        InvReachable(events[..last], b);
        WantedAsRequested(events[..last], b);
        HoldsBoth(b, c);
      }
      k := OrderStep(b, events[last], c, k);
    } else {
      PhaseStep(b, events[last], c);
      k := 0;
    }
  }

  // ------------------------------------------------------------------------
  // Clocks and heartbeats
  // ------------------------------------------------------------------------

  /** The run is at this state before its n-th event. */
  ghost predicate At(events: seq<Event>, n: nat, before: State) {
    n < |events| && Reaches(events[..n], before)
  }

  /** No later event sets the clock. */
  ghost predicate SetLast(events: seq<Event>, n: nat) {
    n < |events| && events[n].SetClock? && forall m | n < m < |events| :: !events[m].SetClock?
  }

  lemma ClockStep(s: State, e: Event)
    requires Enabled(s, e)
    ensures Apply(s, e).clock == if e.SetClock? then e.to else s.clock
  {
  }

  /** The clock shows what it was last set to, and zero if it never was. */
  lemma {:induction false} ClockExact(events: seq<Event>, s: State) returns (n: int)
    requires Reaches(events, s)
    ensures n == -1 || (0 <= n && SetLast(events, n) && s.clock == events[n].to)
    ensures n == -1 ==> s.clock == 0 && forall m | 0 <= m < |events| :: !events[m].SetClock?
    decreases |events|
  {
    if events == [] {
      n := -1;
    } else {
      var last := |events| - 1;
      var before :| Reaches(events[..last], before) && Enabled(before, events[last])
        && s == Apply(before, events[last]);
      ClockStep(before, events[last]);
      var m := ClockExact(events[..last], before);
      n := if events[last].SetClock? then last else m;
      assert forall k | 0 <= k < last :: events[..last][k] == events[k];
    }
  }

  lemma BeginStep(s: State, e: Event, c: CommandId)
    requires Enabled(s, e) && c in Apply(s, e).commands
    ensures var cmd := Apply(s, e).commands[c];
      if c in s.commands then cmd.startedAt == s.commands[c].startedAt && cmd.request == s.commands[c].request
      else e.Begin? && e.c == c && cmd.startedAt == s.clock && cmd.request == e.request
  {
  }

  /** A command began with its request, and read the clock at that event. */
  lemma {:induction false} BegunWhen(events: seq<Event>, s: State, c: CommandId) returns (n: nat, before: State)
    requires Reaches(events, s) && c in s.commands
    ensures At(events, n, before) && events[n].Begin? && events[n].c == c
    ensures events[n].request == s.commands[c].request && before.clock == s.commands[c].startedAt
    decreases |events|
  {
    var last := |events| - 1;
    var b :| Reaches(events[..last], b) && Enabled(b, events[last]) && s == Apply(b, events[last]);
    BeginStep(b, events[last], c);
    if c in b.commands {
      n, before := BegunWhen(events[..last], b, c);
      assert events[..last][..n] == events[..n];
    } else {
      n, before := last, b;
    }
  }

  /** A lock was granted by this event, or it had a heartbeat. */
  ghost predicate Dates(before: State, e: Event, id: LockId, date: int) {
    if e.AcquireNext? then id == before.nextId && e.c in before.commands && date == before.commands[e.c].startedAt
    else e == Heartbeat(id) && id in before.locks && date == before.clock
  }

  lemma DateStep(s: State, e: Event, id: LockId)
    requires Inv(s) && Enabled(s, e) && id in Apply(s, e).locks
    ensures Dates(s, e, id, Apply(s, e).locks[id].lastHeartbeatAt) ||
            (id in s.locks && e != Heartbeat(id)
             && s.locks[id].lastHeartbeatAt == Apply(s, e).locks[id].lastHeartbeatAt)
  {
    FreshId(s);
    assert id in s.locks ==> LockOk(s, id);
  }

  /** The n-th event is the latest to date the lock. */
  ghost predicate Dated(events: seq<Event>, id: LockId, date: int, n: nat, before: State) {
    && At(events, n, before)
    && Dates(before, events[n], id, date)
    && forall m | n < m < |events| :: events[m] != Heartbeat(id)
  }

  lemma DatedNow(events: seq<Event>, s: State, e: Event, id: LockId, date: int)
    requires Reaches(events, s) && Dates(s, e, id, date)
    ensures Dated(events + [e], id, date, |events|, s)
  {
    assert (events + [e])[..|events|] == events;
  }

  lemma DatedBefore(events: seq<Event>, e: Event, id: LockId, date: int, n: nat, before: State)
    requires Dated(events, id, date, n, before) && e != Heartbeat(id)
    ensures Dated(events + [e], id, date, n, before)
  {
    assert (events + [e])[..n] == events[..n];
  }

  /**
   A live lock's last heartbeat is the instant the clock showed at the latest Heartbeat
   event for it, or, if it had none, the instant its command had read.
   */
  lemma {:induction false} HeartbeatExact(events: seq<Event>, s: State, id: LockId) returns (n: nat, before: State)
    requires Reaches(events, s) && id in s.locks
    ensures Dated(events, id, s.locks[id].lastHeartbeatAt, n, before)
    decreases |events|
  {
    var init, e, date := events[..|events| - 1], events[|events| - 1], s.locks[id].lastHeartbeatAt;
    var b :| Reaches(init, b) && Enabled(b, e) && s == Apply(b, e);
    assert events == init + [e];
    InvReachable(init, b);
    DateStep(b, e, id);
    if Dates(b, e, id, date) {
      n, before := |init|, b;
      DatedNow(init, b, e, id, date);
    } else {
      n, before := HeartbeatExact(init, b, id);
      DatedBefore(init, e, id, date, n, before);
    }
  }

  /** A manual release found the lock live. */
  ghost predicate Overrides(events: seq<Event>, n: nat, before: State, id: LockId) {
    At(events, n, before) && events[n] == Override(id) && id in before.locks
  }

  lemma OverrideStep(s: State, e: Event, id: LockId)
    requires Enabled(s, e)
    ensures id in Apply(s, e).overridden <==> id in s.overridden || (e == Override(id) && id in s.locks)
  {
  }

  lemma OverridesLater(events: seq<Event>, e: Event, n: nat, before: State, id: LockId)
    requires Overrides(events, n, before, id)
    ensures Overrides(events + [e], n, before, id)
  {
    assert (events + [e])[..n] == events[..n];
  }

  /** Events determine the state. */
  lemma {:induction false} SameState(events: seq<Event>, a: State, b: State)
    requires Reaches(events, a) && Reaches(events, b)
    ensures a == b
    decreases |events|
  {
    if events == [] {
    } else {
      var last := |events| - 1;
      var a' :| Reaches(events[..last], a') && Enabled(a', events[last]) && a == Apply(a', events[last]);
      var b' :| Reaches(events[..last], b') && Enabled(b', events[last]) && b == Apply(b', events[last]);
      SameState(events[..last], a', b');
    }
  }

  lemma OverrideWas(events: seq<Event>, e: Event, s: State, n: nat, before: State, id: LockId)
    requires Reaches(events, s) && Overrides(events + [e], n, before, id)
    ensures Overrides(events, n, before, id) || (e == Override(id) && id in s.locks)
  {
    assert (events + [e])[..n] == events[..n];
    if n == |events| {
      assert events[..n] == events;
      SameState(events, s, before);
    }
  }

  /** A lock is noted as released manually exactly when the run released it so while it was live. */
  lemma {:induction false} OverriddenExact(events: seq<Event>, s: State, id: LockId)
    requires Reaches(events, s)
    ensures id in s.overridden <==> exists n: nat, before :: Overrides(events, n, before, id)
    decreases |events|
  {
    if events == [] {
    } else {
      var last := |events| - 1;
      var init, e := events[..last], events[last];
      var b :| Reaches(init, b) && Enabled(b, e) && s == Apply(b, e);
      assert events == init + [e];
      OverriddenExact(init, b, id);
      OverrideStep(b, e, id);
      if id in b.overridden {
        var n: nat, before :| Overrides(init, n, before, id);
        OverridesLater(init, e, n, before, id);
      } else if id in s.overridden {
        assert Overrides(events, last, b, id);
      }
      if n: nat, before :| Overrides(events, n, before, id) {
        OverrideWas(init, e, b, n, before, id);
      }
    }
  }

  // ------------------------------------------------------------------------
  // A command on its own
  // ------------------------------------------------------------------------

  /** From `s0` to `s` by steps of one command only. */
  ghost predicate Alone(s0: State, c: CommandId, own: seq<Event>, s: State)
    decreases |own|
  {
    if own == [] then s == s0
    else
      var last := |own| - 1;
      IsStepOf(own[last], c) && Faithful(own[last]) &&
      exists before :: Alone(s0, c, own[..last], before) && Enabled(before, own[last]) && s == Apply(before, own[last])
  }

  /** `after` is `before` and these locks besides. */
  ghost predicate Besides(before: Locks, after: Locks, ids: seq<LockId>) {
    && (forall m, n | 0 <= m < n < |ids| :: ids[m] != ids[n])
    && (forall n | 0 <= n < |ids| :: ids[n] !in before)
    && (forall i :: i in after <==> i in before || i in ids)
    && (forall i | i in before :: after[i] == before[i])
  }

  /** All the locks a command wants can be granted. */
  ghost predicate Grantable(locks: Locks, wanted: seq<Wanted>) {
    Compatible(wanted) && AllFree(locks, wanted)
  }

  /** Where a command that runs alone stands. */
  ghost predicate OnCourse(locks: Locks, now: Instant, after: Locks, cmd: Command) {
    && cmd.startedAt == now && |cmd.ids| <= |cmd.wanted| && cmd.wanted == cmd.request.WantedLocks()
    && match cmd.phase
       case RollingBack => Besides(locks, after, cmd.pending) && !Grantable(locks, cmd.wanted)
       case Releasing => Besides(locks, after, cmd.pending) && Grantable(locks, cmd.wanted)
       case Returned => after == locks
       case Panicked => false
       case phase =>
         && GrantedAll(locks, after, cmd.ids, cmd.wanted[..|cmd.ids|], now)
         && Grantable(locks, cmd.wanted[..|cmd.ids|])
         && (phase == Looking ==> cmd.ids != [])
         && (phase == Holding || phase == Abandoned ==> |cmd.ids| == |cmd.wanted|)
  }

  lemma GrantedBesides(before: Locks, after: Locks, ids: seq<LockId>, wanted: seq<Wanted>, now: Instant)
    requires GrantedAll(before, after, ids, wanted, now)
    ensures Besides(before, after, ids)
  {
  }

  /** A pair given back in the other order is the same pair. */
  lemma ReorderBesides(before: Locks, after: Locks, request: Request, ids: seq<LockId>)
    requires Besides(before, after, ids)
    ensures Besides(before, after, request.ReleaseOrder(ids))
  {
    var order := request.ReleaseOrder(ids);
    if order != ids {
      assert ids == [ids[0], ids[1]] && order == [ids[1], ids[0]];
      assert forall i :: i in ids <==> i in order;
    }
  }

  lemma BesidesFewer(before: Locks, after: Locks, ids: seq<LockId>)
    requires Besides(before, after, ids) && ids != []
    ensures Besides(before, after - {ids[0]}, ids[1..])
  {
    assert forall i :: i in ids <==> i == ids[0] || i in ids[1..];
    assert forall i | i in ids[1..] :: i != ids[0];
  }

  lemma BesidesNothing(before: Locks, after: Locks)
    requires Besides(before, after, [])
    ensures after == before
  {
    assert after.Keys == before.Keys;
  }

  /** The next lock of a command on course is refused exactly when the command cannot have them all. */
  lemma NextRefused(locks: Locks, now: Instant, after: Locks, ids: seq<LockId>, wanted: seq<Wanted>)
    requires |ids| < |wanted|
    requires GrantedAll(locks, after, ids, wanted[..|ids|], now) && Grantable(locks, wanted[..|ids|])
    ensures Free(after, wanted[|ids|].scope) ==> Grantable(locks, wanted[..|ids| + 1])
    ensures !Free(after, wanted[|ids|].scope) ==> !Grantable(locks, wanted)
  {
    var k := |ids|;
    FreeAfterGrants(locks, after, ids, wanted[..k], now, wanted[k].scope);
    assert wanted[..k + 1] == wanted[..k] + [wanted[k]];
    if !Free(after, wanted[k].scope) && Grantable(locks, wanted) {
      forall n | 0 <= n < k ensures !wanted[..k][n].scope.Intersects(wanted[k].scope) {
        assert wanted[..k][n] == wanted[n];
      }
    }
  }

  lemma NextGranted(
      locks: Locks, now: Instant, after: Locks, ids: seq<LockId>, wanted: seq<Wanted>, id: LockId)
    requires |ids| < |wanted| && id !in after && Free(after, wanted[|ids|].scope)
    requires GrantedAll(locks, after, ids, wanted[..|ids|], now) && Grantable(locks, wanted[..|ids|])
    ensures var next := wanted[|ids|]; var ids' := ids + [id];
      && GrantedAll(locks, Grant(after, id, next.scope, next.opName, LOCK_TTL, now), ids', wanted[..|ids'|], now)
      && Grantable(locks, wanted[..|ids'|])
  {
    var k := |ids|;
    NextRefused(locks, now, after, ids, wanted);
    GrantOneMore(locks, after, ids, wanted[..k], now, id, wanted[k]);
    assert wanted[..k + 1] == wanted[..k] + [wanted[k]];
  }

  lemma GrantOnCourse(locks: Locks, now: Instant, after: Locks, cmd: Command, id: LockId)
    requires cmd.phase == Acquiring && |cmd.ids| < |cmd.wanted| && OnCourse(locks, now, after, cmd) && id !in after
    requires Free(after, cmd.wanted[|cmd.ids|].scope)
    ensures var next := cmd.wanted[|cmd.ids|];
      var after' := Grant(after, id, next.scope, next.opName, LOCK_TTL, now);
      OnCourse(locks, now, after', cmd.(ids := cmd.ids + [id], phase := Looking))
  {
    NextGranted(locks, now, after, cmd.ids, cmd.wanted, id);
  }

  lemma RefusedOnCourse(locks: Locks, now: Instant, after: Locks, cmd: Command)
    requires cmd.phase == Acquiring && |cmd.ids| < |cmd.wanted| && OnCourse(locks, now, after, cmd)
    requires !Free(after, cmd.wanted[|cmd.ids|].scope)
    ensures OnCourse(locks, now, after, cmd.(phase := RollingBack, pending := cmd.ids))
  {
    NextRefused(locks, now, after, cmd.ids, cmd.wanted);
    GrantedBesides(locks, after, cmd.ids, cmd.wanted[..|cmd.ids|], now);
  }

  lemma FinishedOnCourse(locks: Locks, now: Instant, after: Locks, cmd: Command)
    requires cmd.phase == Holding && OnCourse(locks, now, after, cmd)
    ensures OnCourse(locks, now, after, cmd.(phase := Releasing, pending := cmd.request.ReleaseOrder(cmd.ids)))
  {
    assert cmd.wanted[..|cmd.ids|] == cmd.wanted;
    GrantedBesides(locks, after, cmd.ids, cmd.wanted, now);
    ReorderBesides(locks, after, cmd.request, cmd.ids);
  }

  lemma ReleasedOnCourse(locks: Locks, now: Instant, after: Locks, cmd: Command)
    requires GivingBack(cmd) && cmd.pending != [] && OnCourse(locks, now, after, cmd)
    ensures OnCourse(locks, now, after - {cmd.pending[0]}, cmd.(pending := cmd.pending[1..]))
  {
    BesidesFewer(locks, after, cmd.pending);
  }

  lemma ReturnedOnCourse(locks: Locks, now: Instant, after: Locks, cmd: Command)
    requires GivingBack(cmd) && cmd.pending == [] && OnCourse(locks, now, after, cmd)
    ensures OnCourse(locks, now, after, cmd.(phase := Returned))
  {
    BesidesNothing(locks, after);
  }

  lemma LookedUpOnCourse(s0: State, s: State, c: CommandId)
    requires IsLooking(s, c) && OnCourse(s0.locks, s0.clock, s.locks, s.commands[c])
    ensures var s' := LookedUp(s, c); OnCourse(s0.locks, s0.clock, s'.locks, s'.commands[c])
  {
    var ids := s.commands[c].ids;
    assert ids[|ids| - 1] in ids;
  }

  lemma BegunOnCourse(s0: State, c: CommandId, request: Request)
    ensures OnCourse(s0.locks, s0.clock, s0.locks, Command(request, request.WantedLocks(), s0.clock, [], [], Acquiring))
  {
    var wanted := request.WantedLocks();
    assert wanted[..0] == [];
    assert GrantedAll(s0.locks, s0.locks, [], [], s0.clock);
  }

  lemma CourseStep(s0: State, s: State, e: Event, c: CommandId)
    requires Inv(s) && Enabled(s, e) && IsStepOf(e, c) && c in s.commands
    requires OnCourse(s0.locks, s0.clock, s.locks, s.commands[c])
    ensures c in Apply(s, e).commands
    ensures OnCourse(s0.locks, s0.clock, Apply(s, e).locks, Apply(s, e).commands[c])
  {
    var cmd := s.commands[c];
    match e
    case AcquireNext(_) =>
      if Free(s.locks, cmd.wanted[|cmd.ids|].scope) {
        FreshId(s);
        GrantOnCourse(s0.locks, s0.clock, s.locks, cmd, s.nextId);
      } else {
        RefusedOnCourse(s0.locks, s0.clock, s.locks, cmd);
      }
    case LookUp(_) => LookedUpOnCourse(s0, s, c);
    case PoolAnswer(_, _) =>
    case Finish(_) => FinishedOnCourse(s0.locks, s0.clock, s.locks, cmd);
    case ReleaseNext(_) => ReleasedOnCourse(s0.locks, s0.clock, s.locks, cmd);
    case Return(_) => ReturnedOnCourse(s0.locks, s0.clock, s.locks, cmd);
  }

  lemma {:induction false} AloneReaches(events: seq<Event>, s0: State, c: CommandId, own: seq<Event>, s: State)
    requires Reaches(events, s0) && Alone(s0, c, own, s)
    ensures Reaches(events + own, s)
    decreases |own|
  {
    if own == [] {
      assert events + own == events;
    } else {
      var last := |own| - 1;
      var before :| Alone(s0, c, own[..last], before) && Enabled(before, own[last]) && s == Apply(before, own[last]);
      AloneReaches(events, s0, c, own[..last], before);
      assert (events + own)[..|events + own| - 1] == events + own[..last];
    }
  }

  lemma {:induction false} AloneOnCourse(events: seq<Event>, s0: State, c: CommandId, own: seq<Event>, s: State)
    requires Reaches(events, s0) && c !in s0.commands && Alone(s0, c, own, s)
    ensures if own == [] then s == s0 else c in s.commands && OnCourse(s0.locks, s0.clock, s.locks, s.commands[c])
    decreases |own|
  {
    if own == [] {
    } else {
      var last := |own| - 1;
      var before :| Alone(s0, c, own[..last], before) && Enabled(before, own[last]) && s == Apply(before, own[last]);
      AloneOnCourse(events, s0, c, own[..last], before);
      if last == 0 {
        PhaseStep(s0, own[0], c);
        BegunOnCourse(s0, c, own[0].request);
      } else {
        AloneReaches(events, s0, c, own[..last], before);
        InvReachable(events + own[..last], before);
        CourseStep(s0, before, own[last], c);
      }
    }
  }

  /** The answers of the pool to a new command are all among its own steps. */
  lemma OwnAnswers(events: seq<Event>, s0: State, c: CommandId, own: seq<Event>, e: Event)
    requires Reaches(events, s0) && c !in s0.commands && IsStepOf(e, c)
    ensures e in events + own <==> e in own
  {
    PhaseExact(events, s0, c);
    NotYet(events, c);
  }

  lemma ReturnStep(s: State, e: Event, c: CommandId)
    requires Enabled(s, e) && IsStepOf(e, c) && c in Apply(s, e).commands && Apply(s, e).commands[c].phase == Returned
    ensures e == Return(c) && c in s.commands && GivingBack(s.commands[c])
    ensures Apply(s, e).commands[c].wanted == s.commands[c].wanted
  {
    PhaseStep(s, e, c);
  }

  lemma BeforeReturn(s0: State, c: CommandId, own: seq<Event>, s: State) returns (before: State)
    requires Alone(s0, c, own, s) && own != [] && c in s.commands && s.commands[c].phase == Returned
    ensures own[|own| - 1] == Return(c) && Alone(s0, c, own[..|own| - 1], before)
    ensures c in before.commands && GivingBack(before.commands[c])
    ensures before.commands[c].wanted == s.commands[c].wanted
  {
    var last := |own| - 1;
    before :| Alone(s0, c, own[..last], before) && Enabled(before, own[last]) && s == Apply(before, own[last]);
    ReturnStep(before, own[last], c);
  }

  lemma WorkTold(events: seq<Event>, s: State, c: CommandId)
    requires c in s.commands && PhaseTold(events, s, c) && GivingBack(s.commands[c])
    ensures s.commands[c].phase == Releasing <==> PoolAnswer(c, true) in events
  {
  }

  /** On its own, a command gives its locks back after the work exactly if it could have them all. */
  lemma GivingBackTells(events: seq<Event>, s0: State, c: CommandId, own: seq<Event>, s: State)
    requires Reaches(events, s0) && c !in s0.commands && Alone(s0, c, own, s)
    requires c in s.commands && GivingBack(s.commands[c])
    ensures Grantable(s0.locks, s.commands[c].wanted) <==> PoolAnswer(c, true) in own
  {
    AloneOnCourse(events, s0, c, own, s);
    AloneReaches(events, s0, c, own, s);
    PhaseExact(events + own, s, c);
    WorkTold(events + own, s, c);
    OwnAnswers(events, s0, c, own, PoolAnswer(c, true));
  }

  /** A command that runs alone and returns did its work exactly if it could have all its locks. */
  lemma ReturnedTells(events: seq<Event>, s0: State, c: CommandId, own: seq<Event>, s: State)
    requires Reaches(events, s0) && c !in s0.commands && Alone(s0, c, own, s) && own != []
    requires c in s.commands && s.commands[c].phase == Returned
    ensures Grantable(s0.locks, s.commands[c].wanted) <==> PoolAnswer(c, true) in own
  {
    var last := |own| - 1;
    var before := BeforeReturn(s0, c, own, s);
    GivingBackTells(events, s0, c, own[..last], before);
    assert own == own[..last] + [Return(c)];
    MemberSnoc(own[..last], Return(c), PoolAnswer(c, true));
  }

  /**
   A command that nothing interrupts behaves as the whole call does. It never panics. If
   it returns, the registry is as it was, and it did its work exactly if all the locks its
   request calls for could be granted. While it works, and when the pool has no client for
   it, every one of them is live, dated when it began; and it is left so exactly after a miss.
   */
  lemma AloneOutcome(events: seq<Event>, s0: State, c: CommandId, own: seq<Event>, s: State)
    requires Reaches(events, s0) && c !in s0.commands && Alone(s0, c, own, s) && own != []
    ensures c in s.commands
    ensures var cmd := s.commands[c];
      && cmd.wanted == cmd.request.WantedLocks()
      && cmd.phase != Panicked
      && (cmd.phase == Returned ==>
            s.locks == s0.locks && (Grantable(s0.locks, cmd.wanted) <==> PoolAnswer(c, true) in own))
      && (cmd.phase == Holding || cmd.phase == Abandoned ==>
            Grantable(s0.locks, cmd.wanted) && GrantedAll(s0.locks, s.locks, cmd.ids, cmd.wanted, s0.clock))
      && (cmd.phase == Abandoned <==> PoolAnswer(c, false) in own)
  {
    AloneOnCourse(events, s0, c, own, s);
    AloneReaches(events, s0, c, own, s);
    PhaseExact(events + own, s, c);
    OwnAnswers(events, s0, c, own, PoolAnswer(c, false));
    var cmd := s.commands[c];
    if cmd.phase == Returned {
      ReturnedTells(events, s0, c, own, s);
    } else if cmd.phase == Holding || cmd.phase == Abandoned {
      assert cmd.wanted[..|cmd.ids|] == cmd.wanted;
    }
  }

  /** Until it has returned or was left without a client, it has a step to take. */
  lemma AloneGoesOn(events: seq<Event>, s0: State, c: CommandId, own: seq<Event>, s: State) returns (next: Event)
    requires Reaches(events, s0) && c !in s0.commands && Alone(s0, c, own, s) && own != []
    requires c in s.commands && s.commands[c].phase != Returned && s.commands[c].phase != Abandoned
    ensures IsStepOf(next, c) && Enabled(s, next)
  {
    AloneOnCourse(events, s0, c, own, s);
    var cmd := s.commands[c];
    match cmd.phase
    case Acquiring => next := if |cmd.ids| < |cmd.wanted| then AcquireNext(c) else PoolAnswer(c, true);
    case Looking => next := LookUp(c);
    case Holding => next := Finish(c);
    case _ => next := if cmd.pending != [] then ReleaseNext(c) else Return(c);
  }

  /** Which locks can all be granted, in terms of the folders: for a copy or move, and for a batch delete. */
  lemma GrantableRequest(locks: Locks, request: Request)
    ensures request.Transfer? ==>
      (Grantable(locks, request.WantedLocks()) <==>
        && !(request.source.bucket == request.destination.bucket
             && Nested(ParentPrefix(request.source.key), ParentPrefix(request.destination.key)))
        && Free(locks, FolderScope(request.profile, request.source.bucket, ParentPrefix(request.source.key)))
        && Free(locks, FolderScope(request.profile, request.destination.bucket, ParentPrefix(request.destination.key))))
    ensures request.Delete? ==>
      (Grantable(locks, request.WantedLocks()) <==>
        && !SpansNestedFolders(request.keys)
        && forall n | 0 <= n < |request.keys| ::
             Free(locks, FolderScope(request.profile, request.bucket, ParentPrefix(request.keys[n]))))
  {
    match request
    case Transfer(profile, op, source, destination) =>
      var wanted := PairWanted(profile, op, source, destination);
      PairConflict(profile, op, source, destination);
      PairFacts(locks, wanted[0], wanted[1]);
      assert wanted == [wanted[0], wanted[1]];
    case Delete(profile, bucket, keys) =>
      BatchConflict(profile, bucket, keys);
      BatchFree(locks, profile, bucket, keys);
  }
}
