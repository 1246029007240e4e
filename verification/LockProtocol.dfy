/**
 Every interleaving of lock-holding commands with heartbeats, sweeps, manual
 releases and clock changes. Each event is one critical section of the registry
 or one answer a command receives; the registry transitions are the ones the
 methods of LockRegistry are proved against.
 */
module LockProtocol {
  import opened Wrappers
  import opened Integers64
  import opened LockScopes
  import opened LockRegistries
  import opened LockCommands

  /** Seconds since the epoch, small enough for every deadline to fit in 64 bits. */
  type Instant = x: int | 0 <= x <= I64_MAX - 300

  type CommandId = nat

  datatype Request =
    | Transfer(profile: string, op: string, source: ObjectRef, destination: ObjectRef)
    | Delete(profile: string, bucket: string, keys: seq<string>)
  {
    function WantedLocks(): seq<Wanted> {
      match this
      case Transfer(profile, op, source, destination) => PairWanted(profile, op, source, destination)
      case Delete(profile, bucket, keys) => BatchWanted(profile, bucket, UniquePrefixes(keys))
    }

    /** A copy or move gives the destination lock back first. */
    function ReleaseOrder(ids: seq<LockId>): seq<LockId> {
      if Transfer? && |ids| == 2 then [ids[1], ids[0]] else ids
    }

    /** The objects the command reads, writes or deletes. */
    ghost predicate Touches(o: S3Object) {
      match this
      case Transfer(profile, _, source, destination) =>
        o == S3Object(profile, source.bucket, source.key) || o == S3Object(profile, destination.bucket, destination.key)
      case Delete(profile, bucket, keys) =>
        o.profile == profile && o.bucket == bucket && o.key in keys
    }
  }

  /** The locks a request asks for cover everything it touches. */
  lemma TouchedIsCovered(request: Request, o: S3Object) returns (n: nat)
    requires request.Touches(o)
    ensures n < |request.WantedLocks()| && Covers(request.WantedLocks()[n].scope, o)
  {
    FolderLockCoversKey(o.profile, o.bucket, o.key);
    match request
    case Transfer(profile, _, source, destination) =>
      n := if o == S3Object(profile, source.bucket, source.key) then 0 else 1;
    case Delete(profile, bucket, keys) =>
      var k :| 0 <= k < |keys| && keys[k] == o.key;
      assert Mentions(keys, ParentPrefix(o.key));
      var prefixes := UniquePrefixes(keys);
      assert ParentPrefix(o.key) in prefixes;
      n :| 0 <= n < |prefixes| && prefixes[n] == ParentPrefix(o.key);
  }

  // ------------------------------------------------------------------------
  // States and events
  // ------------------------------------------------------------------------

  /**
   Looking: a lock was just granted, and the command looks it up in the list of live locks.
   Panicked: it was not there, and the command stopped without releasing anything.
   Abandoned: the client pool had no client, and the command returned without releasing anything.
   */
  datatype Phase = Acquiring | Looking | RollingBack | Holding | Releasing | Returned | Abandoned | Panicked

  /**
   `wanted` are the locks to take, in order; `ids` the ones obtained so far;
   `pending` the ones still to be given back.
   */
  datatype Command = Command(
    request: Request, wanted: seq<Wanted>, startedAt: Instant, ids: seq<LockId>, pending: seq<LockId>, phase: Phase)

  /**
   History of one granted lock: which wanted lock of which command it is, when it was
   granted and last had a heartbeat, and the latest instant read by a sweep since then.
   */
  datatype Lease = Lease(
    owner: CommandId, index: nat, wanted: Wanted, grantedAt: Instant, beatAt: Instant, sweptAt: Option<Instant>)

  /**
   `clock`, `locks`, `nextId` and `commands` are the state; the rest is history:
   `leases` every lock ever granted, `beaten` the ones that had a heartbeat since,
   `overridden` the live locks that were released manually.
   */
  datatype State = State(
    clock: Instant, locks: Locks, nextId: LockId, commands: map<CommandId, Command>,
    leases: map<LockId, Lease>, beaten: set<LockId>, overridden: set<LockId>, clockWentBack: bool)

  datatype Event =
    | Begin(c: CommandId, request: Request, wanted: seq<Wanted>)
    | AcquireNext(c: CommandId)
    | LookUp(c: CommandId)
    | PoolAnswer(c: CommandId, hit: bool)
    | Finish(c: CommandId)
    | ReleaseNext(c: CommandId)
    | Return(c: CommandId)
    | Heartbeat(id: LockId)
    | Sweep
    | Override(id: LockId)
    | SetClock(to: Instant)

  const INITIAL := State(0, map[], 0, map[], map[], {}, {}, false)

  predicate GivingBack(cmd: Command) {
    cmd.phase == RollingBack || cmd.phase == Releasing
  }

  predicate IsLooking(s: State, c: CommandId) {
    c in s.commands && s.commands[c].phase == Looking && s.commands[c].ids != []
  }

  predicate Enabled(s: State, e: Event) {
    match e
    case Begin(c, _, _) => c !in s.commands
    case AcquireNext(c) =>
      c in s.commands && s.commands[c].phase == Acquiring && |s.commands[c].ids| < |s.commands[c].wanted|
    case LookUp(c) => IsLooking(s, c)
    case PoolAnswer(c, _) =>
      c in s.commands && s.commands[c].phase == Acquiring && |s.commands[c].ids| >= |s.commands[c].wanted|
    case Finish(c) => c in s.commands && s.commands[c].phase == Holding
    case ReleaseNext(c) => c in s.commands && GivingBack(s.commands[c]) && s.commands[c].pending != []
    case Return(c) => c in s.commands && GivingBack(s.commands[c]) && s.commands[c].pending == []
    case _ => true
  }

  /** The state with one command replaced. */
  function With(s: State, c: CommandId, cmd: Command): State {
    s.(commands := s.commands[c := cmd])
  }

  function GrantNext(s: State, c: CommandId): State
    requires c in s.commands && |s.commands[c].ids| < |s.commands[c].wanted|
  {
    var cmd := s.commands[c];
    var next := cmd.wanted[|cmd.ids|];
    var id := s.nextId;
    With(s, c, cmd.(ids := cmd.ids + [id], phase := Looking)).(
      locks := Grant(s.locks, id, next.scope, next.opName, LOCK_TTL, cmd.startedAt),
      nextId := id + 1,
      leases := s.leases[id := Lease(c, |cmd.ids|, next, cmd.startedAt, cmd.startedAt, None)])
  }

  /** The newest lock is in the list, or the command panics. */
  function LookedUp(s: State, c: CommandId): State
    requires IsLooking(s, c)
  {
    var cmd := s.commands[c];
    With(s, c, cmd.(phase := if cmd.ids[|cmd.ids| - 1] in s.locks then Acquiring else Panicked))
  }

  function BeatOne(s: State, id: LockId): State {
    if id in s.locks && id in s.leases
    then s.(
      locks := Beat(s.locks, id, s.clock),
      leases := s.leases[id := s.leases[id].(beatAt := s.clock, sweptAt := None)],
      beaten := s.beaten + {id})
    else s
  }

  function Latest(before: Option<Instant>, now: Instant): Option<Instant> {
    if before.Some? && before.value > now then before else Some(now)
  }

  /** Every lease takes note of the sweep. */
  function NoteSweep(leases: map<LockId, Lease>, now: Instant): map<LockId, Lease> {
    map id | id in leases :: leases[id].(sweptAt := Latest(leases[id].sweptAt, now))
  }

  ghost function Apply(s: State, e: Event): State
    requires Enabled(s, e)
  {
    match e
    case Begin(c, request, wanted) => With(s, c, Command(request, wanted, s.clock, [], [], Acquiring))
    case AcquireNext(c) =>
      var cmd := s.commands[c];
      if Free(s.locks, cmd.wanted[|cmd.ids|].scope) then GrantNext(s, c)
      else With(s, c, cmd.(phase := RollingBack, pending := cmd.ids))
    case LookUp(c) =>
      LookedUp(s, c)
    case PoolAnswer(c, hit) =>
      With(s, c, s.commands[c].(phase := if hit then Holding else Abandoned))
    case Finish(c) =>
      var cmd := s.commands[c];
      With(s, c, cmd.(phase := Releasing, pending := cmd.request.ReleaseOrder(cmd.ids)))
    case ReleaseNext(c) =>
      var cmd := s.commands[c];
      With(s, c, cmd.(pending := cmd.pending[1..])).(locks := s.locks - {cmd.pending[0]})
    case Return(c) =>
      With(s, c, s.commands[c].(phase := Returned))
    case Heartbeat(id) => BeatOne(s, id)
    case Sweep =>
      s.(locks := Survivors(s.locks, s.clock), leases := NoteSweep(s.leases, s.clock))
    case Override(id) =>
      s.(locks := s.locks - {id}, overridden := if id in s.locks then s.overridden + {id} else s.overridden)
    case SetClock(to) =>
      s.(clock := to, clockWentBack := s.clockWentBack || to < s.clock)
  }

  /** A command starts out wanting what its request calls for. */
  predicate Faithful(e: Event) {
    e.Begin? ==> e.wanted == e.request.WantedLocks()
  }

  /** The run of these events from the initial state ends in `s`. */
  ghost predicate Reaches(events: seq<Event>, s: State)
    decreases |events|
  {
    if events == [] then s == INITIAL
    else
      var last := |events| - 1;
      Faithful(events[last]) &&
      exists before ::
        Reaches(events[..last], before) && Enabled(before, events[last]) && s == Apply(before, events[last])
  }

  // ------------------------------------------------------------------------
  // The invariant
  // ------------------------------------------------------------------------

  /** The locks a command has obtained and not yet given back. */
  function Owed(cmd: Command): seq<LockId> {
    match cmd.phase
    case RollingBack => cmd.pending
    case Releasing => cmd.pending
    case Returned => []
    case _ => cmd.ids
  }

  /** Since the lock was granted or last had a heartbeat, a sweep ran more than 300 seconds past that instant. */
  ghost predicate SweptAway(s: State, id: LockId) {
    && id in s.leases
    && s.leases[id].sweptAt.Some? && s.leases[id].beatAt + 300 < s.leases[id].sweptAt.value
  }

  /** A live lock is as its lease says. */
  ghost predicate LockOk(s: State, id: LockId)
    requires id in s.locks
  {
    && id < s.nextId
    && id in s.leases
    && id !in s.overridden && !SweptAway(s, id)
    && var lease := s.leases[id];
       s.locks[id] == ResourceLock(id, lease.wanted.scope, lease.wanted.opName, lease.grantedAt, lease.beatAt, LOCK_TTL)
  }

  ghost predicate LeaseOk(s: State, id: LockId)
    requires id in s.leases
  {
    && id < s.nextId
    && (id !in s.beaten ==> s.leases[id].beatAt == s.leases[id].grantedAt)
    && (!s.clockWentBack ==> s.leases[id].grantedAt <= s.leases[id].beatAt)
    && (!s.clockWentBack ==> s.leases[id].grantedAt <= s.clock)
  }

  /** The command's locks are the ones leased to it, in the order it wants them. */
  ghost predicate Owns(s: State, c: CommandId, cmd: Command) {
    && |cmd.ids| <= |cmd.wanted|
    && (cmd.phase == Holding || cmd.phase == Abandoned ==> |cmd.ids| == |cmd.wanted|)
    && (!s.clockWentBack ==> cmd.startedAt <= s.clock)
    && forall n | 0 <= n < |cmd.ids| ::
         && cmd.ids[n] in s.leases
         && s.leases[cmd.ids[n]].owner == c
         && s.leases[cmd.ids[n]].index == n
         && s.leases[cmd.ids[n]].wanted == cmd.wanted[n]
         && s.leases[cmd.ids[n]].grantedAt == cmd.startedAt
  }

  ghost predicate Distinct(ids: seq<LockId>) {
    forall m, n | 0 <= m < n < |ids| :: ids[m] != ids[n]
  }

  /** What is still owed is live, or its loss has a cause; what was given back is gone. */
  ghost predicate Accounted(s: State, cmd: Command) {
    && Distinct(Owed(cmd))
    && (forall id | id in Owed(cmd) :: id in cmd.ids)
    && (forall id | id in Owed(cmd) :: id in s.locks || id in s.overridden || SweptAway(s, id))
    && (forall id | id in cmd.ids && id in s.locks :: id in Owed(cmd))
  }

  ghost predicate Inv(s: State) {
    && WellKeyed(s.locks)
    && Exclusive(s.locks)
    && (forall id | id in s.overridden :: id < s.nextId)
    && (forall id | id in s.locks :: LockOk(s, id))
    && (forall id | id in s.leases :: LeaseOk(s, id))
    && (forall c | c in s.commands :: Owns(s, c, s.commands[c]))
    && (forall c | c in s.commands :: Accounted(s, s.commands[c]))
  }

  /** A lock of a command has a lease naming that command. */
  lemma LeasedTo(s: State, c: CommandId, id: LockId)
    requires Inv(s) && c in s.commands && id in s.commands[c].ids
    ensures id in s.leases && s.leases[id].owner == c && s.leases[id].grantedAt == s.commands[c].startedAt
    ensures id < s.nextId
  {
    var cmd := s.commands[c];
    assert Owns(s, c, cmd);
    var n :| 0 <= n < |cmd.ids| && cmd.ids[n] == id;
    assert LeaseOk(s, id);
  }

  /** Taking locks away and advancing commands keeps the invariant if every command stays accounted for. */
  lemma InvShrink(s: State, s': State)
    requires Inv(s)
    requires s'.leases == s.leases && s'.nextId == s.nextId && s'.beaten == s.beaten
    requires s'.clock == s.clock && s'.clockWentBack == s.clockWentBack
    requires forall id | id in s'.overridden :: id in s.overridden || (id in s.locks && id !in s'.locks)
    requires forall id | id in s'.locks :: id in s.locks && s'.locks[id] == s.locks[id]
    requires forall c | c in s'.commands :: Owns(s, c, s'.commands[c]) && Accounted(s', s'.commands[c])
    ensures Inv(s')
  {
    forall id | id in s'.overridden ensures id < s'.nextId {
      assert id in s.locks ==> LockOk(s, id);
    }
    forall id | id in s'.locks ensures LockOk(s', id) {
      assert LockOk(s, id);
    }
    forall id | id in s'.leases ensures LeaseOk(s', id) {
      assert LeaseOk(s, id);
    }
    forall c | c in s'.commands ensures Owns(s', c, s'.commands[c]) {
      assert Owns(s, c, s'.commands[c]);
    }
  }

  lemma InvAdvance(s: State, c: CommandId, cmd: Command)
    requires Inv(s) && c in s.commands
    requires cmd == s.commands[c].(phase := cmd.phase, pending := cmd.pending)
    requires Distinct(Owed(cmd)) && forall id :: id in Owed(cmd) <==> id in Owed(s.commands[c])
    requires cmd.phase == Holding || cmd.phase == Abandoned ==> |cmd.ids| >= |cmd.wanted|
    ensures Inv(With(s, c, cmd))
  {
    var s' := With(s, c, cmd);
    forall d | d in s'.commands ensures Owns(s, d, s'.commands[d]) && Accounted(s', s'.commands[d]) {
      assert Owns(s, d, s.commands[d]) && Accounted(s, s.commands[d]);
    }
    InvShrink(s, s');
  }

  lemma InvBegin(s: State, c: CommandId, request: Request, wanted: seq<Wanted>)
    requires Inv(s) && c !in s.commands
    ensures Inv(With(s, c, Command(request, wanted, s.clock, [], [], Acquiring)))
  {
    var s' := With(s, c, Command(request, wanted, s.clock, [], [], Acquiring));
    forall d | d in s'.commands && d != c ensures Owns(s, d, s'.commands[d]) && Accounted(s', s'.commands[d]) {
      assert Owns(s, d, s.commands[d]) && Accounted(s, s.commands[d]);
    }
    InvShrink(s, s');
  }

  lemma FreshId(s: State)
    requires Inv(s)
    ensures s.nextId !in s.leases && s.nextId !in s.locks
  {
    assert s.nextId in s.leases ==> LeaseOk(s, s.nextId);
    assert s.nextId in s.locks ==> LockOk(s, s.nextId);
  }

  /** The command that was just granted a lock. */
  lemma GranteeSound(s: State, c: CommandId)
    requires Inv(s) && Enabled(s, AcquireNext(c))
    ensures var s' := GrantNext(s, c); Owns(s', c, s'.commands[c]) && Accounted(s', s'.commands[c])
  {
    var s' := GrantNext(s, c);
    var cmd, cmd' := s.commands[c], s'.commands[c];
    FreshId(s);
    assert Owns(s, c, cmd) && Accounted(s, cmd);
    forall id | id in cmd.ids ensures id != s.nextId {
      LeasedTo(s, c, id);
    }
  }

  /** Every other command. */
  lemma BystanderSound(s: State, c: CommandId, d: CommandId)
    requires Inv(s) && Enabled(s, AcquireNext(c)) && d in s.commands && d != c
    ensures var s' := GrantNext(s, c); Owns(s', d, s.commands[d]) && Accounted(s', s.commands[d])
  {
    var cmd := s.commands[d];
    assert Owns(s, d, cmd) && Accounted(s, cmd);
    forall id | id in cmd.ids ensures id != s.nextId {
      LeasedTo(s, d, id);
    }
  }

  lemma GrantedLocks(s: State, c: CommandId)
    requires Inv(s) && Enabled(s, AcquireNext(c))
    ensures var s' := GrantNext(s, c); forall id | id in s'.locks :: LockOk(s', id)
  {
    var s' := GrantNext(s, c);
    FreshId(s);
    forall id | id in s'.locks ensures LockOk(s', id) {
      assert id != s.nextId ==> LockOk(s, id);
    }
  }

  lemma GrantedLeases(s: State, c: CommandId)
    requires Inv(s) && Enabled(s, AcquireNext(c))
    ensures var s' := GrantNext(s, c); forall id | id in s'.leases :: LeaseOk(s', id)
  {
    var s' := GrantNext(s, c);
    assert Owns(s, c, s.commands[c]);
    forall id | id in s'.leases ensures LeaseOk(s', id) {
      assert id != s.nextId ==> LeaseOk(s, id);
    }
  }

  lemma InvGranted(s: State, c: CommandId)
    requires Inv(s) && Enabled(s, AcquireNext(c))
    requires Free(s.locks, s.commands[c].wanted[|s.commands[c].ids|].scope)
    ensures Inv(GrantNext(s, c))
  {
    var s' := GrantNext(s, c);
    var cmd := s.commands[c];
    var next := cmd.wanted[|cmd.ids|];
    FreshId(s);
    ExclusiveGrant(s.locks, s.nextId, next.scope, next.opName, LOCK_TTL, cmd.startedAt);
    GrantedLocks(s, c);
    GrantedLeases(s, c);
    GranteeSound(s, c);
    forall d | d in s'.commands ensures Owns(s', d, s'.commands[d]) && Accounted(s', s'.commands[d]) {
      if d != c {
        BystanderSound(s, c, d);
      }
    }
  }

  lemma PendingIsOwn(s: State, c: CommandId)
    requires Inv(s) && Enabled(s, ReleaseNext(c))
    ensures var gone := s.commands[c].pending[0];
      gone in s.commands[c].ids && gone in s.leases && s.leases[gone].owner == c
  {
    var cmd := s.commands[c];
    assert Accounted(s, cmd);
    assert cmd.pending[0] in Owed(cmd);
    LeasedTo(s, c, cmd.pending[0]);
  }

  lemma ReleaserAccounted(s: State, s': State, cmd: Command)
    requires Accounted(s, cmd) && GivingBack(cmd) && cmd.pending != []
    requires s'.locks == s.locks - {cmd.pending[0]}
    requires s'.leases == s.leases && s'.overridden == s.overridden
    ensures Accounted(s', cmd.(pending := cmd.pending[1..]))
  {
    var rest := cmd.pending[1..];
    forall id | id in rest ensures id in cmd.pending && id != cmd.pending[0] {
      var m :| 0 <= m < |rest| && rest[m] == id;
      assert cmd.pending[m + 1] == id;
    }
    assert cmd.pending == [cmd.pending[0]] + rest;
    assert Owed(cmd) == cmd.pending && Owed(cmd.(pending := rest)) == rest;
    assert forall id :: SweptAway(s', id) == SweptAway(s, id);
  }

  /** A command's release touches no lock of another. */
  lemma BystanderKeepsLocks(s: State, s': State, c: CommandId, d: CommandId)
    requires Inv(s) && Enabled(s, ReleaseNext(c)) && d in s.commands && d != c
    requires s'.locks == s.locks - {s.commands[c].pending[0]}
    requires s'.leases == s.leases && s'.overridden == s.overridden
    ensures Accounted(s', s.commands[d])
  {
    PendingIsOwn(s, c);
    assert Accounted(s, s.commands[d]);
    if s.commands[c].pending[0] in s.commands[d].ids {
      LeasedTo(s, d, s.commands[c].pending[0]);
    }
  }

  lemma InvReleaseNext(s: State, c: CommandId)
    requires Inv(s) && Enabled(s, ReleaseNext(c))
    ensures Inv(Apply(s, ReleaseNext(c)))
  {
    var s' := Apply(s, ReleaseNext(c));
    assert Accounted(s, s.commands[c]);
    ReleaserAccounted(s, s', s.commands[c]);
    forall d | d in s'.commands ensures Owns(s, d, s'.commands[d]) && Accounted(s', s'.commands[d]) {
      assert Owns(s, d, s.commands[d]);
      if d != c {
        BystanderKeepsLocks(s, s', c, d);
      }
    }
    InvShrink(s, s');
  }

  lemma ExclusiveBeat(locks: Locks, id: LockId, now: I64)
    requires Exclusive(locks)
    ensures Exclusive(Beat(locks, id, now))
  {
    var after := Beat(locks, id, now);
    assert forall i | i in after :: i in locks && after[i].scope == locks[i].scope;
  }

  lemma CommandsKeepTheirBeatenLocks(s: State, id: LockId, d: CommandId)
    requires Inv(s) && d in s.commands
    ensures var s' := BeatOne(s, id); Owns(s', d, s'.commands[d]) && Accounted(s', s'.commands[d])
  {
    assert Owns(s, d, s.commands[d]) && Accounted(s, s.commands[d]);
  }

  lemma InvHeartbeat(s: State, id: LockId)
    requires Inv(s)
    ensures Inv(BeatOne(s, id))
  {
    var s' := BeatOne(s, id);
    ExclusiveBeat(s.locks, id, s.clock);
    forall i | i in s'.locks ensures LockOk(s', i) {
      assert LockOk(s, i);
    }
    forall i | i in s'.leases ensures LeaseOk(s', i) {
      assert LeaseOk(s, i);
    }
    forall d | d in s'.commands ensures Owns(s', d, s'.commands[d]) && Accounted(s', s'.commands[d]) {
      CommandsKeepTheirBeatenLocks(s, id, d);
    }
  }

  /** With the commands' time to live and clock, deadlines are exact. */
  lemma StaleAfterTtl(lock: ResourceLock, now: Instant)
    requires 0 <= lock.lastHeartbeatAt <= I64_MAX - 300 && lock.ttlSecs == LOCK_TTL
    ensures lock.Stale(now) <==> lock.lastHeartbeatAt + 300 < now
  {
  }

  /** A sweep takes exactly the locks it is late for. */
  lemma SweepTakes(s: State, id: LockId)
    requires Inv(s) && id in s.locks
    ensures var s' := Apply(s, Sweep); id in s'.locks <==> !SweptAway(s', id)
  {
    assert LockOk(s, id);
    StaleAfterTtl(s.locks[id], s.clock);
  }

  lemma SweptStaysSwept(s: State, id: LockId)
    requires SweptAway(s, id)
    ensures SweptAway(Apply(s, Sweep), id)
  {
  }

  lemma SweepKeepsLocks(s: State, id: LockId)
    requires Inv(s) && id in Apply(s, Sweep).locks
    ensures LockOk(Apply(s, Sweep), id)
  {
    assert LockOk(s, id);
    SweepTakes(s, id);
  }

  /** What a sweep takes from a command is accounted for as swept. */
  lemma SweptAccounted(s: State, d: CommandId)
    requires Inv(s) && d in s.commands
    ensures Accounted(Apply(s, Sweep), s.commands[d])
  {
    var s', cmd := Apply(s, Sweep), s.commands[d];
    assert Accounted(s, cmd);
    forall id | id in Owed(cmd) ensures id in s'.locks || id in s'.overridden || SweptAway(s', id) {
      if id in s.locks {
        SweepTakes(s, id);
      } else if id !in s.overridden {
        SweptStaysSwept(s, id);
      }
    }
  }

  lemma SweptOwns(s: State, d: CommandId)
    requires Inv(s) && d in s.commands
    ensures Owns(Apply(s, Sweep), d, s.commands[d])
  {
    assert Owns(s, d, s.commands[d]);
  }

  lemma InvSweep(s: State)
    requires Inv(s)
    ensures Inv(Apply(s, Sweep))
  {
    var s' := Apply(s, Sweep);
    forall id | id in s'.locks ensures LockOk(s', id) {
      SweepKeepsLocks(s, id);
    }
    forall id | id in s'.leases ensures LeaseOk(s', id) {
      assert LeaseOk(s, id);
    }
    forall d | d in s'.commands ensures Owns(s', d, s'.commands[d]) && Accounted(s', s'.commands[d]) {
      SweptOwns(s, d);
      SweptAccounted(s, d);
    }
  }

  lemma InvOverride(s: State, id: LockId)
    requires Inv(s)
    ensures Inv(Apply(s, Override(id)))
  {
    var s' := Apply(s, Override(id));
    forall d | d in s'.commands ensures Owns(s, d, s'.commands[d]) && Accounted(s', s'.commands[d]) {
      assert Owns(s, d, s.commands[d]) && Accounted(s, s.commands[d]);
    }
    InvShrink(s, s');
  }

  lemma InvSetClock(s: State, to: Instant)
    requires Inv(s)
    ensures Inv(Apply(s, SetClock(to)))
  {
    var s' := Apply(s, SetClock(to));
    forall i | i in s'.locks ensures LockOk(s', i) {
      assert LockOk(s, i);
    }
    forall i | i in s'.leases ensures LeaseOk(s', i) {
      assert LeaseOk(s, i);
    }
    forall d | d in s'.commands ensures Owns(s', d, s'.commands[d]) && Accounted(s', s'.commands[d]) {
      assert Owns(s, d, s.commands[d]) && Accounted(s, s.commands[d]);
    }
  }

  lemma InvAcquireNext(s: State, c: CommandId)
    requires Inv(s) && Enabled(s, AcquireNext(c))
    ensures Inv(Apply(s, AcquireNext(c)))
  {
    var cmd := s.commands[c];
    if Free(s.locks, cmd.wanted[|cmd.ids|].scope) {
      InvGranted(s, c);
    } else {
      assert Owns(s, c, cmd) && Accounted(s, cmd);
      InvAdvance(s, c, cmd.(phase := RollingBack, pending := cmd.ids));
    }
  }

  lemma InvLooked(s: State, c: CommandId, phase: Phase)
    requires Inv(s) && c in s.commands && s.commands[c].phase == Looking
    requires phase == Acquiring || phase == Panicked
    ensures Inv(With(s, c, s.commands[c].(phase := phase)))
  {
    assert Accounted(s, s.commands[c]);
    InvAdvance(s, c, s.commands[c].(phase := phase));
  }

  lemma InvLookUp(s: State, c: CommandId)
    requires Inv(s) && IsLooking(s, c)
    ensures Inv(LookedUp(s, c))
  {
    var ids := s.commands[c].ids;
    InvLooked(s, c, if ids[|ids| - 1] in s.locks then Acquiring else Panicked);
  }

  lemma InvFinish(s: State, c: CommandId)
    requires Inv(s) && Enabled(s, Finish(c))
    ensures Inv(Apply(s, Finish(c)))
  {
    var cmd := s.commands[c];
    assert Owns(s, c, cmd) && Accounted(s, cmd);
    InvAdvance(s, c, cmd.(phase := Releasing, pending := cmd.request.ReleaseOrder(cmd.ids)));
  }

  /** Every event keeps the invariant. */
  lemma InvStep(s: State, e: Event)
    requires Inv(s) && Enabled(s, e)
    ensures Inv(Apply(s, e))
  {
    match e
    case Begin(c, request, wanted) => InvBegin(s, c, request, wanted);
    case AcquireNext(c) => InvAcquireNext(s, c);
    case LookUp(c) => InvLookUp(s, c);
    case PoolAnswer(c, hit) => InvAdvance(s, c, s.commands[c].(phase := if hit then Holding else Abandoned));
    case Finish(c) => InvFinish(s, c);
    case ReleaseNext(c) => InvReleaseNext(s, c);
    case Return(c) => InvAdvance(s, c, s.commands[c].(phase := Returned));
    case Heartbeat(id) => InvHeartbeat(s, id);
    case Sweep => InvSweep(s);
    case Override(id) => InvOverride(s, id);
    case SetClock(to) => InvSetClock(s, to);
  }

  lemma {:induction false} InvReachable(events: seq<Event>, s: State)
    requires Reaches(events, s)
    ensures Inv(s)
    decreases |events|
  {
    if events == [] {
    } else {
      var last := |events| - 1;
      var before :| Reaches(events[..last], before) && Enabled(before, events[last])
        && s == Apply(before, events[last]);
      InvReachable(events[..last], before);
      InvStep(before, events[last]);
    }
  }

  /** No event changes what an existing command wants; a new one wants what the event says. */
  lemma WantedIsFixed(s: State, e: Event, c: CommandId)
    requires Enabled(s, e) && c in Apply(s, e).commands
    ensures var cmd := Apply(s, e).commands[c];
      if c in s.commands then cmd.wanted == s.commands[c].wanted && cmd.request == s.commands[c].request
      else e.Begin? && cmd.wanted == e.wanted && cmd.request == e.request
  {
  }

  ghost predicate AsRequested(s: State) {
    forall c | c in s.commands :: s.commands[c].wanted == s.commands[c].request.WantedLocks()
  }

  lemma AsRequestedStep(s: State, e: Event)
    requires Enabled(s, e) && AsRequested(s) && Faithful(e)
    ensures AsRequested(Apply(s, e))
  {
    var s' := Apply(s, e);
    forall c | c in s'.commands ensures s'.commands[c].wanted == s'.commands[c].request.WantedLocks() {
      WantedIsFixed(s, e, c);
    }
  }

  lemma {:induction false} WantedAsRequested(events: seq<Event>, s: State)
    requires Reaches(events, s)
    ensures AsRequested(s)
    decreases |events|
  {
    if events == [] {
    } else {
      var last := |events| - 1;
      var before :| Reaches(events[..last], before) && Enabled(before, events[last])
        && s == Apply(before, events[last]);
      WantedAsRequested(events[..last], before);
      AsRequestedStep(before, events[last]);
    }
  }

  /** The command a live lock was granted to lists it. */
  ghost predicate Attributed(s: State, id: LockId) {
    && id in s.leases
    && var lease := s.leases[id];
       && lease.owner in s.commands
       && lease.index < |s.commands[lease.owner].ids|
       && s.commands[lease.owner].ids[lease.index] == id
  }

  lemma AttributedStep(s: State, e: Event, id: LockId)
    requires Enabled(s, e) && s.nextId !in s.locks
    requires id in Apply(s, e).locks && (id in s.locks ==> Attributed(s, id))
    ensures Attributed(Apply(s, e), id)
  {
  }

  lemma {:induction false} AllAttributed(events: seq<Event>, s: State)
    requires Reaches(events, s)
    ensures forall id | id in s.locks :: Attributed(s, id)
    decreases |events|
  {
    if events == [] {
    } else {
      var last := |events| - 1;
      var before :| Reaches(events[..last], before) && Enabled(before, events[last])
        && s == Apply(before, events[last]);
      AllAttributed(events[..last], before);
      InvReachable(events[..last], before);
      FreshId(before);
      forall id | id in s.locks ensures Attributed(s, id) {
        AttributedStep(before, events[last], id);
      }
    }
  }

  // ------------------------------------------------------------------------
  // Safety over every run
  // ------------------------------------------------------------------------

  /** The command's n-th lock is live and covers the object. */
  ghost predicate ProtectsBy(s: State, cmd: Command, o: S3Object, n: nat) {
    n < |cmd.ids| && n < |cmd.wanted| && cmd.ids[n] in s.locks && Covers(cmd.wanted[n].scope, o)
  }

  ghost predicate Protects(s: State, cmd: Command, o: S3Object) {
    exists n: nat :: ProtectsBy(s, cmd, o, n)
  }

  /** The command is doing its S3 work and all its locks are live. */
  ghost predicate Working(s: State, cmd: Command) {
    cmd.phase == Holding && forall id | id in cmd.ids :: id in s.locks
  }

  /** In every reachable state, no object is protected by live locks of two commands. */
  lemma MutualExclusion(events: seq<Event>, s: State, c: CommandId, d: CommandId, o: S3Object)
    requires Reaches(events, s) && c in s.commands && d in s.commands
    requires Protects(s, s.commands[c], o) && Protects(s, s.commands[d], o)
    ensures c == d
  {
    InvReachable(events, s);
    var cc, dd := s.commands[c], s.commands[d];
    assert Owns(s, c, cc) && Owns(s, d, dd);
    var m: nat :| ProtectsBy(s, cc, o, m);
    var n: nat :| ProtectsBy(s, dd, o, n);
    assert LockOk(s, cc.ids[m]) && LockOk(s, dd.ids[n]);
    assert Covers(s.locks[cc.ids[m]].scope, o) && Covers(s.locks[dd.ids[n]].scope, o);
    assert cc.ids[m] == dd.ids[n];
  }

  lemma WorkingProtects(events: seq<Event>, s: State, c: CommandId, o: S3Object)
    requires Reaches(events, s) && c in s.commands
    requires Working(s, s.commands[c]) && s.commands[c].request.Touches(o)
    ensures Protects(s, s.commands[c], o)
  {
    InvReachable(events, s);
    WantedAsRequested(events, s);
    var cmd := s.commands[c];
    assert Owns(s, c, cmd);
    var n := TouchedIsCovered(cmd.request, o);
    assert cmd.ids[n] in cmd.ids;
    assert ProtectsBy(s, cmd, o, n);
  }

  /** Two different commands at work never touch the same object. */
  lemma WorkingCommandsAreDisjoint(events: seq<Event>, s: State, c: CommandId, d: CommandId, o: S3Object)
    requires Reaches(events, s) && c in s.commands && d in s.commands
    requires Working(s, s.commands[c]) && Working(s, s.commands[d])
    requires s.commands[c].request.Touches(o) && s.commands[d].request.Touches(o)
    ensures c == d
  {
    forall x | x in {c, d} ensures Protects(s, s.commands[x], o) {
      WorkingProtects(events, s, x, o);
    }
    MutualExclusion(events, s, c, d, o);
  }

  lemma LossAccounted(s: State, c: CommandId, id: LockId)
    requires Inv(s) && c in s.commands && id in Owed(s.commands[c])
    ensures id !in s.locks <==> id in s.overridden || SweptAway(s, id)
  {
    assert Accounted(s, s.commands[c]);
    assert id in s.locks ==> LockOk(s, id);
  }

  /**
   A lock that a command still owes is missing exactly when it was released manually, or
   when, since it was granted or last had a heartbeat, a sweep ran more than 300 seconds
   past that instant.
   */
  lemma LossExact(events: seq<Event>, s: State, c: CommandId, id: LockId)
    requires Reaches(events, s) && c in s.commands && id in Owed(s.commands[c])
    ensures id !in s.locks <==> id in s.overridden || SweptAway(s, id)
  {
    InvReachable(events, s);
    LossAccounted(s, c, id);
  }

  /**
   So, counted from the instant the command read the clock, a loss that is not a manual
   release takes a sweep more than 300 seconds later, run after the lock was granted. (A
   heartbeat can shorten that only if the clock has gone backwards; no command sends one.)
   */
  lemma LossNeedsLateSweep(events: seq<Event>, s: State, c: CommandId, id: LockId)
    requires Reaches(events, s) && c in s.commands
    requires id in Owed(s.commands[c]) && id !in s.locks && id !in s.overridden
    requires s.clockWentBack ==> id !in s.beaten
    ensures id in s.leases && s.leases[id].sweptAt.Some?
    ensures s.commands[c].startedAt + 300 < s.leases[id].sweptAt.value
  {
    LossExact(events, s, c, id);
    InvReachable(events, s);
    LeasedTo(s, c, id);
    assert LeaseOk(s, id);
  }

  /** What a lease notes of sweeps was noted by this event, or before it with the same last heartbeat. */
  lemma SweepNoteStep(s: State, e: Event, id: LockId)
    requires Enabled(s, e) && id in Apply(s, e).leases && Apply(s, e).leases[id].sweptAt.Some?
    ensures id in s.leases && s.leases[id].beatAt == Apply(s, e).leases[id].beatAt
    ensures
      || (e == Sweep && Apply(s, e).leases[id].sweptAt == Some(s.clock))
      || s.leases[id].sweptAt == Apply(s, e).leases[id].sweptAt
  {
  }

  /**
   Behind every noted instant is a sweep of the run that read it off the clock when the
   lock had already been granted and had had its last heartbeat.
   */
  lemma {:induction false} NotedSweepHappened(events: seq<Event>, s: State, id: LockId) returns (k: nat, before: State)
    requires Reaches(events, s) && id in s.leases && s.leases[id].sweptAt.Some?
    ensures k < |events| && events[k] == Sweep && Reaches(events[..k], before)
    ensures before.clock == s.leases[id].sweptAt.value
    ensures id in before.leases && before.leases[id].beatAt == s.leases[id].beatAt
    decreases |events|
  {
    var last := |events| - 1;
    var b :| Reaches(events[..last], b) && Enabled(b, events[last]) && s == Apply(b, events[last]);
    SweepNoteStep(b, events[last], id);
    if b.leases[id].sweptAt == s.leases[id].sweptAt {
      k, before := NotedSweepHappened(events[..last], b, id);
      assert events[..last][..k] == events[..k];
    } else {
      k, before := last, b;
    }
  }

  /** A command at work that has lost none of its locks has them all live. */
  lemma NothingLost(events: seq<Event>, s: State, c: CommandId)
    requires Reaches(events, s) && c in s.commands && s.commands[c].phase == Holding
    requires forall id | id in s.commands[c].ids :: id !in s.overridden && !SweptAway(s, id)
    ensures Working(s, s.commands[c])
  {
    forall id | id in s.commands[c].ids ensures id in s.locks {
      LossExact(events, s, c, id);
    }
  }

  /** Some lock of the command was released manually or swept late. */
  ghost predicate LostOne(s: State, cmd: Command) {
    exists id :: id in cmd.ids && (id in s.overridden || SweptAway(s, id))
  }

  /** If two different commands at work do touch the same object, one of them has lost a lock. */
  lemma OverlapNeedsLoss(events: seq<Event>, s: State, c: CommandId, d: CommandId, o: S3Object)
    requires Reaches(events, s) && c in s.commands && d in s.commands && c != d
    requires s.commands[c].phase == Holding && s.commands[d].phase == Holding
    requires s.commands[c].request.Touches(o) && s.commands[d].request.Touches(o)
    ensures LostOne(s, s.commands[c]) || LostOne(s, s.commands[d])
  {
    if !LostOne(s, s.commands[c]) && !LostOne(s, s.commands[d]) {
      NothingLost(events, s, c);
      NothingLost(events, s, d);
      WorkingCommandsAreDisjoint(events, s, c, d, o);
    }
  }

  /** Once a command has returned normally, none of its locks is live. */
  lemma ReturnedHoldsNothing(events: seq<Event>, s: State, c: CommandId, id: LockId)
    requires Reaches(events, s) && c in s.commands
    requires s.commands[c].phase == Returned && id in s.commands[c].ids
    ensures id !in s.locks
  {
    InvReachable(events, s);
    assert Accounted(s, s.commands[c]);
  }

  /** Every live lock is still owed by exactly one command, the one it was granted to. */
  lemma EveryLockIsOwed(events: seq<Event>, s: State, id: LockId)
    requires Reaches(events, s) && id in s.locks
    ensures exists c :: c in s.commands && id in Owed(s.commands[c])
    ensures forall c, d | c in s.commands && d in s.commands && id in Owed(s.commands[c]) && id in Owed(s.commands[d])
      :: c == d
  {
    InvReachable(events, s);
    AllAttributed(events, s);
    assert Attributed(s, id);
    var owner := s.leases[id].owner;
    assert id in s.commands[owner].ids;
    assert Accounted(s, s.commands[owner]);
    forall c, d | c in s.commands && d in s.commands && id in Owed(s.commands[c]) && id in Owed(s.commands[d])
      ensures c == d
    {
      assert Accounted(s, s.commands[c]) && Accounted(s, s.commands[d]);
      LeasedTo(s, c, id);
      LeasedTo(s, d, id);
    }
  }

  /** An event that takes this lock out of the registry. */
  ghost predicate Removes(s: State, e: Event, id: LockId) {
    match e
    case ReleaseNext(c) => c in s.commands && s.commands[c].pending != [] && s.commands[c].pending[0] == id
    case Override(other) => other == id
    case Sweep => id in s.locks && s.locks[id].Stale(s.clock)
    case _ => false
  }

  lemma RemovesExactly(s: State, e: Event, id: LockId)
    requires Enabled(s, e) && id in s.locks
    ensures id !in Apply(s, e).locks <==> Removes(s, e, id)
  {
  }

  /**
   A live lock is taken from its command by exactly three kinds of event: the
   command's own release of it, a manual release of it, or a sweep past its deadline.
   So a release, however late, never removes another command's lock.
   */
  lemma WhoRemovesALock(events: seq<Event>, s: State, e: Event, c: CommandId, id: LockId)
    requires Reaches(events, s) && Enabled(s, e)
    requires c in s.commands && id in s.commands[c].ids && id in s.locks
    ensures id !in Apply(s, e).locks <==>
      || (e == ReleaseNext(c) && id == s.commands[c].pending[0])
      || e == Override(id)
      || (e == Sweep && s.locks[id].lastHeartbeatAt + 300 < s.clock)
  {
    InvReachable(events, s);
    RemovesExactly(s, e, id);
    LeasedTo(s, c, id);
    assert LockOk(s, id);
    StaleAfterTtl(s.locks[id], s.clock);
    if e.ReleaseNext? {
      PendingIsOwn(s, e.c);
    }
  }

  lemma LookUpTells(s: State, c: CommandId)
    requires IsLooking(s, c)
    ensures var ids := s.commands[c].ids; var newest := ids[|ids| - 1];
      newest in Owed(s.commands[c]) && (LookedUp(s, c).commands[c].phase == Panicked <==> newest !in s.locks)
  {
  }

  lemma PanicTells(s: State, c: CommandId)
    requires Inv(s) && IsLooking(s, c)
    ensures var ids := s.commands[c].ids; var newest := ids[|ids| - 1];
      LookedUp(s, c).commands[c].phase == Panicked <==> newest in s.overridden || SweptAway(s, newest)
  {
    var ids := s.commands[c].ids;
    LookUpTells(s, c);
    LossAccounted(s, c, ids[|ids| - 1]);
  }

  /**
   The lookup after a grant fails exactly when the new lock was released manually, or
   swept more than 300 seconds past its grant or last heartbeat, before it was looked up.
   */
  lemma PanicExact(events: seq<Event>, s: State, c: CommandId)
    requires Reaches(events, s) && IsLooking(s, c)
    ensures var ids := s.commands[c].ids; var newest := ids[|ids| - 1];
      LookedUp(s, c).commands[c].phase == Panicked <==> newest in s.overridden || SweptAway(s, newest)
  {
    InvReachable(events, s);
    PanicTells(s, c);
  }

  /**
   The leaks: after a pool miss or a failed lookup, each lock the command had obtained
   stays live, and a scope that meets it is refused to everybody, until the lock is
   released manually or a sweep runs more than 300 seconds past its grant or last
   heartbeat; then it is gone. After a pool miss that is every lock it wanted.
   */
  lemma AbandonedLocksLinger(events: seq<Event>, s: State, c: CommandId, n: nat)
    requires Reaches(events, s) && c in s.commands && n < |s.commands[c].wanted|
    requires s.commands[c].phase == Abandoned || s.commands[c].phase == Panicked
    ensures s.commands[c].phase == Abandoned ==> n < |s.commands[c].ids|
    ensures n < |s.commands[c].ids| ==>
      var id := s.commands[c].ids[n];
      && (id in s.locks <==> id !in s.overridden && !SweptAway(s, id))
      && (id in s.locks ==>
            forall scope | s.commands[c].wanted[n].scope.Intersects(scope) :: !Free(s.locks, scope))
  {
    InvReachable(events, s);
    var cmd := s.commands[c];
    assert Owns(s, c, cmd);
    if n < |cmd.ids| {
      var id := cmd.ids[n];
      assert id in Owed(cmd);
      LossExact(events, s, c, id);
      assert id in s.locks ==> LockOk(s, id);
    }
  }
}
