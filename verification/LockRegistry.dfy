/**
 The registry of live locks: a hash map behind one mutex. Each method is one
 critical section. The functions above the class are the state transitions; the
 methods are proved against them, and LockProtocol.dfy interleaves them.
 */
module LockRegistries {
  import opened Wrappers
  import opened Integers64
  import opened LockScopes

  /** Stands for a UUID: the registry never mints the same one twice. */
  type LockId = nat

  datatype ResourceLock = ResourceLock(
    id: LockId, scope: LockScope, opName: string,
    acquiredAt: I64, lastHeartbeatAt: I64, ttlSecs: U64)
  {
    /** `last_heartbeat_at + ttl_secs as i64` in 64-bit arithmetic. */
    function Deadline(): I64 {
      ToI64(lastHeartbeatAt + ToI64(ttlSecs))
    }

    predicate Stale(now: I64) {
      Deadline() < now
    }
  }

  datatype LockError = Locked(lockId: LockId, opName: string) | NotFound(resource: LockId)

  type Locks = map<LockId, ResourceLock>

  // ------------------------------------------------------------------------
  // State transitions
  // ------------------------------------------------------------------------

  /** No live lock conflicts with the scope. */
  ghost predicate Free(locks: Locks, scope: LockScope) {
    forall i | i in locks :: !locks[i].scope.Intersects(scope)
  }

  function Grant(locks: Locks, id: LockId, scope: LockScope, opName: string, ttl: U64, now: I64): Locks {
    locks[id := ResourceLock(id, scope, opName, now, now, ttl)]
  }

  function Beat(locks: Locks, id: LockId, now: I64): Locks {
    if id in locks then locks[id := locks[id].(lastHeartbeatAt := now)] else locks
  }

  function Survivors(locks: Locks, now: I64): Locks {
    map i | i in locks && !locks[i].Stale(now) :: locks[i]
  }

  // ------------------------------------------------------------------------
  // What every registry keeps
  // ------------------------------------------------------------------------

  ghost predicate WellKeyed(locks: Locks) {
    forall i | i in locks :: locks[i].id == i
  }

  /** No object is covered by two different locks. */
  ghost predicate Exclusive(locks: Locks) {
    forall i, j, o | i in locks && j in locks && Covers(locks[i].scope, o) && Covers(locks[j].scope, o) :: i == j
  }

  lemma ExclusiveGrant(locks: Locks, id: LockId, scope: LockScope, opName: string, ttl: U64, now: I64)
    requires Exclusive(locks) && id !in locks
    ensures Exclusive(Grant(locks, id, scope, opName, ttl, now)) <==> Free(locks, scope)
  {
    var after := Grant(locks, id, scope, opName, ttl, now);
    forall i | i in locks
      ensures locks[i].scope.Intersects(scope) <==> exists o :: Covers(locks[i].scope, o) && Covers(scope, o)
    {
      IntersectsExact(locks[i].scope, scope);
    }
    if Free(locks, scope) {
      forall i, j, o | i in after && j in after && Covers(after[i].scope, o) && Covers(after[j].scope, o)
        ensures i == j
      {
        assert i != id ==> i in locks;
        assert j != id ==> j in locks;
      }
    } else {
      var i :| i in locks && locks[i].scope.Intersects(scope);
      var o :| Covers(locks[i].scope, o) && Covers(scope, o);
      assert Covers(after[i].scope, o) && Covers(after[id].scope, o) && i != id;
    }
  }

  // ------------------------------------------------------------------------
  // The 64-bit deadline
  // ------------------------------------------------------------------------

  /** `last_heartbeat_at + ttl < now` over the integers, as the sweep is documented. */
  predicate Expired(lastHeartbeatAt: int, ttl: int, now: int) {
    lastHeartbeatAt + ttl < now
  }

  /**
   The coded staleness test agrees with the documented one at every instant
   precisely when the deadline fits in 64 signed bits; otherwise a lock that
   should outlive the clock is already stale.
   */
  lemma StaleIsExpired(lock: ResourceLock)
    ensures (forall now: I64 :: lock.Stale(now) == Expired(lock.lastHeartbeatAt, lock.ttlSecs, now))
       <==> lock.lastHeartbeatAt + lock.ttlSecs <= I64_MAX
  {
    if lock.lastHeartbeatAt + lock.ttlSecs > I64_MAX {
      assert lock.Deadline() != I64_MAX;
      var latest: I64 := I64_MAX;
      assert lock.Stale(latest) && !Expired(lock.lastHeartbeatAt, lock.ttlSecs, latest);
    }
  }

  // ------------------------------------------------------------------------
  // LockRegistry
  // ------------------------------------------------------------------------

  class LockRegistry {
    var locks: Locks
    /** Source of fresh ids. */
    var nextId: LockId

    ghost predicate Valid()
      reads this
    {
      WellKeyed(locks) && Exclusive(locks) && forall i | i in locks :: i < nextId
    }

    constructor ()
      ensures Valid() && locks == map[]
    {
      locks := map[];
      nextId := 0;
    }

    /** Grants the scope unless a live lock conflicts, and then names one that does. */
    method Acquire(scope: LockScope, opName: string, ttlSecs: U64, now: I64) returns (r: Result<LockId, LockError>)
      requires Valid()
      modifies this
      ensures Valid() && nextId >= old(nextId)
      ensures r.Success? <==> Free(old(locks), scope)
      ensures r.Success? ==>
        && r.value == old(nextId) && r.value < nextId
        && locks == Grant(old(locks), r.value, scope, opName, ttlSecs, now)
      ensures r.Failure? ==>
        && locks == old(locks) && nextId == old(nextId)
        && exists l :: l in locks && r.error == Locked(l, locks[l].opName) && locks[l].scope.Intersects(scope)
    {
      var unseen := locks.Keys;
      while unseen != {}
        invariant unseen <= locks.Keys
        invariant forall i | i in locks && i !in unseen :: !locks[i].scope.Intersects(scope)
        decreases unseen
      {
        var i :| i in unseen;
        var existing := locks[i];
        if existing.scope.Intersects(scope) {
          return Failure(Locked(existing.id, existing.opName));
        }
        unseen := unseen - {i};
      }
      var id := nextId;
      ExclusiveGrant(locks, id, scope, opName, ttlSecs, now);
      locks := locks[id := ResourceLock(id, scope, opName, now, now, ttlSecs)];
      nextId := nextId + 1;
      return Success(id);
    }

    method Heartbeat(id: LockId, now: I64) returns (r: Result<(), LockError>)
      requires Valid()
      modifies this`locks
      ensures Valid()
      ensures locks == Beat(old(locks), id, now)
      ensures r == if id in old(locks) then Success(()) else Failure(NotFound(id))
    {
      if id in locks {
        locks := locks[id := locks[id].(lastHeartbeatAt := now)];
        return Success(());
      }
      return Failure(NotFound(id));
    }

    method Release(id: LockId) returns (r: Result<ResourceLock, LockError>)
      requires Valid()
      modifies this`locks
      ensures Valid()
      ensures locks == old(locks) - {id}
      ensures r == if id in old(locks) then Success(old(locks)[id]) else Failure(NotFound(id))
    {
      if id in locks {
        r := Success(locks[id]);
        locks := locks - {id};
      } else {
        r := Failure(NotFound(id));
        assert locks - {id} == locks;
      }
    }

    /** The live locks that meet the filter, each exactly once, in no particular order. */
    method List(filter: Option<LockScope>) returns (r: seq<ResourceLock>)
      requires Valid()
      ensures forall l :: l in r <==>
        l.id in locks && locks[l.id] == l && (filter.Some? ==> l.scope.Intersects(filter.value))
      ensures forall m, n | 0 <= m < n < |r| :: r[m].id != r[n].id
    {
      r := [];
      var unseen := locks.Keys;
      while unseen != {}
        invariant unseen <= locks.Keys
        invariant forall l :: l in r <==>
          && l.id in locks && l.id !in unseen && locks[l.id] == l
          && (filter.Some? ==> l.scope.Intersects(filter.value))
        invariant forall m | 0 <= m < |r| :: r[m] in r
        invariant forall m, n | 0 <= m < n < |r| :: r[m].id != r[n].id
        decreases unseen
      {
        var i :| i in unseen;
        unseen := unseen - {i};
        if filter.None? || locks[i].scope.Intersects(filter.value) {
          r := r + [locks[i]];
        }
      }
    }

    /** The first half of a sweep only looks. */
    method StaleIds(now: I64) returns (staleIds: seq<LockId>)
      requires Valid()
      ensures forall i :: i in staleIds <==> i in locks && locks[i].Stale(now)
      ensures forall m, n | 0 <= m < n < |staleIds| :: staleIds[m] != staleIds[n]
    {
      staleIds := [];
      var unseen := locks.Keys;
      while unseen != {}
        invariant unseen <= locks.Keys
        invariant forall i :: i in staleIds <==> i in locks && i !in unseen && locks[i].Stale(now)
        invariant forall m, n | 0 <= m < n < |staleIds| :: staleIds[m] != staleIds[n]
        decreases unseen
      {
        var i :| i in unseen;
        unseen := unseen - {i};
        if locks[i].Stale(now) {
          staleIds := staleIds + [i];
        }
      }
    }

    /** One sweep: the registry splits exactly into the stale locks, each returned once, and the survivors. */
    method ReleaseStale(now: I64) returns (released: seq<ResourceLock>)
      requires Valid()
      modifies this`locks
      ensures Valid()
      ensures locks == Survivors(old(locks), now)
      ensures forall l :: l in released <==> l.id in old(locks) && old(locks)[l.id] == l && l.Stale(now)
      ensures forall m, n | 0 <= m < n < |released| :: released[m].id != released[n].id
    {
      var staleIds := StaleIds(now);
      released := [];
      for k := 0 to |staleIds|
        invariant forall i :: i in locks <==> i in old(locks) && i !in staleIds[..k]
        invariant forall i | i in locks :: locks[i] == old(locks)[i]
        invariant |released| == k
        invariant forall m | 0 <= m < k :: released[m] == old(locks)[staleIds[m]]
      {
        var id := staleIds[k];
        assert id in staleIds && id !in staleIds[..k];
        assert staleIds[..k + 1] == staleIds[..k] + [id];
        released := released + [locks[id]];
        locks := locks - {id};
      }
      assert staleIds[..|staleIds|] == staleIds;
      forall l: ResourceLock | l.id in old(locks) && old(locks)[l.id] == l && l.Stale(now)
        ensures l in released
      {
        assert l.id in staleIds;
        var m :| 0 <= m < |staleIds| && staleIds[m] == l.id;
        assert released[m] == l;
      }
    }

    method StartupCleanup() returns (released: seq<ResourceLock>)
      requires Valid()
      modifies this`locks
      ensures Valid() && locks == map[]
      ensures forall l :: l in released <==> l.id in old(locks) && old(locks)[l.id] == l
      ensures forall m, n | 0 <= m < n < |released| :: released[m].id != released[n].id
    {
      released := List(None);
      locks := map[];
    }
  }
}
