/** The background sweep: the registry is swept once per tick of an interval timer. */
module LockSweep {
  import opened Integers64
  import opened LockRegistries

  /** What a series of sweeps at these instants leaves. */
  function AfterSweeps(locks: Locks, ticks: seq<I64>): Locks {
    if ticks == [] then locks
    else Survivors(AfterSweeps(locks, ticks[..|ticks| - 1]), ticks[|ticks| - 1])
  }

  /** The lock would be found stale at some tick. */
  ghost predicate StaleAtSome(lock: ResourceLock, ticks: seq<I64>) {
    exists k :: 0 <= k < |ticks| && lock.Stale(ticks[k])
  }

  /** A lock nobody heartbeats survives a series of sweeps exactly when no tick is past its deadline. */
  lemma {:induction false} SurvivesExactly(locks: Locks, ticks: seq<I64>, id: LockId)
    ensures id in AfterSweeps(locks, ticks) <==> id in locks && !StaleAtSome(locks[id], ticks)
    ensures id in AfterSweeps(locks, ticks) ==> AfterSweeps(locks, ticks)[id] == locks[id]
  {
    if ticks == [] {
    } else {
      var last := |ticks| - 1;
      SurvivesExactly(locks, ticks[..last], id);
      if id in locks && StaleAtSome(locks[id], ticks) {
        var k :| 0 <= k < |ticks| && locks[id].Stale(ticks[k]);
        assert k < last ==> ticks[..last][k] == ticks[k];
      }
      if id in locks && StaleAtSome(locks[id], ticks[..last]) {
        var k :| 0 <= k < last && locks[id].Stale(ticks[..last][k]);
        assert ticks[k] == ticks[..last][k];
      }
    }
  }

  /**
   With ticks at most `interval` seconds apart, starting no later than the deadline
   and running past it, an unheartbeated lock is removed by one particular sweep: it
   outlives every earlier one, and that sweep comes at most `interval` seconds late.
   */
  lemma RemovedPromptly(locks: Locks, ticks: seq<I64>, id: LockId, interval: nat) returns (k: nat)
    requires id in locks && ticks != []
    requires forall n | 0 < n < |ticks| :: ticks[n] <= ticks[n - 1] + interval
    requires ticks[0] <= locks[id].Deadline() < ticks[|ticks| - 1]
    ensures k < |ticks| && locks[id].Deadline() < ticks[k] <= locks[id].Deadline() + interval
    ensures forall n | 0 <= n <= k :: id in AfterSweeps(locks, ticks[..n])
    ensures forall n | k < n <= |ticks| :: id !in AfterSweeps(locks, ticks[..n])
  {
    k := 1;
    while ticks[k] <= locks[id].Deadline()
      invariant 0 < k < |ticks|
      invariant forall n | 0 <= n < k :: !locks[id].Stale(ticks[n])
      decreases |ticks| - k
    {
      k := k + 1;
    }
    assert ticks[k] <= ticks[k - 1] + interval;
    forall n | 0 <= n <= k ensures id in AfterSweeps(locks, ticks[..n]) {
      SurvivesExactly(locks, ticks[..n], id);
    }
    forall n | k < n <= |ticks| ensures id !in AfterSweeps(locks, ticks[..n]) {
      SurvivesExactly(locks, ticks[..n], id);
      assert locks[id].Stale(ticks[..n][k]);
    }
  }

  /**
   The sweep loop over the ticks seen so far. Every lock that leaves the registry is
   announced, exactly once and as it was; every other lock is untouched.
   */
  method SweepLoop(registry: LockRegistry, ticks: seq<I64>) returns (announced: seq<ResourceLock>)
    requires registry.Valid()
    modifies registry`locks
    ensures registry.Valid()
    ensures registry.locks == AfterSweeps(old(registry.locks), ticks)
    ensures forall l :: l in announced <==>
      l.id in old(registry.locks) && l.id !in registry.locks && old(registry.locks)[l.id] == l
    ensures forall m, n | 0 <= m < n < |announced| :: announced[m].id != announced[n].id
  {
    announced := [];
    for t := 0 to |ticks|
      invariant registry.Valid()
      invariant registry.locks == AfterSweeps(old(registry.locks), ticks[..t])
      invariant forall i | i in registry.locks ::
        i in old(registry.locks) && registry.locks[i] == old(registry.locks)[i]
      invariant forall l :: l in announced <==>
        l.id in old(registry.locks) && l.id !in registry.locks && old(registry.locks)[l.id] == l
      invariant forall m, n | 0 <= m < n < |announced| :: announced[m].id != announced[n].id
    {
      ghost var before, told := registry.locks, announced;
      var stale := registry.ReleaseStale(ticks[t]);
      assert ticks[..t + 1][..t] == ticks[..t];
      forall m, n | 0 <= m < |told| && 0 <= n < |stale| ensures told[m].id != stale[n].id {
        assert told[m] in told && stale[n] in stale;
      }
      announced := announced + stale;
      forall l: ResourceLock
        ensures l in announced <==>
          l.id in old(registry.locks) && l.id !in registry.locks && old(registry.locks)[l.id] == l
      {
        assert l in announced <==> l in told || l in stale;
      }
    }
    assert ticks[..|ticks|] == ticks;
  }
}
