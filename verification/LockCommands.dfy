/**
 The commands that hold several locks at once: copy and move lock the parent
 folders of both ends, a batch delete locks every distinct parent folder. This
 file takes one command at a time; LockProtocol.dfy interleaves their steps.
 */
module LockCommands {
  import opened Wrappers
  import opened Integers64
  import opened LockScopes
  import opened LockRegistries

  const LOCK_TTL: U64 := 300

  datatype ObjectRef = ObjectRef(bucket: string, key: string)

  /** A lock a command is about to ask for. */
  datatype Wanted = Wanted(scope: LockScope, opName: string)

  /** The call was refused, or the client pool had no client, or the S3 call ran. */
  datatype Outcome = Refused(error: LockError) | PoolMiss | Finished(ok: bool)

  // ------------------------------------------------------------------------
  // All-or-nothing acquisition
  // ------------------------------------------------------------------------

  /** The wanted scopes do not conflict with one another. */
  ghost predicate Compatible(wanted: seq<Wanted>) {
    forall m, n | 0 <= m < n < |wanted| :: !wanted[m].scope.Intersects(wanted[n].scope)
  }

  /** No wanted scope conflicts with a live lock. */
  ghost predicate AllFree(locks: Locks, wanted: seq<Wanted>) {
    forall n | 0 <= n < |wanted| :: Free(locks, wanted[n].scope)
  }

  /** `after` is `before` plus exactly one new lock per wanted scope. */
  ghost predicate GrantedAll(before: Locks, after: Locks, ids: seq<LockId>, wanted: seq<Wanted>, now: I64) {
    && |ids| == |wanted|
    && (forall m, n | 0 <= m < n < |ids| :: ids[m] != ids[n])
    && (forall n | 0 <= n < |ids| :: ids[n] !in before)
    && (forall i :: i in after <==> i in before || i in ids)
    && (forall i | i in before :: after[i] == before[i])
    && (forall n | 0 <= n < |ids| ::
          after[ids[n]] == ResourceLock(ids[n], wanted[n].scope, wanted[n].opName, now, now, LOCK_TTL))
  }

  /** Having taken some of its scopes, a command is refused the next one for one of two reasons. */
  lemma FreeAfterGrants(before: Locks, after: Locks, ids: seq<LockId>, wanted: seq<Wanted>, now: I64, scope: LockScope)
    requires GrantedAll(before, after, ids, wanted, now)
    ensures Free(after, scope) <==>
      Free(before, scope) && forall n | 0 <= n < |wanted| :: !wanted[n].scope.Intersects(scope)
  {
    if Free(after, scope) {
      forall n | 0 <= n < |wanted| ensures !wanted[n].scope.Intersects(scope) {
        assert ids[n] in after;
      }
    } else {
      var i :| i in after && after[i].scope.Intersects(scope);
      if i !in before {
        var n :| 0 <= n < |ids| && ids[n] == i;
        assert wanted[n].scope.Intersects(scope);
      }
    }
  }

  lemma GrantOneMore(
      before: Locks, middle: Locks, ids: seq<LockId>, wanted: seq<Wanted>, now: I64,
      id: LockId, next: Wanted)
    requires GrantedAll(before, middle, ids, wanted, now) && id !in middle
    ensures
      var after := Grant(middle, id, next.scope, next.opName, LOCK_TTL, now);
      GrantedAll(before, after, ids + [id], wanted + [next], now)
  {
    forall n | 0 <= n < |ids| ensures ids[n] in middle && ids[n] != id {
    }
  }

  ghost predicate InTheWay(before: Locks, taken: seq<Wanted>, id: LockId, opName: string, scope: LockScope) {
    if id in before then before[id].opName == opName && before[id].scope.Intersects(scope)
    else exists n | 0 <= n < |taken| :: taken[n].opName == opName && taken[n].scope.Intersects(scope)
  }

  /**
   The error names a lock in the way of the first wanted scope that is refused: one that
   was live before the call, or one that the command has just taken itself.
   */
  ghost predicate NamesConflict(before: Locks, wanted: seq<Wanted>, error: LockError) {
    && error.Locked?
    && exists k | 0 <= k < |wanted| ::
         && Compatible(wanted[..k]) && AllFree(before, wanted[..k])
         && InTheWay(before, wanted[..k], error.lockId, error.opName, wanted[k].scope)
  }

  lemma LiveInTheWay(
      before: Locks, middle: Locks, ids: seq<LockId>, taken: seq<Wanted>, now: I64, id: LockId, scope: LockScope)
    requires GrantedAll(before, middle, ids, taken, now) && id in middle && middle[id].scope.Intersects(scope)
    ensures InTheWay(before, taken, id, middle[id].opName, scope)
  {
    if id !in before {
      var n :| 0 <= n < |ids| && ids[n] == id;
      assert taken[n].opName == middle[id].opName && taken[n].scope.Intersects(scope);
    }
  }

  /** Granting anything at all changes the registry. */
  lemma GrantsShow(before: Locks, after: Locks, ids: seq<LockId>, wanted: seq<Wanted>, now: I64)
    requires GrantedAll(before, after, ids, wanted, now)
    ensures after == before <==> wanted == []
  {
    if wanted == [] {
      assert after.Keys == before.Keys;
    } else {
      assert ids[0] in after && ids[0] !in before;
    }
  }

  /** Releases the given locks in order, ignoring the ones that are already gone. */
  method ReleaseAll(registry: LockRegistry, ids: seq<LockId>)
    requires registry.Valid()
    modifies registry`locks
    ensures registry.Valid()
    ensures registry.locks == old(registry.locks) - (set i | i in ids)
  {
    for k := 0 to |ids|
      invariant registry.Valid()
      invariant registry.locks == old(registry.locks) - (set i | i in ids[..k])
    {
      assert ids[..k + 1] == ids[..k] + [ids[k]];
      var _ := registry.Release(ids[k]);
    }
    assert ids[..|ids|] == ids;
  }

  /** The acquisition loop with rollback: everything wanted is granted, or nothing changes. */
  method AcquireAll(registry: LockRegistry, wanted: seq<Wanted>, now: I64) returns (r: Result<seq<LockId>, LockError>)
    requires registry.Valid()
    modifies registry
    ensures registry.Valid()
    ensures r.Success? <==> Compatible(wanted) && AllFree(old(registry.locks), wanted)
    ensures r.Success? ==> GrantedAll(old(registry.locks), registry.locks, r.value, wanted, now)
    ensures r.Failure? ==> registry.locks == old(registry.locks)
    ensures r.Failure? ==> NamesConflict(old(registry.locks), wanted, r.error)
  {
    var acquired: seq<LockId> := [];
    for k := 0 to |wanted|
      invariant registry.Valid()
      invariant GrantedAll(old(registry.locks), registry.locks, acquired, wanted[..k], now)
      invariant Compatible(wanted[..k]) && AllFree(old(registry.locks), wanted[..k])
    {
      ghost var middle := registry.locks;
      assert wanted[..k + 1] == wanted[..k] + [wanted[k]];
      FreeAfterGrants(old(registry.locks), middle, acquired, wanted[..k], now, wanted[k].scope);
      var next := registry.Acquire(wanted[k].scope, wanted[k].opName, LOCK_TTL, now);
      if next.Failure? {
        assert !Compatible(wanted) || !AllFree(old(registry.locks), wanted) by {
          if Compatible(wanted) {
            forall n | 0 <= n < k ensures !wanted[..k][n].scope.Intersects(wanted[k].scope) {
              assert wanted[..k][n] == wanted[n];
            }
          }
        }
        LiveInTheWay(
          old(registry.locks), middle, acquired, wanted[..k], now, next.error.lockId, wanted[k].scope);
        ReleaseAll(registry, acquired);
        assert registry.locks == old(registry.locks);
        return Failure(next.error);
      }
      GrantOneMore(old(registry.locks), middle, acquired, wanted[..k], now, next.value, wanted[k]);
      acquired := acquired + [next.value];
    }
    assert wanted[..|wanted|] == wanted;
    return Success(acquired);
  }

  lemma PairFacts(locks: Locks, source: Wanted, destination: Wanted)
    ensures AllFree(locks, [source, destination]) <==> Free(locks, source.scope) && Free(locks, destination.scope)
    ensures Compatible([source, destination]) <==> !source.scope.Intersects(destination.scope)
  {
    assert [source, destination][0] == source && [source, destination][1] == destination;
  }

  lemma FirstGrant(before: Locks, id: LockId, wanted: Wanted, now: I64)
    requires id !in before
    ensures GrantedAll(before, Grant(before, id, wanted.scope, wanted.opName, LOCK_TTL, now), [id], [wanted], now)
  {
    assert GrantedAll(before, before, [], [], now);
    GrantOneMore(before, before, [], [], now, id, wanted);
    assert [] + [id] == [id] && [] + [wanted] == [wanted];
  }

  lemma FreeAfterFirst(before: Locks, after: Locks, id: LockId, wanted: Wanted, now: I64, scope: LockScope)
    requires GrantedAll(before, after, [id], [wanted], now)
    ensures Free(after, scope) <==> Free(before, scope) && !wanted.scope.Intersects(scope)
  {
    FreeAfterGrants(before, after, [id], [wanted], now, scope);
    assert [wanted][0] == wanted;
  }

  /** The two acquisitions of a copy or move: the second failing gives the first one back. */
  method AcquirePair(registry: LockRegistry, source: Wanted, destination: Wanted, now: I64)
      returns (r: Result<(LockId, LockId), LockError>)
    requires registry.Valid()
    modifies registry
    ensures registry.Valid()
    ensures r.Success? <==> Compatible([source, destination]) && AllFree(old(registry.locks), [source, destination])
    ensures r.Success? ==>
      GrantedAll(old(registry.locks), registry.locks, [r.value.0, r.value.1], [source, destination], now)
    ensures r.Failure? ==> registry.locks == old(registry.locks)
    ensures r.Failure? ==> NamesConflict(old(registry.locks), [source, destination], r.error)
  {
    ghost var before := registry.locks;
    PairFacts(before, source, destination);
    var first := registry.Acquire(source.scope, source.opName, LOCK_TTL, now);
    if first.Failure? {
      assert InTheWay(before, [source, destination][..0], first.error.lockId, first.error.opName, source.scope);
      return Failure(first.error);
    }
    ghost var middle := registry.locks;
    FirstGrant(before, first.value, source, now);
    FreeAfterFirst(before, middle, first.value, source, now, destination.scope);
    var second := registry.Acquire(destination.scope, destination.opName, LOCK_TTL, now);
    if second.Failure? {
      LiveInTheWay(before, middle, [first.value], [source], now, second.error.lockId, destination.scope);
      assert [source, destination][..1] == [source];
      var _ := registry.Release(first.value);
      assert registry.locks == before;
      return Failure(second.error);
    }
    GrantOneMore(before, middle, [first.value], [source], now, second.value, destination);
    assert [first.value] + [second.value] == [first.value, second.value];
    assert [source] + [destination] == [source, destination];
    return Success((first.value, second.value));
  }

  // ------------------------------------------------------------------------
  // Copy and move
  // ------------------------------------------------------------------------

  function PairWanted(profile: string, op: string, source: ObjectRef, destination: ObjectRef): seq<Wanted> {
    [ Wanted(FolderScope(profile, source.bucket, ParentPrefix(source.key)), op + ":source"),
      Wanted(FolderScope(profile, destination.bucket, ParentPrefix(destination.key)), op + ":dest") ]
  }

  /** One folder contains the other, or they are the same folder. */
  predicate Nested(p: string, q: string) {
    p <= q || q <= p
  }

  /** The pair conflicts with itself exactly when both ends are in nested or equal folders of one bucket. */
  lemma PairConflict(profile: string, op: string, source: ObjectRef, destination: ObjectRef)
    ensures Compatible(PairWanted(profile, op, source, destination)) <==>
            !(source.bucket == destination.bucket && Nested(ParentPrefix(source.key), ParentPrefix(destination.key)))
  {
    var wanted := PairWanted(profile, op, source, destination);
    assert wanted[0].scope.Intersects(wanted[1].scope) <==>
      source.bucket == destination.bucket && Nested(ParentPrefix(source.key), ParentPrefix(destination.key));
  }

  /**
   The lock/act/release sequence of `object_copy` and `object_move`, with the
   answers of the client pool and of S3 as parameters.
   */
  method CopyOrMove(
      registry: LockRegistry, profile: string, op: string, source: ObjectRef, destination: ObjectRef,
      now: I64, poolHit: bool, s3Ok: bool) returns (outcome: Outcome, ghost leaked: seq<LockId>)
    requires registry.Valid()
    modifies registry
    ensures registry.Valid()
    ensures outcome.Refused? <==>
      || (source.bucket == destination.bucket && Nested(ParentPrefix(source.key), ParentPrefix(destination.key)))
      || !Free(old(registry.locks), FolderScope(profile, source.bucket, ParentPrefix(source.key)))
      || !Free(old(registry.locks), FolderScope(profile, destination.bucket, ParentPrefix(destination.key)))
    ensures outcome.Refused? ==>
      NamesConflict(old(registry.locks), PairWanted(profile, op, source, destination), outcome.error)
    ensures !outcome.Refused? ==> outcome == if poolHit then Finished(s3Ok) else PoolMiss
    ensures !outcome.PoolMiss? ==> registry.locks == old(registry.locks)
    ensures outcome.PoolMiss? ==>
      GrantedAll(
        old(registry.locks), registry.locks, leaked,
        [ Wanted(FolderScope(profile, source.bucket, ParentPrefix(source.key)), op + ":source"),
          Wanted(FolderScope(profile, destination.bucket, ParentPrefix(destination.key)), op + ":dest") ],
        now)
    ensures registry.locks == old(registry.locks) <==> outcome.Refused? || poolHit
  {
    var wanted := PairWanted(profile, op, source, destination);
    leaked := [];
    PairConflict(profile, op, source, destination);
    PairFacts(old(registry.locks), wanted[0], wanted[1]);
    var acquired := AcquirePair(registry, wanted[0], wanted[1], now);
    assert wanted == [wanted[0], wanted[1]];
    if acquired.Failure? {
      return Refused(acquired.error), leaked;
    }
    var (sourceId, destinationId) := acquired.value;
    if !poolHit {
      leaked := [sourceId, destinationId];
      GrantsShow(old(registry.locks), registry.locks, leaked, wanted, now);
      return PoolMiss, leaked;
    }
    var _ := registry.Release(destinationId);
    var _ := registry.Release(sourceId);
    assert sourceId == [sourceId, destinationId][0] && destinationId == [sourceId, destinationId][1];
    assert registry.locks == old(registry.locks);
    return Finished(s3Ok), leaked;
  }

  // ------------------------------------------------------------------------
  // Batch delete
  // ------------------------------------------------------------------------

  /** Lexicographic order on scalar values, which is the byte order of UTF-8. */
  predicate Precedes(a: string, b: string) {
    if b == "" then false
    else if a == "" then true
    else a[0] < b[0] || (a[0] == b[0] && Precedes(a[1..], b[1..]))
  }

  lemma {:induction false} PrecedesTotal(a: string, b: string)
    ensures a == b || Precedes(a, b) || Precedes(b, a)
  {
    if a == "" || b == "" || a[0] != b[0] {
    } else {
      PrecedesTotal(a[1..], b[1..]);
      assert a == [a[0]] + a[1..] && b == [b[0]] + b[1..];
    }
  }

  lemma {:induction false} PrecedesTransitive(a: string, b: string, c: string)
    requires Precedes(a, b) && Precedes(b, c)
    ensures Precedes(a, c)
  {
    if a == "" || a[0] != b[0] || b[0] != c[0] {
    } else {
      PrecedesTransitive(a[1..], b[1..], c[1..]);
    }
  }

  ghost predicate StrictlySorted(s: seq<string>) {
    forall m, n | 0 <= m < n < |s| :: Precedes(s[m], s[n])
  }

  /** Insertion into a sorted set. */
  function Insert(sorted: seq<string>, p: string): (r: seq<string>)
    ensures forall x :: x in r <==> x == p || x in sorted
    ensures StrictlySorted(sorted) ==> StrictlySorted(r)
  {
    if sorted == [] then [p]
    else if sorted[0] == p then sorted
    else if Precedes(p, sorted[0]) then
      assert StrictlySorted(sorted) ==> forall n | 0 < n < |sorted| :: Precedes(p, sorted[n]) by {
        if StrictlySorted(sorted) {
          forall n | 0 < n < |sorted| ensures Precedes(p, sorted[n]) {
            PrecedesTransitive(p, sorted[0], sorted[n]);
          }
        }
      }
      [p] + sorted
    else
      PrecedesTotal(p, sorted[0]);
      assert forall x :: x in sorted <==> x == sorted[0] || x in sorted[1..];
      var rest := Insert(sorted[1..], p);
      assert StrictlySorted(sorted) ==> forall x | x in rest :: Precedes(sorted[0], x);
      [sorted[0]] + rest
  }

  /** Some requested key lives in the folder. */
  ghost predicate Mentions(keys: seq<string>, folder: string) {
    exists n | 0 <= n < |keys| :: ParentPrefix(keys[n]) == folder
  }

  lemma MentionsSnoc(keys: seq<string>, folder: string)
    requires keys != []
    ensures var last := |keys| - 1;
      Mentions(keys, folder) <==> folder == ParentPrefix(keys[last]) || Mentions(keys[..last], folder)
  {
    var last := |keys| - 1;
    if n :| 0 <= n < |keys| && ParentPrefix(keys[n]) == folder {
      assert n < last ==> keys[..last][n] == keys[n];
    }
    if n :| 0 <= n < last && ParentPrefix(keys[..last][n]) == folder {
      assert keys[..last][n] == keys[n];
    }
  }

  /** The sorted, duplicate-free parent folders of the requested keys. */
  function UniquePrefixes(keys: seq<string>): (r: seq<string>)
    ensures StrictlySorted(r)
    ensures forall p :: p in r <==> Mentions(keys, p)
  {
    if keys == [] then []
    else
      var last := |keys| - 1;
      var r := Insert(UniquePrefixes(keys[..last]), ParentPrefix(keys[last]));
      assert forall p :: Mentions(keys, p) <==> p == ParentPrefix(keys[last]) || Mentions(keys[..last], p) by {
        forall p ensures Mentions(keys, p) <==> p == ParentPrefix(keys[last]) || Mentions(keys[..last], p) {
          MentionsSnoc(keys, p);
        }
      }
      r
  }

  lemma NoPrefixesNoKeys(keys: seq<string>)
    ensures UniquePrefixes(keys) == [] <==> keys == []
  {
    if keys != [] {
      assert Mentions(keys, ParentPrefix(keys[0]));
      assert ParentPrefix(keys[0]) in UniquePrefixes(keys);
    }
  }

  /** One lock for each folder. */
  function BatchWanted(profile: string, bucket: string, prefixes: seq<string>): (wanted: seq<Wanted>)
    ensures |wanted| == |prefixes|
    ensures forall n | 0 <= n < |prefixes| ::
              wanted[n].scope == FolderScope(profile, bucket, prefixes[n]) && wanted[n].opName == "object_delete_batch"
  {
    seq(|prefixes|, n requires 0 <= n < |prefixes| =>
      Wanted(FolderScope(profile, bucket, prefixes[n]), "object_delete_batch"))
  }

  /** Two requested keys live in different folders, one inside the other. */
  ghost predicate SpansNestedFolders(keys: seq<string>) {
    exists p, q :: Mentions(keys, p) && Mentions(keys, q) && p != q && p <= q
  }

  lemma PrecedesIrreflexive(a: string)
    ensures !Precedes(a, a)
  {
  }

  lemma FoldersConflict(profile: string, bucket: string, prefixes: seq<string>)
    ensures Compatible(BatchWanted(profile, bucket, prefixes)) <==>
            forall m, n | 0 <= m < n < |prefixes| :: !Nested(prefixes[m], prefixes[n])
  {
    var wanted := BatchWanted(profile, bucket, prefixes);
    forall m, n | 0 <= m < n < |prefixes|
      ensures wanted[m].scope.Intersects(wanted[n].scope) <==> Nested(prefixes[m], prefixes[n])
    {
    }
  }

  /** In a sorted list two positions are nested exactly when two different members are. */
  lemma NestedMembers(prefixes: seq<string>)
    requires StrictlySorted(prefixes)
    ensures (exists m, n :: 0 <= m < n < |prefixes| && Nested(prefixes[m], prefixes[n])) <==>
            exists p, q :: p in prefixes && q in prefixes && p != q && p <= q
  {
    if m, n :| 0 <= m < n < |prefixes| && Nested(prefixes[m], prefixes[n]) {
      PrecedesIrreflexive(prefixes[m]);
      assert prefixes[m] in prefixes && prefixes[n] in prefixes;
    }
    if p, q :| p in prefixes && q in prefixes && p != q && p <= q {
      var m :| 0 <= m < |prefixes| && prefixes[m] == p;
      var n :| 0 <= n < |prefixes| && prefixes[n] == q;
      assert if m < n then Nested(prefixes[m], prefixes[n]) else Nested(prefixes[n], prefixes[m]);
    }
  }

  lemma SpansMembers(keys: seq<string>, folders: seq<string>)
    requires forall p :: p in folders <==> Mentions(keys, p)
    ensures SpansNestedFolders(keys) <==> exists p, q :: p in folders && q in folders && p != q && p <= q
  {
    if p, q :| Mentions(keys, p) && Mentions(keys, q) && p != q && p <= q {
      assert p in folders && q in folders;
    }
    if p, q :| p in folders && q in folders && p != q && p <= q {
      assert Mentions(keys, p) && Mentions(keys, q);
    }
  }

  /** The folders of a batch conflict with one another exactly when the keys span nested folders. */
  lemma BatchConflict(profile: string, bucket: string, keys: seq<string>)
    ensures Compatible(BatchWanted(profile, bucket, UniquePrefixes(keys))) <==> !SpansNestedFolders(keys)
  {
    var prefixes := UniquePrefixes(keys);
    FoldersConflict(profile, bucket, prefixes);
    NestedMembers(prefixes);
    SpansMembers(keys, prefixes);
  }

  lemma FoldersFree(locks: Locks, profile: string, bucket: string, prefixes: seq<string>)
    ensures AllFree(locks, BatchWanted(profile, bucket, prefixes)) <==>
            forall p | p in prefixes :: Free(locks, FolderScope(profile, bucket, p))
  {
    var wanted := BatchWanted(profile, bucket, prefixes);
    if AllFree(locks, wanted) {
      forall p | p in prefixes ensures Free(locks, FolderScope(profile, bucket, p)) {
        var m :| 0 <= m < |prefixes| && prefixes[m] == p;
        assert Free(locks, wanted[m].scope);
      }
    }
    if forall p | p in prefixes :: Free(locks, FolderScope(profile, bucket, p)) {
      forall m | 0 <= m < |wanted| ensures Free(locks, wanted[m].scope) {
        assert prefixes[m] in prefixes;
      }
    }
  }

  lemma KeysFree(locks: Locks, profile: string, bucket: string, keys: seq<string>, folders: seq<string>)
    requires forall p :: p in folders <==> Mentions(keys, p)
    ensures (forall p | p in folders :: Free(locks, FolderScope(profile, bucket, p))) <==>
            forall n | 0 <= n < |keys| :: Free(locks, FolderScope(profile, bucket, ParentPrefix(keys[n])))
  {
    forall n | 0 <= n < |keys| ensures ParentPrefix(keys[n]) in folders {
      assert Mentions(keys, ParentPrefix(keys[n]));
    }
  }

  /** The locks of a batch are all free exactly when the folder of every key is. */
  lemma BatchFree(locks: Locks, profile: string, bucket: string, keys: seq<string>)
    ensures AllFree(locks, BatchWanted(profile, bucket, UniquePrefixes(keys))) <==>
            forall n | 0 <= n < |keys| :: Free(locks, FolderScope(profile, bucket, ParentPrefix(keys[n])))
  {
    FoldersFree(locks, profile, bucket, UniquePrefixes(keys));
    KeysFree(locks, profile, bucket, keys, UniquePrefixes(keys));
  }

  /** The lock/act/release sequence of `object_delete_batch`. */
  method DeleteBatch(
      registry: LockRegistry, profile: string, bucket: string, keys: seq<string>,
      now: I64, poolHit: bool, s3Ok: bool) returns (outcome: Outcome, ghost leaked: seq<LockId>)
    requires registry.Valid()
    modifies registry
    ensures registry.Valid()
    ensures outcome.Refused? <==>
      || SpansNestedFolders(keys)
      || exists n | 0 <= n < |keys| :: !Free(old(registry.locks), FolderScope(profile, bucket, ParentPrefix(keys[n])))
    ensures !outcome.Refused? ==> outcome == if poolHit then Finished(s3Ok) else PoolMiss
    ensures !outcome.PoolMiss? ==> registry.locks == old(registry.locks)
    ensures outcome.Refused? ==>
      NamesConflict(old(registry.locks), BatchWanted(profile, bucket, UniquePrefixes(keys)), outcome.error)
    ensures outcome.PoolMiss? ==>
      GrantedAll(old(registry.locks), registry.locks, leaked, BatchWanted(profile, bucket, UniquePrefixes(keys)), now)
    ensures registry.locks == old(registry.locks) <==> outcome.Refused? || poolHit || keys == []
  {
    leaked := [];
    var prefixes := UniquePrefixes(keys);
    var wanted := BatchWanted(profile, bucket, prefixes);
    BatchConflict(profile, bucket, keys);
    BatchFree(old(registry.locks), profile, bucket, keys);
    var acquired := AcquireAll(registry, wanted, now);
    if acquired.Failure? {
      return Refused(acquired.error), leaked;
    }
    if !poolHit {
      leaked := acquired.value;
      GrantsShow(old(registry.locks), registry.locks, leaked, wanted, now);
      assert wanted == [] <==> keys == [] by {
        NoPrefixesNoKeys(keys);
      }
      return PoolMiss, leaked;
    }
    ReleaseAll(registry, acquired.value);
    assert registry.locks == old(registry.locks);
    return Finished(s3Ok), leaked;
  }

  /** Deleting one key without a client, on an empty registry, leaves a lock behind. */
  method PoolMissLeaks() returns (registry: LockRegistry)
    ensures registry.Valid() && registry.locks != map[]
  {
    registry := new LockRegistry();
    assert forall p | Mentions(["a"], p) :: p == ParentPrefix("a");
    var outcome, leaked := DeleteBatch(registry, "profile", "bucket", ["a"], 0, false, true);
  }
}
