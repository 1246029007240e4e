/**
 The two-layer cache: a bounded in-memory map over an optional disk table, read
 with a time to live and a stale-while-revalidate window. It is specified by one
 plain map from serialized keys to timed entries.
 */
module CacheStores {
  import opened Wrappers
  import opened Integers64
  import opened CacheKeys

  datatype CacheConfig = CacheConfig(defaultTtlSecs: U64, swrWindowSecs: U64, maxInMemoryEntries: nat)

  /** What the JSON bytes of an entry hold. */
  datatype Entry<V> = Entry(value: V, fetchedAt: I64, expiresAt: I64)

  /** An in-memory slot repeats the timing next to the bytes. */
  datatype Slot<V> = Slot(raw: Entry<V>, expiresAt: I64, swrDeadline: I64)

  datatype Freshness = Fresh | Stale

  datatype Read<V> = Read(value: V, freshness: Freshness)

  /** The stored value does not decode as the type the caller asked for. */
  datatype CacheError = BadValue

  type Answer<V> = Result<Option<Read<V>>, CacheError>

  /** The specification: one timed map. */
  type TimedMap<V> = map<string, Entry<V>>

  function SwrDeadline(config: CacheConfig, expiresAt: I64): I64 {
    ToI64(expiresAt + ToI64(config.swrWindowSecs))
  }

  function ExpiresAt(config: CacheConfig, ttl: Option<U64>, now: I64): I64 {
    ToI64(now + ToI64(if ttl.Some? then ttl.value else config.defaultTtlSecs))
  }

  function Classify<V>(raw: Entry<V>, now: I64, expiresAt: I64, swrDeadline: I64, decodes: V -> bool): Answer<V> {
    if now < expiresAt then
      if decodes(raw.value) then Success(Some(Read(raw.value, Fresh))) else Failure(BadValue)
    else if now < swrDeadline then
      if decodes(raw.value) then Success(Some(Read(raw.value, Stale))) else Failure(BadValue)
    else Success(None)
  }

  // ------------------------------------------------------------------------
  // The specification
  // ------------------------------------------------------------------------

  datatype Op<!V> =
    | Get(key: CacheKey, validatedAt: Option<I64>, decodes: V -> bool, now: I64)
    | Put(key: CacheKey, value: V, ttl: Option<U64>, now: I64)
    | Invalidate(key: CacheKey)
    | InvalidateProfile(profile: string)
    | ClearAll
    /** The process restarts on the same disk file: memory starts out empty. */
    | Restart

  /** The answer of the plain map to a read. */
  function Lookup<V>(
      config: CacheConfig, m: TimedMap<V>, key: CacheKey,
      validatedAt: Option<I64>, decodes: V -> bool, now: I64): Answer<V>
  {
    var raw := key.SerializeKey();
    if validatedAt.None? || raw !in m then Success(None)
    else Classify(m[raw], now, m[raw].expiresAt, SwrDeadline(config, m[raw].expiresAt), decodes)
  }

  function Step<V>(config: CacheConfig, m: TimedMap<V>, op: Op<V>): TimedMap<V> {
    match op
    case Put(key, value, ttl, now) => m[key.SerializeKey() := Entry(value, now, ExpiresAt(config, ttl, now))]
    case Invalidate(key) => m - {key.SerializeKey()}
    case InvalidateProfile(profile) => map raw | raw in m && !MatchesProfile(raw, profile) :: m[raw]
    case ClearAll => map[]
    case _ => m
  }

  function AnswerTo<V>(config: CacheConfig, m: TimedMap<V>, op: Op<V>): Answer<V> {
    if op.Get? then Lookup(config, m, op.key, op.validatedAt, op.decodes, op.now) else Success(None)
  }

  /** The plain map after a run of operations. */
  function After<V>(config: CacheConfig, m: TimedMap<V>, ops: seq<Op<V>>): TimedMap<V> {
    if ops == [] then m else Step(config, After(config, m, ops[..|ops| - 1]), ops[|ops| - 1])
  }

  // ------------------------------------------------------------------------
  // The store
  // ------------------------------------------------------------------------

  ghost predicate Swaps(before: set<string>, after: set<string>, raw: string, victim: string) {
    victim in before && after == before - {victim} + {raw}
  }

  /** A new key in a full memory takes the place of one victim; otherwise nothing is lost. */
  ghost predicate MakesRoom(before: set<string>, after: set<string>, raw: string, limit: nat) {
    if |before| >= limit && raw !in before && before != {}
    then exists victim :: Swaps(before, after, raw, victim)
    else after == before + {raw}
  }

  /** The entry that goes need not be the least recently used one, whichever that is. */
  lemma OtherVictim(before: set<string>, raw: string, limit: nat, lru: string, other: string)
    requires other in before && other != lru && raw !in before && |before| >= limit
    ensures var after := before - {other} + {raw};
      MakesRoom(before, after, raw, limit) && other !in after && (lru in before ==> lru in after)
  {
    assert Swaps(before, before - {other} + {raw}, raw, other);
  }

  /**
   Eviction is sure to spare all but the least recently used key exactly when it has no
   choice: there is room, the key is already there, or there is only that one.
   */
  lemma EvictionIsLruExactly(before: set<string>, raw: string, limit: nat, lru: string)
    requires lru in before
    ensures (forall after | MakesRoom(before, after, raw, limit) :: before - after <= {lru}) <==>
            |before| < limit || raw in before || before == {lru}
  {
    if |before| < limit || raw in before || before == {lru} {
      forall after | MakesRoom(before, after, raw, limit) ensures before - after <= {lru} {
        if |before| >= limit && raw !in before {
          var victim :| Swaps(before, after, raw, victim);
          assert before - after == {victim};
        }
      }
    } else {
      assert before - {lru} != {};
      var other :| other in before - {lru};
      var after := before - {other} + {raw};
      OtherVictim(before, raw, limit, lru, other);
      assert other in before - after && other !in {lru};
    }
  }

  /** Reading promotes an entry that is found on disk and not in memory. */
  function KeysAfterGet<V>(
      mem: set<string>, disk: Option<map<string, Entry<V>>>, raw: string, validated: bool): set<string>
  {
    if validated && disk.Some? && raw in disk.value then mem + {raw} else mem
  }

  /** A read keeps memory within its limit unless it promotes an entry into a full memory. */
  lemma GetKeepsLimitExactly<V>(
      mem: set<string>, disk: Option<map<string, Entry<V>>>, raw: string, validated: bool, limit: nat)
    ensures |mem| <= limit ==>
      (|KeysAfterGet(mem, disk, raw, validated)| <= limit <==>
        !(validated && disk.Some? && raw in disk.value && raw !in mem && |mem| == limit))
  {
    if raw in mem {
      assert mem + {raw} == mem;
    }
  }

  /** A write keeps memory within its limit unless the limit is zero. */
  lemma PutKeepsLimitExactly(before: set<string>, after: set<string>, raw: string, limit: nat)
    requires MakesRoom(before, after, raw, limit)
    ensures |before| <= limit ==> (|after| <= limit <==> limit >= 1)
  {
    assert raw in after;
    if raw in before {
      assert before + {raw} == before;
    } else if |before| >= limit && before != {} {
      var victim :| Swaps(before, after, raw, victim);
      assert |before - {victim}| == |before| - 1;
    }
  }

  lemma SubsetIsNoLarger(a: set<string>, b: set<string>)
    requires a <= b
    ensures |a| <= |b|
  {
    assert b == a + (b - a);
  }

  /** The slot that holds an entry. */
  function SlotOf<V>(config: CacheConfig, entry: Entry<V>): Slot<V> {
    Slot(entry, entry.expiresAt, SwrDeadline(config, entry.expiresAt))
  }

  /** Every slot holds the entry the map has under its key. */
  ghost predicate Repeats<V>(config: CacheConfig, mem: map<string, Slot<V>>, m: TimedMap<V>) {
    forall raw | raw in mem :: raw in m && mem[raw] == SlotOf(config, m[raw])
  }

  lemma RepeatsAfterWrite<V>(
      config: CacheConfig, before: map<string, Slot<V>>, after: map<string, Slot<V>>, m: TimedMap<V>,
      raw: string, entry: Entry<V>)
    requires Repeats(config, before, m)
    requires raw in after && after[raw] == SlotOf(config, entry)
    requires forall k | k in after && k != raw :: k in before && after[k] == before[k]
    ensures Repeats(config, after, m[raw := entry])
  {
  }

  /** Removes the keys that match the profile, one after the other. */
  method RemoveMatching<V>(disk: map<string, Entry<V>>, profile: string) returns (table: map<string, Entry<V>>)
    ensures table == map raw | raw in disk && !MatchesProfile(raw, profile) :: disk[raw]
  {
    table := disk;
    var toRemove := set raw | raw in table && MatchesProfile(raw, profile);
    while toRemove != {}
      invariant forall raw :: raw in table <==> raw in disk && (MatchesProfile(raw, profile) ==> raw in toRemove)
      invariant forall raw | raw in table :: table[raw] == disk[raw]
      invariant forall raw | raw in toRemove :: MatchesProfile(raw, profile)
      decreases toRemove
    {
      var raw :| raw in toRemove;
      table := table - {raw};
      toRemove := toRemove - {raw};
    }
  }

  class CacheStore<V(==)> {
    const config: CacheConfig
    var mem: map<string, Slot<V>>
    var disk: Option<map<string, Entry<V>>>
    /** The plain map this store stands for. */
    ghost var Contents: TimedMap<V>

    /** Memory only repeats entries of the plain map; the disk, when present, is the plain map. */
    ghost predicate Valid()
      reads this
    {
      (disk.Some? ==> disk.value == Contents) && Repeats(config, mem, Contents)
    }

    ghost predicate WithinLimit()
      reads this
    {
      |mem.Keys| <= config.maxInMemoryEntries
    }

    constructor (config: CacheConfig, disk: Option<map<string, Entry<V>>>)
      ensures Valid() && this.config == config && this.disk == disk && mem == map[]
      ensures Contents == if disk.Some? then disk.value else map[]
    {
      this.config := config;
      this.disk := disk;
      mem := map[];
      Contents := if disk.Some? then disk.value else map[];
    }

    /** With a disk the answer is the plain map's; without one it may also be absent. */
    method Get(key: CacheKey, validatedAt: Option<I64>, decodes: V -> bool, now: I64) returns (r: Answer<V>)
      requires Valid()
      modifies this`mem
      ensures Valid()
      ensures validatedAt.None? ==> r == Success(None)
      ensures mem.Keys == KeysAfterGet(old(mem).Keys, disk, key.SerializeKey(), validatedAt.Some?)
      ensures old(WithinLimit()) ==>
        (WithinLimit() <==>
          !(validatedAt.Some? && disk.Some? && key.SerializeKey() in disk.value
            && key.SerializeKey() !in old(mem) && |old(mem).Keys| == config.maxInMemoryEntries))
      ensures r == Lookup(config, Contents, key, validatedAt, decodes, now)
        || (disk.None? && key.SerializeKey() !in old(mem) && r == Success(None))
    {
      GetKeepsLimitExactly(mem.Keys, disk, key.SerializeKey(), validatedAt.Some?, config.maxInMemoryEntries);
      if validatedAt.None? {
        return Success(None);
      }
      var raw := key.SerializeKey();
      if raw in mem {
        var slot := mem[raw];
        return Classify(slot.raw, now, slot.expiresAt, slot.swrDeadline, decodes);
      }
      if disk.Some? && raw in disk.value {
        var entry := disk.value[raw];
        var swrDeadline := SwrDeadline(config, entry.expiresAt);
        mem := mem[raw := Slot(entry, entry.expiresAt, swrDeadline)];
        return Classify(entry, now, entry.expiresAt, swrDeadline, decodes);
      }
      return Success(None);
    }

    /** Writes a memory slot, first dropping one arbitrary victim when memory is full and the key is new. */
    method Remember(raw: string, slot: Slot<V>)
      modifies this`mem
      ensures raw in mem && mem[raw] == slot
      ensures forall k | k in mem && k != raw :: k in old(mem) && mem[k] == old(mem)[k]
      ensures MakesRoom(old(mem).Keys, mem.Keys, raw, config.maxInMemoryEntries)
      ensures old(WithinLimit()) ==> (WithinLimit() <==> config.maxInMemoryEntries >= 1)
    {
      if |mem| >= config.maxInMemoryEntries && raw !in mem && mem != map[] {
        var victim :| victim in mem.Keys;
        mem := mem - {victim};
        assert Swaps(old(mem).Keys, mem.Keys + {raw}, raw, victim);
      }
      assert (mem[raw := slot]).Keys == mem.Keys + {raw};
      mem := mem[raw := slot];
      PutKeepsLimitExactly(old(mem).Keys, mem.Keys, raw, config.maxInMemoryEntries);
    }

    /** Writes both layers, memory first. */
    method Store(raw: string, entry: Entry<V>)
      requires Valid()
      modifies this
      ensures Valid() && disk.Some? == old(disk.Some?)
      ensures Contents == old(Contents)[raw := entry]
      ensures raw in mem && MakesRoom(old(mem).Keys, mem.Keys, raw, config.maxInMemoryEntries)
      ensures old(WithinLimit()) ==> (WithinLimit() <==> config.maxInMemoryEntries >= 1)
    {
      Remember(raw, SlotOf(config, entry));
      RepeatsAfterWrite(config, old(mem), mem, Contents, raw, entry);
      if disk.Some? {
        disk := Some(disk.value[raw := entry]);
      }
      Contents := Contents[raw := entry];
    }

    /** Whatever is evicted from memory, the plain map only gains the entry. */
    method Put(key: CacheKey, value: V, ttl: Option<U64>, now: I64)
      requires Valid()
      modifies this
      ensures Valid() && disk.Some? == old(disk.Some?)
      ensures Contents == Step(config, old(Contents), Op.Put(key, value, ttl, now))
      ensures key.SerializeKey() in mem
      ensures MakesRoom(old(mem).Keys, mem.Keys, key.SerializeKey(), config.maxInMemoryEntries)
      ensures old(WithinLimit()) ==> (WithinLimit() <==> config.maxInMemoryEntries >= 1)
    {
      var expiresAt := ExpiresAt(config, ttl, now);
      Store(key.SerializeKey(), Entry(value, now, expiresAt));
    }

    method Invalidate(key: CacheKey)
      requires Valid()
      modifies this
      ensures Valid() && disk.Some? == old(disk.Some?)
      ensures Contents == Step(config, old(Contents), Op<V>.Invalidate(key))
      ensures mem.Keys == old(mem).Keys - {key.SerializeKey()}
      ensures old(WithinLimit()) ==> WithinLimit()
    {
      var raw := key.SerializeKey();
      SubsetIsNoLarger(mem.Keys - {raw}, mem.Keys);
      mem := mem - {raw};
      if disk.Some? {
        disk := Some(disk.value - {raw});
      }
      Contents := Contents - {raw};
    }

    method InvalidateProfile(profile: string)
      requires Valid()
      modifies this
      ensures Valid() && disk.Some? == old(disk.Some?)
      ensures Contents == Step(config, old(Contents), Op<V>.InvalidateProfile(profile))
      ensures mem.Keys == set raw | raw in old(mem) && !MatchesProfile(raw, profile)
      ensures old(WithinLimit()) ==> WithinLimit()
    {
      mem := map raw | raw in mem && !MatchesProfile(raw, profile) :: mem[raw];
      SubsetIsNoLarger(mem.Keys, old(mem).Keys);
      Contents := map raw | raw in Contents && !MatchesProfile(raw, profile) :: Contents[raw];
      if disk.Some? {
        var table := RemoveMatching(disk.value, profile);
        disk := Some(table);
      }
    }

    method ClearAll()
      requires Valid()
      modifies this
      ensures Valid() && disk.Some? == old(disk.Some?)
      ensures Contents == Step(config, old(Contents), Op<V>.ClearAll)
      ensures mem == map[]
    {
      mem := map[];
      if disk.Some? {
        disk := Some(map[]);
      }
      Contents := map[];
    }

    method DropMemory()
      requires Valid()
      modifies this`mem
      ensures Valid() && mem == map[]
    {
      mem := map[];
    }

    method Perform(op: Op<V>) returns (r: Answer<V>)
      requires Valid()
      modifies this
      ensures Valid() && disk.Some? == old(disk.Some?)
      ensures Contents == Step(config, old(Contents), op)
      ensures r == AnswerTo(config, old(Contents), op) || (disk.None? && r == Success(None))
      ensures disk.None? && config.maxInMemoryEntries >= 1 && old(WithinLimit()) ==> WithinLimit()
    {
      r := Success(None);
      match op {
        case Get(key, validatedAt, decodes, now) => r := Get(key, validatedAt, decodes, now);
        case Put(key, value, ttl, now) => Put(key, value, ttl, now);
        case Invalidate(key) => Invalidate(key);
        case InvalidateProfile(profile) => InvalidateProfile(profile);
        case ClearAll => ClearAll();
        case Restart => DropMemory();
      }
    }
  }

  /** The answer is the plain map's after the operations before it; without a disk it may be absent instead. */
  ghost predicate AnswersAt<V>(
      config: CacheConfig, m: TimedMap<V>, ops: seq<Op<V>>, n: nat, answer: Answer<V>, hasDisk: bool)
  {
    && n < |ops|
    && (answer == AnswerTo(config, After(config, m, ops[..n]), ops[n]) || (!hasDisk && answer == Success(None)))
  }

  ghost predicate Faithful<V>(
      config: CacheConfig, m: TimedMap<V>, ops: seq<Op<V>>, answers: seq<Answer<V>>, hasDisk: bool)
  {
    forall n | 0 <= n < |answers| :: AnswersAt(config, m, ops, n, answers[n], hasDisk)
  }

  lemma FaithfulStep<V>(
      config: CacheConfig, m: TimedMap<V>, ops: seq<Op<V>>, answers: seq<Answer<V>>, hasDisk: bool, answer: Answer<V>)
    requires Faithful(config, m, ops, answers, hasDisk) && AnswersAt(config, m, ops, |answers|, answer, hasDisk)
    ensures Faithful(config, m, ops, answers + [answer], hasDisk)
  {
    var after := answers + [answer];
    forall n | 0 <= n < |after| ensures AnswersAt(config, m, ops, n, after[n], hasDisk) {
      assert n < |answers| ==> after[n] == answers[n];
    }
  }

  lemma AfterStep<V>(config: CacheConfig, m: TimedMap<V>, ops: seq<Op<V>>, k: nat)
    requires k < |ops|
    ensures After(config, m, ops[..k + 1]) == Step(config, After(config, m, ops[..k]), ops[k])
  {
    assert ops[..k + 1][..k] == ops[..k];
  }

  /** Reading any two entries of its disk leaves two entries in a memory with room for one. */
  method ReadPastLimit<V(==)>(a: CacheKey, b: CacheKey, v: V) returns (store: CacheStore<V>)
    requires a.SerializeKey() != b.SerializeKey()
    ensures store.Valid() && store.config.maxInMemoryEntries == 1 && |store.mem.Keys| == 2
  {
    var rawA, rawB := a.SerializeKey(), b.SerializeKey();
    var entry := Entry(v, 0, 30);
    store := new CacheStore(CacheConfig(30, 60, 1), Some(map[rawA := entry, rawB := entry]));
    var _ := store.Get(a, Some(0), (_: V) => true, 0);
    var _ := store.Get(b, Some(0), (_: V) => true, 0);
    assert store.mem.Keys == {rawA, rawB};
  }

  /**
   Refinement over whole runs: with a disk, every answer is the plain map's, whatever
   was evicted or dropped from memory; without one an answer may only be absent instead,
   and memory stays within its limit.
   */
  method Replay<V>(store: CacheStore<V>, ops: seq<Op<V>>) returns (answers: seq<Answer<V>>)
    requires store.Valid()
    modifies store
    ensures store.Valid() && store.disk.Some? == old(store.disk.Some?)
    ensures store.Contents == After(store.config, old(store.Contents), ops)
    ensures |answers| == |ops| && Faithful(store.config, old(store.Contents), ops, answers, store.disk.Some?)
    ensures store.disk.None? && store.config.maxInMemoryEntries >= 1 && old(store.WithinLimit()) ==> store.WithinLimit()
  {
    answers := [];
    for k := 0 to |ops|
      invariant store.Valid() && store.disk.Some? == old(store.disk.Some?)
      invariant store.Contents == After(store.config, old(store.Contents), ops[..k])
      invariant |answers| == k && Faithful(store.config, old(store.Contents), ops, answers, store.disk.Some?)
      invariant store.disk.None? && store.config.maxInMemoryEntries >= 1 && old(store.WithinLimit()) ==>
        store.WithinLimit()
    {
      AfterStep(store.config, old(store.Contents), ops, k);
      var answer := store.Perform(ops[k]);
      FaithfulStep(store.config, old(store.Contents), ops, answers, store.disk.Some?, answer);
      answers := answers + [answer];
    }
    assert ops[..|ops|] == ops;
  }

  // ------------------------------------------------------------------------
  // What the plain map promises
  // ------------------------------------------------------------------------

  /** The operation can change what is stored under this key. */
  ghost predicate Disturbs<V>(op: Op<V>, key: CacheKey) {
    match op
    case Put(other, _, _, _) => other.Normal() == key.Normal()
    case Invalidate(other) => other.Normal() == key.Normal()
    case InvalidateProfile(profile) => Within(Cut(profile), Pieces(key.Fields()))
    case ClearAll => true
    case _ => false
  }

  lemma UndisturbedStep<V>(config: CacheConfig, m: TimedMap<V>, op: Op<V>, key: CacheKey)
    requires (key.Buckets? || key.NulFreeFields()) && !Disturbs(op, key)
    ensures var raw := key.SerializeKey(); var m' := Step(config, m, op);
      (raw in m' <==> raw in m) && (raw in m ==> m'[raw] == m[raw])
  {
    match op
    case Put(other, _, _, _) => SerializeInjective(key, other);
    case Invalidate(other) => SerializeInjective(key, other);
    case InvalidateProfile(profile) => MatchesExactly(key, profile);
    case _ =>
  }

  lemma {:induction false} UndisturbedRun<V>(config: CacheConfig, m: TimedMap<V>, ops: seq<Op<V>>, key: CacheKey)
    requires key.Buckets? || key.NulFreeFields()
    requires forall n | 0 <= n < |ops| :: !Disturbs(ops[n], key)
    ensures var raw := key.SerializeKey(); var m' := After(config, m, ops);
      (raw in m' <==> raw in m) && (raw in m ==> m'[raw] == m[raw])
  {
    if ops == [] {
    } else {
      var last := |ops| - 1;
      UndisturbedRun(config, m, ops[..last], key);
      UndisturbedStep(config, After(config, m, ops[..last]), ops[last], key);
    }
  }

  lemma TimingWithoutWrap(config: CacheConfig, ttl: Option<U64>, put: I64)
    requires 0 <= put
    requires put + (if ttl.Some? then ttl.value else config.defaultTtlSecs) + config.swrWindowSecs <= I64_MAX
    ensures var expiry := put + if ttl.Some? then ttl.value else config.defaultTtlSecs;
      ExpiresAt(config, ttl, put) == expiry && SwrDeadline(config, expiry) == expiry + config.swrWindowSecs
  {
    var life: U64 := if ttl.Some? then ttl.value else config.defaultTtlSecs;
    ToI64Fits(life);
    ToI64Fits(put + life);
    ToI64Fits(config.swrWindowSecs);
    ToI64Fits(put + life + config.swrWindowSecs);
  }

  lemma StoredUndisturbed<V>(
      config: CacheConfig, m: TimedMap<V>, key: CacheKey, value: V, ttl: Option<U64>, put: I64, ops: seq<Op<V>>)
    requires key.Buckets? || key.NulFreeFields()
    requires forall n | 0 <= n < |ops| :: !Disturbs(ops[n], key)
    ensures var m' := After(config, Step(config, m, Op.Put(key, value, ttl, put)), ops);
      key.SerializeKey() in m' && m'[key.SerializeKey()] == Entry(value, put, ExpiresAt(config, ttl, put))
  {
    UndisturbedRun(config, Step(config, m, Op.Put(key, value, ttl, put)), ops, key);
  }

  lemma ReadStored<V>(
      config: CacheConfig, m: TimedMap<V>, key: CacheKey, value: V, ttl: Option<U64>, put: I64,
      validatedAt: I64, decodes: V -> bool, now: I64)
    requires 0 <= put
    requires put + (if ttl.Some? then ttl.value else config.defaultTtlSecs) + config.swrWindowSecs <= I64_MAX
    requires key.SerializeKey() in m && m[key.SerializeKey()] == Entry(value, put, ExpiresAt(config, ttl, put))
    ensures var expiry := put + if ttl.Some? then ttl.value else config.defaultTtlSecs;
      Lookup(config, m, key, Some(validatedAt), decodes, now) ==
        if now >= expiry + config.swrWindowSecs then Success(None)
        else if !decodes(value) then Failure(BadValue)
        else Success(Some(Read(value, if now < expiry then Fresh else Stale)))
  {
    TimingWithoutWrap(config, ttl, put);
  }

  /**
   A value stays readable through any run that does not touch its key: fresh until
   its time to live is over, stale for the window after that, then absent. Asking for
   another type than was stored is an error as long as it is readable.
   */
  lemma PutThenGet<V>(
      config: CacheConfig, m: TimedMap<V>, key: CacheKey, value: V, ttl: Option<U64>, put: I64, ops: seq<Op<V>>,
      validatedAt: I64, decodes: V -> bool, now: I64)
    requires key.Buckets? || key.NulFreeFields()
    requires forall n | 0 <= n < |ops| :: !Disturbs(ops[n], key)
    requires 0 <= put
    requires put + (if ttl.Some? then ttl.value else config.defaultTtlSecs) + config.swrWindowSecs <= I64_MAX
    ensures var m' := After(config, Step(config, m, Op.Put(key, value, ttl, put)), ops);
      var expiry := put + if ttl.Some? then ttl.value else config.defaultTtlSecs;
      Lookup(config, m', key, Some(validatedAt), decodes, now) ==
        if now >= expiry + config.swrWindowSecs then Success(None)
        else if !decodes(value) then Failure(BadValue)
        else Success(Some(Read(value, if now < expiry then Fresh else Stale)))
  {
    var m' := After(config, Step(config, m, Op.Put(key, value, ttl, put)), ops);
    StoredUndisturbed(config, m, key, value, ttl, put, ops);
    ReadStored(config, m', key, value, ttl, put, validatedAt, decodes, now);
  }

  // ------------------------------------------------------------------------
  // What is removed stays away
  // ------------------------------------------------------------------------

  /** No operation of the run writes an entry that this key reads. */
  ghost predicate NeverPut<V>(ops: seq<Op<V>>, key: CacheKey) {
    forall n | 0 <= n < |ops| && ops[n].Put? ::
      ops[n].key.Normal() != key.Normal() && !Collide(key, ops[n].key)
  }

  lemma {:induction false} AbsentStays<V>(config: CacheConfig, m: TimedMap<V>, ops: seq<Op<V>>, key: CacheKey)
    requires NeverPut(ops, key) && key.SerializeKey() !in m
    ensures key.SerializeKey() !in After(config, m, ops)
  {
    if ops == [] {
    } else {
      var last := |ops| - 1;
      AbsentStays(config, m, ops[..last], key);
      if ops[last].Put? {
        assert !Collide(key, ops[last].key);
      }
    }
  }

  lemma {:induction false} AfterAppend<V>(config: CacheConfig, m: TimedMap<V>, a: seq<Op<V>>, b: seq<Op<V>>)
    ensures After(config, m, a + b) == After(config, After(config, m, a), b)
  {
    if b == [] {
      assert a + b == a;
    } else {
      assert (a + b)[..|a + b| - 1] == a + b[..|b| - 1];
      AfterAppend(config, m, a, b[..|b| - 1]);
    }
  }

  lemma RemovedIsAbsent<V>(
      config: CacheConfig, m: TimedMap<V>, ops: seq<Op<V>>, op: Op<V>, later: seq<Op<V>>, key: CacheKey,
      validatedAt: Option<I64>, decodes: V -> bool, now: I64)
    requires key.SerializeKey() !in Step(config, After(config, m, ops), op) && NeverPut(later, key)
    ensures Lookup(config, After(config, m, ops + [op] + later), key, validatedAt, decodes, now) == Success(None)
  {
    AfterAppend(config, m, ops + [op], later);
    assert (ops + [op])[..|ops|] == ops;
    AbsentStays(config, After(config, m, ops + [op]), later, key);
  }

  /** An invalidated key reads absent until an entry that it reads is put again. */
  lemma InvalidatedIsAbsent<V>(
      config: CacheConfig, m: TimedMap<V>, ops: seq<Op<V>>, later: seq<Op<V>>, key: CacheKey,
      validatedAt: Option<I64>, decodes: V -> bool, now: I64)
    requires NeverPut(later, key)
    ensures var run := ops + [Op<V>.Invalidate(key)] + later;
      Lookup(config, After(config, m, run), key, validatedAt, decodes, now) == Success(None)
  {
    RemovedIsAbsent(config, m, ops, Op<V>.Invalidate(key), later, key, validatedAt, decodes, now);
  }

  /** After everything is cleared, so does every key. */
  lemma ClearedIsAbsent<V>(
      config: CacheConfig, m: TimedMap<V>, ops: seq<Op<V>>, later: seq<Op<V>>, key: CacheKey,
      validatedAt: Option<I64>, decodes: V -> bool, now: I64)
    requires NeverPut(later, key)
    ensures var run := ops + [Op<V>.ClearAll] + later;
      Lookup(config, After(config, m, run), key, validatedAt, decodes, now) == Success(None)
  {
    RemovedIsAbsent(config, m, ops, Op<V>.ClearAll, later, key, validatedAt, decodes, now);
  }

  /** After a profile is invalidated, so does every key of it. */
  lemma OwnEntriesGo<V>(
      config: CacheConfig, m: TimedMap<V>, ops: seq<Op<V>>, later: seq<Op<V>>, key: CacheKey,
      validatedAt: Option<I64>, decodes: V -> bool, now: I64)
    requires NeverPut(later, key)
    ensures var run := ops + [Op<V>.InvalidateProfile(key.profile)] + later;
      Lookup(config, After(config, m, run), key, validatedAt, decodes, now) == Success(None)
  {
    OwnKeysMatch(key);
    RemovedIsAbsent(config, m, ops, Op<V>.InvalidateProfile(key.profile), later, key, validatedAt, decodes, now);
  }

  /**
   A key is lost with a profile exactly when its fields, cut at every NUL, show the cut
   name; without NULs, when its profile, bucket or last field is spelled like the name.
   */
  lemma InvalidateProfileExact<V>(config: CacheConfig, m: TimedMap<V>, profile: string, key: CacheKey)
    ensures var raw := key.SerializeKey(); var m' := Step(config, m, Op<V>.InvalidateProfile(profile));
      && (raw in m' <==> raw in m && !Within(Cut(profile), Pieces(key.Fields())))
      && (raw in m' ==> m'[raw] == m[raw])
      && (key.NulFreeFields() && NulFree(profile) ==> (raw in m' <==> raw in m && profile !in key.Fields()))
  {
    MatchesExactly(key, profile);
    if key.NulFreeFields() && NulFree(profile) {
      MatchesNulFree(key, profile);
    }
  }
}
