/**
 The confirmation store: a proposed change is created, then consumed at most once
 before it expires, or cancelled. A consumed change is matched against the request.
 */
module DiffStores {
  import opened Wrappers
  import opened Integers64

  /** Stands for a UUID: the store never mints the same one twice. */
  type DiffId = nat

  datatype DiffObjectRef = DiffObjectRef(bucket: string, key: string)

  datatype DiffPayload = StorageClass(targets: seq<DiffObjectRef>, current: map<string, string>, newClass: string)

  datatype DiffStatus = Pending | Confirmed | Cancelled | Expired

  datatype DiffRecord = DiffRecord(id: DiffId, payload: DiffPayload, createdAt: I64, expiresAt: I64, status: DiffStatus)

  // ------------------------------------------------------------------------
  // State transitions
  // ------------------------------------------------------------------------

  datatype State = State(records: map<DiffId, DiffRecord>, nextId: DiffId)

  datatype Op =
    | Create(payload: DiffPayload, now: I64)
    | Cancel(id: DiffId)
    | Consume(id: DiffId, now: I64)
    | Gc(now: I64)

  const EMPTY := State(map[], 0)

  function Created(ttlSecs: I64, s: State, payload: DiffPayload, now: I64): State {
    State(s.records[s.nextId := DiffRecord(s.nextId, payload, now, ToI64(now + ttlSecs), Pending)], s.nextId + 1)
  }

  function WithStatus(s: State, id: DiffId, status: DiffStatus): State {
    if id in s.records then s.(records := s.records[id := s.records[id].(status := status)]) else s
  }

  /** The record can be consumed now. */
  predicate Ready(s: State, id: DiffId, now: I64) {
    id in s.records && s.records[id].status == Pending && now < s.records[id].expiresAt
  }

  function Consumed(s: State, id: DiffId, now: I64): State {
    if id in s.records && s.records[id].status == Pending
    then WithStatus(s, id, if now >= s.records[id].expiresAt then Expired else Confirmed)
    else s
  }

  function Collected(s: State, now: I64): State {
    s.(records :=
      map id | id in s.records && !(s.records[id].status == Pending && now >= s.records[id].expiresAt)
      :: s.records[id])
  }

  function Step(ttlSecs: I64, s: State, op: Op): State {
    match op
    case Create(payload, now) => Created(ttlSecs, s, payload, now)
    case Cancel(id) => WithStatus(s, id, Cancelled)
    case Consume(id, now) => Consumed(s, id, now)
    case Gc(now) => Collected(s, now)
  }

  /** The state after a run of operations on an empty store. */
  function After(ttlSecs: I64, ops: seq<Op>): State {
    if ops == [] then EMPTY else Step(ttlSecs, After(ttlSecs, ops[..|ops| - 1]), ops[|ops| - 1])
  }

  // ------------------------------------------------------------------------
  // DiffStore
  // ------------------------------------------------------------------------

  class DiffStore {
    var state: State
    const ttlSecs: I64

    constructor (ttlSecs: I64)
      ensures state == EMPTY && this.ttlSecs == ttlSecs
    {
      this.ttlSecs := ttlSecs;
      state := EMPTY;
    }

    method CreateAt(payload: DiffPayload, now: I64) returns (id: DiffId)
      modifies this
      ensures id == old(state).nextId
      ensures id in state.records && state.records[id] == DiffRecord(id, payload, now, ToI64(now + ttlSecs), Pending)
      ensures state == Step(ttlSecs, old(state), Create(payload, now))
    {
      id := state.nextId;
      var record := DiffRecord(id, payload, now, ToI64(now + ttlSecs), Pending);
      state := State(state.records[id := record], id + 1);
    }

    method CancelDiff(id: DiffId) returns (found: bool)
      modifies this
      ensures found <==> id in old(state).records
      ensures found ==> id in state.records && state.records[id].status == Cancelled
      ensures state == Step(ttlSecs, old(state), Cancel(id))
    {
      found := id in state.records;
      if found {
        state := state.(records := state.records[id := state.records[id].(status := Cancelled)]);
      }
    }

    /** The payload is handed out exactly when the record is pending and not expired. */
    method ConsumeAt(id: DiffId, now: I64) returns (r: Option<DiffPayload>)
      modifies this
      ensures r == if Ready(old(state), id, now) then Some(old(state).records[id].payload) else None
      ensures r.Some? ==> id in state.records && state.records[id].status == Confirmed
      ensures r.None? && id in old(state).records ==>
        && id in state.records
        && state.records[id].status ==
           if old(state).records[id].status == Pending then Expired else old(state).records[id].status
      ensures state == Step(ttlSecs, old(state), Consume(id, now))
    {
      if id !in state.records {
        return None;
      }
      var record := state.records[id];
      if record.status == Pending && now >= record.expiresAt {
        record := record.(status := Expired);
      }
      if record.status != Pending {
        state := state.(records := state.records[id := record]);
        assert state.records == Step(ttlSecs, old(state), Consume(id, now)).records;
        return None;
      }
      record := record.(status := Confirmed);
      state := state.(records := state.records[id := record]);
      return Some(record.payload);
    }

    method GcAt(now: I64)
      modifies this
      ensures state == Step(ttlSecs, old(state), Gc(now))
      ensures forall id :: id in state.records <==>
        && id in old(state).records
        && (old(state).records[id].status == Pending ==> now < old(state).records[id].expiresAt)
      ensures forall id | id in state.records :: state.records[id] == old(state).records[id]
    {
      state := state.(records :=
        map id | id in state.records && !(state.records[id].status == Pending && now >= state.records[id].expiresAt)
        :: state.records[id]);
    }
  }

  // ------------------------------------------------------------------------
  // Whole runs, with any clock
  // ------------------------------------------------------------------------

  /** The n-th operation hands out the payload of this diff. */
  predicate ConsumesAt(ttlSecs: I64, ops: seq<Op>, n: nat, id: DiffId) {
    n < |ops| && ops[n].Consume? && ops[n].id == id && Ready(After(ttlSecs, ops[..n]), id, ops[n].now)
  }

  /** The k-th operation creates this diff. */
  predicate CreatesAt(ttlSecs: I64, ops: seq<Op>, k: nat, id: DiffId) {
    k < |ops| && ops[k].Create? && After(ttlSecs, ops[..k]).nextId == id
  }

  /** After the k-th operation, none takes the diff, cancels it, or collects it at or after this instant. */
  ghost predicate Quiet(ops: seq<Op>, k: nat, id: DiffId, expiry: I64) {
    forall i: nat | k < i < |ops| ::
      && ops[i] != Cancel(id)
      && !(ops[i].Consume? && ops[i].id == id)
      && !(ops[i].Gc? && expiry <= ops[i].now)
  }

  /** Cutting a run later does not change what happened before. */
  lemma PrefixAgrees(ttlSecs: I64, ops: seq<Op>, n: nat, i: nat, id: DiffId)
    requires i < n <= |ops|
    ensures ConsumesAt(ttlSecs, ops[..n], i, id) <==> ConsumesAt(ttlSecs, ops, i, id)
    ensures CreatesAt(ttlSecs, ops[..n], i, id) <==> CreatesAt(ttlSecs, ops, i, id)
  {
    assert ops[..n][..i] == ops[..i] && ops[..n][i] == ops[i];
  }

  lemma {:induction false} IdsBelowNext(ttlSecs: I64, ops: seq<Op>)
    ensures forall id | id in After(ttlSecs, ops).records :: id < After(ttlSecs, ops).nextId
  {
    if ops == [] {
    } else {
      IdsBelowNext(ttlSecs, ops[..|ops| - 1]);
    }
  }

  lemma {:induction false} HasOrigin(ttlSecs: I64, ops: seq<Op>, id: DiffId) returns (k: nat)
    requires id in After(ttlSecs, ops).records
    ensures CreatesAt(ttlSecs, ops, k, id)
  {
    var last := |ops| - 1;
    var before := After(ttlSecs, ops[..last]);
    if ops[last].Create? && before.nextId == id {
      k := last;
    } else {
      k := HasOrigin(ttlSecs, ops[..last], id);
      PrefixAgrees(ttlSecs, ops, last, k, id);
    }
  }

  lemma {:induction false} NextIdGrows(ttlSecs: I64, ops: seq<Op>, k: nat, n: nat)
    requires k <= n <= |ops|
    ensures After(ttlSecs, ops[..k]).nextId <= After(ttlSecs, ops[..n]).nextId
    ensures k < n && ops[k].Create? ==> After(ttlSecs, ops[..k]).nextId < After(ttlSecs, ops[..n]).nextId
    decreases n
  {
    if k == n {
    } else {
      assert ops[..n][..n - 1] == ops[..n - 1];
      NextIdGrows(ttlSecs, ops, k, n - 1);
    }
  }

  lemma CreatedOnce(ttlSecs: I64, ops: seq<Op>, k: nat, k': nat, id: DiffId)
    requires CreatesAt(ttlSecs, ops, k, id) && CreatesAt(ttlSecs, ops, k', id)
    ensures k == k'
  {
    NextIdGrows(ttlSecs, ops, if k < k' then k else k', if k < k' then k' else k);
  }

  lemma QuietSnoc(ops: seq<Op>, k: nat, id: DiffId, expiry: I64)
    requires k < |ops| - 1
    ensures var last := ops[|ops| - 1];
      Quiet(ops, k, id, expiry) <==>
        && Quiet(ops[..|ops| - 1], k, id, expiry)
        && last != Cancel(id) && !(last.Consume? && last.id == id) && !(last.Gc? && expiry <= last.now)
  {
    assert forall i | 0 <= i < |ops| - 1 :: ops[..|ops| - 1][i] == ops[i];
  }

  ghost predicate PendingWith(s: State, id: DiffId, payload: DiffPayload, expiry: I64) {
    && id in s.records
    && s.records[id].status == Pending
    && s.records[id].payload == payload
    && s.records[id].expiresAt == expiry
  }

  lemma PendingStep(ttlSecs: I64, s: State, op: Op, id: DiffId, payload: DiffPayload, expiry: I64)
    requires id < s.nextId
    requires id in s.records && s.records[id].status == Pending ==> PendingWith(s, id, payload, expiry)
    ensures var s' := Step(ttlSecs, s, op);
      && (id in s'.records && s'.records[id].status == Pending ==> PendingWith(s', id, payload, expiry))
      && (PendingWith(s', id, payload, expiry) <==>
            && PendingWith(s, id, payload, expiry)
            && op != Cancel(id) && !(op.Consume? && op.id == id) && !(op.Gc? && expiry <= op.now))
  {
  }

  /** A created diff is pending exactly as long as nothing took, cancelled or collected it. */
  lemma {:induction false} PendingExactly(ttlSecs: I64, ops: seq<Op>, k: nat, id: DiffId)
    requires CreatesAt(ttlSecs, ops, k, id)
    ensures var s, expiry := After(ttlSecs, ops), ToI64(ops[k].now + ttlSecs);
      && (PendingWith(s, id, ops[k].payload, expiry) <==> Quiet(ops, k, id, expiry))
      && (id in s.records && s.records[id].status == Pending ==> PendingWith(s, id, ops[k].payload, expiry))
    decreases |ops|
  {
    var last, expiry := |ops| - 1, ToI64(ops[k].now + ttlSecs);
    if k == last {
    } else {
      PrefixAgrees(ttlSecs, ops, last, k, id);
      PendingExactly(ttlSecs, ops[..last], k, id);
      NextIdGrows(ttlSecs, ops, k, last);
      PendingStep(ttlSecs, After(ttlSecs, ops[..last]), ops[last], id, ops[k].payload, expiry);
      QuietSnoc(ops, k, id, expiry);
    }
  }

  /**
   A consume hands out what was created exactly when it comes before the creation's expiry
   and nothing has consumed, cancelled or collected the diff since.
   */
  lemma ConsumesExactly(ttlSecs: I64, ops: seq<Op>, k: nat, n: nat, id: DiffId) returns (expiry: I64)
    requires k < n < |ops| && CreatesAt(ttlSecs, ops, k, id) && ops[n].Consume? && ops[n].id == id
    ensures expiry == ToI64(ops[k].now + ttlSecs)
    ensures I64_MIN <= ops[k].now + ttlSecs <= I64_MAX ==> expiry == ops[k].now + ttlSecs
    ensures ConsumesAt(ttlSecs, ops, n, id) <==>
      && ops[n].now < expiry
      && forall i: nat | k < i < n ::
           ops[i] != Cancel(id) && !(ops[i].Consume? && ops[i].id == id) && !(ops[i].Gc? && expiry <= ops[i].now)
    ensures ConsumesAt(ttlSecs, ops, n, id) ==> After(ttlSecs, ops[..n]).records[id].payload == ops[k].payload
  {
    expiry := ToI64(ops[k].now + ttlSecs);
    PrefixAgrees(ttlSecs, ops, n, k, id);
    PendingExactly(ttlSecs, ops[..n], k, id);
    assert forall i | 0 <= i < n :: ops[..n][i] == ops[i];
  }

  /**
   A payload is handed out only for a diff that an earlier operation created with that
   payload, strictly before that creation's expiry, and never after a cancel or an
   earlier consume of the same diff.
   */
  lemma ConsumeIsSound(ttlSecs: I64, ops: seq<Op>, n: nat, id: DiffId) returns (k: nat)
    requires ConsumesAt(ttlSecs, ops, n, id)
    ensures k < n && CreatesAt(ttlSecs, ops, k, id)
    ensures After(ttlSecs, ops[..n]).records[id].payload == ops[k].payload
    ensures ops[n].now < ToI64(ops[k].now + ttlSecs)
    ensures forall i: nat | k < i < n :: ops[i] != Cancel(id) && !(ops[i].Consume? && ops[i].id == id)
  {
    k := HasOrigin(ttlSecs, ops[..n], id);
    PrefixAgrees(ttlSecs, ops, n, k, id);
    PendingExactly(ttlSecs, ops[..n], k, id);
    assert forall i | 0 <= i < n :: ops[..n][i] == ops[i];
  }

  /** Each diff is consumed at most once in a run. */
  lemma ConsumedOnce(ttlSecs: I64, ops: seq<Op>, m: nat, n: nat, id: DiffId)
    requires ConsumesAt(ttlSecs, ops, m, id) && ConsumesAt(ttlSecs, ops, n, id)
    ensures m == n
  {
    var i, j := if m < n then m else n, if m < n then n else m;
    var k := ConsumeIsSound(ttlSecs, ops, j, id);
    var k' := ConsumeIsSound(ttlSecs, ops, i, id);
    CreatedOnce(ttlSecs, ops, k, k', id);
  }

  /** A cancel that finds its diff ends it: the diff is never consumed afterwards. */
  lemma NeverAfterCancel(ttlSecs: I64, ops: seq<Op>, c: nat, n: nat, id: DiffId)
    requires c < |ops| && ops[c] == Cancel(id) && id in After(ttlSecs, ops[..c]).records
    requires ConsumesAt(ttlSecs, ops, n, id)
    ensures n < c
  {
    if c < n {
      var k := ConsumeIsSound(ttlSecs, ops, n, id);
      IdsBelowNext(ttlSecs, ops[..c]);
      NextIdGrows(ttlSecs, ops, if c < k then c else k, if c < k then k else c);
    }
  }

  /** A diff that is no longer pending is kept, and never becomes pending again. */
  lemma {:induction false} SettledStays(ttlSecs: I64, ops: seq<Op>, later: seq<Op>, id: DiffId)
    requires id in After(ttlSecs, ops).records && After(ttlSecs, ops).records[id].status != Pending
    ensures var records := After(ttlSecs, ops + later).records;
      id in records && records[id].status != Pending && records[id].payload == After(ttlSecs, ops).records[id].payload
  {
    if later == [] {
      assert ops + later == ops;
    } else {
      var init := later[..|later| - 1];
      SettledStays(ttlSecs, ops, init, id);
      IdsBelowNext(ttlSecs, ops + init);
      assert (ops + later)[..|ops + later| - 1] == ops + init;
    }
  }

  // ------------------------------------------------------------------------
  // Matching the request against the consumed diff
  // ------------------------------------------------------------------------

  /** The check of `object_set_storage_class`: same length, and every requested target is in the diff. */
  predicate TargetsMatch(confirmed: seq<DiffObjectRef>, requested: seq<DiffObjectRef>) {
    |confirmed| == |requested| && forall t | t in requested :: t in confirmed
  }

  ghost predicate NoRepeats(s: seq<DiffObjectRef>) {
    forall m, n | 0 <= m < n < |s| :: s[m] != s[n]
  }

  lemma {:induction false} DistinctWithin(s: seq<DiffObjectRef>, bag: multiset<DiffObjectRef>)
    requires NoRepeats(s) && forall t | t in s :: t in bag
    ensures multiset(s) <= bag
  {
    if s == [] {
    } else {
      var init, last := s[..|s| - 1], s[|s| - 1];
      assert s == init + [last];
      DistinctWithin(init, bag);
      assert last !in init;
      forall t ensures multiset(s)[t] <= bag[t] {
        assert multiset(s)[t] == multiset(init)[t] + if t == last then 1 else 0;
      }
    }
  }

  lemma SameSizeBags(a: multiset<DiffObjectRef>, b: multiset<DiffObjectRef>)
    requires a <= b && |a| == |b|
    ensures a == b
  {
    assert b == a + (b - a);
    assert |b - a| == 0;
  }

  /** For a request without repeats, passing the check means confirming exactly the requested targets. */
  lemma MatchConfirmsAll(confirmed: seq<DiffObjectRef>, requested: seq<DiffObjectRef>)
    requires TargetsMatch(confirmed, requested) && NoRepeats(requested)
    ensures multiset(confirmed) == multiset(requested)
  {
    DistinctWithin(requested, multiset(confirmed));
    SameSizeBags(multiset(requested), multiset(confirmed));
  }

  /** A reference that is not in the list. */
  lemma {:induction false} FreshRef(s: seq<DiffObjectRef>, least: nat) returns (r: DiffObjectRef)
    ensures r !in s && |r.key| >= least
  {
    if s == [] {
      r := DiffObjectRef("", seq(least, i => 'k'));
    } else {
      var init, last := s[..|s| - 1], s[|s| - 1];
      r := FreshRef(init, if |last.key| >= least then |last.key| + 1 else least);
      assert s == init + [last];
    }
  }

  /**
   The check protects exactly the requests without repeats: those, and only those,
   can pass it against no other list of confirmed targets than their own.
   */
  lemma MatchExact(requested: seq<DiffObjectRef>)
    ensures (forall confirmed | TargetsMatch(confirmed, requested) :: multiset(confirmed) == multiset(requested))
       <==> NoRepeats(requested)
  {
    if NoRepeats(requested) {
      forall confirmed | TargetsMatch(confirmed, requested) ensures multiset(confirmed) == multiset(requested) {
        MatchConfirmsAll(confirmed, requested);
      }
    } else {
      var m, n :| 0 <= m < n < |requested| && requested[m] == requested[n];
      var other := FreshRef(requested, 0);
      var confirmed := requested[n := other];
      forall t | t in requested ensures t in confirmed {
        var i :| 0 <= i < |requested| && requested[i] == t;
        assert confirmed[if i == n then m else i] == t;
      }
      assert TargetsMatch(confirmed, requested);
      assert confirmed[n] == other && other in multiset(confirmed) && other !in multiset(requested);
    }
  }

  ghost predicate SameSet(a: seq<DiffObjectRef>, b: seq<DiffObjectRef>) {
    forall t :: t in a <==> t in b
  }

  /** The list without its repeats, which is shorter if there were any. */
  lemma {:induction false} WithoutRepeats(s: seq<DiffObjectRef>) returns (d: seq<DiffObjectRef>)
    ensures NoRepeats(d) && SameSet(d, s) && |d| <= |s|
    ensures !NoRepeats(s) ==> |d| < |s|
  {
    if s == [] {
      d := [];
    } else {
      var init, last := s[..|s| - 1], s[|s| - 1];
      assert s == init + [last];
      var rest := WithoutRepeats(init);
      d := if last in init then rest else rest + [last];
      assert last !in init && NoRepeats(init) ==> NoRepeats(s);
    }
  }

  /** Two lists without repeats and with the same targets are reorderings of one another. */
  lemma SameSetSameBag(a: seq<DiffObjectRef>, b: seq<DiffObjectRef>)
    requires NoRepeats(a) && NoRepeats(b) && SameSet(a, b)
    ensures multiset(a) == multiset(b) && |a| == |b|
  {
    DistinctWithin(a, multiset(b));
    DistinctWithin(b, multiset(a));
    assert |multiset(a)| == |a| && |multiset(b)| == |b|;
  }

  /** Between lists without repeats the check is set equality. */
  lemma MatchIsSetEquality(confirmed: seq<DiffObjectRef>, requested: seq<DiffObjectRef>)
    requires NoRepeats(confirmed) && NoRepeats(requested)
    ensures TargetsMatch(confirmed, requested) <==> SameSet(confirmed, requested)
  {
    if TargetsMatch(confirmed, requested) {
      MatchConfirmsAll(confirmed, requested);
      assert forall t :: t in confirmed <==> t in multiset(confirmed);
      assert forall t :: t in requested <==> t in multiset(requested);
    }
    if SameSet(confirmed, requested) {
      SameSetSameBag(confirmed, requested);
    }
  }

  /** A request is compared as a set with every repeat-free diff exactly when it has no repeats itself. */
  lemma SetEqualityForRequest(requested: seq<DiffObjectRef>)
    ensures (forall confirmed | NoRepeats(confirmed) ::
               TargetsMatch(confirmed, requested) <==> SameSet(confirmed, requested))
       <==> NoRepeats(requested)
  {
    if NoRepeats(requested) {
      forall confirmed | NoRepeats(confirmed)
        ensures TargetsMatch(confirmed, requested) <==> SameSet(confirmed, requested)
      {
        MatchIsSetEquality(confirmed, requested);
      }
    } else {
      var d := WithoutRepeats(requested);
      assert NoRepeats(d) && SameSet(d, requested) && !TargetsMatch(d, requested);
    }
  }

  /** And a diff is compared as a set with every repeat-free request exactly when it has no repeats itself. */
  lemma SetEqualityForDiff(confirmed: seq<DiffObjectRef>)
    ensures (forall requested | NoRepeats(requested) ::
               TargetsMatch(confirmed, requested) <==> SameSet(confirmed, requested))
       <==> NoRepeats(confirmed)
  {
    if NoRepeats(confirmed) {
      forall requested | NoRepeats(requested)
        ensures TargetsMatch(confirmed, requested) <==> SameSet(confirmed, requested)
      {
        MatchIsSetEquality(confirmed, requested);
      }
    } else {
      var d := WithoutRepeats(confirmed);
      assert NoRepeats(d) && SameSet(confirmed, d) && !TargetsMatch(confirmed, d);
    }
  }

  /** The two ways it goes wrong: equal sets refused, and different sets accepted. */
  lemma MatchIsNotSetEquality(a: DiffObjectRef, b: DiffObjectRef)
    requires a != b
    ensures SameSet([a, a], [a]) && !TargetsMatch([a, a], [a])
    ensures !SameSet([a, b], [a, a]) && TargetsMatch([a, b], [a, a])
  {
    assert b in [a, b] && b !in [a, a];
  }
}
