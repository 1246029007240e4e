/**
 Bucketing by key: ids are grouped under their keys in an insertion-ordered map,
 and the buckets of two or more are picked out. An entry without a key is skipped.
 */
module KeyBuckets {
  import opened Wrappers

  datatype Entry = Entry(id: string, key: Option<string>)

  predicate HasKey(e: Entry, k: string) {
    e.key == Some(k)
  }

  /** The ids in a bucket, in order. */
  function Bucket(entries: seq<Entry>, k: string): seq<string> {
    if entries == [] then []
    else
      var last := entries[|entries| - 1];
      Bucket(entries[..|entries| - 1], k) + if HasKey(last, k) then [last.id] else []
  }

  /** The keys in order of first appearance: the insertion order of the buckets. */
  function KeyOrder(entries: seq<Entry>): seq<string> {
    if entries == [] then []
    else
      var before, last := KeyOrder(entries[..|entries| - 1]), entries[|entries| - 1].key;
      if last.None? || last.value in before then before else before + [last.value]
  }

  /** The first position with this key, or the length. */
  function FirstIndex(entries: seq<Entry>, k: string): (n: nat)
    ensures n <= |entries|
    ensures n < |entries| ==> HasKey(entries[n], k)
    ensures forall i | 0 <= i < n :: !HasKey(entries[i], k)
  {
    if entries == [] || HasKey(entries[0], k) then 0 else 1 + FirstIndex(entries[1..], k)
  }

  lemma {:induction false} FirstIndexIs(entries: seq<Entry>, k: string, n: nat)
    requires n <= |entries| && (n < |entries| ==> HasKey(entries[n], k))
    requires forall i | 0 <= i < n :: !HasKey(entries[i], k)
    ensures FirstIndex(entries, k) == n
  {
    if n == 0 {
    } else {
      assert !HasKey(entries[0], k);
      assert forall i | 0 <= i < |entries| - 1 :: entries[1..][i] == entries[i + 1];
      FirstIndexIs(entries[1..], k, n - 1);
    }
  }

  /** One more entry can only add a first position at the end. */
  lemma {:induction false} FirstIndexGrows(entries: seq<Entry>, k: string)
    requires entries != []
    ensures var last := |entries| - 1; var f := FirstIndex(entries[..last], k);
      FirstIndex(entries, k) == if f < last then f else if HasKey(entries[last], k) then last else last + 1
  {
    var last := |entries| - 1;
    if last == 0 || HasKey(entries[0], k) {
    } else {
      FirstIndexGrows(entries[1..], k);
      assert entries[1..][..last - 1] == entries[..last][1..];
    }
  }

  lemma BucketSnoc(entries: seq<Entry>, e: Entry, k: string)
    ensures Bucket(entries + [e], k) == Bucket(entries, k) + if HasKey(e, k) then [e.id] else []
  {
    assert (entries + [e])[..|entries|] == entries;
  }

  lemma {:induction false} BucketMembers(entries: seq<Entry>, k: string)
    ensures var b := Bucket(entries, k); var f := FirstIndex(entries, k);
      && (b != [] <==> f < |entries|)
      && (b != [] ==> b[0] == entries[f].id)
  {
    if entries == [] {
    } else {
      BucketMembers(entries[..|entries| - 1], k);
      FirstIndexGrows(entries, k);
    }
  }

  lemma {:induction false} BucketHolds(entries: seq<Entry>, k: string, n: nat)
    requires n < |entries| && HasKey(entries[n], k)
    ensures entries[n].id in Bucket(entries, k)
    decreases |entries|
  {
    var last := |entries| - 1;
    if n == last {
    } else {
      assert entries[..last][n] == entries[n];
      BucketHolds(entries[..last], k, n);
    }
  }

  /** Two entries with the same key make a bucket of two or more. */
  lemma {:induction false} BucketOfTwo(entries: seq<Entry>, k: string, m: nat, n: nat)
    requires m < n < |entries| && HasKey(entries[m], k) && HasKey(entries[n], k)
    ensures |Bucket(entries, k)| >= 2 && entries[m].id in Bucket(entries, k) && entries[n].id in Bucket(entries, k)
    decreases |entries|
  {
    var last := |entries| - 1;
    BucketHolds(entries, k, m);
    BucketHolds(entries, k, n);
    if n < last {
      assert entries[..last][m] == entries[m] && entries[..last][n] == entries[n];
      BucketOfTwo(entries[..last], k, m, n);
    } else {
      assert entries[..last][m] == entries[m];
      BucketHolds(entries[..last], k, m);
    }
  }

  lemma {:induction false} KeyOrderMember(entries: seq<Entry>, k: string)
    ensures k in KeyOrder(entries) <==> FirstIndex(entries, k) < |entries|
  {
    if entries == [] {
    } else {
      KeyOrderMember(entries[..|entries| - 1], k);
      FirstIndexGrows(entries, k);
    }
  }

  /** The keys appear in the order of their first positions. */
  ghost predicate InFirstOrder(entries: seq<Entry>, order: seq<string>) {
    forall m, n | 0 <= m < n < |order| :: FirstIndex(entries, order[m]) < FirstIndex(entries, order[n])
  }

  lemma {:induction false} KeyOrderIsFirstOrder(entries: seq<Entry>)
    ensures InFirstOrder(entries, KeyOrder(entries))
  {
    if entries == [] {
    } else {
      var init := entries[..|entries| - 1];
      KeyOrderIsFirstOrder(init);
      var before, after := KeyOrder(init), KeyOrder(entries);
      forall m | 0 <= m < |after|
        ensures m < |before| ==> FirstIndex(entries, after[m]) == FirstIndex(init, before[m]) < |init|
        ensures m >= |before| ==> FirstIndex(entries, after[m]) >= |init|
      {
        KeyOrderMember(init, after[m]);
        FirstIndexGrows(entries, after[m]);
        assert m < |before| ==> before[m] in before;
      }
    }
  }

  /** The first positions of the buckets of two or more. */
  function Leaders(entries: seq<Entry>, order: seq<string>): seq<nat> {
    if order == [] then []
    else
      var k := order[|order| - 1];
      Leaders(entries, order[..|order| - 1]) + if |Bucket(entries, k)| < 2 then [] else [FirstIndex(entries, k)]
  }

  lemma LeadersSnoc(entries: seq<Entry>, order: seq<string>, j: nat)
    requires j < |order|
    ensures Leaders(entries, order[..j + 1]) ==
      Leaders(entries, order[..j]) + if |Bucket(entries, order[j])| < 2 then [] else [FirstIndex(entries, order[j])]
  {
    assert order[..j + 1][..j] == order[..j];
  }

  /** The first position of a bucket of two or more. */
  ghost predicate Leads(entries: seq<Entry>, n: nat) {
    && n < |entries| && entries[n].key.Some?
    && FirstIndex(entries, entries[n].key.value) == n
    && |Bucket(entries, entries[n].key.value)| >= 2
  }

  lemma {:induction false} LeadersLead(entries: seq<Entry>, order: seq<string>)
    ensures forall j | 0 <= j < |Leaders(entries, order)| ::
      Leads(entries, Leaders(entries, order)[j]) && entries[Leaders(entries, order)[j]].key.value in order
  {
    if order == [] {
    } else {
      var k := order[|order| - 1];
      LeadersLead(entries, order[..|order| - 1]);
      BucketMembers(entries, k);
    }
  }

  lemma {:induction false} LeaderIsListed(entries: seq<Entry>, order: seq<string>, n: nat)
    requires Leads(entries, n) && entries[n].key.value in order
    ensures n in Leaders(entries, order)
  {
    var last := |order| - 1;
    if order[last] == entries[n].key.value {
    } else {
      assert entries[n].key.value in order[..last];
      LeaderIsListed(entries, order[..last], n);
    }
  }

  ghost predicate Ascending(s: seq<nat>) {
    forall m, n | 0 <= m < n < |s| :: s[m] < s[n]
  }

  lemma EarlierKeyIsFirst(entries: seq<Entry>, order: seq<string>, k: string)
    requires InFirstOrder(entries, order) && order != [] && k in order[..|order| - 1]
    ensures FirstIndex(entries, k) < FirstIndex(entries, order[|order| - 1])
  {
    var i :| 0 <= i < |order| - 1 && order[i] == k;
  }

  lemma {:induction false} LeadersIncrease(entries: seq<Entry>, order: seq<string>)
    requires InFirstOrder(entries, order)
    ensures Ascending(Leaders(entries, order))
  {
    if order == [] {
    } else {
      var last := |order| - 1;
      var before := Leaders(entries, order[..last]);
      LeadersIncrease(entries, order[..last]);
      LeadersLead(entries, order[..last]);
      forall m | 0 <= m < |before| ensures before[m] < FirstIndex(entries, order[last]) {
        EarlierKeyIsFirst(entries, order, entries[before[m]].key.value);
      }
    }
  }

  /** Two entries with one key make one bucket, led by the first. */
  lemma TwoEntries(x: Entry, y: Entry, k: string)
    requires x.key == Some(k) && y.key == Some(k)
    ensures KeyOrder([x, y]) == [k] && Bucket([x, y], k) == [x.id, y.id]
    ensures FirstIndex([x, y], k) == 0 && Leaders([x, y], [k]) == [0]
  {
    assert [x, y][..1] == [x] && [x][..0] == [] && [k][..0] == [];
    assert KeyOrder([x]) == [k] && Bucket([x], k) == [x.id];
  }

  /** The leaders of all keys are exactly the first positions of the buckets of two or more, in order. */
  lemma LeadersExact(entries: seq<Entry>)
    ensures var leaders := Leaders(entries, KeyOrder(entries));
      && (forall n: nat :: n in leaders <==> Leads(entries, n))
      && Ascending(leaders)
  {
    var order := KeyOrder(entries);
    var leaders := Leaders(entries, order);
    KeyOrderIsFirstOrder(entries);
    LeadersIncrease(entries, order);
    LeadersLead(entries, order);
    forall n: nat | Leads(entries, n) ensures n in leaders {
      KeyOrderMember(entries, entries[n].key.value);
      LeaderIsListed(entries, order, n);
    }
  }

  /** The grouping loop. */
  method FillBuckets(entries: seq<Entry>) returns (order: seq<string>, buckets: map<string, seq<string>>)
    ensures order == KeyOrder(entries)
    ensures forall k :: k in buckets <==> k in order
    ensures forall k | k in buckets :: buckets[k] == Bucket(entries, k)
  {
    order := [];
    buckets := map[];
    for n := 0 to |entries|
      invariant order == KeyOrder(entries[..n])
      invariant forall k :: k in buckets <==> k in order
      invariant forall k :: Bucket(entries[..n], k) == if k in buckets then buckets[k] else []
    {
      assert entries[..n + 1][..n] == entries[..n];
      var key := entries[n].key;
      if key.Some? {
        if key.value in buckets {
          buckets := buckets[key.value := buckets[key.value] + [entries[n].id]];
        } else {
          order := order + [key.value];
          buckets := buckets[key.value := [entries[n].id]];
        }
      }
    }
    assert entries[..|entries|] == entries;
  }
}
