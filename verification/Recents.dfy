/**
 The list of recently visited locations: a deque that is deduplicated and cut to a
 capacity at every visit. It is specified by the whole history of visits.
 */
module Recents {

  datatype Location = Location(profileId: string, bucket: string, prefix: string)

  datatype RecentLocation = RecentLocation(location: Location, visitedAt: int)

  // ------------------------------------------------------------------------
  // The specification: the history of visits, newest first
  // ------------------------------------------------------------------------

  /** The entries for other locations, in order. */
  function Without(s: seq<RecentLocation>, loc: Location): (r: seq<RecentLocation>)
    ensures |r| <= |s|
    ensures forall e :: e in r <==> e in s && e.location != loc
  {
    if s == [] then []
    else
      assert forall e :: e in s <==> e == s[0] || e in s[1..];
      (if s[0].location == loc then [] else [s[0]]) + Without(s[1..], loc)
  }

  /** Each location once, at its latest visit, ordered by most recent visit. */
  function Distinct(visits: seq<RecentLocation>): (r: seq<RecentLocation>)
    ensures forall e | e in r :: e in visits
    decreases |visits|
  {
    if visits == [] then []
    else [visits[0]] + Distinct(Without(visits[1..], visits[0].location))
  }

  function Take(s: seq<RecentLocation>, n: nat): seq<RecentLocation> {
    if |s| <= n then s else s[..n]
  }

  ghost predicate NoRepeats(s: seq<RecentLocation>) {
    forall m, n | 0 <= m < n < |s| :: s[m].location != s[n].location
  }

  lemma {:induction false} DistinctNoRepeats(visits: seq<RecentLocation>)
    ensures NoRepeats(Distinct(visits))
    decreases |visits|
  {
    if visits == [] {
    } else {
      var others := Without(visits[1..], visits[0].location);
      DistinctNoRepeats(others);
      var d := Distinct(others);
      forall n | 0 <= n < |d| ensures d[n].location != visits[0].location {
        assert d[n] in others;
      }
    }
  }

  /** The entry is the newest visit to its location. */
  ghost predicate IsLatest(visits: seq<RecentLocation>, e: RecentLocation) {
    exists n :: 0 <= n < |visits| && visits[n] == e && forall m | 0 <= m < n :: visits[m].location != e.location
  }

  lemma LatestMember(visits: seq<RecentLocation>, e: RecentLocation)
    requires IsLatest(visits, e)
    ensures e in visits
  {
  }

  lemma LatestCons(v: RecentLocation, rest: seq<RecentLocation>, e: RecentLocation)
    ensures IsLatest([v] + rest, e) <==> e == v || (e.location != v.location && IsLatest(rest, e))
  {
    var visits := [v] + rest;
    if n :| 0 <= n < |visits| && visits[n] == e && forall m | 0 <= m < n :: visits[m].location != e.location {
      if n > 0 {
        assert visits[0] == v;
        assert rest[n - 1] == e;
        assert forall m | 0 <= m < n - 1 :: rest[m].location != e.location by {
          forall m | 0 <= m < n - 1 ensures rest[m].location != e.location {
            assert visits[m + 1] == rest[m];
          }
        }
      }
    }
    if e.location != v.location && IsLatest(rest, e) {
      var n :| 0 <= n < |rest| && rest[n] == e && forall m | 0 <= m < n :: rest[m].location != e.location;
      assert visits[n + 1] == e;
      assert forall m | 0 <= m < n + 1 :: visits[m].location != e.location;
    }
    if e == v {
      assert visits[0] == e;
    }
  }

  lemma {:induction false} LatestWithout(s: seq<RecentLocation>, loc: Location, e: RecentLocation)
    requires e.location != loc
    ensures IsLatest(Without(s, loc), e) <==> IsLatest(s, e)
  {
    if s == [] {
    } else {
      LatestWithout(s[1..], loc, e);
      assert s == [s[0]] + s[1..];
      LatestCons(s[0], s[1..], e);
      if s[0].location == loc {
        assert Without(s, loc) == Without(s[1..], loc);
      } else {
        LatestCons(s[0], Without(s[1..], loc), e);
      }
    }
  }

  lemma LatestStep(visits: seq<RecentLocation>, e: RecentLocation)
    requires visits != []
    ensures IsLatest(visits, e) <==> e == visits[0] || IsLatest(Without(visits[1..], visits[0].location), e)
  {
    assert visits == [visits[0]] + visits[1..];
    LatestCons(visits[0], visits[1..], e);
    if e.location != visits[0].location {
      LatestWithout(visits[1..], visits[0].location, e);
    } else if IsLatest(Without(visits[1..], visits[0].location), e) {
      LatestMember(Without(visits[1..], visits[0].location), e);
    }
  }

  /** The entries are exactly the latest visits. */
  lemma {:induction false} DistinctIsLatest(visits: seq<RecentLocation>)
    ensures forall e :: e in Distinct(visits) <==> IsLatest(visits, e)
    decreases |visits|
  {
    if visits == [] {
    } else {
      var first, others := visits[0], Without(visits[1..], visits[0].location);
      DistinctIsLatest(others);
      forall e ensures e in Distinct(visits) <==> IsLatest(visits, e) {
        LatestStep(visits, e);
        assert e in Distinct(visits) <==> e == first || e in Distinct(others);
      }
    }
  }

  /** The times never increase towards older visits, so neither do they in the list. */
  ghost predicate NewestFirst(s: seq<RecentLocation>) {
    forall m, n | 0 <= m < n < |s| :: s[m].visitedAt >= s[n].visitedAt
  }

  lemma {:induction false} WithoutNewestFirst(s: seq<RecentLocation>, loc: Location)
    requires NewestFirst(s)
    ensures NewestFirst(Without(s, loc))
  {
    if s == [] {
    } else {
      WithoutNewestFirst(s[1..], loc);
      var rest := Without(s[1..], loc);
      forall n | 0 <= n < |rest| ensures s[0].visitedAt >= rest[n].visitedAt {
        assert rest[n] in rest;
        assert rest[n] in s[1..];
      }
    }
  }

  lemma {:induction false} DistinctNewestFirst(visits: seq<RecentLocation>)
    requires NewestFirst(visits)
    ensures NewestFirst(Distinct(visits))
    decreases |visits|
  {
    if visits == [] {
    } else {
      var others := Without(visits[1..], visits[0].location);
      WithoutNewestFirst(visits[1..], visits[0].location);
      DistinctNewestFirst(others);
      var d := Distinct(others);
      forall n | 0 <= n < |d| ensures visits[0].visitedAt >= d[n].visitedAt {
        assert d[n] in others;
        assert d[n] in visits[1..];
      }
    }
  }

  // ------------------------------------------------------------------------
  // One more visit
  // ------------------------------------------------------------------------

  /** How many visits ago the location was last visited; the number of visits if never. */
  function VisitsAgo(visits: seq<RecentLocation>, loc: Location): nat {
    if visits == [] || visits[0].location == loc then 0 else 1 + VisitsAgo(visits[1..], loc)
  }

  lemma VisitsAgoCons(h: RecentLocation, t: seq<RecentLocation>, loc: Location)
    ensures VisitsAgo([h] + t, loc) == if h.location == loc then 0 else 1 + VisitsAgo(t, loc)
  {
    assert ([h] + t)[1..] == t;
  }

  lemma WithoutCons(h: RecentLocation, t: seq<RecentLocation>, loc: Location)
    ensures Without([h] + t, loc) == if h.location == loc then Without(t, loc) else [h] + Without(t, loc)
  {
    assert ([h] + t)[1..] == t;
  }

  lemma {:induction false} WithoutKeepsOrder(s: seq<RecentLocation>, loc: Location, a: Location, b: Location)
    requires a != loc && b != loc
    ensures VisitsAgo(Without(s, loc), a) < VisitsAgo(Without(s, loc), b) <==> VisitsAgo(s, a) < VisitsAgo(s, b)
  {
    if s == [] {
    } else {
      var h, t := s[0], s[1..];
      WithoutKeepsOrder(t, loc, a, b);
      assert s == [h] + t;
      WithoutCons(h, t, loc);
      VisitsAgoCons(h, Without(t, loc), a);
      VisitsAgoCons(h, Without(t, loc), b);
    }
  }

  ghost predicate ByRecency(visits: seq<RecentLocation>, d: seq<RecentLocation>) {
    forall m, n | 0 <= m < n < |d| :: VisitsAgo(visits, d[m].location) < VisitsAgo(visits, d[n].location)
  }

  /** One more visit puts its location in front and keeps the order of the others. */
  lemma VisitsAgoAfter(v: RecentLocation, rest: seq<RecentLocation>, a: Location, b: Location)
    requires a != v.location && b != v.location
    ensures VisitsAgo([v] + rest, v.location) == 0 < VisitsAgo([v] + rest, a)
    ensures VisitsAgo([v] + rest, a) < VisitsAgo([v] + rest, b) <==>
      VisitsAgo(Without(rest, v.location), a) < VisitsAgo(Without(rest, v.location), b)
  {
    VisitsAgoCons(v, rest, v.location);
    VisitsAgoCons(v, rest, a);
    VisitsAgoCons(v, rest, b);
    WithoutKeepsOrder(rest, v.location, a, b);
  }

  /** `after` is ordered as `before` is, with one location put in front. */
  ghost predicate PutsInFront(before: seq<RecentLocation>, after: seq<RecentLocation>, loc: Location) {
    && (forall a | a != loc :: VisitsAgo(after, loc) < VisitsAgo(after, a))
    && (forall a, b | a != loc && b != loc && VisitsAgo(before, a) < VisitsAgo(before, b) ::
          VisitsAgo(after, a) < VisitsAgo(after, b))
  }

  lemma VisitPutsInFront(v: RecentLocation, rest: seq<RecentLocation>)
    ensures PutsInFront(Without(rest, v.location), [v] + rest, v.location)
  {
    forall a, b | a != v.location && b != v.location
      ensures VisitsAgo([v] + rest, v.location) < VisitsAgo([v] + rest, a)
      ensures VisitsAgo(Without(rest, v.location), a) < VisitsAgo(Without(rest, v.location), b) ==>
        VisitsAgo([v] + rest, a) < VisitsAgo([v] + rest, b)
    {
      VisitsAgoAfter(v, rest, a, b);
    }
  }

  lemma ByRecencyCons(
      before: seq<RecentLocation>, after: seq<RecentLocation>, v: RecentLocation, d: seq<RecentLocation>)
    requires ByRecency(before, d) && PutsInFront(before, after, v.location)
    requires forall n | 0 <= n < |d| :: d[n].location != v.location
    ensures ByRecency(after, [v] + d)
  {
  }

  /** Whatever the clock does, the more recently visited location comes first. */
  lemma {:induction false} DistinctByRecency(visits: seq<RecentLocation>)
    ensures ByRecency(visits, Distinct(visits))
    decreases |visits|
  {
    if visits == [] {
    } else {
      var v, others := visits[0], Without(visits[1..], visits[0].location);
      DistinctByRecency(others);
      forall n | 0 <= n < |Distinct(others)| ensures Distinct(others)[n].location != v.location {
        assert Distinct(others)[n] in others;
      }
      VisitPutsInFront(v, visits[1..]);
      assert visits == [v] + visits[1..];
      ByRecencyCons(others, visits, v, Distinct(others));
    }
  }

  lemma {:induction false} WithoutAppend(s: seq<RecentLocation>, t: seq<RecentLocation>, loc: Location)
    ensures Without(s + t, loc) == Without(s, loc) + Without(t, loc)
  {
    if s == [] {
      assert s + t == t;
    } else {
      assert (s + t)[1..] == s[1..] + t;
      WithoutAppend(s[1..], t, loc);
    }
  }

  lemma {:induction false} WithoutCommutes(s: seq<RecentLocation>, a: Location, b: Location)
    ensures Without(Without(s, a), b) == Without(Without(s, b), a)
  {
    if s == [] {
    } else {
      WithoutCommutes(s[1..], a, b);
      var h, t := s[0], s[1..];
      var fa, fb := if h.location == a then [] else [h], if h.location == b then [] else [h];
      WithoutAppend(fa, Without(t, a), b);
      WithoutAppend(fb, Without(t, b), a);
      assert Without([h], a) == fa && Without([h], b) == fb;
      assert Without(fa, b) == Without(fb, a);
    }
  }

  lemma DistinctCons(h: RecentLocation, t: seq<RecentLocation>)
    ensures Distinct([h] + t) == [h] + Distinct(Without(t, h.location))
  {
    assert ([h] + t)[1..] == t;
  }

  lemma {:induction false} WithoutAbsent(s: seq<RecentLocation>, loc: Location)
    requires forall e | e in s :: e.location != loc
    ensures Without(s, loc) == s
  {
    if s == [] {
    } else {
      WithoutAbsent(s[1..], loc);
    }
  }

  lemma WithoutIdempotent(s: seq<RecentLocation>, loc: Location)
    ensures Without(Without(s, loc), loc) == Without(s, loc)
  {
    WithoutAbsent(Without(s, loc), loc);
  }

  /** Dropping a location before or after deduplication is the same. */
  lemma {:induction false} DistinctWithout(visits: seq<RecentLocation>, loc: Location)
    ensures Distinct(Without(visits, loc)) == Without(Distinct(visits), loc)
    decreases |visits|
  {
    if visits == [] {
    } else {
      var h, t := visits[0], visits[1..];
      var others := Without(t, h.location);
      assert visits == [h] + t;
      DistinctCons(h, t);
      WithoutCons(h, t, loc);
      WithoutCons(h, Distinct(others), loc);
      DistinctWithout(others, loc);
      if h.location == loc {
        WithoutIdempotent(t, loc);
      } else {
        DistinctCons(h, Without(t, loc));
        WithoutCommutes(t, h.location, loc);
      }
    }
  }

  lemma DistinctStep(visits: seq<RecentLocation>, v: RecentLocation)
    ensures Distinct([v] + visits) == [v] + Without(Distinct(visits), v.location)
  {
    assert ([v] + visits)[1..] == visits;
    DistinctWithout(visits, v.location);
  }

  lemma {:induction false} WithoutShrinksByOne(s: seq<RecentLocation>, loc: Location)
    requires NoRepeats(s)
    ensures |Without(s, loc)| >= |s| - 1
  {
    if s == [] {
    } else {
      WithoutShrinksByOne(s[1..], loc);
      if s[0].location == loc {
        forall e | e in s[1..] ensures e.location != loc {
          var n :| 0 <= n < |s[1..]| && s[1..][n] == e;
          assert s[n + 1] == e;
        }
        WithoutAbsent(s[1..], loc);
      }
    }
  }

  lemma TakeAppend(a: seq<RecentLocation>, b: seq<RecentLocation>, n: nat)
    requires n <= |a|
    ensures Take(a + b, n) == Take(a, n)
  {
  }

  lemma TakeKeepsDistinct(d: seq<RecentLocation>, n: nat)
    requires NoRepeats(d)
    ensures NoRepeats(Take(d, n)) && |Take(d, n)| <= n
  {
  }

  /** Cutting the list before the visit loses nothing that would survive it. */
  lemma TakeWithout(d: seq<RecentLocation>, loc: Location, cap: nat)
    requires cap >= 1
    requires NoRepeats(d)
    ensures Take(Without(Take(d, cap), loc), cap - 1) == Take(Without(d, loc), cap - 1)
  {
    if |d| > cap {
      var kept, cut := d[..cap], d[cap..];
      assert d == kept + cut;
      WithoutAppend(kept, cut, loc);
      TakeKeepsDistinct(d, cap);
      WithoutShrinksByOne(kept, loc);
      TakeAppend(Without(kept, loc), Without(cut, loc), cap - 1);
    }
  }

  /** Cutting commutes with a visit: the list can forget what it has dropped. */
  lemma TakeStep(visits: seq<RecentLocation>, v: RecentLocation, cap: nat)
    requires cap >= 1
    ensures Take(Distinct([v] + visits), cap) == [v] + Take(Without(Take(Distinct(visits), cap), v.location), cap - 1)
  {
    DistinctStep(visits, v);
    DistinctNoRepeats(visits);
    TakeWithout(Distinct(visits), v.location, cap);
  }

  // ------------------------------------------------------------------------
  // RecentsStore
  // ------------------------------------------------------------------------

  lemma WithoutFront(buffer: seq<RecentLocation>)
    requires buffer != []
    requires NoRepeats(buffer)
    ensures Without(buffer, buffer[0].location) == buffer[1..]
  {
    var h, t := buffer[0], buffer[1..];
    assert buffer == [h] + t;
    forall e | e in t ensures e.location != h.location {
      var n :| 0 <= n < |t| && t[n] == e;
      assert buffer[n + 1] == e;
    }
    WithoutAbsent(t, h.location);
    WithoutCons(h, t, h.location);
  }

  lemma FrontUpdate(buffer: seq<RecentLocation>, v: RecentLocation, limit: nat)
    requires buffer != [] && NoRepeats(buffer) && |buffer| <= limit && buffer[0].location == v.location
    ensures buffer[0 := buffer[0].(visitedAt := v.visitedAt)] == [v] + Take(Without(buffer, v.location), limit - 1)
  {
    WithoutFront(buffer);
    assert buffer[0].(visitedAt := v.visitedAt) == v;
  }

  /** When the location is already in front, only its time changes. */
  lemma FrontVisit(visits: seq<RecentLocation>, v: RecentLocation, limit: nat, buffer: seq<RecentLocation>)
    requires limit >= 1 && buffer == Take(Distinct(visits), limit) && buffer != [] && buffer[0].location == v.location
    ensures buffer[0 := buffer[0].(visitedAt := v.visitedAt)] == Take(Distinct([v] + visits), limit)
  {
    TakeStep(visits, v, limit);
    DistinctNoRepeats(visits);
    TakeKeepsDistinct(Distinct(visits), limit);
    FrontUpdate(buffer, v, limit);
  }

  /** Otherwise the location's older entry goes, then the oldest one if the list is still full. */
  lemma OtherVisit(visits: seq<RecentLocation>, v: RecentLocation, limit: nat, buffer: seq<RecentLocation>)
    requires limit >= 1 && buffer == Take(Distinct(visits), limit)
    ensures var kept := Without(buffer, v.location);
      && |kept| <= limit
      && [v] + (if |kept| >= limit then kept[..|kept| - 1] else kept) == Take(Distinct([v] + visits), limit)
  {
    TakeStep(visits, v, limit);
  }

  ghost predicate ListsAll(r: seq<RecentLocation>, visits: seq<RecentLocation>) {
    forall e | e in visits :: exists n :: 0 <= n < |r| && r[n].location == e.location
  }

  lemma {:induction false} LatestExists(visits: seq<RecentLocation>, e: RecentLocation) returns (latest: RecentLocation)
    requires e in visits
    ensures IsLatest(visits, latest) && latest.location == e.location
  {
    assert visits == [visits[0]] + visits[1..];
    if visits[0].location == e.location {
      latest := visits[0];
    } else {
      latest := LatestExists(visits[1..], e);
    }
    LatestCons(visits[0], visits[1..], latest);
  }

  /** Every visited location is among the distinct ones. */
  lemma DistinctListsAll(visits: seq<RecentLocation>, e: RecentLocation)
    requires e in visits
    ensures exists n :: 0 <= n < |Distinct(visits)| && Distinct(visits)[n].location == e.location
  {
    DistinctIsLatest(visits);
    var latest := LatestExists(visits, e);
    assert latest in Distinct(visits);
  }

  /** What a caller sees: no location twice, each entry the location's latest visit, the most recent first. */
  lemma ListIsMostRecent(visits: seq<RecentLocation>, cap: nat)
    ensures var r := Take(Distinct(visits), cap);
      && |r| <= cap
      && NoRepeats(r)
      && (forall e | e in r :: IsLatest(visits, e))
      && ByRecency(visits, r)
      && (NewestFirst(visits) ==> NewestFirst(r))
      && (|r| < cap ==> ListsAll(r, visits))
  {
    var d := Distinct(visits);
    var r := Take(d, cap);
    DistinctNoRepeats(visits);
    DistinctIsLatest(visits);
    assert forall e | e in r :: e in d;
    DistinctByRecency(visits);
    if NewestFirst(visits) {
      DistinctNewestFirst(visits);
    }
    if |r| < cap {
      forall e | e in visits ensures exists n :: 0 <= n < |r| && r[n].location == e.location {
        DistinctListsAll(visits, e);
      }
    }
  }

  /** A capacity of zero still leaves room for the location just visited. */
  lemma WithinCapacityExactly(visits: seq<RecentLocation>, cap: nat)
    ensures |Take(Distinct(visits), if cap == 0 then 1 else cap)| <= cap <==> cap >= 1 || visits == []
  {
    if visits != [] {
      assert Distinct(visits) != [];
    }
  }

  lemma ZeroCapacityKeepsOne(v: RecentLocation, rest: seq<RecentLocation>)
    ensures Take(Distinct([v] + rest), 1) == [v]
  {
    DistinctCons(v, rest);
  }

  class RecentsStore {
    var buffer: seq<RecentLocation>
    const cap: nat
    /** Every visit since the store was last cleared, newest first. */
    ghost var visits: seq<RecentLocation>

    ghost predicate Valid()
      reads this
    {
      buffer == Take(Distinct(visits), if cap == 0 then 1 else cap)
    }

    constructor (cap: nat)
      ensures Valid() && this.cap == cap && visits == []
    {
      this.cap := cap;
      buffer := [];
      visits := [];
    }

    method Track(loc: Location, now: int)
      requires Valid()
      modifies this
      ensures Valid()
      ensures visits == [RecentLocation(loc, now)] + old(visits)
      ensures buffer != [] && buffer[0] == RecentLocation(loc, now)
      ensures cap >= 1 ==> buffer == Take(Distinct(visits), cap)
      ensures cap == 0 ==> buffer == [RecentLocation(loc, now)]
    {
      ghost var v, limit := RecentLocation(loc, now), if cap == 0 then 1 else cap;
      if buffer != [] && buffer[0].location == loc {
        FrontVisit(visits, v, limit, buffer);
        buffer := buffer[0 := buffer[0].(visitedAt := now)];
      } else {
        OtherVisit(visits, v, limit, buffer);
        buffer := Without(buffer, loc);
        if |buffer| >= cap && buffer != [] {
          buffer := buffer[..|buffer| - 1];
        }
        buffer := [RecentLocation(loc, now)] + buffer;
      }
      visits := [v] + visits;
    }

    method Clear()
      requires Valid()
      modifies this
      ensures Valid() && visits == [] && buffer == []
    {
      buffer := [];
      visits := [];
    }

    method List() returns (r: seq<RecentLocation>)
      requires Valid()
      ensures r == buffer
      ensures cap >= 1 ==> r == Take(Distinct(visits), cap) && |r| <= cap
      ensures cap >= 1 && |r| < cap ==> ListsAll(r, visits)
      ensures cap == 0 ==> |r| == if visits == [] then 0 else 1
    {
      r := buffer;
      ListIsMostRecent(visits, if cap == 0 then 1 else cap);
      if visits != [] {
        assert Distinct(visits) != [];
      }
    }
  }
}
