/**
 The prefix search: a background walk over a paginated listing that filters each
 page, emits it, and stops at the last page, on a cancel or on an error.
 */
module Searches {
  import opened Wrappers
  import opened Substrings

  datatype ObjectEntry = ObjectEntry(
    key: string, size: nat, lastModified: Option<int>, etag: Option<string>,
    storageClass: Option<string>, isPrefix: bool)

  datatype EntryRef = EntryRef(key: string, size: nat, lastModified: Option<int>, isPrefix: bool)

  datatype ListPage = ListPage(entries: seq<ObjectEntry>, nextContinuationToken: Option<string>, isTruncated: bool)

  datatype SearchPage = SearchPage(requestId: string, pageIndex: nat, results: seq<EntryRef>, isFinal: bool)

  // ------------------------------------------------------------------------
  // What a search selects
  // ------------------------------------------------------------------------

  /** These are the entries as the search emits them. */
  ghost predicate Shows(refs: seq<EntryRef>, entries: seq<ObjectEntry>) {
    && |refs| == |entries|
    && forall n | 0 <= n < |entries| ::
         refs[n] == EntryRef(entries[n].key, entries[n].size, entries[n].lastModified, entries[n].isPrefix)
  }

  /** Exactly the positions where the key, once folded, contains the folded query. */
  ghost predicate Finds(refs: seq<EntryRef>, q: string, lower: string -> string, picks: seq<nat>) {
    && (forall i, j | 0 <= i < j < |picks| :: picks[i] < picks[j])
    && (forall i | 0 <= i < |picks| :: picks[i] < |refs|)
    && forall n | 0 <= n < |refs| :: n in picks <==> q == "" || Contains(lower(refs[n].key), q)
  }

  /** The results are the entries at those positions, in order. */
  ghost predicate Picks(
      refs: seq<EntryRef>, q: string, lower: string -> string, results: seq<EntryRef>, picks: seq<nat>)
  {
    && Finds(refs, q, lower, picks)
    && |results| == |picks|
    && forall i | 0 <= i < |picks| :: results[i] == refs[picks[i]]
  }

  /** The results are the listed entries that match. */
  ghost predicate Selects(entries: seq<ObjectEntry>, q: string, lower: string -> string, results: seq<EntryRef>) {
    exists refs, picks :: Shows(refs, entries) && Picks(refs, q, lower, results, picks)
  }

  function Shifted(picks: seq<nat>, offset: nat): (r: seq<nat>)
    ensures |r| == |picks| && forall i | 0 <= i < |r| :: r[i] == picks[i] + offset
  {
    seq(|picks|, i requires 0 <= i < |picks| => picks[i] + offset)
  }

  lemma ShiftedMember(picks: seq<nat>, offset: nat, n: nat)
    ensures n in Shifted(picks, offset) <==> offset <= n && n - offset in picks
  {
    if i :| 0 <= i < |picks| && offset <= n && picks[i] == n - offset {
      assert Shifted(picks, offset)[i] == n;
    }
  }

  lemma FindsAppend(
      a: seq<EntryRef>, b: seq<EntryRef>, q: string, lower: string -> string, pa: seq<nat>, pb: seq<nat>)
    requires Finds(a, q, lower, pa) && Finds(b, q, lower, pb)
    ensures Finds(a + b, q, lower, pa + Shifted(pb, |a|))
  {
    var picks := pa + Shifted(pb, |a|);
    forall n | 0 <= n < |a + b| ensures n in picks <==> q == "" || Contains(lower((a + b)[n].key), q) {
      ShiftedMember(pb, |a|, n);
      if n < |a| {
        assert n in picks <==> n in pa;
      } else {
        assert n !in pa;
        assert n in picks <==> n - |a| in pb;
      }
    }
  }

  lemma PickedAppend<T>(a: seq<T>, b: seq<T>, ra: seq<T>, rb: seq<T>, pa: seq<nat>, pb: seq<nat>)
    requires |ra| == |pa| && forall i | 0 <= i < |pa| :: pa[i] < |a| && ra[i] == a[pa[i]]
    requires |rb| == |pb| && forall i | 0 <= i < |pb| :: pb[i] < |b| && rb[i] == b[pb[i]]
    ensures var picks := pa + Shifted(pb, |a|);
      |ra + rb| == |picks| && forall i | 0 <= i < |picks| :: picks[i] < |a + b| && (ra + rb)[i] == (a + b)[picks[i]]
  {
  }

  lemma PicksAppend(
      a: seq<EntryRef>, b: seq<EntryRef>, q: string, lower: string -> string,
      ra: seq<EntryRef>, rb: seq<EntryRef>, pa: seq<nat>, pb: seq<nat>)
    requires Picks(a, q, lower, ra, pa) && Picks(b, q, lower, rb, pb)
    ensures Picks(a + b, q, lower, ra + rb, pa + Shifted(pb, |a|))
  {
    FindsAppend(a, b, q, lower, pa, pb);
    PickedAppend(a, b, ra, rb, pa, pb);
  }

  lemma BothEmpty(p: seq<nat>, r: seq<nat>)
    requires forall n: nat :: n in p <==> n in r
    ensures p == [] <==> r == []
  {
    if p != [] {
      assert p[0] in r;
    }
    if r != [] {
      assert r[0] in p;
    }
  }

  lemma {:induction false} RisingUnique(p: seq<nat>, r: seq<nat>)
    requires forall i, j | 0 <= i < j < |p| :: p[i] < p[j]
    requires forall i, j | 0 <= i < j < |r| :: r[i] < r[j]
    requires forall n: nat :: n in p <==> n in r
    ensures p == r
  {
    BothEmpty(p, r);
    if p == [] {
    } else {
      var x, y := p[|p| - 1], r[|r| - 1];
      assert x in r && y in p;
      assert x == y;
      var p', r' := p[..|p| - 1], r[..|r| - 1];
      assert p == p' + [x] && r == r' + [x];
      forall n: nat ensures n in p' <==> n in r' {
        assert n in p' <==> n in p && n != x;
        assert n in r' <==> n in r && n != x;
      }
      RisingUnique(p', r');
    }
  }

  lemma FindsUnique(refs: seq<EntryRef>, q: string, lower: string -> string, pa: seq<nat>, pb: seq<nat>)
    requires Finds(refs, q, lower, pa) && Finds(refs, q, lower, pb)
    ensures pa == pb
  {
    forall n: nat ensures n in pa <==> n in pb {
      if n < |refs| {
        assert n in pa <==> q == "" || Contains(lower(refs[n].key), q);
      }
    }
    RisingUnique(pa, pb);
  }

  /** Only one list of results is picked. */
  lemma PicksUnique(
      refs: seq<EntryRef>, q: string, lower: string -> string,
      ra: seq<EntryRef>, rb: seq<EntryRef>, pa: seq<nat>, pb: seq<nat>)
    requires Picks(refs, q, lower, ra, pa) && Picks(refs, q, lower, rb, pb)
    ensures ra == rb
  {
    FindsUnique(refs, q, lower, pa, pb);
  }

  // ------------------------------------------------------------------------
  // The filters
  // ------------------------------------------------------------------------

  /** The entry's key, folded, contains the folded query. */
  predicate Matches(key: string, q: string, lower: string -> string) {
    q == "" || Contains(lower(key), q)
  }

  function FilterRefs(entries: seq<EntryRef>, q: string, lower: string -> string): seq<EntryRef> {
    if entries == [] then []
    else (if Matches(entries[0].key, q, lower) then [entries[0]] else []) + FilterRefs(entries[1..], q, lower)
  }

  function Refs(entries: seq<ObjectEntry>): (r: seq<EntryRef>)
    ensures Shows(r, entries)
  {
    seq(|entries|, n requires 0 <= n < |entries| =>
      EntryRef(entries[n].key, entries[n].size, entries[n].lastModified, entries[n].isPrefix))
  }

  function FilterContains(entries: seq<EntryRef>, q: string, lower: string -> string): seq<EntryRef> {
    if entries == [] then []
    else (if Contains(lower(entries[0].key), q) then [entries[0]] else []) + FilterContains(entries[1..], q, lower)
  }

  /** `search_local_filter`: an empty query returns everything. */
  function LocalFilter(query: string, entries: seq<EntryRef>, lower: string -> string): seq<EntryRef> {
    if query == "" then entries else FilterContains(entries, lower(query), lower)
  }

  lemma EmptyIsContained(s: string)
    ensures Contains(s, "")
  {
    assert OccursAt(s, "", 0);
  }

  /** The walk's filter and the in-memory filter agree. */
  lemma {:induction false} FiltersAgree(query: string, entries: seq<EntryRef>, lower: string -> string)
    requires lower("") == ""
    ensures FilterRefs(entries, lower(query), lower) == LocalFilter(query, entries, lower)
  {
    if entries == [] {
    } else {
      FiltersAgree(query, entries[1..], lower);
      if lower(query) == "" {
        EmptyIsContained(lower(entries[0].key));
      }
    }
  }

  lemma OnePicks(e: EntryRef, q: string, lower: string -> string) returns (picks: seq<nat>)
    ensures Picks([e], q, lower, if Matches(e.key, q, lower) then [e] else [], picks)
  {
    picks := if Matches(e.key, q, lower) then [0] else [];
  }

  lemma {:induction false} FilterPicks(refs: seq<EntryRef>, q: string, lower: string -> string)
      returns (picks: seq<nat>)
    ensures Picks(refs, q, lower, FilterRefs(refs, q, lower), picks)
  {
    if refs == [] {
      picks := [];
    } else {
      var first := OnePicks(refs[0], q, lower);
      var rest := FilterPicks(refs[1..], q, lower);
      PicksAppend(
        [refs[0]], refs[1..], q, lower, if Matches(refs[0].key, q, lower) then [refs[0]] else [],
        FilterRefs(refs[1..], q, lower), first, rest);
      picks := first + Shifted(rest, 1);
      assert refs == [refs[0]] + refs[1..];
    }
  }

  /** The in-memory filter returns the entries that match. */
  lemma LocalFilterPicks(query: string, refs: seq<EntryRef>, lower: string -> string) returns (picks: seq<nat>)
    requires lower("") == ""
    ensures Picks(refs, lower(query), lower, LocalFilter(query, refs, lower), picks)
  {
    FiltersAgree(query, refs, lower);
    picks := FilterPicks(refs, lower(query), lower);
  }

  // ------------------------------------------------------------------------
  // Listings and streams
  // ------------------------------------------------------------------------

  /** These are the pages a walk meets, from the first to the last. */
  ghost predicate IsListing(fetch: Option<string> -> ListPage, pages: seq<ListPage>) {
    && pages != []
    && fetch(None) == pages[0]
    && (!pages[|pages| - 1].isTruncated || pages[|pages| - 1].nextContinuationToken.None?)
    && forall i | 0 <= i < |pages| - 1 ::
         && pages[i].isTruncated && pages[i].nextContinuationToken.Some?
         && fetch(pages[i].nextContinuationToken) == pages[i + 1]
  }

  /** The number of pages the walk gets, from page i on, before a cancel, an error or the end. */
  function FetchedFrom(pages: seq<ListPage>, cancelled: nat -> bool, fails: nat -> bool, i: nat): (n: nat)
    requires i <= |pages|
    ensures i <= n <= |pages|
    ensures forall j: nat | i <= j < n :: !cancelled(j) && !fails(j)
    ensures n < |pages| ==> cancelled(n) || fails(n)
    decreases |pages| - i
  {
    if i == |pages| || cancelled(i) || fails(i) then i else FetchedFrom(pages, cancelled, fails, i + 1)
  }

  function Fetched(pages: seq<ListPage>, cancelled: nat -> bool, fails: nat -> bool): nat {
    FetchedFrom(pages, cancelled, fails, 0)
  }

  /**
   A whole stream: one page for each of the n pages fetched, then an empty one if the walk
   was cut short. The pages are numbered and exactly the last one is final.
   */
  ghost predicate IsStream(
      requestId: string, pages: seq<ListPage>, n: nat, q: string, lower: string -> string, stream: seq<SearchPage>)
  {
    && n <= |pages|
    && |stream| == (if n < |pages| then n + 1 else n)
    && (forall i | 0 <= i < n :: Selects(pages[i].entries, q, lower, stream[i].results))
    && (n < |pages| ==> stream[n].results == [])
    && (forall i | 0 <= i < |stream| :: stream[i].requestId == requestId && stream[i].pageIndex == i)
    && forall i | 0 <= i < |stream| :: stream[i].isFinal <==> i == |stream| - 1
  }

  // ------------------------------------------------------------------------
  // search_prefix
  // ------------------------------------------------------------------------

  lemma FetchedIs(pages: seq<ListPage>, cancelled: nat -> bool, fails: nat -> bool, n: nat)
    requires n <= |pages| && (forall i: nat | i < n :: !cancelled(i) && !fails(i))
    requires n < |pages| ==> cancelled(n) || fails(n)
    ensures Fetched(pages, cancelled, fails) == n
  {
    var f := Fetched(pages, cancelled, fails);
    assert f < |pages| ==> cancelled(f) || fails(f);
  }

  /** One page of the walk. */
  method FilterPage(page: ListPage, q: string, lower: string -> string) returns (results: seq<EntryRef>)
    ensures Selects(page.entries, q, lower, results)
  {
    var refs := Refs(page.entries);
    results := FilterRefs(refs, q, lower);
    ghost var picks := FilterPicks(refs, q, lower);
  }

  /**
   The page walk. `cancelled(i)` and `fails(i)` say whether the token is set before,
   and whether the request fails at, the i-th fetch.
   */
  method SearchPrefix(
      requestId: string, query: string, lower: string -> string,
      fetch: Option<string> -> ListPage, cancelled: nat -> bool, fails: nat -> bool,
      ghost pages: seq<ListPage>) returns (stream: seq<SearchPage>)
    requires IsListing(fetch, pages)
    ensures IsStream(requestId, pages, Fetched(pages, cancelled, fails), lower(query), lower, stream)
    ensures stream != []
  {
    var continuationToken: Option<string> := None;
    var pageIndex := 0;
    var q := lower(query);
    stream := [];
    while true
      invariant 0 <= pageIndex < |pages|
      invariant fetch(continuationToken) == pages[pageIndex]
      invariant forall i: nat | i < pageIndex :: !cancelled(i) && !fails(i)
      invariant |stream| == pageIndex
      invariant forall i | 0 <= i < pageIndex :: stream[i].requestId == requestId && stream[i].pageIndex == i
      invariant forall i | 0 <= i < pageIndex :: !stream[i].isFinal
      invariant forall i | 0 <= i < pageIndex :: Selects(pages[i].entries, q, lower, stream[i].results)
      decreases |pages| - pageIndex
    {
      if cancelled(pageIndex) {
        stream := stream + [SearchPage(requestId, pageIndex, [], true)];
        FetchedIs(pages, cancelled, fails, pageIndex);
        break;
      }
      if fails(pageIndex) {
        stream := stream + [SearchPage(requestId, pageIndex, [], true)];
        FetchedIs(pages, cancelled, fails, pageIndex);
        break;
      }
      var page := fetch(continuationToken);
      var isLastPage := !page.isTruncated || page.nextContinuationToken.None?;
      var results := FilterPage(page, q, lower);
      stream := stream + [SearchPage(requestId, pageIndex, results, isLastPage)];
      if isLastPage {
        assert pageIndex == |pages| - 1;
        FetchedIs(pages, cancelled, fails, pageIndex + 1);
        break;
      }
      continuationToken := page.nextContinuationToken;
      pageIndex := pageIndex + 1;
    }
  }

  // ------------------------------------------------------------------------
  // What the stream promises
  // ------------------------------------------------------------------------

  function Flatten<T>(parts: seq<seq<T>>): seq<T> {
    if parts == [] then [] else Flatten(parts[..|parts| - 1]) + parts[|parts| - 1]
  }

  /** Flattening puts the parts one after another. */
  lemma {:induction false} FlattenExact<T>(a: seq<seq<T>>, b: seq<seq<T>>, part: seq<T>)
    ensures Flatten<T>([]) == [] && Flatten([part]) == part
    ensures Flatten(a + b) == Flatten(a) + Flatten(b)
  {
    assert [part][..0] == [];
    if b == [] {
      assert a + b == a;
    } else {
      assert (a + b)[..|a + b| - 1] == a + b[..|b| - 1];
      FlattenExact(a, b[..|b| - 1], part);
    }
  }

  lemma ShowsAppend(fa: seq<EntryRef>, fb: seq<EntryRef>, a: seq<ObjectEntry>, b: seq<ObjectEntry>)
    requires Shows(fa, a) && Shows(fb, b)
    ensures Shows(fa + fb, a + b)
  {
  }

  lemma SelectsAppend(
      a: seq<ObjectEntry>, b: seq<ObjectEntry>, q: string, lower: string -> string,
      ra: seq<EntryRef>, rb: seq<EntryRef>)
    requires Selects(a, q, lower, ra) && Selects(b, q, lower, rb)
    ensures Selects(a + b, q, lower, ra + rb)
  {
    var fa, pa :| Shows(fa, a) && Picks(fa, q, lower, ra, pa);
    var fb, pb :| Shows(fb, b) && Picks(fb, q, lower, rb, pb);
    PicksAppend(fa, fb, q, lower, ra, rb, pa, pb);
    ShowsAppend(fa, fb, a, b);
  }

  lemma {:induction false} FlattenSelects(
      entries: seq<seq<ObjectEntry>>, q: string, lower: string -> string, results: seq<seq<EntryRef>>)
    requires |entries| == |results|
    requires forall i | 0 <= i < |entries| :: Selects(entries[i], q, lower, results[i])
    ensures Selects(Flatten(entries), q, lower, Flatten(results))
  {
    if entries == [] {
      assert Shows([], Flatten(entries)) && Picks([], q, lower, Flatten(results), []);
    } else {
      var last := |entries| - 1;
      FlattenSelects(entries[..last], q, lower, results[..last]);
      SelectsAppend(Flatten(entries[..last]), entries[last], q, lower, Flatten(results[..last]), results[last]);
    }
  }

  /** The entries of each page. */
  function EntriesOf(pages: seq<ListPage>): (r: seq<seq<ObjectEntry>>)
    ensures |r| == |pages| && forall i | 0 <= i < |r| :: r[i] == pages[i].entries
  {
    seq(|pages|, i requires 0 <= i < |pages| => pages[i].entries)
  }

  /** The results of each page. */
  function ResultsOf(stream: seq<SearchPage>): (r: seq<seq<EntryRef>>)
    ensures |r| == |stream| && forall i | 0 <= i < |r| :: r[i] == stream[i].results
  {
    seq(|stream|, i requires 0 <= i < |stream| => stream[i].results)
  }

  lemma FlattenCut(stream: seq<SearchPage>, n: nat)
    requires n <= |stream| <= n + 1 && (n < |stream| ==> stream[n].results == [])
    ensures Flatten(ResultsOf(stream)) == Flatten(ResultsOf(stream[..n]))
  {
    if n < |stream| {
      assert ResultsOf(stream)[..n] == ResultsOf(stream[..n]);
    } else {
      assert stream[..n] == stream;
    }
  }

  /** The results put together are the entries that match among everything that was fetched. */
  lemma StreamResults(
      requestId: string, q: string, lower: string -> string, pages: seq<ListPage>, n: nat, stream: seq<SearchPage>)
    requires IsStream(requestId, pages, n, q, lower, stream)
    ensures Selects(Flatten(EntriesOf(pages[..n])), q, lower, Flatten(ResultsOf(stream)))
  {
    FlattenSelects(EntriesOf(pages[..n]), q, lower, ResultsOf(stream[..n]));
    FlattenCut(stream, n);
  }

  /** With neither a cancel nor an error, those are the matches of the whole listing. */
  lemma UndisturbedSearch(
      requestId: string, q: string, lower: string -> string,
      cancelled: nat -> bool, fails: nat -> bool, pages: seq<ListPage>, stream: seq<SearchPage>)
    requires forall i: nat | i < |pages| :: !cancelled(i) && !fails(i)
    requires IsStream(requestId, pages, Fetched(pages, cancelled, fails), q, lower, stream)
    ensures |stream| == |pages|
    ensures Selects(Flatten(EntriesOf(pages)), q, lower, Flatten(ResultsOf(stream)))
  {
    FetchedIs(pages, cancelled, fails, |pages|);
    StreamResults(requestId, q, lower, pages, |pages|, stream);
    assert pages[..|pages|] == pages;
  }

  /** Filtering in memory what was fetched gives the same list. */
  lemma SameAsLocalFilter(
      query: string, lower: string -> string, entries: seq<ObjectEntry>, refs: seq<EntryRef>, results: seq<EntryRef>)
    requires lower("") == ""
    requires Selects(entries, lower(query), lower, results) && Shows(refs, entries)
    ensures results == LocalFilter(query, refs, lower)
  {
    var shown, picks :| Shows(shown, entries) && Picks(shown, lower(query), lower, results, picks);
    assert shown == refs;
    var local := LocalFilterPicks(query, refs, lower);
    PicksUnique(refs, lower(query), lower, results, LocalFilter(query, refs, lower), picks, local);
  }

  // ------------------------------------------------------------------------
  // The whole key, or the key relative to the prefix
  // ------------------------------------------------------------------------

  /** No occurrence of q in a text that begins with p can start inside p. */
  predicate NoneStartsInside(p: string, q: string) {
    forall i | 0 <= i < |p| :: !(p[i..] <= q) && !OccursAt(p, q, i)
  }

  lemma OccursBehind(p: string, r: string, q: string, i: nat)
    requires i <= |r|
    ensures OccursAt(p + r, q, |p| + i) <==> OccursAt(r, q, i)
  {
    if i + |q| <= |r| {
      assert (p + r)[|p| + i..|p| + i + |q|] == r[i..i + |q|];
    }
  }

  /** An occurrence that starts inside p lies in p, or begins with what is left of p. */
  lemma StartsInside(p: string, r: string, q: string, i: nat)
    requires i < |p| && OccursAt(p + r, q, i)
    ensures p[i..] <= q || OccursAt(p, q, i)
  {
    if i + |q| <= |p| {
      assert (p + r)[i..i + |q|] == p[i..i + |q|];
    } else {
      assert q[..|p| - i] == (p + r)[i..i + |q|][..|p| - i] == p[i..];
    }
  }

  /** A rest that makes q occur in p followed by it, but is too short to contain q itself. */
  lemma OccursAcross(p: string, q: string, i: nat) returns (r: string)
    requires i < |p| && q != "" && (p[i..] <= q || OccursAt(p, q, i))
    ensures Contains(p + r, q) && !Contains(r, q)
  {
    if OccursAt(p, q, i) {
      r := "";
      assert p + r == p;
    } else {
      r := q[|p| - i..];
      assert q == p[i..] + r;
      assert (p + r)[i..i + |q|] == p[i..] + r;
      assert OccursAt(p + r, q, i);
    }
  }

  lemma SameUnderPrefix(p: string, q: string, r: string)
    requires NoneStartsInside(p, q)
    ensures Contains(p + r, q) <==> Contains(r, q)
  {
    if i: nat :| i <= |p + r| && OccursAt(p + r, q, i) {
      if i < |p| {
        StartsInside(p, r, q, i);
      } else {
        OccursBehind(p, r, q, i - |p|);
      }
    }
    if i: nat :| i <= |r| && OccursAt(r, q, i) {
      OccursBehind(p, r, q, i);
    }
  }

  /**
   The walk matches the whole folded key, where its documentation says the key relative
   to the prefix. The two select the same keys under a prefix exactly for the queries no
   occurrence of which can start inside the folded prefix.
   */
  lemma RelativeExact(p: string, q: string)
    requires q != ""
    ensures (forall r :: Contains(p + r, q) <==> Contains(r, q)) <==> NoneStartsInside(p, q)
  {
    if NoneStartsInside(p, q) {
      forall r ensures Contains(p + r, q) <==> Contains(r, q) {
        SameUnderPrefix(p, q, r);
      }
    } else {
      var i :| 0 <= i < |p| && (p[i..] <= q || OccursAt(p, q, i));
      var r := OccursAcross(p, q, i);
      assert Contains(p + r, q) != Contains(r, q);
    }
  }

  /** The filter by the key relative to the prefix, whose length is given. */
  function FilterRelative(entries: seq<EntryRef>, n: nat, q: string, lower: string -> string): seq<EntryRef> {
    if entries == [] then []
    else
      var key := entries[0].key;
      (if n <= |key| && Matches(key[n..], q, lower) then [entries[0]] else [])
      + FilterRelative(entries[1..], n, q, lower)
  }

  /** A key under the prefix, with a folding that treats the prefix and the rest separately. */
  predicate Under(key: string, prefix: string, lower: string -> string) {
    prefix <= key && lower(key) == lower(prefix) + lower(key[|prefix|..])
  }

  /** For those queries the walk's filter is the documented one on every listing under the prefix. */
  lemma {:induction false} RelativeFiltersAgree(
      entries: seq<EntryRef>, prefix: string, q: string, lower: string -> string)
    requires forall n | 0 <= n < |entries| :: Under(entries[n].key, prefix, lower)
    requires q == "" || NoneStartsInside(lower(prefix), q)
    ensures FilterRefs(entries, q, lower) == FilterRelative(entries, |prefix|, q, lower)
  {
    if entries == [] {
    } else {
      var key := entries[0].key;
      assert Under(key, prefix, lower);
      if q != "" {
        SameUnderPrefix(lower(prefix), q, lower(key[|prefix|..]));
      }
      RelativeFiltersAgree(entries[1..], prefix, q, lower);
    }
  }

  /** Searching "photos/" for "photo" matches every key there. */
  lemma PrefixAlwaysMatches(r: string)
    ensures Contains("photos/" + r, "photo") && !NoneStartsInside("photos/", "photo")
  {
    assert ("photos/" + r)[0..5] == "photos/"[0..5] == "photo";
    assert OccursAt("photos/" + r, "photo", 0) && OccursAt("photos/", "photo", 0);
  }
}
