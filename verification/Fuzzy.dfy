/**
 The inline fuzzy matcher: one greedy pass decides whether the folded query is a
 subsequence of the folded target and scores where it was found. Case folding is
 a parameter; indexes and scores refer to the folded strings.
 */
module Fuzzy {
  import opened Wrappers
  import opened Unicode

  const SCORE_MATCH := 16
  const SCORE_CONSECUTIVE_BONUS := 12
  const SCORE_FIRST_CHAR_BONUS := 8
  const SCORE_GAP_PENALTY := 1

  datatype FuzzyMatch = FuzzyMatch(score: int, matchIndexes: seq<nat>)

  // ------------------------------------------------------------------------
  // Embeddings
  // ------------------------------------------------------------------------

  ghost predicate Increasing(idx: seq<nat>) {
    forall m, n | 0 <= m < n < |idx| :: idx[m] < idx[n]
  }

  /** The positions spell q inside t, in order. */
  ghost predicate Embeds(q: JsString, t: JsString, idx: seq<nat>) {
    |idx| == |q| && Increasing(idx) && forall k | 0 <= k < |idx| :: idx[k] < |t| && t[idx[k]] == q[k]
  }

  ghost predicate IsSubsequence(q: JsString, t: JsString) {
    exists idx :: Embeds(q, t, idx)
  }

  /** The embedding a scan from position `from` finds: every unit at its first opportunity. */
  function Leftmost(q: JsString, t: JsString, from: nat): Option<seq<nat>>
    decreases |t| - from
  {
    if q == [] then Some([])
    else if from >= |t| then None
    else if t[from] != q[0] then Leftmost(q, t, from + 1)
    else
      var rest := Leftmost(q[1..], t, from + 1);
      if rest.None? then None else Some([from] + rest.value)
  }

  lemma {:induction false} LeftmostEmbeds(q: JsString, t: JsString, from: nat)
    requires Leftmost(q, t, from).Some?
    ensures Embeds(q, t, Leftmost(q, t, from).value)
    ensures forall k | 0 <= k < |q| :: from <= Leftmost(q, t, from).value[k]
    decreases |t| - from
  {
    if q == [] {
    } else {
      if t[from] != q[0] {
        LeftmostEmbeds(q, t, from + 1);
      } else {
        LeftmostEmbeds(q[1..], t, from + 1);
      }
    }
  }

  /** Any embedding from `from` on is found, and is nowhere to the left of the one found. */
  lemma {:induction false} LeftmostIsLeast(q: JsString, t: JsString, from: nat, idx: seq<nat>)
    requires Embeds(q, t, idx) && (q != [] ==> from <= idx[0])
    ensures Leftmost(q, t, from).Some? && |Leftmost(q, t, from).value| == |q|
    ensures forall k | 0 <= k < |q| :: Leftmost(q, t, from).value[k] <= idx[k]
    decreases |t| - from
  {
    if q == [] {
    } else {
      if t[from] != q[0] {
        LeftmostIsLeast(q, t, from + 1, idx);
      } else {
        assert forall k | 0 <= k < |idx[1..]| :: idx[1..][k] == idx[k + 1];
        LeftmostIsLeast(q[1..], t, from + 1, idx[1..]);
        forall k | 0 < k < |q| ensures Leftmost(q, t, from).value[k] <= idx[k] {
          assert idx[1..][k - 1] == idx[k];
        }
      }
    }
  }

  /** The scan succeeds exactly on subsequences, and finds the pointwise least embedding. */
  lemma LeftmostExact(q: JsString, t: JsString)
    ensures Leftmost(q, t, 0).Some? <==> IsSubsequence(q, t)
    ensures Leftmost(q, t, 0).Some? ==>
      && Embeds(q, t, Leftmost(q, t, 0).value)
      && forall idx, k | Embeds(q, t, idx) && 0 <= k < |q| :: Leftmost(q, t, 0).value[k] <= idx[k]
  {
    if Leftmost(q, t, 0).Some? {
      LeftmostEmbeds(q, t, 0);
    }
    forall idx | Embeds(q, t, idx)
      ensures Leftmost(q, t, 0).Some? && |Leftmost(q, t, 0).value| == |q|
      ensures forall k | 0 <= k < |q| :: Leftmost(q, t, 0).value[k] <= idx[k]
    {
      LeftmostIsLeast(q, t, 0, idx);
    }
  }

  // ------------------------------------------------------------------------
  // The score
  // ------------------------------------------------------------------------

  /** Positions that directly follow the one before. */
  function Adjacent(idx: seq<nat>): nat {
    if |idx| < 2 then 0
    else Adjacent(idx[..|idx| - 1]) + if idx[|idx| - 1] == idx[|idx| - 2] + 1 then 1 else 0
  }

  /** The skipped positions between the first and the last. */
  function Skipped(idx: seq<nat>): int {
    if idx == [] then 0 else idx[|idx| - 1] - idx[0] - (|idx| - 1)
  }

  /** The score in closed form: the per-character gap penalties telescope. */
  function Score(idx: seq<nat>): int {
    SCORE_MATCH * |idx|
    + (if idx != [] && idx[0] == 0 then SCORE_FIRST_CHAR_BONUS else 0)
    + SCORE_CONSECUTIVE_BONUS * Adjacent(idx)
    - SCORE_GAP_PENALTY * Skipped(idx)
  }

  lemma {:induction false} AdjacentBounds(idx: seq<nat>)
    requires Increasing(idx) && idx != []
    ensures Adjacent(idx) <= |idx| - 1
    ensures 0 <= Skipped(idx)
    ensures Skipped(idx) == 0 <==> Adjacent(idx) == |idx| - 1
  {
    if |idx| == 1 {
    } else {
      AdjacentBounds(idx[..|idx| - 1]);
    }
  }

  /** The score of a match of n units in a target of length m lies between 17n - m and 28n - 4. */
  lemma ScoreBounds(q: JsString, t: JsString, idx: seq<nat>)
    requires Embeds(q, t, idx) && q != []
    ensures 17 * |q| - |t| <= Score(idx) <= 28 * |q| - 4
  {
    AdjacentBounds(idx);
  }

  lemma {:induction false} IncreasingGrowth(idx: seq<nat>, m: nat, n: nat)
    requires Increasing(idx) && m <= n < |idx|
    ensures idx[m] + (n - m) <= idx[n]
    decreases n
  {
    if m == n {
    } else {
      IncreasingGrowth(idx, m, n - 1);
    }
  }

  /** Nothing scores higher than a run of consecutive units at the very start, and only that scores as high. */
  lemma BestScoreIsPrefix(q: JsString, t: JsString, idx: seq<nat>)
    requires Embeds(q, t, idx) && q != []
    ensures Score(idx) == 28 * |q| - 4 <==> q <= t && forall k | 0 <= k < |idx| :: idx[k] == k
  {
    AdjacentBounds(idx);
    if Score(idx) == 28 * |q| - 4 {
      assert idx[0] == 0 && Skipped(idx) == 0;
      forall k | 0 <= k < |idx| ensures idx[k] == k {
        IncreasingGrowth(idx, 0, k);
        IncreasingGrowth(idx, k, |idx| - 1);
      }
      assert q == t[..|q|];
    }
    if forall k | 0 <= k < |idx| :: idx[k] == k {
      assert idx[0] == 0 && idx[|idx| - 1] == |idx| - 1;
    }
  }

  lemma ScorePositive(q: JsString, t: JsString, idx: seq<nat>)
    requires Embeds(q, t, idx) && q != [] && (|q| == 1 || |t| <= 17 * |q|)
    ensures Score(idx) > 0
  {
    var last := |idx| - 1;
    assert idx[last] < |t|;
  }

  /** Another code unit. */
  function Other(c: CodeUnit): (r: CodeUnit)
    ensures r != c
  {
    if c == 0 then 1 else 0
  }

  /** The targets that match worst: no unit of q first or next to another, and the last one at the very end. */
  function Sparse(q: JsString, length: nat): (t: JsString)
    requires |q| >= 2 && length > 2 * |q|
    ensures |t| == length
  {
    seq(length, i requires 0 <= i < length =>
      if i == length - 1 then q[|q| - 1]
      else if i >= 2 * |q| - 2 then Other(q[|q| - 1])
      else if i % 2 == 1 then q[i / 2]
      else Other(q[i / 2]))
  }

  function SparseIndexes(n: nat, length: nat): (idx: seq<nat>)
    requires n >= 2 && length > 2 * n
    ensures |idx| == n
  {
    seq(n, k requires 0 <= k < n => if k == n - 1 then length - 1 else 2 * k + 1)
  }

  /** Between two of its positions a sparse target has nothing the query is looking for. */
  lemma SparseGap(q: JsString, length: nat, k: nat, i: nat)
    requires |q| >= 2 && length > 2 * |q| && k < |q|
    requires (k > 0 ==> SparseIndexes(|q|, length)[k - 1] < i) && i < SparseIndexes(|q|, length)[k]
    ensures Sparse(q, length)[i] != q[k]
  {
    if k < |q| - 1 {
      assert i == 2 * k;
    } else {
      assert i >= 2 * |q| - 2 && i != length - 1;
      assert Sparse(q, length)[i] == Other(q[k]);
    }
  }

  /** So the scan has no choice. */
  lemma {:induction false} OnlyEmbedding(q: JsString, length: nat, found: seq<nat>, k: nat)
    requires |q| >= 2 && length > 2 * |q| && k < |q|
    requires Embeds(q, Sparse(q, length), found)
    requires forall j | 0 <= j < |q| :: found[j] <= SparseIndexes(|q|, length)[j]
    ensures found[k] == SparseIndexes(|q|, length)[k]
    decreases k
  {
    if k > 0 {
      OnlyEmbedding(q, length, found, k - 1);
    }
    if found[k] < SparseIndexes(|q|, length)[k] {
      SparseGap(q, length, k, found[k]);
    }
  }

  lemma {:induction false} NoneAdjacent(idx: seq<nat>)
    requires forall m | 0 < m < |idx| :: idx[m] != idx[m - 1] + 1
    ensures Adjacent(idx) == 0
  {
    if |idx| < 2 {
    } else {
      NoneAdjacent(idx[..|idx| - 1]);
    }
  }

  lemma SparseSpells(q: JsString, length: nat, k: nat)
    requires |q| >= 2 && length > 2 * |q| && k < |q|
    ensures var i := SparseIndexes(|q|, length)[k]; i < length && Sparse(q, length)[i] == q[k]
  {
    if k < |q| - 1 {
      assert (2 * k + 1) / 2 == k && (2 * k + 1) % 2 == 1;
    }
  }

  lemma SparseEmbeds(q: JsString, length: nat)
    requires |q| >= 2 && length > 2 * |q|
    ensures Embeds(q, Sparse(q, length), SparseIndexes(|q|, length))
  {
    forall k | 0 <= k < |q|
      ensures SparseIndexes(|q|, length)[k] < length && Sparse(q, length)[SparseIndexes(|q|, length)[k]] == q[k]
    {
      SparseSpells(q, length, k);
    }
  }

  lemma SparseIndexesScore(n: nat, length: nat)
    requires n >= 2 && length > 2 * n
    ensures Score(SparseIndexes(n, length)) == 17 * n + 1 - length
  {
    NoneAdjacent(SparseIndexes(n, length));
  }

  lemma SparseScore(q: JsString, length: nat)
    requires |q| >= 2 && length > 2 * |q|
    ensures Leftmost(q, Sparse(q, length), 0).Some?
    ensures Score(Leftmost(q, Sparse(q, length), 0).value) == 17 * |q| + 1 - length
  {
    var t, idx := Sparse(q, length), SparseIndexes(|q|, length);
    SparseEmbeds(q, length);
    LeftmostIsLeast(q, t, 0, idx);
    LeftmostEmbeds(q, t, 0);
    var found := Leftmost(q, t, 0).value;
    forall k | 0 <= k < |q| ensures found[k] == idx[k] {
      OnlyEmbedding(q, length, found, k);
    }
    assert found == idx;
    SparseIndexesScore(|q|, length);
  }

  /**
   A match's score need not be positive. It is, in every target of this length,
   exactly for one-unit queries and for targets no longer than 17 units a query unit.
   */
  lemma PositiveExact(q: JsString, length: nat)
    requires q != []
    ensures (forall t: JsString | |t| == length && Leftmost(q, t, 0).Some? :: Score(Leftmost(q, t, 0).value) > 0)
       <==> |q| == 1 || length <= 17 * |q|
  {
    if |q| == 1 || length <= 17 * |q| {
      forall t: JsString | |t| == length && Leftmost(q, t, 0).Some? ensures Score(Leftmost(q, t, 0).value) > 0 {
        LeftmostEmbeds(q, t, 0);
        ScorePositive(q, t, Leftmost(q, t, 0).value);
      }
    } else {
      SparseScore(q, length);
      assert |Sparse(q, length)| == length;
    }
  }

  // ------------------------------------------------------------------------
  // fuzzyMatch
  // ------------------------------------------------------------------------

  function MatchOf(query: JsString, target: JsString, lower: JsString -> JsString): Option<FuzzyMatch> {
    if query == [] then Some(FuzzyMatch(1, []))
    else if target == [] then None
    else
      var idx := Leftmost(lower(query), lower(target), 0);
      if idx.None? then None else Some(FuzzyMatch(Score(idx.value), idx.value))
  }

  /** The k-th position is next to the one before. */
  predicate Follows(idx: seq<nat>, k: nat) {
    0 < k < |idx| && idx[k] == idx[k - 1] + 1
  }

  lemma {:induction false} AdjacentCount(idx: seq<nat>)
    ensures Adjacent(idx) == |set k | 0 < k < |idx| && Follows(idx, k)|
  {
    var runs := set k | 0 < k < |idx| && Follows(idx, k);
    if |idx| < 2 {
      assert runs == {};
    } else {
      var last, init := |idx| - 1, idx[..|idx| - 1];
      var before := set k | 0 < k < |init| && Follows(init, k);
      AdjacentCount(init);
      if idx[last] == idx[last - 1] + 1 {
        assert runs == before + {last};
      } else {
        assert runs == before;
      }
    }
  }

  /** 16 for each unit, 8 if the first is at the start, 12 for each next to the one before, less what is skipped. */
  lemma ScoreExact(idx: seq<nat>)
    ensures Score(idx) ==
      16 * |idx|
      + (if idx != [] && idx[0] == 0 then 8 else 0)
      + 12 * |set k | 0 < k < |idx| && Follows(idx, k)|
      - if idx == [] then 0 else idx[|idx| - 1] - idx[0] - (|idx| - 1)
  {
    AdjacentCount(idx);
  }

  /**
   What a match means: an empty query matches everything with score one, an empty target
   nothing else. Otherwise there is a match exactly when the folded query is a subsequence
   of the folded target, its indexes are the pointwise least positions that spell the
   query, and its score is theirs and within bounds.
   */
  lemma MatchExact(query: JsString, target: JsString, lower: JsString -> JsString)
    ensures query == [] ==> MatchOf(query, target, lower) == Some(FuzzyMatch(1, []))
    ensures query != [] && target == [] ==> MatchOf(query, target, lower) == None
    ensures query != [] && target != [] ==>
      var q, t, r := lower(query), lower(target), MatchOf(query, target, lower);
      && (r.Some? <==> IsSubsequence(q, t))
      && (r.Some? ==>
            && Embeds(q, t, r.value.matchIndexes)
            && (forall idx, k | Embeds(q, t, idx) && 0 <= k < |q| :: r.value.matchIndexes[k] <= idx[k])
            && r.value.score == Score(r.value.matchIndexes)
            && (q != [] ==> 17 * |q| - |t| <= r.value.score <= 28 * |q| - 4))
  {
    if query != [] && target != [] {
      var q, t := lower(query), lower(target);
      LeftmostExact(q, t);
      if Leftmost(q, t, 0).Some? && q != [] {
        ScoreBounds(q, t, Leftmost(q, t, 0).value);
      }
    }
  }

  lemma ScoreStep(idx: seq<nat>, ti: nat)
    requires idx != [] ==> idx[|idx| - 1] < ti
    ensures Score(idx + [ti]) == Score(idx) + SCORE_MATCH
      + (if idx == [] then (if ti == 0 then SCORE_FIRST_CHAR_BONUS else 0)
         else if ti == idx[|idx| - 1] + 1 then SCORE_CONSECUTIVE_BONUS
         else -(ti - idx[|idx| - 1] - 1) * SCORE_GAP_PENALTY)
  {
    var next := idx + [ti];
    assert next[..|next| - 1] == idx;
  }

  /** The scan: one pass over the folded target, with the score kept as it goes. */
  method Match(query: JsString, target: JsString, lower: JsString -> JsString) returns (r: Option<FuzzyMatch>)
    ensures r == MatchOf(query, target, lower)
  {
    if query == [] {
      return Some(FuzzyMatch(1, []));
    }
    if target == [] {
      return None;
    }
    var q, t := lower(query), lower(target);
    var qi, score, lastMatchIdx := 0, 0, -2;
    var matchIndexes: seq<nat> := [];
    var ti := 0;
    assert q[0..] == q && forall rest: seq<nat> :: [] + rest == rest;
    while ti < |t| && qi < |q|
      invariant 0 <= ti <= |t| && 0 <= qi <= |q| && |matchIndexes| == qi
      invariant lastMatchIdx == if qi == 0 then -2 else matchIndexes[qi - 1]
      invariant lastMatchIdx < ti
      invariant score == Score(matchIndexes)
      invariant var rest := Leftmost(q[qi..], t, ti);
        Leftmost(q, t, 0) == if rest.None? then None else Some(matchIndexes + rest.value)
      decreases |t| - ti
    {
      if t[ti] == q[qi] {
        var charScore := SCORE_MATCH;
        if ti == 0 {
          charScore := charScore + SCORE_FIRST_CHAR_BONUS;
        }
        if ti == lastMatchIdx + 1 {
          charScore := charScore + SCORE_CONSECUTIVE_BONUS;
        }
        if lastMatchIdx >= 0 && ti > lastMatchIdx + 1 {
          var gap := ti - lastMatchIdx - 1;
          charScore := charScore - gap * SCORE_GAP_PENALTY;
        }
        ScoreStep(matchIndexes, ti);
        assert q[qi..][1..] == q[qi + 1..];
        assert forall rest: seq<nat> :: matchIndexes + ([ti] + rest) == (matchIndexes + [ti]) + rest;
        score := score + charScore;
        matchIndexes := matchIndexes + [ti];
        lastMatchIdx := ti;
        qi := qi + 1;
      }
      ti := ti + 1;
    }
    if qi < |q| {
      return None;
    }
    assert q[qi..] == [] && matchIndexes + [] == matchIndexes;
    return Some(FuzzyMatch(score, matchIndexes));
  }

  // ------------------------------------------------------------------------
  // fuzzyFilter
  // ------------------------------------------------------------------------

  datatype Scored<T> = Scored(item: T, score: int)

  /** A call whose match scores zero or less, for any folding that leaves the sparse target alone. */
  lemma NonPositiveCall(query: JsString, length: nat, lower: JsString -> JsString)
    requires |lower(query)| >= 2 && length > 17 * |lower(query)|
    requires lower(Sparse(lower(query), length)) == Sparse(lower(query), length)
    ensures var m := MatchOf(query, Sparse(lower(query), length), lower);
      query != [] ==> m.Some? && m.value.score == 17 * |lower(query)| + 1 - length <= 0
  {
    SparseScore(lower(query), length);
  }

  /** Case folding of ASCII letters. */
  function AsciiLower(s: JsString): (r: JsString)
    ensures |r| == |s|
  {
    seq(|s|, n requires 0 <= n < |s| => if 0x41 <= s[n] <= 0x5A then s[n] + 0x20 else s[n])
  }

  /** "AB" matches a target of 35 units with score zero. */
  lemma ZeroScoreCall()
    ensures var target := Sparse([0x61, 0x62], 35);
      MatchOf([0x41, 0x42], target, AsciiLower).Some? && MatchOf([0x41, 0x42], target, AsciiLower).value.score == 0
  {
    var q: JsString := [0x61, 0x62];
    assert AsciiLower([0x41, 0x42]) == q;
    assert AsciiLower(Sparse(q, 35)) == Sparse(q, 35);
    NonPositiveCall([0x41, 0x42], 35, AsciiLower);
  }

  /** The matching items with their scores, in input order. */
  function Candidates<T>(
      items: seq<T>, query: JsString, getText: T -> JsString, lower: JsString -> JsString): seq<Scored<T>>
  {
    if items == [] then []
    else
      var last := items[|items| - 1];
      var m := MatchOf(query, getText(last), lower);
      Candidates(items[..|items| - 1], query, getText, lower) + if m.Some? then [Scored(last, m.value.score)] else []
  }

  function Insert<T>(x: Scored<T>, sorted: seq<Scored<T>>): seq<Scored<T>> {
    if sorted == [] || sorted[0].score <= x.score then [x] + sorted
    else [sorted[0]] + Insert(x, sorted[1..])
  }

  /** A stable sort by descending score, which is what `sort` with this comparator is defined to be. */
  function StableSort<T>(s: seq<Scored<T>>): seq<Scored<T>> {
    if s == [] then [] else Insert(s[0], StableSort(s[1..]))
  }

  ghost predicate Descending<T>(s: seq<Scored<T>>) {
    forall m, n | 0 <= m < n < |s| :: s[m].score >= s[n].score
  }

  /** The entries with this score, in order. */
  function WithScore<T>(s: seq<Scored<T>>, v: int): seq<Scored<T>> {
    if s == [] then []
    else (if s[0].score == v then [s[0]] else []) + WithScore(s[1..], v)
  }

  /** A reordering that changes nothing among entries of equal score. */
  ghost predicate StableReordering<T>(s: seq<Scored<T>>, r: seq<Scored<T>>) {
    forall v :: WithScore(r, v) == WithScore(s, v)
  }

  lemma {:induction false} InsertElements<T>(x: Scored<T>, sorted: seq<Scored<T>>)
    ensures forall n | 0 <= n < |Insert(x, sorted)| :: Insert(x, sorted)[n] == x || Insert(x, sorted)[n] in sorted
  {
    if sorted == [] || sorted[0].score <= x.score {
    } else {
      InsertElements(x, sorted[1..]);
    }
  }

  lemma {:induction false} InsertDescending<T>(x: Scored<T>, sorted: seq<Scored<T>>)
    requires Descending(sorted)
    ensures Descending(Insert(x, sorted))
  {
    if sorted == [] || sorted[0].score <= x.score {
    } else {
      InsertDescending(x, sorted[1..]);
      InsertElements(x, sorted[1..]);
      var rest := Insert(x, sorted[1..]);
      forall n | 0 <= n < |rest| ensures rest[n].score <= sorted[0].score {
        assert rest[n] == x || rest[n] in sorted[1..];
      }
    }
  }

  lemma SwapFronts<T>(a: seq<T>, b: seq<T>, rest: seq<T>)
    requires a == [] || b == []
    ensures a + (b + rest) == b + (a + rest)
  {
  }

  lemma {:induction false} InsertKeepsOrder<T>(x: Scored<T>, sorted: seq<Scored<T>>, v: int)
    requires Descending(sorted)
    ensures WithScore(Insert(x, sorted), v) == (if x.score == v then [x] else []) + WithScore(sorted, v)
  {
    if sorted == [] || sorted[0].score <= x.score {
      assert ([x] + sorted)[1..] == sorted;
    } else {
      var y, rest := sorted[0], sorted[1..];
      InsertKeepsOrder(x, rest, v);
      assert ([y] + Insert(x, rest))[1..] == Insert(x, rest);
      SwapFronts(if x.score == v then [x] else [], if y.score == v then [y] else [], WithScore(rest, v));
    }
  }

  lemma {:induction false} StableSortCorrect<T>(s: seq<Scored<T>>)
    ensures Descending(StableSort(s)) && StableReordering(s, StableSort(s))
  {
    if s == [] {
    } else {
      StableSortCorrect(s[1..]);
      InsertDescending(s[0], StableSort(s[1..]));
      forall v ensures WithScore(StableSort(s), v) == WithScore(s, v) {
        InsertKeepsOrder(s[0], StableSort(s[1..]), v);
      }
    }
  }

  lemma {:induction false} WithScoreMember<T>(s: seq<Scored<T>>, v: int, y: Scored<T>)
    ensures y in WithScore(s, v) <==> y in s && y.score == v
  {
    if s == [] {
    } else {
      WithScoreMember(s[1..], v, y);
    }
  }

  /** There is only one descending stable reordering, so any stable sort gives the same list. */
  lemma {:induction false} StableSortUnique<T>(a: seq<Scored<T>>, b: seq<Scored<T>>)
    requires Descending(a) && Descending(b) && StableReordering(a, b)
    ensures a == b
  {
    if a != [] {
      WithScoreMember(a, a[0].score, a[0]);
      WithScoreMember(b, a[0].score, a[0]);
      assert a[0] in b;
    }
    if b != [] {
      WithScoreMember(b, b[0].score, b[0]);
      WithScoreMember(a, b[0].score, b[0]);
      assert b[0] in a;
    }
    if a != [] && b != [] {
      var va, vb := a[0].score, b[0].score;
      assert va == vb;
      assert WithScore(a, va)[0] == a[0] && WithScore(b, va)[0] == b[0];
      forall v ensures WithScore(b[1..], v) == WithScore(a[1..], v) {
        assert WithScore(b, v) == WithScore(a, v);
        if v == va {
          assert WithScore(a, v) == [a[0]] + WithScore(a[1..], v);
          assert WithScore(b, v) == [b[0]] + WithScore(b[1..], v);
          assert WithScore(a, v)[1..] == WithScore(a[1..], v) && WithScore(b, v)[1..] == WithScore(b[1..], v);
        } else {
          assert WithScore(a, v) == [] + WithScore(a[1..], v) == WithScore(a[1..], v);
          assert WithScore(b, v) == [] + WithScore(b[1..], v) == WithScore(b[1..], v);
        }
      }
      StableSortUnique(a[1..], b[1..]);
      assert a == [a[0]] + a[1..] && b == [b[0]] + b[1..];
    }
  }

  function ItemsOf<T>(s: seq<Scored<T>>): (r: seq<T>)
    ensures |r| == |s|
    ensures forall n | 0 <= n < |s| :: r[n] == s[n].item
  {
    seq(|s|, n requires 0 <= n < |s| => s[n].item)
  }

  // ------------------------------------------------------------------------
  // What the filter returns
  // ------------------------------------------------------------------------

  /** The score of an item that matches. */
  ghost predicate Scores<T>(
      items: seq<T>, query: JsString, getText: T -> JsString, lower: JsString -> JsString, n: nat, score: int)
  {
    && n < |items|
    && MatchOf(query, getText(items[n]), lower).Some?
    && MatchOf(query, getText(items[n]), lower).value.score == score
  }

  /** The first comes before the second: a higher score, or the same score earlier in the input. */
  predicate Outranks(a: Scored<nat>, b: Scored<nat>) {
    a.score > b.score || (a.score == b.score && a.item < b.item)
  }

  ghost predicate InRank(ranking: seq<Scored<nat>>) {
    forall i, j | 0 <= i < j < |ranking| :: Outranks(ranking[i], ranking[j])
  }

  /**
   The ranking of a filter: the positions of exactly the matching items, each with its
   item's own score, every one before those it outranks; and the result lists those items.
   */
  ghost predicate Ranks<T>(
      items: seq<T>, query: JsString, getText: T -> JsString, lower: JsString -> JsString,
      ranking: seq<Scored<nat>>, r: seq<T>)
  {
    && InRank(ranking)
    && (forall i | 0 <= i < |ranking| :: Scores(items, query, getText, lower, ranking[i].item, ranking[i].score))
    && (forall n | 0 <= n < |items| && MatchOf(query, getText(items[n]), lower).Some? ::
          exists i :: 0 <= i < |ranking| && ranking[i].item == n)
    && |r| == |ranking|
    && forall i | 0 <= i < |r| :: ranking[i].item < |items| && r[i] == items[ranking[i].item]
  }

  /** The candidates by position. */
  function Hits<T>(
      items: seq<T>, query: JsString, getText: T -> JsString, lower: JsString -> JsString): seq<Scored<nat>>
  {
    if items == [] then []
    else
      var last := |items| - 1;
      var m := MatchOf(query, getText(items[last]), lower);
      Hits(items[..last], query, getText, lower) + if m.Some? then [Scored(last, m.value.score)] else []
  }

  ghost predicate Rising(hits: seq<Scored<nat>>, bound: nat) {
    && (forall i | 0 <= i < |hits| :: hits[i].item < bound)
    && (forall i, j | 0 <= i < j < |hits| :: hits[i].item < hits[j].item)
  }

  lemma {:induction false} HitsExact<T>(
      items: seq<T>, query: JsString, getText: T -> JsString, lower: JsString -> JsString)
    ensures Rising(Hits(items, query, getText, lower), |items|)
    ensures forall n: nat, score :: Scored(n, score) in Hits(items, query, getText, lower) <==>
                                    Scores(items, query, getText, lower, n, score)
  {
    if items == [] {
    } else {
      var init, last := items[..|items| - 1], |items| - 1;
      HitsExact(init, query, getText, lower);
      forall n: nat, score
        ensures Scored(n, score) in Hits(items, query, getText, lower) <==>
                Scores(items, query, getText, lower, n, score)
      {
        assert n < last ==> init[n] == items[n];
        assert Scored(n, score) in Hits(init, query, getText, lower) <==> Scores(init, query, getText, lower, n, score);
      }
    }
  }

  /** The entries whose positions are replaced by the items there. */
  function AtPositions<T>(hits: seq<Scored<nat>>, items: seq<T>): (r: seq<Scored<T>>)
    requires forall i | 0 <= i < |hits| :: hits[i].item < |items|
    ensures |r| == |hits|
    ensures forall i | 0 <= i < |hits| :: r[i] == Scored(items[hits[i].item], hits[i].score)
  {
    seq(|hits|, i requires 0 <= i < |hits| => Scored(items[hits[i].item], hits[i].score))
  }

  lemma AtPositionsPush<T>(hits: seq<Scored<nat>>, init: seq<T>, item: T, score: Option<int>)
    requires forall i | 0 <= i < |hits| :: hits[i].item < |init|
    ensures var more := if score.Some? then [Scored(|init|, score.value)] else [];
      && (forall i | 0 <= i < |hits + more| :: (hits + more)[i].item < |init + [item]|)
      && AtPositions(hits + more, init + [item]) ==
           AtPositions(hits, init) + if score.Some? then [Scored(item, score.value)] else []
  {
  }

  lemma {:induction false} CandidatesAtHits<T>(
      items: seq<T>, query: JsString, getText: T -> JsString, lower: JsString -> JsString)
    ensures forall i | 0 <= i < |Hits(items, query, getText, lower)| ::
              Hits(items, query, getText, lower)[i].item < |items|
    ensures Candidates(items, query, getText, lower) == AtPositions(Hits(items, query, getText, lower), items)
  {
    if items == [] {
    } else {
      var init, last := items[..|items| - 1], items[|items| - 1];
      CandidatesAtHits(init, query, getText, lower);
      var score := match MatchOf(query, getText(last), lower) { case None => None case Some(m) => Some(m.score) };
      AtPositionsPush(Hits(init, query, getText, lower), init, last, score);
      assert items == init + [last];
    }
  }

  lemma AtPositionsCons<T>(x: Scored<nat>, rest: seq<Scored<nat>>, items: seq<T>)
    requires x.item < |items| && forall i | 0 <= i < |rest| :: rest[i].item < |items|
    ensures forall i | 0 <= i < |[x] + rest| :: ([x] + rest)[i].item < |items|
    ensures AtPositions([x] + rest, items) == [Scored(items[x.item], x.score)] + AtPositions(rest, items)
    ensures AtPositions([x] + rest, items)[1..] == AtPositions(rest, items)
  {
  }

  /** Sorting looks at nothing but the scores. */
  lemma {:induction false} InsertMembers(x: Scored<nat>, sorted: seq<Scored<nat>>)
    ensures forall e :: e in Insert(x, sorted) <==> e == x || e in sorted
  {
    if sorted == [] || sorted[0].score <= x.score {
    } else {
      InsertMembers(x, sorted[1..]);
      assert sorted == [sorted[0]] + sorted[1..];
    }
  }

  lemma InsertWithin(x: Scored<nat>, hits: seq<Scored<nat>>, bound: nat)
    requires x.item < bound && forall i | 0 <= i < |hits| :: hits[i].item < bound
    ensures forall i | 0 <= i < |Insert(x, hits)| :: Insert(x, hits)[i].item < bound
  {
    InsertElements(x, hits);
  }

  lemma {:induction false} InsertAtPositions<T>(x: Scored<nat>, hits: seq<Scored<nat>>, items: seq<T>)
    requires x.item < |items| && forall i | 0 <= i < |hits| :: hits[i].item < |items|
    ensures forall i | 0 <= i < |Insert(x, hits)| :: Insert(x, hits)[i].item < |items|
    ensures Insert(Scored(items[x.item], x.score), AtPositions(hits, items)) == AtPositions(Insert(x, hits), items)
  {
    InsertWithin(x, hits, |items|);
    if hits == [] || hits[0].score <= x.score {
      AtPositionsCons(x, hits, items);
    } else {
      var first, rest := hits[0], hits[1..];
      assert hits == [first] + rest;
      InsertAtPositions(x, rest, items);
      AtPositionsCons(first, rest, items);
      AtPositionsCons(first, Insert(x, rest), items);
    }
  }

  lemma {:induction false} SortAtPositions<T>(hits: seq<Scored<nat>>, items: seq<T>)
    requires forall i | 0 <= i < |hits| :: hits[i].item < |items|
    ensures forall i | 0 <= i < |StableSort(hits)| :: StableSort(hits)[i].item < |items|
    ensures StableSort(AtPositions(hits, items)) == AtPositions(StableSort(hits), items)
  {
    if hits == [] {
    } else {
      SortAtPositions(hits[1..], items);
      AtPositionsCons(hits[0], hits[1..], items);
      assert hits == [hits[0]] + hits[1..];
      InsertAtPositions(hits[0], StableSort(hits[1..]), items);
    }
  }

  /** An entry earlier than all others goes before those with its score. */
  lemma {:induction false} InsertInRank(x: Scored<nat>, sorted: seq<Scored<nat>>)
    requires InRank(sorted) && forall i | 0 <= i < |sorted| :: x.item < sorted[i].item
    ensures InRank(Insert(x, sorted))
  {
    if sorted == [] {
    } else if sorted[0].score <= x.score {
      forall i | 0 <= i < |sorted| ensures Outranks(x, sorted[i]) {
        assert i > 0 ==> Outranks(sorted[0], sorted[i]);
      }
    } else {
      var rest := Insert(x, sorted[1..]);
      InsertInRank(x, sorted[1..]);
      InsertMembers(x, sorted[1..]);
      forall i | 0 <= i < |rest| ensures Outranks(sorted[0], rest[i]) {
        if rest[i] != x {
          assert rest[i] in sorted[1..];
          var j :| 0 <= j < |sorted[1..]| && sorted[1..][j] == rest[i];
          assert Outranks(sorted[0], sorted[j + 1]);
        }
      }
    }
  }

  lemma {:induction false} SortInRank(hits: seq<Scored<nat>>, bound: nat)
    requires Rising(hits, bound)
    ensures InRank(StableSort(hits)) && forall e :: e in StableSort(hits) <==> e in hits
  {
    if hits == [] {
    } else {
      var sorted := StableSort(hits[1..]);
      SortInRank(hits[1..], bound);
      InsertMembers(hits[0], sorted);
      forall i | 0 <= i < |sorted| ensures hits[0].item < sorted[i].item {
        assert sorted[i] in hits[1..];
        var j :| 0 <= j < |hits[1..]| && hits[1..][j] == sorted[i];
        assert hits[j + 1] == sorted[i];
      }
      InsertInRank(hits[0], sorted);
      assert hits == [hits[0]] + hits[1..];
    }
  }

  /** Sorting the candidates ranks the items. */
  lemma SortRanks<T>(
      items: seq<T>, query: JsString, getText: T -> JsString, lower: JsString -> JsString)
      returns (ranking: seq<Scored<nat>>)
    ensures Ranks(items, query, getText, lower, ranking, ItemsOf(StableSort(Candidates(items, query, getText, lower))))
  {
    var hits := Hits(items, query, getText, lower);
    ranking := StableSort(hits);
    CandidatesAtHits(items, query, getText, lower);
    HitsExact(items, query, getText, lower);
    SortInRank(hits, |items|);
    SortAtPositions(hits, items);
    forall i | 0 <= i < |ranking| ensures Scores(items, query, getText, lower, ranking[i].item, ranking[i].score) {
      assert ranking[i] in hits && ranking[i] == Scored(ranking[i].item, ranking[i].score);
    }
    forall n | 0 <= n < |items| && MatchOf(query, getText(items[n]), lower).Some?
      ensures exists i :: 0 <= i < |ranking| && ranking[i].item == n
    {
      var score := MatchOf(query, getText(items[n]), lower).value.score;
      assert Scores(items, query, getText, lower, n, score);
      assert Scored(n, score) in ranking;
    }
  }

  /** An empty query keeps the input; any other ranks the matching items. */
  method Filter<T>(items: seq<T>, query: JsString, getText: T -> JsString, lower: JsString -> JsString)
      returns (r: seq<T>)
    ensures query == [] ==> r == items
    ensures query != [] ==> exists ranking :: Ranks(items, query, getText, lower, ranking, r)
  {
    if query == [] {
      return items;
    }
    var scored: seq<Scored<T>> := [];
    for k := 0 to |items|
      invariant scored == Candidates(items[..k], query, getText, lower)
    {
      assert items[..k + 1][..k] == items[..k];
      var m := Match(query, getText(items[k]), lower);
      if m.Some? {
        scored := scored + [Scored(items[k], m.value.score)];
      }
    }
    assert items[..|items|] == items;
    var sorted := StableSort(scored);
    r := ItemsOf(sorted);
    ghost var ranking := SortRanks(items, query, getText, lower);
  }
}
