/**
 Cache keys and their serialized form: a tag and the fields, separated by NUL.
 Whole-profile invalidation searches that form for the profile's name.
 */
module CacheKeys {
  import opened Wrappers
  import opened Substrings

  const NUL: char := '\0'

  function OrEmpty(s: Option<string>): string {
    if s.Some? then s.value else ""
  }

  predicate NulFree(s: string) {
    NUL !in s
  }

  datatype CacheKey =
    | Buckets(profile: string)
    | Objects(profile: string, bucket: string, prefix: string)
    | ObjectHead(profile: string, bucket: string, key: string)
    | Inspector(profile: string, bucket: string, objectKey: Option<string>)
    | Capability(profile: string, bucketOpt: Option<string>, op: string)
  {
    function SerializeKey(): string {
      match this
      case Buckets(pid) => "buckets" + [NUL] + pid
      case Objects(profile, bucket, prefix) => "objects" + [NUL] + profile + [NUL] + bucket + [NUL] + prefix
      case ObjectHead(profile, bucket, key) => "object_head" + [NUL] + profile + [NUL] + bucket + [NUL] + key
      case Inspector(profile, bucket, key) => "inspector" + [NUL] + profile + [NUL] + bucket + [NUL] + OrEmpty(key)
      case Capability(profile, bucket, op) => "capability" + [NUL] + profile + [NUL] + OrEmpty(bucket) + [NUL] + op
    }

    /** The variant's tag. */
    function Tag(): string {
      match this
      case Buckets(_) => "buckets"
      case Objects(_, _, _) => "objects"
      case ObjectHead(_, _, _) => "object_head"
      case Inspector(_, _, _) => "inspector"
      case Capability(_, _, _) => "capability"
    }

    /** The fields after the tag: the profile first, then for most variants a bucket and a last field. */
    function Fields(): (fields: seq<string>)
      ensures fields != [] && fields[0] == profile
    {
      match this
      case Buckets(pid) => [pid]
      case Objects(profile, bucket, prefix) => [profile, bucket, prefix]
      case ObjectHead(profile, bucket, key) => [profile, bucket, key]
      case Inspector(profile, bucket, key) => [profile, bucket, OrEmpty(key)]
      case Capability(profile, bucket, op) => [profile, OrEmpty(bucket), op]
    }

    /** The key with an absent optional field replaced by an empty one. */
    function Normal(): CacheKey {
      match this
      case Inspector(profile, bucket, key) => Inspector(profile, bucket, Some(OrEmpty(key)))
      case Capability(profile, bucket, op) => Capability(profile, Some(OrEmpty(bucket)), op)
      case _ => this
    }

    /** The same variant with other fields. */
    function WithFields(profile: string, bucket: string, last: string): (k: CacheKey)
      requires !Buckets?
      ensures k.Tag() == Tag() && k.Fields() == [profile, bucket, last]
    {
      match this
      case Objects(_, _, _) => Objects(profile, bucket, last)
      case ObjectHead(_, _, _) => ObjectHead(profile, bucket, last)
      case Inspector(_, _, _) => Inspector(profile, bucket, Some(last))
      case Capability(_, _, _) => Capability(profile, Some(bucket), last)
    }

    ghost predicate NulFreeFields() {
      forall f | f in Fields() :: NulFree(f)
    }
  }

  // ------------------------------------------------------------------------
  // NUL-separated lists
  // ------------------------------------------------------------------------

  /** Every part preceded by a NUL. */
  function Tail(parts: seq<string>): string {
    if parts == [] then "" else [NUL] + parts[0] + Tail(parts[1..])
  }

  lemma TailCons(x: string, rest: seq<string>)
    ensures Tail([x] + rest) == [NUL] + x + Tail(rest)
  {
    assert ([x] + rest)[1..] == rest;
  }

  lemma TailOfOne(tag: string, x: string)
    ensures tag + Tail([x]) == tag + [NUL] + x
  {
    assert Tail([x]) == [NUL] + x + Tail([]);
  }

  lemma TailOfThree(tag: string, x: string, y: string, z: string)
    ensures tag + Tail([x, y, z]) == tag + [NUL] + x + [NUL] + y + [NUL] + z
  {
    assert [x, y, z][1..] == [y, z] && [y, z][1..] == [z];
    TailOfOne("", z);
    assert Tail([y, z]) == [NUL] + y + Tail([z]);
    assert Tail([x, y, z]) == [NUL] + x + Tail([y, z]);
  }

  lemma SerializeIsTail(k: CacheKey)
    ensures k.SerializeKey() == k.Tag() + Tail(k.Fields())
  {
    match k
    case Buckets(pid) => TailOfOne("buckets", pid);
    case Objects(profile, bucket, prefix) => TailOfThree("objects", profile, bucket, prefix);
    case ObjectHead(profile, bucket, key) => TailOfThree("object_head", profile, bucket, key);
    case Inspector(profile, bucket, key) => TailOfThree("inspector", profile, bucket, OrEmpty(key));
    case Capability(profile, bucket, op) => TailOfThree("capability", profile, OrEmpty(bucket), op);
  }

  /** An absent field leaves nothing between its separators. */
  lemma SerializeExamples()
    ensures Buckets("p").SerializeKey() == "buckets\0p"
    ensures Objects("p", "b", "x/").SerializeKey() == "objects\0p\0b\0x/"
    ensures ObjectHead("p", "b", "x/y").SerializeKey() == "object_head\0p\0b\0x/y"
    ensures Inspector("p", "b", None).SerializeKey() == "inspector\0p\0b\0"
    ensures Capability("p", None, "list").SerializeKey() == "capability\0p\0\0list"
  {
  }

  /** A NUL-free text followed by nothing or a NUL is determined by the whole. */
  lemma SplitAtNul(a: string, x: string, b: string, y: string)
    requires NulFree(a) && NulFree(b) && a + x == b + y
    requires (x == "" || x[0] == NUL) && (y == "" || y[0] == NUL)
    ensures a == b && x == y
  {
    assert x != "" ==> (a + x)[|a|] == NUL;
    assert y != "" ==> (b + y)[|b|] == NUL;
    assert forall i | 0 <= i < |a| :: (a + x)[i] == a[i];
    assert forall i | 0 <= i < |b| :: (b + y)[i] == b[i];
    assert |a| == |b|;
    assert a == (a + x)[..|a|] && b == (b + y)[..|b|];
    assert x == (a + x)[|a|..] && y == (b + y)[|b|..];
  }

  /** A part with a NUL inside it can be cut there. */
  lemma CutPart(x: string, y: string, rest: seq<string>)
    ensures Tail([x + [NUL] + y] + rest) == Tail([x, y] + rest)
  {
    TailCons(x + [NUL] + y, rest);
    TailCons(y, rest);
    TailCons(x, [y] + rest);
    assert [x, y] + rest == [x] + ([y] + rest);
    assert [NUL] + (x + [NUL] + y) + Tail(rest) == [NUL] + x + ([NUL] + y + Tail(rest));
  }

  /** A text that agrees with a NUL-free one up to a NUL either is NUL-free too or goes on with a NUL. */
  lemma SplitOneSided(a: string, x: string, b: string, y: string) returns (rest: string)
    requires NulFree(a) && !NulFree(b) && a + x == b + y && (x == "" || x[0] == NUL)
    ensures b == a + [NUL] + rest && x == [NUL] + rest + y
  {
    assert forall i | 0 <= i < |a| :: (a + x)[i] == a[i];
    assert forall i | 0 <= i < |b| :: (b + y)[i] == b[i];
    assert |a| < |b|;
    assert x != "" && (a + x)[|a|] == NUL;
    rest := b[|a| + 1..];
    assert a == (a + x)[..|a|] == (b + y)[..|a|] == b[..|a|];
    assert b == b[..|a|] + [b[|a|]] + rest;
    assert x == (a + x)[|a|..] == (b + y)[|a|..] == b[|a|..] + y;
  }

  /** Among the lists with one text, the NUL-free one is the longest, and the only one of its length. */
  lemma {:induction false} NulFreeIsFinest(p: seq<string>, q: seq<string>)
    requires forall f | f in p :: NulFree(f)
    requires Tail(p) == Tail(q)
    ensures |q| <= |p| && (|q| == |p| ==> p == q)
    decreases |p|
  {
    if p == [] || q == [] {
    } else {
      var x, y := Tail(p[1..]), Tail(q[1..]);
      assert Tail(p)[1..] == p[0] + x && Tail(q)[1..] == q[0] + y;
      if NulFree(q[0]) {
        SplitAtNul(p[0], x, q[0], y);
        NulFreeIsFinest(p[1..], q[1..]);
        assert p == [p[0]] + p[1..] && q == [q[0]] + q[1..];
      } else {
        var rest := SplitOneSided(p[0], x, q[0], y);
        assert ([rest] + q[1..])[1..] == q[1..];
        NulFreeIsFinest(p[1..], [rest] + q[1..]);
      }
    }
  }

  lemma TagDecides(a: CacheKey, b: CacheKey)
    requires a.Tag() == b.Tag() && a.Fields() == b.Fields()
    ensures a.Normal() == b.Normal()
  {
    var f, g := a.Fields(), b.Fields();
    assert |f| == 3 ==> f[1] == g[1] && f[2] == g[2];
    assert |"objects"| == 7 && |"buckets"| == 7 && "objects"[0] != "buckets"[0];
    assert |"object_head"| == 11 && |"inspector"| == 9 && |"capability"| == 10;
  }

  /** Tag and fields together say the same as the key, up to absent versus empty. */
  lemma TagAndFields(a: CacheKey, b: CacheKey)
    ensures a.Normal() == b.Normal() <==> a.Tag() == b.Tag() && a.Fields() == b.Fields()
  {
    if a.Tag() == b.Tag() && a.Fields() == b.Fields() {
      TagDecides(a, b);
    }
  }

  lemma SameTagSameLength(a: CacheKey, b: CacheKey)
    requires a.Tag() == b.Tag()
    ensures a.Buckets? == b.Buckets? && |a.Fields()| == |b.Fields()| == if a.Buckets? then 1 else 3
  {
    assert |"objects"| == 7 && |"buckets"| == 7 && "objects"[0] != "buckets"[0];
    assert |"object_head"| == 11 && |"inspector"| == 9 && |"capability"| == 10;
  }

  lemma SameSerialization(tag: string, fields: seq<string>, tag': string, fields': seq<string>)
    requires NulFree(tag) && NulFree(tag') && fields != [] && fields' != []
    requires tag + Tail(fields) == tag' + Tail(fields')
    ensures tag == tag' && Tail(fields) == Tail(fields')
  {
    SplitAtNul(tag, Tail(fields), tag', Tail(fields'));
  }

  /** No other list of the same length has the text of a one-element list, or of a NUL-free one. */
  lemma SameTail(p: seq<string>, q: seq<string>)
    requires |p| == |q| && Tail(p) == Tail(q) && (|p| == 1 || forall f | f in p :: NulFree(f))
    ensures p == q
  {
    if |p| == 1 {
      assert p == [p[0]] && q == [q[0]];
      assert Tail(p)[1..] == p[0] && Tail(q)[1..] == q[0];
    } else {
      NulFreeIsFinest(p, q);
    }
  }

  lemma TagIsNulFree(k: CacheKey)
    ensures NulFree(k.Tag())
  {
  }

  lemma TailFormInjective(a: CacheKey, b: CacheKey)
    requires a.Buckets? || a.NulFreeFields()
    ensures a.Tag() + Tail(a.Fields()) == b.Tag() + Tail(b.Fields()) <==> a.Normal() == b.Normal()
  {
    TagAndFields(a, b);
    if a.Tag() + Tail(a.Fields()) == b.Tag() + Tail(b.Fields()) {
      TagIsNulFree(a);
      TagIsNulFree(b);
      SameSerialization(a.Tag(), a.Fields(), b.Tag(), b.Fields());
      SameTagSameLength(a, b);
      SameTail(a.Fields(), b.Fields());
    }
  }

  /**
   A bucket-list key, or a key with NUL-free fields, shares its serialized form with no
   key at all but itself, up to absent versus empty.
   */
  lemma SerializeInjective(a: CacheKey, b: CacheKey)
    requires a.Buckets? || a.NulFreeFields()
    ensures a.SerializeKey() == b.SerializeKey() <==> a.Normal() == b.Normal()
  {
    SerializeIsTail(a);
    SerializeIsTail(b);
    TailFormInjective(a, b);
  }

  /** Two different keys with one serialized form. */
  ghost predicate Collide(a: CacheKey, b: CacheKey) {
    a.Normal() != b.Normal() && a.SerializeKey() == b.SerializeKey()
  }

  lemma CutAtNul(s: string) returns (u: string, v: string)
    requires !NulFree(s)
    ensures s == u + [NUL] + v
  {
    var i :| 0 <= i < |s| && s[i] == NUL;
    u, v := s[..i], s[i + 1..];
  }

  lemma CutFirst(x: string, y: string, z: string, back: seq<string>)
    ensures Tail([x + [NUL] + y, z] + back) == Tail([x, y, z] + back)
  {
    CutPart(x, y, [z] + back);
    assert [x + [NUL] + y, z] + back == [x + [NUL] + y] + ([z] + back);
    assert [x, y, z] + back == [x, y] + ([z] + back);
  }

  lemma CutSecond(x: string, y: string, z: string, back: seq<string>)
    ensures Tail([x, y + [NUL] + z] + back) == Tail([x, y, z] + back)
  {
    CutPart(y, z, back);
    TailCons(x, [y + [NUL] + z] + back);
    TailCons(x, [y, z] + back);
    assert [x, y + [NUL] + z] + back == [x] + ([y + [NUL] + z] + back);
    assert [x, y, z] + back == [x] + ([y, z] + back);
  }

  /** Which of two neighbouring parts keeps the middle does not show in the text. */
  lemma {:induction false} ShiftSeparator(front: seq<string>, x: string, y: string, z: string, back: seq<string>)
    ensures Tail(front + [x + [NUL] + y, z] + back) == Tail(front + [x, y + [NUL] + z] + back)
  {
    if front == [] {
      CutFirst(x, y, z, back);
      CutSecond(x, y, z, back);
      assert front + [x + [NUL] + y, z] == [x + [NUL] + y, z];
      assert front + [x, y + [NUL] + z] == [x, y + [NUL] + z];
    } else {
      var f, rest := front[0], front[1..];
      ShiftSeparator(rest, x, y, z, back);
      TailCons(f, rest + [x + [NUL] + y, z] + back);
      TailCons(f, rest + [x, y + [NUL] + z] + back);
      assert front + [x + [NUL] + y, z] + back == [f] + (rest + [x + [NUL] + y, z] + back);
      assert front + [x, y + [NUL] + z] + back == [f] + (rest + [x, y + [NUL] + z] + back);
    }
  }

  /** A NUL in a field can also be read as the separator after it or before it. */
  lemma MoveSeparator(f: seq<string>) returns (g: seq<string>)
    requires |f| == 3 && exists n :: 0 <= n < 3 && !NulFree(f[n])
    ensures |g| == 3 && g != f && Tail(g) == Tail(f)
  {
    if !NulFree(f[0]) {
      var u, v := CutAtNul(f[0]);
      g := [u, v + [NUL] + f[1], f[2]];
      ShiftSeparator([], u, v, f[1], [f[2]]);
      assert f == [] + [u + [NUL] + v, f[1]] + [f[2]] && g == [] + [u, v + [NUL] + f[1]] + [f[2]];
      assert |g[0]| < |f[0]|;
    } else if !NulFree(f[1]) {
      var u, v := CutAtNul(f[1]);
      g := [f[0], u, v + [NUL] + f[2]];
      ShiftSeparator([f[0]], u, v, f[2], []);
      assert f == [f[0]] + [u + [NUL] + v, f[2]] + [] && g == [f[0]] + [u, v + [NUL] + f[2]] + [];
      assert |g[1]| < |f[1]|;
    } else {
      var u, v := CutAtNul(f[2]);
      g := [f[0], f[1] + [NUL] + u, v];
      ShiftSeparator([f[0]], f[1], u, v, []);
      assert f == [f[0]] + [f[1], u + [NUL] + v] + [] && g == [f[0]] + [f[1] + [NUL] + u, v] + [];
      assert |g[2]| < |f[2]|;
    }
  }

  /** Every key that is not a bucket list and has a NUL in a field shares its form with another key. */
  lemma CollidingKey(a: CacheKey) returns (b: CacheKey)
    requires !a.Buckets? && !a.NulFreeFields()
    ensures Collide(a, b)
  {
    SameTagSameLength(a, a);
    var g := MoveSeparator(a.Fields());
    b := a.WithFields(g[0], g[1], g[2]);
    assert b.Fields() == g;
    TagAndFields(a, b);
    SerializeIsTail(a);
    SerializeIsTail(b);
  }

  /** A key collides with another exactly when it is not a bucket list and has a NUL in one of its fields. */
  lemma SerializeExact(a: CacheKey)
    ensures (exists b :: Collide(a, b)) <==> !a.Buckets? && !a.NulFreeFields()
  {
    if a.Buckets? || a.NulFreeFields() {
      forall b ensures !Collide(a, b) {
        SerializeInjective(a, b);
      }
    } else {
      var b := CollidingKey(a);
    }
  }

  /** One such pair. */
  lemma SerializeCollides()
    ensures Collide(Objects("p", "b\0c", "d"), Objects("p", "b", "c\0d"))
  {
    var a, b := Objects("p", "b\0c", "d"), Objects("p", "b", "c\0d");
    assert a.bucket != b.bucket by {
      assert |a.bucket| == 3 && |b.bucket| == 1;
    }
  }

  // ------------------------------------------------------------------------
  // Invalidation by substring
  // ------------------------------------------------------------------------

  predicate EndsWith(s: string, sub: string) {
    |sub| <= |s| && s[|s| - |sub|..] == sub
  }

  /** The test whole-profile invalidation applies to every serialized key. */
  predicate MatchesProfile(raw: string, profile: string) {
    Contains(raw, [NUL] + profile + [NUL]) || EndsWith(raw, [NUL] + profile)
  }

  /** The parts between the NULs of a text. */
  function Cut(s: string): (r: seq<string>)
    ensures r != [] && forall f | f in r :: NulFree(f)
  {
    if s == "" then [""]
    else
      var rest := Cut(s[1..]);
      assert forall f | f in rest[1..] :: f in rest;
      assert NulFree(rest[0]);
      if s[0] == NUL then [""] + rest else [[s[0]] + rest[0]] + rest[1..]
  }

  lemma InsertAfterHead(c: char, x: string, y: string, text: string)
    requires [NUL] + x + y == [NUL] + text
    ensures [NUL] + ([c] + x) + y == [NUL] + ([c] + text)
  {
    assert text == ([NUL] + text)[1..] == ([NUL] + x + y)[1..] == x + y;
  }

  lemma LongerFirstPart(c: char, rest: seq<string>, text: string)
    requires rest != [] && Tail(rest) == [NUL] + text
    ensures Tail([[c] + rest[0]] + rest[1..]) == [NUL] + ([c] + text)
  {
    TailCons([c] + rest[0], rest[1..]);
    InsertAfterHead(c, rest[0], Tail(rest[1..]), text);
  }

  lemma {:induction false} TailOfCut(s: string)
    ensures Tail(Cut(s)) == [NUL] + s
  {
    if s == "" {
      TailCons("", []);
      assert [""] == [""] + [];
    } else {
      TailOfCut(s[1..]);
      assert s == [s[0]] + s[1..];
      TailCons("", Cut(s[1..]));
      LongerFirstPart(s[0], Cut(s[1..]), s[1..]);
    }
  }

  lemma {:induction false} CutNulFree(s: string)
    requires NulFree(s)
    ensures Cut(s) == [s]
  {
    if s == "" {
    } else {
      assert NulFree(s[1..]);
      CutNulFree(s[1..]);
      assert s == [s[0]] + s[1..];
    }
  }

  /** All the parts between the NULs of all the fields. */
  function Pieces(fields: seq<string>): (r: seq<string>)
    ensures forall f | f in r :: NulFree(f)
    ensures fields != [] ==> r != []
  {
    if fields == [] then [] else Cut(fields[0]) + Pieces(fields[1..])
  }

  lemma {:induction false} TailAppend(p: seq<string>, q: seq<string>)
    ensures Tail(p + q) == Tail(p) + Tail(q)
  {
    if p == [] {
      assert p + q == q;
    } else {
      assert (p + q)[1..] == p[1..] + q;
      TailAppend(p[1..], q);
    }
  }

  /** The pieces have the same text as the fields. */
  lemma {:induction false} TailOfPieces(fields: seq<string>)
    ensures Tail(Pieces(fields)) == Tail(fields)
  {
    if fields == [] {
    } else {
      TailAppend(Cut(fields[0]), Pieces(fields[1..]));
      TailOfCut(fields[0]);
      TailOfPieces(fields[1..]);
    }
  }

  lemma {:induction false} PiecesNulFree(fields: seq<string>)
    requires forall f | f in fields :: NulFree(f)
    ensures Pieces(fields) == fields
  {
    if fields == [] {
    } else {
      CutNulFree(fields[0]);
      PiecesNulFree(fields[1..]);
    }
  }

  predicate PartAt(ks: seq<string>, ps: seq<string>, i: nat) {
    i + |ps| <= |ks| && ks[i..i + |ps|] == ps
  }

  /** The parts occur one after the other in the list. */
  predicate Within(ps: seq<string>, ks: seq<string>) {
    exists i: nat | i <= |ks| :: PartAt(ks, ps, i)
  }

  /** Both tests at once: with a NUL added at the end, the name occurs between two NULs. */
  ghost predicate Between(raw: string, p: string, x: string, y: string) {
    raw + [NUL] == x + ([NUL] + p) + ([NUL] + y)
  }

  lemma OccurrenceSplits(raw: string, sub: string, i: nat)
    requires OccursAt(raw, sub, i)
    ensures raw == raw[..i] + sub + raw[i + |sub|..]
  {
  }

  lemma BetweenMatches(raw: string, p: string, x: string, y: string)
    requires Between(raw, p, x, y)
    ensures MatchesProfile(raw, p)
  {
    assert raw == (raw + [NUL])[..|raw|];
    if y == "" {
      assert raw == x + ([NUL] + p);
    } else {
      assert raw == x + ([NUL] + p + [NUL]) + y[..|y| - 1];
      assert OccursAt(raw, [NUL] + p + [NUL], |x|);
    }
  }

  lemma OccurrenceIsBetween(raw: string, p: string, i: nat)
    requires OccursAt(raw, [NUL] + p + [NUL], i)
    ensures Between(raw, p, raw[..i], raw[i + |p| + 2..] + [NUL])
  {
    OccurrenceSplits(raw, [NUL] + p + [NUL], i);
  }

  lemma EndIsBetween(raw: string, p: string)
    requires EndsWith(raw, [NUL] + p)
    ensures Between(raw, p, raw[..|raw| - |p| - 1], "")
  {
    assert raw == raw[..|raw| - |p| - 1] + raw[|raw| - |p| - 1..];
  }

  lemma MatchIsBetween(raw: string, p: string)
    ensures MatchesProfile(raw, p) <==> exists x, y :: Between(raw, p, x, y)
  {
    if i: nat :| i <= |raw| && OccursAt(raw, [NUL] + p + [NUL], i) {
      OccurrenceIsBetween(raw, p, i);
    }
    if EndsWith(raw, [NUL] + p) {
      EndIsBetween(raw, p);
    }
    if x, y :| Between(raw, p, x, y) {
      BetweenMatches(raw, p, x, y);
    }
  }

  lemma SameNulFreeList(p: seq<string>, q: seq<string>)
    requires (forall f | f in p :: NulFree(f)) && (forall f | f in q :: NulFree(f)) && Tail(p) == Tail(q)
    ensures p == q
  {
    NulFreeIsFinest(p, q);
    NulFreeIsFinest(q, p);
  }

  /** The whole text, as a list that starts with the tag and ends with an empty part. */
  lemma Framed(tag: string, ks: seq<string>)
    ensures Tail([tag] + ks + [""]) == [NUL] + (tag + Tail(ks) + [NUL])
  {
    TailAppend([tag] + ks, [""]);
    TailCons(tag, ks);
    TailCons("", []);
    assert [""] + [] == [""];
    assert ([NUL] + tag + Tail(ks)) + ([NUL] + "" + "") == [NUL] + (tag + Tail(ks) + [NUL]);
  }

  lemma TailOfThreeLists(a: seq<string>, b: seq<string>, c: seq<string>)
    ensures Tail(a + b + c) == Tail(a) + Tail(b) + Tail(c)
  {
    TailAppend(a + b, c);
    TailAppend(a, b);
  }

  lemma PullOutFirst(x: string, u: string, v: string)
    ensures ([NUL] + x) + u + v == [NUL] + (x + u + v)
  {
  }

  lemma CutBetween(x: string, p: string, y: string)
    ensures Tail(Cut(x) + Cut(p) + Cut(y)) == [NUL] + (x + ([NUL] + p) + ([NUL] + y))
  {
    TailOfThreeLists(Cut(x), Cut(p), Cut(y));
    TailOfCut(x);
    TailOfCut(p);
    TailOfCut(y);
    PullOutFirst(x, [NUL] + p, [NUL] + y);
  }

  lemma InnerPart(tag: string, ks: seq<string>, a: seq<string>, ps: seq<string>, b: seq<string>)
    requires a != [] && b != [] && [tag] + ks + [""] == a + ps + b
    ensures Within(ps, ks)
  {
    var whole := a + ps + b;
    assert whole[|a|..|a| + |ps|] == ps;
    assert ks == whole[1..|whole| - 1];
    assert PartAt(ks, ps, |a| - 1);
  }

  lemma BetweenIsWithin(tag: string, ks: seq<string>, p: string, x: string, y: string)
    requires NulFree(tag) && (forall k | k in ks :: NulFree(k)) && Between(tag + Tail(ks), p, x, y)
    ensures Within(Cut(p), ks)
  {
    var whole := [tag] + ks + [""];
    Framed(tag, ks);
    CutBetween(x, p, y);
    SameNulFreeList(whole, Cut(x) + Cut(p) + Cut(y));
    InnerPart(tag, ks, Cut(x), Cut(p), Cut(y));
  }

  lemma BetweenNeighbours(before: string, p: string, after: string)
    requires after == "" || after[0] == NUL
    ensures Between(before + ([NUL] + p) + after, p, before, (after + [NUL])[1..])
  {
    var rest := after + [NUL];
    assert rest == [rest[0]] + rest[1..] && rest[0] == NUL;
    assert before + ([NUL] + p) + after + [NUL] == before + ([NUL] + p) + rest;
  }

  lemma BetweenLists(tag: string, a: seq<string>, ps: seq<string>, b: seq<string>, p: string)
    requires Tail(ps) == [NUL] + p
    ensures tag + Tail(a + ps + b) == (tag + Tail(a)) + ([NUL] + p) + Tail(b)
  {
    TailOfThreeLists(a, ps, b);
  }

  lemma WithinIsBetween(tag: string, ks: seq<string>, p: string)
    requires Within(Cut(p), ks)
    ensures exists x, y :: Between(tag + Tail(ks), p, x, y)
  {
    var i: nat :| i <= |ks| && PartAt(ks, Cut(p), i);
    var a, b := ks[..i], ks[i + |Cut(p)|..];
    assert ks == a + Cut(p) + b;
    TailOfCut(p);
    BetweenLists(tag, a, Cut(p), b, p);
    BetweenNeighbours(tag + Tail(a), p, Tail(b));
  }

  lemma MatchesPieces(tag: string, ks: seq<string>, p: string)
    requires NulFree(tag) && forall k | k in ks :: NulFree(k)
    ensures MatchesProfile(tag + Tail(ks), p) <==> Within(Cut(p), ks)
  {
    MatchIsBetween(tag + Tail(ks), p);
    if x, y :| Between(tag + Tail(ks), p, x, y) {
      BetweenIsWithin(tag, ks, p, x, y);
    }
    if Within(Cut(p), ks) {
      WithinIsBetween(tag, ks, p);
    }
  }

  /**
   Invalidating a profile selects exactly the keys whose fields, cut at every NUL, show
   the cut name: for every name and every key.
   */
  lemma MatchesExactly(k: CacheKey, profile: string)
    ensures MatchesProfile(k.SerializeKey(), profile) <==> Within(Cut(profile), Pieces(k.Fields()))
  {
    SerializeIsTail(k);
    TagIsNulFree(k);
    TailOfPieces(k.Fields());
    MatchesPieces(k.Tag(), Pieces(k.Fields()), profile);
  }

  lemma WithinOne(p: string, ks: seq<string>)
    ensures Within([p], ks) <==> p in ks
  {
    if i: nat :| i <= |ks| && PartAt(ks, [p], i) {
      assert ks[i] == ks[i..i + 1][0] == p;
    }
    if p in ks {
      var i :| 0 <= i < |ks| && ks[i] == p;
      assert PartAt(ks, [p], i);
    }
  }

  /**
   Without NULs that is: the profile's own keys, and any other profile's key whose bucket
   or last field happens to be spelled like the name.
   */
  lemma MatchesNulFree(k: CacheKey, profile: string)
    requires k.NulFreeFields() && NulFree(profile)
    ensures MatchesProfile(k.SerializeKey(), profile) <==> profile in k.Fields()
  {
    MatchesExactly(k, profile);
    PiecesNulFree(k.Fields());
    CutNulFree(profile);
    WithinOne(profile, k.Fields());
  }

  /** Whatever its name and fields, a profile's own keys are always selected. */
  lemma OwnKeysMatch(k: CacheKey)
    ensures MatchesProfile(k.SerializeKey(), k.profile)
  {
    MatchesExactly(k, k.profile);
    assert PartAt(Pieces(k.Fields()), Cut(k.profile), 0);
  }
}
