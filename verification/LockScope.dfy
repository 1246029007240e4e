/**
 Lock scopes: which objects a lock protects, and when two locks conflict.
 Rust strings are sequences of Unicode scalar values, so `starts_with` is the
 prefix relation `<=` on Dafny strings.
 */
module LockScopes {
  import opened Wrappers

  datatype LockScope = LockScope(profile: string, bucket: Option<string>, prefix: Option<string>, key: Option<string>) {
    /** The conflict test, branch by branch. */
    predicate Intersects(other: LockScope) {
      if profile != other.profile then false
      else if bucket.Some? && other.bucket.Some? && bucket.value != other.bucket.value then false
      else if bucket.None? || other.bucket.None? then true
      else match (key, other.key)
        case (Some(a), Some(b)) => a == b
        case (Some(k), None) => other.prefix.None? || other.prefix.value <= k
        case (None, Some(k)) => prefix.None? || prefix.value <= k
        case (None, None) =>
          if prefix.None? || other.prefix.None? then true
          else other.prefix.value <= prefix.value || prefix.value <= other.prefix.value
    }
  }

  /** One S3 object as seen through a profile. */
  datatype S3Object = S3Object(profile: string, bucket: string, key: string)

  /**
   What a scope means: a missing bucket covers the profile, a key covers exactly
   that key (its prefix is then ignored), a prefix covers everything under it.
   */
  predicate Covers(scope: LockScope, o: S3Object) {
    && scope.profile == o.profile
    && (scope.bucket.Some? ==>
          && scope.bucket.value == o.bucket
          && (if scope.key.Some? then scope.key.value == o.key
              else scope.prefix.Some? ==> scope.prefix.value <= o.key))
  }

  /** An object inside a scope: the one whose key is the scope's own key or prefix. */
  function Representative(scope: LockScope, bucket: string): (o: S3Object)
    ensures scope.bucket.None? || scope.bucket.value == bucket ==> Covers(scope, o)
  {
    var key := if scope.key.Some? then scope.key.value
               else if scope.prefix.Some? then scope.prefix.value
               else "";
    S3Object(scope.profile, bucket, key)
  }

  /** Two prefixes of the same key are prefixes of one another. */
  lemma PrefixesOfOneKey(p: string, q: string, k: string)
    requires p <= k && q <= k
    ensures p <= q || q <= p
  {
    assert p == k[..|p|] && q == k[..|q|];
    if |p| <= |q| {
      assert p == q[..|p|];
    } else {
      assert q == p[..|q|];
    }
  }

  /** The conflict test is exact: it holds precisely when some object lies in both scopes. */
  lemma IntersectsExact(a: LockScope, b: LockScope)
    ensures a.Intersects(b) <==> exists o :: Covers(a, o) && Covers(b, o)
  {
    if a.Intersects(b) {
      var bucket := if a.bucket.Some? then a.bucket.value else if b.bucket.Some? then b.bucket.value else "";
      var oa, ob := Representative(a, bucket), Representative(b, bucket);
      assert Covers(a, oa) && Covers(b, ob);
      assert Covers(b, oa) || Covers(a, ob);
    }
    if o :| Covers(a, o) && Covers(b, o) {
      if a.prefix.Some? && b.prefix.Some? && a.prefix.value <= o.key && b.prefix.value <= o.key {
        PrefixesOfOneKey(a.prefix.value, b.prefix.value, o.key);
      }
    }
  }

  lemma IntersectsSymmetric(a: LockScope, b: LockScope)
    ensures a.Intersects(b) == b.Intersects(a)
  {
  }

  /** The scope a command takes on one folder of one bucket. */
  function FolderScope(profile: string, bucket: string, prefix: string): LockScope {
    LockScope(profile, Some(bucket), Some(prefix), None)
  }

  // ------------------------------------------------------------------------
  // parent_prefix
  // ------------------------------------------------------------------------

  /** `rfind('/')`, as the number of characters up to and including the last slash (0 when there is none). */
  function AfterLastSlash(s: string): (n: nat)
    ensures n <= |s|
    ensures n > 0 ==> s[n - 1] == '/'
    ensures forall i | n <= i < |s| :: s[i] != '/'
  {
    if s == "" then 0
    else if s[|s| - 1] == '/' then |s|
    else AfterLastSlash(s[..|s| - 1])
  }

  function ParentPrefix(key: string): string {
    var stripped := if key != "" && key[|key| - 1] == '/' then key[..|key| - 1] else key;
    stripped[..AfterLastSlash(stripped)]
  }

  /** A prefix that names a folder: the bucket root, or something ending in a slash. */
  predicate IsFolder(prefix: string) {
    prefix == "" || prefix[|prefix| - 1] == '/'
  }

  /**
   The parent prefix is the longest folder the key lies strictly inside: a folder,
   a proper prefix of any non-empty key, and any other such folder is a prefix of it.
   */
  lemma ParentPrefixIsLongest(key: string)
    ensures IsFolder(ParentPrefix(key)) && ParentPrefix(key) <= key
    ensures key != "" ==> ParentPrefix(key) != key
    ensures forall f | IsFolder(f) && f <= key && f != key :: f <= ParentPrefix(key)
  {
    var stripped := if key != "" && key[|key| - 1] == '/' then key[..|key| - 1] else key;
    var n := AfterLastSlash(stripped);
    forall f | IsFolder(f) && f <= key && f != key
      ensures f <= ParentPrefix(key)
    {
      if f != "" {
        assert f[|f| - 1] == key[|f| - 1] == stripped[|f| - 1];
        assert |f| - 1 < n;
      }
    }
  }

  /** A lock on a key's parent folder covers the key. */
  lemma FolderLockCoversKey(profile: string, bucket: string, key: string)
    ensures Covers(FolderScope(profile, bucket, ParentPrefix(key)), S3Object(profile, bucket, key))
  {
    ParentPrefixIsLongest(key);
  }
}
