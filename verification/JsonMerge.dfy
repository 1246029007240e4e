/**
 The recursive merge that applies a settings patch: objects merge member by
 member, anything else is replaced.
 */
module JsonMerge {
  import opened Wrappers

  /** Numbers are kept as their source text; the merge never looks inside them. */
  datatype Json =
    | Null
    | Bool(b: bool)
    | Number(text: string)
    | Str(s: string)
    | Array(items: seq<Json>)
    | Object(members: map<string, Json>)

  function Member(j: Json, k: string): Json {
    if j.Object? && k in j.members then j.members[k] else Null
  }

  function Merge(base: Json, patch: Json): Json
    decreases patch
  {
    if base.Object? && patch.Object? then
      Object(map k | k in base.members.Keys + patch.members.Keys ::
        if k in patch.members then Merge(Member(base, k), patch.members[k]) else base.members[k])
    else patch
  }

  /** The merge as it runs: the patch's members are folded into the base one at a time. */
  method MergeInto(base: Json, patch: Json) returns (r: Json)
    ensures r == Merge(base, patch)
    decreases patch
  {
    if base.Object? && patch.Object? {
      var members := base.members;
      var pending := patch.members.Keys;
      while pending != {}
        invariant pending <= patch.members.Keys
        invariant members.Keys == base.members.Keys + (patch.members.Keys - pending)
        invariant forall k | k in members ::
          members[k] ==
            if k in patch.members && k !in pending then Merge(Member(base, k), patch.members[k]) else base.members[k]
        decreases pending
      {
        var k :| k in pending;
        var entry := if k in members then members[k] else Null;
        var merged := MergeInto(entry, patch.members[k]);
        members := members[k := merged];
        pending := pending - {k};
      }
      return Object(members);
    }
    return patch;
  }

  // ------------------------------------------------------------------------
  // Idempotence
  // ------------------------------------------------------------------------

  /** Merging a value into itself changes nothing. */
  lemma {:induction false} MergeSelf(j: Json)
    ensures Merge(j, j) == j
  {
    if !j.Object? {
    } else {
      forall k | k in j.members ensures Merge(j.members[k], j.members[k]) == j.members[k] {
        MergeSelf(j.members[k]);
      }
      assert Merge(j, j).members == j.members;
    }
  }

  /** Applying the same patch twice is applying it once. */
  lemma {:induction false} MergeIdempotent(base: Json, patch: Json)
    ensures Merge(Merge(base, patch), patch) == Merge(base, patch)
    decreases patch
  {
    if base.Object? && patch.Object? {
      var once := Merge(base, patch);
      forall k | k in patch.members
        ensures Merge(once.members[k], patch.members[k]) == once.members[k]
      {
        MergeIdempotent(Member(base, k), patch.members[k]);
      }
      assert Merge(once, patch).members == once.members;
    } else {
      MergeSelf(patch);
    }
  }

  // ------------------------------------------------------------------------
  // Paths
  // ------------------------------------------------------------------------

  type Path = seq<string>

  /** The value at a path of member names, if there is one. */
  function At(j: Json, path: Path): Option<Json> {
    if path == [] then Some(j)
    else if j.Object? && path[0] in j.members then At(j.members[path[0]], path[1..])
    else None
  }

  /** Some proper prefix of the path, or the path itself, holds a non-object in the patch. */
  predicate Blocks(patch: Json, path: Path) {
    if !patch.Object? then true
    else path != [] && path[0] in patch.members && Blocks(patch.members[path[0]], path[1..])
  }

  /** Every leaf of the patch can be read at its path in the result, whatever the base was. */
  lemma {:induction false} PatchLeafReadable(base: Json, patch: Json, path: Path)
    requires At(patch, path).Some? && !At(patch, path).value.Object?
    ensures At(Merge(base, patch), path) == At(patch, path)
    decreases patch
  {
    if path == [] || !base.Object? {
    } else {
      PatchLeafReadable(Member(base, path[0]), patch.members[path[0]], path[1..]);
    }
  }

  /** Every base value the patch does not reach is still there, and so is everything under it. */
  lemma {:induction false} BaseKept(base: Json, patch: Json, path: Path)
    requires base.Object? && patch.Object? && path != []
    requires At(patch, path).None? && !Blocks(patch, path)
    ensures At(base, path).Some? ==> At(Merge(base, patch), path) == At(base, path)
    decreases patch
  {
    var k := path[0];
    if At(base, path).Some? && k in patch.members && base.members[k].Object? {
      BaseKept(base.members[k], patch.members[k], path[1..]);
    }
  }

  /**
   The keys at every level: where base and patch both have an object at a path that no
   other value of the patch or the base cuts off, the result has the union of their keys.
   */
  lemma {:induction false} KeysUnion(base: Json, patch: Json, path: Path)
    requires At(base, path).Some? && At(base, path).value.Object?
    requires At(patch, path).Some? && At(patch, path).value.Object?
    ensures var r := At(Merge(base, patch), path);
      r.Some? && r.value.Object?
      && r.value.members.Keys == At(base, path).value.members.Keys + At(patch, path).value.members.Keys
    decreases patch
  {
    if path == [] {
    } else {
      KeysUnion(base.members[path[0]], patch.members[path[0]], path[1..]);
    }
  }

  lemma {:induction false} BlocksExact(patch: Json, path: Path)
    ensures Blocks(patch, path) <==>
      exists k | 0 <= k <= |path| :: At(patch, path[..k]).Some? && !At(patch, path[..k]).value.Object?
  {
    if !patch.Object? {
      assert At(patch, path[..0]) == Some(patch);
    } else if path != [] && path[0] in patch.members {
      var inner, rest := patch.members[path[0]], path[1..];
      BlocksExact(inner, rest);
      assert At(patch, path[..0]) == Some(patch);
      if k :| 0 <= k <= |rest| && At(inner, rest[..k]).Some? && !At(inner, rest[..k]).value.Object? {
        assert path[..k + 1][1..] == rest[..k];
      }
      if k :| 0 <= k <= |path| && At(patch, path[..k]).Some? && !At(patch, path[..k]).value.Object? {
        assert path[..k][1..] == rest[..k - 1];
      }
    } else {
      forall k | 0 < k <= |path| ensures At(patch, path[..k]).None? {
      }
    }
  }

  /**
   What stands at any path of the result. Where the patch has a value, that value, merged
   into the base's if both are objects; elsewhere the base's own, unless the patch puts
   something other than an object above it.
   */
  lemma {:induction false} MergeAt(base: Json, patch: Json, path: Path)
    ensures At(Merge(base, patch), path) ==
      var old', new' := At(base, path), At(patch, path);
      if new'.Some? then
        if old'.Some? && old'.value.Object? && new'.value.Object? then Some(Merge(old'.value, new'.value)) else new'
      else if Blocks(patch, path) then None
      else old'
    decreases patch
  {
    if path == [] || !patch.Object? || !base.Object? {
    } else if path[0] in patch.members {
      MergeAt(Member(base, path[0]), patch.members[path[0]], path[1..]);
    }
  }

  // ------------------------------------------------------------------------
  // Associativity
  // ------------------------------------------------------------------------

  /** The later patch never puts an object over a non-object of the earlier one. */
  predicate Composable(first: Json, second: Json)
    decreases second
  {
    if !second.Object? then true
    else if !first.Object? then false
    else forall k | k in second.members :: k in first.members ==> Composable(first.members[k], second.members[k])
  }

  lemma {:induction false} MergeAssociates(base: Json, first: Json, second: Json)
    requires Composable(first, second)
    ensures Merge(Merge(base, first), second) == Merge(base, Merge(first, second))
    decreases second
  {
    if !second.Object? || !base.Object? {
    } else {
      var left, right := Merge(Merge(base, first), second), Merge(base, Merge(first, second));
      assert left.members.Keys == right.members.Keys;
      forall k | k in left.members ensures left.members[k] == right.members[k] {
        if k in second.members {
          if k in first.members {
            MergeAssociates(Member(base, k), first.members[k], second.members[k]);
          } else {
            assert Merge(first, second).members[k] == Merge(Null, second.members[k]) == second.members[k];
            assert Member(Merge(base, first), k) == Member(base, k);
          }
        }
      }
      assert left.members == right.members;
    }
  }

  /** A string longer than `x` that is not among the keys. */
  lemma Longer(keys: set<string>, x: string) returns (k: string)
    ensures k !in keys && |k| > |x|
    decreases keys
  {
    k := x + "k";
    if k in keys {
      k := Longer(keys - {k}, k);
      assert k !in keys;
    }
  }

  /** A string that is longer than every key, so not one of them. */
  lemma FreshKey(keys: set<string>) returns (k: string)
    ensures k !in keys
    decreases keys
  {
    k := "";
    if keys != {} {
      var x :| x in keys;
      k := FreshKey(keys - {x});
      ghost var rest := keys - {x};
      if k == x {
        k := Longer(rest, x);
      }
    }
  }

  /** Where the patches are not composable, some base tells the two groupings apart. */
  lemma {:induction false} MergeDoesNotAssociate(first: Json, second: Json) returns (base: Json)
    requires !Composable(first, second)
    ensures Merge(Merge(base, first), second) != Merge(base, Merge(first, second))
    decreases second
  {
    if !first.Object? {
      var k := FreshKey(second.members.Keys);
      base := Object(map[k := Null]);
      assert Merge(base, Merge(first, second)) == Merge(base, second);
      assert k in Merge(base, second).members;
    } else {
      var k :| k in second.members && k in first.members && !Composable(first.members[k], second.members[k]);
      var inner := MergeDoesNotAssociate(first.members[k], second.members[k]);
      base := Object(map[k := inner]);
      assert Member(base, k) == inner;
      var left, right := Merge(Merge(base, first), second), Merge(base, Merge(first, second));
      assert left.members[k] == Merge(Merge(inner, first.members[k]), second.members[k]);
      assert right.members[k] == Merge(inner, Merge(first.members[k], second.members[k]));
    }
  }

  /** Two patches can be combined into one, for every base, exactly when they are composable. */
  lemma AssociativityExact(first: Json, second: Json)
    ensures (forall base :: Merge(Merge(base, first), second) == Merge(base, Merge(first, second)))
       <==> Composable(first, second)
  {
    if Composable(first, second) {
      forall base ensures Merge(Merge(base, first), second) == Merge(base, Merge(first, second)) {
        MergeAssociates(base, first, second);
      }
    } else {
      var base := MergeDoesNotAssociate(first, second);
    }
  }
}
