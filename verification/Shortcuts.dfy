/**
 Keyboard shortcuts and the command registry: conflicts are found by bucketing a
 string form of every shortcut, and should be the classes of pairwise equality.
 */
module Shortcuts {
  import opened Wrappers
  import opened KeyBuckets

  datatype Modifier = Alt | Cmd | Ctrl | Meta | Shift {
    function Name(): string {
      match this
      case Alt => "alt" case Cmd => "cmd" case Ctrl => "ctrl" case Meta => "meta" case Shift => "shift"
    }

    /** The position of the name in alphabetical order, which is the order `sort()` uses. */
    function Rank(): nat {
      match this
      case Alt => 0 case Cmd => 1 case Ctrl => 2 case Meta => 3 case Shift => 4
    }
  }

  datatype Shortcut = Shortcut(mod: Option<seq<Modifier>>, key: string)

  datatype Platform = Mac | Win | Linux

  /** The same on all platforms, or different on macOS. */
  datatype Binding = Plain(shortcut: Shortcut) | PerPlatform(mac: Shortcut, default: Shortcut)

  datatype CommandDef = CommandDef(id: string, defaultShortcut: Option<Binding>)

  datatype Conflict = Conflict(shortcut: Shortcut, commandIds: seq<string>)

  // ------------------------------------------------------------------------
  // Equality and the string form
  // ------------------------------------------------------------------------

  function Insert(m: Modifier, sorted: seq<Modifier>): seq<Modifier> {
    if sorted == [] || m.Rank() <= sorted[0].Rank() then [m] + sorted else [sorted[0]] + Insert(m, sorted[1..])
  }

  function Sorted(mods: seq<Modifier>): seq<Modifier> {
    if mods == [] then [] else Insert(mods[0], Sorted(mods[1..]))
  }

  function SortedMods(s: Shortcut): seq<Modifier> {
    Sorted(if s.mod.Some? then s.mod.value else [])
  }

  /** Same key, and the same sorted modifiers position by position. */
  predicate ShortcutEqual(a: Shortcut, b: Shortcut) {
    if a.key != b.key then false
    else
      var aMods, bMods := SortedMods(a), SortedMods(b);
      |aMods| == |bMods| && forall i | 0 <= i < |aMods| :: aMods[i] == bMods[i]
  }

  ghost predicate Ordered(mods: seq<Modifier>) {
    forall i, j | 0 <= i < j < |mods| :: mods[i].Rank() <= mods[j].Rank()
  }

  lemma {:induction false} InsertBag(m: Modifier, sorted: seq<Modifier>)
    ensures multiset(Insert(m, sorted)) == multiset{m} + multiset(sorted)
  {
    if sorted == [] || m.Rank() <= sorted[0].Rank() {
    } else {
      InsertBag(m, sorted[1..]);
      assert sorted == [sorted[0]] + sorted[1..];
    }
  }

  lemma InsertMember(m: Modifier, sorted: seq<Modifier>, x: Modifier)
    requires x in Insert(m, sorted)
    ensures x == m || x in sorted
  {
    InsertBag(m, sorted);
    assert x in multiset(Insert(m, sorted));
  }

  lemma {:induction false} InsertOrders(m: Modifier, sorted: seq<Modifier>)
    requires Ordered(sorted)
    ensures Ordered(Insert(m, sorted))
  {
    if sorted == [] || m.Rank() <= sorted[0].Rank() {
    } else {
      var rest := Insert(m, sorted[1..]);
      InsertOrders(m, sorted[1..]);
      forall i | 0 <= i < |rest| ensures sorted[0].Rank() <= rest[i].Rank() {
        InsertMember(m, sorted[1..], rest[i]);
      }
    }
  }

  lemma {:induction false} SortedOrders(mods: seq<Modifier>)
    ensures Ordered(Sorted(mods)) && multiset(Sorted(mods)) == multiset(mods)
  {
    if mods == [] {
    } else {
      SortedOrders(mods[1..]);
      InsertOrders(mods[0], Sorted(mods[1..]));
      InsertBag(mods[0], Sorted(mods[1..]));
      assert mods == [mods[0]] + mods[1..];
    }
  }

  lemma RankDecides(m: Modifier, n: Modifier)
    requires m.Rank() == n.Rank()
    ensures m == n
  {
  }

  lemma FirstIsLeast(p: seq<Modifier>, q: seq<Modifier>)
    requires Ordered(p) && p != [] && q != [] && multiset(p) == multiset(q)
    ensures p[0].Rank() <= q[0].Rank()
  {
    assert q[0] in multiset(p);
    assert q[0] in p;
  }

  lemma BagRest(p: seq<Modifier>, q: seq<Modifier>)
    requires p != [] && q != [] && p[0] == q[0] && multiset(p) == multiset(q)
    ensures multiset(p[1..]) == multiset(q[1..])
  {
    assert p == [p[0]] + p[1..] && q == [q[0]] + q[1..];
    assert multiset(p[1..]) == multiset(p) - multiset{p[0]};
    assert multiset(q[1..]) == multiset(q) - multiset{q[0]};
  }

  lemma {:induction false} OrderedUnique(p: seq<Modifier>, q: seq<Modifier>)
    requires Ordered(p) && Ordered(q) && multiset(p) == multiset(q)
    ensures p == q
  {
    if p == [] || q == [] {
      assert |p| == |multiset(p)| == |multiset(q)| == |q|;
    } else {
      FirstIsLeast(p, q);
      FirstIsLeast(q, p);
      RankDecides(p[0], q[0]);
      BagRest(p, q);
      OrderedUnique(p[1..], q[1..]);
      assert p == [p[0]] + p[1..] && q == [q[0]] + q[1..];
    }
  }

  /** The same key with the same modifiers, in any order, each as often. */
  ghost predicate SameShortcut(a: Shortcut, b: Shortcut) {
    && a.key == b.key
    && multiset(if a.mod.Some? then a.mod.value else []) == multiset(if b.mod.Some? then b.mod.value else [])
  }

  lemma EqualExact(a: Shortcut, b: Shortcut)
    ensures ShortcutEqual(a, b) <==> SameShortcut(a, b)
  {
    SortedOrders(if a.mod.Some? then a.mod.value else []);
    SortedOrders(if b.mod.Some? then b.mod.value else []);
    if SameShortcut(a, b) {
      OrderedUnique(SortedMods(a), SortedMods(b));
    }
    if ShortcutEqual(a, b) {
      assert SortedMods(a) == SortedMods(b);
    }
  }

  /** `join("+")` */
  function JoinPlus(mods: seq<Modifier>): string {
    if mods == [] then ""
    else if |mods| == 1 then mods[0].Name()
    else mods[0].Name() + "+" + JoinPlus(mods[1..])
  }

  function ShortcutKey(s: Shortcut): string {
    var mods := JoinPlus(SortedMods(s));
    if |mods| > 0 then mods + "+" + s.key else s.key
  }

  /** The key begins with a modifier's name and a plus. */
  predicate Ambiguous(key: string) {
    exists m: Modifier :: m.Name() + "+" <= key
  }

  lemma AmbiguousHasPlus(m: Modifier, key: string)
    requires m.Name() + "+" <= key
    ensures '+' in key && |key| > 3
  {
    var head := m.Name() + "+";
    assert head[|m.Name()|] == '+' && key[|m.Name()|] == head[|m.Name()|];
    assert |m.Name()| >= 3;
  }

  /** A key without a plus is never ambiguous, and neither is the plus key itself. */
  lemma PlusFreeIsUnambiguous(key: string)
    requires '+' !in key || key == "+"
    ensures !Ambiguous(key)
  {
    forall m: Modifier ensures !(m.Name() + "+" <= key) {
      if m.Name() + "+" <= key {
        AmbiguousHasPlus(m, key);
      }
    }
  }

  /** Every modifier name followed by a plus, then the key. */
  function Prefixed(mods: seq<Modifier>, key: string): string {
    if mods == [] then key else mods[0].Name() + "+" + Prefixed(mods[1..], key)
  }

  lemma NameIsPlusFree(m: Modifier)
    ensures '+' !in m.Name() && m.Name() != ""
  {
  }

  lemma NameDecides(m: Modifier, n: Modifier)
    requires m.Name() == n.Name()
    ensures m == n
  {
    assert "alt"[0] == 'a' && "cmd"[1] == 'm' && "ctrl"[1] == 't' && "meta"[0] == 'm' && "shift"[0] == 's';
  }

  lemma {:induction false} JoinIsPrefixed(mods: seq<Modifier>, key: string)
    ensures mods == [] <==> JoinPlus(mods) == ""
    ensures mods != [] ==> JoinPlus(mods) + "+" + key == Prefixed(mods, key)
  {
    if mods == [] {
    } else {
      NameIsPlusFree(mods[0]);
      JoinIsPrefixed(mods[1..], key);
      var name, rest := mods[0].Name(), JoinPlus(mods[1..]);
      if |mods| > 1 {
        assert (name + "+" + rest) + "+" + key == name + "+" + (rest + "+" + key);
      } else {
        assert Prefixed(mods[1..], key) == key;
      }
    }
  }

  lemma KeyIsPrefixed(s: Shortcut)
    ensures ShortcutKey(s) == Prefixed(SortedMods(s), s.key)
  {
    JoinIsPrefixed(SortedMods(s), s.key);
  }

  /** A plus-free text before the first plus is determined by the whole. */
  lemma SplitAtPlus(a: string, x: string, b: string, y: string)
    requires '+' !in a && '+' !in b && a + "+" + x == b + "+" + y
    ensures a == b && x == y
  {
    var s := a + "+" + x;
    assert s[|a|] == '+' && s[|b|] == '+';
    assert forall i | 0 <= i < |a| :: s[i] == a[i];
    assert forall i | 0 <= i < |b| :: s[i] == b[i];
    assert |a| == |b|;
    assert a == s[..|a|] && b == s[..|b|];
    assert x == s[|a| + 1..] && y == s[|b| + 1..];
  }

  lemma {:induction false} PrefixedAppend(p: seq<Modifier>, q: seq<Modifier>, key: string)
    ensures Prefixed(p + q, key) == Prefixed(p, Prefixed(q, key))
  {
    if p == [] {
      assert p + q == q;
    } else {
      assert (p + q)[1..] == p[1..] + q;
      PrefixedAppend(p[1..], q, key);
    }
  }

  /** The first modifiers are a proper beginning of the second, and the first key spells out the rest. */
  predicate Spelled(p: seq<Modifier>, j: string, q: seq<Modifier>, k: string) {
    |p| < |q| && p == q[..|p|] && j == Prefixed(q[|p|..], k)
  }

  lemma SpelledCollides(p: seq<Modifier>, j: string, q: seq<Modifier>, k: string)
    requires Spelled(p, j, q, k)
    ensures Prefixed(p, j) == Prefixed(q, k)
  {
    PrefixedAppend(p, q[|p|..], k);
    assert q == p + q[|p|..];
  }

  lemma SpelledBehind(m: Modifier, p: seq<Modifier>, j: string, q: seq<Modifier>, k: string)
    ensures Spelled(p, j, q, k) ==> Spelled([m] + p, j, [m] + q, k)
  {
    if Spelled(p, j, q, k) {
      assert ([m] + q)[|p| + 1..] == q[|p|..];
      assert ([m] + q)[..|p| + 1] == [m] + q[..|p|];
    }
  }

  lemma {:induction false} SameText(p: seq<Modifier>, j: string, q: seq<Modifier>, k: string)
    requires Prefixed(p, j) == Prefixed(q, k)
    ensures (p == q && j == k) || Spelled(p, j, q, k) || Spelled(q, k, p, j)
  {
    if p == [] || q == [] {
      assert q[0..] == q && p[0..] == p;
    } else {
      NameIsPlusFree(p[0]);
      NameIsPlusFree(q[0]);
      SplitAtPlus(p[0].Name(), Prefixed(p[1..], j), q[0].Name(), Prefixed(q[1..], k));
      NameDecides(p[0], q[0]);
      SameText(p[1..], j, q[1..], k);
      assert p == [p[0]] + p[1..] && q == [q[0]] + q[1..];
      SpelledBehind(p[0], p[1..], j, q[1..], k);
      SpelledBehind(p[0], q[1..], k, p[1..], j);
    }
  }

  /** The key of `a` spells out modifiers that `b` has and `a` has not, as in the key "cmd+x" against Cmd and "x". */
  predicate SpellsOut(a: Shortcut, b: Shortcut) {
    Spelled(SortedMods(a), a.key, SortedMods(b), b.key)
  }

  /** The string form stands for pairwise equality, except where one key spells out the other's modifiers. */
  lemma KeyExact(a: Shortcut, b: Shortcut)
    ensures ShortcutKey(a) == ShortcutKey(b) <==> ShortcutEqual(a, b) || SpellsOut(a, b) || SpellsOut(b, a)
  {
    KeyIsPrefixed(a);
    KeyIsPrefixed(b);
    var p, q := SortedMods(a), SortedMods(b);
    assert ShortcutEqual(a, b) <==> a.key == b.key && p == q;
    if ShortcutKey(a) == ShortcutKey(b) {
      SameText(p, a.key, q, b.key);
    }
    if SpellsOut(a, b) {
      SpelledCollides(p, a.key, q, b.key);
    }
    if SpellsOut(b, a) {
      SpelledCollides(q, b.key, p, a.key);
    }
  }

  /** Only an ambiguous key can spell out a modifier. */
  lemma SpellingIsAmbiguous(a: Shortcut, b: Shortcut)
    requires SpellsOut(a, b)
    ensures Ambiguous(a.key)
  {
    var m := SortedMods(b)[|SortedMods(a)|];
    assert m.Name() + "+" <= a.key;
  }

  // ------------------------------------------------------------------------
  // Buckets and classes
  // ------------------------------------------------------------------------

  function Resolve(def: CommandDef, platform: Platform): Option<Shortcut> {
    match def.defaultShortcut
    case None => None
    case Some(Plain(s)) => Some(s)
    case Some(PerPlatform(mac, default)) => Some(if platform == Mac then mac else default)
  }

  function EntryOf(def: CommandDef, platform: Platform): Entry {
    var resolved := Resolve(def, platform);
    Entry(def.id, if resolved.Some? then Some(ShortcutKey(resolved.value)) else None)
  }

  function Entries(defs: seq<CommandDef>, platform: Platform): (r: seq<Entry>)
    ensures |r| == |defs|
    ensures forall n | 0 <= n < |defs| :: r[n] == EntryOf(defs[n], platform)
  {
    seq(|defs|, n requires 0 <= n < |defs| => EntryOf(defs[n], platform))
  }

  /** The conflict names the shortcut bound at this position and lists its bucket. */
  ghost predicate Describes(defs: seq<CommandDef>, platform: Platform, entries: seq<Entry>, n: nat, c: Conflict) {
    && n < |defs| && n < |entries| && entries[n].key.Some?
    && Resolve(defs[n], platform) == Some(c.shortcut)
    && c.commandIds == Bucket(entries, entries[n].key.value)
  }

  /** One conflict for each bucket that starts at one of these positions. */
  ghost predicate Reports(
      defs: seq<CommandDef>, platform: Platform, entries: seq<Entry>, leaders: seq<nat>, report: seq<Conflict>)
  {
    |report| == |leaders| && forall j | 0 <= j < |leaders| :: Describes(defs, platform, entries, leaders[j], report[j])
  }

  predicate BoundTo(def: CommandDef, platform: Platform, s: Shortcut) {
    Resolve(def, platform).Some? && ShortcutEqual(Resolve(def, platform).value, s)
  }

  /** The shortcut runs the command on this platform. */
  ghost predicate Runs(def: CommandDef, platform: Platform, s: Shortcut) {
    match def.defaultShortcut
    case None => false
    case Some(Plain(always)) => SameShortcut(always, s)
    case Some(PerPlatform(mac, default)) =>
      match platform
      case Mac => SameShortcut(mac, s)
      case Win => SameShortcut(default, s)
      case Linux => SameShortcut(default, s)
  }

  /** The command at this position is the first that the shortcut runs. */
  ghost predicate FirstRun(defs: seq<CommandDef>, n: nat, platform: Platform, s: Shortcut) {
    n < |defs| && Runs(defs[n], platform, s) && forall i | 0 <= i < n :: !Runs(defs[i], platform, s)
  }

  lemma BoundToExact(def: CommandDef, platform: Platform, s: Shortcut)
    ensures BoundTo(def, platform, s) <==> Runs(def, platform, s)
  {
    var resolved := Resolve(def, platform);
    if resolved.Some? {
      EqualExact(resolved.value, s);
    }
  }

  /** The ids of the definitions pairwise equal to a shortcut, in registration order. */
  function Class(defs: seq<CommandDef>, platform: Platform, s: Shortcut): seq<string> {
    if defs == [] then []
    else
      var last := defs[|defs| - 1];
      Class(defs[..|defs| - 1], platform, s)
      + if BoundTo(last, platform, s) then [last.id] else []
  }

  /** The shortcut bound at this position. */
  function BoundAtPosition(defs: seq<CommandDef>, platform: Platform, n: nat): Option<Shortcut> {
    if n < |defs| then Resolve(defs[n], platform) else None
  }

  /** No key bound on the platform spells out the modifiers of another binding. */
  ghost predicate Distinguishable(defs: seq<CommandDef>, platform: Platform) {
    forall m: nat, n: nat ::
      var a, b := BoundAtPosition(defs, platform, m), BoundAtPosition(defs, platform, n);
      a.Some? && b.Some? ==> !SpellsOut(a.value, b.value)
  }

  /** In particular plus-free keys, and the plus key itself, are always told apart. */
  lemma PlusFreeIsDistinguishable(defs: seq<CommandDef>, platform: Platform)
    requires forall n: nat ::
      var s := BoundAtPosition(defs, platform, n); s.Some? ==> '+' !in s.value.key || s.value.key == "+"
    ensures Distinguishable(defs, platform)
  {
    forall m: nat, n: nat | BoundAtPosition(defs, platform, m).Some? && BoundAtPosition(defs, platform, n).Some?
      ensures !SpellsOut(BoundAtPosition(defs, platform, m).value, BoundAtPosition(defs, platform, n).value)
    {
      var a, b := BoundAtPosition(defs, platform, m).value, BoundAtPosition(defs, platform, n).value;
      PlusFreeIsUnambiguous(a.key);
      if SpellsOut(a, b) {
        SpellingIsAmbiguous(a, b);
      }
    }
  }

  /** An entry is in the bucket of a bound shortcut exactly when its own shortcut is pairwise equal. */
  lemma EntryMatches(defs: seq<CommandDef>, n: nat, platform: Platform, m: nat, s: Shortcut)
    requires n < |defs| && Distinguishable(defs, platform) && BoundAtPosition(defs, platform, m) == Some(s)
    ensures HasKey(EntryOf(defs[n], platform), ShortcutKey(s)) <==> BoundTo(defs[n], platform, s)
  {
    var own := BoundAtPosition(defs, platform, n);
    if own.Some? {
      KeyExact(own.value, s);
    }
  }

  lemma {:induction false} BucketWhere(defs: seq<CommandDef>, platform: Platform, s: Shortcut, k: string)
    requires forall n | 0 <= n < |defs| :: HasKey(EntryOf(defs[n], platform), k) <==> BoundTo(defs[n], platform, s)
    ensures Bucket(Entries(defs, platform), k) == Class(defs, platform, s)
  {
    if defs == [] {
    } else {
      var last := |defs| - 1;
      var e := EntryOf(defs[last], platform);
      assert Entries(defs, platform) == Entries(defs[..last], platform) + [e];
      BucketSnoc(Entries(defs[..last], platform), e, k);
      BucketWhere(defs[..last], platform, s, k);
      assert HasKey(e, k) <==> BoundTo(defs[last], platform, s);
    }
  }

  lemma BucketIsClass(defs: seq<CommandDef>, platform: Platform, m: nat, s: Shortcut)
    requires Distinguishable(defs, platform) && BoundAtPosition(defs, platform, m) == Some(s)
    ensures Bucket(Entries(defs, platform), ShortcutKey(s)) == Class(defs, platform, s)
  {
    forall n | 0 <= n < |defs|
      ensures HasKey(EntryOf(defs[n], platform), ShortcutKey(s)) <==> BoundTo(defs[n], platform, s)
    {
      EntryMatches(defs, n, platform, m, s);
    }
    BucketWhere(defs, platform, s, ShortcutKey(s));
  }

  // ------------------------------------------------------------------------
  // The registry
  // ------------------------------------------------------------------------

  ghost predicate UniqueIds(defs: seq<CommandDef>) {
    forall m, n | 0 <= m < n < |defs| :: defs[m].id != defs[n].id
  }

  /** Looking up the id at a position finds that position, and it has a shortcut if its entry has a key. */
  lemma BoundAt(defs: seq<CommandDef>, platform: Platform, f: nat, found: Option<CommandDef>, id: string)
    requires UniqueIds(defs) && f < |defs|
    requires id == EntryOf(defs[f], platform).id && EntryOf(defs[f], platform).key.Some?
    requires found.Some? ==> found.value in defs && found.value.id == id
    requires found.None? ==> forall n | 0 <= n < |defs| :: defs[n].id != id
    ensures found == Some(defs[f]) && Resolve(defs[f], platform).Some?
  {
    assert defs[f].id == id;
    var n :| 0 <= n < |defs| && defs[n] == found.value;
    assert n == f;
  }

  /** The id in front of a bucket is registered with the bucket's shortcut. */
  lemma BucketNamedAfterFirst(defs: seq<CommandDef>, platform: Platform, k: string, found: Option<CommandDef>)
    requires UniqueIds(defs) && Bucket(Entries(defs, platform), k) != []
    requires found.Some? ==> found.value in defs && found.value.id == Bucket(Entries(defs, platform), k)[0]
    requires found.None? ==> forall n | 0 <= n < |defs| :: defs[n].id != Bucket(Entries(defs, platform), k)[0]
    ensures found.Some? && Resolve(found.value, platform).Some?
    ensures var entries := Entries(defs, platform);
      var conflict := Conflict(Resolve(found.value, platform).value, Bucket(entries, k));
      Describes(defs, platform, entries, FirstIndex(entries, k), conflict)
  {
    var entries := Entries(defs, platform);
    BucketMembers(entries, k);
    BoundAt(defs, platform, FirstIndex(entries, k), found, Bucket(entries, k)[0]);
  }

  lemma {:induction false} ClassGrows(defs: seq<CommandDef>, n: nat, platform: Platform, s: Shortcut)
    requires n <= |defs|
    ensures Class(defs[..n], platform, s) <= Class(defs, platform, s)
    decreases |defs|
  {
    if n == |defs| {
      assert defs[..n] == defs;
    } else {
      ClassGrows(defs[..|defs| - 1], n, platform, s);
      assert defs[..|defs| - 1][..n] == defs[..n];
    }
  }

  /** The picked positions are exactly those of the commands that the shortcut runs, in order. */
  ghost predicate RunAt(defs: seq<CommandDef>, platform: Platform, s: Shortcut, picks: seq<nat>) {
    && (forall i, j | 0 <= i < j < |picks| :: picks[i] < picks[j])
    && (forall i | 0 <= i < |picks| :: picks[i] < |defs|)
    && forall n | 0 <= n < |defs| :: n in picks <==> Runs(defs[n], platform, s)
  }

  lemma RunAtSnoc(defs: seq<CommandDef>, def: CommandDef, platform: Platform, s: Shortcut, picks: seq<nat>)
    requires RunAt(defs, platform, s, picks)
    ensures RunAt(defs + [def], platform, s, picks + if Runs(def, platform, s) then [|defs|] else [])
  {
    var more := picks + if Runs(def, platform, s) then [|defs|] else [];
    forall n | 0 <= n < |defs + [def]| ensures n in more <==> Runs((defs + [def])[n], platform, s) {
      assert n in more <==> n in picks || (n == |defs| && Runs(def, platform, s));
    }
  }

  /** A class lists the commands that the shortcut runs, each once, in registration order. */
  lemma {:induction false} ClassExact(defs: seq<CommandDef>, platform: Platform, s: Shortcut) returns (picks: seq<nat>)
    ensures RunAt(defs, platform, s, picks)
    ensures |picks| == |Class(defs, platform, s)|
    ensures forall i | 0 <= i < |picks| :: Class(defs, platform, s)[i] == defs[picks[i]].id
  {
    if defs == [] {
      picks := [];
    } else {
      var init, def := defs[..|defs| - 1], defs[|defs| - 1];
      picks := ClassExact(init, platform, s);
      assert defs == init + [def];
      BoundToExact(def, platform, s);
      RunAtSnoc(init, def, platform, s, picks);
      picks := picks + if Runs(def, platform, s) then [|init|] else [];
    }
  }

  lemma {:induction false} EmptyClass(defs: seq<CommandDef>, platform: Platform, s: Shortcut)
    requires forall n | 0 <= n < |defs| :: !Runs(defs[n], platform, s)
    ensures Class(defs, platform, s) == []
  {
    if defs == [] {
    } else {
      BoundToExact(defs[|defs| - 1], platform, s);
      EmptyClass(defs[..|defs| - 1], platform, s);
    }
  }

  lemma FirstOfClass(defs: seq<CommandDef>, n: nat, platform: Platform, s: Shortcut)
    requires FirstRun(defs, n, platform, s)
    ensures Class(defs, platform, s) != [] && Class(defs, platform, s)[0] == defs[n].id
  {
    EmptyClass(defs[..n], platform, s);
    BoundToExact(defs[n], platform, s);
    assert defs[..n + 1][..n] == defs[..n];
    assert Class(defs[..n + 1], platform, s) == [defs[n].id];
    ClassGrows(defs, n + 1, platform, s);
  }

  /** A map that keeps its insertion order is a sequence with unique ids. */
  class Registry {
    var defs: seq<CommandDef>

    ghost predicate Valid()
      reads this
    {
      UniqueIds(defs)
    }

    constructor ()
      ensures Valid() && defs == []
    {
      defs := [];
    }

    /** Fails, changing nothing, when the id is taken. */
    method Register(def: CommandDef) returns (ok: bool)
      requires Valid()
      modifies this
      ensures Valid()
      ensures ok <==> forall n | 0 <= n < |old(defs)| :: old(defs)[n].id != def.id
      ensures defs == if ok then old(defs) + [def] else old(defs)
    {
      var found := LookupById(def.id);
      ok := found.None?;
      if ok {
        defs := defs + [def];
      }
    }

    method LookupById(id: string) returns (r: Option<CommandDef>)
      requires Valid()
      ensures r.Some? ==> r.value in defs && r.value.id == id
      ensures r.None? ==> forall n | 0 <= n < |defs| :: defs[n].id != id
    {
      for n := 0 to |defs|
        invariant forall i | 0 <= i < n :: defs[i].id != id
      {
        if defs[n].id == id {
          return Some(defs[n]);
        }
      }
      return None;
    }

    /** The first registered command that the shortcut runs. */
    method LookupByShortcut(shortcut: Shortcut, platform: Platform) returns (r: Option<CommandDef>)
      requires Valid()
      ensures r.None? <==> Class(defs, platform, shortcut) == []
      ensures r.Some? ==> r.value in defs && r.value.id == Class(defs, platform, shortcut)[0]
      ensures r.None? ==> forall n | 0 <= n < |defs| :: !Runs(defs[n], platform, shortcut)
      ensures r.Some? ==> exists n | 0 <= n < |defs| :: FirstRun(defs, n, platform, shortcut) && r.value == defs[n]
    {
      for n := 0 to |defs|
        invariant forall i | 0 <= i < n :: !Runs(defs[i], platform, shortcut)
      {
        BoundToExact(defs[n], platform, shortcut);
        var resolved := Resolve(defs[n], platform);
        if resolved.Some? && ShortcutEqual(resolved.value, shortcut) {
          FirstOfClass(defs, n, platform, shortcut);
          return Some(defs[n]);
        }
      }
      EmptyClass(defs, platform, shortcut);
      return None;
    }

    /** Buckets of two or more become conflicts, named after their first command's shortcut. */
    method DetectConflicts(platform: Platform) returns (conflicts: seq<Conflict>)
      requires Valid()
      ensures var entries := Entries(defs, platform);
        Reports(defs, platform, entries, Leaders(entries, KeyOrder(entries)), conflicts)
    {
      var entries := Entries(defs, platform);
      var order, buckets := FillBuckets(entries);
      ghost var leaders: seq<nat> := [];
      conflicts := [];
      for j := 0 to |order|
        invariant leaders == Leaders(entries, order[..j])
        invariant Reports(defs, platform, entries, leaders, conflicts)
      {
        var k := order[j];
        LeadersSnoc(entries, order, j);
        var ids := buckets[k];
        if |ids| >= 2 {
          var first := LookupById(ids[0]);
          BucketNamedAfterFirst(defs, platform, k, first);
          var resolved := Resolve(first.value, platform);
          conflicts := conflicts + [Conflict(resolved.value, ids)];
          leaders := leaders + [FirstIndex(entries, k)];
        }
      }
      assert order[..|order|] == order;
    }
  }

  // ------------------------------------------------------------------------
  // What the report means
  // ------------------------------------------------------------------------

  /** The definition at this position is the first of its class, and not alone in it. */
  ghost predicate LeadsClass(defs: seq<CommandDef>, platform: Platform, n: nat) {
    && n < |defs| && Resolve(defs[n], platform).Some?
    && var s := Resolve(defs[n], platform).value;
       && |Class(defs, platform, s)| >= 2
       && forall i | 0 <= i < n :: !BoundTo(defs[i], platform, s)
  }

  lemma LeadsIsLeadsClass(defs: seq<CommandDef>, platform: Platform, n: nat)
    requires Distinguishable(defs, platform)
    ensures Leads(Entries(defs, platform), n) <==> LeadsClass(defs, platform, n)
  {
    var entries := Entries(defs, platform);
    if n < |defs| && Resolve(defs[n], platform).Some? {
      var s := Resolve(defs[n], platform).value;
      assert entries[n].key == Some(ShortcutKey(s));
      BucketIsClass(defs, platform, n, s);
      forall i | 0 <= i < n
        ensures HasKey(entries[i], ShortcutKey(s)) <==> BoundTo(defs[i], platform, s)
      {
        EntryMatches(defs, i, platform, n, s);
      }
      if LeadsClass(defs, platform, n) {
        FirstIndexIs(entries, ShortcutKey(s), n);
      }
    }
  }

  /** The conflict names the shortcut bound at this position and lists its whole class, this position first. */
  ghost predicate ListsClass(defs: seq<CommandDef>, platform: Platform, n: nat, c: Conflict) {
    && n < |defs|
    && Resolve(defs[n], platform) == Some(c.shortcut)
    && c.commandIds == Class(defs, platform, c.shortcut)
    && |c.commandIds| >= 2
    && c.commandIds[0] == defs[n].id
  }

  lemma ReportedClass(defs: seq<CommandDef>, platform: Platform, n: nat, c: Conflict)
    requires Distinguishable(defs, platform)
    requires Leads(Entries(defs, platform), n) && Describes(defs, platform, Entries(defs, platform), n, c)
    ensures ListsClass(defs, platform, n, c)
  {
    assert Entries(defs, platform)[n] == EntryOf(defs[n], platform);
    BucketIsClass(defs, platform, n, c.shortcut);
    BucketMembers(Entries(defs, platform), ShortcutKey(c.shortcut));
  }

  /**
   One conflict for each class of two or more pairwise equal shortcuts, in the order
   of the classes' first members, listing all of the class in registration order and
   naming its first member's shortcut.
   */
  ghost predicate ExactReport(defs: seq<CommandDef>, platform: Platform, leaders: seq<nat>, report: seq<Conflict>) {
    && |report| == |leaders|
    && (forall n: nat :: n in leaders <==> LeadsClass(defs, platform, n))
    && Ascending(leaders)
    && forall j | 0 <= j < |leaders| :: ListsClass(defs, platform, leaders[j], report[j])
  }

  lemma DistinguishableReport(defs: seq<CommandDef>, platform: Platform, leaders: seq<nat>, report: seq<Conflict>)
    requires Distinguishable(defs, platform)
    requires var entries := Entries(defs, platform);
      leaders == Leaders(entries, KeyOrder(entries)) && Reports(defs, platform, entries, leaders, report)
    ensures ExactReport(defs, platform, leaders, report)
  {
    var entries := Entries(defs, platform);
    LeadersExact(entries);
    forall n: nat ensures n in leaders <==> LeadsClass(defs, platform, n) {
      LeadsIsLeadsClass(defs, platform, n);
    }
    forall j | 0 <= j < |leaders| ensures ListsClass(defs, platform, leaders[j], report[j]) {
      assert leaders[j] in leaders;
      assert Describes(defs, platform, entries, leaders[j], report[j]);
      ReportedClass(defs, platform, leaders[j], report[j]);
    }
  }

  lemma {:induction false} ClassIds(defs: seq<CommandDef>, platform: Platform, s: Shortcut, id: string)
    requires forall n | 0 <= n < |defs| :: defs[n].id != id
    ensures id !in Class(defs, platform, s)
  {
    if defs == [] {
    } else {
      ClassIds(defs[..|defs| - 1], platform, s, id);
    }
  }

  /** An id in a class belongs to a definition bound to it. */
  lemma {:induction false} ClassMember(defs: seq<CommandDef>, platform: Platform, s: Shortcut, n: nat)
    requires UniqueIds(defs) && n < |defs| && defs[n].id in Class(defs, platform, s)
    ensures BoundTo(defs[n], platform, s)
    decreases |defs|
  {
    var last := |defs| - 1;
    if n == last {
      if !BoundTo(defs[last], platform, s) {
        ClassIds(defs[..last], platform, s, defs[last].id);
      }
    } else {
      assert defs[..last][n] == defs[n];
      ClassMember(defs[..last], platform, s, n);
    }
  }

  /** Two definitions with the same string form are reported together. */
  lemma SharedKeyIsReported(
      defs: seq<CommandDef>, platform: Platform, leaders: seq<nat>, report: seq<Conflict>, m: nat, n: nat, k: string)
      returns (j: nat)
    requires m < n < |defs| && HasKey(EntryOf(defs[m], platform), k) && HasKey(EntryOf(defs[n], platform), k)
    requires var entries := Entries(defs, platform);
      leaders == Leaders(entries, KeyOrder(entries)) && Reports(defs, platform, entries, leaders, report)
    ensures j < |report| && defs[m].id in report[j].commandIds && defs[n].id in report[j].commandIds
  {
    var entries := Entries(defs, platform);
    LeadersExact(entries);
    BucketOfTwo(entries, k, m, n);
    BucketMembers(entries, k);
    var f := FirstIndex(entries, k);
    assert Leads(entries, f) && f in leaders;
    j :| 0 <= j < |leaders| && leaders[j] == f;
    assert Describes(defs, platform, entries, f, report[j]);
  }

  lemma SpellingBreaksReport(
      defs: seq<CommandDef>, platform: Platform, leaders: seq<nat>, report: seq<Conflict>, m: nat, n: nat)
    requires UniqueIds(defs)
    requires var entries := Entries(defs, platform);
      leaders == Leaders(entries, KeyOrder(entries)) && Reports(defs, platform, entries, leaders, report)
    requires var a, b := BoundAtPosition(defs, platform, m), BoundAtPosition(defs, platform, n);
      a.Some? && b.Some? && SpellsOut(a.value, b.value)
    ensures !ExactReport(defs, platform, leaders, report)
  {
    var a, b := BoundAtPosition(defs, platform, m).value, BoundAtPosition(defs, platform, n).value;
    KeyExact(a, b);
    assert m != n && !ShortcutEqual(a, b);
    var least, most := if m < n then m else n, if m < n then n else m;
    var j := SharedKeyIsReported(defs, platform, leaders, report, least, most, ShortcutKey(a));
    var c := report[j].shortcut;
    if ExactReport(defs, platform, leaders, report) {
      assert ListsClass(defs, platform, leaders[j], report[j]);
      ClassMember(defs, platform, c, m);
      ClassMember(defs, platform, c, n);
    }
  }

  /** The report is exact precisely when no bound key spells out the modifiers of another binding. */
  lemma ReportExact(defs: seq<CommandDef>, platform: Platform, leaders: seq<nat>, report: seq<Conflict>)
    requires UniqueIds(defs)
    requires var entries := Entries(defs, platform);
      leaders == Leaders(entries, KeyOrder(entries)) && Reports(defs, platform, entries, leaders, report)
    ensures ExactReport(defs, platform, leaders, report) <==> Distinguishable(defs, platform)
  {
    if Distinguishable(defs, platform) {
      DistinguishableReport(defs, platform, leaders, report);
    } else {
      var m: nat, n: nat :|
        var a, b := BoundAtPosition(defs, platform, m), BoundAtPosition(defs, platform, n);
        a.Some? && b.Some? && SpellsOut(a.value, b.value);
      SpellingBreaksReport(defs, platform, leaders, report, m, n);
    }
  }

  /** One command on the key "cmd+x", another on Cmd and "x". */
  function SpellingDefs(): seq<CommandDef> {
    [ CommandDef("macro", Some(Plain(Shortcut(None, "cmd+x")))),
      CommandDef("cut", Some(Plain(Shortcut(Some([Cmd]), "x")))) ]
  }

  lemma ClassOfPair(d: CommandDef, e: CommandDef, platform: Platform, s: Shortcut)
    ensures Class([d, e], platform, s) ==
      (if BoundTo(d, platform, s) then [d.id] else []) + (if BoundTo(e, platform, s) then [e.id] else [])
  {
    assert [d, e][..1] == [d] && [d][..0] == [];
    assert Class([d], platform, s) == if BoundTo(d, platform, s) then [d.id] else [];
  }

  lemma SpelledKeys()
    ensures ShortcutKey(Shortcut(None, "cmd+x")) == "cmd+x" == ShortcutKey(Shortcut(Some([Cmd]), "x"))
    ensures !ShortcutEqual(Shortcut(None, "cmd+x"), Shortcut(Some([Cmd]), "x"))
  {
    assert [Cmd][1..] == [] && Sorted([Cmd]) == [Cmd];
    assert |"cmd+x"| == 5 && |"x"| == 1;
  }

  lemma ShortcutEqualSymmetric(a: Shortcut, b: Shortcut)
    ensures ShortcutEqual(a, b) == ShortcutEqual(b, a)
  {
  }

  lemma SpellingClass(platform: Platform)
    ensures Class(SpellingDefs(), platform, Shortcut(None, "cmd+x")) == ["macro"]
  {
    var a, b := Shortcut(None, "cmd+x"), Shortcut(Some([Cmd]), "x");
    SpelledKeys();
    ShortcutEqualSymmetric(a, b);
    ClassOfPair(SpellingDefs()[0], SpellingDefs()[1], platform, a);
    assert ShortcutEqual(a, a);
  }

  lemma SpellingEntries(platform: Platform)
    ensures Entries(SpellingDefs(), platform) == [Entry("macro", Some("cmd+x")), Entry("cut", Some("cmd+x"))]
  {
    SpelledKeys();
  }

  /** They are reported as one conflict, although the class of the reported shortcut has only one member. */
  lemma SpellingExample(platform: Platform, leaders: seq<nat>, report: seq<Conflict>)
    requires var entries := Entries(SpellingDefs(), platform);
      leaders == Leaders(entries, KeyOrder(entries)) && Reports(SpellingDefs(), platform, entries, leaders, report)
    ensures report == [Conflict(Shortcut(None, "cmd+x"), ["macro", "cut"])]
    ensures Class(SpellingDefs(), platform, Shortcut(None, "cmd+x")) == ["macro"]
  {
    SpellingEntries(platform);
    TwoEntries(Entry("macro", Some("cmd+x")), Entry("cut", Some("cmd+x")), "cmd+x");
    assert Describes(SpellingDefs(), platform, Entries(SpellingDefs(), platform), 0, report[0]);
    SpellingClass(platform);
  }
}
