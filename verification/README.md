# brows3r: a verified model of its concurrency, caching and codec core

brows3r is a desktop S3 browser: a Rust back end (`src-tauri/`) and a TypeScript front end (`src/`). This project
models the parts whose correctness spans several functions or whole runs, and proves what they promise.

| File | What it models |
|---|---|
| `LockScope.dfy`, `LockRegistry.dfy` | lock scopes over profile, bucket, prefix and key; the mutex-guarded registry of live locks |
| `LockCommands.dfy` | copy, move and batch delete: acquire several locks, act, release, with rollback |
| `LockProtocol.dfy` | every interleaving of those commands with heartbeats, sweeps, manual releases and clock changes |
| `LockRuns.dfy` | what the events of a run say about its phases, clock, heartbeats and releases; commands that nothing interrupts |
| `LockSweep.dfy` | the periodic time-to-live sweep over a run of ticks |
| `CacheKeys.dfy`, `CacheStore.dfy` | cache key serialization; the memory-over-disk cache with its stale-while-revalidate window |
| `Unicode.dfy`, `PercentEncoding.dfy`, `CanonicalUri.dfy` | UTF-16 and UTF-8, percent-encoding, the `brows3r://` URI printer and parser |
| `RustPath.dfy` | the back end's own URI printer and parser, and when they agree with the front end's |
| `Fuzzy.dfy` | the greedy fuzzy matcher, its score, and the stable filter |
| `Recents.dfy`, `History.dfy` | recent locations as a cut list of latest visits; back and forward as a timeline with a cursor |
| `Substrings.dfy`, `Search.dfy` | substring search; the paginated, cancellable prefix search |
| `DiffStore.dfy` | the one-shot confirmation store and the target check of the storage-class command |
| `ByteRange.dfy` | `Range` header parsing and printing with 64-bit bounds |
| `JsonMerge.dfy` | the recursive settings patch |
| `KeyBuckets.dfy`, `Shortcuts.dfy` | shortcut conflicts by bucketing a string form, against pairwise equality |

Code that changes state is a class or a loop, proved against functions that give its result; those functions are then
related to an independent statement of what the code is for. Signed and unsigned 64-bit integers wrap as in a release
build (`Integers64.dfy`). Rust strings are sequences of Unicode scalar values, JavaScript strings sequences of UTF-16
code units.

Assumptions that stand for things outside the model:

- An id is a number the registry or store has not used before; it stands for a version 4 UUID.
- Clocks, the client pool's answer, the success of S3 calls, cancellations and failing page requests are parameters;
  the theorems hold for all of them.
- The percent-encoding crate escapes every byte that is not an ASCII letter or digit, in capitals, and when decoding
  leaves a percent sign alone that no two hexadecimal digits follow; its bytes are then read as strict UTF-8.
- Rust's `HashMap` iteration order is a nondeterministic choice, so "some conflicting lock" and "some victim" are any.
- `to_lowercase` and `toLowerCase` are an arbitrary function; where the two search filters are compared it must map the
  empty string to itself.

## Where the code and its documentation differ

The model follows the code. For each difference the condition under which code and text agree is proved to be exact.

- A copy or move whose two parent folders are equal or nested in one bucket is always refused, because its second lock
  conflicts with its first; so a rename inside a folder never succeeds (`CopyOrMove`, `PairConflict`).
- A batch delete whose keys lie in nested folders (a root key and any key in a folder, say) is always refused
  (`DeleteBatch`, `BatchConflict`).
- `src-tauri/src/commands/objects_cmd.rs:821` says all locks are released before returning. The registry is as before
  exactly when the call is refused, or the client pool has a client, or, for a batch delete, there is no key to delete
  (`CopyOrMove`, `DeleteBatch`; `PoolMissLeaks` is a call that leaves a lock). Such locks stay until a manual release or
  a sweep later than the time to live (`AbandonedLocksLinger`).
- The staleness test adds in 64 bits. It agrees with the documented deadline exactly when the deadline fits
  (`StaleIsExpired`).
- `src-tauri/src/cache/store.rs:189` and `src-tauri/src/cache/mod.rs:211` call the memory layer LRU; the victim is
  arbitrary. Every key but the least recently used one is safe exactly when there is no choice: there is room, the key
  is already there, or there is only that one (`EvictionIsLruExactly`, `OtherVictim`).
- `src-tauri/src/cache/mod.rs:211` also bounds the size of the memory layer. From within the bound, a write keeps it
  exactly when the limit is at least one (`PutKeepsLimitExactly`), and a read exactly when it does not promote an entry
  from disk into a full memory (`GetKeepsLimitExactly`); `ReadPastLimit` goes past it.
- Whole-profile invalidation also removes other profiles' entries: exactly those whose fields, cut at every NUL, show
  the profile's name, that is, without NULs, those whose bucket or last field is spelled like it (`MatchesExactly`,
  `MatchesNulFree`, `InvalidateProfileExact`).
- Serialized keys are not always distinct. A key shares its form with another exactly when it is not a bucket list and
  has a NUL in one of its fields (`SerializeExact`; `SerializeCollides` is one such pair). An absent optional field is
  the same as an empty one (`SerializeInjective`).
- `src/lib/fuzzy.ts:15` promises a positive score. It is positive for all targets of a length exactly when the folded
  query is one unit long or the folded target at most 17 times as long as it (`PositiveExact`; `ZeroScoreCall` is a call that scores zero).
- `src-tauri/src/bookmarks.rs:232` calls the capacity the maximum number of entries. The list stays within it exactly
  when it is at least one or nothing was visited (`WithinCapacityExactly`); a capacity of zero keeps one entry
  (`ZeroCapacityKeepsOne`).
- `src-tauri/src/commands/search_cmd.rs:66` says the search matches the key relative to the prefix; the code matches the
  whole key. They select the same keys under a prefix exactly for the queries no occurrence of which can start inside
  the folded prefix (`RelativeExact`, `RelativeFiltersAgree`). Searching "photos/" for "photo" matches everything there
  (`PrefixAlwaysMatches`).
- `src/lib/path.ts:5` says the two sides' path code stays in sync. The printers agree on every location both can hold
  (`PrintersAgree`). The parsers agree exactly unless nothing follows the scheme, where they name different errors
  (`EmptyRest`), or a percent sign that starts no escape is met, which the back end leaves alone and the front end
  refuses (`ParsersAgreeExactly`, `StrayPercent`). What the front end accepts, both read the same (`StrictIsAccepted`).
- Going back n steps and forward n steps restores the history exactly when the pane had a location (`RoundTripExact`).
- `src-tauri/src/commands/objects_cmd.rs:1359` says the targets are compared as sets. Between a request and a diff both
  without repeats they are (`MatchIsSetEquality`); a request is compared as a set with every repeat-free diff exactly
  when it has no repeats, and a diff with every repeat-free request likewise (`SetEqualityForRequest`,
  `SetEqualityForDiff`). With repeats the check goes wrong both ways: [a, a] against [a] is refused, [a, b] against
  [a, a] accepted (`MatchIsNotSetEquality`). What passing protects is `MatchExact`.
- Successive settings patches can be merged into one exactly when the later one never puts an object over an earlier
  non-object (`AssociativityExact`).
- The conflict report is exact precisely when no bound key spells out the modifiers of another binding, as the key
  "cmd+x" does for Cmd and "x" (`ReportExact`, `SpellingExample`).

## Model

| member | source | states |
|---|---|---|
| `LockScopes.IntersectsExact` | src-tauri/src/locks/mod.rs:99-149 | the conflict test holds iff some object lies in both scopes |
| `LockScopes.IntersectsSymmetric` | src-tauri/src/locks/mod.rs:99-149 | the conflict test is symmetric |
| `LockScopes.PrefixesOfOneKey` | src-tauri/src/locks/mod.rs:144-148 | two prefixes of one key are nested, which is why comparing prefixes decides overlap |
| `LockScopes.ParentPrefixIsLongest` | src-tauri/src/s3/object.rs:188-195 | the parent prefix is a folder strictly above the key, and the longest one |
| `LockScopes.FolderLockCoversKey` | src-tauri/src/commands/objects_cmd.rs:382-401 | the lock a command takes on a key's parent folder covers the key |
| `LockRegistries.ExclusiveGrant` | src-tauri/src/locks/mod.rs:260-282 | adding a lock keeps coverage disjoint iff no live lock conflicts with it |
| `LockRegistries.StaleIsExpired` | src-tauri/src/locks/mod.rs:344-350 | the 64-bit staleness test is the documented one at every instant iff the deadline fits in 64 bits |
| `LockRegistries.LockRegistry.constructor` | src-tauri/src/locks/mod.rs:233-237 | a new registry is empty and keeps the invariant |
| `LockRegistries.LockRegistry.Acquire` | src-tauri/src/locks/mod.rs:250-283 | grants iff no live lock conflicts, adding exactly the new lock; otherwise names a conflicting lock and changes nothing; coverage stays disjoint |
| `LockRegistries.LockRegistry.Heartbeat` | src-tauri/src/locks/mod.rs:290-301 | moves the heartbeat of a live lock and of no other; fails iff the lock is unknown |
| `LockRegistries.LockRegistry.Release` | src-tauri/src/locks/mod.rs:311-319 | removes and returns exactly that lock; fails iff it is unknown |
| `LockRegistries.LockRegistry.List` | src-tauri/src/locks/mod.rs:327-335 | returns exactly the live locks that meet the filter, each once |
| `LockRegistries.LockRegistry.StaleIds` | src-tauri/src/locks/mod.rs:346-351 | collects exactly the ids of the stale locks, each once |
| `LockRegistries.LockRegistry.ReleaseStale` | src-tauri/src/locks/mod.rs:344-360 | splits the registry exactly into the stale locks, each returned once, and the untouched survivors |
| `LockRegistries.LockRegistry.StartupCleanup` | src-tauri/src/locks/mod.rs:371-374 | returns every lock, each once, and leaves the registry empty |
| `LockSweep.SurvivesExactly` | src-tauri/src/locks/lifecycle.rs:36-47 | a lock outlives a run of sweeps, unchanged, iff it was stale at none of them |
| `LockSweep.RemovedPromptly` | src-tauri/src/locks/lifecycle.rs:36-47 | with sweeps at most an interval apart, an unheartbeated lock survives until its deadline and is gone at most one interval after it |
| `LockSweep.SweepLoop` | src-tauri/src/locks/lifecycle.rs:36-47 | every lock that leaves the registry is announced exactly once, and only those |
| `LockCommands.FreeAfterGrants` | src-tauri/src/commands/objects_cmd.rs:877-890 | the next lock is refused iff it conflicts with a lock live before the command or with one of its own |
| `LockCommands.GrantOneMore` | src-tauri/src/commands/objects_cmd.rs:877-907 | one more grant extends the command's locks by exactly that lock |
| `LockCommands.ReleaseAll` | src-tauri/src/commands/objects_cmd.rs:891-896 | removes exactly the given locks, whether or not they are still live |
| `LockCommands.AcquireAll` | src-tauri/src/commands/objects_cmd.rs:877-907 | the loop with rollback is all-or-nothing: it succeeds iff the scopes do not conflict with one another or with a live lock; otherwise the registry is as before and the error names a lock in the way of the first scope refused, live before the call or the command's own |
| `LockCommands.AcquirePair` | src-tauri/src/commands/objects_cmd.rs:403-421 | the pair of a copy or move obeys the same law, the error included |
| `LockCommands.PairConflict` | src-tauri/src/commands/objects_cmd.rs:382-401 | the pair conflicts with itself iff the parent folders are nested or equal in one bucket |
| `LockCommands.CopyOrMove` | src-tauri/src/commands/objects_cmd.rs:382-471 | refused, with a conflicting lock named, exactly for nested folders or a live lock on one of them; leaves the registry as before iff it is refused or the pool has a client, and otherwise both locks stay, under the source's and the destination's folder and name |
| `LockCommands.PrecedesTotal` | src-tauri/src/commands/objects_cmd.rs:862-870 | the order of the prefix set is total |
| `LockCommands.PrecedesTransitive` | src-tauri/src/commands/objects_cmd.rs:862-870 | the order of the prefix set is transitive |
| `LockCommands.UniquePrefixes` | src-tauri/src/commands/objects_cmd.rs:865-870 | the prefixes are strictly sorted and are exactly the parent folders of the keys |
| `LockCommands.FoldersConflict` | src-tauri/src/commands/objects_cmd.rs:877-883 | the locks of a batch are compatible iff no two prefixes are nested |
| `LockCommands.BatchConflict` | src-tauri/src/commands/objects_cmd.rs:865-890 | a batch conflicts with itself iff its keys lie in nested folders |
| `LockCommands.BatchFree` | src-tauri/src/commands/objects_cmd.rs:865-890 | all locks of a batch are free iff every key's folder is |
| `LockCommands.DeleteBatch` | src-tauri/src/commands/objects_cmd.rs:865-940 | refused, with a conflicting lock named, exactly for nested folders or a live lock on one of them; leaves the registry as before iff it is refused, the pool has a client or there are no keys, and otherwise all its locks stay |
| `LockCommands.PoolMissLeaks` | src-tauri/src/commands/objects_cmd.rs:913-918 | deleting one key without a client leaves a lock behind |
| `LockProtocol.TouchedIsCovered` | src-tauri/src/commands/objects_cmd.rs:382-401 | everything a command reads, writes or deletes is covered by a lock it asks for |
| `LockProtocol.InvGranted` | src-tauri/src/commands/objects_cmd.rs:877-907 | a granted lock keeps the invariant of all commands and locks |
| `LockProtocol.InvReleaseNext` | src-tauri/src/commands/objects_cmd.rs:936-940 | a release keeps the invariant, also when the lock is already gone |
| `LockProtocol.InvHeartbeat` | src-tauri/src/locks/mod.rs:290-301 | a heartbeat keeps the invariant |
| `LockProtocol.InvSweep` | src-tauri/src/locks/mod.rs:344-360 | a sweep keeps the invariant and every lock it takes is accounted for as late |
| `LockProtocol.InvStep` | src-tauri/src/commands/objects_cmd.rs:382-471 | every event of every command, its lookup of each new lock included, and every heartbeat, sweep, manual release and clock change keeps the invariant |
| `LockProtocol.InvReachable` | src-tauri/src/locks/mod.rs:228-375 | the invariant, with pairwise disjoint coverage, holds in every reachable state |
| `LockProtocol.WantedAsRequested` | src-tauri/src/commands/objects_cmd.rs:865-890 | in every reachable state a command wants exactly the locks its request calls for |
| `LockProtocol.AllAttributed` | src-tauri/src/commands/objects_cmd.rs:885-906 | in every reachable state each live lock is listed by the command it was granted to |
| `LockProtocol.MutualExclusion` | src-tauri/src/commands/objects_cmd.rs:403-471 | in every reachable state no object is covered by live locks of two commands |
| `LockProtocol.WorkingProtects` | src-tauri/src/commands/objects_cmd.rs:403-471 | a command at work with its locks live protects everything it touches |
| `LockProtocol.WorkingCommandsAreDisjoint` | src-tauri/src/commands/objects_cmd.rs:403-471 | two commands at work that still hold their locks never touch the same object |
| `LockProtocol.LossExact` | src-tauri/src/locks/mod.rs:344-360 | a lock that a command still owes is missing iff it was released manually or a sweep since its grant or last heartbeat ran more than 300 seconds past that instant |
| `LockProtocol.OverlapNeedsLoss` | src-tauri/src/commands/objects_cmd.rs:403-471 | if two different commands at work touch one object, a lock of one of them was released manually or swept late |
| `LockProtocol.PanicExact` | src-tauri/src/commands/objects_cmd.rs:404-409 | the lookup of a new lock fails iff it was released manually or swept late before it was looked up |
| `LockProtocol.NotedSweepHappened` | src-tauri/src/locks/lifecycle.rs:36-47 | behind every such instant is a sweep event of the run that read it off the clock after the grant and the last heartbeat |
| `LockProtocol.LossNeedsLateSweep` | src-tauri/src/locks/mod.rs:344-360 | so, if it was not released manually (and, should the clock have gone backwards, had no heartbeat), a lost lock was swept after its grant, at an instant more than 300 seconds past the one its command had read |
| `LockProtocol.ReturnedHoldsNothing` | src-tauri/src/commands/objects_cmd.rs:936-942 | once a command has returned normally none of its locks is live |
| `LockProtocol.EveryLockIsOwed` | src-tauri/src/commands/objects_cmd.rs:877-940 | every live lock is still owed by exactly one command |
| `LockProtocol.WhoRemovesALock` | src-tauri/src/commands/objects_cmd.rs:936-940 | a live lock goes only by its own command's release, a manual release, or a sweep past its deadline, so a late release never takes another command's lock |
| `LockProtocol.AbandonedLocksLinger` | src-tauri/src/commands/objects_cmd.rs:432-438 | after a pool miss or a failed lookup each lock obtained is live, and every conflicting scope refused, until a manual release or a sweep more than 300 seconds past its grant or last heartbeat, and then it is gone; after a pool miss that is every lock wanted |
| `LockRuns.PhaseExact` | src-tauri/src/commands/objects_cmd.rs:432-471 | in every reachable state a command is abandoned iff the run holds the pool's miss for it, at work iff it holds an answer with a client and no finish, giving back after the work iff it has finished and not returned, and returned iff it took that step |
| `LockRuns.GivesBackInOrder` | src-tauri/src/commands/objects_cmd.rs:464-471 | what a command has left to give back are its locks from some position on, in the order taken, or of a finished copy or move the destination's before the source's |
| `LockRuns.BegunWhen` | src-tauri/src/commands/objects_cmd.rs:382-409 | a command has the request of the event that began it, and reads the clock as it stood then |
| `LockRuns.ClockExact` | src-tauri/src/locks/mod.rs:290-301 | the clock shows what it was last set to |
| `LockRuns.HeartbeatExact` | src-tauri/src/locks/mod.rs:290-301 | a live lock is dated by the latest heartbeat event for it, or, without one, by the instant its command read when it began |
| `LockRuns.OverriddenExact` | src-tauri/src/locks/mod.rs:311-319 | a lock counts as released manually iff the run released it so while it was live |
| `LockRuns.AloneOutcome` | src-tauri/src/commands/objects_cmd.rs:382-471 | from any reachable state, a command that nothing interrupts never panics; if it returns the registry is as before, and it did its work iff all its locks could be granted; at work or left without a client it holds every one of them, and it is left so iff the pool answered with a miss |
| `LockRuns.AloneGoesOn` | src-tauri/src/commands/objects_cmd.rs:382-471 | until it has returned or was left without a client such a command has a step to take |
| `LockRuns.GrantableRequest` | src-tauri/src/commands/objects_cmd.rs:865-890 | the locks of a copy or move can all be granted iff its folders are not nested or equal in one bucket and no live lock conflicts with either; those of a batch iff its keys do not lie in nested folders and no live lock conflicts with a key's folder |
| `CacheKeys.SerializeIsTail` | src-tauri/src/cache/mod.rs:76-133 | a serialized key is its tag and its NUL-led fields |
| `CacheKeys.SerializeExamples` | src-tauri/src/cache/mod.rs:76-133 | one literal form of each variant, absent fields included |
| `CacheKeys.SerializeInjective` | src-tauri/src/cache/mod.rs:76-133 | a bucket-list key, or one with NUL-free fields, serializes like another key iff they are equal up to absent versus empty optional fields |
| `CacheKeys.NulFreeIsFinest` | src-tauri/src/cache/mod.rs:76-133 | among the field lists with one text the NUL-free one is the longest, and the only one of its length |
| `CacheKeys.CollidingKey` | src-tauri/src/cache/mod.rs:76-133 | every other key with a NUL in a field shares its serialized form with a different key |
| `CacheKeys.SerializeExact` | src-tauri/src/cache/mod.rs:76-133 | a key collides with some different key iff it is not a bucket list and has a NUL in a field |
| `CacheKeys.SerializeCollides` | src-tauri/src/cache/mod.rs:76-133 | one such pair |
| `CacheKeys.MatchesExactly` | src-tauri/src/cache/store.rs:451-464 | for every name and key, whole-profile invalidation selects exactly the keys whose fields, cut at every NUL, show the cut name |
| `CacheKeys.MatchesNulFree` | src-tauri/src/cache/store.rs:451-464 | without NULs, exactly the keys with the name as their profile, bucket or last field |
| `CacheKeys.OwnKeysMatch` | src-tauri/src/cache/store.rs:451-464 | a profile's own keys are always selected, whatever its name and their fields |
| `CacheStores.CacheStore.constructor` | src-tauri/src/cache/store.rs:197-255 | opening starts with an empty memory layer over the given disk table |
| `CacheStores.CacheStore.Get` | src-tauri/src/cache/store.rs:273-341 | the answer is the timed map's; without a disk it may be absent instead; an unvalidated profile reads absent; an entry found on disk, and nothing else, is promoted; memory stays within its limit iff that does not meet a full memory |
| `CacheStores.EvictionIsLruExactly` | src-tauri/src/cache/store.rs:379-387 | eviction is sure to take no other key than the least recently used one iff there is room, the key is there already, or it is the only one |
| `CacheStores.OtherVictim` | src-tauri/src/cache/store.rs:379-387 | a full memory may lose any other key instead |
| `CacheStores.GetKeepsLimitExactly` | src-tauri/src/cache/store.rs:287-337 | a read keeps memory within its limit iff it does not promote an entry from disk into a full memory |
| `CacheStores.PutKeepsLimitExactly` | src-tauri/src/cache/store.rs:379-396 | a write keeps memory within its limit iff the limit is at least one |
| `CacheStores.ReadPastLimit` | src-tauri/src/cache/store.rs:296-337 | two reads of a store opened on two disk entries leave both in a memory with room for one |
| `CacheStores.CacheStore.Remember` | src-tauri/src/cache/store.rs:379-396 | the slot is stored; only a new key in a full memory costs one other slot, any one; from within the limit memory stays there iff the limit is at least one |
| `CacheStores.CacheStore.Store` | src-tauri/src/cache/store.rs:379-419 | both layers gain the entry, and memory loses at most the one victim |
| `CacheStores.CacheStore.Put` | src-tauri/src/cache/store.rs:348-422 | whatever is evicted, the store stands for the timed map plus the entry with its expiry |
| `CacheStores.CacheStore.Invalidate` | src-tauri/src/cache/store.rs:429-441 | the store stands for the timed map without the key; memory loses it too |
| `CacheStores.RemoveMatching` | src-tauri/src/cache/store.rs:467-492 | the disk loop removes exactly the keys that match |
| `CacheStores.CacheStore.InvalidateProfile` | src-tauri/src/cache/store.rs:451-497 | both layers lose exactly the selected keys |
| `CacheStores.CacheStore.ClearAll` | src-tauri/src/cache/store.rs:504-529 | the store stands for the empty map |
| `CacheStores.CacheStore.Perform` | src-tauri/src/cache/store.rs:273-529 | every operation, a restart included, steps the timed map and answers as it does |
| `CacheStores.Replay` | src-tauri/src/cache/store.rs:273-529 | over any run of operations every answer is the timed map's, whatever was evicted or dropped; memory-only stores may only answer absent more often, and stay within their limit |
| `CacheStores.UndisturbedRun` | src-tauri/src/cache/store.rs:348-529 | a run that does not touch a key leaves its entry alone, whatever the other keys and names in it |
| `CacheStores.InvalidatedIsAbsent` | src-tauri/src/cache/store.rs:429-441 | an invalidated key reads absent through any later run that does not put an entry it reads |
| `CacheStores.ClearedIsAbsent` | src-tauri/src/cache/store.rs:504-529 | after everything is cleared so does every key |
| `CacheStores.PutThenGet` | src-tauri/src/cache/store.rs:536-561 | after any run that leaves its key alone a stored value reads fresh until its time to live is over, stale for the window after that, then absent; as another type it is an error while it is readable |
| `CacheStores.InvalidateProfileExact` | src-tauri/src/cache/store.rs:451-497 | a key is lost with a profile iff its fields, cut at every NUL, show the profile's name; without NULs, iff its profile, bucket or last field is spelled like it |
| `CacheStores.OwnEntriesGo` | src-tauri/src/cache/store.rs:451-497 | after a profile is invalidated every key of it reads absent, through any later run that does not put an entry it reads |
| `Unicode.Utf8RoundTrip` | src/lib/path.ts:42-72 | decoding the UTF-8 of a scalar value gives it back, and its first byte tells its length |
| `Unicode.Utf8Exact` | src/lib/path.ts:42-49 | the bits of every code point lie in its bytes as RFC 3629 lays them out |
| `Unicode.FromUtf8Exact` | src/lib/path.ts:66-72 | a byte sequence decodes to a code point iff it is the encoding of it |
| `Unicode.WellFormedCut` | src/lib/path.ts:55-60 | cutting at a unit that is no surrogate leaves two well-formed strings |
| `PercentEncoding.EncodeNoSlashIsStrict` | src/lib/path.ts:42-49 | the two-pass encoder keeps exactly letters and digits and escapes the UTF-8 of the rest; it fails iff the string has a lone surrogate |
| `PercentEncoding.EncodePreserveSlashIsStrict` | src/lib/path.ts:55-60 | splitting, encoding and joining is the same encoder with the slash also kept |
| `PercentEncoding.EncodedPoint` | src/lib/path.ts:42-60 | both encoders leave exactly the ASCII letters and digits alone, and one the slash; any other code point becomes the escapes of its bytes |
| `PercentEncoding.EncodedAppend` | src/lib/path.ts:42-60 | both encode a text part by part |
| `PercentEncoding.EscapeAllExact` | src/lib/path.ts:42-49 | each byte becomes a percent sign and its two capital hexadecimal digits |
| `PercentEncoding.DecodeEncoded` | src/lib/path.ts:66-72 | decoding an encoded string gives it back, with or without kept slashes |
| `PercentEncoding.EncodedIsSlashFree` | src/lib/path.ts:42-49 | an encoded bucket has no slash, and is not empty unless the bucket was |
| `PercentEncoding.DecodedWellFormedExact` | src/lib/path.ts:66-72 | a decoded string has lone surrogates iff the string has |
| `CanonicalUris.PrintedForm` | src/lib/path.ts:84-89 | the printed URI, or a failure exactly for lone surrogates |
| `CanonicalUris.SchemeText` | src/lib/path.ts:84-89 | the scheme reads "brows3r://" |
| `CanonicalUris.ParseAuthorityParts` | src/lib/path.ts:117-135 | the parser splits at the first slash, and names the error for an empty profile id and for a missing slash |
| `CanonicalUris.ParsePathParts` | src/lib/path.ts:135-187 | the parser splits at the next slash if there is one, names the error for an empty or undecodable part, and reads an empty key as none |
| `CanonicalUris.RoundTrip` | src/lib/path.ts:84-188 | printing succeeds iff bucket and key are well-formed, and parsing the result gives the location back with `key ?? prefix` as key iff the bucket is non-empty and the profile id non-empty and slash-free |
| `CanonicalUris.UriIsInjective` | src/lib/path.ts:84-89 | two addressable locations have the same URI iff profile, bucket and `key ?? prefix` agree |
| `CanonicalUris.Normalizes` | src/lib/path.ts:106-188 | any URI the parser accepts names an addressable location; it can be printed iff the part after the profile id is well-formed, and its canonical URI parses to the very same location |
| `RustPaths.EncodersAgree` | src-tauri/src/path/encode.rs:205-219 | the byte-wise encoders with the restored slash give what the front end's do, on every well-formed string |
| `RustPaths.PrintersAgree` | src-tauri/src/path/encode.rs:44-62 | both printers give the same URI for every location both can hold |
| `RustPaths.DecodersAgree` | src-tauri/src/path/encode.rs:221-227 | where every percent sign starts an escape the decoders give the same string or the same failure |
| `RustPaths.DecodersAgreeExactly` | src-tauri/src/path/encode.rs:221-227 | the decoders agree iff there is no stray percent sign or the bytes are not UTF-8 even so |
| `RustPaths.ParsersAgreeExactly` | src-tauri/src/path/encode.rs:70-124 | the parsers agree, errors included, iff the scheme differs, or something follows it and no part is one that only the lenient decoder accepts |
| `RustPaths.StrictIsAccepted` | src-tauri/src/path/encode.rs:70-124 | whatever the front end accepts the back end reads the same |
| `RustPaths.StrayPercent` | src-tauri/src/path/encode.rs:99-110 | the rest "p/b/%" is refused by one parser and read by the other |
| `RustPaths.EmptyRest` | src-tauri/src/path/encode.rs:85-91 | for a bare scheme the two name different errors |
| `Fuzzy.LeftmostExact` | src/lib/fuzzy.ts:56-79 | the greedy scan succeeds iff the query is a subsequence, and its indexes are pointwise least among all embeddings |
| `Fuzzy.ScoreBounds` | src/lib/fuzzy.ts:56-74 | the score lies between 17n minus the target's length and 28n - 4 |
| `Fuzzy.ScoreExact` | src/lib/fuzzy.ts:56-74 | the score is 16 a unit, 8 for a first unit at the start, 12 for each unit next to the one before, less the positions skipped in between |
| `Fuzzy.BestScoreIsPrefix` | src/lib/fuzzy.ts:56-74 | the best score is reached exactly by a query that is a prefix of the target, matched there |
| `Fuzzy.PositiveExact` | src/lib/fuzzy.ts:15-16 | matches score positive in all targets of a length iff the query is one unit long or the target at most 17 times as long |
| `Fuzzy.NonPositiveCall` | src/lib/fuzzy.ts:40-82 | a call with a match that scores zero or less, for any longer length and any folding |
| `Fuzzy.ZeroScoreCall` | src/lib/fuzzy.ts:40-82 | a call of two capital letters that scores zero |
| `Fuzzy.MatchExact` | src/lib/fuzzy.ts:40-82 | an empty query matches with score one and an empty target nothing else; otherwise a match is returned iff the folded query is a subsequence of the folded target, with the least embedding and its score |
| `Fuzzy.Match` | src/lib/fuzzy.ts:40-82 | the loop computes the leftmost embedding and the closed-form score |
| `Fuzzy.StableSortCorrect` | src/lib/fuzzy.ts:107-107 | sorting gives descending scores and changes nothing among equal ones |
| `Fuzzy.StableSortUnique` | src/lib/fuzzy.ts:107-107 | there is only one descending stable reordering, so any stable sort gives this one |
| `Fuzzy.SortRanks` | src/lib/fuzzy.ts:102-108 | sorting the scored items ranks exactly the matching positions so |
| `Fuzzy.Filter` | src/lib/fuzzy.ts:95-109 | an empty query keeps the input; any other gives the items at exactly the positions that match, each before all those with a lower score of their own, or the same score and a later position |
| `Recents.DistinctNoRepeats` | src-tauri/src/bookmarks.rs:287-301 | no location is listed twice |
| `Recents.DistinctIsLatest` | src-tauri/src/bookmarks.rs:278-301 | the listed entries are exactly the latest visits of the visited locations |
| `Recents.DistinctByRecency` | src-tauri/src/bookmarks.rs:278-301 | whatever the clock does, the more recently visited location comes first |
| `Recents.TakeStep` | src-tauri/src/bookmarks.rs:287-301 | the list may forget what it has cut: one more visit to the cut list is one more visit to the whole history, cut |
| `Recents.RecentsStore.Track` | src-tauri/src/bookmarks.rs:278-301 | the visit is in front, and for a capacity of at least one the buffer is that many first entries of the distinct latest visits of the whole history; for capacity zero it is the visit alone |
| `Recents.RecentsStore.Clear` | src-tauri/src/bookmarks.rs:309-311 | forgets all visits |
| `Recents.RecentsStore.List` | src-tauri/src/bookmarks.rs:304-306 | for a capacity of at least one, at most that many of the distinct latest visits, the first ones, and all visited locations unless it is full; for capacity zero one entry iff anything was visited |
| `Recents.ListIsMostRecent` | src-tauri/src/bookmarks.rs:278-306 | no location twice, each entry the latest visit, ordered by most recent visit, sorted by time under a monotone clock, complete unless full |
| `Recents.WithinCapacityExactly` | src-tauri/src/bookmarks.rs:278-301 | the list stays within the capacity iff that is at least one or nothing was visited |
| `Recents.ZeroCapacityKeepsOne` | src-tauri/src/bookmarks.rs:292-300 | with capacity zero the latest visit is kept |
| `Histories.BackMovesCursor` | src/store/history.ts:111-127 | going back leaves the timeline alone and moves the cursor one to the left |
| `Histories.ForwardMovesCursor` | src/store/history.ts:130-146 | going forward leaves the timeline alone and moves the cursor one to the right |
| `Histories.NavigateTruncates` | src/store/history.ts:88-98 | a new location cuts the timeline after the cursor and becomes its end |
| `Histories.LeaveThenBack` | src/store/history.ts:88-98 | leaving every location and going back returns to where the pane was, with nothing to go forward to |
| `Histories.RoundTripExact` | src/store/history.ts:111-146 | n steps back and n forward restore the history iff the pane had a location |
| `Histories.ObservedOnce` | src/store/history.ts:85-101 | the callback over all panes observes each pane's history once |
| `Histories.UntouchedHistory` | src/store/history.ts:85-101 | histories of panes that are gone are kept as they are |
| `Histories.ObserveAllKeepsReachable` | src/store/history.ts:85-101 | without a location there is nothing to go forward to, in every reachable state |
| `Histories.HistoryTracker.constructor` | src/store/history.ts:35-36 | tracking starts with no histories |
| `Histories.HistoryTracker.OnPanesChanged` | src/store/history.ts:85-101 | the callback observes every pane, or nothing while a move is in flight |
| `Histories.HistoryTracker.SetPanes` | src/store/history.ts:85-101 | the panes are replaced and the tracker observes them, unless a move is in flight |
| `Histories.HistoryTracker.Change` | src/store/history.ts:85-101 | when panes navigate, open or close, each open pane is observed once, one that shows its last location keeps its whole history, and every other history stays as it was |
| `Histories.HistoryTracker.GoBack` | src/store/history.ts:111-127 | moves iff there is a way back, steps exactly that history, shows its location and records nothing more |
| `Histories.HistoryTracker.GoForward` | src/store/history.ts:130-146 | moves iff there is a way forward, steps exactly that history, shows its location and records nothing more |
| `Histories.HistoryTracker.CanBack` | src/store/history.ts:148-151 | tells exactly whether going back would move |
| `Histories.HistoryTracker.CanForward` | src/store/history.ts:153-156 | tells exactly whether going forward would move |
| `Searches.FiltersAgree` | src-tauri/src/commands/search_cmd.rs:40-56 | the walk's filter and the in-memory filter select the same entries |
| `Searches.SearchPrefix` | src-tauri/src/commands/search_cmd.rs:150-219 | the walk ends and emits pages 0, 1, 2 and so on with exactly the last one final: for each page fetched, in order, exactly its entries whose folded key contains the folded query, and one empty page after a cancel or an error |
| `Searches.StreamResults` | src-tauri/src/commands/search_cmd.rs:150-219 | the emitted results together are, in order, exactly the matching entries of all pages fetched |
| `Searches.UndisturbedSearch` | src-tauri/src/commands/search_cmd.rs:150-219 | without cancel or error they are exactly the matching entries of the whole listing |
| `Searches.FlattenExact` | src-tauri/src/commands/search_cmd.rs:150-219 | "together" means one after another |
| `Searches.LocalFilterPicks` | src-tauri/src/commands/search_cmd.rs:40-56 | the in-memory filter returns, in order, exactly the entries whose folded key contains the folded query |
| `Searches.SameAsLocalFilter` | src-tauri/src/commands/search_cmd.rs:40-56 | so filtering in memory what was fetched gives the list that was emitted |
| `Substrings.ContainsExact` | src-tauri/src/commands/search_cmd.rs:191-195 | a text contains another iff it is that text with something before and something after it |
| `Searches.RelativeExact` | src-tauri/src/commands/search_cmd.rs:191-195 | matching the whole folded key is matching the key relative to the prefix, for all keys under it, iff no occurrence of the query can start inside the folded prefix |
| `Searches.RelativeFiltersAgree` | src-tauri/src/commands/search_cmd.rs:191-202 | for those queries the filters agree on every listing under the prefix |
| `Searches.PrefixAlwaysMatches` | src-tauri/src/commands/search_cmd.rs:191-195 | a query that lies in the prefix matches every key under it |
| `DiffStores.DiffStore.CreateAt` | src-tauri/src/diff/mod.rs:218-230 | adds exactly one pending record under a fresh id, with its content, creation and expiry |
| `DiffStores.DiffStore.CancelDiff` | src-tauri/src/diff/mod.rs:238-249 | cancels a known record whatever its status, and reports an unknown one |
| `DiffStores.DiffStore.ConsumeAt` | src-tauri/src/diff/mod.rs:266-281 | hands out the payload iff the record is pending and not expired; the record becomes confirmed or expired |
| `DiffStores.DiffStore.GcAt` | src-tauri/src/diff/mod.rs:301-309 | removes exactly the expired pending records |
| `DiffStores.ConsumeIsSound` | src-tauri/src/diff/mod.rs:266-281 | in any run a payload handed out was created earlier with that content, comes before its expiry, and was neither cancelled nor consumed since |
| `DiffStores.ConsumesExactly` | src-tauri/src/diff/mod.rs:218-309 | conversely, a consume of a created diff hands out its content iff it comes before the creation plus the time to live and nothing in between consumed, cancelled or, at or after that instant, collected it |
| `DiffStores.PendingExactly` | src-tauri/src/diff/mod.rs:218-309 | a created diff is pending iff nothing consumed, cancelled or collected it |
| `DiffStores.SettledStays` | src-tauri/src/diff/mod.rs:301-309 | a diff that is no longer pending is kept in any later run, and never becomes pending again |
| `DiffStores.ConsumedOnce` | src-tauri/src/diff/mod.rs:266-281 | in any run each diff is consumed at most once |
| `DiffStores.NeverAfterCancel` | src-tauri/src/diff/mod.rs:238-249 | in any run a cancelled diff is never consumed afterwards |
| `DiffStores.MatchConfirmsAll` | src-tauri/src/commands/objects_cmd.rs:1359-1371 | a request without repeats that passes the check asks for exactly the confirmed targets |
| `DiffStores.MatchExact` | src-tauri/src/commands/objects_cmd.rs:1359-1371 | a request can pass the check against no other targets than its own iff it has no repeats |
| `DiffStores.MatchIsSetEquality` | src-tauri/src/commands/objects_cmd.rs:1359-1371 | between lists without repeats the check is set equality |
| `DiffStores.SetEqualityForRequest` | src-tauri/src/commands/objects_cmd.rs:1359-1371 | a request is compared as a set with every repeat-free diff iff it has no repeats |
| `DiffStores.SetEqualityForDiff` | src-tauri/src/commands/objects_cmd.rs:1359-1371 | a diff is compared as a set with every repeat-free request iff it has no repeats |
| `DiffStores.MatchIsNotSetEquality` | src-tauri/src/commands/objects_cmd.rs:1359-1371 | equal sets that are refused and different sets that are accepted, when there are repeats |
| `ByteRanges.ParseU64Exact` | src-tauri/src/media_server/mod.rs:72-84 | a bound is accepted iff it is digits with an optional plus and its value fits in 64 bits, and then has that value |
| `ByteRanges.ValueExact` | src-tauri/src/media_server/mod.rs:72-84 | the value of a numeral is decimal: a further digit multiplies it by ten and adds the digit |
| `ByteRanges.ParseDecimal` | src-tauri/src/media_server/mod.rs:90-96 | a printed number parses to itself |
| `ByteRanges.ParseRangeExact` | src-tauri/src/media_server/mod.rs:68-87 | a header parses to a range iff it is `bytes=`, a start, a dash and an end, with each side a number that fits, or one of them left out |
| `ByteRanges.RangeRoundTrip` | src-tauri/src/media_server/mod.rs:68-96 | printing any 64-bit range and parsing it gives it back, so the printed form of an accepted header is canonical |
| `JsonMerge.MergeInto` | src-tauri/src/commands/settings_cmd.rs:113-125 | the merge loop, in any order of the patch's keys, computes the merge |
| `JsonMerge.MergeIdempotent` | src-tauri/src/commands/settings_cmd.rs:113-125 | applying a patch twice is applying it once |
| `JsonMerge.PatchLeafReadable` | src-tauri/src/commands/settings_cmd.rs:113-125 | every leaf of the patch can be read at its path |
| `JsonMerge.BaseKept` | src-tauri/src/commands/settings_cmd.rs:113-125 | members the patch does not reach keep their value |
| `JsonMerge.KeysUnion` | src-tauri/src/commands/settings_cmd.rs:113-125 | where both are objects, at any depth, the keys are the union |
| `JsonMerge.MergeAt` | src-tauri/src/commands/settings_cmd.rs:113-125 | what stands at any path of the result: the patch's value, merged into the base's if both are objects; where the patch has none the base's, unless the patch has a non-object above |
| `JsonMerge.BlocksExact` | src-tauri/src/commands/settings_cmd.rs:113-125 | which is iff some beginning of the path holds a non-object in the patch |
| `JsonMerge.MergeAssociates` | src-tauri/src/commands/settings_cmd.rs:113-125 | two patches can be merged first if the later never puts an object over an earlier non-object |
| `JsonMerge.MergeDoesNotAssociate` | src-tauri/src/commands/settings_cmd.rs:113-125 | otherwise some base tells the difference |
| `JsonMerge.AssociativityExact` | src-tauri/src/commands/settings_cmd.rs:113-125 | so the condition is exact |
| `KeyBuckets.FillBuckets` | src/commands/registry.ts:181-196 | the grouping loop builds the buckets in order of first appearance |
| `KeyBuckets.LeadersExact` | src/commands/registry.ts:198-203 | the reported buckets start at exactly the first positions of the buckets of two or more, in order |
| `Shortcuts.EqualExact` | src/commands/registry.ts:101-109 | two shortcuts are equal iff they have the same key and the same modifiers, in any order, each as often |
| `Shortcuts.ClassExact` | src/commands/registry.ts:122-139 | a class lists exactly the commands whose binding on the platform, `mac` on macOS and `default` elsewhere, is the shortcut, each once in registration order |
| `Shortcuts.KeyExact` | src/commands/registry.ts:101-115 | two shortcuts have the same string form iff they are pairwise equal or one key spells out the other's modifiers |
| `Shortcuts.PlusFreeIsDistinguishable` | src/commands/registry.ts:112-115 | keys without a plus, and the plus key itself, are always told apart |
| `Shortcuts.Registry.constructor` | src/commands/registry.ts:143-144 | a new registry is empty |
| `Shortcuts.Registry.Register` | src/commands/registry.ts:146-153 | appends the definition iff its id is new, and otherwise changes nothing |
| `Shortcuts.Registry.LookupById` | src/commands/registry.ts:155-157 | finds the definition with the id, or none if there is none |
| `Shortcuts.Registry.LookupByShortcut` | src/commands/registry.ts:159-170 | returns the first command that the shortcut runs on the platform, or none iff there is none |
| `Shortcuts.Registry.DetectConflicts` | src/commands/registry.ts:180-215 | reports one conflict for each bucket of two or more, in order of first members |
| `Shortcuts.ReportedClass` | src/commands/registry.ts:198-212 | a reported conflict lists the whole class of its shortcut, first member first |
| `Shortcuts.ReportExact` | src/commands/registry.ts:180-215 | the report is exactly the classes of two or more pairwise equal shortcuts iff no bound key spells out another binding's modifiers |
| `Shortcuts.SpellingExample` | src/commands/registry.ts:180-215 | the key "cmd+x" and Cmd with "x" are reported as one conflict although their class has one member |

## Left out

- Other lock-holding commands (`object_put_text`, `object_set_tags`, `object_set_metadata`, `object_create_folder`, the rest of `object_set_storage_class`): single-lock or per-target variants of the modelled sequences.
- Event emission, cross-account confirmation, cache invalidation after a command: no effect on the registry.
- Races inside the cache: each method is one step, so a read that promotes an old disk entry while a write is between its two layers is not modelled.
- Failing disk operations and entries whose JSON does not parse; a stored value stands for its JSON, and decoding it as the caller's type is a parameter.
- Overflow panics of debug builds, poisoned mutexes, colliding UUIDs.
- `LockProtocol.LossExact`: instants lie at least 300 seconds below the largest 64-bit value, so that no deadline wraps; `StaleIsExpired` covers the rest.
- `JsonMerge.MergeInto`: models the in-place update of the base value on values, so aliasing of the mutable reference is not modelled.
- `Fuzzy.Filter`: the in-place `sort` is a function; which algorithm runs does not matter, because the stable result is unique.
- `Searches.SearchPrefix`: the 32-bit page counter is unbounded, and the listing is finite.
- `Shortcuts.Registry.LookupById`: the insertion-ordered map of definitions is a sequence with unique ids, searched in order.
- Loading, clamping and flushing the recents file; the bookmark store.
- `toDisplayPath`, `fromDisplayPath`, `toClipboardString`, shortcut parsing and formatting, `all` and `byGroup`: one-step string or list functions.
- Log redaction, transfers, credentials, the capability cache, profile validation, S3 and HTTP calls, the user interface: wrappers over unseen code, simple tables or I/O.
