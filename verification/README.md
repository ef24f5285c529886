# Verified model of the Cuppet memory store

Cuppet keeps what an agent has learnt in a durable store that several processes
share, finds records by key through a ternary search trie, and holds the records
of a session in a short-term memory of fixed capacity. This project models those
three, and four smaller cores next to them, and proves what they promise.

**The durable store.** `History` says what a sequence of logged events means, by
comparing stores on their live records: tombstoned records are dropped and access
counts erased. `Wal` has the bytes: big-endian lengths, checksums, payloads, torn
tails, snapshot files. `Store` gives every critical section of a handle as a
function of the directory and the handle, and the disk steps of a compaction one
by one. `Lookup` relates the key index to the records. `System` puts any number of
handles on one directory and lets them take steps and crash in any order; its
theorems hold in every state of every run but those in which a crash has lost the
base of the log (the first exception below). `ExactRuns` adds what `exact` answers
where ids and keys correspond, `SharedKeys` what it answers where they do not.
`DurableStore` is the handle as a class that updates records, position, trie and
files in place, each method proved to have the effect that `Store` and `System`
give it.

**The trie.** `TernaryTree` is the theory of ternary search trees as values;
`Trie` is the arena of index links, written in place, that stands for one.

**Short-term memory.** `StmModel` has the slots and the index with their
representation invariant and the bounded map they stand for, `StmQuery` the
ranked queries, `StmRuns` atomic replacement and whole runs, and
`ShortTermMemory` the class over an array of slots.

**Smaller cores.** `Diagnostics` (a multiset difference by counting),
`CanonicalJson` (key-sorted nested values), `Wilson` (a confidence interval in
exact arithmetic) and `Platforms` (provider groups as a partition).

Seven properties turn out not to hold on all inputs. Each is kept as the code has
it, together with the exact condition under which it holds:

- A crash between the two renames of a compaction leaves no primary snapshot, and
  recovery takes that for an empty base. `Store.CrashBetweenRenames` says exactly
  when nothing is lost, `System.NextKeepsInv` and `System.LostBaseIsLost` the same
  for whole runs.
- A compaction over an unreadable primary removes the previous snapshot before
  anything replaces the primary. `Store.CrashWithUnreadablePrimary` says exactly
  when a crash there loses nothing.
- The snapshot writer does not check the size limit of the reader:
  `Wal.SnapshotFileRoundTrip`, `Store.OversizedCompactionFallsBack`.
- Where several ids share a key, or an id changes its key, `exact` and a scan can
  part. Three steps do it: an unusable record upserted over a usable one
  (`Lookup.SharedKeyHidesRecord`), a path event that marks the record which the
  index names and not the other (`Lookup.StalePathHidesRecord`), and an id upserted
  under a new key (`Lookup.RekeyedRecordAnswersOldKey`). `Lookup.UpsertAgreesIff`
  and `Lookup.StalePathAgreesIff` have the exact conditions for any index,
  `SharedKeys.NextKeepsAnswersIff` and `SharedKeys.RunKeepsAnswers` carry them over
  whole runs.
- Decay can change which record is evicted when scores lie outside the unit
  interval (`StmModel.DecayChangesCandidate`): `StmModel.DecayKeepsCandidateIff`.
- A record that matches more terms can be outranked when scores lie outside the
  unit interval (`StmQuery.ScoreCanOutweighMatch`): `StmQuery.MatchesDominateIff`.
- The canonical form depends on the order of entries exactly when two keys of an
  object compare equal under the locale: `CanonicalJson.FormIgnoresOrderIff`.

What is fixed but unknown is a constant of a type that says all that is used of
it: `CASE_MAPPING` (an idempotent lower-casing of texts), `CODEC` (MessagePack and CRC-32,
where a decoder inverts an encoder that may refuse), `RECENCY`, `LOCALE_ORDER` and
`SHA256` (a digest of fixed length; where a theorem needs that it tells texts apart, it says so). The clock, the writer lock and the result of the square root are
parameters.

## Model

| member | source | states |
|---|---|---|
| `Memory.NormalizeIdempotent` | crates/tst-core/src/memory.rs:102-108 | normalising a key twice is normalising it once, for every idempotent case mapping, also one that turns a letter into several or looks at its context; the store and the trie both rely on it |
| `Memory.NormalFormsAgree` | crates/tst-core/src/memory.rs:102-108 | two texts share a normal form exactly when their words agree up to case, whatever white space separates them |
| `Memory.NormalTerms` | crates/tst-core/src/memory.rs:102-108 | the words of a normal form are the lower-cased words of the text |
| `Memory.WordsSplit` | crates/tst-core/src/memory.rs:102-108 | every white-space character ends a word, and nothing else splits or is lost |
| `Memory.NormalFormSplits` | crates/tst-core/src/memory.rs:102-108 | white space between two texts becomes one blank between their normal forms, or nothing where one of them has no word |
| `Memory.NormalFormOfWord` | crates/tst-core/src/memory.rs:102-108 | a text without white space has its lower case as normal form, on ASCII the usual one |
| `Memory.GapsBecomeBlanks` | crates/tst-core/src/memory.rs:102-108 | however much white space stands between two texts that have words, one blank stands between their normal forms |
| `Memory.BuildCommand` | crates/tst-core/src/trie.rs:130-140 | a key typed in capitals and with three blanks has the normal form of the stored key |
| `Memory.WhiteSpaceProperty` | crates/tst-core/src/memory.rs:103-104 | white space is the 25 code points of the Unicode property |
| `Memory.AsciiCharacters` | crates/tst-core/src/memory.rs:102-108 | on ASCII six characters are white space, the upper-case letters become the lower-case ones and nothing else changes |
| `Memory.RecordUpdates` | crates/tst-core/src/persistence.rs:279-280 | normalising a record and counting an access touch nothing else in it |
| `TernaryTree.LookupAfterInsert` | crates/tst-core/src/trie.rs:29-72 | insertion is map update: the inserted key answers the new id and every other key answers what it did |
| `TernaryTree.EntriesAreLookups` | crates/tst-core/src/trie.rs:64-72 | the in-order walk lists exactly the pairs that lookup answers |
| `TernaryTree.EntriesSorted` | crates/tst-core/src/trie.rs:106-122 | the in-order walk is in strict lexicographic order of keys |
| `TernaryTree.BelowIsPrefixRange` | crates/tst-core/src/trie.rs:74-104 | the walk below a prefix is sorted and lists exactly the stored keys that start with it |
| `TernaryTree.PathsAfterInsert` | crates/tst-core/src/trie.rs:29-62 | insertion adds exactly the non-empty prefixes of its key to the texts that nodes spell |
| `TernaryTree.SizeIsPaths` | crates/tst-core/src/trie.rs:124-126 | no two nodes spell the same text |
| `TernaryTree.SortedKeysUnique` | crates/tst-core/src/trie.rs:106-122 | there is only one sorted listing of a set of keys |
| `Trie.ShapeFrame` | crates/tst-core/src/trie.rs:29-62 | two arenas that agree on what a link reaches read as the same tree from it |
| `Trie.Relink` | crates/tst-core/src/trie.rs:49-60 | when the subtree on one side has been rebuilt, redirecting that link rebuilds exactly that side and touches nothing else |
| `Trie.FindIndex` | crates/tst-core/src/trie.rs:91-104 | the index search ends because links point forward, and finds the node of the tree search |
| `Trie.TernaryTrie.constructor` | crates/tst-core/src/trie.rs:13-17 | a new trie is valid and empty |
| `Trie.TernaryTrie.InsertAt` | crates/tst-core/src/trie.rs:29-62 | the in-place insertion builds the tree insertion, reaches the old nodes and all pushed ones, changes nothing outside the subtree and keeps links forward and unshared |
| `Trie.TernaryTrie.Insert` | crates/tst-core/src/trie.rs:20-27 | the contents become the old contents updated at the normal form; an empty key changes nothing |
| `Trie.TernaryTrie.Get` | crates/tst-core/src/trie.rs:64-72 | answers the contents at the normal form of the key |
| `Trie.TernaryTrie.Collect` | crates/tst-core/src/trie.rs:106-122 | collecting appends the first entries of the walk up to the limit |
| `Trie.TernaryTrie.Prefix` | crates/tst-core/src/trie.rs:74-89 | returns the postings of the first `limit` keys, in lexicographic order, among the stored keys that start with the prefix; an empty prefix returns nothing |
| `Trie.PrefixAnswerUnique` | crates/tst-core/src/trie.rs:74-89 | there is only one such answer |
| `Trie.TernaryTrie.NodeCount` | crates/tst-core/src/trie.rs:124-126 | one node for each distinct non-empty prefix of the keys inserted so far |
| `Trie.KnownKeyAddsNoPrefix` | crates/tst-core/src/trie.rs:29-62 | inserting a stored key again, or a prefix of one, adds no prefix and so no node |
| `History.ApplyDoes` | crates/tst-core/src/persistence.rs:254-277 | record by record: an upsert writes its record, a tombstone marks and dates the one it names, a path event makes stale exactly the records built on that path with another hash; nothing else changes |
| `History.LiveReads` | crates/tst-core/src/persistence.rs:384 | live are the records without a tombstone, as they are but for the access count |
| `History.OutcomeIsLastWrite` | crates/tst-core/src/persistence.rs:254-277 | an id is live after a history exactly when some event writes a live record under it and no later one writes or removes it; it is that record, stale if it was written so or a later path event names one of its files with another hash |
| `History.LiveFoldCongruent` | crates/tst-core/src/persistence.rs:254-277 | what a replay makes live depends only on what was live before |
| `History.ReplayIsIdempotent` | crates/tst-core/src/persistence.rs:176-231 | replaying a log over records that hold its effect already leaves the live records alone |
| `History.ReplayOverlapping` | crates/tst-core/src/persistence.rs:146-252 | a base that holds the first events of a history, under a log that starts earlier, recovers the whole history |
| `History.ReplayWithoutBase` | crates/tst-core/src/persistence.rs:457-464 | losing the base is harmless exactly when the log writes or removes everything that was live in it |
| `Wal.BigEndianRoundTrip` | crates/tst-core/src/persistence.rs:239-241 | big-endian words read back as the number written |
| `Wal.BigEndianOfNumber` | crates/tst-core/src/persistence.rs:196-197 | every byte sequence is the big-endian form of the number read from it |
| `Wal.BigEndianConcat` | crates/tst-core/src/persistence.rs:239-241 | the first byte counts most |
| `Wal.NextOfFrame` | crates/tst-core/src/persistence.rs:189-220 | a whole frame is read back as its event whatever follows |
| `Wal.NextOfTorn` | crates/tst-core/src/persistence.rs:191-210 | less than a whole frame is never read as one |
| `Wal.DecodedIsFrame` | crates/tst-core/src/persistence.rs:189-220 | only frames are read as frames: length, checksum and payload hold and the payload decodes to the event |
| `Wal.FrameLayout` | crates/tst-core/src/persistence.rs:233-241 | a frame is the length and the checksum in four bytes each and the payload; there is one up to 16 MiB |
| `Wal.NextFrameReads` | crates/tst-core/src/persistence.rs:189-217 | on any bytes, a frame with its checksum is decoded or found undecodable, and everything else ends the log: too short, of length zero, over the limit, incomplete or damaged |
| `Wal.ZerosEndLog` | crates/tst-core/src/persistence.rs:196-203 | a zero-filled tail ends the log |
| `Wal.ScanEnds` | crates/tst-core/src/persistence.rs:188-221 | on any bytes, a scan goes on to the first bytes that are no decodable frame and fails only if they are an undecodable one |
| `Wal.ScanUntil` | crates/tst-core/src/persistence.rs:188-221 | scanning a log stops at the first bytes that are no frame, and fails only if those do not decode |
| `Wal.DamagedFrameEndsLog` | crates/tst-core/src/persistence.rs:211-216 | a frame that lost its checksum ends the log, even when whole frames follow |
| `Wal.ScanLog` | crates/tst-core/src/persistence.rs:188-221 | scanning a log with a torn tail finds its events and the end of its last whole frame |
| `Wal.ScanFromBoundary` | crates/tst-core/src/persistence.rs:184-221 | scanning from any frame boundary finds the remaining events |
| `Wal.FittingIsLongest` | crates/tst-core/src/persistence.rs:188-221 | `Fitting` counts the longest prefix of events whose frames fit |
| `Wal.CutLog` | crates/tst-core/src/persistence.rs:188-227 | a log cut at any byte is the frames that fit and a torn tail |
| `Wal.SnapshotFileRoundTrip` | crates/tst-core/src/persistence.rs:514-551 | a written snapshot reads back exactly when its payload is within the limit that only the reader checks |
| `Wal.SnapshotPayloadReads` | crates/tst-core/src/persistence.rs:514-536 | a file is read as a payload exactly if it begins with the magic, its checksum, its length and the payload |
| `Wal.OversizedIsUnreadable` | crates/tst-core/src/persistence.rs:527-534 | a payload over the limit is refused by the reader, unless its length wraps in the 32-bit field to a size within the limit and the checksum of that many bytes collides |
| `Store.ReplayFromBoundary` | crates/tst-core/src/persistence.rs:176-231 | from any frame boundary a replay applies exactly the events past it, cuts off the torn tail and ends at the end of the log |
| `Store.OpenRecovers` | crates/tst-core/src/persistence.rs:124-127 | opening recovers the fold of the whole log over the snapshot |
| `Store.SyncAcrossGenerations` | crates/tst-core/src/persistence.rs:156-165 | a handle of another generation starts over from the snapshot |
| `Store.SyncIsIdempotent` | crates/tst-core/src/persistence.rs:156-165 | synchronising again at once changes nothing |
| `Store.InstalmentsAgree` | crates/tst-core/src/persistence.rs:176-231 | replaying in any number of instalments, with events and torn tails arriving in between, leaves handle and directory exactly as one replay from the start |
| `Store.CutRecovers` | crates/tst-core/src/persistence.rs:176-231 | whatever byte the log is cut at, opening recovers exactly the longest prefix of events whose frames fit and truncates to that boundary |
| `Store.CutResyncs` | crates/tst-core/src/persistence.rs:176-231 | the same for a handle that is open already, on either side of the cut |
| `Store.AppendAfterCut` | crates/tst-core/src/persistence.rs:233-252 | the next append leaves a log that decodes to the surviving events and the new one |
| `Store.NewerSchemaIsRefused` | crates/tst-core/src/persistence.rs:553-564 | a newer schema is refused even where a previous snapshot could be read; an older one is taken over |
| `Store.SnapshotReads` | crates/tst-core/src/persistence.rs:514-536 | a snapshot file is missing, unreadable, or the snapshot that its payload decodes to |
| `Store.BaseOfRecovery` | crates/tst-core/src/persistence.rs:457-484 | a missing primary is an empty base; an unreadable one gives way to the previous snapshot, to an empty base if that is missing, and to an error if both are unreadable |
| `Store.RefusedAppendChangesNothing` | crates/tst-core/src/persistence.rs:233-237 | an event that cannot be encoded or is too long is refused before anything is read or written |
| `Store.CompactionDropsTombstones` | crates/tst-core/src/persistence.rs:380-411 | after a compaction the handle holds exactly the records without a tombstone, access counts included, and the new snapshot reads back as the same; the old one is the previous snapshot, the generation the next, the log empty |
| `Store.CompactionForgetsRemoved` | crates/tst-core/src/persistence.rs:384 | a removed id is unknown after a compaction, to this handle and to every one that opens the directory |
| `Store.UndecodableFrameBlocks` | crates/tst-core/src/persistence.rs:217-229 | a frame that does not decode makes every replay fail without cutting the log, and retrying changes no live record |
| `Store.CrashedCompactionRecovers` | crates/tst-core/src/persistence.rs:380-411 | a crash at any stage of a compaction recovers the same live records; left out are the gap between the renames of an existing primary, and the removal of the previous snapshot while the primary is unreadable |
| `Store.CrashWithUnreadablePrimary` | crates/tst-core/src/persistence.rs:394-396 | once the previous snapshot is removed while the primary is unreadable, the recovery is the same exactly when the log writes or removes every live record of the previous snapshot |
| `Store.CrashBetweenRenames` | crates/tst-core/src/persistence.rs:397-399 | between the renames the recovery is the same exactly when the log writes or removes every live record of the snapshot |
| `Store.CrashBetweenRenamesLoses` | crates/tst-core/src/persistence.rs:397-399 | with an empty log that gap loses every record |
| `Store.UnreadablePrimaryFallsBack` | crates/tst-core/src/persistence.rs:465-472 | an unreadable primary falls back to the previous snapshot: nothing is lost before the log is truncated, afterwards the store is back at the compaction before |
| `Store.OversizedCompactionFallsBack` | crates/tst-core/src/persistence.rs:389-411 | within the reader's limit a compaction keeps the live records; over it the log is truncated and recovery is back at the snapshot before, unless length and checksum collide, when the start of the payload is decoded |
| `Lookup.ExactIsScan` | crates/tst-core/src/persistence.rs:318-327 | where ids and non-empty keys correspond, `exact` names a record precisely when a linear scan finds it, and the same one |
| `Lookup.TouchedReads` | crates/tst-core/src/persistence.rs:325 | an answer counts one access of the record answered with, and of no other |
| `Lookup.RebuiltExactIsScan` | crates/tst-core/src/persistence.rs:439-446 | right after a rebuild `exact` answers with a record that a scan finds, and finds one whenever the scan does, shared keys or not |
| `Lookup.EmptyKeyIsNotIndexed` | crates/tst-core/src/trie.rs:64-69 | the empty key is never found, which agrees with a scan exactly if no usable record has it |
| `Lookup.UpsertAgreesIff` | crates/tst-core/src/persistence.rs:279-288 | whatever index it meets, an upsert keeps the answer for its own key exactly if the record is usable, or no other usable record has the key, or it is a tombstone and the index names another record; for any other key exactly if the index does not name the record there, or neither it nor any other record could be found there |
| `Lookup.StalePathAgreesIff` | crates/tst-core/src/persistence.rs:305-316 | a path event, after which the trie is not rebuilt, keeps the answer for a key exactly if it does not hit the record answered with, or hits all that have the key |
| `Lookup.SharedKeyHidesRecord` | crates/tst-core/src/persistence.rs:284-286 | an unusable record upserted last hides a usable one with the same key |
| `Lookup.StalePathHidesRecord` | crates/tst-core/src/persistence.rs:305-316 | when a path event makes the later of two records with one key stale, the earlier one is no longer found |
| `Lookup.RekeyedRecordAnswersOldKey` | crates/tst-core/src/persistence.rs:279-288 | an id upserted again under another key still answers for the old key |
| `Lookup.RebuiltIsSound` | crates/tst-core/src/persistence.rs:439-446 | a rebuilt index finds every usable record under its key |
| `Lookup.UpsertKeepsSound` | crates/tst-core/src/persistence.rs:279-288 | the insertion after an upsert keeps the index sound without a rebuild |
| `Lookup.StalePathKeepsSound` | crates/tst-core/src/persistence.rs:305-316 | marking records stale keeps the index sound without a rebuild |
| `System.SyncReachesEnd` | crates/tst-core/src/persistence.rs:156-231 | in every reachable state a synchronisation succeeds, ends at the end of a clean log and holds the whole history |
| `System.NextKeepsInv` | crates/tst-core/src/persistence.rs:146-412 | every step of every handle, and every crash, keeps the directory recoverable and every handle on a prefix of the history, except exactly a crash between the renames of a snapshot that holds a live record which the log neither writes nor removes |
| `System.LostBaseIsLost` | crates/tst-core/src/persistence.rs:397-399 | and such a crash loses committed events: opening succeeds and recovers something else |
| `System.HistoryIsCommitted` | crates/tst-core/src/persistence.rs:233-252 | the history of a run is what its steps committed, in append order |
| `System.HandlesHoldPrefixes` | crates/tst-core/src/persistence.rs:146-412 | at any time in any run without such a loss the live records of a handle are what some prefix of the committed events stands for |
| `System.SynchronisedHandlesConverge` | crates/tst-core/src/persistence.rs:156-252 | right after a step that synchronises a handle, it holds what all committed events stand for, across generations and truncations |
| `System.CommittedEventsAreRecovered` | crates/tst-core/src/persistence.rs:124-131 | in every state of every run without such a loss, opening succeeds and recovers every committed event |
| `System.OpenIsEnabled` | crates/tst-core/src/persistence.rs:64-131 | in every reachable state a handle can be opened |
| `System.AppendIsEnabled` | crates/tst-core/src/persistence.rs:233-252 | in every reachable state an open handle can append any event that has a frame |
| `System.SyncIsEnabled` | crates/tst-core/src/persistence.rs:156-174 | in every reachable state an open handle can synchronise |
| `System.ExactIsEnabled` | crates/tst-core/src/persistence.rs:318-327 | in every reachable state an open handle can answer any key |
| `System.CompactIsEnabled` | crates/tst-core/src/persistence.rs:372-412 | in every reachable state an open handle can compact, if the snapshot it would write can be read back |
| `ExactRuns.NextKeepsNames` | crates/tst-core/src/persistence.rs:279-327 | every step keeps the index of every handle sound for its records |
| `ExactRuns.ExactAnswersHistory` | crates/tst-core/src/persistence.rs:318-327 | where ids and keys correspond, `exact` answers a non-empty key in every run with exactly the id that the committed history names, whichever handle is asked |
| `SharedKeys.NextKeepsNormal` | crates/tst-core/src/persistence.rs:279-288 | every step keeps every stored record, on disk and in every handle, under its own id and the normal form of its own key |
| `SharedKeys.NextKeepsAnswersIff` | crates/tst-core/src/persistence.rs:279-327 | with any number of ids to a key, a step of any handle keeps the answers of all handles in agreement with a scan exactly under the condition on its event; only an append can fail to |
| `SharedKeys.RebuildRestoresAnswer` | crates/tst-core/src/persistence.rs:439-446 | whatever was answered before, opening, a tombstone, a compaction or a synchronisation that changed something brings the answer back into agreement |
| `SharedKeys.RunKeepsAnswers` | crates/tst-core/src/persistence.rs:279-327 | in every run whose steps keep the answer for a key, every handle answers it as a scan of its records does |
| `SharedKeys.ExactAnswersSharedKeys` | crates/tst-core/src/persistence.rs:318-327 | in such a run `exact` answers with an id that the committed history names under the key, and finds none only if the history names none |
| `DurableStore.DurableStore.Open` | crates/tst-core/src/persistence.rs:64-131 | opening has the effect of `Store.Open` and leaves an index of the records |
| `DurableStore.DurableStore.ReloadSnapshot` | crates/tst-core/src/persistence.rs:146-154 | reloads records, generation and position, or fails and changes nothing |
| `DurableStore.DurableStore.ReplayFrames` | crates/tst-core/src/persistence.rs:188-221 | the loop applies the events of the scan and stops where the scan stops |
| `DurableStore.DurableStore.ReplayWal` | crates/tst-core/src/persistence.rs:176-231 | has the effect of `Store.Replay`, including the reload when the log has shrunk and the truncation of the tail |
| `DurableStore.DurableStore.SyncWalLocked` | crates/tst-core/src/persistence.rs:156-165 | has the effect of `Store.Sync` |
| `DurableStore.DurableStore.SyncWalIfNeeded` | crates/tst-core/src/persistence.rs:167-174 | the same, and the trie is rebuilt exactly when something changed |
| `DurableStore.DurableStore.Append` | crates/tst-core/src/persistence.rs:233-252 | has the effect of `Store.AppendLocked`; an event without a frame is refused before anything is touched |
| `DurableStore.DurableStore.ApplyEvent` | crates/tst-core/src/persistence.rs:254-277 | does to each record what `History.EventDoes` says of the event |
| `DurableStore.DurableStore.UpsertRecord` | crates/tst-core/src/persistence.rs:279-288 | logs and applies the normalised record and inserts it in the trie, as a step of the machine may |
| `DurableStore.DurableStore.TombstoneId` | crates/tst-core/src/persistence.rs:290-303 | logs nothing for an unknown id; otherwise appends, applies and rebuilds |
| `DurableStore.DurableStore.InvalidatePath` | crates/tst-core/src/persistence.rs:305-316 | appends and applies, and returns the number of fresh records that were built on the path with another hash |
| `DurableStore.DurableStore.Exact` | crates/tst-core/src/persistence.rs:318-327 | answers by index and records after a synchronisation and bumps one access count |
| `DurableStore.DurableStore.Compact` | crates/tst-core/src/persistence.rs:372-412 | without the writer lock nothing changes; with it the effect is `Store.Compact`, exactly the records without a tombstone remain and the trie is rebuilt |
| `DurableStore.DurableStore.InstallSnapshot` | crates/tst-core/src/persistence.rs:386-411 | passes through the stages of `Store.DiskAt` in order |
| `DurableStore.DurableStore.RebuildTrie` | crates/tst-core/src/persistence.rs:439-446 | whatever order the records are walked in, the trie becomes an index of the usable ones |
| `DurableStore.StaleCountGrows` | crates/tst-core/src/persistence.rs:305-316 | the stale count grows by the fresh records that were built on the path with another hash |
| `StmModel.RebuildRestoresIndex` | crates/tst-core/src/stm.rs:69-82 | the index of a valid memory is the one a rebuild reads off its slots |
| `StmModel.KeysAreDistinct` | crates/tst-core/src/stm.rs:69-140 | no two slots of a valid memory hold records of one key |
| `StmModel.RebuildEstablishesRep` | crates/tst-core/src/stm.rs:69-82 | over distinct keys a rebuild makes a valid memory, whatever the index was |
| `StmModel.EvictionCandidate` | crates/tst-core/src/stm.rs:142-155 | the weakest unpinned slot by score and update, the earliest of equals; none only if every entry is pinned |
| `StmModel.CandidateIsUnique` | crates/tst-core/src/stm.rs:142-155 | only one slot answers that description |
| `StmModel.ReinforcementKeepsIdentity` | crates/tst-core/src/stm.rs:86-98 | reinforcing keeps identity and verification, takes over value and date, counts an access, adds a tenth to the score up to one, keeps or gains the pin, appends the evidence and lets new hashes win |
| `StmModel.UpsertRefinesMap` | crates/tst-core/src/stm.rs:84-140 | upsert keeps index and slots in bijection and is a capacity-bounded map update: reinforce, fill, or evict an unpinned minimum; it fails exactly when the key is new and the memory is full of pins, and then changes nothing |
| `StmModel.ContentsFitSlots` | crates/tst-core/src/stm.rs:279-289 | there are as many keys as occupied slots |
| `StmModel.MergesIff` | crates/tst-core/src/stm.rs:157-165 | decay maps two different scores to one exactly by a factor of zero or at either end of the clamp |
| `StmModel.DecayKeepsCandidateIff` | crates/tst-core/src/stm.rs:157-165 | decay by a non-negative factor keeps the eviction candidate exactly unless a record that is older, or as old and earlier, has a score that merges with the candidate's: the factor is zero, both products reach one, or neither score is positive |
| `StmModel.DecayChangesCandidate` | crates/tst-core/src/stm.rs:157-165 | scores of 1.5 and 2.0 and a factor of one: the stronger, older record becomes the candidate |
| `StmModel.DecayKeepsCandidate` | crates/tst-core/src/stm.rs:157-165 | for scores in the unit interval and a factor in (0, 1] it always does |
| `StmModel.UnitDecay` | crates/tst-core/src/stm.rs:157-165 | decay scales an unpinned score within the unit interval and leaves a pinned record as it is |
| `StmModel.DecayChangesScores` | crates/tst-core/src/stm.rs:157-165 | for any score and factor the product is cut off at zero and one, and nothing else in a record changes |
| `StmModel.RemoveRefinesMap` | crates/tst-core/src/stm.rs:265-277 | removing takes out exactly the named record and reports whether it was there |
| `StmRuns.InsertAllRefinesMap` | crates/tst-core/src/stm.rs:291-314 | staging succeeds exactly when the distinct keys fit and then holds the first record of each |
| `StmRuns.ReplacementKeepsPins` | crates/tst-core/src/stm.rs:250-259 | a replacement succeeds exactly when pinned and new keys fit; then every pin is unchanged, each other key holds its first new entry and nothing else remains |
| `StmRuns.StepKeepsPins` | crates/tst-core/src/stm.rs:84-277 | each operation keeps the bijection, the capacity and every pin it is not told to remove |
| `StmRuns.RunKeepsRep` | crates/tst-core/src/stm.rs:84-314 | every run keeps the bijection and the capacity |
| `StmRuns.PinsSurviveRuns` | crates/tst-core/src/stm.rs:142-155 | no run evicts a pin: it stays, pinned and under its id, until its key is removed |
| `StmRuns.RunKeepsScores` | crates/tst-core/src/stm.rs:157-165 | scores that come in within the unit interval stay there in every run |
| `StmQuery.RankingIsArrangement` | crates/tst-core/src/stm.rs:182-203 | the ranking arranges exactly the selected records by relevance, then newer update, then slot |
| `StmQuery.TopOfRanking` | crates/tst-core/src/stm.rs:197-205 | no omitted candidate goes before a returned one, and candidates are omitted only when the limit is used up |
| `StmQuery.MatchesDominate` | crates/tst-core/src/stm.rs:14-23 | for scores in the unit interval one more matched term outweighs score and recency together |
| `StmQuery.FresherOutranks` | crates/tst-core/src/stm.rs:14-23 | of two records that match equally and score the same the fresher outranks the other |
| `StmQuery.StrongerOutranks` | crates/tst-core/src/stm.rs:193-203 | of two records that match equally and are equally fresh the one with the higher score outranks the other |
| `StmQuery.QueryPrefersMatches` | crates/tst-core/src/stm.rs:174-206 | no omitted candidate matched more terms than a returned one |
| `StmQuery.ContainsIff` | crates/tst-core/src/stm.rs:184-185 | the search finds a term exactly if it stands somewhere in the text |
| `StmQuery.MatchesCountTerms` | crates/tst-core/src/stm.rs:178-185 | the matches are the terms that occur in the key or in the lower-cased value |
| `StmQuery.QueryPicksBest` | crates/tst-core/src/stm.rs:174-206 | the result lists accessed records of slots that are pinned or match a term, best first by ten a match, score and boost, then by update, then by slot; one is missing only if the limit is reached, and then every returned one comes before it |
| `StmQuery.ResultPrefersMatches` | crates/tst-core/src/stm.rs:174-206 | for scores in the unit interval no omitted record matches more terms than a returned one |
| `StmQuery.QueryCountsAccesses` | crates/tst-core/src/stm.rs:189-191 | a query counts one access of every record that answers it, returned or not, and changes nothing else |
| `StmQuery.AnyMatchIff` | crates/tst-core/src/stm.rs:171-188 | a query is understood exactly if a term occurs in some record; pins alone do not count |
| `StmQuery.MatchesDominateIff` | crates/tst-core/src/stm.rs:193 | for any scores: one record outranks another at all update times and whenever the query runs exactly if the other's score is ahead by at most ten for each term that the first matches more, less four |
| `StmQuery.ScoreCanOutweighMatch` | crates/tst-core/src/stm.rs:193 | a pinned record with a score of 15 outranks one match |
| `StmQuery.RecentIsArrangement` | crates/tst-core/src/stm.rs:219-233 | the fallback arranges, newest first, exactly the entries with other ids, each as often as it is stored |
| `StmQuery.EntriesConcat` | crates/tst-core/src/stm.rs:237-239 | the entries are those of the slots one after the other |
| `StmQuery.EntriesOfOne` | crates/tst-core/src/stm.rs:237-239 | an empty slot has no entry, an occupied one its own |
| `StmQuery.IdsOfReads` | crates/tst-core/src/stm.rs:221-222 | what the fallback leaves out is told by id |
| `StmQuery.PaddingIsNewest` | crates/tst-core/src/stm.rs:208-235 | the padded result is the plain one when any term matched; otherwise it goes on with stored records that the result lacks, newest first, each at most as often as stored; one is left out only when limit or fallback is used up, and then none of those added is older |
| `StmQuery.StepBoostIsBoost` | crates/tst-core/src/stm.rs:17-23 | a boost with the promised maximum, decrease and half-life exists |
| `StmQuery.BoostReads` | crates/tst-core/src/stm.rs:14-23 | the boost is four at first and is halved every thirty minutes |
| `ShortTermMemory.ShortTermMemory.constructor` | crates/tst-core/src/stm.rs:54-67 | a new memory is valid and empty |
| `ShortTermMemory.ShortTermMemory.RebuildIndex` | crates/tst-core/src/stm.rs:69-82 | reads the index off the slots; a valid memory is left as it was |
| `ShortTermMemory.ShortTermMemory.UpsertEntry` | crates/tst-core/src/stm.rs:84-140 | does what `StmModel.Upsert` says, hence the bounded map update |
| `ShortTermMemory.ShortTermMemory.Place` | crates/tst-core/src/stm.rs:111-138 | vacates a slot and fills it with the next generation |
| `ShortTermMemory.ShortTermMemory.DecayScores` | crates/tst-core/src/stm.rs:157-165 | scales and clamps every unpinned score in place |
| `ShortTermMemory.ShortTermMemory.Query` | crates/tst-core/src/stm.rs:167-169 | returns the best of the records that answer the query and counts an access of each that does |
| `ShortTermMemory.ShortTermMemory.QueryMatched` | crates/tst-core/src/stm.rs:174-206 | the same, and reports whether a term occurs in some record |
| `ShortTermMemory.ShortTermMemory.QueryWithRecent` | crates/tst-core/src/stm.rs:208-235 | returns the best of the records that answer, and if no term occurred anywhere, after them the newest others up to limit and fallback |
| `ShortTermMemory.ShortTermMemory.ReplaceUnpinnedEntries` | crates/tst-core/src/stm.rs:250-259 | swaps in the staged memory or leaves this one untouched |
| `ShortTermMemory.ShortTermMemory.InsertExactEntry` | crates/tst-core/src/stm.rs:291-314 | inserts without evicting, keeps a known key as it is, and changes nothing when full |
| `ShortTermMemory.ShortTermMemory.RemoveKey` | crates/tst-core/src/stm.rs:265-277 | removes exactly the named record |
| `ShortTermMemory.ShortTermMemory.Len` | crates/tst-core/src/stm.rs:279-281 | counts the stored records |
| `Diagnostics.IntroducedDiagnosticCount` | crates/tst-core/src/editing.rs:342-363 | the size of the multiset difference of staged less base signatures, and, where the digest tells the texts apart, of staged less base pairs of kind and covered text; independent of both orders |
| `Diagnostics.SignatureDecides` | crates/tst-core/src/editing.rs:365-369 | where the digest tells the texts apart, two signatures are equal exactly if kind and covered text are |
| `Diagnostics.CountOfFindings` | crates/tst-core/src/editing.rs:342-369 | counting signatures is counting pairs of kind and covered text |
| `Diagnostics.ReplacedErrorIsIntroduced` | crates/tst-core/src/editing.rs:618-625 | an edit that replaces one syntax error by another of the same kind and place introduces one |
| `Diagnostics.MovedKeepsSignature` | crates/tst-core/src/editing.rs:365-369 | a diagnostic that only moved keeps its signature |
| `Diagnostics.OutOfRangeIsEmpty` | crates/tst-core/src/editing.rs:365-369 | a span outside the source, or reversed, counts as the empty text |
| `Diagnostics.NothingIntroduced` | crates/tst-core/src/editing.rs:342-363 | nothing is introduced exactly when the staged signatures are among the base ones with multiplicity |
| `Diagnostics.IntroducedLessResolved` | crates/tst-core/src/editing.rs:342-363 | introduced less resolved is the change in number, so at least staged less base are introduced |
| `CanonicalJson.SameFormIsEquivalent` | scripts/lib/benchmark-contract.ts:352-354 | one form means equal up to the order of entries at every depth, whether keys tie or not |
| `CanonicalJson.CanonicalForm` | scripts/lib/benchmark-contract.ts:352-354 | two values have one canonical form exactly when they are equal up to the order of entries at every depth, given that no two keys of one object of the first compare equal |
| `CanonicalJson.FormOrdersEntries` | scripts/lib/benchmark-contract.ts:431-435 | the form is the value itself but for the order of entries, with no key behind one that the locale puts after it |
| `CanonicalJson.FormIgnoresOrderIff` | scripts/lib/benchmark-contract.ts:431-435 | the form ignores the order of entries exactly when no two keys of an object compare equal |
| `CanonicalJson.SortIdempotent` | scripts/lib/benchmark-contract.ts:431-435 | the canonical form is its own canonical form, for every value |
| `Wilson.BoundsAreRoots` | scripts/lib/benchmark-contract.ts:445-453 | for z = 1.96 the bounds are exactly the two roots of the score equation and enclose the rate within the unit interval, so the clamps never bind |
| `Wilson.RootReads` | scripts/lib/benchmark-contract.ts:445-453 | the equation is (1 + w) x^2 - (2 p + w) x + p^2 = 0 |
| `Wilson.RadicandReads` | scripts/lib/benchmark-contract.ts:451 | what the root is taken of |
| `Wilson.NoObservationNoInterval` | scripts/lib/benchmark-contract.ts:446 | there is no interval exactly if there is no observation |
| `Platforms.NormalizeProviderIdIdempotent` | packages/cli/src/platforms.ts:289-291 | normalising an identifier twice is normalising it once |
| `Platforms.ProviderIdReads` | packages/cli/src/platforms.ts:289-291 | white space around an identifier is dropped and the rest lower-cased |
| `Platforms.SameProviderIff` | packages/cli/src/platforms.ts:285-291 | identifiers are the same provider exactly if they agree up to case and the white space around them |
| `Platforms.TrimmedCharacters` | packages/cli/src/platforms.ts:289-291 | what is trimmed is white space and the byte order mark, but not the next-line character |
| `Platforms.ListedIsGrouped` | packages/cli/src/platforms.ts:31-55 | every identifier in the override table is grouped by the rule that lists it, so the rules do not overlap |
| `Platforms.GroupIsStable` | packages/cli/src/platforms.ts:262-270 | a group is its own group, and grouping looks only at the normal form |
| `Platforms.GroupReads` | packages/cli/src/platforms.ts:262-270 | four identifiers belong to another group, every other provider is its own |
| `Platforms.DescriptorMatchesGroup` | packages/cli/src/platforms.ts:97-106 | a descriptor matches exactly the providers of its group, whatever observed identifiers are added to it |
| `Platforms.BuildProviderCatalog` | packages/cli/src/platforms.ts:81-121 | one descriptor for each group with an observed identifier, matching that group and counting its models and integrations |
| `Platforms.CountsAreOfGroup` | packages/cli/src/platforms.ts:101-116 | a descriptor counts the models and integrations of its group one by one |
| `Platforms.UniqueIdsAreDistinct` | packages/cli/src/platforms.ts:277-279 | each identifier is listed once |
| `Platforms.Observe` | packages/cli/src/platforms.ts:272-275 | the observed identifiers are the non-blank normal forms, each once |
| `Platforms.Group` | packages/cli/src/platforms.ts:89-95 | the groups of the observed identifiers, each once, with exactly its observed identifiers in order |
| `Platforms.CatalogPartitions` | packages/cli/src/platforms.ts:105-106 | every observed non-blank provider matches exactly one descriptor, a blank one none |
| `Platforms.CountsAddUp` | packages/cli/src/platforms.ts:115-116 | the counts of all descriptors sum to the number of non-blank models and integrations |
| `Platforms.MatchingAgrees` | packages/cli/src/platforms.ts:150-158 | asking by descriptor and asking by its identifier give the same answer |

## Left out

- Files, locks, fsync, permissions and I/O errors: a critical section is one step, a disk write one assignment; where a decoder or a snapshot fails, the error path is modelled.
- `DurableStore.DurableStore.TombstoneId`: its two critical sections run without another handle in between; `System` interleaves them freely, as a synchronisation and an append.
- `DurableStore.DurableStore.InvalidatePath`: the count it returns is stated for the same sequential case; with other handles in between, their events may be counted too.
- `System.NextKeepsInv`: a step that ends in an error is not a step of the machine, and a compaction step needs a payload that the codec accepts and the reader's limit allows, so primary snapshots stay readable; `Store.OversizedCompactionFallsBack` and `Store.CrashWithUnreadablePrimary` treat the rest by themselves.
- `System.CommittedEventsAreRecovered`: for the same reason, compactions over the reader's limit are in no run.
- `DurableStore::query`: ids are filtered after the trie lookup, so its result can be short and no completeness can be claimed.
- `RecoveryReport`: the warnings and byte counts of a recovery.
- Wrap-around and saturation of 64-bit counters and generations: numbers are unbounded.
- `StmModel.UpsertRefinesMap`: scores are exact reals, so rounding and not-a-number are not modelled.
- `Wilson.BoundsAreRoots`: exact arithmetic; the rounding of floating point could make a clamp bind.
- `ShortTermMemory::entries_mut` and deserialisation: a caller can break the invariant there; `StmModel.RebuildEstablishesRep` says what a rebuild restores.
- `is_promotable`: one branch decides each case.
- Labels, descriptions, capabilities and the display order of provider descriptors.
- Integer-like keys, which a JavaScript object reorders by itself.
- Parsing, target resolution and workspace paths of the editor, the benchmark drivers, the games, the daemon and the command line.
