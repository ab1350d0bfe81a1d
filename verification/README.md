# A verified model of the zonedns engine

zonedns is an authoritative DNS zone engine. A primary keeps records in a store of nested maps and
slices, stages, commits or rolls back changes, and ships its zone to secondaries as full snapshots
(AXFR) or as deltas between serials (IXFR). Updates go through a write-ahead journal from which the
zones are rebuilt after a crash. Answers come from a TTL cache or from the zone, and every zone
answer must carry a stored signature made by a key of the current verification set.

The project describes each step of these components as a function or relation on values, carries
the steps out in place in classes with arrays, fields and loops that are proved to do exactly
that, and proves properties of whole runs about the descriptions.

* `Model`, `Names`, `Records`, `Validation`: data types, canonical names, zone routing, record
  validity, and the content of a record store as nested maps of lists.
* `RecordStore`: the store as the program keeps it, backing arrays compacted in place.
* `FlatStore`, `Listing`: a store means a flat map from (name, type, rdata) to TTL, on which changes
  are single-key writes; the sorted listing is a function of that map.
* `Zones`, `Serials`, `Transfer`, `Replication`, `ReplicationRuns`: the versioned zone, deltas and
  snapshots, and runs of a primary with a secondary.
* `Orphans`: changes that one side applied and the other took back, and when that shows.
* `Journals`, `Updates`, `UpdateService`, `StartUp`: the journal, the update service, crash recovery,
  and the replay on the zone objects.
* `Keyrings`, `Wire`, `Signers`, `Resigning`, `SignedRuns`, `SignedAnswers`, `Seeding`: keys and
  rollover, the signed bytes, the stored signatures, runs in which every answer verifies, the signer
  behind the resolver and at the replay, and the seeding of the zones.
* `Caches`, `Resolvers`: the response cache, resolution, and bounded staleness.
* `Sorting`: the library sort.

## Where the code and its promises part

The code is kept as it is; where a promise fails, a lemma shows the failure and another says exactly
when the promise holds.

* **Serial.** `Commit` never calls `NextSerial`, while the serial test
  (`internal/zone/zone_verify_test.go:32-38`), the documentation and the demonstration
  (`cmd/zonedns/main.go:354-372`) need it to. Zones carry a rule. `Frozen` is the code as written:
  `FrozenDeltaIsEmpty`, `FrozenConvergence` and `FrozenExample` show that incremental transfer then
  ships nothing. `Advancing` is the intended form: serial, SOA serial and history entry move to
  `NextSerial`. `CommitAdvancesSerial` says that the test's expectation holds exactly for
  `Advancing` below the wrap point. Convergence is proved for `Advancing`; recovery, undo,
  refinement, staleness and signatures hold under both rules.
* **Wrap.** History entries are selected with a plain `>`. `AfterComplete` and `PlainOrderAgrees`: the
  selection is complete, and agrees with RFC 1982, exactly when no serial wrapped. `WrapExample`.
* **History that starts late.** Nothing checks that the history reaches back to the requested serial;
  `HistoryTooShort` says exactly when the delta is enough all the same.
* **Three reads.** A delta is built from three locked reads. The commit right after what is served and
  before the range is read is lost unless it had no effect (`LostUpdate`): the one between the second
  and the third read, or after the first if that already ended the call.
* **Failed commit.** A rollback after a failed hook, or after an append whose sync failed, leaves the
  journal entry, and after a failed hook the history entry too, under the serial of the next commit.
  `LostChanges` is the theorem for any interleaving; `FailedCommitResurfaces` says exactly when
  recovery differs, `FailedCommitLeaks` and `ConvergesExactly` when a secondary does. With the serial
  moved in the commit, the rollback also leaves the SOA one ahead of the serial until the next commit.
* **Full transfers.** One taken while a change is staged carries it: harmless if the change commits
  (`DirtyTransferConverges`), and `DirtySnapshotLeaks` covers the rollback. One taken right after a
  failed commit repairs nothing: the failed entry goes out with the next delta (`FullTransferCleans`).
* **Broken deltas.** A delta with a refused operation leaves what went before it, and breaks off again
  each time (`BrokenDeltaStaysBroken`); `FailedDeltaCanBeRetried` says exactly when a corrected one
  makes up for it.
* **Unknown change kind.** The error is raised after the RRset was compacted in place;
  `UnknownKindDamage` says exactly when no RRset changes, `UnknownKindRemoves` what is lost.
* **CNAME deletes** are accepted and journalled but cannot be replayed, and a line longer than the
  scanner's buffer cannot be read back: `CrashRecovery`, `CnameDeleteBlocksRecovery`.
* **Start-up order.** Seeds are signed before the journal is replayed, and hooks are set after:
  `RecoveredAnswers` says exactly which answers verify until a reload.
* **Applied name.** An upsert reports the name as spelled and the hook signs under that spelling;
  `MisspeltUpsert` says exactly when the answer still verifies, for RRsets that were there and for new
  ones, and `MisspeltExample` is the record of the serial test.
* **Shared signatures.** Zones share one map of signatures by name and type. `RunKeepsSigned` covers
  zones that do not lie inside one another; `SharedName` says exactly what happens where they do.
* **Zone names.** Stored records can be applied again exactly for zones whose canonical name is not empty
  and canonical once and for all (`ProperZoneExactly`): not for the root, not for a doubled dot. And the
  update service canonicalises the zone name while the resolver does not, so the names it accepts route
  to the zone exactly when that is stored under its canonical name (`AcceptedNamesRoute`,
  `UnroutedExample`).
* **Canonical names** are not idempotent; `CanonicalTwice` says exactly when they are.
* **Rollover** activates a key at once even if its start lies in the future, and drops lapsed keys from
  the verification set; `RolloverKeeps` and `RolloverKeepsSigned` say exactly when signing and answers
  survive, and `Spoils` in `SignedRuns` lists what can cost a single RRset its signature.
* **Standing delta.** A delta that does not move the serial forward still adds a history entry
  (`StandingDelta`). The entry a secondary adds is an SOA record that its own clients refuse
  (`ChainedDelta`).
* **Under way.** Between staging and re-signing a query meets the new list under the old signature:
  `StagedAnswers`.
* **Signed bytes** do not determine the list, because rdata carries no length (`SwallowedExample`); they do
  where no rdata holds a zero byte (`SameBytes`).
* **Long labels.** The length byte is taken modulo 256; `NameDecodes` says exactly which names can be
  read back.

## Conventions

Strings are ASCII, one character per byte. 32- and 64-bit integers are subset types with their wrap-
around written out. Times are unbounded integers in seconds. The address parser, the length of a
journal line, the signing function and the verifying function are constants about which nothing is
known; where signatures must verify, `GenuineVerifies` (a genuine signature verifies) is a
precondition, and `OnlyGenuineVerifies` (between keys of the ring, a signature verifies for no other
payload: the ideal that a signature scheme and its hash approximate) is one more for the statements
that say an answer does not verify, and `OwnKeyVerifies` (nor under another key) for
`RolloverAnswers`. The outcome of the re-signing hook, of a journal write, of its sync and of a
notification are parameters. Capacity growth of a slice and the order in which maps are walked are
arbitrary. Every lemma switches automatic induction off.

## Model

| member | source | states |
|---|---|---|
| RecordStore.Compact | internal/record/record.go:40-45 | the loop that overwrites the array it reads leaves exactly the records with other rdata, in order, at the front, and does not touch the cells behind them |
| RecordStore.Append | internal/record/record.go:60 | appending in place or into a grown array yields the old cells plus the record |
| RecordStore.Store.Apply | internal/record/record.go:26-63 | the in-place store changes exactly as the value-level description says, on every path including rejection and unknown kinds, touching no array but its own and new ones |
| RecordStore.Store.Lookup | internal/record/record.go:65-80 | a lookup hands out a fresh copy of the canonical name's RRset, so later in-place rewriting cannot reach it |
| RecordStore.Store.All | internal/record/record.go:82-101 | whatever order the maps are walked in, the result is the sorted list of exactly the stored records, and on well-formed content the canonical listing |
| RecordStore.Store.Names | internal/record/record.go:103-112 | all names with an entry, empty ones included, in byte order and each once |
| RecordStore.Store.Snapshot | internal/record/record.go:114-126 | a deep copy: equal content, all arrays new |
| Records.ApplyKeepsWellFormed | internal/record/record.go:30-62 | accepted changes keep keys lower-case, records filed under their name and type, and rdata unique in each RRset |
| Records.ApplyLeavesGapless | internal/record/record.go:47-56 | accepted changes leave no name without a type and no type without a record |
| Records.UnknownKindDamage | internal/record/record.go:40-59 | a change of unknown kind reports an error yet leaves every RRset unchanged exactly when no record but possibly the last carries the rdata |
| Records.UnknownKindExample | internal/record/record.go:57-59 | the concrete damage: two addresses become one address twice |
| Records.UnknownKindNames | internal/record/record.go:34-39 | and an entry for the name is left behind even where there was none |
| Records.PriorityRange | internal/record/validate.go:37-49 | mail exchange data is a priority and a host; a priority in decimal is valid up to 65535, and a minus only before zero |
| Records.ManagedRData | internal/record/validate.go:16-55 | which rdata each type may carry: an address of its own family, a target that is not blank, two words, a text of 1 to 255 bytes; SOA, signatures and unknown types are refused |
| Records.DecimalReads | internal/zone/zone.go:187 | the decimal text of a serial is the one text without a leading zero that reads as it |
| FlatStore.ApplyRRSet | internal/record/record.go:40-62 | an accepted change rewrites one RRset only: old order without the rdata, new record last |
| FlatStore.ApplyRefinesStep | internal/record/record.go:26-63 | on the flat map (name, type, rdata) to TTL an accepted change is one insert or one removal |
| FlatStore.UnknownKindRemoves | internal/record/record.go:40-59 | on the flat map a change of unknown kind removes the record it names, unless that is the last of its RRset or not there |
| FlatStore.RecordsAreFlat | internal/record/record.go:82-101 | the stored records are exactly the entries of the flat map |
| FlatStore.LastWriterWins | internal/zone/zone.go:180-184 | after a log, a key it writes has one value whatever came before, and other keys are untouched |
| FlatStore.PrefixAbsorption | internal/journal/replay.go:14-18 | any prefix of a log followed by the whole log has the effect of the log once |
| FlatStore.OrphanChange | internal/zone/zone.go:180-184 | a change only one side made disappears after a common log exactly when the log rewrites its key or it had no effect |
| Orphans.LostChanges | internal/zone/zone.go:140-149 | for any interleaving of kept and lost changes, playing all gives what playing the kept ones gives exactly when every key that a lost change was the last to write ends with that change's own effect |
| Names.ByteOrder | internal/record/record.go:91-99 | names and rdata compare in byte order: a proper prefix first, else the first character that differs decides |
| Listing.ListedIsSorted | internal/record/record.go:91-99 | the listing is strictly ascending and holds each record once |
| Listing.ListingOrder | internal/record/record.go:91-99 | that is by name, then by the number of the type, then by rdata |
| Listing.StrictlySortedUnique | internal/record/record.go:91-99 | the sort key decides the order: there is one strictly sorted list of given records |
| Listing.ListingIsContent | internal/record/record.go:82-101 | two stores list the same exactly when their flat maps are equal |
| Names.CaseFolds | internal/record/record.go:12-15 | lower-casing leaves no capital and identifies a letter with its other case and nothing else |
| Names.CanonicalTwice | internal/record/record.go:12-15 | a second canonicalisation changes nothing exactly when the first leaves no dot or space at the end |
| Names.FixedPointShape | internal/record/record.go:12-15 | which names are their own canonical form |
| Names.InZoneIsFixedPoint | internal/update/apply.go:19-23 | names accepted for a properly named zone are fixed points of canonicalisation |
| Names.RouteMatchIsLabelSuffix | internal/resolver/resolver.go:99 | the byte comparison of the routing loop holds exactly for suffixes of whole labels |
| Names.InZoneRoutes | internal/update/apply.go:21 | on one spelling of the zone, the update service's membership test and the resolver's routing test agree |
| Names.FindZone | internal/resolver/resolver.go:95-107 | the loop returns the longest stored zone whose labels end the query's labels, and nothing exactly when there is none |
| Resolvers.UpdateNamesRoute | internal/resolver/resolver.go:95-113 | every name a valid update of a canonically stored zone uses routes to that zone or a more specific one |
| Resolvers.RouteUnique | internal/resolver/resolver.go:98-104 | the longest match is unique, so the walking order does not matter |
| Resolvers.ZoneRoutesToItself | internal/resolver/resolver.go:115-121 | asking for the SOA by zone name finds the zone that was routed to |
| Validation.AcceptedStaysAcceptable | internal/update/apply.go:12-28 | what a valid update of a properly named zone stores is valid again and is stored under the same name again |
| Validation.AcceptedUpdates | internal/update/apply.go:12-28 | an update is accepted exactly if it is an upsert or delete of a valid record whose labels end in the zone's, and no CNAME upsert |
| Validation.ProperZoneExactly | internal/update/apply.go:12-28 | all valid updates of a zone have that property exactly when the zone's canonical name is not empty and canonical once and for all |
| Validation.UpdateKeepsReappliable | internal/record/validate.go:12-57 | updates keep the whole content re-appliable, so no later transfer or replay refuses it |
| Validation.ImproperZoneExample | internal/record/record.go:12-15 | for a zone named with two trailing dots a stored name moves the second time |
| Validation.RootZoneExample | internal/record/validate.go:12-15 | for the root zone a stored record is refused the second time |
| Validation.SpeltZoneExample | internal/record/record.go:12-15 | a zone spelled with capitals and a trailing dot is proper |
| Validation.AcceptedNamesRoute | internal/update/apply.go:19-23 | every name an update of a zone may use can be routed to it exactly when the zone is stored under its canonical name and that is not empty |
| Validation.UnroutedExample | internal/resolver/resolver.go:98-104 | a zone stored as "COM." accepts updates under "com" that never route to it |
| Serials.AdvanceClosedForm | internal/zone/version.go:7-12 | n successors have the closed form of one cycle through 1 .. 2^32-1 and never yield 0 |
| Serials.AdvanceIsLater | internal/zone/version.go:7-12 | fewer than 2^31-1 successors are later in the order of section 3.2 of RFC 1982 |
| Serials.PlainOrderAgrees | internal/zone/zone.go:162-166 | the plain comparison agrees with that order exactly when no wrap lies between |
| Zones.Zone.StageChange | internal/zone/zone.go:81-100 | staging applies the change and keeps an independent copy of the state before it |
| Zones.StagedChange.Commit | internal/zone/zone.go:116-138 | version, serial, SOA, history and outcome of a commit, of a repeated commit and of one whose hook fails |
| Zones.StagedChange.Rollback | internal/zone/zone.go:140-149 | a rollback restores records, serial and version and nothing else; after a commit it does nothing |
| Zones.StageAndUndo | internal/zone/zone.go:81-149 | any last-in-first-out nesting of staged and rolled back changes restores the zone exactly, RRset order included, on the rewritten arrays |
| Zones.Zone.Since | internal/zone/zone.go:152-168 | the loop over the history returns exactly the changes of the selected entries, or an error for an empty history |
| Zones.Zone.Snapshot | internal/zone/snapshot.go:9-21 | a snapshot holds name, meta, serial and the canonical listing |
| Zones.Zone.ApplyFull | internal/zone/snapshot.go:34-54 | clearing and refilling in place, stopping at the first refused record with serial, meta and history still old |
| Zones.Zone.ApplyDelta | internal/zone/zone.go:174-190 | operations applied in place after the serial check, stopping at the first refused one; then serial, SOA, version and history |
| Zones.BatchAccepted | internal/zone/zone.go:180-184 | a batch goes through exactly when every change in it is acceptable, and then equals applying all |
| Transfer.BuildDelta | internal/transfer/transfer.go:126-144 | without a commit between the reads the delta is that of one state |
| Transfer.DeltaOffered | internal/zone/zone.go:152-168 | a delta is offered exactly when the secondary is at the primary's serial or the primary has a history; otherwise the call is an error |
| Transfer.CommitAdvancesSerial | internal/zone/zone_verify_test.go:32-38 | the serial test's expectation holds exactly for the advancing rule below the wrap point |
| Transfer.FrozenDeltaIsEmpty | internal/zone/zone.go:120-127 | as written, the serial stays and no delta from it carries anything, whatever was committed |
| Transfer.CommitsLeave | internal/zone/zone.go:116-138 | serial, meta, records and history after any run of commits |
| Transfer.AfterComplete | internal/zone/zone.go:161-166 | the selected entries are the whole log exactly when no serial wrapped on the way |
| Transfer.OutOfStep | internal/zone/zone.go:174-179 | a delta whose range does not start at the local serial is refused and leaves the whole zone state untouched |
| Transfer.FailedDeltaCanBeRetried | internal/zone/zone.go:174-190 | after a delta that broke off, a corrected one with the same beginning leaves what it alone would have left exactly when the refused operation did no damage that it does not write over |
| Transfer.BrokenDeltaStaysBroken | internal/zone/zone.go:174-190 | a delta that breaks off breaks off again when it is sent again |
| Transfer.ListingRebuilds | internal/zone/snapshot.go:44-48 | replaying the listing of a re-appliable store rebuilds its flat map |
| Transfer.SnapshotRoundTrip | internal/zone/snapshot.go:34-54 | a full transfer is never refused and gives the secondary the primary's records, listing, serial and meta |
| Replication.DeltaBetween | internal/transfer/transfer.go:126-144 | reads after commits ja, jb, jc: the delta holds exactly the changes up to the second read under the serial of the third |
| Replication.SecondaryHistory | internal/zone/zone.go:185-188 | after a delta the secondary's history has one entry more: its SOA as a record, with the decimal text of the new serial |
| Replication.ChainedDelta | internal/zone/zone.go:180-190 | what such a secondary offers a client at an earlier serial is refused at that entry, so deltas cannot be chained; the client's serial, SOA and history stay |
| Replication.InterleavedDelta | internal/transfer/transfer.go:126-144 | what a secondary in step holds after such a delta: the content of the second read, the serial of the third |
| Replication.LostUpdate | internal/transfer/transfer.go:126-144 | the commit right after what the delta serves, landing before the range is read, leaves the secondary behind exactly when it had an effect, on the path of the second read and on that of the equality test |
| Replication.DeltaContent | internal/zone/zone.go:152-172 | the delta from the starting serial holds the whole log exactly when no serial wrapped |
| Replication.WrapExample | internal/zone/version.go:7-12 | the change committed on the last serial is announced and not sent |
| Replication.HistoryTooShort | internal/zone/zone.go:152-168 | a secondary older than the history is brought up to date exactly when the history rewrites every key on which it differed |
| Replication.NoHistoryNoChange | internal/zone/zone.go:152-157 | a primary without history leaves a secondary at another serial as it was |
| Replication.FrozenConvergence | internal/zone/zone.go:120-127 | as written, an incremental transfer brings a secondary up to date exactly when the commits had no net effect |
| Replication.FrozenExample | cmd/zonedns/main.go:354-372 | the demonstration's case: a new record committed as written does not reach the secondary |
| Replication.FailedCommitLeaks | internal/zone/zone.go:116-149 | for any interleaving of commits and failed ones, a secondary in step with any commit is brought up to date exactly when nothing was committed since or every key a failed commit was the last to write ends with its effect anyway |
| Replication.MarkedDelta | internal/zone/zone.go:152-172 | a delta ships the failed commits since the requested serial along with the others, whatever the secondary holds |
| Replication.DirtySnapshotLeaks | internal/zone/snapshot.go:9-21 | a snapshot of a change later rolled back is repaired by a delta exactly when the key is rewritten or the change had no effect |
| ReplicationRuns.RunKeeps | internal/zone/zone.go:81-190 | the invariant over every run of stages, commits, failing commits, rollbacks, full and incremental transfers, and deltas built at one moment and delivered at any later one, repeatedly, out of order or never |
| ReplicationRuns.SerialNeverPasses | internal/zone/zone.go:174-190 | over every run, with deltas that arrive late, twice, out of order or not at all: a secondary that has had a full transfer stands at a commit of the primary, and holds what all commits up to there, and the failed ones it was sent, leave |
| ReplicationRuns.NoHistoryNoIncrement | internal/transfer/transfer.go:131-134 | an incremental transfer from a primary without history changes nothing unless the serials agree |
| ReplicationRuns.ConvergesExactly | internal/zone/zone.go:152-190 | after any such run without a wrap one incremental transfer makes the secondary equal to the primary in records, listing, serial and all metadata exactly when what was taken back does not show and the last commit did not fail |
| ReplicationRuns.Convergence | internal/zone/zone.go:152-190 | in particular from every untainted state |
| ReplicationRuns.NextKeepsUntainted | internal/zone/zone.go:81-149 | a state stays untainted under everything but a failing commit and the rollback of a change the secondary copied |
| ReplicationRuns.GentleRunKeeps | internal/zone/zone.go:81-190 | a run that takes nothing back keeps an untainted system untainted |
| ReplicationRuns.FullTransferCleans | internal/zone/snapshot.go:9-54 | a full transfer leaves an untainted state exactly when the last commit did not fail |
| ReplicationRuns.DirtyTransferConverges | internal/zone/snapshot.go:9-54 | a full transfer at any moment, also of a staged change, then any run that takes nothing back and ends with nothing staged, then a delta: equal again, unless the commit before the transfer failed |
| ReplicationRuns.StagedTransferConverges | internal/zone/zone.go:81-138 | in particular a transfer between staging and commit |
| ReplicationRuns.ZoneRunOk | internal/zone/zone.go:116-190 | over every forward run SOA and serial agree, history serials climb strictly to the serial, and the version counts the successful steps modulo 2^64 |
| ReplicationRuns.StandingDelta | internal/zone/zone.go:185-188 | a delta that does not move the serial forward breaks the strict order exactly when it is applied on a non-empty history |
| Journals.JournalRoundTrip | internal/update/apply.go:30-40 | a valid change comes back from the journal unchanged, except a CNAME delete, which does not come back |
| Journals.AnyOtherKind | internal/update/update.go:74-98 | a line replays as a delete exactly if it says so, and as an upsert whatever else it says |
| Journals.ScanReads | internal/journal/journal.go:88-118 | the journal is read back, whole and in order, exactly when no line exceeds 1 048 576 bytes |
| Journals.Journal.Append | internal/journal/journal.go:64-86 | an append is turned down, not written, written but not synced, or done; the entry is in the file in the last two cases and reported in the last |
| Journals.Journal.Replay | internal/journal/journal.go:88-118 | the scan returns the entries in order, none without a file, and an error exactly when a line exceeds the scanner's buffer |
| Updates.JournalFailureIsUndone | internal/update/update.go:50-53 | an append that reports an error leaves the zone exactly as it was, and no entry unless only its sync failed |
| Updates.OutcomeTells | internal/update/update.go:31-65 | success is reported exactly for a valid update whose append is done and whose hook succeeds, and then the change is in the zone and its entry in the journal; every other outcome names the step that failed and leaves records, serial and version as they were |
| Updates.ToldIsMarked | internal/update/update.go:31-65 | over every run of updates and restarts, the updates reported as applied are the kept ones, and those reported as failed are taken back or nowhere |
| Updates.UpdateIsReplayed | internal/update/update.go:31-108 | an update that is not taken back journals nothing and changes nothing, or journals the one entry that replays to the same state |
| Updates.CrashRecovery | internal/update/update.go:31-108 | over every run of updates and restarts in which nothing was taken back since the last start, a start succeeds exactly when every entry can be read back and none is a CNAME delete, and then yields the live zones exactly, RRset order and history included |
| Updates.UnreplayableBlocks | internal/journal/replay.go:14-18 | an entry that cannot be replayed stops every later start at its place, whatever precedes and follows it |
| Updates.CnameDeleteBlocksRecovery | internal/update/update.go:85-98 | after a CNAME delete is journalled, at any point of any run, no start succeeds |
| Updates.FailedCommitResurfaces | internal/update/update.go:50-60 | over every run of updates and restarts, whatever failed and when: a start gives a zone its live content exactly when every key an update taken back since the last start was the last to write ends with that update's effect anyway |
| Updates.RunContent | internal/journal/replay.go:9-20 | over every such run the live zone holds what the kept updates leave, and a start would leave what all journalled ones do |
| Updates.JournalIsNumbered | internal/update/update.go:45-49 | over every run of updates and restarts that takes nothing back, the entries of a zone carry its serial before each commit: successors, or all alike as written |
| Updates.OneFailedCommit | internal/update/update.go:57-60 | for one such update that is: a later update rewrites the key, or it had no effect |
| Updates.SecondReplayIsIdle | internal/journal/replay.go:9-20 | replaying a zone's whole log again changes no content |
| UpdateService.Service.Apply | internal/update/update.go:31-65 | the ordered side effects on zone and journal, with the rollbacks, are those of the value-level description on every path, and success is reported exactly for a valid update of a stored zone whose append reports no error and whose hook, where there is one, succeeds |
| UpdateService.Service.ApplyReplayed | internal/update/update.go:67-108 | one journal entry decoded, staged and committed on its zone, or an error |
| StartUp.Replay | internal/journal/replay.go:9-20 | the loop applies the entries in order to the zones in place, any number of them, and stops at the first failure; every zone ends in its recovered state on its own objects |
| Keyrings.Keyring.Add | internal/keyring/keyring.go:57-70 | a new key joins the ring, the order and the verification list, and becomes active if none was |
| Keyrings.Keyring.VerifyKeys | internal/keyring/keyring.go:85-95 | the keys of the verification list that exist |
| Keyrings.Keyring.Rollover | internal/keyring/rollover.go:9-33 | the loop over old keys, the new key's window, and the new verification set |
| Keyrings.VerificationMembers | internal/keyring/rollover.go:35-45 | the verification set holds exactly the keys inside their window |
| Keyrings.AddKeeps | internal/keyring/keyring.go:57-70 | adding keeps the ring consistent and able to sign |
| Keyrings.RolloverKeeps | internal/keyring/rollover.go:9-45 | after a rollover to a fresh key the ring can sign verifiably exactly when that key has an identifier and does not start in the future, and an old key verifies exactly while inside its window |
| Keyrings.RolloverWindows | internal/keyring/rollover.go:17-33 | after a rollover the new key, with its own secret, is tried from its start to the end of a year; an old key without an end for thirty more days; one with an end to that end |
| Keyrings.RolloverLasts | internal/keyring/rollover.go:17-45 | within a year of its start a stretch of rollovers to keys that begin at once drops no key that is tried |
| Wire.EncodeName | internal/signer/rrsig.go:44-56 | the loop over labels produces the length-prefixed lower-case form without empty labels |
| Wire.CanonicalRRSet | internal/signer/rrsig.go:26-42 | the loop over records produces their encodings in order |
| Wire.NameDecodes | internal/signer/rrsig.go:44-56 | a byte string's encoding can be read back to the lower-cased non-empty labels, whatever follows, exactly when no label is longer than 255 bytes |
| Wire.EncodingIsPrefixFree | internal/signer/rrsig.go:44-56 | equal wire labels encode equally; without long labels encodings with tails agree only if labels and tails do, so none is a proper prefix of another |
| Wire.LongLabelExample | internal/signer/rrsig.go:51 | a label of 256 bytes is announced with length 0, and the root's encoding is a proper prefix of the name's |
| Wire.PayloadRecords | internal/signer/rrsig.go:62-78 | under one header, signed payloads agree exactly when the record bytes do |
| Wire.PayloadFixesStamp | internal/signer/rrsig.go:62-78 | under one name and type the signed bytes fix expiry and inception, and with identifiers of at most 255 bytes the key identifier and the record bytes |
| Wire.PayloadCovers | internal/signer/rrsig.go:62-78 | without long labels and identifiers, two payloads agree exactly when lower-cased labels, low byte of the type, expiry, inception, key identifier and record bytes do |
| Wire.SameBytes | internal/signer/rrsig.go:26-42 | for RRsets of one name and type whose rdata holds no zero byte, equal signed bytes mean equal lists, but for the case of letters in rdata |
| Wire.SwallowedRecord | internal/signer/rrsig.go:26-42 | rdata carries no length: a record whose bytes are taken into the rdata of the one before is signed the same |
| Wire.SwallowedExample | internal/signer/rrsig.go:26-42 | two texts and a single longer one at the same name are signed by the same bytes |
| Signers.SignatureKeyInjective | internal/signer/signer.go:39-41 | two RRsets share a stored signature exactly when name and type text agree |
| Resigning.AlteredSignature | internal/signer/rrsig.go:94-116 | the bytes of a stored signature pass the check with its own expiry, inception and key identifier over its own record bytes, and with nothing else |
| Resigning.ManagedIsKnown | internal/signer/signer.go:74 | the hook looks for exactly the types a dynamic record may have |
| Resigning.SignedOrKept | internal/signer/signer.go:43-68 | after a batch a stored signature is the old one, or was made by the signing key over an RRset of the batch with a draw of its own |
| Resigning.ReloadOrder | internal/control/control.go:68-86 | a reload signs in byte order of names, and by type under one name |
| Signers.Signer.ResignRRSet | internal/signer/signer.go:43-59 | one signature is replaced, or nothing without a signing key |
| Signers.Signer.ResignZone | internal/signer/signer.go:61-68 | the loop signs a list of RRsets, stopping without a key |
| Signers.Signer.OnZoneUpdated | internal/signer/signer.go:70-83 | the hook signs every RRset found under the changed names as they stand |
| Signers.Signer.Reload | internal/control/control.go:30-40 | a reload signs every RRset of the zone |
| Signers.Signer.SignResponse | internal/signer/signer.go:85-97 | an answer passes exactly when a stored signature verifies under some verification key |
| SignedRuns.WriteKeepsSigned | internal/zone/zone.go:116-138 | an update of any zone keeps every RRset of every zone signed that it neither misspells nor has re-signed by a key outside the verification set; with no signing key nothing changes |
| SignedRuns.ReloadCovers | internal/control/control.go:30-40 | while the active key is in the verification set, a reload signs every visible RRset of its zone over its current list, whatever was stored before |
| SignedRuns.RolloverKeepsSigned | internal/keyring/rollover.go:9-45 | a rollover leaves the server able to sign and all answers signed exactly when it is turned down, or its key has an identifier and starts no later than now and every key behind a visible signature is inside its window |
| SignedRuns.RolloverAnswers | internal/keyring/rollover.go:9-45 | after a rollover a signed answer passes its check exactly while the key behind its signature is inside its window |
| SignedRuns.RunKeepsFit | internal/signer/signer.go:43-97 | every run, misspelt updates and any rollovers included, keeps the ring consistent and every zone re-appliable and within its own name space |
| SignedRuns.RunKeepsSigned | internal/signer/signer.go:43-97 | over every run of updates, reloads and rollovers of any number of zones, an RRset that was signed stays signed unless it is misspelt, re-signed by a key outside the verification set, or its key has lapsed at a rollover |
| SignedRuns.SignaturesAreTimely | internal/signer/signer.go:43-59 | over every run, each stored signature carries the key that signed at the update or reload that made it, and is valid from an hour before to a week after that moment, in wrapped seconds |
| SignedRuns.RolloversWithinAYear | internal/keyring/rollover.go:9-45 | any number of rollovers within a year, mixed with updates and reloads, keeps an RRset signed that no update misspells, if the keys tried at the start last that long |
| SignedRuns.SecondRollover | internal/keyring/rollover.go:17-33 | after two rollovers, updates and reloads between them, what the first one's key signed holds on exactly when no more than a year lies between |
| SignedRuns.AnswersVerify | internal/resolver/resolver.go:73-89 | as long as none of that happens to it, no authoritative answer for it fails its signature check |
| SignedRuns.MisspeltUpsert | internal/record/record.go:62 | after an upsert under another spelling the answer verifies exactly when the signed bytes did not change or, for a new RRset, a signature left behind verifies over the new record |
| SignedRuns.MisspeltAddition | internal/record/record.go:62 | new rdata under another spelling makes the RRset fail its check, an old RRset or a new one without a left-over signature |
| SignedRuns.MisspeltExample | internal/zone/zone_verify_test.go:22-44 | the upsert of the serial test is stored and visible, and fails its check |
| SignedRuns.SharedName | internal/signer/signer.go:39-59 | when two zones store a name, signing it for one leaves the other's answer valid exactly when both hold the same signed bytes |
| SignedAnswers.RoutedQueriesAreAnswered | internal/resolver/resolver.go:26-93 | as long as none of that happens to the RRset asked for, every query that is routed to a canonically spelled zone is answered, from the cache or from the zone |
| SignedAnswers.StagedAnswers | internal/update/update.go:31-65 | a query between staging and re-signing passes exactly when the signed bytes are as before or, for a new RRset, a signature left behind verifies |
| SignedAnswers.SeedingSignsVisible | cmd/zonedns/main.go:201-217 | signing a seeded zone stores signatures for visible RRsets only |
| SignedAnswers.RecoveredAnswers | cmd/zonedns/main.go:119-155 | after the replay an answer verifies exactly when its RRset was seeded and the replay left its signed bytes as they were |
| Seeding.SeededZone | cmd/zonedns/main.go:186-200 | every seed is accepted, and the seeded zone holds exactly the six seeds, each in an RRset of its own |
| Seeding.SeedingKeepsClean | cmd/zonedns/main.go:186-205 | seeding and signing one more zone beside others leaves every zone fit, every visible RRset signed and no stray signature |
| Seeding.ServerStartsClean | cmd/zonedns/main.go:97-120 | so the program starts in a state from which the runs above may start |
| Caches.CacheKeyInjective | internal/cache/cache.go:39-45 | cache keys coincide exactly for equal name, kind and type, unknown types counting as one, even for names holding NUL |
| Caches.PutRefines | internal/cache/cache.go:68-82 | a put on text keys is a put on (name, type, kind) keys, an oldest entry given up for an oldest entry, when a new key meets a full map and only then |
| Caches.GetRefines | internal/cache/cache.go:47-66 | a look-up by text finds exactly what the typed map holds unexpired |
| Caches.SweepRefines | internal/cache/cache.go:84-95 | a sweep of the text-keyed map is a sweep of the typed map |
| Caches.PutKeepsBound | internal/cache/cache.go:68-82 | the cache never holds more than max(1, maxEntries) entries, and gives up nothing while there is room |
| Caches.GotUntilExpiry | internal/cache/cache.go:47-66 | an entry is found until its TTL has passed and not after; the extra negative test never decides |
| Caches.SweepIsInvisible | internal/cache/cache.go:84-95 | a sweep changes no later lookup |
| Caches.Cache.Get | internal/cache/cache.go:47-66 | finds an entry exactly while less than its TTL has passed since it was stored, negative entries included, and returns what was stored |
| Caches.Cache.Put | internal/cache/cache.go:68-82 | storing, with an eviction when a new key meets a full cache |
| Caches.Cache.Evict | internal/cache/cache.go:107-120 | the loop removes exactly one entry, an oldest one, in whatever order it walks |
| Caches.Cache.SweepExpired | internal/cache/cache.go:84-95 | exactly the expired entries go, and the count is theirs |
| Resolvers.AnswerForRecords | internal/resolver/answer.go:9-27 | the least TTL and the rdata of the last record that has any |
| Resolvers.Resolver.Resolve | internal/resolver/resolver.go:26-49 | cache first, then the authoritative look-up, each with its own clock reading, with what is stored on each path |
| Resolvers.Resolver.ResolveAuthoritative | internal/resolver/resolver.go:73-93 | routing, the signature verdict, the answer, and the positive or negative entry stored, the SOA read from the zones as they are later |
| Resolvers.OnlyTheVerdictRefuses | internal/resolver/resolver.go:73-93 | a query that is routed to a zone is refused only for its signature |
| Resolvers.NegativeMinimum | internal/resolver/resolver.go:115-121 | a negative answer has the SOA minimum of the zone if that is still stored when it is read, and 300 seconds if neither it nor one above it is |
| Resolvers.CallIsSteps | internal/resolver/resolver.go:26-49 | a call is its look-ups in the cache and, if both miss, one store: the steps of which overlapping calls are made |
| Resolvers.PositiveHitsAreFresh | internal/resolver/resolver.go:26-93 | over every interleaving of overlapping calls, sweeps, evictions and arbitrary zone changes a positive hit names the record of smallest rdata of an RRset that a call found in the zone with a signature that passed the check, and stored less than its least TTL ago |
| Resolvers.NegativeHitsAreFresh | internal/resolver/resolver.go:39-44 | a negative hit means that a call found the RRset absent and stored that less than the zone's SOA minimum ago |
| Resolvers.AnswersAreExplained | internal/resolver/resolver.go:26-49 | on a cache filled by any run every answer has the canonical name and the type of the query, and is NXDOMAIN exactly when the RRset was found absent, by the call itself or by the one whose entry it met; otherwise it has the least TTL and the rdata of a record of an RRset that was found and passed its signature check: the last record with rdata if fresh, the smallest if cached |
| Resolvers.AskedAgain | internal/resolver/resolver.go:26-49 | the same question is answered from the cache exactly until the TTL of the fresh answer has passed |

## Left out

- Zones.StagedChange.Rollback: a second rollback of the same change is not covered; the program then shares one map between the saved copy and the live store. The update service never asks for one.
- Journals.Journal.Append: a write that lands in part of a line is not modelled.
- Journals.Journal.Replay: lines are the entries that were appended; the text encoding, and lines that some other hand has damaged, are not part of this model.
- Wire.EncodeName: lower-casing of ASCII letters only; the 63-byte label limit of RFC 1035 is not enforced by the program either.
- SignedRuns.RunKeepsSigned: zones that lie inside one another are covered for one re-signing by `SharedName`, not over runs.
- SignedAnswers.RoutedQueriesAreAnswered: updates are single steps of the run, and the RRset and its signature are read at one moment; `StagedAnswers` covers a query during an update.
- Concurrency: locked sections are atomic steps. Interleaved are the delta's three reads with commits, transfers with a staged change, and the cache operations of overlapping resolutions; updates are serialised, as by the service's own lock.
- A hook that fails is a parameter of the zone steps and of the replication runs; in the signed runs it fails exactly when there is something to sign and no signing key.
- ECDSA, SHA-256, key generation and encodings of keys: foreign; see the conventions.
- Parsing of IP addresses: an unknown function. Unicode white space and case folding.
- Wire messages, HTTP handlers, control status, metrics, notification packets and transfer states: plumbing, or read off one branch.
