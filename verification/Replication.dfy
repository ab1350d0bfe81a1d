/**
 Replication over whole runs: a primary that stages, commits and rolls back, and
 a secondary fed by full and incremental transfers taken at any moment.
 */
module Replication {
  import opened Model
  import opened Names
  import opened Serials
  import opened Records
  import opened FlatStore
  import opened Orphans
  import opened Listing
  import opened Validation
  import opened Zones
  import opened Transfer

  /** The secondary after a delta built from three reads of the primary, or None when it cannot be had or is refused. */
  function Refreshed(a: ZoneState, b: ZoneState, c: ZoneState, q: ZoneState): Option<ZoneState> {
    match DeltaFrom(a, b, c, q.serial)
    case None => None
    case Some(delta) =>
      var (r, ok) := DeltaApplied(q, delta);
      if ok then Some(r) else None
  }

  /** The secondary carries this content under this serial, in its SOA as well. */
  ghost predicate UpToDate(r: Option<ZoneState>, m: Flat, serial: uint32) {
    r.Some? && FlatOf(r.value.records) == m && r.value.serial == r.value.meta.soa.serial == serial
  }

  /** A change that leaves the map as it is. */
  predicate NoEffect(m: Flat, ch: Change) {
    At(Step(m, ch), KeyOf(ch)) == At(m, KeyOf(ch))
  }

  /** A primary without history leaves a secondary at another serial with what it had. */
  lemma {:induction false} NoHistoryNoChange(z: ZoneState, q: ZoneState)
    requires z.history == [] && q.serial != z.serial
    ensures Refreshed(z, z, z, q).None?
  {
    DeltaOffered(z, q.serial);
  }

  // A secondary that serves deltas itself

  /** After a delta a secondary's history has one more entry: its SOA as a record, with the serial in decimal. */
  lemma {:induction false} SecondaryHistory(q: ZoneState, delta: Delta)
    requires delta.range.start == q.serial && AllAccepted(OpChanges(delta.ops))
    ensures var (r, ok) := DeltaApplied(q, delta);
            && ok && |r.history| == |q.history| + 1 && r.history[..|q.history|] == q.history
            && var last := r.history[|q.history|];
            && last.serial == r.serial == delta.range.end && last.change.kind == UPSERT
            && last.change.record.name == delta.zone && last.change.record.rtype == TYPE_SOA
            && last.change.record.ttl == 0
            && NoLeadingZero(last.change.record.rdata)
            && DigitsValue(last.change.record.rdata) == Some(delta.range.end)
  {
    BatchAccepted(q.records, OpChanges(delta.ops));
    DecimalIsRead(delta.range.end);
  }

  /**
   Deltas cannot be chained: that entry is refused as a dynamic record, so what such a
   secondary offers a client at an earlier serial breaks off there. The client stays at
   its serial; it keeps its whole state if the entry was the first.
   */
  lemma {:induction false} ChainedDelta(q: ZoneState, delta: Delta, client: ZoneState)
    requires delta.range.start == q.serial && AllAccepted(OpChanges(delta.ops))
    requires client.serial < delta.range.end
    ensures var offered := IXFR(DeltaApplied(q, delta).0, client.serial);
            && offered.Some?
            && var (after, ok) := DeltaApplied(client, offered.value);
            && !ok && after == client.(records := after.records)
            && (q.history == [] ==> after == client)
  {
    var r := DeltaApplied(q, delta).0;
    SecondaryHistory(q, delta);
    var soa := r.history[|q.history|].change;
    var shipped := After(q.history, client.serial) + [soa];
    assert r.history[..|r.history| - 1] == q.history;
    assert IXFR(r, client.serial).value.ops == Ops(shipped);
    OpsRoundTrip(shipped);
    assert !Accepted(soa) && shipped[|shipped| - 1] == soa;
    BatchAccepted(client.records, shipped);
    if q.history == [] {
      assert shipped[..0] == [] && Apply(client.records, soa) == client.records;
    }
  }

  // One delta, however its reads interleave with commits

  /** A primary whose history ends at its serial, so that later serials name later changes only. */
  ghost predicate Primary(z: ZoneState) {
    z.rule.Advancing? && NoneAfter(z.history, z.serial)
  }

  /** What matters of a primary after the first `j` changes of a log: the state they were committed from is `z`. */
  ghost predicate Reached(z: ZoneState, log: seq<Change>, j: nat, w: ZoneState) {
    && j <= |log|
    && w.name == z.name
    && w.serial == z.serial + j
    && w.history == z.history + Entries(Advancing, z.serial, log[..j])
    && FlatOf(w.records) == Play(FlatOf(z.records), log[..j])
  }

  lemma {:induction false} CommitsReach(z: ZoneState, log: seq<Change>, j: nat)
    requires Primary(z) && j <= |log| && z.serial + |log| <= MAX_SERIAL && AllAccepted(log)
    ensures Reached(z, log, j, UpdateAll(z, log[..j]))
  {
    CommitsLeave(z, log[..j]);
    AdvanceUnwrapped(z.serial, j);
    ApplyAllRefinesPlay(z.records, log[..j]);
  }

  lemma {:induction false} ChangesBetween(z: ZoneState, log: seq<Change>, i: nat, j: nat, w: ZoneState)
    requires Primary(z) && z.serial + |log| <= MAX_SERIAL
    requires i < j && Reached(z, log, j, w)
    ensures ChangesSince(w, z.serial + i) == Some(log[i..j])
  {
    var first := log[..j];
    AfterConcat(z.history, Entries(Advancing, z.serial, first), z.serial + i);
    AfterNone(z.history, z.serial + i);
    AfterCuts(z.serial, first, i);
    assert first[i..] == log[i..j];
    assert [] + log[i..j] == log[i..j];
    assert first != [] && |Entries(Advancing, z.serial, first)| > 0;
  }

  /**
   The three reads of a delta fall after `ja`, `jb` and `jc` of the commits in the
   log. The delta then holds exactly the changes between the requested serial and
   the second read, while its range ends at the third.
   */
  lemma {:induction false} DeltaBetween(z: ZoneState, log: seq<Change>, i: nat, ja: nat, jb: nat, jc: nat,
                                        a: ZoneState, b: ZoneState, c: ZoneState)
    requires Primary(z) && i <= ja <= jb <= jc <= |log| && z.serial + |log| <= MAX_SERIAL
    requires a.name == z.name && a.serial == z.serial + ja && Reached(z, log, jb, b) && c.serial == z.serial + jc
    ensures DeltaFrom(a, b, c, z.serial + i)
            == Some(Delta(z.name, SerialRange(z.serial + i, z.serial + jc), Ops(Shipped(log, i, ja, jb))))
  {
    assert Ops([]) == [];
    if i < ja {
      ChangesBetween(z, log, i, jb, b);
    }
  }

  /**
   The position whose content the secondary is given: its own if the equality test ends
   the call, else that of the second read.
   */
  function Served(i: nat, ja: nat, jb: nat): nat {
    if i == ja then i else jb
  }

  /** The changes a delta carries: none if the first read already found the requested serial. */
  function Shipped(log: seq<Change>, i: nat, ja: nat, jb: nat): seq<Change>
    requires i <= ja <= jb <= |log|
  {
    if i == ja then [] else log[i..jb]
  }

  lemma {:induction false} DeltaCarries(q: ZoneState, a: ZoneState, b: ZoneState, c: ZoneState,
                                        zone: string, changes: seq<Change>)
    requires AllAccepted(changes)
    requires DeltaFrom(a, b, c, q.serial) == Some(Delta(zone, SerialRange(q.serial, c.serial), Ops(changes)))
    ensures UpToDate(Refreshed(a, b, c, q), Play(FlatOf(q.records), changes), c.serial)
    ensures WellFormed(q.records) ==> WellFormed(Refreshed(a, b, c, q).value.records)
  {
    OpsRoundTrip(changes);
    DeltaPlays(q, Delta(zone, SerialRange(q.serial, c.serial), Ops(changes)));
  }

  lemma {:induction false} InterleavedReads(z: ZoneState, q: ZoneState, log: seq<Change>, i: nat, ja: nat, jb: nat,
                                            jc: nat, a: ZoneState, b: ZoneState, c: ZoneState)
    requires Primary(z) && i <= ja <= jb <= jc <= |log| && z.serial + |log| <= MAX_SERIAL && AllAccepted(log)
    requires a.name == z.name && a.serial == z.serial + ja && Reached(z, log, jb, b) && c.serial == z.serial + jc
    requires q.serial == z.serial + i
    ensures UpToDate(Refreshed(a, b, c, q), Play(FlatOf(q.records), Shipped(log, i, ja, jb)), c.serial)
    ensures WellFormed(q.records) ==> WellFormed(Refreshed(a, b, c, q).value.records)
  {
    DeltaBetween(z, log, i, ja, jb, jc, a, b, c);
    assert AllAccepted(Shipped(log, i, ja, jb));
    DeltaCarries(q, a, b, c, z.name, Shipped(log, i, ja, jb));
  }

  /**
   What a secondary in step with commit `i` holds after applying that delta: the
   content of the second read under the serial of the third. No commit before the
   second read is lost; one that falls between the second and the third is.
   */
  lemma {:induction false} InterleavedDelta(z: ZoneState, q: ZoneState, log: seq<Change>,
                                            i: nat, ja: nat, jb: nat, jc: nat)
    requires Primary(z) && i <= ja <= jb <= jc <= |log| && z.serial + |log| <= MAX_SERIAL && AllAccepted(log)
    requires q.serial == z.serial + i && FlatOf(q.records) == FlatOf(UpdateAll(z, log[..i]).records)
    ensures UpToDate(Refreshed(UpdateAll(z, log[..ja]), UpdateAll(z, log[..jb]), UpdateAll(z, log[..jc]), q),
                    FlatOf(UpdateAll(z, log[..Served(i, ja, jb)]).records),
                    UpdateAll(z, log[..jc]).serial)
  {
    CommitsReach(z, log, ja);
    CommitsReach(z, log, jb);
    CommitsReach(z, log, jc);
    InterleavedReads(z, q, log, i, ja, jb, jc,
                     UpdateAll(z, log[..ja]), UpdateAll(z, log[..jb]), UpdateAll(z, log[..jc]));
    ShippedContent(z, log, i, ja, jb);
  }

  lemma {:induction false} ShippedContent(z: ZoneState, log: seq<Change>, i: nat, ja: nat, jb: nat)
    requires Primary(z) && i <= ja <= jb <= |log| && z.serial + |log| <= MAX_SERIAL && AllAccepted(log)
    ensures Play(FlatOf(UpdateAll(z, log[..i]).records), Shipped(log, i, ja, jb))
            == FlatOf(UpdateAll(z, log[..Served(i, ja, jb)]).records)
  {
    CommitsReach(z, log, i);
    CommitsReach(z, log, jb);
    PlayConcat(FlatOf(z.records), log[..i], Shipped(log, i, ja, jb));
    ShippedJoins(log, i, ja, jb);
  }

  lemma {:induction false} ShippedJoins(log: seq<Change>, i: nat, ja: nat, jb: nat)
    requires i <= ja <= jb <= |log|
    ensures log[..i] + Shipped(log, i, ja, jb) == log[..Served(i, ja, jb)]
  {
  }

  /**
   The commit that comes right after what is served, and before the range is read, is
   lost: its serial is announced, and the secondary is up to date only if it changed
   nothing. That is the commit between the second and the third read, or, if the
   first read already found the secondary's serial, the one after the first.
   */
  lemma {:induction false} LostUpdate(z: ZoneState, q: ZoneState, log: seq<Change>, i: nat, ja: nat, jb: nat,
                                      a: ZoneState, b: ZoneState, served: ZoneState, c: ZoneState)
    requires Primary(z) && i <= ja <= jb <= Served(i, ja, jb) + 1 <= |log|
    requires z.serial + |log| <= MAX_SERIAL && AllAccepted(log)
    requires q.serial == z.serial + i && FlatOf(q.records) == FlatOf(UpdateAll(z, log[..i]).records)
    requires a == UpdateAll(z, log[..ja]) && b == UpdateAll(z, log[..jb])
    requires served == UpdateAll(z, log[..Served(i, ja, jb)]) && c == UpdateAll(z, log[..Served(i, ja, jb) + 1])
    ensures UpToDate(Refreshed(a, b, c, q), FlatOf(c.records), c.serial)
            <==> NoEffect(FlatOf(served.records), log[Served(i, ja, jb)])
  {
    InterleavedDelta(z, q, log, i, ja, jb, Served(i, ja, jb) + 1);
    CommitEffect(z, log, Served(i, ja, jb));
    SameContent(Refreshed(a, b, c, q), FlatOf(served.records), FlatOf(c.records), c.serial);
  }

  lemma {:induction false} SameContent(r: Option<ZoneState>, held: Flat, m: Flat, serial: uint32)
    requires UpToDate(r, held, serial)
    ensures UpToDate(r, m, serial) <==> m == held
  {
  }

  lemma {:induction false} CommitEffect(z: ZoneState, log: seq<Change>, j: nat)
    requires Primary(z) && j < |log| && z.serial + |log| <= MAX_SERIAL && AllAccepted(log)
    ensures var m := FlatOf(UpdateAll(z, log[..j]).records);
            FlatOf(UpdateAll(z, log[..j + 1]).records) == m <==> NoEffect(m, log[j])
  {
    CommitsReach(z, log, j);
    CommitsReach(z, log, j + 1);
    assert log[..j + 1] == log[..j] + [log[j]];
    PlaySnoc(FlatOf(z.records), log[..j], log[j]);
    OneStepNoEffect(FlatOf(UpdateAll(z, log[..j]).records), log[j]);
  }

  lemma {:induction false} OneStepNoEffect(m: Flat, ch: Change)
    ensures Step(m, ch) == m <==> NoEffect(m, ch)
  {
    OrphanChange(m, ch, []);
  }

  // When an incremental transfer brings a secondary up to date

  /** The delta from a primary's starting serial holds the whole log unless a serial wrapped on the way. */
  lemma {:induction false} DeltaContent(z: ZoneState, log: seq<Change>)
    requires Primary(z)
    ensures var w, shipped := UpdateAll(z, log), After(Entries(Advancing, z.serial, log), z.serial);
            w.serial != z.serial ==>
              && IXFR(w, z.serial) == Some(Delta(z.name, SerialRange(z.serial, w.serial), Ops(shipped)))
              && (shipped == log <==> z.serial == 0 || z.serial + |log| <= MAX_SERIAL)
  {
    var w, es := UpdateAll(z, log), Entries(Advancing, z.serial, log);
    CommitsLeave(z, log);
    if w.serial != z.serial {
      assert log != [] && |es| > 0;
      AfterConcat(z.history, es, z.serial);
      AfterNone(z.history, z.serial);
      assert [] + After(es, z.serial) == After(es, z.serial);
      AfterComplete(z.serial, log);
    }
  }

  /** The last serial before the wrap: the change committed on it is announced by a range and never sent. */
  lemma {:induction false} WrapExample(z: ZoneState, ch: Change)
    requires Primary(z) && z.serial == MAX_SERIAL
    ensures IXFR(Update(z, ch), z.serial) == Some(Delta(z.name, SerialRange(MAX_SERIAL, 1), []))
  {
    assert [ch][..0] == [];
    assert UpdateAll(z, [ch]) == Update(z, ch);
    DeltaContent(z, [ch]);
    AfterComplete(z.serial, [ch]);
    assert Entries(Advancing, z.serial, []) == [];
    assert After(Entries(Advancing, z.serial, [ch]), z.serial) == [];
    assert Ops([]) == [];
    assert Update(z, ch).serial == 1;
  }

  /**
   Nothing checks that the history reaches back to the requested serial. A secondary
   older than the history gets every change in it and none from before; it is
   brought up to date exactly when those changes rewrite every key on which it
   differed from the primary at the start of the history.
   */
  lemma {:induction false} HistoryTooShort(z: ZoneState, q: ZoneState, log: seq<Change>)
    requires Primary(z) && z.history == [] && log != [] && AllAccepted(log) && z.serial + |log| <= MAX_SERIAL
    requires q.serial < z.serial
    ensures var w := UpdateAll(z, log);
            UpToDate(Refreshed(w, w, w, q), FlatOf(w.records), w.serial)
            <==> forall k :: At(FlatOf(q.records), k) != At(FlatOf(z.records), k) ==> Touches(log, k)
  {
    var w := UpdateAll(z, log);
    CommitsLeave(z, log);
    AdvanceUnwrapped(z.serial, |log|);
    ApplyAllRefinesPlay(z.records, log);
    assert w.history == Entries(Advancing, z.serial, log);
    ShortHistory(q, w, z.serial, log);
    SameAfter(FlatOf(q.records), FlatOf(z.records), log);
  }

  /** A secondary older than the history is played the whole of it. */
  lemma {:induction false} ShortHistory(q: ZoneState, w: ZoneState, serial: uint32, log: seq<Change>)
    requires log != [] && AllAccepted(log) && q.serial < serial && serial + |log| <= MAX_SERIAL
    requires w.serial == serial + |log| && w.history == Entries(Advancing, serial, log)
    ensures UpToDate(Refreshed(w, w, w, q), Play(FlatOf(q.records), log), w.serial)
  {
    AllAfter(serial, q.serial, log);
    assert |w.history| > 0;
    DeltaCarries(q, w, w, w, w.name, log);
  }

  lemma {:induction false} AllAfter(serial: uint32, from: uint32, log: seq<Change>)
    requires from < serial && serial + |log| <= MAX_SERIAL
    ensures After(Entries(Advancing, serial, log), from) == log
  {
    if log != [] {
      var front := log[..|log| - 1];
      AllAfter(serial, from, front);
      AdvanceUnwrapped(serial, |log|);
      assert front + [log[|log| - 1]] == log;
    }
  }

  /** Two maps agree after a common log exactly when it rewrites every key on which they differ. */
  lemma {:induction false} SameAfter(a: Flat, b: Flat, log: seq<Change>)
    ensures Play(a, log) == Play(b, log) <==> forall k :: At(a, k) != At(b, k) ==> Touches(log, k)
  {
    forall k ensures At(Play(a, log), k) == At(Play(b, log), k) <==> At(a, k) == At(b, k) || Touches(log, k) {
      LastWriterWins(a, b, log, k);
      LastWriterWins(b, a, log, k);
    }
    if forall k :: At(a, k) != At(b, k) ==> Touches(log, k) {
      SameFlat(Play(a, log), Play(b, log));
    }
  }

  /** As the program is written, such a transfer succeeds exactly when the commits had no net effect. */
  lemma {:induction false} FrozenConvergence(z: ZoneState, q: ZoneState, log: seq<Change>)
    requires z.rule.Frozen? && AllAccepted(log)
    requires q.serial == z.serial && FlatOf(q.records) == FlatOf(z.records)
    ensures var w := UpdateAll(z, log);
            && UpToDate(Refreshed(w, w, w, q), FlatOf(z.records), w.serial)
            && (UpToDate(Refreshed(w, w, w, q), FlatOf(w.records), w.serial)
                <==> Play(FlatOf(z.records), log) == FlatOf(z.records))
  {
    var w := UpdateAll(z, log);
    FrozenDeltaIsEmpty(z, log);
    CommitsLeave(z, log);
    ApplyAllRefinesPlay(z.records, log);
    assert Ops([]) == [];
    DeltaCarries(q, w, w, w, z.name, []);
  }

  /** The demonstration's own case: one new record, committed as written, never reaches the secondary. */
  lemma {:induction false} FrozenExample(z: ZoneState, q: ZoneState, ch: Change)
    requires z.rule.Frozen? && Accepted(ch) && ch.kind == UPSERT && KeyOf(ch) !in FlatOf(z.records)
    requires q.serial == z.serial && FlatOf(q.records) == FlatOf(z.records)
    ensures var w := Update(z, ch);
            && KeyOf(ch) in FlatOf(w.records)
            && Refreshed(w, w, w, q).Some? && KeyOf(ch) !in FlatOf(Refreshed(w, w, w, q).value.records)
  {
    assert [ch][..0] == [];
    assert UpdateAll(z, [ch]) == Update(z, ch);
    FrozenConvergence(z, q, [ch]);
    ApplyRefinesStep(z.records, ch);
  }

  // Commits that fail

  /** A primary after commits and failed commits; a failed one is rolled back but leaves its history entry. */
  function Marked(z: ZoneState, marks: seq<Mark>): ZoneState {
    if marks == [] then z
    else
      CommittedAs(Marked(z, marks[..|marks| - 1]), marks[|marks| - 1])
  }

  /** The history they add: a failed commit is entered under the serial of the next one to succeed. */
  function MarkEntries(serial: uint32, marks: seq<Mark>): seq<HistoryEntry> {
    if marks == [] then []
    else
      var front, last := marks[..|marks| - 1], marks[|marks| - 1];
      MarkEntries(serial, front) + [HistoryEntry(NextSerial(Advance(serial, |KeptOf(front)|)), last.change)]
  }

  /** No serial entered in the history wraps. */
  ghost predicate Unwrapped(serial: uint32, marks: seq<Mark>) {
    && serial + |KeptOf(marks)| <= MAX_SERIAL
    && (marks != [] && marks[|marks| - 1].lost ==> serial + |KeptOf(marks)| < MAX_SERIAL)
  }

  /** The entries newer than the `i`-th successful commit. */
  function MarksSince(marks: seq<Mark>, i: nat): seq<Mark> {
    if marks == [] then []
    else
      var front, last := marks[..|marks| - 1], marks[|marks| - 1];
      MarksSince(front, i) + if |KeptOf(front)| >= i then [last] else []
  }

  /** What matters of a primary after these commits. */
  ghost predicate ReachedBy(z: ZoneState, marks: seq<Mark>, w: ZoneState) {
    && w.name == z.name && w.rule == z.rule
    && w.serial == z.serial + |KeptOf(marks)|
    && w.history == z.history + MarkEntries(z.serial, marks)
    && FlatOf(w.records) == Play(FlatOf(z.records), KeptOf(marks))
  }

  lemma {:induction false} UnwrappedFront(serial: uint32, marks: seq<Mark>)
    requires marks != [] && Unwrapped(serial, marks)
    ensures Unwrapped(serial, marks[..|marks| - 1]) && serial + |KeptOf(marks[..|marks| - 1])| < MAX_SERIAL
  {
  }

  /** One more commit, kept or failed. */
  function CommittedAs(w: ZoneState, mark: Mark): ZoneState {
    if mark.lost then RolledBack(Update(w, mark.change), w) else Update(w, mark.change)
  }

  ghost predicate CommitParts(w: ZoneState, mark: Mark, after: ZoneState) {
    && after.name == w.name && after.rule == w.rule
    && after.serial == (if mark.lost then w.serial else NextSerial(w.serial))
    && after.history == w.history + [HistoryEntry(NextSerial(w.serial), mark.change)]
    && FlatOf(after.records) == if mark.lost then FlatOf(w.records) else Step(FlatOf(w.records), mark.change)
  }

  lemma {:induction false} CommittedParts(w: ZoneState, mark: Mark)
    requires w.rule.Advancing? && Accepted(mark.change)
    ensures CommitParts(w, mark, CommittedAs(w, mark))
  {
    ApplyRefinesStep(w.records, mark.change);
  }

  lemma {:induction false} ReachedNext(z: ZoneState, marks: seq<Mark>, w: ZoneState, mark: Mark, after: ZoneState)
    requires ReachedBy(z, marks, w) && Unwrapped(z.serial, marks + [mark]) && CommitParts(w, mark, after)
    ensures ReachedBy(z, marks + [mark], after)
  {
    UnwrappedSnoc(z.serial, marks, mark);
    KeptSnoc(marks, mark);
    ReachedContent(FlatOf(z.records), marks, w, mark, after);
    ReachedHistory(z, marks, w, mark, after);
  }

  lemma {:induction false} ReachedContent(m: Flat, marks: seq<Mark>, w: ZoneState, mark: Mark, after: ZoneState)
    requires FlatOf(w.records) == Play(m, KeptOf(marks)) && CommitParts(w, mark, after)
    ensures FlatOf(after.records) == Play(m, KeptOf(marks + [mark]))
  {
    KeptSnoc(marks, mark);
    PlaySnoc(m, KeptOf(marks), mark.change);
  }

  lemma {:induction false} ReachedHistory(z: ZoneState, marks: seq<Mark>, w: ZoneState, mark: Mark, after: ZoneState)
    requires w.serial == z.serial + |KeptOf(marks)| < MAX_SERIAL && CommitParts(w, mark, after)
    requires w.history == z.history + MarkEntries(z.serial, marks)
    ensures after.history == z.history + MarkEntries(z.serial, marks + [mark])
  {
    AdvanceUnwrapped(z.serial, |KeptOf(marks)|);
    EntriesSnoc(z.serial, z.history, marks, mark);
  }

  lemma {:induction false} UnwrappedSnoc(serial: uint32, marks: seq<Mark>, mark: Mark)
    requires Unwrapped(serial, marks + [mark])
    ensures Unwrapped(serial, marks) && serial + |KeptOf(marks)| < MAX_SERIAL
  {
    assert (marks + [mark])[..|marks|] == marks;
    UnwrappedFront(serial, marks + [mark]);
  }

  lemma {:induction false} EntriesSnoc(serial: uint32, history: seq<HistoryEntry>, marks: seq<Mark>, mark: Mark)
    ensures history + MarkEntries(serial, marks + [mark])
            == history + MarkEntries(serial, marks)
               + [HistoryEntry(NextSerial(Advance(serial, |KeptOf(marks)|)), mark.change)]
  {
    assert (marks + [mark])[..|marks|] == marks;
  }

  lemma {:induction false} MarksReach(z: ZoneState, marks: seq<Mark>)
    requires z.rule.Advancing? && Unwrapped(z.serial, marks) && AllAccepted(AllOf(marks))
    ensures ReachedBy(z, marks, Marked(z, marks))
  {
    AllAcceptedMarks(marks);
    if marks == [] {
      assert z.history + [] == z.history;
    } else {
      var front, last := marks[..|marks| - 1], marks[|marks| - 1];
      AllAcceptedMarks(front);
      UnwrappedFront(z.serial, marks);
      MarksReach(z, front);
      assert marks == front + [last];
      CommittedParts(Marked(z, front), last);
      ReachedNext(z, front, Marked(z, front), last, Marked(z, marks));
    }
  }

  /** The filter on history serials selects exactly the entries since a commit. */
  lemma {:induction false} AfterMarks(serial: uint32, marks: seq<Mark>, i: nat)
    requires Unwrapped(serial, marks) && serial + i <= MAX_SERIAL
    ensures After(MarkEntries(serial, marks), serial + i) == AllOf(MarksSince(marks, i))
  {
    if marks != [] {
      var front, last := marks[..|marks| - 1], marks[|marks| - 1];
      UnwrappedFront(serial, marks);
      AfterMarks(serial, front, i);
      AdvanceUnwrapped(serial, |KeptOf(front)|);
      var e := HistoryEntry(NextSerial(Advance(serial, |KeptOf(front)|)), last.change);
      assert e.serial == serial + |KeptOf(front)| + 1;
      AfterSnoc(MarkEntries(serial, front), e, serial + i);
      KeptSnoc(MarksSince(front, i), last);
      assert MarksSince(front, i) + [] == MarksSince(front, i);
    }
  }

  lemma {:induction false} AfterSnoc(history: seq<HistoryEntry>, e: HistoryEntry, from: uint32)
    ensures After(history + [e], from)
            == if e.serial > from then After(history, from) + [e.change] else After(history, from)
  {
    assert (history + [e])[..|history|] == history;
  }

  lemma {:induction false} KeptSince(marks: seq<Mark>, i: nat)
    requires i <= |KeptOf(marks)|
    ensures KeptOf(MarksSince(marks, i)) == KeptOf(marks)[i..]
  {
    if marks != [] {
      var front, last := marks[..|marks| - 1], marks[|marks| - 1];
      if i <= |KeptOf(front)| {
        KeptSince(front, i);
        KeptSnoc(MarksSince(front, i), last);
        SuffixSnoc(KeptOf(front), i, last.change);
      } else {
        NoneSince(front, i);
      }
    }
  }

  lemma {:induction false} SuffixSnoc<T>(log: seq<T>, i: nat, x: T)
    requires i <= |log|
    ensures (log + [x])[i..] == log[i..] + [x]
  {
  }

  lemma {:induction false} AcceptedSince(marks: seq<Mark>, i: nat)
    requires AllAccepted(AllOf(marks))
    ensures AllAccepted(AllOf(MarksSince(marks, i)))
  {
    AllAcceptedMarks(marks);
    SinceAreMarks(marks, i);
    var since := MarksSince(marks, i);
    AllAcceptedMarks(since);
    forall j | 0 <= j < |since| ensures Accepted(since[j].change) {
      assert since[j] in since;
    }
  }

  lemma {:induction false} SinceAreMarks(marks: seq<Mark>, i: nat)
    ensures forall mark :: mark in MarksSince(marks, i) ==> mark in marks
  {
    if marks != [] {
      SinceAreMarks(marks[..|marks| - 1], i);
    }
  }

  lemma {:induction false} NoneSince(marks: seq<Mark>, i: nat)
    requires |KeptOf(marks)| < i
    ensures MarksSince(marks, i) == []
  {
    if marks != [] {
      NoneSince(marks[..|marks| - 1], i);
    }
  }

  /** What a delta from the `i`-th successful commit carries. */
  function ShippedMarks(marks: seq<Mark>, i: nat): seq<Mark> {
    if i == |KeptOf(marks)| then [] else MarksSince(marks, i)
  }

  /** The delta a primary offers from the `i`-th successful commit on. */
  lemma {:induction false} MarkedOffer(z: ZoneState, marks: seq<Mark>, i: nat, w: ZoneState)
    requires Primary(z) && Unwrapped(z.serial, marks) && AllAccepted(AllOf(marks)) && i <= |KeptOf(marks)|
    requires ReachedBy(z, marks, w)
    ensures IXFR(w, z.serial + i)
            == Some(Delta(w.name, SerialRange(z.serial + i, w.serial), Ops(AllOf(ShippedMarks(marks, i)))))
    ensures AllAccepted(AllOf(ShippedMarks(marks, i)))
  {
    assert Ops([]) == [] && AllOf([]) == [];
    if i < |KeptOf(marks)| {
      MarkedChanges(z, marks, i, w);
      AcceptedSince(marks, i);
    }
  }

  /** Played on whatever the secondary holds: failed commits since then are shipped with the rest. */
  lemma {:induction false} MarkedDelta(z: ZoneState, q: ZoneState, marks: seq<Mark>, i: nat, w: ZoneState)
    requires Primary(z) && Unwrapped(z.serial, marks) && AllAccepted(AllOf(marks)) && i <= |KeptOf(marks)|
    requires ReachedBy(z, marks, w) && q.serial == z.serial + i
    ensures UpToDate(Refreshed(w, w, w, q), Play(FlatOf(q.records), AllOf(ShippedMarks(marks, i))), w.serial)
    ensures WellFormed(q.records) ==> WellFormed(Refreshed(w, w, w, q).value.records)
  {
    MarkedOffer(z, marks, i, w);
    DeltaCarries(q, w, w, w, w.name, AllOf(ShippedMarks(marks, i)));
  }

  /** Of the metadata, a delta changes the serial only. */
  lemma {:induction false} RefreshedMeta(a: ZoneState, b: ZoneState, c: ZoneState, q: ZoneState)
    ensures Refreshed(a, b, c, q).Some? ==> MetaKept(Refreshed(a, b, c, q).value.meta, q.meta)
  {
    if Refreshed(a, b, c, q).Some? {
      WithSerialKeeps(q.meta, DeltaFrom(a, b, c, q.serial).value.range.end);
    }
  }

  lemma {:induction false} MarkedChanges(z: ZoneState, marks: seq<Mark>, i: nat, w: ZoneState)
    requires Primary(z) && Unwrapped(z.serial, marks) && i < |KeptOf(marks)| && ReachedBy(z, marks, w)
    ensures ChangesSince(w, z.serial + i) == Some(AllOf(MarksSince(marks, i)))
  {
    var es := MarkEntries(z.serial, marks);
    assert |es| > 0;
    AfterConcat(z.history, es, z.serial + i);
    AfterNone(z.history, z.serial + i);
    AfterMarks(z.serial, marks, i);
    NothingFirst(After(es, z.serial + i));
  }

  lemma {:induction false} NothingFirst<T>(s: seq<T>)
    ensures [] + s == s
  {
  }

  /**
   A failed commit is rolled back, but its history entry stays, under the serial of
   the next commit. For any interleaving of commits and failed ones, a secondary in
   step with any commit is brought up to date by a delta exactly when nothing was
   committed since, or every key that a failed commit since then was the last to
   write ends with that commit's own effect anyway.
   */
  lemma {:induction false} FailedCommitLeaks(z: ZoneState, q: ZoneState, marks: seq<Mark>, i: nat, w: ZoneState)
    requires Primary(z) && Unwrapped(z.serial, marks) && AllAccepted(AllOf(marks)) && i <= |KeptOf(marks)|
    requires w == Marked(z, marks)
    requires q.serial == z.serial + i && FlatOf(q.records) == Play(FlatOf(z.records), KeptOf(marks)[..i])
    ensures UpToDate(Refreshed(w, w, w, q), FlatOf(w.records), w.serial)
            <==> i == |KeptOf(marks)| || Healed(FlatOf(q.records), MarksSince(marks, i))
  {
    MarksReach(z, marks);
    LeakedDelta(z, q, marks, i, w);
  }

  lemma {:induction false} LeakedDelta(z: ZoneState, q: ZoneState, marks: seq<Mark>, i: nat, w: ZoneState)
    requires Primary(z) && Unwrapped(z.serial, marks) && AllAccepted(AllOf(marks)) && i <= |KeptOf(marks)|
    requires ReachedBy(z, marks, w)
    requires q.serial == z.serial + i && FlatOf(q.records) == Play(FlatOf(z.records), KeptOf(marks)[..i])
    ensures UpToDate(Refreshed(w, w, w, q), FlatOf(w.records), w.serial)
            <==> i == |KeptOf(marks)| || Healed(FlatOf(q.records), MarksSince(marks, i))
  {
    MarkedDelta(z, q, marks, i, w);
    LeakedContent(FlatOf(z.records), FlatOf(q.records), marks, i);
    SameContent(Refreshed(w, w, w, q), Play(FlatOf(q.records), AllOf(ShippedMarks(marks, i))), FlatOf(w.records),
                w.serial);
  }

  lemma {:induction false} LeakedContent(m: Flat, held: Flat, marks: seq<Mark>, i: nat)
    requires i <= |KeptOf(marks)| && held == Play(m, KeptOf(marks)[..i])
    ensures Play(held, AllOf(ShippedMarks(marks, i))) == Play(m, KeptOf(marks))
            <==> i == |KeptOf(marks)| || Healed(held, MarksSince(marks, i))
  {
    var log := KeptOf(marks);
    KeptSince(marks, i);
    assert log[..i] + log[i..] == log;
    PlayConcat(m, log[..i], log[i..]);
    LostChanges(held, MarksSince(marks, i));
  }

  // Changes one side saw and the other did not

  /**
   A full transfer taken while a change is staged carries that change. If the
   change is then rolled back, the secondary is brought up to date by a later
   delta exactly when a later commit rewrites the same key or the change had no
   effect.
   */
  lemma {:induction false} DirtySnapshotLeaks(z: ZoneState, q: ZoneState, staged: Change, log: seq<Change>)
    requires Primary(z) && Accepted(staged) && AllAccepted(log) && z.serial + |log| <= MAX_SERIAL
    requires Reappliable(Staged(z, staged).records)
    ensures var copy := FullApplied(q, SnapshotOf(Staged(z, staged))).0;
            var w := UpdateAll(RolledBack(Staged(z, staged), z), log);
            && FullApplied(q, SnapshotOf(Staged(z, staged))).1
            && (UpToDate(Refreshed(w, w, w, copy), FlatOf(w.records), w.serial)
                <==> Touches(log, KeyOf(staged)) || NoEffect(FlatOf(z.records), staged))
  {
    var copy := FullApplied(q, SnapshotOf(Staged(z, staged))).0;
    SnapshotRoundTrip(Staged(z, staged), q);
    ApplyRefinesStep(z.records, staged);
    assert RolledBack(Staged(z, staged), z) == z;
    CommitsReach(z, log, |log|);
    assert log[..|log|] == log;
    OrphanCopy(z, copy, staged, log, UpdateAll(z, log));
  }

  lemma {:induction false} OrphanCopy(z: ZoneState, copy: ZoneState, staged: Change, log: seq<Change>, w: ZoneState)
    requires Primary(z) && AllAccepted(log) && z.serial + |log| <= MAX_SERIAL
    requires copy.serial == z.serial && FlatOf(copy.records) == Step(FlatOf(z.records), staged)
    requires Reached(z, log, |log|, w)
    ensures UpToDate(Refreshed(w, w, w, copy), FlatOf(w.records), w.serial)
            <==> Touches(log, KeyOf(staged)) || NoEffect(FlatOf(z.records), staged)
  {
    InterleavedReads(z, copy, log, 0, |log|, |log|, |log|, w, w, w);
    assert Shipped(log, 0, |log|, |log|) == log;
    assert log[..|log|] == log;
    OrphanChange(FlatOf(z.records), staged, log);
  }
}
