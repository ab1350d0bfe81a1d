/**
 The dynamic update service: validate, stage, append to the journal, commit, with
 a rollback on failure; and recovery, which replays the journal on the seed zones.
 */
module Updates {
  import opened Model
  import opened Serials
  import opened Records
  import opened FlatStore
  import opened Orphans
  import opened RecordStore
  import opened Validation
  import opened Zones
  import opened Transfer
  import opened Replication
  import opened Journals

  type Db = map<string, ZoneState>

  datatype Outcome = Rejected | NoZone | JournalFailed | CommitFailed | NotifyFailed | Applied

  /** How the outside world answers one update: the append, the re-signing hook, the notification. */
  datatype Faults = Faults(append: Fate, hook: bool, notify: bool)

  const NO_FAULTS := Faults(Done, false, false)

  function EntryFor(zoneName: string, z: ZoneState, ch: Change): Entry {
    Entry(zoneName, z.serial, ToJournal(ch))
  }

  /** One update of one zone: its new state, the entries added to the journal, and the outcome. */
  function UpdateZone(z: ZoneState, zoneName: string, ch: Change, faults: Faults): (ZoneState, seq<Entry>, Outcome) {
    if !ValidChange(zoneName, ch) then (z, [], Rejected)
    else
      var staged := Staged(z, ch);
      var entry := EntryFor(zoneName, z, ch);
      if !faults.append.Done?
      then (RolledBack(staged, z), if faults.append.Unsynced? then [entry] else [], JournalFailed)
      else if faults.hook then (RolledBack(Committed(staged, ch), z), [entry], CommitFailed)
      else (Committed(staged, ch), [entry], if faults.notify then NotifyFailed else Applied)
  }

  function UpdateDb(db: Db, zoneName: string, ch: Change, faults: Faults): (Db, seq<Entry>) {
    if zoneName !in db then (db, [])
    else
      var (z, entries, _) := UpdateZone(db[zoneName], zoneName, ch, faults);
      (db[zoneName := z], entries)
  }

  // Replay

  function ReplayZone(z: ZoneState, jc: JournalChange): (ZoneState, bool) {
    match FromJournal(jc)
    case None => (z, false)
    case Some(ch) => if Accepted(ch) then (Update(z, ch), true) else (Staged(z, ch), false)
  }

  function ReplayEntry(db: Db, e: Entry): (Db, bool) {
    if e.zone !in db then (db, false)
    else
      var (z, ok) := ReplayZone(db[e.zone], e.change);
      (db[e.zone := z], ok)
  }

  /** Entries in order, stopping at the first that fails. */
  function Replayed(db: Db, entries: seq<Entry>): (Db, bool) {
    if entries == [] then (db, true)
    else
      var (d, ok) := Replayed(db, entries[..|entries| - 1]);
      if ok then ReplayEntry(d, entries[|entries| - 1]) else (d, false)
  }

  /** A start: the lines are scanned, then replayed. */
  function Recovered(db: Db, lines: seq<Entry>): (Db, bool) {
    match Scan(lines)
    case None => (db, false)
    case Some(entries) => Replayed(db, entries)
  }

  // Runs

  /** A dynamic update with its faults, or a restart of the program on the journal it left. */
  datatype Command = Submit(zone: string, change: Change, faults: Faults) | Restart

  /** The live database and the journal; a server whose start failed is down for good. */
  datatype Server = Server(live: Db, journal: seq<Entry>, up: bool)

  function ServerNext(seeds: Db, s: Server, c: Command): Server {
    if !s.up then s
    else match c
      case Submit(zone, ch, faults) =>
        var (d, entries) := UpdateDb(s.live, zone, ch, faults);
        s.(live := d, journal := s.journal + entries)
      case Restart =>
        var (d, ok) := Recovered(seeds, s.journal);
        s.(live := d, up := ok)
  }

  /** The server after a run of updates and restarts from the seeds. */
  function Live(seeds: Db, commands: seq<Command>): Server {
    if commands == [] then Server(seeds, [], true)
    else ServerNext(seeds, Live(seeds, commands[..|commands| - 1]), commands[|commands| - 1])
  }

  /** An update that was journalled although it cannot be replayed. */
  predicate Unreplayable(e: Entry) {
    FromJournal(e.change).None?
  }

  /** The update is taken back after its entry reached the journal. */
  predicate TakenBack(faults: Faults) {
    faults.append.Unsynced? || faults.hook
  }

  /** No update was taken back since the last start. */
  predicate NoneTakenBack(commands: seq<Command>) {
    if commands == [] then true
    else match commands[|commands| - 1]
      case Submit(_, _, faults) => !TakenBack(faults) && NoneTakenBack(commands[..|commands| - 1])
      case Restart => true
  }

  ghost predicate AllReplayable(journal: seq<Entry>) {
    forall i :: 0 <= i < |journal| ==> !Unreplayable(journal[i])
  }

  /** Every entry can be read back and replayed. */
  ghost predicate Recoverable(journal: seq<Entry>) {
    forall i :: 0 <= i < |journal| ==> !Unreplayable(journal[i]) && Fits(journal[i])
  }

  /** A rollback before the commit leaves no trace in the zone, its history included. */
  lemma {:induction false} JournalFailureIsUndone(z: ZoneState, zoneName: string, ch: Change, faults: Faults)
    requires !faults.append.Done?
    ensures UpdateZone(z, zoneName, ch, faults).0 == z
    ensures UpdateZone(z, zoneName, ch, faults).1 == [] <==> !ValidChange(zoneName, ch) || !faults.append.Unsynced?
  {
  }

  /** The client is told that the update was applied, with or without the notification. */
  predicate ReportsSuccess(outcome: Outcome) {
    outcome == Applied || outcome == NotifyFailed
  }

  /**
   What the client is told is what happened. Success is reported exactly for a valid
   update whose append is done and whose hook succeeds; its entry is then journalled and
   its change is in the zone. Every other outcome leaves the records as they were and
   tells which step failed.
   */
  lemma {:induction false} OutcomeTells(z: ZoneState, zoneName: string, ch: Change, faults: Faults)
    ensures var (w, entries, outcome) := UpdateZone(z, zoneName, ch, faults);
            && (ReportsSuccess(outcome) <==> ValidChange(zoneName, ch) && faults.append.Done? && !faults.hook)
            && (outcome == Applied <==> ReportsSuccess(outcome) && !faults.notify)
            && (ReportsSuccess(outcome) ==>
                  FlatOf(w.records) == Step(FlatOf(z.records), ch) && entries == [EntryFor(zoneName, z, ch)])
            && (!ReportsSuccess(outcome) ==> w.records == z.records && w.serial == z.serial && w.version == z.version)
            && (outcome == Rejected <==> !ValidChange(zoneName, ch))
            && (outcome == JournalFailed <==> ValidChange(zoneName, ch) && !faults.append.Done?)
            && (outcome == CommitFailed <==> ValidChange(zoneName, ch) && faults.append.Done? && faults.hook)
  {
    if ValidChange(zoneName, ch) {
      ApplyRefinesStep(z.records, ch);
    }
  }

  /**
   One update either changes nothing and journals nothing, or journals the one entry that
   replays to the same state.
   */
  lemma {:induction false} UpdateIsReplayed(db: Db, zoneName: string, ch: Change, faults: Faults)
    requires !TakenBack(faults)
    ensures var (d, entries) := UpdateDb(db, zoneName, ch, faults);
            || (entries == [] && d == db)
            || (&& |entries| == 1
                && (Unreplayable(entries[0]) <==> IsCnameDelete(ch))
                && ReplayEntry(db, entries[0]) == if IsCnameDelete(ch) then (db, false) else (d, true))
  {
    if zoneName in db {
      if !ValidChange(zoneName, ch) || !faults.append.Done? {
        assert db[zoneName := db[zoneName]] == db;
      } else {
        JournalRoundTrip(zoneName, ch);
        if IsCnameDelete(ch) {
          assert db[zoneName := db[zoneName]] == db;
        }
      }
    }
  }

  lemma {:induction false} ReplayedSnoc(db: Db, journal: seq<Entry>, e: Entry)
    ensures Replayed(db, journal + [e]) == if Replayed(db, journal).1 then ReplayEntry(Replayed(db, journal).0, e)
                                          else Replayed(db, journal)
  {
    assert (journal + [e])[..|journal|] == journal;
  }

  lemma {:induction false} ReplayableSnoc(journal: seq<Entry>, e: Entry)
    ensures AllReplayable(journal + [e]) <==> AllReplayable(journal) && !Unreplayable(e)
  {
    var all := journal + [e];
    assert all[|journal|] == e;
    assert forall i :: 0 <= i < |journal| ==> all[i] == journal[i];
  }

  /** An entry that cannot be replayed stops every later start, whatever precedes and follows it. */
  lemma {:induction false} UnreplayableBlocks(db: Db, before: seq<Entry>, e: Entry, later: seq<Entry>)
    requires Unreplayable(e)
    ensures !Replayed(db, before + [e] + later).1 && !Recovered(db, before + [e] + later).1
    ensures Replayed(db, before).1 ==> Replayed(db, before + [e] + later).0 == Replayed(db, before).0
    decreases |later|
  {
    if later == [] {
      assert before + [e] + later == before + [e];
      ReplayedSnoc(db, before, e);
      var d := Replayed(db, before).0;
      assert e.zone in d ==> d[e.zone := d[e.zone]] == d;
    } else {
      var front := later[..|later| - 1];
      UnreplayableBlocks(db, before, e, front);
      assert before + [e] + later == (before + [e] + front) + [later[|later| - 1]];
      ReplayedSnoc(db, before + [e] + front, later[|later| - 1]);
    }
  }

  /** The failing case as an update: after a CNAME delete was journalled, at any point of a run, no start succeeds. */
  lemma {:induction false} CnameDeleteBlocksRecovery(seeds: Db, commands: seq<Command>, c: Command, later: seq<Entry>)
    requires Live(seeds, commands).up && c.Submit? && c.zone in Live(seeds, commands).live
    requires Journalled(c) && IsCnameDelete(c.change)
    ensures !Recovered(seeds, Live(seeds, commands + [c]).journal + later).1
  {
    var s := Live(seeds, commands);
    var e := EntryFor(c.zone, s.live[c.zone], c.change);
    LiveSnoc(seeds, commands, c);
    JournalRoundTrip(c.zone, c.change);
    UnreplayableBlocks(seeds, s.journal, e, later);
  }

  lemma {:induction false} LiveSnoc(seeds: Db, commands: seq<Command>, c: Command)
    ensures Live(seeds, commands + [c]) == ServerNext(seeds, Live(seeds, commands), c)
  {
    assert (commands + [c])[..|commands|] == commands;
  }

  // What a run leaves in a zone, and what a start would

  predicate Journalled(c: Command)
    requires c.Submit?
  {
    ValidChange(c.zone, c.change) && (c.faults.append.Done? || c.faults.append.Unsynced?)
  }

  /**
   The journalled changes of one zone in order, each with whether it was taken back. A
   restart replays them all, so that what was taken back before it is kept after it.
   */
  function MarksOf(seeds: Db, commands: seq<Command>, zoneName: string): seq<Mark> {
    if commands == [] then []
    else
      var front, c := commands[..|commands| - 1], commands[|commands| - 1];
      MarksNext(MarksOf(seeds, front, zoneName), Live(seeds, front).up, c, zoneName)
  }

  function MarksNext(marks: seq<Mark>, up: bool, c: Command, zoneName: string): seq<Mark> {
    if !up then marks
    else if c.Restart? then AsKept(AllOf(marks))
    else if c.zone == zoneName && Journalled(c) then marks + [Mark(c.change, TakenBack(c.faults))]
    else marks
  }

  /** What the client of a command is told. */
  function Told(s: Server, c: Command): Outcome
    requires c.Submit?
  {
    if !ValidChange(c.zone, c.change) then Rejected
    else if c.zone !in s.live then NoZone
    else UpdateZone(s.live[c.zone], c.zone, c.change, c.faults).2
  }

  /** Over a run: an update reported as applied counts as kept, one reported as failed as taken back or not at all. */
  lemma {:induction false} ToldIsMarked(seeds: Db, commands: seq<Command>, c: Command)
    requires Live(seeds, commands).up && c.Submit? && c.zone in Live(seeds, commands).live
    ensures var told, marks := Told(Live(seeds, commands), c), MarksOf(seeds, commands, c.zone);
            var after := MarksOf(seeds, commands + [c], c.zone);
            if ReportsSuccess(told) then after == marks + [Mark(c.change, false)]
            else after == marks || after == marks + [Mark(c.change, true)]
  {
    assert (commands + [c])[..|commands|] == commands;
  }

  /** The flat content of a zone of the database. */
  ghost predicate Content(db: Db, zoneName: string, m: Flat) {
    zoneName in db && FlatOf(db[zoneName].records) == m
  }

  lemma {:induction false} UpdateContent(db: Db, zoneName: string, m: Flat, c: Command)
    requires c.Submit? && Content(db, zoneName, m)
    ensures Content(UpdateDb(db, c.zone, c.change, c.faults).0, zoneName,
                    if c.zone == zoneName && Journalled(c) && !TakenBack(c.faults) then Step(m, c.change) else m)
  {
    if c.zone == zoneName {
      ZoneContent(db[zoneName], c);
    }
  }

  lemma {:induction false} ZoneContent(z: ZoneState, c: Command)
    requires c.Submit?
    ensures FlatOf(UpdateZone(z, c.zone, c.change, c.faults).0.records)
            == if Journalled(c) && !TakenBack(c.faults) then Step(FlatOf(z.records), c.change) else FlatOf(z.records)
  {
    if ValidChange(c.zone, c.change) {
      ApplyRefinesStep(z.records, c.change);
    }
  }

  lemma {:induction false} EntryContent(db: Db, zoneName: string, m: Flat, e: Entry, ch: Change)
    requires Content(db, zoneName, m) && e.zone in db && ValidChange(e.zone, ch) && e.change == ToJournal(ch)
    ensures Unreplayable(e) <==> IsCnameDelete(ch)
    ensures ReplayEntry(db, e).1 <==> !Unreplayable(e)
    ensures !Unreplayable(e) ==> ReplayEntry(db, e).0.Keys == db.Keys
                                 && Content(ReplayEntry(db, e).0, zoneName,
                                            if e.zone == zoneName then Step(m, ch) else m)
  {
    JournalRoundTrip(e.zone, ch);
    ApplyRefinesStep(db[e.zone].records, ch);
  }

  /** Replaying the journal succeeds if all of it can be replayed, and leaves what all marked changes leave. */
  ghost predicate Follows(db: Db, journal: seq<Entry>, marks: seq<Mark>, zoneName: string)
    requires zoneName in db
  {
    && (Replayed(db, journal).1 <==> AllReplayable(journal))
    && (AllReplayable(journal) ==>
          && Replayed(db, journal).0.Keys == db.Keys
          && Content(Replayed(db, journal).0, zoneName, Play(FlatOf(db[zoneName].records), AllOf(marks))))
  }

  lemma {:induction false} FollowsEntry(db: Db, journal: seq<Entry>, marks: seq<Mark>, zoneName: string, e: Entry,
                                        mark: Mark)
    requires zoneName in db && Follows(db, journal, marks, zoneName)
    requires e.zone in db && ValidChange(e.zone, mark.change) && e.change == ToJournal(mark.change)
    ensures Follows(db, journal + [e], if e.zone == zoneName then marks + [mark] else marks, zoneName)
  {
    var m, d := FlatOf(db[zoneName].records), Replayed(db, journal).0;
    ReplayedSnoc(db, journal, e);
    ReplayableSnoc(journal, e);
    KeptSnoc(marks, mark);
    PlaySnoc(m, AllOf(marks), mark.change);
    if AllReplayable(journal) {
      EntryContent(d, zoneName, Play(m, AllOf(marks)), e, mark.change);
    }
  }

  /** The live zone holds what the kept changes leave. */
  ghost predicate Holds(seeds: Db, s: Server, marks: seq<Mark>, zoneName: string)
    requires zoneName in seeds
  {
    s.up ==>
      && s.live.Keys == seeds.Keys
      && Content(s.live, zoneName, Play(FlatOf(seeds[zoneName].records), KeptOf(marks)))
  }

  lemma {:induction false} SubmitHolds(seeds: Db, s: Server, marks: seq<Mark>, zoneName: string, c: Command)
    requires zoneName in seeds && s.up && c.Submit? && Holds(seeds, s, marks, zoneName)
    ensures Holds(seeds, ServerNext(seeds, s, c), MarksNext(marks, true, c, zoneName), zoneName)
  {
    var m := FlatOf(seeds[zoneName].records);
    UpdateContent(s.live, zoneName, Play(m, KeptOf(marks)), c);
    if c.zone == zoneName && Journalled(c) {
      KeptSnoc(marks, Mark(c.change, TakenBack(c.faults)));
      PlaySnoc(m, KeptOf(marks), c.change);
    }
  }

  lemma {:induction false} SubmitFollows(seeds: Db, s: Server, marks: seq<Mark>, zoneName: string, c: Command)
    requires zoneName in seeds && s.up && c.Submit? && s.live.Keys == seeds.Keys
    requires Follows(seeds, s.journal, marks, zoneName)
    ensures Follows(seeds, ServerNext(seeds, s, c).journal, MarksNext(marks, true, c, zoneName), zoneName)
  {
    if c.zone in s.live && Journalled(c) {
      var e := EntryFor(c.zone, s.live[c.zone], c.change);
      FollowsEntry(seeds, s.journal, marks, zoneName, e, Mark(c.change, TakenBack(c.faults)));
      assert ServerNext(seeds, s, c).journal == s.journal + [e];
    } else {
      assert ServerNext(seeds, s, c).journal == s.journal + [] == s.journal;
    }
  }

  lemma {:induction false} RestartHolds(seeds: Db, s: Server, marks: seq<Mark>, zoneName: string)
    requires zoneName in seeds && s.up && Follows(seeds, s.journal, marks, zoneName)
    ensures Holds(seeds, ServerNext(seeds, s, Restart), AsKept(AllOf(marks)), zoneName)
    ensures Follows(seeds, s.journal, AsKept(AllOf(marks)), zoneName)
  {
    AsKeptKeeps(AllOf(marks));
  }

  /** The live zone holds what the kept changes leave, and a start would leave what all of them do. */
  lemma {:induction false} RunContent(seeds: Db, commands: seq<Command>, zoneName: string)
    requires zoneName in seeds
    ensures var s, marks := Live(seeds, commands), MarksOf(seeds, commands, zoneName);
            Holds(seeds, s, marks, zoneName) && Follows(seeds, s.journal, marks, zoneName)
  {
    if commands != [] {
      var front, c := commands[..|commands| - 1], commands[|commands| - 1];
      var s, marks := Live(seeds, front), MarksOf(seeds, front, zoneName);
      RunContent(seeds, front, zoneName);
      if s.up && c.Restart? {
        RestartHolds(seeds, s, marks, zoneName);
      } else if s.up {
        SubmitHolds(seeds, s, marks, zoneName, c);
        SubmitFollows(seeds, s, marks, zoneName, c);
      }
    }
  }

  /** A server is down only if its journal cannot be recovered from. */
  lemma {:induction false} DownForGood(seeds: Db, commands: seq<Command>)
    ensures !Live(seeds, commands).up ==> !Recovered(seeds, Live(seeds, commands).journal).1
  {
    if commands != [] {
      DownForGood(seeds, commands[..|commands| - 1]);
    }
  }

  /** A start succeeds exactly when every entry can be read back and none is a CNAME delete. */
  lemma {:induction false} StartSucceeds(seeds: Db, commands: seq<Command>)
    ensures Recovered(seeds, Live(seeds, commands).journal).1 <==> Recoverable(Live(seeds, commands).journal)
  {
    if zoneName :| zoneName in seeds {
      RunContent(seeds, commands, zoneName);
    } else {
      NothingJournalled(seeds, commands);
    }
  }

  lemma {:induction false} NothingJournalled(seeds: Db, commands: seq<Command>)
    requires seeds == map[]
    ensures Live(seeds, commands) == Server(seeds, [], true)
  {
    if commands != [] {
      NothingJournalled(seeds, commands[..|commands| - 1]);
    }
  }

  // Recovery

  lemma {:induction false} LiveIsReplayed(seeds: Db, commands: seq<Command>)
    requires NoneTakenBack(commands)
    ensures var s := Live(seeds, commands);
            s.up && AllReplayable(s.journal) ==> Replayed(seeds, s.journal) == (s.live, true)
  {
    if commands != [] {
      var front, c := commands[..|commands| - 1], commands[|commands| - 1];
      var s := Live(seeds, front);
      if s.up && c.Submit? {
        LiveIsReplayed(seeds, front);
        SubmitIsReplayed(seeds, s, c);
      }
    }
  }

  lemma {:induction false} SubmitIsReplayed(seeds: Db, s: Server, c: Command)
    requires s.up && c.Submit? && !TakenBack(c.faults)
    requires AllReplayable(s.journal) ==> Replayed(seeds, s.journal) == (s.live, true)
    ensures var s' := ServerNext(seeds, s, c);
            AllReplayable(s'.journal) ==> Replayed(seeds, s'.journal) == (s'.live, true)
  {
    var (d, entries) := UpdateDb(s.live, c.zone, c.change, c.faults);
    UpdateIsReplayed(s.live, c.zone, c.change, c.faults);
    if entries == [] {
      assert s.journal + entries == s.journal;
    } else {
      assert entries == [entries[0]];
      ReplayedSnoc(seeds, s.journal, entries[0]);
      ReplayableSnoc(s.journal, entries[0]);
    }
  }

  /**
   Crash recovery. Over every run of updates and restarts in which no update was taken
   back since the last start: a start from the journal succeeds exactly when every
   entry can be read back and none is a CNAME delete, and then yields the live database
   exactly: content, RRset order, serials, versions and histories.
   */
  lemma {:induction false} CrashRecovery(seeds: Db, commands: seq<Command>)
    requires NoneTakenBack(commands)
    ensures var s := Live(seeds, commands);
            var (recovered, ok) := Recovered(seeds, s.journal);
            && (ok <==> Recoverable(s.journal))
            && (ok ==> s.up && recovered == s.live)
  {
    StartSucceeds(seeds, commands);
    DownForGood(seeds, commands);
    LiveIsReplayed(seeds, commands);
  }

  /**
   Recovery over every run of updates and restarts, whatever failed and when: a start
   succeeds exactly when every entry can be read back and none is a CNAME delete, and
   it then gives a zone its live content exactly when every key that an update taken
   back since the last start was the last to write holds that update's own effect in
   the live zone anyway.
   */
  lemma {:induction false} FailedCommitResurfaces(seeds: Db, commands: seq<Command>, zoneName: string)
    requires zoneName in seeds
    ensures var s := Live(seeds, commands);
            var (recovered, ok) := Recovered(seeds, s.journal);
            && (ok <==> Recoverable(s.journal))
            && (ok ==> s.up && zoneName in s.live && zoneName in recovered
                       && (FlatOf(recovered[zoneName].records) == FlatOf(s.live[zoneName].records)
                           <==> Healed(FlatOf(seeds[zoneName].records), MarksOf(seeds, commands, zoneName))))
  {
    RunContent(seeds, commands, zoneName);
    DownForGood(seeds, commands);
    LostChanges(FlatOf(seeds[zoneName].records), MarksOf(seeds, commands, zoneName));
  }

  /**
   One update taken back, then later updates of the zone: it is back after a start unless
   rewritten or without effect.
   */
  lemma {:induction false} OneFailedCommit(m: Flat, lost: Change, later: seq<Change>)
    ensures Healed(m, [Mark(lost, true)] + AsKept(later)) <==> Touches(later, KeyOf(lost)) || NoEffect(m, lost)
  {
    var first, marks := [Mark(lost, true)], [Mark(lost, true)] + AsKept(later);
    AsKeptKeeps(later);
    KeptConcat(first, AsKept(later));
    assert first[..0] == [];
    assert AllOf(first) == [] + [lost] == [lost] && KeptOf(first) == [];
    assert [] + later == later;
    LostChanges(m, marks);
    PlayConcat(m, [lost], later);
    assert [lost][..0] == [];
    assert Play(m, [lost]) == Step(m, lost);
    OrphanChange(m, lost, later);
  }

  lemma {:induction false} UpdateAllFlat(z: ZoneState, log: seq<Change>)
    requires AllAccepted(log)
    ensures FlatOf(UpdateAll(z, log).records) == Play(FlatOf(z.records), log)
  {
    CommitsLeave(z, log);
    ApplyAllRefinesPlay(z.records, log);
  }

  /** Replaying a zone's whole log a second time changes nothing in its content. */
  lemma {:induction false} SecondReplayIsIdle(z: ZoneState, log: seq<Change>)
    requires AllAccepted(log)
    ensures FlatOf(UpdateAll(UpdateAll(z, log), log).records) == FlatOf(UpdateAll(z, log).records)
  {
    UpdateAllFlat(z, log);
    UpdateAllFlat(UpdateAll(z, log), log);
    assert log[..|log|] == log;
    PrefixAbsorption(FlatOf(z.records), log, |log|);
  }

  // What the entries say

  /** No update of the run is taken back after its entry reached the journal. */
  ghost predicate NothingTakenBack(commands: seq<Command>) {
    forall i :: 0 <= i < |commands| && commands[i].Submit? ==> !TakenBack(commands[i].faults)
  }

  /** The entries of one zone. */
  function CountOf(journal: seq<Entry>, zoneName: string): nat {
    if journal == [] then 0
    else CountOf(journal[..|journal| - 1], zoneName) + if journal[|journal| - 1].zone == zoneName then 1 else 0
  }

  /** The serial of a zone after so many commits. */
  function SerialAt(z: ZoneState, commits: nat): uint32 {
    if z.rule.Frozen? then z.serial else Advance(z.serial, commits)
  }

  /** Each entry carries the serial its zone had before the commit. */
  ghost predicate Numbered(seeds: Db, journal: seq<Entry>) {
    forall i :: 0 <= i < |journal| ==>
      && journal[i].zone in seeds
      && journal[i].serial == SerialAt(seeds[journal[i].zone], CountOf(journal[..i], journal[i].zone))
  }

  ghost predicate SerialsStand(seeds: Db, db: Db, journal: seq<Entry>) {
    forall n :: n in db ==>
      n in seeds && db[n].rule == seeds[n].rule && db[n].serial == SerialAt(seeds[n], CountOf(journal, n))
  }

  lemma {:induction false} CountSnoc(journal: seq<Entry>, e: Entry, zoneName: string)
    ensures CountOf(journal + [e], zoneName) == CountOf(journal, zoneName) + if e.zone == zoneName then 1 else 0
  {
    assert (journal + [e])[..|journal|] == journal;
  }

  lemma {:induction false} NumberedSnoc(seeds: Db, journal: seq<Entry>, e: Entry)
    requires Numbered(seeds, journal)
    requires e.zone in seeds && e.serial == SerialAt(seeds[e.zone], CountOf(journal, e.zone))
    ensures Numbered(seeds, journal + [e])
  {
    var all := journal + [e];
    forall i | 0 <= i < |all|
      ensures all[i].zone in seeds && all[i].serial == SerialAt(seeds[all[i].zone], CountOf(all[..i], all[i].zone))
    {
      assert all[..i] == if i < |journal| then journal[..i] else journal;
    }
  }

  lemma {:induction false} SubmitNumbers(seeds: Db, db: Db, journal: seq<Entry>, c: Command)
    requires c.Submit? && !TakenBack(c.faults) && Numbered(seeds, journal) && SerialsStand(seeds, db, journal)
    ensures var (d, entries) := UpdateDb(db, c.zone, c.change, c.faults);
            Numbered(seeds, journal + entries) && SerialsStand(seeds, d, journal + entries)
  {
    var (d, entries) := UpdateDb(db, c.zone, c.change, c.faults);
    if entries == [] {
      assert journal + entries == journal;
    } else {
      var e := EntryFor(c.zone, db[c.zone], c.change);
      assert entries == [e];
      NumberedSnoc(seeds, journal, e);
      forall n | n in d
        ensures n in seeds && d[n].rule == seeds[n].rule && d[n].serial == SerialAt(seeds[n], CountOf(journal + [e], n))
      {
        CountSnoc(journal, e, n);
      }
    }
  }

  /**
   Over every run of updates and restarts that takes nothing back, the entries of a zone
   are numbered by its serial before each commit: successors, or all alike as written.
   */
  lemma {:induction false} JournalIsNumbered(seeds: Db, commands: seq<Command>)
    requires NothingTakenBack(commands)
    ensures Numbered(seeds, Live(seeds, commands).journal)
    ensures Live(seeds, commands).up ==> SerialsStand(seeds, Live(seeds, commands).live, Live(seeds, commands).journal)
  {
    if commands != [] {
      var front, last := commands[..|commands| - 1], commands[|commands| - 1];
      var s := Live(seeds, front);
      assert forall i :: 0 <= i < |front| ==> front[i] == commands[i];
      JournalIsNumbered(seeds, front);
      if s.up && last.Submit? {
        SubmitNumbers(seeds, s.live, s.journal, last);
      } else if s.up {
        NoneSinceStart(front);
        CrashRecovery(seeds, front);
      }
    }
  }

  lemma {:induction false} NoneSinceStart(commands: seq<Command>)
    requires NothingTakenBack(commands)
    ensures NoneTakenBack(commands)
  {
    if commands != [] {
      NoneSinceStart(commands[..|commands| - 1]);
    }
  }
}
