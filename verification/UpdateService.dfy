/** The update service as objects: ordered side effects on a zone and the journal, and the replay of one entry. */
module UpdateService {
  import opened Model
  import opened Records
  import opened RecordStore
  import opened Validation
  import opened Zones
  import opened Journals
  import opened Updates

  class Service {
    const zones: map<string, Zone>
    const journal: Journal

    constructor (zones: map<string, Zone>, journal: Journal)
      ensures this.zones == zones && this.journal == journal
    {
      this.zones, this.journal := zones, journal;
    }

    /** What an operation on one zone may change. */
    ghost function Footprint(zoneName: string): set<object>
      reads if zoneName in zones then {zones[zoneName], zones[zoneName].store} else {}
    {
      if zoneName !in zones then {}
      else
        var z := zones[zoneName];
        {z, z.store} + z.Cells()
    }

    ghost predicate ZoneValid(zoneName: string)
      reads if zoneName in zones then {zones[zoneName], zones[zoneName].store} else {}
    {
      zoneName in zones ==> zones[zoneName].Valid()
    }

    /** The hook counts only where one is installed, and the file only where there is one. */
    function Seen(faults: Faults, hooked: bool): Faults {
      Faults(if journal.durable || faults.append.Refused? then faults.append else Done,
             hooked && faults.hook, faults.notify)
    }

    /** The append reports no error: it is done, or there is no file that could fail. */
    predicate Takes(append: Fate) {
      append.Done? || (!journal.durable && !append.Refused?)
    }

    /** Only a journal with a file keeps its entries. */
    function Lines(entries: seq<Entry>): seq<Entry> {
      if journal.durable then entries else []
    }

    /** An accepted change: stage, append, commit; roll back if the append or the commit fails. */
    method Write(z: Zone, zoneName: string, ch: Change, faults: Faults) returns (outcome: Outcome)
      requires z.Valid() && ValidChange(zoneName, ch)
      modifies journal, z, z.store, z.Cells()
      ensures z.Valid() && z.hook == old(z.hook)
      ensures var (w, entries, result) := UpdateZone(old(z.State()), zoneName, ch, Seen(faults, z.hook));
              z.State() == w && journal.lines == old(journal.lines) + Lines(entries) && outcome == result
      ensures fresh(z.Cells() - old(z.Cells()))
    {
      ghost var before := z.State();
      var appended;
      appended, outcome := StageAndFinish(z, Entry(zoneName, z.serial, ToJournal(ch)), ch, faults);
      assert EntryFor(zoneName, before, ch) == Entry(zoneName, before.serial, ToJournal(ch));
    }

    method StageAndFinish(z: Zone, e: Entry, ch: Change, faults: Faults) returns (appended: bool, outcome: Outcome)
      requires z.Valid() && Accepted(ch)
      modifies journal, z, z.store, z.Cells()
      ensures z.Valid() && z.hook == old(z.hook) && fresh(z.Cells() - old(z.Cells()))
      ensures (z.State(), outcome)
              == Finished(Staged(old(z.State()), ch), old(z.State()), ch, appended,
                          z.hook && faults.hook, faults.notify)
      ensures appended <==> faults.append.Done? || (!journal.durable && !faults.append.Refused?)
      ensures journal.lines
              == old(journal.lines)
                 + if journal.durable && (faults.append.Done? || faults.append.Unsynced?) then [e] else []
    {
      var staged := z.StageChange(ch);
      appended := Record(z, staged, e, faults.append);
      outcome := Finish(z, staged, appended, faults);
    }

    /** A staged change after its append: rolled back, or committed, or rolled back by its commit. */
    static function Finished(staged: ZoneState, before: ZoneState, ch: Change, appended: bool, hookFails: bool,
                             notifyFails: bool): (ZoneState, Outcome) {
      if !appended then (RolledBack(staged, before), JournalFailed)
      else if hookFails then (RolledBack(Committed(staged, ch), before), CommitFailed)
      else (Committed(staged, ch), if notifyFails then NotifyFailed else Applied)
    }

    /** The append, which touches neither the zone nor the saved copy. */
    method Record(z: Zone, staged: StagedChange, e: Entry, fate: Fate) returns (ok: bool)
      requires z.Valid() && staged.zone == z && staged.Holds()
      modifies journal
      ensures z.Valid() && staged.Holds() && z.State() == old(z.State()) && staged.Before() == old(staged.Before())
      ensures ok <==> fate.Done? || (!journal.durable && !fate.Refused?)
      ensures journal.lines
              == old(journal.lines) + if journal.durable && (fate.Done? || fate.Unsynced?) then [e] else []
    {
      ok := journal.Append(e, fate);
      StoreUntouched(z.store);
    }

    /** The commit and what follows it, or the rollback if the entry was not appended. */
    method Finish(z: Zone, staged: StagedChange, appended: bool, faults: Faults) returns (outcome: Outcome)
      requires z.Valid() && staged.zone == z && staged.Holds() && !staged.committed
      modifies staged, z, z.store
      ensures z.Valid() && z.hook == old(z.hook)
      ensures (z.State(), outcome)
              == Finished(old(z.State()), old(staged.Before()), staged.change, appended,
                          z.hook && faults.hook, faults.notify)
      ensures z.Cells() <= old(z.Cells()) + Buffers(staged.before)
    {
      if !appended {
        staged.Rollback();
        return JournalFailed;
      }
      var committed := staged.Commit(faults.hook);
      if !committed {
        staged.Rollback();
        return CommitFailed;
      }
      outcome := if faults.notify then NotifyFailed else Applied;
    }

    method Apply(zoneName: string, ch: Change, faults: Faults) returns (outcome: Outcome)
      requires ZoneValid(zoneName)
      modifies journal, Footprint(zoneName)
      ensures ZoneValid(zoneName)
      ensures zoneName !in zones ==> journal.lines == old(journal.lines)
                                     && outcome == if ValidChange(zoneName, ch) then NoZone else Rejected
      ensures zoneName in zones ==>
                var z := zones[zoneName];
                var (w, entries, result) := UpdateZone(old(z.State()), zoneName, ch, Seen(faults, old(z.hook)));
                && z.State() == w && journal.lines == old(journal.lines) + Lines(entries) && outcome == result
                && z.hook == old(z.hook) && fresh(z.Cells() - old(z.Cells()))
      ensures ReportsSuccess(outcome) <==>
                && ValidChange(zoneName, ch) && zoneName in zones && Takes(faults.append)
                && !(old(zones[zoneName].hook) && faults.hook)
      ensures outcome == Applied <==> ReportsSuccess(outcome) && !faults.notify
      ensures ReportsSuccess(outcome) && journal.durable ==>
                journal.lines == old(journal.lines) + [EntryFor(zoneName, old(zones[zoneName].State()), ch)]
    {
      if !ValidChange(zoneName, ch) {
        return Rejected;
      }
      if zoneName !in zones {
        return NoZone;
      }
      outcome := Write(zones[zoneName], zoneName, ch, faults);
    }

    // Recovery

    /** One journal entry on one zone, before hooks are installed. */
    method Restage(z: Zone, jc: JournalChange) returns (ok: bool)
      requires z.Valid() && !z.hook
      modifies z, z.store, z.Cells()
      ensures z.Valid() && !z.hook
      ensures (z.State(), ok) == ReplayZone(old(z.State()), jc)
      ensures fresh(z.Cells() - old(z.Cells()))
    {
      var ch := FromJournal(jc);
      if ch.None? {
        return false;
      }
      var staged := z.StageChange(ch.value);
      if staged == null {
        return false;
      }
      ok := staged.Commit(false);
    }

    method ApplyReplayed(e: Entry) returns (ok: bool)
      requires ZoneValid(e.zone) && (e.zone in zones ==> !zones[e.zone].hook)
      modifies Footprint(e.zone)
      ensures ZoneValid(e.zone)
      ensures e.zone !in zones ==> !ok
      ensures e.zone in zones ==> (zones[e.zone].State(), ok) == ReplayZone(old(zones[e.zone].State()), e.change)
    {
      if e.zone !in zones {
        return false;
      }
      ok := Restage(zones[e.zone], e.change);
    }
  }

  lemma {:induction false} ReplayStops(db: Db, entries: seq<Entry>, i: nat)
    requires i <= |entries| && !Replayed(db, entries[..i]).1
    ensures Replayed(db, entries) == Replayed(db, entries[..i])
    decreases |entries| - i
  {
    if i < |entries| {
      assert entries[..i + 1][..i] == entries[..i];
      ReplayStops(db, entries, i + 1);
    } else {
      assert entries[..i] == entries;
    }
  }
}
