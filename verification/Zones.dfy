/**
 The versioned zone: staging, commit and rollback of single changes, full and
 incremental transfer. The first half describes each step on zone states as
 values; the classes below carry them out in place.
 */
module Zones {
  import opened Model
  import opened Serials
  import opened Records
  import opened FlatStore
  import opened RecordStore
  import opened Listing

  /**
   What a commit does to the serial. `Frozen` is the program as written: it never
   calls NextSerial. `Advancing` is what its test, its documentation and its own
   demonstration of incremental transfer require: the serial, the SOA and the
   history entry all move to the successor.
   */
  datatype SerialRule = Frozen | Advancing

  datatype HistoryEntry = HistoryEntry(serial: uint32, change: Change)

  datatype ZoneState = ZoneState(name: string, rule: SerialRule, meta: ZoneMeta, records: Contents,
                                 serial: uint32, version: uint64, history: seq<HistoryEntry>)

  function NewVersion(v: uint64): uint64 {
    if v == 0xFFFF_FFFF_FFFF_FFFF then 0 else v + 1
  }

  function WithSerial(meta: ZoneMeta, serial: uint32): ZoneMeta {
    meta.(soa := meta.soa.(serial := serial))
  }

  // Steps of a zone

  function Staged(z: ZoneState, ch: Change): ZoneState {
    z.(records := Apply(z.records, ch))
  }

  function SerialAfter(rule: SerialRule, serial: uint32): uint32 {
    if rule.Frozen? then serial else NextSerial(serial)
  }

  function Committed(z: ZoneState, ch: Change): ZoneState {
    var serial := SerialAfter(z.rule, z.serial);
    z.(version := NewVersion(z.version),
       serial := serial,
       meta := if z.rule.Frozen? then z.meta else WithSerial(z.meta, serial),
       history := z.history + [HistoryEntry(serial, ch)])
  }

  /** A rollback restores records, serial and version, and nothing else. */
  function RolledBack(z: ZoneState, before: ZoneState): ZoneState {
    z.(records := before.records, serial := before.serial, version := before.version)
  }

  /** A change that is staged and committed. */
  function Update(z: ZoneState, ch: Change): ZoneState {
    Committed(Staged(z, ch), ch)
  }

  function UpdateAll(z: ZoneState, log: seq<Change>): ZoneState {
    if log == [] then z else Update(UpdateAll(z, log[..|log| - 1]), log[|log| - 1])
  }

  // Transfer

  function After(history: seq<HistoryEntry>, from: uint32): seq<Change> {
    if history == [] then []
    else
      var last := history[|history| - 1];
      var front := After(history[..|history| - 1], from);
      if last.serial > from then front + [last.change] else front
  }

  function ChangesSince(z: ZoneState, from: uint32): Option<seq<Change>> {
    if z.history == [] then None
    else if z.serial == from then Some([])
    else Some(After(z.history, from))
  }

  ghost function SnapshotOf(z: ZoneState): ZoneSnapshot {
    ZoneSnapshot(z.name, z.meta, z.serial, Listed(z.records))
  }

  /** A batch applied in order, stopping at the first change that is refused. */
  function Batch(c: Contents, log: seq<Change>): (Contents, bool) {
    if log == [] then (c, true)
    else
      var (d, ok) := Batch(c, log[..|log| - 1]);
      var last := log[|log| - 1];
      if ok then (Apply(d, last), Accepted(last)) else (d, false)
  }

  function Cleared(c: Contents): Contents {
    map n | n in c :: map[]
  }

  function Upserts(records: seq<Record>): seq<Change> {
    seq(|records|, i requires 0 <= i < |records| => Change(UPSERT, records[i]))
  }

  function OpChanges(ops: seq<DeltaOp>): seq<Change> {
    seq(|ops|, i requires 0 <= i < |ops| => Change(ops[i].kind, ops[i].record))
  }

  function FullApplied(z: ZoneState, snapshot: ZoneSnapshot): (ZoneState, bool) {
    var (records, ok) := Batch(Cleared(z.records), Upserts(snapshot.records));
    if !ok then (z.(records := records), false)
    else (z.(records := records, serial := snapshot.serial, meta := snapshot.meta,
             version := NewVersion(z.version), history := []), true)
  }

  function SoaChange(zone: string, serial: uint32): Change {
    Change(UPSERT, Record(zone, TYPE_SOA, 0, Decimal(serial)))
  }

  function DeltaApplied(z: ZoneState, delta: Delta): (ZoneState, bool) {
    if delta.range.start != z.serial then (z, false)
    else
      var (records, ok) := Batch(z.records, OpChanges(delta.ops));
      if !ok then (z.(records := records), false)
      else (z.(records := records, serial := delta.range.end, meta := WithSerial(z.meta, delta.range.end),
               version := NewVersion(z.version),
               history := z.history + [HistoryEntry(delta.range.end, SoaChange(delta.zone, delta.range.end))]), true)
  }

  lemma {:induction false} BatchAccepted(c: Contents, log: seq<Change>)
    ensures Batch(c, log).1 <==> AllAccepted(log)
    ensures AllAccepted(log) ==> Batch(c, log).0 == ApplyAll(c, log)
  {
    if log != [] {
      var front := log[..|log| - 1];
      BatchAccepted(c, front);
      if AllAccepted(front) && Accepted(log[|log| - 1]) {
        forall i | 0 <= i < |log| ensures Accepted(log[i]) {
          assert i < |front| ==> log[i] == front[i];
        }
      }
    }
  }

  // The zone object

  class Zone {
    const name: string
    const rule: SerialRule
    const store: Store
    var meta: ZoneMeta
    var serial: uint32
    var version: uint64
    var history: seq<HistoryEntry>
    var hook: bool  // whether a re-signing hook is installed

    ghost predicate Valid()
      reads this, store
    {
      store.Valid()
    }

    /** The arrays behind the store. */
    ghost function Cells(): set<array<Record>>
      reads this, store
    {
      Buffers(store.records)
    }

    ghost function State(): ZoneState
      requires Valid()
      reads this, store, Cells()
    {
      ZoneState(name, rule, meta, store.Contents(), serial, version, history)
    }

    constructor (name: string, rule: SerialRule, meta: ZoneMeta, store: Store)
      requires store.Valid()
      ensures Valid() && this.store == store && !hook
      ensures State() == ZoneState(name, rule, meta, store.Contents(), meta.soa.serial, 0, [])
    {
      this.name, this.rule, this.meta, this.store := name, rule, meta, store;
      serial, version, history, hook := meta.soa.serial, 0, [], false;
    }

    method SetResignHook()
      modifies this`hook
      ensures hook
    {
      hook := true;
    }

    method StageChange(ch: Change) returns (staged: StagedChange?)
      requires Valid()
      modifies store, Cells()
      ensures Valid() && State() == Staged(old(State()), ch)
      ensures fresh(Cells() - old(Cells()))
      ensures staged == null <==> !Accepted(ch)
      ensures staged != null ==>
                && fresh(staged) && fresh(Buffers(staged.before)) && staged.zone == this && staged.Holds()
                && staged.change == ch && staged.applied == AppliedRecord(ch)
                && staged.Before() == old(State())
                && !staged.committed
    {
      var before := store.Snapshot();
      assert Buffers(before) !! Cells();
      var applied, ok := store.Apply(ch);
      assert View(before) == old(store.Contents());
      assert Buffers(before) !! Cells();
      if !ok {
        return null;
      }
      staged := new StagedChange(this, ch, applied, before);
    }

    method Since(from: uint32) returns (changes: Option<seq<Change>>)
      requires Valid()
      ensures changes == ChangesSince(State(), from)
    {
      if |history| == 0 {
        return None;
      }
      if serial == from {
        return Some([]);
      }
      var found: seq<Change> := [];
      for i := 0 to |history|
        invariant found == After(history[..i], from)
      {
        assert history[..i + 1][..i] == history[..i];
        if history[i].serial > from {
          found := found + [history[i].change];
        }
      }
      assert history[..|history|] == history;
      return Some(found);
    }

    method Snapshot() returns (snapshot: ZoneSnapshot)
      requires Valid()
      ensures WellFormed(store.Contents()) ==> snapshot == SnapshotOf(State())
      ensures snapshot.serial == serial && snapshot.meta == meta
    {
      var records := store.All();
      snapshot := ZoneSnapshot(name, meta, serial, records);
    }

    method ApplyBatch(log: seq<Change>) returns (ok: bool)
      requires Valid()
      modifies store, Cells()
      ensures Valid() && (store.Contents(), ok) == Batch(old(store.Contents()), log)
      ensures fresh(Cells() - old(Cells()))
    {
      ghost var c := store.Contents();
      ok := true;
      for i := 0 to |log|
        invariant Valid() && fresh(Cells() - old(Cells()))
        invariant (store.Contents(), true) == Batch(c, log[..i])
      {
        assert log[..i + 1][..i] == log[..i];
        var _, accepted := store.Apply(log[i]);
        if !accepted {
          BatchStops(c, log, i + 1);
          return false;
        }
      }
      assert log[..|log|] == log;
    }

    /** Empties every name; the names themselves stay. */
    method Clear()
      requires Valid()
      modifies store
      ensures Valid() && store.Contents() == Cleared(old(store.Contents()))
      ensures Cells() == {}
    {
      ghost var c := store.Contents();
      var rebuilt := store.Snapshot();
      ViewKeys(rebuilt);
      var cleared := ClearedSlices(rebuilt);
      store.Restore(cleared);
      ClearedShows(cleared, c);
    }

    /** The last step of a transfer: everything but the records. */
    method Publish(serial: uint32, meta: ZoneMeta, history: seq<HistoryEntry>)
      requires Valid()
      modifies this
      ensures Valid() && Cells() == old(Cells()) && hook == old(hook)
      ensures State() == old(State()).(serial := serial, meta := meta, history := history,
                                       version := NewVersion(old(State()).version))
    {
      this.serial, this.meta, this.history := serial, meta, history;
      version := NewVersion(version);
      StoreUntouched(store);
    }

    method Rebuild(records: seq<Record>) returns (ok: bool)
      requires Valid()
      modifies store, Cells()
      ensures Valid() && (store.Contents(), ok) == Batch(Cleared(old(store.Contents())), Upserts(records))
      ensures fresh(Cells() - old(Cells()))
    {
      Clear();
      ok := ApplyBatch(Upserts(records));
    }

    method ApplyFull(snapshot: ZoneSnapshot) returns (ok: bool)
      requires Valid()
      modifies this, store, Cells()
      ensures Valid() && (State(), ok) == FullApplied(old(State()), snapshot)
      ensures fresh(Cells() - old(Cells()))
      ensures hook == old(hook)
    {
      ok := Rebuild(snapshot.records);
      if !ok {
        return;
      }
      Publish(snapshot.serial, snapshot.meta, []);
    }

    method ApplyDelta(delta: Delta) returns (ok: bool)
      requires Valid()
      modifies this, store, Cells()
      ensures Valid() && (State(), ok) == DeltaApplied(old(State()), delta)
      ensures fresh(Cells() - old(Cells()))
      ensures hook == old(hook)
    {
      if delta.range.start != serial {
        return false;
      }
      ok := ApplyBatch(OpChanges(delta.ops));
      if !ok {
        return;
      }
      var end := delta.range.end;
      Publish(end, WithSerial(meta, end), history + [HistoryEntry(end, SoaChange(delta.zone, end))]);
    }
  }

  function ClearedSlices(m: SliceMap): SliceMap {
    map n | n in m :: map[]
  }

  lemma {:induction false} ViewKeys(m: SliceMap)
    requires Separated(m)
    ensures View(m).Keys == ClearedSlices(m).Keys
  {
  }

  lemma {:induction false} ClearedShows(m: SliceMap, c: Contents)
    requires m.Keys == c.Keys && forall n :: n in m ==> m[n] == map[]
    ensures Separated(m) && Buffers(m) == {} && View(m) == Cleared(c)
  {
    ShowsIsView(m, Cleared(c));
  }

  lemma {:induction false} BatchStops(c: Contents, log: seq<Change>, i: nat)
    requires i <= |log| && !Batch(c, log[..i]).1
    ensures Batch(c, log) == Batch(c, log[..i])
    decreases |log| - i
  {
    if i < |log| {
      assert log[..i + 1][..i] == log[..i];
      BatchStops(c, log, i + 1);
    } else {
      assert log[..i] == log;
    }
  }

  class StagedChange {
    const zone: Zone
    const change: Change
    const applied: Record
    const before: SliceMap
    const serialBefore: uint32
    const versionBefore: uint64
    var committed: bool

    /** The saved copy is intact: no array of it is in the zone's store. */
    ghost predicate Holds()
      reads this, zone, zone.store
    {
      && Separated(before)
      && Buffers(before) !! zone.Cells()
    }

    /** The zone state a rollback goes back to, as far as a rollback looks. */
    ghost function Before(): ZoneState
      requires Separated(before)
      reads this, zone, Buffers(before)
    {
      ZoneState(zone.name, zone.rule, zone.meta, View(before), serialBefore, versionBefore, zone.history)
    }

    constructor (zone: Zone, change: Change, applied: Record, before: SliceMap)
      requires Separated(before) && Buffers(before) !! zone.Cells()
      ensures this.zone == zone && this.change == change && this.applied == applied && this.before == before
      ensures serialBefore == zone.serial && versionBefore == zone.version
      ensures Holds() && !committed
    {
      this.zone, this.change, this.applied, this.before := zone, change, applied, before;
      serialBefore, versionBefore, committed := zone.serial, zone.version, false;
    }

    /** `hookFails` is the outcome of the re-signing hook, if one is installed. */
    method Commit(hookFails: bool) returns (ok: bool)
      requires zone.Valid()
      modifies this, zone
      ensures zone.Valid() && zone.hook == old(zone.hook)
      ensures zone.State() == if old(committed) then old(zone.State()) else Committed(old(zone.State()), change)
      ensures ok <==> !old(committed) && !(zone.hook && hookFails)
      ensures committed == (old(committed) || ok)
    {
      if committed {
        return false;
      }
      zone.version := NewVersion(zone.version);
      zone.serial := SerialAfter(zone.rule, zone.serial);
      if zone.rule.Advancing? {
        zone.meta := WithSerial(zone.meta, zone.serial);
      }
      zone.history := zone.history + [HistoryEntry(zone.serial, change)];
      StoreUntouched(zone.store);
      if zone.hook && hookFails {
        return false;
      }
      committed := true;
      ok := true;
    }

    method Rollback()
      requires zone.Valid() && (!committed ==> Holds())
      modifies zone, zone.store
      ensures zone.Valid() && zone.hook == old(zone.hook)
      ensures zone.State() == if committed then old(zone.State()) else RolledBack(old(zone.State()), old(Before()))
      ensures !committed ==> zone.Cells() == Buffers(before)
      ensures committed ==> zone.Cells() == old(zone.Cells())
    {
      if committed {
        return;
      }
      zone.store.Restore(before);
      zone.serial := serialBefore;
      zone.version := versionBefore;
    }
  }

  /** A change that is staged, then other sessions inside it, then its rollback. */
  datatype Session = Session(change: Change, inner: seq<Session>)

  predicate KnownKinds(sessions: seq<Session>) {
    forall s :: s in sessions ==> KnownKind(s.change.kind) && KnownKinds(s.inner)
  }

  /**
   Exact undo, on the arrays themselves: changes staged and rolled back in any
   last-in-first-out order leave the zone as it was, RRset order included, although
   each of them rewrote arrays in place.
   */
  method StageAndUndo(zone: Zone, sessions: seq<Session>)
    requires zone.Valid() && KnownKinds(sessions)
    modifies zone, zone.store, zone.Cells()
    ensures zone.Valid() && zone.State() == old(zone.State())
    ensures fresh(zone.Cells() - old(zone.Cells()))
    decreases sessions, 0
  {
    if sessions == [] {
      return;
    }
    UndoOne(zone, sessions[0]);
    StageAndUndo(zone, sessions[1..]);
  }

  method UndoOne(zone: Zone, session: Session)
    requires zone.Valid() && KnownKind(session.change.kind) && KnownKinds(session.inner)
    modifies zone, zone.store, zone.Cells()
    ensures zone.Valid() && zone.State() == old(zone.State())
    ensures fresh(zone.Cells() - old(zone.Cells()))
    decreases session, 0
  {
    ghost var was := zone.State();
    var staged := zone.StageChange(session.change);
    if staged == null {
      RefusedStays(was, session.change);
      StageAndUndo(zone, session.inner);
    } else {
      assert View(staged.before) == was.records;
      UndoInside(zone, staged, session.inner);
      Undo(zone, staged, was);
    }
  }

  /** What is staged and undone inside a staged change leaves its saved copy alone. */
  method UndoInside(zone: Zone, staged: StagedChange, sessions: seq<Session>)
    requires zone.Valid() && KnownKinds(sessions) && staged.zone == zone && staged.Holds() && !staged.committed
    modifies zone, zone.store, zone.Cells()
    ensures zone.Valid() && zone.State() == old(zone.State())
    ensures fresh(zone.Cells() - old(zone.Cells()))
    ensures staged.Holds() && !staged.committed && View(staged.before) == old(View(staged.before))
    decreases sessions, 1
  {
    ghost var saved, cells := View(staged.before), zone.Cells();
    StageAndUndo(zone, sessions);
    assert Buffers(staged.before) !! cells && fresh(zone.Cells() - cells);
    assert View(staged.before) == saved;
  }

  lemma {:induction false} RefusedStays(z: ZoneState, ch: Change)
    requires KnownKind(ch.kind) && !Accepted(ch)
    ensures Staged(z, ch) == z
  {
  }

  method Undo(zone: Zone, staged: StagedChange, ghost was: ZoneState)
    requires zone.Valid() && staged.zone == zone && staged.Holds() && !staged.committed
    requires zone.State() == Staged(was, staged.change) && View(staged.before) == was.records
    requires staged.serialBefore == was.serial && staged.versionBefore == was.version
    modifies zone, zone.store
    ensures zone.Valid() && zone.State() == was && zone.Cells() == Buffers(staged.before)
  {
    staged.Rollback();
    assert zone.State() == RolledBack(Staged(was, staged.change), was);
  }
}
