/**
 The start-up replay on the zone objects themselves, any number of them: one entry moves
 one zone and leaves the others alone.
 */
module StartUp {
  import opened Model
  import opened RecordStore
  import opened Zones
  import opened Journals
  import opened Updates
  import opened UpdateService

  /** A zone, the objects it is made of, and the state it is in. */
  datatype Part = Part(name: string, zone: Zone, objects: set<object>, state: ZoneState)

  ghost function Objects(parts: seq<Part>): set<object> {
    if parts == [] then {} else parts[0].objects + Objects(parts[1..])
  }

  /** The zone is in its state, made of its objects, and without a hook. */
  ghost predicate Stands(p: Part)
    reads p.objects
  {
    && p.zone in p.objects && p.zone.store in p.objects
    && (forall b :: b in p.zone.Cells() ==> b in p.objects)
    && p.zone.Valid() && !p.zone.hook && p.zone.State() == p.state
  }

  /** Every zone stands, and no two share an object. */
  ghost predicate AllStand(parts: seq<Part>)
    reads Objects(parts)
  {
    parts == [] || (Stands(parts[0]) && parts[0].objects !! Objects(parts[1..]) && AllStand(parts[1..]))
  }

  // Parts of the list

  lemma {:induction false} ObjectsAt(parts: seq<Part>, k: nat)
    requires k < |parts|
    ensures parts[k].objects <= Objects(parts)
  {
    if k > 0 {
      ObjectsAt(parts[1..], k - 1);
    }
  }

  lemma {:induction false} ObjectsConcat(a: seq<Part>, b: seq<Part>)
    ensures Objects(a + b) == Objects(a) + Objects(b)
  {
    if a == [] {
      assert a + b == b;
    } else {
      assert (a + b)[1..] == a[1..] + b;
      ObjectsConcat(a[1..], b);
    }
  }

  lemma {:induction false} StandConcat(a: seq<Part>, b: seq<Part>)
    ensures AllStand(a + b) <==> AllStand(a) && AllStand(b) && Objects(a) !! Objects(b)
  {
    if a == [] {
      assert a + b == b;
    } else {
      assert (a + b)[1..] == a[1..] + b;
      StandConcat(a[1..], b);
      ObjectsConcat(a[1..], b);
    }
  }

  lemma {:induction false} StandSingle(p: Part)
    ensures AllStand([p]) <==> Stands(p)
    ensures Objects([p]) == p.objects
  {
    assert [p][1..] == [];
  }

  /** One zone and the rest. */
  lemma {:induction false} StandSplit(front: seq<Part>, p: Part, back: seq<Part>)
    ensures AllStand(front + [p] + back) <==>
              && AllStand(front) && Stands(p) && AllStand(back)
              && Objects(front) !! p.objects && Objects(front) !! Objects(back) && p.objects !! Objects(back)
    ensures Objects(front + [p] + back) == Objects(front) + p.objects + Objects(back)
  {
    StandConcat(front + [p], back);
    StandConcat(front, [p]);
    ObjectsConcat(front + [p], back);
    ObjectsConcat(front, [p]);
    StandSingle(p);
  }

  // What does not move

  twostate lemma {:induction false} Stays(p: Part)
    requires old(Stands(p)) && unchanged(p.objects)
    ensures Stands(p)
  {
  }

  twostate lemma {:induction false} AllStay(parts: seq<Part>)
    requires old(AllStand(parts)) && forall i :: 0 <= i < |parts| ==> unchanged(parts[i].objects)
    ensures AllStand(parts)
  {
    if parts != [] {
      Stays(parts[0]);
      AllStay(parts[1..]);
    }
  }

  // What moves

  method RestageOne(service: Service, z: Zone, jc: JournalChange, ghost p: Part) returns (ok: bool, ghost after: Part)
    requires Stands(p) && z == p.zone
    modifies p.objects
    ensures Stands(after) && after.name == p.name && after.zone == z
    ensures (after.state, ok) == ReplayZone(p.state, jc)
    ensures fresh(after.objects - p.objects)
  {
    ok := service.Restage(z, jc);
    after := Part(p.name, z, p.objects + z.Cells(), z.State());
  }

  /** An entry is applied to one zone; the others stand as before. */
  method MoveOne(service: Service, z: Zone, jc: JournalChange, ghost front: seq<Part>, ghost p: Part,
                 ghost back: seq<Part>, ghost others: set<object>)
    returns (ok: bool, ghost after: Part)
    requires AllStand(front + [p] + back) && z == p.zone && others == Objects(front) + Objects(back)
    modifies p.objects
    ensures AllStand(front + [after] + back)
    ensures after.name == p.name && after.zone == z && (after.state, ok) == ReplayZone(p.state, jc)
    ensures fresh(after.objects - p.objects)
  {
    StandSplit(front, p, back);
    forall i | 0 <= i < |front| ensures front[i].objects !! p.objects {
      ObjectsAt(front, i);
    }
    forall i | 0 <= i < |back| ensures back[i].objects !! p.objects {
      ObjectsAt(back, i);
    }
    label Before:
    ok, after := RestageOne(service, z, jc, p);
    AllStay@Before(front);
    AllStay@Before(back);
    assert after.objects !! others;
    StandSplit(front, after, back);
  }

  // The zones as a map

  /** Every zone once. */
  ghost predicate Covers(names: seq<string>, zones: set<string>) {
    && (forall n :: n in zones <==> n in names)
    && (forall i, j :: 0 <= i < j < |names| ==> names[i] != names[j])
  }

  /** The parts are the named zones, in the states of the database. */
  ghost predicate Lists(parts: seq<Part>, names: seq<string>, zones: map<string, Zone>, db: Db) {
    && db.Keys == zones.Keys && |parts| == |names|
    && forall i :: 0 <= i < |parts| ==>
         && parts[i].name == names[i] && names[i] in zones
         && parts[i].zone == zones[names[i]] && parts[i].state == db[names[i]]
  }

  lemma {:induction false} Replaced(parts: seq<Part>, k: nat, p: Part)
    requires k < |parts|
    ensures parts[..k] + [p] + parts[k + 1..] == parts[k := p]
  {
  }

  lemma {:induction false} ListsMoved(parts: seq<Part>, names: seq<string>, k: nat, after: Part,
                                      zones: map<string, Zone>, db: Db)
    requires Covers(names, zones.Keys) && Lists(parts, names, zones, db)
    requires k < |parts| && after.name == names[k] && after.zone == parts[k].zone
    ensures Lists(parts[..k] + [after] + parts[k + 1..], names, zones, db[after.name := after.state])
  {
    Replaced(parts, k, after);
    assert db[after.name := after.state].Keys == db.Keys;
  }

  /** One entry of the journal. `objects` is what the zones are made of when the call begins. */
  method ReplayOne(service: Service, e: Entry, ghost parts: seq<Part>, ghost names: seq<string>,
                   ghost db: Db, ghost objects: set<object>)
    returns (ok: bool, ghost after: seq<Part>, ghost d: Db, ghost made: set<object>)
    requires AllStand(parts) && Covers(names, service.zones.Keys) && Lists(parts, names, service.zones, db)
    requires objects == Objects(parts)
    modifies objects
    ensures AllStand(after) && Lists(after, names, service.zones, d) && (d, ok) == ReplayEntry(db, e)
    ensures fresh(made) && Objects(after) <= objects + made
  {
    if e.zone !in service.zones {
      return false, parts, db, {};
    }
    ghost var k :| 0 <= k < |names| && names[k] == e.zone;
    ghost var front, p, back := parts[..k], parts[k], parts[k + 1..];
    SplitAt(parts, k);
    StandSplit(front, p, back);
    ghost var moved;
    ok, moved := MoveOne(service, service.zones[e.zone], e.change, front, p, back, Objects(front) + Objects(back));
    ListsMoved(parts, names, k, moved, service.zones, db);
    StandSplit(front, moved, back);
    after, d := front + [moved] + back, db[e.zone := moved.state];
    made := moved.objects - p.objects;
  }

  lemma {:induction false} SplitAt(parts: seq<Part>, k: nat)
    requires k < |parts|
    ensures parts == parts[..k] + [parts[k]] + parts[k + 1..]
  {
  }

  /**
   The start-up loop: the journal is scanned, then applied entry by entry to the zones
   in place, stopping at the first entry that fails. The zones end in the states that
   the recovery on values describes, each on its own objects.
   */
  method Replay(service: Service, ghost parts: seq<Part>, ghost names: seq<string>,
                   ghost db: Db, ghost objects: set<object>)
    returns (ok: bool, ghost after: seq<Part>)
    requires AllStand(parts) && Covers(names, service.zones.Keys) && Lists(parts, names, service.zones, db)
    requires objects == Objects(parts)
    requires service.journal !in objects
    modifies objects
    ensures AllStand(after)
    ensures var lines := if service.journal.durable then service.journal.lines else [];
            Lists(after, names, service.zones, Recovered(db, lines).0) && ok == Recovered(db, lines).1
  {
    var scanned := service.journal.Replay();
    if scanned.None? {
      return false, parts;
    }
    ok, after := ReplayAll(service, scanned.value, parts, names, db, objects);
  }

  method ReplayAll(service: Service, entries: seq<Entry>, ghost parts: seq<Part>, ghost names: seq<string>,
                   ghost db: Db, ghost objects: set<object>)
    returns (ok: bool, ghost after: seq<Part>)
    requires AllStand(parts) && Covers(names, service.zones.Keys) && Lists(parts, names, service.zones, db)
    requires objects == Objects(parts)
    modifies objects
    ensures AllStand(after) && Lists(after, names, service.zones, Replayed(db, entries).0)
            && ok == Replayed(db, entries).1
  {
    after := parts;
    ghost var d, grown: set<object> := db, {};
    assert entries[..0] == [];
    for i := 0 to |entries|
      invariant AllStand(after) && Lists(after, names, service.zones, d) && Replayed(db, entries[..i]) == (d, true)
      invariant fresh(grown) && Objects(after) <= objects + grown
    {
      ghost var made;
      ok, after, d, made := Advance(service, entries, i, after, names, db, d, objects + grown);
      grown := grown + made;
      if !ok {
        ReplayStops(db, entries, i + 1);
        return false, after;
      }
    }
    assert entries[..|entries|] == entries;
    ok := true;
  }

  /** One step of the loop. */
  method Advance(service: Service, entries: seq<Entry>, i: nat, ghost parts: seq<Part>, ghost names: seq<string>,
                 ghost db: Db, ghost d: Db, ghost objects: set<object>)
    returns (ok: bool, ghost after: seq<Part>, ghost d': Db, ghost made: set<object>)
    requires i < |entries| && Replayed(db, entries[..i]) == (d, true)
    requires AllStand(parts) && Covers(names, service.zones.Keys) && Lists(parts, names, service.zones, d)
    requires Objects(parts) <= objects
    modifies objects
    ensures AllStand(after) && Lists(after, names, service.zones, d') && Replayed(db, entries[..i + 1]) == (d', ok)
    ensures fresh(made) && Objects(after) <= objects + made
  {
    ok, after, d', made := ReplayOne(service, entries[i], parts, names, d, Objects(parts));
    ReplayedNext(db, entries, i, d, d', ok);
  }

  lemma {:induction false} ReplayedNext(db: Db, entries: seq<Entry>, i: nat, d: Db, d': Db, ok: bool)
    requires i < |entries| && Replayed(db, entries[..i]) == (d, true) && (d', ok) == ReplayEntry(d, entries[i])
    ensures Replayed(db, entries[..i + 1]) == (d', ok)
  {
    assert entries[..i + 1][..i] == entries[..i];
  }
}
