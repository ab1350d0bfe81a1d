/**
 Zone transfer: what a delta contains, what a snapshot carries across, and what
 the secondary holds afterwards.
 */
module Transfer {
  import opened Model
  import opened Names
  import opened Serials
  import opened Records
  import opened FlatStore
  import opened Listing
  import opened Validation
  import opened Zones

  // Building a delta

  /**
   The delta built from three separate reads of the primary: `a` answers the
   equality test, `b` the changes, `c` the end of the range.
   */
  function DeltaFrom(a: ZoneState, b: ZoneState, c: ZoneState, from: uint32): Option<Delta> {
    if from == a.serial then Some(Delta(a.name, RangeBetween(from, c.serial), []))
    else match ChangesSince(b, from)
      case None => None
      case Some(changes) => Some(Delta(b.name, RangeBetween(from, c.serial), Ops(changes)))
  }

  function Ops(changes: seq<Change>): seq<DeltaOp> {
    seq(|changes|, i requires 0 <= i < |changes| => DeltaOp(changes[i].kind, changes[i].record))
  }

  function IXFR(z: ZoneState, from: uint32): Option<Delta> {
    DeltaFrom(z, z, z, from)
  }

  lemma {:induction false} OpsRoundTrip(changes: seq<Change>)
    ensures OpChanges(Ops(changes)) == changes
  {
  }

  /** With no commit between the reads, the loop builds the delta of one state. */
  method BuildDelta(z: Zone, from: uint32) returns (delta: Option<Delta>)
    requires z.Valid()
    ensures delta == IXFR(z.State(), from)
  {
    if from == z.serial {
      return Some(Delta(z.name, RangeBetween(from, z.serial), []));
    }
    var changes := z.Since(from);
    if changes.None? {
      return None;
    }
    var ops: seq<DeltaOp> := [];
    for i := 0 to |changes.value|
      invariant ops == Ops(changes.value[..i])
    {
      ops := ops + [DeltaOp(changes.value[i].kind, changes.value[i].record)];
    }
    assert changes.value[..|changes.value|] == changes.value;
    delta := Some(Delta(z.name, RangeBetween(from, z.serial), ops));
  }

  /**
   There is a delta from a serial exactly when it is the primary's own or the primary has
   a history; a primary without one answers any other serial with an error.
   */
  lemma {:induction false} DeltaOffered(z: ZoneState, from: uint32)
    ensures IXFR(z, from).None? <==> z.history == [] && from != z.serial
    ensures IXFR(z, from).Some? ==> IXFR(z, from).value.zone == z.name
                                    && IXFR(z, from).value.range == SerialRange(from, z.serial)
  {
  }

  // History as committed

  /** The history entries a run of commits adds to a zone at the given serial. */
  function Entries(rule: SerialRule, serial: uint32, log: seq<Change>): seq<HistoryEntry> {
    if log == [] then []
    else Entries(rule, serial, log[..|log| - 1])
         + [HistoryEntry(if rule.Frozen? then serial else Advance(serial, |log|), log[|log| - 1])]
  }

  lemma {:induction false} CommitsLeave(z: ZoneState, log: seq<Change>)
    ensures var w := UpdateAll(z, log);
            && w.name == z.name && w.rule == z.rule
            && w.records == ApplyAll(z.records, log)
            && w.serial == (if z.rule.Frozen? then z.serial else Advance(z.serial, |log|))
            && w.meta == (if z.rule.Frozen? || log == [] then z.meta else WithSerial(z.meta, w.serial))
            && w.history == z.history + Entries(z.rule, z.serial, log)
  {
    if log == [] {
      assert z.history + [] == z.history;
    } else {
      CommitsLeave(z, log[..|log| - 1]);
    }
  }

  ghost predicate NoneAfter(history: seq<HistoryEntry>, serial: uint32) {
    forall i :: 0 <= i < |history| ==> history[i].serial <= serial
  }

  lemma {:induction false} AfterConcat(first: seq<HistoryEntry>, second: seq<HistoryEntry>, from: uint32)
    ensures After(first + second, from) == After(first, from) + After(second, from)
  {
    if second == [] {
      assert first + second == first;
    } else {
      var front := second[..|second| - 1];
      AfterConcat(first, front, from);
      assert (first + second)[..|first + second| - 1] == first + front;
    }
  }

  lemma {:induction false} AfterNone(history: seq<HistoryEntry>, from: uint32)
    requires NoneAfter(history, from)
    ensures After(history, from) == []
  {
    if history != [] {
      AfterNone(history[..|history| - 1], from);
    }
  }

  /** On an unwrapped stretch the filter cuts the log exactly at the given serial. */
  lemma {:induction false} AfterCuts(serial: uint32, log: seq<Change>, cut: nat)
    requires cut <= |log| && serial + |log| <= MAX_SERIAL
    ensures After(Entries(Advancing, serial, log), serial + cut) == log[cut..]
  {
    if log != [] {
      var front := log[..|log| - 1];
      AdvanceUnwrapped(serial, |log|);
      if cut == |log| {
        EntriesBelow(serial, front);
        AfterNone(Entries(Advancing, serial, front), serial + cut);
      } else {
        AfterCuts(serial, front, cut);
        assert front[cut..] + [log[|log| - 1]] == log[cut..];
      }
    }
  }

  lemma {:induction false} EntriesBelow(serial: uint32, log: seq<Change>)
    requires serial + |log| <= MAX_SERIAL
    ensures NoneAfter(Entries(Advancing, serial, log), serial + |log|)
  {
    if log != [] {
      EntriesBelow(serial, log[..|log| - 1]);
      AdvanceUnwrapped(serial, |log|);
    }
  }

  /** With advancing serials, the entries after the starting serial are the whole log unless a serial wrapped. */
  lemma {:induction false} AfterComplete(serial: uint32, log: seq<Change>)
    ensures After(Entries(Advancing, serial, log), serial) == log <==> serial == 0 || serial + |log| <= MAX_SERIAL
    ensures |After(Entries(Advancing, serial, log), serial)| <= |log|
  {
    if log != [] {
      var front := log[..|log| - 1];
      AfterComplete(serial, front);
      AdvanceClosedForm(serial, |log|);
      AdvanceUnwrapped(serial, |log|);
      var shipped := After(Entries(Advancing, serial, front), serial);
      if shipped + [log[|log| - 1]] == log {
        assert shipped == log[..|log| - 1];
      }
    }
  }

  // What commits do to the serial

  /**
   The promise of the serial test: a commit advances the serial and the SOA
   follows. It holds exactly for the advancing rule below the wrap point.
   */
  lemma {:induction false} CommitAdvancesSerial(z: ZoneState, ch: Change)
    requires z.meta.soa.serial == z.serial
    ensures var w := Update(z, ch);
            w.serial > z.serial && w.meta.soa.serial == w.serial <==> z.rule.Advancing? && z.serial < MAX_SERIAL
  {
  }

  /** As written, the program ships no change to a secondary at the primary's serial, whatever was committed. */
  lemma {:induction false} FrozenDeltaIsEmpty(z: ZoneState, log: seq<Change>)
    requires z.rule.Frozen?
    ensures UpdateAll(z, log).serial == z.serial
    ensures IXFR(UpdateAll(z, log), z.serial) == Some(Delta(z.name, SerialRange(z.serial, z.serial), []))
  {
    CommitsLeave(z, log);
  }

  // Applying a delta

  ghost predicate InSync(p: ZoneState, q: ZoneState) {
    && FlatOf(q.records) == FlatOf(p.records)
    && Listed(q.records) == Listed(p.records)
    && q.serial == p.serial
    && q.meta == p.meta
  }

  /** The same zone metadata but for the serial. */
  predicate MetaKept(a: ZoneMeta, b: ZoneMeta) {
    a.(soa := a.soa.(serial := b.soa.serial)) == b
  }

  lemma {:induction false} WithSerialKeeps(meta: ZoneMeta, serial: uint32)
    ensures WithSerial(meta, serial).soa.serial == serial && MetaKept(WithSerial(meta, serial), meta)
  {
  }

  /** A delta is applied only where it starts: any other leaves the whole zone as it was and is refused. */
  lemma {:induction false} OutOfStep(q: ZoneState, delta: Delta)
    ensures delta.range.start != q.serial ==> DeltaApplied(q, delta) == (q, false)
    ensures DeltaApplied(q, delta).1 <==> delta.range.start == q.serial && AllAccepted(OpChanges(delta.ops))
    ensures !DeltaApplied(q, delta).1 ==> DeltaApplied(q, delta).0 == q.(records := DeltaApplied(q, delta).0.records)
  {
    BatchAccepted(q.records, OpChanges(delta.ops));
  }

  /** A delta of acceptable operations that starts at the secondary's serial is played on its content. */
  lemma {:induction false} DeltaPlays(q: ZoneState, delta: Delta)
    requires delta.range.start == q.serial && AllAccepted(OpChanges(delta.ops))
    ensures var (r, ok) := DeltaApplied(q, delta);
            && ok && r.serial == r.meta.soa.serial == delta.range.end
            && FlatOf(r.records) == Play(FlatOf(q.records), OpChanges(delta.ops))
            && (WellFormed(q.records) ==> WellFormed(r.records))
  {
    BatchAccepted(q.records, OpChanges(delta.ops));
    ApplyAllRefinesPlay(q.records, OpChanges(delta.ops));
  }

  /** The delta starts at the secondary's serial and breaks off at its operation `cut`, the first that is refused. */
  ghost predicate BreaksOff(q: ZoneState, bad: Delta, cut: nat) {
    && bad.range.start == q.serial && cut < |bad.ops|
    && AllAccepted(OpChanges(bad.ops)[..cut]) && !Accepted(OpChanges(bad.ops)[cut])
  }

  lemma {:induction false} BrokenBatch(c: Contents, log: seq<Change>, cut: nat)
    requires cut < |log| && AllAccepted(log[..cut]) && !Accepted(log[cut])
    ensures Batch(c, log) == (Apply(ApplyAll(c, log[..cut]), log[cut]), false)
  {
    BatchAccepted(c, log[..cut]);
    assert log[..cut + 1][..cut] == log[..cut];
    BatchStops(c, log, cut + 1);
  }

  /** What a delta that breaks off leaves: the operations before, and what the refused one did; the serial stays. */
  lemma {:induction false} BrokenDelta(q: ZoneState, bad: Delta, cut: nat)
    requires BreaksOff(q, bad, cut)
    ensures DeltaApplied(q, bad)
            == (q.(records := Apply(ApplyAll(q.records, OpChanges(bad.ops)[..cut]), OpChanges(bad.ops)[cut])), false)
  {
    BrokenBatch(q.records, OpChanges(bad.ops), cut);
  }

  /** Sending the same delta again breaks off again. */
  lemma {:induction false} BrokenDeltaStaysBroken(q: ZoneState, bad: Delta, cut: nat)
    requires BreaksOff(q, bad, cut)
    ensures var (half, ok) := DeltaApplied(q, bad);
            !ok && BreaksOff(half, bad, cut) && !DeltaApplied(half, bad).1
  {
    BrokenDelta(q, bad, cut);
    BrokenDelta(DeltaApplied(q, bad).0, bad, cut);
  }

  /**
   A delta that broke off halfway, followed by a corrected one that starts with the
   same operations: the secondary ends with what the corrected delta alone would have
   left, in content and serial, exactly when the refused operation did no damage. It
   did if its kind is unknown, its record valid and stored, and not the last of its
   RRset; the corrected delta then has to write that record itself.
   */
  lemma {:induction false} FailedDeltaCanBeRetried(q: ZoneState, bad: Delta, cut: nat, fixed: Delta)
    requires WellFormed(q.records) && BreaksOff(q, bad, cut)
    requires fixed.range.start == q.serial && AllAccepted(OpChanges(fixed.ops))
    requires cut <= |fixed.ops| && fixed.ops[..cut] == bad.ops[..cut]
    ensures var (half, _) := DeltaApplied(q, bad);
            var (r, again), (w, once) := DeltaApplied(half, fixed), DeltaApplied(q, fixed);
            var refused := OpChanges(bad.ops)[cut];
            && again && once && r.serial == w.serial
            && (FlatOf(r.records) == FlatOf(w.records) <==>
                  || !ValidRecord(refused.record)
                  || !Displaces(ApplyAll(q.records, OpChanges(bad.ops)[..cut]), refused)
                  || Touches(OpChanges(fixed.ops), KeyOf(refused)))
  {
    var log, refused := OpChanges(fixed.ops), OpChanges(bad.ops)[cut];
    var c := ApplyAll(q.records, OpChanges(bad.ops)[..cut]);
    assert OpChanges(bad.ops)[..cut] == log[..cut] by {
      SameOps(bad.ops, fixed.ops, cut);
    }
    BrokenDelta(q, bad, cut);
    DeltaPlays(q.(records := Apply(c, refused)), fixed);
    DeltaPlays(q, fixed);
    ApplyAllRefinesPlay(q.records, log[..cut]);
    RetriedContent(FlatOf(q.records), c, log, cut, refused);
  }

  lemma {:induction false} SameOps(a: seq<DeltaOp>, b: seq<DeltaOp>, cut: nat)
    requires cut <= |a| && cut <= |b| && a[..cut] == b[..cut]
    ensures OpChanges(a)[..cut] == OpChanges(b)[..cut]
  {
    forall i | 0 <= i < cut ensures OpChanges(a)[i] == OpChanges(b)[i] {
      assert a[..cut][i] == b[..cut][i];
    }
  }

  lemma {:induction false} RetriedContent(m: Flat, c: Contents, log: seq<Change>, cut: nat, refused: Change)
    requires cut <= |log| && WellFormed(c) && FlatOf(c) == Play(m, log[..cut]) && !Accepted(refused)
    ensures Play(FlatOf(Apply(c, refused)), log) == Play(m, log)
            <==> !ValidRecord(refused.record) || !Displaces(c, refused) || Touches(log, KeyOf(refused))
  {
    PrefixAbsorption(m, log, cut);
    if ValidRecord(refused.record) {
      UnknownKindRemoves(c, refused);
      if Displaces(c, refused) {
        var gone := refused.(kind := DELETE);
        DisplacedIsStored(c, refused);
        assert KeyOf(gone) == KeyOf(refused);
        OrphanChange(FlatOf(c), gone, log);
      }
    }
  }

  lemma {:induction false} DisplacedIsStored(c: Contents, ch: Change)
    requires Displaces(c, ch)
    ensures KeyOf(ch) in FlatOf(c)
  {
    var k := KeyOf(ch);
    FlatHas(c, k);
    var i :| 0 <= i < |RRSetOf(c, k.name, k.rtype)| - 1 && RRSetOf(c, k.name, k.rtype)[i].rdata == k.rdata;
  }

  // Snapshots

  lemma {:induction false} UpsertsPlay(records: seq<Record>, k: Key)
    requires forall i, j :: 0 <= i < j < |records| ==>
               KeyOf(Change(UPSERT, records[i])) != KeyOf(Change(UPSERT, records[j]))
    ensures (exists i :: 0 <= i < |records| && KeyOf(Change(UPSERT, records[i])) == k)
            <==> At(Play(map[], Upserts(records)), k).Some?
    ensures forall i :: 0 <= i < |records| && KeyOf(Change(UPSERT, records[i])) == k
                        ==> At(Play(map[], Upserts(records)), k) == Some(records[i].ttl)
  {
    if records != [] {
      var front, last := records[..|records| - 1], records[|records| - 1];
      assert Upserts(records)[..|records| - 1] == Upserts(front);
      UpsertsPlay(front, k);
      assert forall i :: 0 <= i < |front| ==> front[i] == records[i];
      assert KeyOf(Change(UPSERT, records[|records| - 1])) == KeyOf(Change(UPSERT, last));
      assert At(Play(map[], Upserts(records)), k)
             == if KeyOf(Change(UPSERT, last)) == k then Some(last.ttl) else At(Play(map[], Upserts(front)), k);
    }
  }

  lemma {:induction false} ClearedIsEmpty(c: Contents)
    ensures FlatOf(Cleared(c)) == map[] && WellFormed(Cleared(c))
  {
  }

  lemma {:induction false} ListedKeys(c: Contents)
    requires Reappliable(c)
    ensures var records := Listed(c);
            && AllAccepted(Upserts(records))
            && (forall i :: 0 <= i < |records| ==>
                  At(FlatOf(c), KeyOf(Change(UPSERT, records[i]))) == Some(records[i].ttl))
            && (forall i, j :: 0 <= i < j < |records| ==>
                  KeyOf(Change(UPSERT, records[i])) != KeyOf(Change(UPSERT, records[j])))
  {
    var records := Listed(c);
    ListedIsSorted(c);
    forall i | 0 <= i < |records|
      ensures ValidRecord(records[i]) && CanonicalName(records[i].name) == records[i].name
      ensures At(FlatOf(c), KeyOf(Change(UPSERT, records[i]))) == Some(records[i].ttl)
    {
      assert records[i] in records;
      ListedRecord(c, records[i]);
    }
    forall i, j | 0 <= i < j < |records|
      ensures KeyOf(Change(UPSERT, records[i])) != KeyOf(Change(UPSERT, records[j]))
    {
      RecordLessTotal(records[i], records[j]);
    }
  }

  lemma {:induction false} KeyIsListed(c: Contents, k: Key)
    requires Reappliable(c) && k in FlatOf(c)
    ensures var records := Listed(c);
            exists i :: 0 <= i < |records| && KeyOf(Change(UPSERT, records[i])) == k
  {
    var records := Listed(c);
    ListedIsSorted(c);
    RecordsAreFlat(c);
    var r := Record(k.name, k.rtype, FlatOf(c)[k], k.rdata);
    assert r in FlatRecords(FlatOf(c));
    ListedRecord(c, r);
    var i :| 0 <= i < |records| && records[i] == r;
    assert KeyOf(Change(UPSERT, records[i])) == k;
  }

  /** Replaying the listing of a re-appliable store rebuilds its flat map. */
  lemma {:induction false} ListingRebuilds(c: Contents)
    requires Reappliable(c)
    ensures AllAccepted(Upserts(Listed(c)))
    ensures Play(map[], Upserts(Listed(c))) == FlatOf(c)
  {
    var records, m := Listed(c), FlatOf(c);
    ListedKeys(c);
    forall k ensures At(Play(map[], Upserts(records)), k) == At(m, k) {
      UpsertsPlay(records, k);
      if k in m {
        KeyIsListed(c, k);
      }
    }
    SameFlat(Play(map[], Upserts(records)), m);
  }

  lemma {:induction false} ListedRecord(c: Contents, r: Record)
    requires Reappliable(c) && r in RecordsOf(c)
    ensures ValidRecord(r) && CanonicalName(r.name) == r.name
    ensures var k := Key(r.name, r.rtype, r.rdata); k in FlatOf(c) && FlatOf(c)[k] == r.ttl
  {
    RecordsAreFlat(c);
    var n, t :| n in c && t in c[n] && r in c[n][t];
    var i :| 0 <= i < |c[n][t]| && c[n][t][i] == r;
    assert WellFormedRRSet(n, t, c[n][t]) && ReappliableRRSet(n, c[n][t]);
  }

  /** A full transfer carries everything across, whatever the secondary held before. */
  lemma {:induction false} SnapshotRoundTrip(p: ZoneState, q: ZoneState)
    requires Reappliable(p.records)
    ensures var (r, ok) := FullApplied(q, SnapshotOf(p));
            && ok && r.serial == p.serial && r.meta == p.meta && r.history == [] && SnapshotOf(p).name == p.name
            && WellFormed(r.records) && FlatOf(r.records) == FlatOf(p.records)
            && Listed(r.records) == Listed(p.records)
  {
    var log := Upserts(Listed(p.records));
    ListingRebuilds(p.records);
    ClearedIsEmpty(q.records);
    BatchAccepted(Cleared(q.records), log);
    ApplyAllRefinesPlay(Cleared(q.records), log);
    ListingIsContent(FullApplied(q, SnapshotOf(p)).0.records, p.records);
  }
}
