/**
 Signed answers over whole runs of a server with any number of zones, which share
 one ring and one map of stored signatures: updates with the re-signing hook
 installed, reloads and rollovers.
 */
module SignedRuns {
  import opened Model
  import opened Names
  import opened Records
  import FlatStore
  import opened Validation
  import opened Zones
  import opened Keyrings
  import opened Wire
  import opened Signers
  import opened Resigning

  datatype Site = Site(zones: map<string, ZoneState>, ring: Ring, sigs: Signatures)

  datatype SiteEvent =
    | Write(zone: string, change: Change, appendFails: bool, now: int, draws: Draws)
    | Reload(zone: string, names: seq<string>, now: int, draws: Draws)
    | Rollover(key: Key, activeFrom: int, now: int)

  /** An update as the service performs it: the hook re-signs the name the applied record reports. */
  function Written(s: Site, zone: string, ch: Change, appendFails: bool, now: int, draws: Draws): Site {
    if !ValidChange(zone, ch) || zone !in s.zones then s
    else
      var z := s.zones[zone];
      if appendFails then s.(zones := s.zones[zone := RolledBack(Staged(z, ch), z)])
      else
        var w := Update(z, ch);
        var (sigs, ok) := Resigned(s.sigs, s.ring, RRSetsOfNames(w.records, [AppliedRecord(ch).name]), now, draws);
        s.(zones := s.zones[zone := if ok then w else RolledBack(w, z)], sigs := sigs)
  }

  ghost function SiteNext(s: Site, e: SiteEvent): Site
    requires RingOk(s.ring)
  {
    match e
    case Write(zone, ch, appendFails, now, draws) => Written(s, zone, ch, appendFails, now, draws)
    case Reload(zone, names, now, draws) =>
      if zone in s.zones && forall n :: n in names <==> n in s.zones[zone].records
      then s.(sigs := Resigned(s.sigs, s.ring, ZoneRRSets(s.zones[zone].records, names), now, draws).0)
      else s
    case Rollover(key, activeFrom, now) => s.(ring := RolledOver(s.ring, key, activeFrom, now).0)
  }

  // What every run keeps

  /** Everything visible in a zone lies in it. */
  ghost predicate Within(c: Contents, zone: string) {
    forall n, t :: RRSetOf(c, n, t) != [] ==> InZone(n, CanonicalName(zone))
  }

  /** No zone lies inside another. */
  ghost predicate ZonesApart(zones: set<string>) {
    forall y, z :: y in zones && z in zones && y != z ==> !InZone(CanonicalName(y), CanonicalName(z))
  }

  ghost predicate ZoneFit(z: ZoneState, zone: string) {
    ProperZone(zone) && Reappliable(z.records) && Within(z.records, zone)
  }

  ghost predicate Fit(s: Site) {
    && RingOk(s.ring) && ZonesApart(s.zones.Keys)
    && forall zone :: zone in s.zones ==> ZoneFit(s.zones[zone], zone)
  }

  /** The RRset is not visible, or it has a stored signature over its current list by a key that will be tried. */
  ghost predicate SignedAt(s: Site, zone: string, n: string, t: RecordType) {
    zone in s.zones ==>
      || RRSetOf(s.zones[zone].records, n, t) == []
      || Covered(s.zones[zone].records, s.ring, s.sigs, n, t)
  }

  ghost predicate AllSigned(s: Site) {
    forall zone, n, t :: SignedAt(s, zone, n, t)
  }

  /** Zones apart from each other have no name in common. */
  lemma {:induction false} NoCommonName(n: string, y: string, z: string)
    requires InZone(n, y) && InZone(n, z) && !InZone(y, z)
    ensures InZone(z, y)
  {
    InZoneRoutes(n, y);
    InZoneRoutes(n, z);
    RouteMatchIsLabelSuffix(n, y);
    RouteMatchIsLabelSuffix(n, z);
    if |Labels(z)| <= |Labels(y)| {
      SuffixesNest(Labels(z), Labels(y), Labels(n));
      RouteMatchIsLabelSuffix(y, z);
      InZoneRoutes(y, z);
    } else {
      SuffixesNest(Labels(y), Labels(z), Labels(n));
      RouteMatchIsLabelSuffix(z, y);
      InZoneRoutes(z, y);
    }
  }

  lemma {:induction false} InvisibleElsewhere(s: Site, zone: string, other: string, c: Contents, n: string,
                                              t: RecordType)
    requires ZonesApart(s.zones.Keys) && zone in s.zones && other in s.zones && zone != other
    requires InZone(n, CanonicalName(zone)) && Within(c, other)
    ensures RRSetOf(c, n, t) == []
  {
    if RRSetOf(c, n, t) != [] {
      NoCommonName(n, CanonicalName(zone), CanonicalName(other));
    }
  }

  /** A valid update keeps its zone's content fit. */
  lemma {:induction false} UpdateKeepsFit(z: ZoneState, zone: string, ch: Change)
    requires ZoneFit(z, zone) && ValidChange(zone, ch)
    ensures ZoneFit(Update(z, ch), zone)
  {
    UpdateKeepsReappliable(zone, z.records, ch);
    forall n, t | RRSetOf(Apply(z.records, ch), n, t) != [] ensures InZone(n, CanonicalName(zone)) {
      FlatStore.ApplyRRSet(z.records, ch, n, t);
    }
  }

  /** The RRsets the hook signs after this update. */
  function HookSigns(z: ZoneState, ch: Change): seq<RRSet> {
    RRSetsOfNames(Update(z, ch).records, [AppliedRecord(ch).name])
  }

  /** The update reaches its hook, and the hook signs what it has to. */
  predicate Takes(s: Site, zone: string, ch: Change, appendFails: bool) {
    && ValidChange(zone, ch) && zone in s.zones && !appendFails
    && (HookSigns(s.zones[zone], ch) == [] || SigningKeyOf(s.ring).Some?)
  }

  /** What an update leaves: done and signed, or content and signatures as they were. */
  lemma {:induction false} WrittenIs(s: Site, zone: string, ch: Change, appendFails: bool, now: int, draws: Draws)
    ensures var after := Written(s, zone, ch, appendFails, now, draws);
            if Takes(s, zone, ch, appendFails)
            then after == Site(s.zones[zone := Update(s.zones[zone], ch)], s.ring,
                               Resigned(s.sigs, s.ring, HookSigns(s.zones[zone], ch), now, draws).0)
            else LeavesContent(s, after)
  {
    if ValidChange(zone, ch) && zone in s.zones {
      var z := s.zones[zone];
      if appendFails {
        ContentLeft(s, zone, RolledBack(Staged(z, ch), z));
      } else {
        HookSucceeds(s.ring, s.sigs, HookSigns(z, ch), now, draws);
        ContentLeft(s, zone, RolledBack(Update(z, ch), z));
      }
    }
  }

  lemma {:induction false} ContentLeft(s: Site, zone: string, w: ZoneState)
    requires zone in s.zones && w.records == s.zones[zone].records
    ensures LeavesContent(s, s.(zones := s.zones[zone := w]))
    ensures LeavesContent(s, Site(s.zones[zone := w], s.ring, s.sigs))
  {
  }

  /** Same ring, same signatures, and every zone with the content it had. */
  ghost predicate LeavesContent(s: Site, after: Site) {
    && after.ring == s.ring && after.sigs == s.sigs && after.zones.Keys == s.zones.Keys
    && forall zone :: zone in s.zones ==> after.zones[zone].records == s.zones[zone].records
  }

  lemma {:induction false} LeftContentKeeps(s: Site, after: Site)
    requires LeavesContent(s, after)
    ensures Fit(s) ==> Fit(after)
    ensures forall zone, n, t :: SignedAt(after, zone, n, t) <==> SignedAt(s, zone, n, t)
  {
    if Fit(s) {
      forall zone | zone in after.zones ensures ZoneFit(after.zones[zone], zone) {
        assert ZoneFit(s.zones[zone], zone);
      }
    }
  }

  lemma {:induction false} FitReplaced(s: Site, zone: string, w: ZoneState, sigs: Signatures)
    requires Fit(s) && zone in s.zones && ZoneFit(w, zone)
    ensures s.zones[zone := w].Keys == s.zones.Keys && Fit(Site(s.zones[zone := w], s.ring, sigs))
  {
    var after := s.zones[zone := w];
    assert after.Keys == s.zones.Keys;
    forall z | z in after ensures ZoneFit(after[z], z) {
      assert ZoneFit(s.zones[z], z);
    }
  }

  lemma {:induction false} EventKeepsFit(s: Site, e: SiteEvent)
    requires Fit(s)
    ensures Fit(SiteNext(s, e)) && SiteNext(s, e).zones.Keys == s.zones.Keys
  {
    match e
    case Write(zone, ch, appendFails, now, draws) =>
      WrittenIs(s, zone, ch, appendFails, now, draws);
      if Takes(s, zone, ch, appendFails) {
        UpdateKeepsFit(s.zones[zone], zone, ch);
        FitReplaced(s, zone, Update(s.zones[zone], ch), SiteNext(s, e).sigs);
      } else {
        LeftContentKeeps(s, SiteNext(s, e));
      }
    case Reload(_, _, _, _) =>
    case Rollover(key, activeFrom, now) =>
      if key.id !in s.ring.keys {
        RolloverKeeps(s.ring, key, activeFrom, now);
      }
  }

  // One RRset through one event

  /** The name an accepted change reports is the one it is stored under. */
  predicate ReportsStoredName(ch: Change) {
    AppliedRecord(ch).name == CanonicalName(ch.record.name)
  }

  /** An upsert of this RRset whose name is not spelled canonically: the hook then signs under the spelling. */
  predicate Misspells(ch: Change, n: string, t: RecordType) {
    !ReportsStoredName(ch) && CanonicalName(ch.record.name) == n && ch.record.rtype == t
  }

  /**
   The events that can cost an RRset its signature: an update that misspells it; a
   re-signing of it, by an update of its name or a reload of its zone, while the active
   key is not in the verification set; a rollover when the key behind the stored
   signature has left its window.
   */
  ghost predicate Spoils(s: Site, e: SiteEvent, zone: string, n: string, t: RecordType) {
    match e
    case Write(z, ch, _, _, _) =>
      z == zone && (Misspells(ch, n, t) || (AppliedRecord(ch).name == n && !KeyTrusted(s.ring)))
    case Reload(z, _, _, _) => z == zone && !KeyTrusted(s.ring)
    case Rollover(key, _, now) => key.id !in s.ring.keys && Visible(s, zone, n, t) && !SignerInWindow(s, n, t, now)
  }

  /** An update keeps an RRset signed that it does not spoil, in its own zone and in every other. */
  lemma {:induction false} WriteKeepsSigned(s: Site, e: SiteEvent, zone: string, n: string, t: RecordType)
    requires Fit(s) && e.Write? && !Spoils(s, e, zone, n, t) && SignedAt(s, zone, n, t)
    ensures SignedAt(SiteNext(s, e), zone, n, t)
  {
    WrittenIs(s, e.zone, e.change, e.appendFails, e.now, e.draws);
    if Takes(s, e.zone, e.change, e.appendFails) {
      TakenKeepsSigned(s, e, zone, n, t, HookSigns(s.zones[e.zone], e.change));
    } else {
      LeftContentKeeps(s, SiteNext(s, e));
    }
  }

  lemma {:induction false} TakenKeepsSigned(s: Site, e: SiteEvent, zone: string, n: string, t: RecordType,
                                            signs: seq<RRSet>)
    requires Fit(s) && e.Write? && !Spoils(s, e, zone, n, t) && SignedAt(s, zone, n, t)
    requires Takes(s, e.zone, e.change, e.appendFails) && signs == HookSigns(s.zones[e.zone], e.change)
    ensures SignedAt(Site(s.zones[e.zone := Update(s.zones[e.zone], e.change)], s.ring,
                          Resigned(s.sigs, s.ring, signs, e.now, e.draws).0), zone, n, t)
  {
    var ch, w := e.change, Update(s.zones[e.zone], e.change);
    UpdateKeepsFit(s.zones[e.zone], e.zone, ch);
    HookSucceeds(s.ring, s.sigs, signs, e.now, e.draws);
    if e.zone == zone {
      OwnWrite(s.zones[zone].records, s.ring, s.sigs, ch, e.now, e.draws, n, t);
    } else if zone in s.zones && RRSetOf(s.zones[zone].records, n, t) != [] {
      InvisibleElsewhere(s, zone, e.zone, w.records, n, t);
      OtherWrite(s.zones[zone].records, s.ring, s.sigs, w.records, AppliedRecord(ch).name, e.now, e.draws, n, t);
    }
  }

  /** An RRset of another zone: its signature is not touched. */
  lemma {:induction false} OtherWrite(c: Contents, ring: Ring, sigs: Signatures, other: Contents, raw: string, now: int,
                                      draws: Draws, n: string, t: RecordType)
    requires Reappliable(c) && RingOk(ring) && Covered(c, ring, sigs, n, t)
    requires RRSetOf(c, n, t) != [] && RRSetOf(other, n, t) == []
    ensures Covered(c, ring, Resigned(sigs, ring, RRSetsOfNames(other, [raw]), now, draws).0, n, t)
  {
    VisibleIsManaged(c, n, t);
    NamesList(other, [raw]);
    NamesNoneEmpty(other, [raw]);
    ElsewhereCovered(c, ring, sigs, other, RRSetsOfNames(other, [raw]), now, draws, n, t);
  }

  /** The zone's own RRset: re-signed under its name, or neither it nor its signature touched. */
  lemma {:induction false} OwnWrite(was: Contents, ring: Ring, sigs: Signatures, ch: Change, now: int, draws: Draws,
                                    n: string, t: RecordType)
    requires Accepted(ch) && RingOk(ring) && Reappliable(Apply(was, ch)) && !Misspells(ch, n, t)
    requires AppliedRecord(ch).name == n ==> KeyTrusted(ring)
    requires RRSetOf(was, n, t) == [] || Covered(was, ring, sigs, n, t)
    requires Resigned(sigs, ring, RRSetsOfNames(Apply(was, ch), [AppliedRecord(ch).name]), now, draws).1
    ensures var c := Apply(was, ch);
            RRSetOf(c, n, t) == []
            || Covered(c, ring, Resigned(sigs, ring, RRSetsOfNames(c, [AppliedRecord(ch).name]), now, draws).0, n, t)
  {
    var c := Apply(was, ch);
    FlatStore.ApplyRRSet(was, ch, n, t);
    if RRSetOf(c, n, t) != [] {
      HookCovers(c, was, ring, sigs, AppliedRecord(ch).name, now, draws, n, t);
    }
  }

  lemma {:induction false} ReloadIs(s: Site, zone: string, names: seq<string>, now: int, draws: Draws)
    requires RingOk(s.ring) && zone in s.zones && forall n :: n in names <==> n in s.zones[zone].records
    ensures SiteNext(s, Reload(zone, names, now, draws))
            == Site(s.zones, s.ring, Resigned(s.sigs, s.ring, ZoneRRSets(s.zones[zone].records, names), now, draws).0)
  {
  }

  /** A reload signs everything visible in its zone, whatever was stored before. */
  lemma {:induction false} ReloadCovers(s: Site, zone: string, names: seq<string>, now: int, draws: Draws,
                                        n: string, t: RecordType)
    requires Fit(s) && CanSign(s.ring) && zone in s.zones && forall n :: n in names <==> n in s.zones[zone].records
    ensures SignedAt(SiteNext(s, Reload(zone, names, now, draws)), zone, n, t)
  {
    ReloadIs(s, zone, names, now, draws);
    if RRSetOf(s.zones[zone].records, n, t) != [] {
      ReloadCoversOne(s.zones[zone].records, s.ring, s.sigs, names, now, draws, n, t);
    }
  }

  lemma {:induction false} ReloadKeepsSigned(s: Site, e: SiteEvent, zone: string, n: string, t: RecordType)
    requires Fit(s) && e.Reload? && SignedAt(s, zone, n, t) && !Spoils(s, e, zone, n, t)
    ensures SignedAt(SiteNext(s, e), zone, n, t)
  {
    if e.zone in s.zones && zone in s.zones && forall n :: n in e.names <==> n in s.zones[e.zone].records {
      var c, other := s.zones[zone].records, s.zones[e.zone].records;
      ReloadIs(s, e.zone, e.names, e.now, e.draws);
      if SigningKeyOf(s.ring).None? {
        assert SiteNext(s, e) == s;
      } else if e.zone == zone {
        ReloadCovers(s, zone, e.names, e.now, e.draws, n, t);
      } else if RRSetOf(c, n, t) != [] {
        VisibleIsManaged(c, n, t);
        InvisibleElsewhere(s, zone, e.zone, other, n, t);
        ZoneRRSetsListed(other, e.names);
        ElsewhereCovered(c, s.ring, s.sigs, other, ZoneRRSets(other, e.names), e.now, e.draws, n, t);
      }
    }
  }

  /** The key behind the stored signature is inside its window. */
  predicate SignerInWindow(s: Site, n: string, t: RecordType, now: int) {
    var k := SignatureKey(n, t);
    k in s.sigs && s.sigs[k].keyID in s.ring.keys && InWindow(s.ring.keys[s.sigs[k].keyID], now)
  }

  ghost predicate Visible(s: Site, zone: string, n: string, t: RecordType) {
    zone in s.zones && RRSetOf(s.zones[zone].records, n, t) != []
  }

  /** After a rollover a signature holds on exactly while the key behind it is inside its window. */
  lemma {:induction false} RolloverCovered(s: Site, key: Key, activeFrom: int, now: int,
                                           zone: string, n: string, t: RecordType)
    requires RingOk(s.ring) && key.id !in s.ring.keys
    requires Visible(s, zone, n, t) && SignedAt(s, zone, n, t)
    ensures SignedAt(SiteNext(s, Rollover(key, activeFrom, now)), zone, n, t) <==> SignerInWindow(s, n, t, now)
  {
    var ring := RolledOver(s.ring, key, activeFrom, now).0;
    assert SiteNext(s, Rollover(key, activeFrom, now)) == Site(s.zones, ring, s.sigs);
    RolledKeys(s.ring, key, activeFrom, now, ring);
    CoveredAfter(s.zones[zone].records, s.ring, ring, s.sigs, now, n, t);
  }

  lemma {:induction false} RolledKeys(r: Ring, key: Key, activeFrom: int, now: int, after: Ring)
    requires RingOk(r) && key.id !in r.keys && after == RolledOver(r, key, activeFrom, now).0
    ensures KeysKept(r, after, now)
  {
    RolloverKeeps(r, key, activeFrom, now);
  }

  /** Old keys stay, and stay in the verification set exactly while inside their window. */
  ghost predicate KeysKept(r: Ring, after: Ring, now: int) {
    forall id :: id in r.keys ==>
      && id in after.keys && after.keys[id].secret == r.keys[id].secret
      && (id in after.verifying <==> InWindow(r.keys[id], now))
  }

  lemma {:induction false} CoveredAfter(c: Contents, ring: Ring, after: Ring, sigs: Signatures, now: int, n: string,
                                        t: RecordType)
    requires Covered(c, ring, sigs, n, t)
    requires KeysKept(ring, after, now)
    ensures Covered(c, after, sigs, n, t) <==> InWindow(ring.keys[sigs[SignatureKey(n, t)].keyID], now)
  {
    RolledGenuine(c, ring, after, sigs, now, n, t);
  }

  /**
   A rollover leaves the server able to sign and every answer signed exactly when it is
   turned down, or the new key has an identifier and starts no later than now and every
   key behind a visible signature is inside its window.
   */
  lemma {:induction false} RolloverKeepsSigned(s: Site, key: Key, activeFrom: int, now: int)
    requires Fit(s) && CanSign(s.ring) && AllSigned(s)
    ensures var after := SiteNext(s, Rollover(key, activeFrom, now));
            CanSign(after.ring) && AllSigned(after) <==>
              || key.id in s.ring.keys
              || (&& key.id != "" && activeFrom <= now
                  && forall zone, n, t :: Visible(s, zone, n, t) ==> SignerInWindow(s, n, t, now))
  {
    var after := SiteNext(s, Rollover(key, activeFrom, now));
    if key.id in s.ring.keys {
      assert after == s;
    } else {
      RolloverKeeps(s.ring, key, activeFrom, now);
      RolloverAll(s, key, activeFrom, now);
    }
  }

  lemma {:induction false} RolloverAll(s: Site, key: Key, activeFrom: int, now: int)
    requires Fit(s) && AllSigned(s) && key.id !in s.ring.keys
    ensures AllSigned(SiteNext(s, Rollover(key, activeFrom, now)))
            <==> forall zone, n, t :: Visible(s, zone, n, t) ==> SignerInWindow(s, n, t, now)
  {
    var after := SiteNext(s, Rollover(key, activeFrom, now));
    forall zone, n, t
      ensures SignedAt(after, zone, n, t) <==> (Visible(s, zone, n, t) ==> SignerInWindow(s, n, t, now))
    {
      assert SignedAt(s, zone, n, t);
      if Visible(s, zone, n, t) {
        RolloverCovered(s, key, activeFrom, now, zone, n, t);
      }
    }
  }

  lemma {:induction false} EventKeepsSigned(s: Site, e: SiteEvent, zone: string, n: string, t: RecordType)
    requires Fit(s) && SignedAt(s, zone, n, t) && !Spoils(s, e, zone, n, t)
    ensures SignedAt(SiteNext(s, e), zone, n, t)
  {
    match e
    case Write(_, _, _, _, _) => WriteKeepsSigned(s, e, zone, n, t);
    case Reload(_, _, _, _) => ReloadKeepsSigned(s, e, zone, n, t);
    case Rollover(key, activeFrom, now) =>
      if key.id !in s.ring.keys && Visible(s, zone, n, t) {
        RolloverCovered(s, key, activeFrom, now, zone, n, t);
      }
  }

  // Runs

  /** The states a run passes through; a step is defined on consistent rings, and `Fit` keeps them so. */
  ghost predicate SiteRun(states: seq<Site>, events: seq<SiteEvent>) {
    && |states| == |events| + 1
    && forall i {:trigger events[i]} :: 0 <= i < |events| ==>
         RingOk(states[i].ring) ==> states[i + 1] == SiteNext(states[i], events[i])
  }

  /** No event from `start` on, up to state `i`, costs the RRset its signature. */
  ghost predicate Unspoilt(states: seq<Site>, events: seq<SiteEvent>, start: nat, i: nat,
                           zone: string, n: string, t: RecordType)
    requires |states| == |events| + 1 && i < |states|
  {
    forall j {:trigger events[j]} :: start <= j < i ==> !Spoils(states[j], events[j], zone, n, t)
  }

  lemma {:induction false} RunKeepsFit(states: seq<Site>, events: seq<SiteEvent>, i: nat)
    requires SiteRun(states, events) && Fit(states[0]) && i < |states|
    ensures Fit(states[i]) && states[i].zones.Keys == states[0].zones.Keys
  {
    if i > 0 {
      var m := i - 1;
      RunKeepsFit(states, events, m);
      EventKeepsFit(states[m], events[m]);
      assert i == m + 1 && states[i] == states[m + 1];
    }
  }

  lemma {:induction false} RunStep(states: seq<Site>, events: seq<SiteEvent>, i: nat,
                                   zone: string, n: string, t: RecordType)
    requires SiteRun(states, events) && Fit(states[0]) && i < |events|
    requires SignedAt(states[i], zone, n, t) && !Spoils(states[i], events[i], zone, n, t)
    ensures SignedAt(states[i + 1], zone, n, t)
  {
    RunKeepsFit(states, events, i);
    EventKeepsSigned(states[i], events[i], zone, n, t);
  }

  /**
   Over every run of updates of any zone, reloads and rollovers: an RRset that was
   signed at some point stays signed as long as no event spoils that very RRset,
   whatever else is updated, misspelt or reloaded meanwhile and whichever other keys
   lapse.
   */
  lemma {:induction false} RunKeepsSigned(states: seq<Site>, events: seq<SiteEvent>, start: nat, i: nat,
                                          zone: string, n: string, t: RecordType)
    requires SiteRun(states, events) && Fit(states[0]) && start <= i < |states|
    requires SignedAt(states[start], zone, n, t) && Unspoilt(states, events, start, i, zone, n, t)
    ensures SignedAt(states[i], zone, n, t)
  {
    if i > start {
      var m := i - 1;
      RunKeepsSigned(states, events, start, m, zone, n, t);
      RunStep(states, events, m, zone, n, t);
      assert i == m + 1 && states[i] == states[m + 1];
    }
  }

  /** The signature was made by one of the first `i` events, with the key that signed then. */
  ghost predicate Timely(states: seq<Site>, events: seq<SiteEvent>, i: nat, k: string, sig: RRSIG)
    requires i <= |events| <= |states|
  {
    exists j {:trigger events[j]} :: 0 <= j < i && !events[j].Rollover?
      && MadeAt(sig, k, states[j].ring.active, events[j].now)
  }

  lemma {:induction false} EventSigns(s: Site, e: SiteEvent, k: string)
    requires RingOk(s.ring) && k in SiteNext(s, e).sigs
    ensures (k in s.sigs && SiteNext(s, e).sigs[k] == s.sigs[k])
            || (!e.Rollover? && MadeAt(SiteNext(s, e).sigs[k], k, s.ring.active, e.now))
  {
    match e
    case Write(zone, ch, appendFails, now, draws) =>
      WrittenIs(s, zone, ch, appendFails, now, draws);
      if Takes(s, zone, ch, appendFails) {
        SignedNow(s.sigs, s.ring, HookSigns(s.zones[zone], ch), now, draws, k);
      }
    case Reload(zone, names, now, draws) =>
      if zone in s.zones && forall n :: n in names <==> n in s.zones[zone].records {
        SignedNow(s.sigs, s.ring, ZoneRRSets(s.zones[zone].records, names), now, draws, k);
      }
    case Rollover(_, _, _) =>
  }

  /** Over every run from no signatures, each stored signature has the moment and the key of some update or reload. */
  lemma {:induction false} SignaturesAreTimely(states: seq<Site>, events: seq<SiteEvent>, i: nat, k: string)
    requires SiteRun(states, events) && Fit(states[0]) && states[0].sigs == map[] && i < |states|
    requires k in states[i].sigs
    ensures Timely(states, events, i, k, states[i].sigs[k])
  {
    if i > 0 {
      var m := i - 1;
      RunKeepsFit(states, events, m);
      EventSigns(states[m], events[m], k);
      assert i == m + 1 && states[i] == states[m + 1];
      if k in states[m].sigs && states[i].sigs[k] == states[m].sigs[k] {
        SignaturesAreTimely(states, events, m, k);
      }
    }
  }

  // A year of rollovers

  /** The clock does not run backwards, and new keys have an identifier and start at once. */
  ghost predicate Prompt(events: seq<SiteEvent>, start: nat, i: nat, from: int, until: int)
    requires i <= |events|
  {
    && (forall j {:trigger events[j]} :: start <= j < i ==> PromptEvent(events[j], from, until))
    && (forall j, k {:trigger events[j], events[k]} :: start <= j < k < i ==> events[j].now <= events[k].now)
  }

  /** The moment of the last event before `i`. */
  function Reading(events: seq<SiteEvent>, start: nat, i: nat, from: int): int
    requires i <= |events|
  {
    if i <= start then from else events[i - 1].now
  }

  lemma {:induction false} PromptFront(events: seq<SiteEvent>, start: nat, m: nat, from: int, until: int)
    requires start <= m < |events| && Prompt(events, start, m + 1, from, until)
    ensures Prompt(events, start, m, from, until) && PromptEvent(events[m], from, until)
    ensures from <= Reading(events, start, m, from) <= events[m].now
  {
  }

  predicate PromptEvent(e: SiteEvent, from: int, until: int) {
    from <= e.now <= until && (e.Rollover? ==> e.key.id != "" && e.activeFrom <= e.now)
  }

  lemma {:induction false} EventLasts(s: Site, e: SiteEvent, from: int, was: int, until: int)
    requires 0 < from <= was <= e.now <= until <= from + 31_536_000 && PromptEvent(e, from, until)
    requires Lasting(s.ring, from, was, until)
    ensures Lasting(SiteNext(s, e).ring, from, e.now, until)
    ensures forall zone, n, t :: e.Rollover? && SignedAt(s, zone, n, t) ==> !Spoils(s, e, zone, n, t)
  {
    if e.Rollover? {
      RolloverLasts(s.ring, e.key, e.activeFrom, from, was, e.now, until);
    } else {
      RingUntouched(s, e);
    }
  }

  lemma {:induction false} RingUntouched(s: Site, e: SiteEvent)
    requires RingOk(s.ring) && !e.Rollover?
    ensures SiteNext(s, e).ring == s.ring
  {
  }

  lemma {:induction false} RunLasts(states: seq<Site>, events: seq<SiteEvent>, start: nat, i: nat, from: int,
                                    until: int)
    requires SiteRun(states, events) && start <= i < |states|
    requires 0 < from <= until <= from + 31_536_000 && Prompt(events, start, i, from, until)
    requires Lasting(states[start].ring, from, from, until)
    ensures Lasting(states[i].ring, from, Reading(events, start, i, from), until)
  {
    if i > start {
      var m := i - 1;
      assert i == m + 1;
      PromptFront(events, start, m, from, until);
      RunLasts(states, events, start, m, from, until);
      RunLastsStep(states, events, m, from, Reading(events, start, m, from), until);
      assert states[i].ring == states[m + 1].ring && Reading(events, start, i, from) == events[m].now;
    } else {
      assert states[i].ring == states[start].ring && Reading(events, start, i, from) == from;
    }
  }

  lemma {:induction false} RunLastsStep(states: seq<Site>, events: seq<SiteEvent>, m: nat, from: int, was: int,
                                        until: int)
    requires SiteRun(states, events) && m < |events|
    requires 0 < from <= was <= events[m].now <= until <= from + 31_536_000 && PromptEvent(events[m], from, until)
    requires Lasting(states[m].ring, from, was, until)
    ensures Lasting(states[m + 1].ring, from, events[m].now, until)
  {
    EventLasts(states[m], events[m], from, was, until);
    assert states[m + 1] == SiteNext(states[m], events[m]);
  }

  /** No update misspells the RRset. */
  predicate Spelt(events: seq<SiteEvent>, start: nat, i: nat, zone: string, n: string, t: RecordType)
    requires i <= |events|
  {
    forall j {:trigger events[j]} :: start <= j < i && events[j].Write? && events[j].zone == zone ==>
      !Misspells(events[j].change, n, t)
  }

  /**
   A year of rollovers: from a moment at which every key that is tried lasts through the
   stretch (thirty days where one has no end), any number of rollovers, updates and
   reloads keeps an RRset signed that no update misspells. So two rollovers less than a
   year apart leave the answers of the first one's key verifiable.
   */
  lemma {:induction false} RolloversWithinAYear(states: seq<Site>, events: seq<SiteEvent>, start: nat, i: nat,
                                                from: int, until: int, zone: string, n: string, t: RecordType)
    requires SiteRun(states, events) && Fit(states[0]) && start <= i < |states|
    requires 0 < from <= until <= from + 31_536_000 && Prompt(events, start, i, from, until)
    requires Lasting(states[start].ring, from, from, until)
    requires SignedAt(states[start], zone, n, t) && Spelt(events, start, i, zone, n, t)
    ensures SignedAt(states[i], zone, n, t) && CanSign(states[i].ring)
  {
    RunLasts(states, events, start, i, from, until);
    if i > start {
      var m := i - 1;
      assert i == m + 1;
      PromptFront(events, start, m, from, until);
      RolloversWithinAYear(states, events, start, m, from, until, zone, n, t);
      StretchSpoilsNothing(states, events, start, m, from, until, zone, n, t);
      RunStep(states, events, m, zone, n, t);
    }
  }

  lemma {:induction false} StretchSpoilsNothing(states: seq<Site>, events: seq<SiteEvent>, start: nat, m: nat,
                                                from: int, until: int, zone: string, n: string, t: RecordType)
    requires SiteRun(states, events) && start <= m < |events|
    requires 0 < from <= until <= from + 31_536_000 && Prompt(events, start, m + 1, from, until)
    requires Lasting(states[start].ring, from, from, until)
    requires SignedAt(states[m], zone, n, t) && Spelt(events, start, m + 1, zone, n, t)
    ensures !Spoils(states[m], events[m], zone, n, t)
  {
    PromptFront(events, start, m, from, until);
    RunLasts(states, events, start, m, from, until);
    EventLasts(states[m], events[m], from, Reading(events, start, m, from), until);
  }

  /**
   Two rollovers, with any updates and reloads between them: what the first one's key
   signed holds on after the second one exactly when no more than a year lies between.
   */
  lemma {:induction false} SecondRollover(r: Ring, key: Key, now: int, s: Site, next: Key, activeFrom: int, later: int,
                                          zone: string, n: string, t: RecordType)
    requires RingOk(r) && key.id !in r.keys && 0 < now <= later
    requires s.ring == RolledOver(r, key, now, now).0 && RingOk(s.ring) && next.id !in s.ring.keys
    requires Visible(s, zone, n, t) && SignedAt(s, zone, n, t) && s.sigs[SignatureKey(n, t)].keyID == key.id
    ensures SignedAt(SiteNext(s, Rollover(next, activeFrom, later)), zone, n, t) <==> later <= now + 31_536_000
  {
    RolloverWindows(r, key, now, now);
    RolloverCovered(s, next, activeFrom, later, zone, n, t);
  }

  /** The answer for a name of the zone, as the resolver hands it to the signer. */
  ghost predicate AnswerPasses(s: Site, zone: string, n: string, t: RecordType)
    requires zone in s.zones
  {
    SignsResponse(s.sigs, s.ring, RRSet(n, t, RRSetOf(s.zones[zone].records, CanonicalName(n), t)))
  }

  /** No answer fails its signature check over such runs: whatever is visible under a canonical name passes. */
  lemma {:induction false} AnswersVerify(states: seq<Site>, events: seq<SiteEvent>, start: nat, i: nat,
                                         zone: string, n: string, t: RecordType)
    requires GenuineVerifies()
    requires SiteRun(states, events) && Fit(states[0]) && start <= i < |states|
    requires SignedAt(states[start], zone, n, t) && Unspoilt(states, events, start, i, zone, n, t)
    requires zone in states[i].zones && CanonicalName(n) == n
    ensures RRSetOf(states[i].zones[zone].records, n, t) != [] ==> AnswerPasses(states[i], zone, n, t)
  {
    RunKeepsSigned(states, events, start, i, zone, n, t);
    var s := states[i];
    if RRSetOf(s.zones[zone].records, n, t) != [] {
      CoveredVerifies(s.zones[zone].records, s.ring, s.sigs, n, t);
    }
  }

  /** After a rollover a signed answer passes its check exactly while the key behind it is inside its window. */
  lemma {:induction false} RolloverAnswers(s: Site, key: Key, activeFrom: int, now: int,
                                           zone: string, n: string, t: RecordType)
    requires GenuineVerifies() && RingOk(s.ring) && key.id !in s.ring.keys
    requires OwnKeyVerifies(RolledOver(s.ring, key, activeFrom, now).0)
    requires Visible(s, zone, n, t) && SignedAt(s, zone, n, t) && CanonicalName(n) == n
    ensures AnswerPasses(SiteNext(s, Rollover(key, activeFrom, now)), zone, n, t) <==> SignerInWindow(s, n, t, now)
  {
    var ring := RolledOver(s.ring, key, activeFrom, now).0;
    assert SiteNext(s, Rollover(key, activeFrom, now)) == Site(s.zones, ring, s.sigs);
    RolledAnswer(s.zones[zone].records, s.ring, key, activeFrom, now, s.sigs, n, t);
  }

  lemma {:induction false} RolledAnswer(c: Contents, ring: Ring, key: Key, activeFrom: int, now: int, sigs: Signatures,
                                        n: string, t: RecordType)
    requires GenuineVerifies() && RingOk(ring) && key.id !in ring.keys && Covered(c, ring, sigs, n, t)
    requires OwnKeyVerifies(RolledOver(ring, key, activeFrom, now).0)
    ensures SignsResponse(sigs, RolledOver(ring, key, activeFrom, now).0, RRSet(n, t, RRSetOf(c, n, t)))
            <==> InWindow(ring.keys[sigs[SignatureKey(n, t)].keyID], now)
  {
    var after := RolledOver(ring, key, activeFrom, now).0;
    RolledRingOk(ring, key, activeFrom, now);
    RolledKeys(ring, key, activeFrom, now, after);
    RolledGenuine(c, ring, after, sigs, now, n, t);
    PassesWhileTried(c, after, sigs, n, t);
  }

  lemma {:induction false} RolledRingOk(ring: Ring, key: Key, activeFrom: int, now: int)
    requires RingOk(ring) && key.id !in ring.keys
    ensures RingOk(RolledOver(ring, key, activeFrom, now).0)
  {
    RolloverKeeps(ring, key, activeFrom, now);
  }

  lemma {:induction false} RolledGenuine(c: Contents, ring: Ring, after: Ring, sigs: Signatures, now: int, n: string,
                                         t: RecordType)
    requires Covered(c, ring, sigs, n, t) && KeysKept(ring, after, now)
    ensures var sig := sigs[SignatureKey(n, t)];
            && sig.keyID in after.keys && Genuine(after.keys[sig.keyID], RRSet(n, t, RRSetOf(c, n, t)), sig)
            && (sig.keyID in after.verifying <==> InWindow(ring.keys[sig.keyID], now))
  {
    var sig, rrset := sigs[SignatureKey(n, t)], RRSet(n, t, RRSetOf(c, n, t));
    assert Genuine(ring.keys[sig.keyID], rrset, sig) ==> Genuine(after.keys[sig.keyID], rrset, sig);
  }

  // Names that are not reported canonically

  /**
   An upsert reports the name as it was spelled, and the hook signs under that
   spelling. If the spelling is not the stored name, the answer for the RRset verifies
   afterwards exactly when: for an RRset that was there, the change left its signed
   bytes as they were; for a new one, a signature left behind by an earlier RRset of
   that name and type verifies over the new record.
   */
  lemma {:induction false} MisspeltUpsert(s: Site, e: SiteEvent, zone: string, n: string, t: RecordType)
    requires GenuineVerifies() && OnlyGenuineVerifies(s.ring)
    requires Fit(s) && SigningKeyOf(s.ring).Some? && SignedAt(s, zone, n, t) && zone in s.zones
    requires e.Write? && e.zone == zone && Misspells(e.change, n, t) && ValidChange(zone, e.change) && !e.appendFails
    ensures var after := SiteNext(s, e);
            var was := RRSetOf(s.zones[zone].records, n, t);
            && zone in after.zones
            && var found := RRSetOf(after.zones[zone].records, n, t);
            && found == Without(was, e.change.record.rdata) + [Stored(e.change.record)]
            && (AnswerPasses(after, zone, n, t)
                <==> if was != [] then EncodedRRSet(found) == EncodedRRSet(was)
                     else SignsResponse(s.sigs, s.ring, RRSet(n, t, [Stored(e.change.record)])))
  {
    var ch, was := e.change, s.zones[zone].records;
    var c, raw := Apply(was, ch), ch.record.name;
    WrittenIs(s, zone, ch, false, e.now, e.draws);
    InZoneIsFixedPoint(raw, CanonicalName(zone));
    FlatStore.ApplyRRSet(was, ch, n, t);
    UpsertedTypes(ch);
    MisspeltSigns(c, s.ring, s.sigs, raw, e.now, e.draws, n, t);
    var found := RRSetOf(c, n, t);
    assert SignsResponse(SiteNext(s, e).sigs, s.ring, RRSet(n, t, found))
           <==> SignsResponse(s.sigs, s.ring, RRSet(n, t, found));
    if RRSetOf(was, n, t) != [] {
      OldSignatureOnly(was, s.ring, s.sigs, n, t, found);
    } else {
      assert [] + [Stored(ch.record)] == [Stored(ch.record)];
    }
  }

  lemma {:induction false} UpsertedTypes(ch: Change)
    requires Accepted(ch)
    ensures KnownType(ch.record.rtype)
    ensures !ReportsStoredName(ch) ==> ch.kind == UPSERT
  {
  }

  /**
   So an upsert of new rdata under another spelling takes the RRset off the air: it
   adds to a stored RRset, or makes one for which no signature is left behind.
   */
  lemma {:induction false} MisspeltAddition(s: Site, e: SiteEvent, zone: string, n: string, t: RecordType)
    requires GenuineVerifies() && OnlyGenuineVerifies(s.ring)
    requires Fit(s) && SigningKeyOf(s.ring).Some? && SignedAt(s, zone, n, t) && zone in s.zones
    requires e.Write? && e.zone == zone && Misspells(e.change, n, t) && ValidChange(zone, e.change) && !e.appendFails
    requires var was := RRSetOf(s.zones[zone].records, n, t);
             && (forall i :: 0 <= i < |was| ==> was[i].rdata != e.change.record.rdata)
             && (was == [] ==> SignatureKey(n, t) !in s.sigs)
    ensures zone in SiteNext(s, e).zones && !AnswerPasses(SiteNext(s, e), zone, n, t)
  {
    var was := RRSetOf(s.zones[zone].records, n, t);
    MisspeltUpsert(s, e, zone, n, t);
    WithoutAbsent(was, e.change.record.rdata);
    if was != [] {
      MoreRecordsMoreBytes(was, Stored(e.change.record));
    }
  }

  /** The record of the serial test, in a zone that has none yet: stored, visible, and refused by the check. */
  lemma {:induction false} MisspeltExample(s: Site, e: SiteEvent)
    requires GenuineVerifies() && OnlyGenuineVerifies(s.ring)
    requires Fit(s) && SigningKeyOf(s.ring).Some? && s.sigs == map[]
    requires "example.com" in s.zones && s.zones["example.com"].records == map[]
    requires e.Write? && e.zone == "example.com" && !e.appendFails && ParseIP("192.0.2.10") == V4
    requires e.change == Change(UPSERT, Record("WWW.Example.COM", TYPE_A, 300, "192.0.2.10"))
    ensures var after := SiteNext(s, e);
            && "example.com" in after.zones
            && RRSetOf(after.zones["example.com"].records, "www.example.com", TYPE_A)
               == [Record("www.example.com", TYPE_A, 300, "192.0.2.10")]
            && !AnswerPasses(after, "example.com", "www.example.com", TYPE_A)
  {
    ExampleSpoils(e, "example.com", "www.example.com");
    MisspeltNewName(s, e, "example.com", "www.example.com", TYPE_A);
  }

  lemma {:induction false} MisspeltNewName(s: Site, e: SiteEvent, zone: string, n: string, t: RecordType)
    requires GenuineVerifies() && OnlyGenuineVerifies(s.ring)
    requires Fit(s) && SigningKeyOf(s.ring).Some? && s.sigs == map[]
    requires zone in s.zones && s.zones[zone].records == map[]
    requires e.Write? && e.zone == zone && Misspells(e.change, n, t) && ValidChange(zone, e.change) && !e.appendFails
    ensures var after := SiteNext(s, e);
            && zone in after.zones
            && RRSetOf(after.zones[zone].records, n, t) == [Stored(e.change.record)]
            && !AnswerPasses(after, zone, n, t)
  {
    assert RRSetOf(s.zones[zone].records, n, t) == [];
    MisspeltUpsert(s, e, zone, n, t);
    MisspeltAddition(s, e, zone, n, t);
    assert [] + [Stored(e.change.record)] == [Stored(e.change.record)];
  }

  lemma {:induction false} ExampleSpoils(e: SiteEvent, zone: string, n: string)
    requires zone == "example.com" && n == "www.example.com" && ParseIP("192.0.2.10") == V4
    requires e.Write? && e.zone == zone
             && e.change == Change(UPSERT, Record("WWW.Example.COM", TYPE_A, 300, "192.0.2.10"))
    ensures Misspells(e.change, n, TYPE_A) && ValidChange(zone, e.change)
    ensures Stored(e.change.record) == Record(n, TYPE_A, 300, "192.0.2.10")
  {
    ExampleLower("WWW.Example.COM", n);
    ExampleZone(zone, n);
  }

  lemma {:induction false} ExampleZone(zone: string, n: string)
    requires zone == "example.com" && n == "www.example.com"
    ensures CanonicalName(zone) == zone && InZone(n, zone)
  {
    assert Lowered(zone) && !IsSpace(zone[0]) && zone[10] == 'm';
    FixedPointShape(zone);
    assert n[3..] == "." + zone;
  }

  lemma {:induction false} ExampleLower(raw: string, n: string)
    requires raw == "WWW.Example.COM" && n == "www.example.com"
    ensures CanonicalName(raw) == n && TrimSpace(raw) == raw && raw != n
  {
    assert raw[0] != n[0];
    assert raw[|raw| - 1] == 'M' && n[|n| - 1] == 'm';
    assert TrimSpace(raw) == raw;
    assert ToLower(raw) == n;
  }

  // Names stored in two zones

  /**
   Where zones do lie inside one another: when the hook of one zone signs a name that
   another zone stores as well, the other zone's answer passes exactly when both hold
   the same signed bytes.
   */
  lemma {:induction false} SharedName(c: Contents, other: Contents, ring: Ring, sigs: Signatures,
                                      n: string, t: RecordType, now: int, draws: Draws)
    requires GenuineVerifies() && OnlyGenuineVerifies(ring)
    requires Reappliable(c) && CanSign(ring) && RRSetOf(c, n, t) != []
    ensures var after := Resigned(sigs, ring, RRSetsOfNames(c, [n]), now, draws).0;
            SignsResponse(after, ring, RRSet(n, t, RRSetOf(other, n, t)))
            <==> EncodedRRSet(RRSetOf(other, n, t)) == EncodedRRSet(RRSetOf(c, n, t))
  {
    HookCovers(c, c, ring, sigs, n, now, draws, n, t);
    OldSignatureOnly(c, ring, Resigned(sigs, ring, RRSetsOfNames(c, [n]), now, draws).0, n, t, RRSetOf(other, n, t));
  }
}
