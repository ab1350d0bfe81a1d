/**
 The signer in its two places: behind the resolver, and at start-up, where the journal is
 replayed after the seeds were signed.
 */
module SignedAnswers {
  import opened Model
  import opened Names
  import opened Sorting
  import opened Records
  import opened Zones
  import opened Keyrings
  import opened Wire
  import opened Signers
  import opened Resigning
  import opened SignedRuns
  import opened Caches
  import opened Resolvers
  import opened Updates
  import opened Journals

  // Behind the resolver

  /** What the resolver reads of a site's zones. */
  function WorldOf(s: Site): World {
    map zone | zone in s.zones :: ZoneView(s.zones[zone].records, s.zones[zone].meta.soa)
  }

  function VerdictOf(s: Site): RRSet -> bool {
    (rrset: RRSet) => SignsResponse(s.sigs, s.ring, rrset)
  }

  /** Names of canonically spelled zones are canonical once and for all. */
  lemma {:induction false} QueryIsFixedPoint(query: Query, zones: set<string>, zone: string)
    requires IsRoute(zones, Canonical(query).name, zone) && CanonicalName(zone) == zone
    ensures CanonicalName(Canonical(query).name) == Canonical(query).name
  {
    RouteMatchIsLabelSuffix(Canonical(query).name, zone);
    InZoneRoutes(Canonical(query).name, zone);
    InZoneIsFixedPoint(query.name, zone);
  }

  /**
   No query that is routed to a zone goes unanswered over such runs: the signature
   check refuses nothing, whatever the cache holds, as long as no event spoiled the
   very RRset asked for since it was last known to be signed. The canonical query has
   to be canonical once and for all, as it is in every canonically spelled zone.
   */
  lemma {:induction false} RoutedQueriesAreAnswered(states: seq<Site>, events: seq<SiteEvent>, start: nat, i: nat,
                                                    zone: string, query: Query, at: Moments, max: int,
                                                    before: Entries, after: Entries, answer: Option<Answer>)
    requires GenuineVerifies() && SiteRun(states, events) && Fit(states[0]) && start <= i < |states|
    requires var q := Canonical(query);
             && IsRoute(WorldOf(states[i]).Keys, q.name, zone)
             && (CanonicalName(zone) == zone || CanonicalName(q.name) == q.name)
             && SignedAt(states[start], zone, q.name, q.rtype)
             && Unspoilt(states, events, start, i, zone, q.name, q.rtype)
    requires at.world == WorldOf(states[i]) && Resolved(at, query, VerdictOf(states[i]), max, before, after, answer)
    ensures answer.Some?
  {
    var s, q := states[i], Canonical(query);
    if CanonicalName(zone) == zone {
      QueryIsFixedPoint(query, WorldOf(s).Keys, zone);
    }
    AnswersVerify(states, events, start, i, zone, q.name, q.rtype);
    OnlyTheVerdictRefuses(at, query, VerdictOf(s), max, before, after, answer, zone);
  }

  // While an update is under way

  /**
   An update is staged, journalled, committed and re-signed in separate locked sections.
   A query in between meets the new list under the old signature: it passes exactly when
   the signed bytes are as before or, for a new RRset, when a signature left behind
   verifies over the list.
   */
  lemma {:induction false} StagedAnswers(s: Site, zone: string, ch: Change, n: string, t: RecordType)
    requires GenuineVerifies() && OnlyGenuineVerifies(s.ring)
    requires zone in s.zones && SignedAt(s, zone, n, t) && CanonicalName(n) == n
    ensures var during := s.(zones := s.zones[zone := Staged(s.zones[zone], ch)]);
            var was, found := RRSetOf(s.zones[zone].records, n, t), RRSetOf(Apply(s.zones[zone].records, ch), n, t);
            AnswerPasses(during, zone, n, t)
            <==> if was != [] then EncodedRRSet(found) == EncodedRRSet(was)
                 else SignsResponse(s.sigs, s.ring, RRSet(n, t, found))
  {
    var c, found := s.zones[zone].records, RRSetOf(Apply(s.zones[zone].records, ch), n, t);
    if RRSetOf(c, n, t) != [] {
      OldSignatureOnly(c, s.ring, s.sigs, n, t, found);
    }
  }

  // At start-up

  /** Signatures are stored only for what is visible. */
  ghost predicate NoStray(s: Site) {
    forall n, t :: KnownType(t) && SignatureKey(n, t) in s.sigs ==>
      exists zone :: Visible(s, zone, n, t)
  }

  lemma {:induction false} NewKeyIsVisible(c: Contents, ring: Ring, sigs: Signatures, rrsets: seq<RRSet>, now: int,
                                           draws: Draws, n: string, t: RecordType)
    requires CanSign(ring) && Current(c, rrsets) && ManagedTypes(rrsets) && NoneEmpty(rrsets) && KnownType(t)
    requires SignatureKey(n, t) in Resigned(sigs, ring, rrsets, now, draws).0 && SignatureKey(n, t) !in sigs
    ensures Listed(rrsets, n, t) && RRSetOf(c, CanonicalName(n), t) != []
  {
    SignedKeys(sigs, ring.keys[ring.active], rrsets, now, draws, SignatureKey(n, t));
    var i :| 0 <= i < |rrsets| && SignatureKey(n, t) == SignatureKey(rrsets[i].name, rrsets[i].rtype);
    SignatureKeyInjective(n, t, rrsets[i].name, rrsets[i].rtype);
    TypeStringInjective(t, rrsets[i].rtype);
  }

  lemma {:induction false} ListedNames(c: Contents, names: seq<string>, n: string, t: RecordType)
    requires Listed(ZoneRRSets(c, names), n, t)
    ensures n in names
  {
    var found, sorted := RRSetsOfNames(c, names), ZoneRRSets(c, names);
    NamesList(c, names);
    SameElements(found, sorted);
    var i :| 0 <= i < |sorted| && sorted[i].name == n && sorted[i].rtype == t;
    assert sorted[i] in found;
  }

  /** Signing a seeded zone leaves no stray signature. */
  lemma {:induction false} SeedingSignsVisible(s: Site, zone: string, names: seq<string>, now: int, draws: Draws)
    requires Fit(s) && CanSign(s.ring) && NoStray(s)
    requires zone in s.zones && forall n :: n in names <==> n in s.zones[zone].records
    requires forall n :: n in names ==> CanonicalName(n) == n
    ensures NoStray(SiteNext(s, Reload(zone, names, now, draws)))
  {
    var c, after := s.zones[zone].records, SiteNext(s, Reload(zone, names, now, draws));
    ReloadIs(s, zone, names, now, draws);
    ZoneRRSetsListed(c, names);
    forall n, t | KnownType(t) && SignatureKey(n, t) in after.sigs ensures exists other :: Visible(after, other, n, t) {
      if SignatureKey(n, t) in s.sigs {
        var other :| Visible(s, other, n, t);
        assert Visible(after, other, n, t);
      } else {
        NewKeyIsVisible(c, s.ring, s.sigs, ZoneRRSets(c, names), now, draws, n, t);
        ListedNames(c, names, n, t);
        assert Visible(after, zone, n, t);
      }
    }
  }

  /**
   The journal is replayed before hooks are set, on zones whose seeds are signed
   already. Afterwards the answer for an RRset verifies exactly when it was seeded and
   the replay left its signed bytes as they were; a reload of the zone signs it again.
   */
  lemma {:induction false} RecoveredAnswers(seeded: Site, journal: seq<Entry>, zone: string, n: string, t: RecordType)
    requires GenuineVerifies() && OnlyGenuineVerifies(seeded.ring)
    requires Fit(seeded) && AllSigned(seeded) && NoStray(seeded)
    requires zone in seeded.zones && InZone(n, CanonicalName(zone)) && CanonicalName(n) == n && KnownType(t)
    requires zone in Recovered(seeded.zones, journal).0
    ensures var recovered := seeded.(zones := Recovered(seeded.zones, journal).0);
            var was, found := RRSetOf(seeded.zones[zone].records, n, t), RRSetOf(recovered.zones[zone].records, n, t);
            AnswerPasses(recovered, zone, n, t) <==> was != [] && EncodedRRSet(found) == EncodedRRSet(was)
  {
    var found := RRSetOf(Recovered(seeded.zones, journal).0[zone].records, n, t);
    SeededAnswer(seeded, zone, n, t, found);
  }

  lemma {:induction false} SeededAnswer(s: Site, zone: string, n: string, t: RecordType, found: seq<Record>)
    requires GenuineVerifies() && OnlyGenuineVerifies(s.ring)
    requires Fit(s) && AllSigned(s) && NoStray(s)
    requires zone in s.zones && InZone(n, CanonicalName(zone)) && KnownType(t)
    ensures SignsResponse(s.sigs, s.ring, RRSet(n, t, found))
            <==> Visible(s, zone, n, t) && EncodedRRSet(found) == EncodedRRSet(RRSetOf(s.zones[zone].records, n, t))
  {
    if Visible(s, zone, n, t) {
      assert SignedAt(s, zone, n, t);
      OldSignatureOnly(s.zones[zone].records, s.ring, s.sigs, n, t, found);
    } else if SignatureKey(n, t) in s.sigs {
      var other :| Visible(s, other, n, t);
      InvisibleElsewhere(s, zone, other, s.zones[other].records, n, t);
    }
  }
}
