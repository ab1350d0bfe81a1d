/** The start of the program: one key, and zones seeded and signed one after the other. */
module Seeding {
  import opened Model
  import opened Names
  import opened Records
  import FlatStore
  import opened Validation
  import opened Zones
  import opened Keyrings
  import opened Wire
  import opened Signers
  import opened Resigning
  import opened SignedRuns
  import opened SignedAnswers

  /** What a zone is seeded with. */
  function Seeds(zone: string): seq<Record> {
    [Record(zone, TYPE_NS, 3600, "ns1." + zone), Record("ns1." + zone, TYPE_A, 3600, "127.0.0.1"),
     Record("www." + zone, TYPE_A, 300, "192.0.2.10"), Record("www." + zone, TYPE_AAAA, 300, "2001:db8::10"),
     Record("mail." + zone, TYPE_MX, 300, "10 mail." + zone), Record("txt." + zone, TYPE_TXT, 300, "v=spf1 -all")]
  }

  function SeededContents(zone: string): Contents {
    FlatStore.ApplyAll(map[], Upserts(Seeds(zone)))
  }

  /** The addresses among the seeds are addresses of their families. */
  predicate SeedAddresses() {
    ParseIP("127.0.0.1") == V4 && ParseIP("192.0.2.10") == V4 && ParseIP("2001:db8::10") == V6
  }

  /** A zone name in canonical spelling without white space. */
  ghost predicate PlainZone(zone: string) {
    CanonicalName(zone) == zone && IsWord(zone)
  }

  // The content

  /** A name below a zone in canonical spelling is in canonical spelling, and in the zone. */
  lemma {:induction false} BelowZone(host: string, zone: string)
    requires PlainZone(zone) && IsWord(host) && Lowered(host)
    ensures CanonicalName(host + "." + zone) == host + "." + zone && InZone(host + "." + zone, zone)
    ensures IsWord(host + "." + zone)
  {
    FixedPointShape(zone);
    FixedPointShape(host + "." + zone);
    assert (host + "." + zone)[|host|..] == "." + zone;
  }

  /** A record of the zone in canonical spelling that a dynamic update may carry. */
  predicate SeedOk(r: Record, zone: string) {
    Stored(r) == r && ValidChange(zone, Change(UPSERT, r))
  }

  ghost predicate Label(dotted: string) {
    dotted != "" && dotted[|dotted| - 1] == '.' && IsWord(dotted[..|dotted| - 1]) && Lowered(dotted[..|dotted| - 1])
  }

  lemma {:induction false} LabelsOk()
    ensures Label("ns1.") && Label("www.") && Label("mail.") && Label("txt.")
  {
  }

  lemma {:induction false} SeedBelow(dotted: string, r: Record, zone: string)
    requires PlainZone(zone) && Label(dotted) && r.name == dotted + zone
    requires r.rtype == TYPE_A || r.rtype == TYPE_AAAA || r.rtype == TYPE_MX || r.rtype == TYPE_TXT
    requires ValidRData(r.rtype, r.rdata)
    ensures SeedOk(r, zone)
  {
    var host := dotted[..|dotted| - 1];
    assert host + "." == dotted;
    BelowZone(host, zone);
    NotBlank(r.name);
    assert !IsSpace(r.name[0]);
  }

  lemma {:induction false} SeedsOk(zone: string)
    requires PlainZone(zone) && SeedAddresses()
    ensures |Seeds(zone)| == 6 && forall i :: 0 <= i < 6 ==> SeedOk(Seeds(zone)[i], zone)
  {
    NameServerSeed(zone);
    HostSeed(zone);
    AddressSeed(zone);
    LongAddressSeed(zone);
    OtherSeeds(zone);
    SixOk(Seeds(zone), r => SeedOk(r, zone));
  }

  lemma {:induction false} SixOk<T>(s: seq<T>, ok: T -> bool)
    requires |s| == 6 && ok(s[0]) && ok(s[1]) && ok(s[2]) && ok(s[3]) && ok(s[4]) && ok(s[5])
    ensures forall i :: 0 <= i < 6 ==> ok(s[i])
  {
    assert s == [s[0], s[1], s[2], s[3], s[4], s[5]];
  }

  /** Rdata of a seed below the zone. */
  predicate SeedData(t: RecordType, rdata: string) {
    || (t == TYPE_A && ParseIP(rdata) == V4)
    || (t == TYPE_AAAA && ParseIP(rdata) == V6)
    || (t == TYPE_MX && ValidMX(rdata))
    || (t == TYPE_TXT && 1 <= |rdata| <= 255)
  }

  lemma {:induction false} SeedRecord(dotted: string, t: RecordType, ttl: uint32, rdata: string, zone: string)
    requires PlainZone(zone) && Label(dotted) && SeedData(t, rdata)
    ensures SeedOk(Record(dotted + zone, t, ttl, rdata), zone)
  {
    SeedBelow(dotted, Record(dotted + zone, t, ttl, rdata), zone);
  }

  lemma {:induction false} OtherSeeds(zone: string)
    requires PlainZone(zone)
    ensures SeedOk(Seeds(zone)[4], zone) && SeedOk(Seeds(zone)[5], zone)
  {
    LabelsOk();
    MailSeed(zone);
    SeedRecord("mail.", TYPE_MX, 300, "10 mail." + zone, zone);
    SeedRecord("txt.", TYPE_TXT, 300, "v=spf1 -all", zone);
  }

  lemma {:induction false} HostSeed(zone: string)
    requires PlainZone(zone) && SeedAddresses()
    ensures SeedOk(Seeds(zone)[1], zone)
  {
    LabelsOk();
    SeedRecord("ns1.", TYPE_A, 3600, "127.0.0.1", zone);
  }

  lemma {:induction false} AddressSeed(zone: string)
    requires PlainZone(zone) && SeedAddresses()
    ensures SeedOk(Seeds(zone)[2], zone)
  {
    LabelsOk();
    SeedRecord("www.", TYPE_A, 300, "192.0.2.10", zone);
  }

  lemma {:induction false} LongAddressSeed(zone: string)
    requires PlainZone(zone) && SeedAddresses()
    ensures SeedOk(Seeds(zone)[3], zone)
  {
    LabelsOk();
    SeedRecord("www.", TYPE_AAAA, 300, "2001:db8::10", zone);
  }

  lemma {:induction false} NameServerSeed(zone: string)
    requires PlainZone(zone)
    ensures SeedOk(Seeds(zone)[0], zone)
  {
    NotBlank(zone);
    assert !IsSpace(zone[0]);
    var rdata := "ns1." + zone;
    NotBlank(rdata);
    assert !IsSpace(rdata[0]);
  }

  lemma {:induction false} MailSeed(zone: string)
    requires PlainZone(zone)
    ensures ValidMX("10 mail." + zone)
  {
    assert Decimal(10) == "10" by { assert Decimal(1) == "1"; }
    PriorityRange("", 10, "mail." + zone);
    assert "" + Decimal(10) + " " + ("mail." + zone) == "10 mail." + zone;
  }

  ghost predicate DistinctKinds(records: seq<Record>) {
    forall i, j :: 0 <= i < j < |records| ==> records[i].name != records[j].name || records[i].rtype != records[j].rtype
  }

  /** The records of this name and type, of which there is at most one. */
  function OfKind(records: seq<Record>, n: string, t: RecordType): seq<Record> {
    if records == [] then []
    else
      var last := records[|records| - 1];
      OfKind(records[..|records| - 1], n, t) + if last.name == n && last.rtype == t then [last] else []
  }

  lemma {:induction false} NoneOfKind(records: seq<Record>, n: string, t: RecordType)
    requires forall i :: 0 <= i < |records| ==> records[i].name != n || records[i].rtype != t
    ensures OfKind(records, n, t) == []
  {
    if records != [] {
      NoneOfKind(records[..|records| - 1], n, t);
    }
  }

  lemma {:induction false} UpsertsSnoc(records: seq<Record>)
    requires records != []
    ensures var front := records[..|records| - 1];
            FlatStore.ApplyAll(map[], Upserts(records))
            == Apply(FlatStore.ApplyAll(map[], Upserts(front)), Change(UPSERT, records[|records| - 1]))
  {
    var front := records[..|records| - 1];
    assert Upserts(records)[..|front|] == Upserts(front);
  }

  /** Upserts of different kinds on an empty store leave each record alone in its RRset, and the zone fit. */
  lemma {:induction false} UpsertsFill(records: seq<Record>, zone: string)
    requires ProperZone(zone) && DistinctKinds(records)
    requires forall i :: 0 <= i < |records| ==> SeedOk(records[i], zone)
    ensures var c := FlatStore.ApplyAll(map[], Upserts(records));
            && ContentFit(c, zone)
            && forall n, t :: RRSetOf(c, n, t) == OfKind(records, n, t)
  {
    if records != [] {
      var front, last := records[..|records| - 1], records[|records| - 1];
      var before := FlatStore.ApplyAll(map[], Upserts(front));
      UpsertsFill(front, zone);
      UpsertsSnoc(records);
      NoneOfKind(front, last.name, last.rtype);
      assert RRSetOf(before, last.name, last.rtype) == [];
      UpsertFills(before, last, zone);
    }
  }

  ghost predicate ContentFit(c: Contents, zone: string) {
    Reappliable(c) && Within(c, zone) && forall n :: n in c ==> CanonicalName(n) == n
  }

  lemma {:induction false} UpsertFills(before: Contents, r: Record, zone: string)
    requires ProperZone(zone) && ContentFit(before, zone) && SeedOk(r, zone) && RRSetOf(before, r.name, r.rtype) == []
    ensures var c := Apply(before, Change(UPSERT, r));
            && ContentFit(c, zone)
            && forall n, t :: RRSetOf(c, n, t) == if (n, t) == (r.name, r.rtype) then [r] else RRSetOf(before, n, t)
  {
    var ch := Change(UPSERT, r);
    UpdateKeepsReappliable(zone, before, ch);
    forall n, t
      ensures RRSetOf(Apply(before, ch), n, t) == if (n, t) == (r.name, r.rtype) then [r] else RRSetOf(before, n, t)
    {
      FlatStore.ApplyRRSet(before, ch, n, t);
      assert [] + [r] == [r];
    }
  }

  lemma {:induction false} SeedsDistinct(zone: string)
    ensures DistinctKinds(Seeds(zone))
  {
    var seeds := Seeds(zone);
    assert |seeds[0].name| == |zone| && |seeds[1].name| == |seeds[2].name| == |seeds[3].name| == |zone| + 4;
    assert |seeds[4].name| == |zone| + 5 && |seeds[5].name| == |zone| + 4;
    assert seeds[1].name[0] == 'n' && seeds[2].name[0] == 'w' && seeds[5].name[0] == 't';
  }

  /** Seeding is accepted throughout, and leaves exactly the six seeds, each in an RRset of its own. */
  lemma {:induction false} SeededZone(zone: string)
    requires PlainZone(zone) && SeedAddresses()
    ensures FlatStore.AllAccepted(Upserts(Seeds(zone)))
    ensures ProperZone(zone) && ContentFit(SeededContents(zone), zone)
    ensures forall n, t :: RRSetOf(SeededContents(zone), n, t) == OfKind(Seeds(zone), n, t)
  {
    SeedsOk(zone);
    SeedsDistinct(zone);
    UpsertsFill(Seeds(zone), zone);
  }

  // The server

  /** Seeding one more zone: its records first, then a signature for each of its RRsets. */
  function SeedSite(s: Site, z: ZoneState, names: seq<string>, now: int, draws: Draws): Site {
    Site(s.zones[z.name := z], s.ring, Resigned(s.sigs, s.ring, RRSetsOfNames(z.records, names), now, draws).0)
  }

  /** A freshly seeded zone. */
  ghost predicate Fresh(z: ZoneState) {
    && PlainZone(z.name) && z.records == SeededContents(z.name)
    && z.serial == z.meta.soa.serial && z.version == 0 && z.history == []
  }

  /** The zones are fit, every visible RRset is signed and nothing else is. */
  ghost predicate Clean(s: Site) {
    Fit(s) && CanSign(s.ring) && AllSigned(s) && NoStray(s)
  }

  ghost predicate Apart(s: Site, zone: string) {
    forall z :: z in s.zones ==>
      && z != zone
      && !InZone(CanonicalName(z), CanonicalName(zone)) && !InZone(CanonicalName(zone), CanonicalName(z))
  }

  lemma {:induction false} SeededFit(s: Site, z: ZoneState, sigs: Signatures)
    requires Fit(s) && Apart(s, z.name) && ProperZone(z.name) && ContentFit(z.records, z.name)
    ensures Fit(Site(s.zones[z.name := z], s.ring, sigs))
  {
    var zones := s.zones[z.name := z];
    forall zone | zone in zones ensures ZoneFit(zones[zone], zone) {
      if zone != z.name {
        assert ZoneFit(s.zones[zone], zone);
      }
    }
  }

  /** The seeded RRsets get their signatures, and no other one loses its own. */
  lemma {:induction false} SeededSigned(s: Site, z: ZoneState, names: seq<string>, now: int, draws: Draws,
                                        zone: string, n: string, t: RecordType)
    requires Fit(s) && CanSign(s.ring) && SignedAt(s, zone, n, t) && Apart(s, z.name)
    requires ProperZone(z.name) && ContentFit(z.records, z.name) && forall n :: n in names <==> n in z.records
    ensures SignedAt(SeedSite(s, z, names, now, draws), zone, n, t)
  {
    var rrsets := RRSetsOfNames(z.records, names);
    NamesList(z.records, names);
    if zone == z.name {
      if RRSetOf(z.records, n, t) != [] {
        VisibleIsManaged(z.records, n, t);
        BatchCovers(z.records, s.ring, s.sigs, rrsets, now, draws, n, t);
      }
    } else if Visible(s, zone, n, t) {
      assert ZoneFit(s.zones[zone], zone);
      VisibleIsManaged(s.zones[zone].records, n, t);
      NamesNoneEmpty(z.records, names);
      if RRSetOf(z.records, n, t) != [] {
        NoCommonName(n, CanonicalName(zone), CanonicalName(z.name));
      }
      ElsewhereCovered(s.zones[zone].records, s.ring, s.sigs, z.records, rrsets, now, draws, n, t);
    }
  }

  /** A signature in the store afterwards was there before, or is of a visible seed. */
  lemma {:induction false} SeededVisible(s: Site, z: ZoneState, names: seq<string>, now: int, draws: Draws,
                                         n: string, t: RecordType)
    requires Fit(s) && CanSign(s.ring) && NoStray(s) && KnownType(t) && z.name !in s.zones
    requires ContentFit(z.records, z.name) && forall n :: n in names <==> n in z.records
    requires SignatureKey(n, t) in SeedSite(s, z, names, now, draws).sigs
    ensures exists zone :: Visible(SeedSite(s, z, names, now, draws), zone, n, t)
  {
    var after := SeedSite(s, z, names, now, draws);
    if SignatureKey(n, t) !in s.sigs {
      NewSeedVisible(z.records, s.ring, s.sigs, names, now, draws, n, t);
    }
    StillVisible(s, z, after, n, t);
  }

  lemma {:induction false} StillVisible(s: Site, z: ZoneState, after: Site, n: string, t: RecordType)
    requires z.name !in s.zones && after.zones == s.zones[z.name := z]
    requires RRSetOf(z.records, n, t) != [] || exists zone :: Visible(s, zone, n, t)
    ensures exists zone :: Visible(after, zone, n, t)
  {
    if RRSetOf(z.records, n, t) != [] {
      assert Visible(after, z.name, n, t);
    } else {
      var zone :| Visible(s, zone, n, t);
      assert Visible(after, zone, n, t);
    }
  }

  lemma {:induction false} NewSeedVisible(c: Contents, ring: Ring, sigs: Signatures, names: seq<string>, now: int,
                                          draws: Draws, n: string, t: RecordType)
    requires CanSign(ring) && KnownType(t) && SignatureKey(n, t) !in sigs
    requires forall n :: n in names ==> CanonicalName(n) == n
    requires SignatureKey(n, t) in Resigned(sigs, ring, RRSetsOfNames(c, names), now, draws).0
    ensures RRSetOf(c, n, t) != []
  {
    NamesList(c, names);
    NamesNoneEmpty(c, names);
    NewKeyIsVisible(c, ring, sigs, RRSetsOfNames(c, names), now, draws, n, t);
  }

  /** A zone that is seeded and signed beside others it does not overlap leaves the server clean. */
  lemma {:induction false} SeedingKeepsClean(s: Site, z: ZoneState, names: seq<string>, now: int, draws: Draws)
    requires SeedAddresses() && Clean(s) && Fresh(z) && Apart(s, z.name)
    requires forall n :: n in names <==> n in z.records
    ensures Clean(SeedSite(s, z, names, now, draws))
  {
    var after := SeedSite(s, z, names, now, draws);
    SeededZone(z.name);
    SeededFit(s, z, after.sigs);
    forall zone, n, t ensures SignedAt(after, zone, n, t) {
      SeededSigned(s, z, names, now, draws, zone, n, t);
    }
    forall n, t | KnownType(t) && SignatureKey(n, t) in after.sigs ensures exists zone :: Visible(after, zone, n, t) {
      SeededVisible(s, z, names, now, draws, n, t);
    }
  }

  /** The server before its zones are put: one generated key, no zone, no signature. */
  function OneKey(key: Key): Site {
    Site(map[], Added(EMPTY_RING, key).0, map[])
  }

  /** The program starts clean, and with a ring that lasts out its key. */
  lemma {:induction false} ServerStartsClean(key: Key, com: ZoneState, org: ZoneState, names: seq<string>,
                                             names': seq<string>, now: int, now': int, draws: Draws, draws': Draws)
    requires SeedAddresses() && key.id != "" && com.name == "example.com" && org.name == "example.org"
    requires Fresh(com) && Fresh(org)
    requires (forall n :: n in names <==> n in com.records) && (forall n :: n in names' <==> n in org.records)
    ensures Clean(SeedSite(SeedSite(OneKey(key), com, names, now, draws), org, names', now', draws'))
  {
    var s := OneKey(key);
    var s' := SeedSite(s, com, names, now, draws);
    OneKeyClean(key);
    SeedingKeepsClean(s, com, names, now, draws);
    ExamplesApart(com.name, org.name);
    SeedingKeepsClean(s', org, names', now', draws');
  }

  lemma {:induction false} OneKeyClean(key: Key)
    requires key.id != ""
    ensures Clean(OneKey(key)) && forall zone :: Apart(OneKey(key), zone)
  {
    AddKeeps(EMPTY_RING, key);
  }

  lemma {:induction false} ExamplesApart(com: string, org: string)
    requires com == "example.com" && org == "example.org"
    requires CanonicalName(com) == com && CanonicalName(org) == org
    ensures !InZone(com, org) && !InZone(org, com)
  {
    assert com[|com| - 1] == 'm' && org[|org| - 1] == 'g';
  }
}
