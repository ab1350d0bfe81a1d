/** Which dynamic updates are accepted, and why everything accepted can be applied again later. */
module Validation {
  import opened Model
  import opened Names
  import opened Records
  import opened FlatStore

  /** The test every dynamic update passes before anything is staged. */
  predicate ValidChange(zoneName: string, ch: Change) {
    && Accepted(ch)
    && InZone(CanonicalName(ch.record.name), CanonicalName(zoneName))
    && !(ch.record.rtype == TYPE_CNAME && ch.kind == UPSERT)
  }

  /** A zone name whose canonical form is not empty and canonical once and for all. */
  predicate ProperZone(zoneName: string) {
    var c := CanonicalName(zoneName);
    c != "" && CanonicalName(c) == c
  }

  ghost predicate ReappliableRRSet(n: string, rs: seq<Record>) {
    CanonicalName(n) == n && forall i :: 0 <= i < |rs| ==> ValidRecord(rs[i])
  }

  /** Every stored record would be accepted again and filed under the same name. */
  ghost predicate Reappliable(c: Contents) {
    WellFormed(c) && forall n, t :: n in c && t in c[n] ==> ReappliableRRSet(n, c[n][t])
  }

  /** What an update stores is filed under a fixed-point name and would be accepted again as stored. */
  lemma {:induction false} AcceptedStaysAcceptable(zoneName: string, ch: Change)
    requires ProperZone(zoneName) && ValidChange(zoneName, ch)
    ensures CanonicalName(Stored(ch.record).name) == Stored(ch.record).name
    ensures ValidChange(zoneName, Change(ch.kind, Stored(ch.record)))
    ensures Stored(Stored(ch.record)) == Stored(ch.record)
  {
    InZoneIsFixedPoint(ch.record.name, CanonicalName(zoneName));
    CanonicalNotBlank(CanonicalName(ch.record.name));
  }

  /**
   Which updates are accepted: an upsert or delete of a valid record whose labels end in
   those of the zone, except that CNAMEs only go.
   */
  lemma {:induction false} AcceptedUpdates(zoneName: string, ch: Change)
    ensures ValidChange(zoneName, ch)
            <==> && ((ch.kind == 1 && ch.record.rtype != TYPE_CNAME) || ch.kind == 2) && ValidRecord(ch.record)
                 && LabelSuffix(Labels(CanonicalName(zoneName)), Labels(CanonicalName(ch.record.name)))
  {
    InZoneRoutes(CanonicalName(ch.record.name), CanonicalName(zoneName));
    RouteMatchIsLabelSuffix(CanonicalName(ch.record.name), CanonicalName(zoneName));
  }

  /** Updates of a properly named zone keep its whole content re-appliable. */
  lemma {:induction false} UpdateKeepsReappliable(zoneName: string, c: Contents, ch: Change)
    requires ProperZone(zoneName) && ValidChange(zoneName, ch) && Reappliable(c)
    ensures Reappliable(Apply(c, ch))
  {
    ApplyKeepsWellFormed(c, ch);
    AcceptedStaysAcceptable(zoneName, ch);
    var r := Stored(ch.record);
    var was := RRSetOf(c, r.name, r.rtype);
    var kept := Without(was, r.rdata);
    WithoutIn(was, r.rdata);
    forall i | 0 <= i < |kept| ensures ValidRecord(kept[i]) {
      assert kept[i] in kept && kept[i] in was;
    }
    assert ReappliableRRSet(r.name, kept) && ReappliableRRSet(r.name, kept + [r]);
  }

  /** Applying the change as it was stored is accepted and files the record under the same name again. */
  predicate Repeats(zoneName: string, ch: Change) {
    && ValidChange(zoneName, Change(ch.kind, Stored(ch.record)))
    && Stored(Stored(ch.record)) == Stored(ch.record)
  }

  /** The guarantee holds for the updates of a zone exactly when the zone is properly named. */
  lemma {:induction false} ProperZoneExactly(zoneName: string)
    ensures (forall ch :: ValidChange(zoneName, ch) ==> Repeats(zoneName, ch)) <==> ProperZone(zoneName)
  {
    var c := CanonicalName(zoneName);
    if ProperZone(zoneName) {
      forall ch | ValidChange(zoneName, ch) ensures Repeats(zoneName, ch) {
        AcceptedStaysAcceptable(zoneName, ch);
      }
    } else if c != "" {
      var ch := Change(UPSERT, Record(zoneName, TYPE_TXT, 0, "x"));
      CanonicalNotBlank(zoneName);
      assert ValidChange(zoneName, ch) && Stored(Stored(ch.record)).name != Stored(ch.record).name;
      assert !Repeats(zoneName, ch);
    } else {
      var ch := Change(UPSERT, Record(".", TYPE_TXT, 0, "x"));
      RootIsEmpty();
      assert ValidChange(zoneName, ch) && !ValidRecord(Stored(ch.record));
      assert !Repeats(zoneName, ch);
    }
  }

  lemma {:induction false} RootIsEmpty()
    ensures TrimSpace(".") == "." && CanonicalName(".") == "" && TrimSpace("") == ""
  {
    assert ToLower(".") == ".";
  }

  /** A zone named with a doubled trailing dot loses that guarantee: its own name is filed elsewhere the second time. */
  lemma {:induction false} ImproperZoneExample(r: Record)
    requires r.name == "a.." && r.rtype == TYPE_TXT && 1 <= |r.rdata| <= 255
    ensures ValidChange("a..", Change(UPSERT, r))
    ensures Stored(r).name == "a." && Stored(Stored(r)).name == "a"
  {
    CanonicalTwiceExample();
    CanonicalNotBlank("a..");
  }

  /** So does the root zone, whose name is empty once the dot is gone: its own name is refused the second time. */
  lemma {:induction false} RootZoneExample(r: Record)
    requires r.name == "." && r.rtype == TYPE_TXT && 1 <= |r.rdata| <= 255
    ensures ValidChange(".", Change(UPSERT, r)) && !ValidRecord(Stored(r))
  {
    RootIsEmpty();
  }

  /** A zone spelled with a trailing dot and capitals keeps it. */
  lemma {:induction false} SpeltZoneExample()
    ensures ProperZone("COM.")
  {
    ComIsCanonical();
  }

  // Routing of accepted names

  /** The routing loop can pick this zone for the name. */
  predicate Routable(name: string, zone: string) {
    zone != "" && RouteMatch(name, zone)
  }

  lemma {:induction false} CanonicalShrinks(s: string)
    ensures |CanonicalName(s)| <= |s|
  {
    TrimLeftShrinks(s);
    TrimRightEnds(TrimLeft(s));
  }

  /**
   The update service compares names with the canonical zone name, the resolver with the
   zone name as it is stored. Every name an update of the zone may use can be routed to
   it exactly when the zone is stored under its canonical name, and that is not empty.
   */
  lemma {:induction false} AcceptedNamesRoute(zone: string)
    ensures (forall ch :: ValidChange(zone, ch) ==> Routable(CanonicalName(ch.record.name), zone))
            <==> zone != "" && CanonicalName(zone) == zone
  {
    var c := CanonicalName(zone);
    if zone != "" && c == zone {
      forall ch | ValidChange(zone, ch) ensures Routable(CanonicalName(ch.record.name), zone) {
        InZoneRoutes(CanonicalName(ch.record.name), zone);
      }
    } else if c != "" {
      var ch := Change(UPSERT, Record(zone, TYPE_TXT, 0, "x"));
      CanonicalNotBlank(zone);
      CanonicalShrinks(zone);
      assert ValidChange(zone, ch) && !Routable(CanonicalName(ch.record.name), zone);
    } else {
      var ch := Change(UPSERT, Record(".", TYPE_TXT, 0, "x"));
      RootIsEmpty();
      assert ValidChange(zone, ch) && !Routable(CanonicalName(ch.record.name), zone);
    }
  }

  /** The zone stored as "COM." accepts updates under "com", and no such name is ever routed to it. */
  lemma {:induction false} UnroutedExample(r: Record)
    requires r.name == "com" && r.rtype == TYPE_TXT && 1 <= |r.rdata| <= 255
    ensures ValidChange("COM.", Change(UPSERT, r)) && !Routable(CanonicalName(r.name), "COM.")
  {
    ComIsCanonical();
  }

  lemma {:induction false} ComIsCanonical()
    ensures CanonicalName("COM.") == "com" && CanonicalName("com") == "com" && TrimSpace("com") != ""
  {
    assert ToLower("COM.") == "com." && TrimSpace("COM.") == "COM.";
    assert "com."[..3] == "com";
    FixedPointShape("com");
    CanonicalNotBlank("com");
  }
}
