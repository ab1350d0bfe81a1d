/** The resolver: cache first, then the zone the name routes to; answers are stored with their TTL. */
module Resolvers {
  import opened Model
  import opened Names
  import opened Sorting
  import opened Records
  import opened RecordStore
  import opened Validation
  import opened Caches

  /** What the resolver reads of a zone. */
  datatype ZoneView = ZoneView(records: Contents, soa: SOA)

  /** The stored zones at one moment. */
  type World = map<string, ZoneView>

  // Answers

  predicate RDataLe(a: Record, b: Record) {
    !StringLess(b.rdata, a.rdata)
  }

  /** The smallest TTL of a list. */
  function MinTtl(records: seq<Record>): (ttl: uint32)
    requires records != []
    ensures forall i :: 0 <= i < |records| ==> ttl <= records[i].ttl
    ensures exists i :: 0 <= i < |records| && ttl == records[i].ttl
  {
    if |records| == 1 then records[0].ttl
    else
      var front, last := MinTtl(records[..|records| - 1]), records[|records| - 1].ttl;
      assert forall i :: 0 <= i < |records| - 1 ==> records[..|records| - 1][i] == records[i];
      if last < front then last else front
  }

  function AsCached(records: seq<Record>): seq<Record> {
    Sort(records, RDataLe)
  }

  /** The answer is about what was asked, is no NXDOMAIN, and gives the least TTL. */
  ghost predicate PositiveAnswer(query: Query, records: seq<Record>, answer: Answer)
    requires records != []
  {
    && answer.name == query.name && answer.rtype == query.rtype && !answer.nxdomain
    && answer.ttl == MinTtl(records)
  }

  /** The rdata of the last record that has any. */
  ghost predicate LastNamed(records: seq<Record>, rdata: string) {
    && (exists i :: 0 <= i < |records| && records[i].rdata == rdata
                    && forall j :: i < j < |records| ==> records[j].rdata == "")
    && (rdata == "" ==> forall i :: 0 <= i < |records| ==> records[i].rdata == "")
  }

  /** The smallest rdata. */
  ghost predicate LeastNamed(records: seq<Record>, rdata: string) {
    && (exists i :: 0 <= i < |records| && records[i].rdata == rdata)
    && forall i :: 0 <= i < |records| ==> StringLe(rdata, records[i].rdata)
  }

  /** A fresh answer. */
  ghost predicate Answers(query: Query, records: seq<Record>, answer: Answer)
    requires records != []
  {
    PositiveAnswer(query, records, answer) && LastNamed(records, answer.rdata)
  }

  lemma {:induction false} LastNamedSnoc(records: seq<Record>, r: Record, rdata: string)
    requires records == [] || LastNamed(records, rdata)
    ensures LastNamed(records + [r], if r.rdata != "" || records == [] then r.rdata else rdata)
  {
    var all := records + [r];
    assert all[|records|] == r;
    if r.rdata == "" && records != [] {
      var i :| 0 <= i < |records| && records[i].rdata == rdata
               && forall j :: i < j < |records| ==> records[j].rdata == "";
      assert all[i] == records[i];
    }
  }

  method AnswerForRecords(query: Query, records: seq<Record>) returns (answer: Answer)
    requires records != []
    ensures Answers(query, records, answer)
  {
    var best, minTTL := records[0], records[0].ttl;
    for i := 0 to |records|
      invariant i == 0 ==> minTTL == records[0].ttl && best == records[0]
      invariant i > 0 ==> minTTL == MinTtl(records[..i]) && LastNamed(records[..i], best.rdata)
    {
      assert records[..i + 1] == records[..i] + [records[i]];
      LastNamedSnoc(records[..i], records[i], best.rdata);
      if records[i].ttl < minTTL {
        minTTL := records[i].ttl;
      }
      if |records[i].rdata| > 0 {
        best := records[i];
      }
    }
    assert records[..|records|] == records;
    answer := Answer(query.name, query.rtype, minTTL, best.rdata, false);
  }

  function NegativeAnswer(query: Query, ttl: uint32): Answer {
    Answer(query.name, query.rtype, ttl, "", true)
  }

  // Routing

  /** The longest non-empty stored zone the name belongs to. */
  ghost predicate IsRoute(zones: set<string>, name: string, z: string) {
    && z in zones && z != "" && LabelSuffix(Labels(z), Labels(name))
    && forall z' :: z' in zones && LabelSuffix(Labels(z'), Labels(name)) ==> |z'| <= |z|
  }

  lemma {:induction false} RouteUnique(zones: set<string>, name: string, z: string, z': string)
    requires IsRoute(zones, name, z) && IsRoute(zones, name, z')
    ensures z == z'
  {
    RouteMatchIsLabelSuffix(name, z);
    RouteMatchIsLabelSuffix(name, z');
  }

  /** A zone is its own route, so asking for the SOA of the zone found finds that zone again. */
  lemma {:induction false} ZoneRoutesToItself(zones: set<string>, name: string, z: string)
    requires IsRoute(zones, name, z)
    ensures IsRoute(zones, z, z)
  {
    forall z' | z' in zones && LabelSuffix(Labels(z'), Labels(z)) ensures |z'| <= |z| {
      RouteMatchIsLabelSuffix(z, z');
    }
  }

  /** Every name an update of a canonically stored zone may use routes to that zone or to a more specific one. */
  lemma {:induction false} UpdateNamesRoute(zones: set<string>, z: string, ch: Change, best: string)
    requires z in zones && z != "" && CanonicalName(z) == z && ValidChange(z, ch)
    ensures LabelSuffix(Labels(z), Labels(CanonicalName(ch.record.name)))
    ensures IsRoute(zones, CanonicalName(ch.record.name), best)
            ==> |z| <= |best| && LabelSuffix(Labels(z), Labels(best))
  {
    var name := CanonicalName(ch.record.name);
    AcceptedNamesRoute(z);
    RouteMatchIsLabelSuffix(name, z);
    if IsRoute(zones, name, best) {
      RoutesNest(zones, name, z, best);
    }
  }

  lemma {:induction false} RoutesNest(zones: set<string>, name: string, z: string, best: string)
    requires z in zones && LabelSuffix(Labels(z), Labels(name)) && IsRoute(zones, name, best)
    ensures |z| <= |best| && LabelSuffix(Labels(z), Labels(best))
  {
    var lz, lb := Labels(z), Labels(best);
    if |lz| <= |lb| {
      SuffixesNest(lz, lb, Labels(name));
    } else {
      SuffixesNest(lb, lz, Labels(name));
      RouteMatchIsLabelSuffix(z, best);
    }
  }

  // One resolution

  const DEFAULT_MINIMUM: uint32 := 300

  /** The SOA minimum the zone of this name answers with; a default if there is no such zone any more. */
  ghost predicate MinimumOf(world: World, name: string, minimum: uint32) {
    if forall z :: z in world ==> !IsRoute(world.Keys, name, z) then minimum == DEFAULT_MINIMUM
    else exists z :: z in world && IsRoute(world.Keys, name, z) && minimum == world[z].soa.minimum
  }

  /** A zone that is still stored answers with its own SOA minimum; if neither it nor one above it is, with 300. */
  lemma {:induction false} NegativeMinimum(world: World, name: string, minimum: uint32)
    requires MinimumOf(world, name, minimum) && name != ""
    ensures name in world ==> minimum == world[name].soa.minimum
    ensures (forall z :: z in world && z != "" ==> !LabelSuffix(Labels(z), Labels(name))) ==> minimum == 300
  {
    if name in world {
      forall z | z in world && LabelSuffix(Labels(z), Labels(name)) ensures |z| <= |name| {
        RouteMatchIsLabelSuffix(name, z);
      }
      assert LabelSuffix(Labels(name), Labels(name));
      assert IsRoute(world.Keys, name, name);
      var z :| z in world && IsRoute(world.Keys, name, z) && minimum == world[z].soa.minimum;
      RouteUnique(world.Keys, name, name, z);
    }
  }

  /**
   What an authoritative look-up stores and answers, given the signer's verdict on the
   RRset it finds. The RRset is read from `world`, the SOA of a negative answer from
   `later`, and the entry is stored at `now`.
   */
  ghost predicate Authoritative(world: World, later: World, query: Query, now: int, verdict: RRSet -> bool, max: int,
                                before: Entries, after: Entries, answer: Option<Answer>)
  {
    if forall z :: z in world ==> !IsRoute(world.Keys, query.name, z) then after == before && answer == None
    else exists z :: (z in world && IsRoute(world.Keys, query.name, z)
                      && FromZone(world, later, z, query, now, verdict, max, before, after, answer))
  }

  ghost predicate FromZone(world: World, later: World, z: string, query: Query, now: int, verdict: RRSet -> bool,
                           max: int, before: Entries, after: Entries, answer: Option<Answer>)
    requires z in world
  {
    var records := RRSetOf(world[z].records, CanonicalName(query.name), query.rtype);
    if records == [] then exists minimum ::
      && MinimumOf(later, z, minimum)
      && answer == Some(NegativeAnswer(query, minimum))
      && PutStep(max, before, CacheKey(query.name, query.rtype, true), CacheEntry([], true, minimum, now), after)
    else if !verdict(RRSet(query.name, query.rtype, records)) then after == before && answer == None
    else
      && answer.Some? && Answers(query, records, answer.value)
      && PutStep(max, before, CacheKey(query.name, query.rtype, false),
                 CacheEntry(AsCached(records), false, MinTtl(records), now), after)
  }

  function PositiveHit(entries: Entries, query: Query, now: int): Option<Answer> {
    match Got(entries, CacheKey(query.name, query.rtype, false), now)
    case Some(r) =>
      if !r.nxdomain && |r.records| > 0
      then Some(Answer(query.name, query.rtype, r.ttl, r.records[0].rdata, false))
      else None
    case None => None
  }

  function NegativeHit(entries: Entries, query: Query, now: int): Option<Answer> {
    match Got(entries, CacheKey(query.name, query.rtype, true), now)
    case Some(r) => if r.nxdomain then Some(NegativeAnswer(query, r.ttl)) else None
    case None => None
  }

  function Canonical(query: Query): Query {
    query.(name := CanonicalName(query.name))
  }

  /** The clock readings of one call, and the zones as two of its steps see them. */
  datatype Moments = Moments(first: int, second: int, stored: int, world: World, later: World)

  /** One call on a cache nobody else uses meanwhile. */
  ghost predicate Resolved(at: Moments, query: Query, verdict: RRSet -> bool, max: int,
                           before: Entries, after: Entries, answer: Option<Answer>)
  {
    var q := Canonical(query);
    if PositiveHit(before, q, at.first).Some? then after == before && answer == PositiveHit(before, q, at.first)
    else if NegativeHit(before, q, at.second).Some? then after == before && answer == NegativeHit(before, q, at.second)
    else Authoritative(at.world, at.later, q, at.stored, verdict, max, before, after, answer)
  }

  /** A routed query is refused only for its signature. */
  lemma {:induction false} OnlyTheVerdictRefuses(at: Moments, query: Query, verdict: RRSet -> bool, max: int,
                                                 before: Entries, after: Entries, answer: Option<Answer>, z: string)
    requires Resolved(at, query, verdict, max, before, after, answer)
    requires z in at.world && IsRoute(at.world.Keys, Canonical(query).name, z)
    requires var q := Canonical(query);
             var records := RRSetOf(at.world[z].records, CanonicalName(q.name), q.rtype);
             records != [] ==> verdict(RRSet(q.name, q.rtype, records))
    ensures answer.Some?
  {
    var q := Canonical(query);
    if PositiveHit(before, q, at.first).None? && NegativeHit(before, q, at.second).None? {
      RoutedIsAnswered(at.world, at.later, q, at.stored, verdict, max, before, after, answer, z);
    }
  }

  lemma {:induction false} RoutedIsAnswered(world: World, later: World, q: Query, now: int, verdict: RRSet -> bool,
                                            max: int, before: Entries, after: Entries, answer: Option<Answer>,
                                            z: string)
    requires Authoritative(world, later, q, now, verdict, max, before, after, answer)
    requires z in world && IsRoute(world.Keys, q.name, z)
    requires var records := RRSetOf(world[z].records, CanonicalName(q.name), q.rtype);
             records != [] ==> verdict(RRSet(q.name, q.rtype, records))
    ensures answer.Some?
  {
    var z' :| z' in world && IsRoute(world.Keys, q.name, z')
              && FromZone(world, later, z', q, now, verdict, max, before, after, answer);
    RouteUnique(world.Keys, q.name, z, z');
  }

  /** An answer from a zone that the name routes to is the authoritative answer. */
  lemma {:induction false} RoutedAnswer(world: World, later: World, z: string, q: Query, now: int,
                                        verdict: RRSet -> bool, max: int, before: Entries, after: Entries,
                                        answer: Option<Answer>)
    requires z in world && IsRoute(world.Keys, q.name, z)
    requires FromZone(world, later, z, q, now, verdict, max, before, after, answer)
    ensures Authoritative(world, later, q, now, verdict, max, before, after, answer)
  {
  }

  class Resolver {
    const cache: Cache

    constructor (cache: Cache)
      ensures this.cache == cache
    {
      this.cache := cache;
    }

    method Resolve(at: Moments, query: Query, verdict: RRSet -> bool) returns (answer: Option<Answer>)
      requires cache.Valid()
      modifies cache
      ensures cache.Valid()
      ensures Resolved(at, query, verdict, cache.maxEntries, old(cache.entries), cache.entries, answer)
    {
      var q := Canonical(query);
      var hit := cache.Get(q.name, q.rtype, false, at.first);
      if hit.Some? && !hit.value.nxdomain && |hit.value.records| > 0 {
        return Some(Answer(q.name, q.rtype, hit.value.ttl, hit.value.records[0].rdata, false));
      }
      hit := cache.Get(q.name, q.rtype, true, at.second);
      if hit.Some? && hit.value.nxdomain {
        return Some(NegativeAnswer(q, hit.value.ttl));
      }
      answer := ResolveAuthoritative(at.world, at.later, q, at.stored, verdict);
    }

    method ResolveAuthoritative(world: World, later: World, q: Query, now: int, verdict: RRSet -> bool)
      returns (answer: Option<Answer>)
      requires cache.Valid()
      modifies cache
      ensures cache.Valid()
      ensures Authoritative(world, later, q, now, verdict, cache.maxEntries, old(cache.entries), cache.entries, answer)
    {
      var best := Route(world, q.name);
      if best == "" {
        return None;
      }
      answer := AnswerFrom(world, later, best, q, now, verdict);
      RoutedAnswer(world, later, best, q, now, verdict, cache.maxEntries, old(cache.entries), cache.entries, answer);
    }

    method AnswerFrom(world: World, later: World, z: string, q: Query, now: int, verdict: RRSet -> bool)
      returns (answer: Option<Answer>)
      requires cache.Valid() && z in world
      modifies cache
      ensures cache.Valid()
      ensures FromZone(world, later, z, q, now, verdict, cache.maxEntries, old(cache.entries), cache.entries, answer)
    {
      var records := RRSetOf(world[z].records, CanonicalName(q.name), q.rtype);
      if records != [] {
        if !verdict(RRSet(q.name, q.rtype, records)) {
          return None;
        }
        var found := AnswerForRecords(q, records);
        cache.Put(q.name, q.rtype, false, AsCached(records), found.ttl, now);
        return Some(found);
      }
      var ttl := ZoneMinimum(later, z);
      cache.Put(q.name, q.rtype, true, [], ttl, now);
      answer := Some(NegativeAnswer(q, ttl));
    }

    method ZoneMinimum(world: World, name: string) returns (minimum: uint32)
      ensures MinimumOf(world, name, minimum)
    {
      var owner := Route(world, name);
      minimum := if owner == "" then DEFAULT_MINIMUM else world[owner].soa.minimum;
    }

    method Route(world: World, name: string) returns (best: string)
      ensures best == "" ==> forall z :: z in world ==> !IsRoute(world.Keys, name, z)
      ensures best != "" ==> best in world && IsRoute(world.Keys, name, best)
    {
      var names := Zones(world);
      best := FindZone(names, name);
    }

    method Zones(world: World) returns (names: seq<string>)
      ensures forall z :: z in names <==> z in world
    {
      names := [];
      var left := world.Keys;
      while left != {}
        invariant left <= world.Keys
        invariant forall z :: z in names <==> z in world && z !in left
      {
        var z := Pick(left);
        left := left - {z};
        names := names + [z];
      }
      ghost var walked := names;
      names := Sort(names, StringLe);
      SameElements(walked, names);
    }
  }

  // Runs

  /**
   What happens to the cache, one locked operation at a time, so that any number of
   calls may overlap: the two look-ups of a call, the store that ends one, and a sweep.
   A store carries what its call read before: the RRset from the zones at `looked`, the
   SOA later. Between events the zones may change in any way.
   */
  datatype CacheEvent =
    | LookPositive(query: Query, now: int)
    | LookNegative(query: Query, now: int)
    | Store(query: Query, looked: int, world: World, later: World, verdict: RRSet -> bool, now: int)
    | Sweep(now: int)

  ghost predicate StepOk(e: CacheEvent, max: int, before: Entries, after: Entries, answer: Option<Answer>) {
    match e
    case LookPositive(query, now) => after == before && answer == PositiveHit(before, Canonical(query), now)
    case LookNegative(query, now) => after == before && answer == NegativeHit(before, Canonical(query), now)
    case Store(query, looked, world, later, verdict, now) =>
      looked <= now && Authoritative(world, later, Canonical(query), now, verdict, max, before, after, answer)
    case Sweep(now) => after == Swept(before, now)
  }

  /** A call that meets no other is such a sequence: its look-ups, and the store if both miss. */
  lemma {:induction false} CallIsSteps(at: Moments, query: Query, verdict: RRSet -> bool, max: int,
                                       before: Entries, after: Entries, answer: Option<Answer>)
    requires Resolved(at, query, verdict, max, before, after, answer)
    ensures var q := Canonical(query);
            if PositiveHit(before, q, at.first).Some?
            then StepOk(LookPositive(query, at.first), max, before, after, answer)
            else
              && StepOk(LookPositive(query, at.first), max, before, before, None)
              && if NegativeHit(before, q, at.second).Some?
                 then StepOk(LookNegative(query, at.second), max, before, after, answer)
                 else
                   && StepOk(LookNegative(query, at.second), max, before, before, None)
                   && StepOk(Store(query, at.stored, at.world, at.later, verdict, at.stored), max,
                             before, after, answer)
  {
  }

  ghost predicate CacheRun(events: seq<CacheEvent>, states: seq<Entries>, answers: seq<Option<Answer>>, max: int) {
    && |states| == |events| + 1 && |answers| == |events|
    && states[0] == map[]
    && (forall i {:trigger events[i]} :: 0 <= i < |events| ==>
          StepOk(events[i], max, states[i], states[i + 1], answers[i]))
    && (forall i, j :: 0 <= i < j < |events| ==> events[i].now <= events[j].now)
  }

  /** The call behind this store found this RRset, not empty, in the zone of the name, and its signature passed. */
  ghost predicate Held(e: CacheEvent, name: string, t: RecordType, records: seq<Record>) {
    && e.Store? && e.looked <= e.now && CanonicalName(e.query.name) == name && e.query.rtype == t && records != []
    && e.verdict(RRSet(name, t, records))
    && exists z :: z in e.world && IsRoute(e.world.Keys, name, z)
                   && RRSetOf(e.world[z].records, CanonicalName(name), t) == records
  }

  /** The call behind this store found no such RRset, and then read this minimum in the zone's SOA. */
  ghost predicate Absent(e: CacheEvent, name: string, t: RecordType, minimum: uint32) {
    && e.Store? && e.looked <= e.now && CanonicalName(e.query.name) == name && e.query.rtype == t
    && exists z :: z in e.world && IsRoute(e.world.Keys, name, z)
                   && RRSetOf(e.world[z].records, CanonicalName(name), t) == []
                   && MinimumOf(e.later, z, minimum)
  }

  /** An entry that this event put into the cache. */
  ghost predicate FilledBy(e: CacheEvent, key: string, entry: CacheEntry) {
    && e.Store? && entry.storedAt == e.now
    && var name, t := CanonicalName(e.query.name), e.query.rtype;
    && key == CacheKey(name, t, entry.nxdomain)
    && if entry.nxdomain then Absent(e, name, t, entry.ttl)
       else exists records ::
              Held(e, name, t, records) && entry.data == AsCached(records) && entry.ttl == MinTtl(records)
  }

  ghost predicate Grounded(events: seq<CacheEvent>, n: nat, entries: Entries) {
    forall k :: k in entries ==> exists j :: 0 <= j < n <= |events| && FilledBy(events[j], k, entries[k])
  }

  lemma {:induction false} PutGrounded(events: seq<CacheEvent>, n: nat, max: int, before: Entries, key: string,
                                       entry: CacheEntry, after: Entries)
    requires n < |events| && Grounded(events, n, before)
    requires PutStep(max, before, key, entry, after) && FilledBy(events[n], key, entry)
    ensures Grounded(events, n + 1, after)
  {
    PutOrigin(max, before, key, entry, after);
    forall k | k in after ensures exists j :: 0 <= j < n + 1 <= |events| && FilledBy(events[j], k, after[k]) {
      if k != key {
        var j :| 0 <= j < n && FilledBy(events[j], k, before[k]);
      }
    }
  }

  lemma {:induction false} GroundedLater(events: seq<CacheEvent>, n: nat, before: Entries, after: Entries)
    requires n < |events| && Grounded(events, n, before)
    requires forall k :: k in after ==> k in before && after[k] == before[k]
    ensures Grounded(events, n + 1, after)
  {
    forall k | k in after ensures exists j :: 0 <= j < n + 1 <= |events| && FilledBy(events[j], k, after[k]) {
      var j :| 0 <= j < n && FilledBy(events[j], k, before[k]);
    }
  }

  lemma {:induction false} StepGrounded(events: seq<CacheEvent>, n: nat, max: int, before: Entries, after: Entries,
                                        answer: Option<Answer>)
    requires n < |events| && Grounded(events, n, before) && StepOk(events[n], max, before, after, answer)
    ensures Grounded(events, n + 1, after)
  {
    var e := events[n];
    if !e.Store? || after == before {
      GroundedLater(events, n, before, after);
    } else {
      var q := Canonical(e.query);
      var z :| z in e.world && IsRoute(e.world.Keys, q.name, z) &&
               FromZone(e.world, e.later, z, q, e.now, e.verdict, max, before, after, answer);
      FromZoneGrounded(events, n, max, before, after, answer, z);
    }
  }

  lemma {:induction false} FromZoneGrounded(events: seq<CacheEvent>, n: nat, max: int, before: Entries, after: Entries,
                                            answer: Option<Answer>, z: string)
    requires n < |events| && Grounded(events, n, before) && events[n].Store? && events[n].looked <= events[n].now
    requires after != before
    requires var e := events[n];
             && z in e.world && IsRoute(e.world.Keys, Canonical(e.query).name, z)
             && FromZone(e.world, e.later, z, Canonical(e.query), e.now, e.verdict, max, before, after, answer)
    ensures Grounded(events, n + 1, after)
  {
    var e, q := events[n], Canonical(events[n].query);
    var records := RRSetOf(e.world[z].records, CanonicalName(q.name), q.rtype);
    if records == [] {
      var minimum :| MinimumOf(e.later, z, minimum)
                     && PutStep(max, before, CacheKey(q.name, q.rtype, true),
                                CacheEntry([], true, minimum, e.now), after);
      assert Absent(e, q.name, q.rtype, minimum);
      PutGrounded(events, n, max, before, CacheKey(q.name, q.rtype, true), CacheEntry([], true, minimum, e.now), after);
    } else {
      assert Held(e, q.name, q.rtype, records);
      PutGrounded(events, n, max, before, CacheKey(q.name, q.rtype, false),
                  CacheEntry(AsCached(records), false, MinTtl(records), e.now), after);
    }
  }

  lemma {:induction false} RunGrounded(events: seq<CacheEvent>, states: seq<Entries>, answers: seq<Option<Answer>>,
                                       max: int, n: nat)
    requires CacheRun(events, states, answers, max) && n <= |events|
    ensures Grounded(events, n, states[n])
  {
    if n == 0 {
      assert states[0] == map[];
    } else {
      var m := n - 1;
      RunGrounded(events, states, answers, max, m);
      RunStepGrounded(events, states, answers, max, m);
      assert n == m + 1 && states[n] == states[m + 1];
    }
  }

  lemma {:induction false} RunStepGrounded(events: seq<CacheEvent>, states: seq<Entries>, answers: seq<Option<Answer>>,
                                           max: int, n: nat)
    requires CacheRun(events, states, answers, max) && n < |events| && Grounded(events, n, states[n])
    ensures Grounded(events, n + 1, states[n + 1])
  {
    StepGrounded(events, n, max, states[n], states[n + 1], answers[n]);
  }

  /** The filling of a positive entry. */
  lemma {:induction false} FilledPositive(f: CacheEvent, q: Query, entry: CacheEntry) returns (records: seq<Record>)
    requires FilledBy(f, CacheKey(q.name, q.rtype, false), entry) && KnownType(q.rtype)
    ensures !entry.nxdomain && entry.storedAt == f.now
    ensures Held(f, q.name, q.rtype, records) && entry.data == AsCached(records) && entry.ttl == MinTtl(records)
  {
    var name, t := CanonicalName(f.query.name), f.query.rtype;
    CacheKeyInjective(q.name, q.rtype, false, name, t, entry.nxdomain);
    records :| Held(f, name, t, records) && entry.data == AsCached(records) && entry.ttl == MinTtl(records);
  }

  lemma {:induction false} FilledNegative(f: CacheEvent, q: Query, entry: CacheEntry)
    requires FilledBy(f, CacheKey(q.name, q.rtype, true), entry) && KnownType(q.rtype)
    ensures entry.nxdomain && entry.storedAt == f.now && Absent(f, q.name, q.rtype, entry.ttl)
  {
    CacheKeyInjective(q.name, q.rtype, true, CanonicalName(f.query.name), f.query.rtype, entry.nxdomain);
  }

  lemma {:induction false} Filler(events: seq<CacheEvent>, n: nat, entries: Entries, key: string) returns (j: nat)
    requires Grounded(events, n, entries) && key in entries
    ensures j < n <= |events| && FilledBy(events[j], key, entries[key])
  {
    j :| 0 <= j < n <= |events| && FilledBy(events[j], key, entries[key]);
  }

  /** A positive answer out of the cache, explained by an earlier query. */
  ghost predicate FreshPositive(f: CacheEvent, q: Query, now: int, answer: Answer) {
    exists records: seq<Record> ::
      && Held(f, q.name, q.rtype, records)
      && f.now <= now < f.now + MinTtl(records)
      && PositiveAnswer(q, records, answer) && LeastNamed(records, answer.rdata)
  }

  /** The answer says that what was asked does not exist, for the given time. */
  ghost predicate DenyingAnswer(q: Query, minimum: uint32, answer: Answer) {
    answer.name == q.name && answer.rtype == q.rtype && answer.nxdomain && answer.ttl == minimum && answer.rdata == ""
  }

  /** A positive hit repeats its entry. */
  lemma {:induction false} HitRepeats(entries: Entries, q: Query, now: int)
    requires PositiveHit(entries, q, now).Some?
    ensures CacheKey(q.name, q.rtype, false) in entries
    ensures var e := entries[CacheKey(q.name, q.rtype, false)];
            && e.data != [] && now < e.storedAt + e.ttl
            && PositiveHit(entries, q, now).value == Answer(q.name, q.rtype, e.ttl, e.data[0].rdata, false)
  {
  }

  lemma {:induction false} PositiveExplained(f: CacheEvent, q: Query, now: int, entries: Entries)
    requires PositiveHit(entries, q, now).Some? && KnownType(q.rtype) && f.now <= now
    requires FilledBy(f, CacheKey(q.name, q.rtype, false), entries[CacheKey(q.name, q.rtype, false)])
    ensures FreshPositive(f, q, now, PositiveHit(entries, q, now).value)
  {
    var records := FilledPositive(f, q, entries[CacheKey(q.name, q.rtype, false)]);
    HitRepeats(entries, q, now);
    FirstIsLeast(records);
    CachedAnswer(q, records, PositiveHit(entries, q, now).value);
  }

  lemma {:induction false} CachedAnswer(q: Query, records: seq<Record>, answer: Answer)
    requires records != [] && AsCached(records) != [] && LeastNamed(records, AsCached(records)[0].rdata)
    requires answer == Answer(q.name, q.rtype, MinTtl(records), AsCached(records)[0].rdata, false)
    ensures PositiveAnswer(q, records, answer) && LeastNamed(records, answer.rdata) && answer.ttl == MinTtl(records)
  {
  }

  lemma {:induction false} FirstIsLeast(records: seq<Record>)
    requires records != []
    ensures AsCached(records) != [] && LeastNamed(records, AsCached(records)[0].rdata)
  {
    var sorted := AsCached(records);
    SameElements(records, sorted);
    assert sorted[0] in records;
    RDataOrder();
    SortSorts(records, RDataLe);
    forall i | 0 <= i < |records| ensures StringLe(sorted[0].rdata, records[i].rdata) {
      assert records[i] in sorted;
      StringLessTotal(records[i].rdata, records[i].rdata);
    }
  }

  lemma {:induction false} RDataOrder()
    ensures TotalPreorder(RDataLe)
  {
    StringLeOrder();
    forall x: Record, y: Record ensures RDataLe(x, y) || RDataLe(y, x) {
      assert StringLe(x.rdata, y.rdata) || StringLe(y.rdata, x.rdata);
    }
    forall x: Record, y: Record, z: Record | RDataLe(x, y) && RDataLe(y, z) ensures RDataLe(x, z) {
      StringLeTransitive(x.rdata, y.rdata, z.rdata);
    }
  }

  lemma {:induction false} RunOrdered(events: seq<CacheEvent>, states: seq<Entries>, answers: seq<Option<Answer>>,
                                      max: int, i: nat)
    requires CacheRun(events, states, answers, max) && i < |events|
    ensures StepOk(events[i], max, states[i], states[i + 1], answers[i])
    ensures forall j :: 0 <= j < i ==> events[j].now <= events[i].now
  {
  }

  /**
   Bounded staleness, positive half. Whatever updates, overlapping calls, sweeps and
   evictions came before: a hit names the record of smallest rdata of an RRset that a call
   had found in the zone, and whose entry that call stored less than the least TTL ago.
   */
  lemma {:induction false} PositiveHitsAreFresh(events: seq<CacheEvent>, states: seq<Entries>,
                                                answers: seq<Option<Answer>>, max: int, i: nat)
    requires CacheRun(events, states, answers, max) && i < |events| && events[i].LookPositive?
    requires KnownType(events[i].query.rtype) && answers[i].Some?
    ensures exists j ::
              0 <= j < i && FreshPositive(events[j], Canonical(events[i].query), events[i].now, answers[i].value)
  {
    var now, q := events[i].now, Canonical(events[i].query);
    RunGrounded(events, states, answers, max, i);
    RunOrdered(events, states, answers, max, i);
    var j := Filler(events, i, states[i], CacheKey(q.name, q.rtype, false));
    PositiveExplained(events[j], q, now, states[i]);
  }

  /** A negative answer out of the cache, explained by an earlier call. */
  ghost predicate FreshNegative(f: CacheEvent, q: Query, now: int, answer: Answer) {
    && DenyingAnswer(q, answer.ttl, answer)
    && Absent(f, q.name, q.rtype, answer.ttl)
    && f.now <= now < f.now + answer.ttl
  }

  /**
   The negative half: a negative hit means that a call had found the RRset absent from
   its zone, and stored that less than the zone's SOA minimum ago.
   */
  lemma {:induction false} NegativeHitsAreFresh(events: seq<CacheEvent>, states: seq<Entries>,
                                                answers: seq<Option<Answer>>, max: int, i: nat)
    requires CacheRun(events, states, answers, max) && i < |events| && events[i].LookNegative?
    requires KnownType(events[i].query.rtype) && answers[i].Some?
    ensures exists j ::
              0 <= j < i && FreshNegative(events[j], Canonical(events[i].query), events[i].now, answers[i].value)
  {
    var now, q := events[i].now, Canonical(events[i].query);
    RunGrounded(events, states, answers, max, i);
    RunOrdered(events, states, answers, max, i);
    var key := CacheKey(q.name, q.rtype, true);
    var j := Filler(events, i, states[i], key);
    FilledNegative(events[j], q, states[i][key]);
    assert FreshNegative(events[j], q, now, answers[i].value);
  }

  // Calls on a cache that a run has filled

  /**
   The look-up behind this store explains the answer: a record it found, or that it found
   none. A call that looked itself names the last record with rdata, one that met an entry
   the record of smallest rdata.
   */
  ghost predicate ExplainedBy(f: CacheEvent, q: Query, answer: Answer, own: bool) {
    if answer.nxdomain then Absent(f, q.name, q.rtype, answer.ttl) && DenyingAnswer(q, answer.ttl, answer)
    else exists records ::
           && Held(f, q.name, q.rtype, records) && PositiveAnswer(q, records, answer)
           && if own then LastNamed(records, answer.rdata) else LeastNamed(records, answer.rdata)
  }

  /** The store that the call itself makes if it misses the cache. */
  function OwnStore(at: Moments, query: Query, verdict: RRSet -> bool): CacheEvent {
    Store(query, at.stored, at.world, at.later, verdict, at.stored)
  }

  lemma {:induction false} FreshIsExplained(at: Moments, query: Query, verdict: RRSet -> bool, max: int,
                                            before: Entries, after: Entries, answer: Option<Answer>)
    requires var q := Canonical(query);
             Authoritative(at.world, at.later, q, at.stored, verdict, max, before, after, answer) && answer.Some?
    ensures ExplainedBy(OwnStore(at, query, verdict), Canonical(query), answer.value, true)
  {
    var f, q := OwnStore(at, query, verdict), Canonical(query);
    var z :| z in at.world && IsRoute(at.world.Keys, q.name, z)
             && FromZone(at.world, at.later, z, q, at.stored, verdict, max, before, after, answer);
    var records := RRSetOf(at.world[z].records, CanonicalName(q.name), q.rtype);
    if records == [] {
      assert Absent(f, q.name, q.rtype, answer.value.ttl);
    } else {
      assert Held(f, q.name, q.rtype, records) && PositiveAnswer(q, records, answer.value);
    }
  }

  /**
   On a cache filled by any run, every answer of a call is about the canonical query, and
   is NXDOMAIN exactly when the RRset was found absent, by the call itself or by the
   earlier one whose entry it met; otherwise it names a record that was found.
   */
  lemma {:induction false} AnswersAreExplained(events: seq<CacheEvent>, states: seq<Entries>,
                                               answers: seq<Option<Answer>>, max: int, i: nat, at: Moments,
                                               query: Query, verdict: RRSet -> bool, after: Entries,
                                               answer: Option<Answer>)
    requires CacheRun(events, states, answers, max) && i <= |events|
    requires KnownType(query.rtype) && answer.Some?
    requires Resolved(at, query, verdict, max, states[i], after, answer)
    ensures || ExplainedBy(OwnStore(at, query, verdict), Canonical(query), answer.value, true)
            || exists j :: 0 <= j < i && ExplainedBy(events[j], Canonical(query), answer.value, false)
  {
    var q := Canonical(query);
    RunGrounded(events, states, answers, max, i);
    if PositiveHit(states[i], q, at.first).Some? {
      var j := Filler(events, i, states[i], CacheKey(q.name, q.rtype, false));
      PositiveIsExplained(events[j], q, at.first, states[i]);
    } else if NegativeHit(states[i], q, at.second).Some? {
      var j := Filler(events, i, states[i], CacheKey(q.name, q.rtype, true));
      FilledNegative(events[j], q, states[i][CacheKey(q.name, q.rtype, true)]);
      assert ExplainedBy(events[j], q, answer.value, false);
    } else {
      FreshIsExplained(at, query, verdict, max, states[i], after, answer);
    }
  }

  lemma {:induction false} PositiveIsExplained(f: CacheEvent, q: Query, now: int, entries: Entries)
    requires PositiveHit(entries, q, now).Some? && KnownType(q.rtype)
    requires FilledBy(f, CacheKey(q.name, q.rtype, false), entries[CacheKey(q.name, q.rtype, false)])
    ensures ExplainedBy(f, q, PositiveHit(entries, q, now).value, false)
  {
    var records := FilledPositive(f, q, entries[CacheKey(q.name, q.rtype, false)]);
    HitRepeats(entries, q, now);
    FirstIsLeast(records);
    CachedAnswer(q, records, PositiveHit(entries, q, now).value);
  }

  /** The same question is answered from the cache until the TTL of the fresh answer has passed, and not after. */
  lemma {:induction false} AskedAgain(at: Moments, query: Query, verdict: RRSet -> bool, max: int,
                                      before: Entries, after: Entries, answer: Option<Answer>, now: int)
    requires var q := Canonical(query);
             Authoritative(at.world, at.later, q, at.stored, verdict, max, before, after, answer) && answer.Some?
    ensures var q := Canonical(query);
            if answer.value.nxdomain then NegativeHit(after, q, now).Some? <==> now < at.stored + answer.value.ttl
            else PositiveHit(after, q, now).Some? <==> now < at.stored + answer.value.ttl
  {
    var q := Canonical(query);
    var z :| z in at.world && IsRoute(at.world.Keys, q.name, z)
             && FromZone(at.world, at.later, z, q, at.stored, verdict, max, before, after, answer);
    var records := RRSetOf(at.world[z].records, CanonicalName(q.name), q.rtype);
    if records == [] {
      NegativeAgain(max, before, q, answer.value, at.stored, after, now);
    } else {
      PositiveAgain(max, before, q, records, at.stored, after, now);
    }
  }

  lemma {:induction false} NegativeAgain(max: int, before: Entries, q: Query, answer: Answer, stored: int,
                                         after: Entries, now: int)
    requires PutStep(max, before, CacheKey(q.name, q.rtype, true), CacheEntry([], true, answer.ttl, stored), after)
    ensures NegativeHit(after, q, now).Some? <==> now < stored + answer.ttl
  {
    StoredIsFound(max, before, CacheKey(q.name, q.rtype, true), CacheEntry([], true, answer.ttl, stored), after, now);
  }

  lemma {:induction false} PositiveAgain(max: int, before: Entries, q: Query, records: seq<Record>, stored: int,
                                         after: Entries, now: int)
    requires records != []
    requires PutStep(max, before, CacheKey(q.name, q.rtype, false),
                     CacheEntry(AsCached(records), false, MinTtl(records), stored), after)
    ensures PositiveHit(after, q, now).Some? <==> now < stored + MinTtl(records)
  {
    FirstIsLeast(records);
    StoredIsFound(max, before, CacheKey(q.name, q.rtype, false),
                  CacheEntry(AsCached(records), false, MinTtl(records), stored), after, now);
  }

  lemma {:induction false} StoredIsFound(max: int, before: Entries, key: string, e: CacheEntry, after: Entries,
                                         now: int)
    requires PutStep(max, before, key, e, after)
    ensures Got(after, key, now) == if now < e.storedAt + e.ttl then Some(Result(e.data, e.nxdomain, e.ttl)) else None
  {
    PutOrigin(max, before, key, e, after);
    GotUntilExpiry(after, key, now);
  }
}
