/** The response cache: entries with a TTL, an eviction of the oldest when full, and a sweep. Times are seconds. */
module Caches {
  import opened Model
  import opened Names
  import opened RecordStore

  datatype Result = Result(records: seq<Record>, nxdomain: bool, ttl: uint32)

  datatype CacheEntry = CacheEntry(data: seq<Record>, nxdomain: bool, ttl: uint32, storedAt: int)

  type Entries = map<string, CacheEntry>

  function KindText(negative: bool): string {
    if negative then "neg" else "pos"
  }

  function CacheKey(name: string, t: RecordType, negative: bool): string {
    name + "\0" + TypeString(t) + "\0" + KindText(negative)
  }

  function ExpireTime(e: CacheEntry): int {
    e.storedAt + e.ttl
  }

  predicate Expired(e: CacheEntry, now: int) {
    now >= ExpireTime(e)
  }

  predicate NegativeValid(e: CacheEntry, now: int) {
    now - e.storedAt < e.ttl
  }

  /** There is an entry and its TTL has not passed. */
  predicate Unexpired(entries: Entries, key: string, now: int) {
    key in entries && now < entries[key].storedAt + entries[key].ttl
  }

  /** What a lookup finds, with the two expiry tests of the program. */
  function Got(entries: Entries, key: string, now: int): Option<Result> {
    if key !in entries || Expired(entries[key], now) then None
    else
      var e := entries[key];
      if e.nxdomain && !NegativeValid(e, now) then None else Some(Result(e.data, e.nxdomain, e.ttl))
  }

  function Swept(entries: Entries, now: int): Entries {
    map k | k in entries && !Expired(entries[k], now) :: entries[k]
  }

  ghost predicate Oldest(entries: Entries, key: string) {
    key in entries && forall k :: k in entries ==> entries[key].storedAt <= entries[k].storedAt
  }

  /** One of the oldest entries is gone, or nothing if there was nothing. */
  ghost predicate Evicted(before: Entries, after: Entries) {
    if before == map[] then after == before else exists victim :: Oldest(before, victim) && after == before - {victim}
  }

  /** Storing an entry, with an eviction when a new key meets a full cache. */
  ghost predicate PutStep(max: int, before: Entries, key: string, e: CacheEntry, after: Entries) {
    if |before| >= max && key !in before
    then exists rest :: Evicted(before, rest) && after == rest[key := e]
    else after == before[key := e]
  }

  // Keys

  /** Two lookups share an entry exactly when name, type text and kind agree, whatever bytes the name holds. */
  lemma {:induction false} CacheKeyInjective(n: string, t: RecordType, neg: bool, n': string, t': RecordType,
                                             neg': bool)
    ensures CacheKey(n, t, neg) == CacheKey(n', t', neg')
            <==> n == n' && neg == neg' && (t == t' || (!KnownType(t) && !KnownType(t')))
  {
    TypeStringInjective(t, t');
    TypeStringHasNoSeparator(t);
    TypeStringHasNoSeparator(t');
    LastSeparator(n + "\0" + TypeString(t), KindText(neg), n' + "\0" + TypeString(t'), KindText(neg'));
    LastSeparator(n, TypeString(t), n', TypeString(t'));
    assert KindText(neg)[0] != KindText(!neg)[0];
  }

  datatype TypedKey = TypedKey(name: string, rtype: RecordType, negative: bool)

  function TextOf(k: TypedKey): string {
    CacheKey(k.name, k.rtype, k.negative)
  }

  type TypedEntries = map<TypedKey, CacheEntry>

  /** The text-keyed map is the typed map under another name for its keys. */
  ghost predicate Refines(entries: Entries, typed: TypedEntries) {
    && (forall k :: k in typed ==> KnownType(k.rtype) && TextOf(k) in entries && entries[TextOf(k)] == typed[k])
    && (forall text :: text in entries ==> exists k :: k in typed && TextOf(k) == text)
  }

  lemma {:induction false} TextInjective(k: TypedKey, k': TypedKey)
    requires KnownType(k.rtype) && KnownType(k'.rtype)
    ensures TextOf(k) == TextOf(k') <==> k == k'
  {
    CacheKeyInjective(k.name, k.rtype, k.negative, k'.name, k'.rtype, k'.negative);
  }

  lemma {:induction false} RefinedLookup(entries: Entries, typed: TypedEntries, k: TypedKey)
    requires Refines(entries, typed) && KnownType(k.rtype)
    ensures TextOf(k) in entries <==> k in typed
    ensures k in typed ==> entries[TextOf(k)] == typed[k]
  {
    if TextOf(k) in entries {
      var k' :| k' in typed && TextOf(k') == TextOf(k);
      TextInjective(k, k');
    }
  }

  lemma {:induction false} RefinedInsert(entries: Entries, typed: TypedEntries, k: TypedKey, e: CacheEntry)
    requires Refines(entries, typed) && KnownType(k.rtype)
    ensures Refines(entries[TextOf(k) := e], typed[k := e])
  {
    var entries', typed' := entries[TextOf(k) := e], typed[k := e];
    forall k' | k' in typed'
      ensures KnownType(k'.rtype) && TextOf(k') in entries' && entries'[TextOf(k')] == typed'[k']
    {
      if k' != k {
        TextInjective(k, k');
      }
    }
    forall text | text in entries' ensures exists k' :: k' in typed' && TextOf(k') == text {
      if text == TextOf(k) {
        assert k in typed';
      } else {
        var k' :| k' in typed && TextOf(k') == text;
        assert k' in typed';
      }
    }
  }

  lemma {:induction false} RefinedRemove(entries: Entries, typed: TypedEntries, k: TypedKey)
    requires Refines(entries, typed) && KnownType(k.rtype)
    ensures Refines(entries - {TextOf(k)}, typed - {k})
  {
    var entries', typed' := entries - {TextOf(k)}, typed - {k};
    forall k' | k' in typed' ensures TextOf(k') in entries' && entries'[TextOf(k')] == typed'[k'] {
      TextInjective(k, k');
    }
    forall text | text in entries' ensures exists k' :: k' in typed' && TextOf(k') == text {
      var k' :| k' in typed && TextOf(k') == text;
      assert k' in typed';
    }
  }

  ghost predicate TypedOldest(typed: TypedEntries, v: TypedKey) {
    v in typed && forall k :: k in typed ==> typed[v].storedAt <= typed[k].storedAt
  }

  /** Storing in the typed map: one of the oldest entries is given up when a new key meets a full map, and only then. */
  ghost predicate TypedPut(max: int, typed: TypedEntries, k: TypedKey, e: CacheEntry, after: TypedEntries) {
    if |typed| >= max && k !in typed && typed != map[]
    then exists v :: TypedOldest(typed, v) && after == (typed - {v})[k := e]
    else after == typed[k := e]
  }

  /** A put on the text-keyed map is a put on the typed map, an oldest entry given up for an oldest entry. */
  lemma {:induction false} PutRefines(max: int, entries: Entries, typed: TypedEntries, k: TypedKey, e: CacheEntry,
                                      after: Entries) returns (typed': TypedEntries)
    requires Refines(entries, typed) && KnownType(k.rtype) && PutStep(max, entries, TextOf(k), e, after)
    ensures Refines(after, typed') && TypedPut(max, typed, k, e, typed')
  {
    SameSize(entries, typed);
    RefinedLookup(entries, typed, k);
    if |entries| >= max && TextOf(k) !in entries && entries != map[] {
      var rest :| Evicted(entries, rest) && after == rest[TextOf(k) := e];
      var victim :| Oldest(entries, victim) && rest == entries - {victim};
      var v := OldestRefines(entries, typed, victim);
      RefinedRemove(entries, typed, v);
      RefinedInsert(rest, typed - {v}, k, e);
      typed' := (typed - {v})[k := e];
    } else {
      RefinedInsert(entries, typed, k, e);
      typed' := typed[k := e];
    }
  }

  /** The two maps have the same number of entries. */
  lemma {:induction false} SameSize(entries: Entries, typed: TypedEntries)
    requires Refines(entries, typed)
    ensures |entries| == |typed|
    ensures entries == map[] <==> typed == map[]
    decreases |typed|
  {
    if typed == map[] {
      assert entries.Keys == {};
    } else {
      var k :| k in typed;
      var entries', typed' := entries - {TextOf(k)}, typed - {k};
      RefinedRemove(entries, typed, k);
      OneLess(entries, TextOf(k));
      TypedOneLess(typed, k);
      SameSize(entries', typed');
    }
  }

  lemma {:induction false} OneLess(entries: Entries, text: string)
    requires text in entries
    ensures |entries - {text}| == |entries| - 1
  {
    assert (entries - {text}).Keys == entries.Keys - {text};
  }

  lemma {:induction false} TypedOneLess(typed: TypedEntries, k: TypedKey)
    requires k in typed
    ensures |typed - {k}| == |typed| - 1
  {
    assert (typed - {k}).Keys == typed.Keys - {k};
  }

  /** Lookups agree: a typed key is found exactly when its text is, with the same entry. */
  lemma {:induction false} GetRefines(entries: Entries, typed: TypedEntries, k: TypedKey, now: int)
    requires Refines(entries, typed) && KnownType(k.rtype)
    ensures Got(entries, TextOf(k), now)
            == if k in typed && !Expired(typed[k], now)
               then Some(Result(typed[k].data, typed[k].nxdomain, typed[k].ttl)) else None
  {
    RefinedLookup(entries, typed, k);
    GotUntilExpiry(entries, TextOf(k), now);
  }

  function TypedSwept(typed: TypedEntries, now: int): TypedEntries {
    map k | k in typed && !Expired(typed[k], now) :: typed[k]
  }

  /** A sweep of the text-keyed map is a sweep of the typed map. */
  lemma {:induction false} SweepRefines(entries: Entries, typed: TypedEntries, now: int)
    requires Refines(entries, typed)
    ensures Refines(Swept(entries, now), TypedSwept(typed, now))
  {
    forall text | text in Swept(entries, now) ensures exists k :: k in TypedSwept(typed, now) && TextOf(k) == text {
      var k :| k in typed && TextOf(k) == text;
      assert k in TypedSwept(typed, now);
    }
  }

  lemma {:induction false} OldestRefines(entries: Entries, typed: TypedEntries, victim: string) returns (v: TypedKey)
    requires Refines(entries, typed) && Oldest(entries, victim)
    ensures TypedOldest(typed, v) && TextOf(v) == victim && KnownType(v.rtype)
  {
    v :| v in typed && TextOf(v) == victim;
    forall k | k in typed ensures typed[v].storedAt <= typed[k].storedAt {
      assert TextOf(k) in entries;
    }
  }

  // Size, expiry and sweeps

  function Bound(max: int): int {
    if max < 1 then 1 else max
  }

  /** After a put: the new entry, and otherwise entries from before. */
  lemma {:induction false} PutOrigin(max: int, before: Entries, key: string, e: CacheEntry, after: Entries)
    requires PutStep(max, before, key, e, after)
    ensures key in after && after[key] == e
    ensures forall k :: k in after && k != key ==> k in before && after[k] == before[k]
  {
  }

  /** The cache never outgrows its bound, however small the bound is set. */
  lemma {:induction false} PutKeepsBound(max: int, before: Entries, key: string, e: CacheEntry, after: Entries)
    requires PutStep(max, before, key, e, after) && |before| <= Bound(max)
    ensures |after| <= Bound(max)
    ensures |before| < max || key in before ==> before.Keys <= after.Keys
  {
    if |before| >= max && key !in before {
      var rest :| Evicted(before, rest) && after == rest[key := e];
      EvictedSize(before, rest);
      PutSize(rest, key, e);
    } else {
      PutSize(before, key, e);
    }
  }

  lemma {:induction false} EvictedSize(before: Entries, rest: Entries)
    requires Evicted(before, rest)
    ensures |rest| == if before == map[] then 0 else |before| - 1
    ensures rest.Keys <= before.Keys
  {
    if before != map[] {
      var victim :| Oldest(before, victim) && rest == before - {victim};
      OneLess(before, victim);
    }
  }

  lemma {:induction false} PutSize(entries: Entries, key: string, e: CacheEntry)
    ensures |entries[key := e]| == |entries| + if key in entries then 0 else 1
    ensures entries[key := e].Keys == entries.Keys + {key}
  {
    assert entries[key := e].Keys == entries.Keys + {key};
    if key in entries {
      assert entries.Keys + {key} == entries.Keys;
    }
  }

  /**
   A fresh entry is found until its TTL has passed and not after; the separate test for
   negative entries adds nothing.
   */
  lemma {:induction false} GotUntilExpiry(entries: Entries, key: string, now: int)
    ensures Got(entries, key, now)
            == if Unexpired(entries, key, now)
               then Some(Result(entries[key].data, entries[key].nxdomain, entries[key].ttl)) else None
  {
  }

  /** A sweep changes no later answer. */
  lemma {:induction false} SweepIsInvisible(entries: Entries, swept: int, key: string, now: int)
    requires swept <= now
    ensures Got(Swept(entries, swept), key, now) == Got(entries, key, now)
  {
    if key in entries && Expired(entries[key], swept) {
      assert Expired(entries[key], now);
    }
  }

  // The cache as an object

  class Cache {
    var entries: Entries
    const maxEntries: int

    /** Every key was made by CacheKey, so none is empty. */
    ghost predicate Valid()
      reads this
    {
      "" !in entries
    }

    constructor (maxEntries: int)
      ensures Valid() && entries == map[] && this.maxEntries == maxEntries
    {
      entries, this.maxEntries := map[], maxEntries;
    }

    method Get(name: string, t: RecordType, negative: bool, now: int) returns (result: Option<Result>)
      ensures result.Some? <==> Unexpired(entries, CacheKey(name, t, negative), now)
      ensures result.Some? ==> var e := entries[CacheKey(name, t, negative)];
                               result.value == Result(e.data, e.nxdomain, e.ttl)
    {
      var key := CacheKey(name, t, negative);
      if key !in entries || Expired(entries[key], now) {
        return None;
      }
      var e := entries[key];
      if e.nxdomain && !NegativeValid(e, now) {
        return None;
      }
      result := Some(Result(e.data, e.nxdomain, e.ttl));
    }

    method Put(name: string, t: RecordType, negative: bool, records: seq<Record>, ttl: uint32, now: int)
      requires Valid()
      modifies this
      ensures Valid()
      ensures PutStep(maxEntries, old(entries), CacheKey(name, t, negative),
                      CacheEntry(records, negative, ttl, now), entries)
    {
      var key := CacheKey(name, t, negative);
      assert |key| > 0;
      if |entries| >= maxEntries && key !in entries {
        Evict();
      }
      entries := entries[key := CacheEntry(records, negative, ttl, now)];
    }

    /** Walks the map in any order and removes the first of the oldest entries it met. */
    method Evict()
      requires Valid()
      modifies this
      ensures Valid() && Evicted(old(entries), entries)
    {
      var oldestKey, oldest := "", 0;
      var left := entries.Keys;
      while left != {}
        invariant left <= entries.Keys && entries == old(entries)
        invariant oldestKey == "" <==> left == entries.Keys
        invariant oldestKey != "" ==> oldestKey in entries && oldest == entries[oldestKey].storedAt
        invariant forall k :: k in entries && k !in left ==> oldest <= entries[k].storedAt
      {
        var key := Pick(left);
        left := left - {key};
        if oldestKey == "" || entries[key].storedAt < oldest {
          oldestKey, oldest := key, entries[key].storedAt;
        }
      }
      if oldestKey != "" {
        assert Oldest(entries, oldestKey);
        entries := entries - {oldestKey};
      } else {
        assert entries == map[];
      }
    }

    method SweepExpired(now: int) returns (removed: nat)
      requires Valid()
      modifies this
      ensures Valid() && entries == Swept(old(entries), now)
      ensures removed == |old(entries)| - |entries|
    {
      removed := 0;
      var left := entries.Keys;
      while left != {}
        invariant left <= entries.Keys <= old(entries).Keys
        invariant forall k :: k in entries ==> entries[k] == old(entries)[k]
        invariant forall k :: k in old(entries) && k !in left ==> (k in entries <==> !Expired(old(entries)[k], now))
        invariant removed == |old(entries)| - |entries|
      {
        var key := Pick(left);
        left := left - {key};
        if Expired(entries[key], now) {
          assert (entries - {key}).Keys == entries.Keys - {key};
          entries := entries - {key};
          removed := removed + 1;
        }
      }
    }
  }
}
