/**
 The record store as the program keeps it: nested maps of slices, each slice a
 prefix of a backing array that changes rewrite in place. Every method is proved
 against the value-level description in module Records.
 */
module RecordStore {
  import opened Model
  import opened Names
  import opened Records
  import opened FlatStore
  import opened Sorting
  import opened Listing

  /** The first `len` cells of a backing array; the remaining cells are spare capacity. */
  datatype Slice = Slice(buf: array<Record>, len: nat)

  type SliceMap = map<string, map<RecordType, Slice>>

  ghost function Buffers(m: SliceMap): set<array<Record>> {
    set n, t | n in m && t in m[n] :: m[n][t].buf
  }

  /** Lengths fit, and no two RRsets share a backing array. */
  ghost predicate Separated(m: SliceMap) {
    && (forall n, t {:trigger m[n][t].buf} :: n in m && t in m[n] ==> m[n][t].len <= m[n][t].buf.Length)
    && (forall n, t, n', t' {:trigger m[n][t].buf, m[n'][t'].buf} ::
          n in m && t in m[n] && n' in m && t' in m[n'] && m[n][t].buf == m[n'][t'].buf ==> n == n' && t == t')
  }

  ghost function View(m: SliceMap): Contents
    requires Separated(m)
    reads Buffers(m)
  {
    map n | n in m :: map t | t in m[n] :: m[n][t].buf[..m[n][t].len]
  }

  function TypesOf(m: SliceMap, n: string): map<RecordType, Slice> {
    if n in m then m[n] else map[]
  }

  function RRSetsOf(c: Contents, n: string): map<RecordType, seq<Record>> {
    if n in c then c[n] else map[]
  }

  /** The slice map shows the content everywhere but at one RRset, whose slice may be in transit. */
  ghost predicate AgreesElsewhere(m: SliceMap, c: Contents, n: string, t: RecordType)
    requires Separated(m)
    reads Buffers(m)
  {
    && m.Keys == c.Keys
    && (forall n' :: n' in m ==> m[n'].Keys == c[n'].Keys)
    && (forall n', t' {:trigger m[n'][t'].buf} {:trigger c[n'][t']} ::
          n' in m && t' in m[n'] && (n', t') != (n, t) ==> m[n'][t'].buf[..m[n'][t'].len] == c[n'][t'])
  }

  ghost predicate SeparatedFrom(m: SliceMap, n: string, t: RecordType, buf: array<Record>) {
    forall n', t' {:trigger m[n'][t'].buf} ::
      n' in m && t' in m[n'] && (n', t') != (n, t) ==> m[n'][t'].buf != buf
  }

  lemma {:induction false} InstallSeparates(m: SliceMap, n: string, t: RecordType, s: Slice)
    requires Separated(m) && SeparatedFrom(m, n, t, s.buf) && s.len <= s.buf.Length
    ensures Separated(m[n := TypesOf(m, n)[t := s]])
    ensures Buffers(m[n := TypesOf(m, n)[t := s]]) <= Buffers(m) + {s.buf}
  {
    var m' := m[n := TypesOf(m, n)[t := s]];
    forall n', t' | n' in m' && t' in m'[n'] && (n', t') != (n, t)
      ensures n' in m && t' in m[n'] && m'[n'][t'] == m[n'][t']
    {
    }
  }

  lemma {:induction false} SameTypes(a: map<RecordType, seq<Record>>, b: map<RecordType, seq<Record>>)
    requires a.Keys == b.Keys && forall t :: t in a ==> a[t] == b[t]
    ensures a == b
  {
  }

  lemma {:induction false} SameNames(a: Contents, b: Contents)
    requires a.Keys == b.Keys && forall n :: n in a ==> a[n] == b[n]
    ensures a == b
  {
  }

  /** Pointwise agreement, from which equality with the view follows once and for all. */
  ghost predicate Shows(m: SliceMap, c: Contents)
    requires Separated(m)
    reads Buffers(m)
  {
    && m.Keys == c.Keys
    && (forall n :: n in m ==> m[n].Keys == c[n].Keys)
    && (forall n, t {:trigger m[n][t].buf} {:trigger c[n][t]} ::
          n in m && t in m[n] ==> m[n][t].buf[..m[n][t].len] == c[n][t])
  }

  lemma {:induction false} ShowsIsView(m: SliceMap, c: Contents)
    requires Separated(m) && Shows(m, c)
    ensures View(m) == c
  {
    var v := View(m);
    forall n | n in m ensures v[n] == c[n] {
      assert v[n].Keys == c[n].Keys;
      SameTypes(v[n], c[n]);
    }
    SameNames(v, c);
  }

  lemma {:induction false} ViewShows(m: SliceMap)
    requires Separated(m)
    ensures Shows(m, View(m))
  {
  }

  /** Installing a slice installs its cells. */
  lemma {:induction false} InstallShows(m: SliceMap, c: Contents, n: string, t: RecordType, s: Slice)
    requires Separated(m) && AgreesElsewhere(m, c, n, t)
    requires SeparatedFrom(m, n, t, s.buf) && s.len <= s.buf.Length
    requires Separated(m[n := TypesOf(m, n)[t := s]])
    ensures Shows(m[n := TypesOf(m, n)[t := s]], c[n := RRSetsOf(c, n)[t := s.buf[..s.len]]])
  {
    var m' := m[n := TypesOf(m, n)[t := s]];
    forall n', t' | n' in m' && t' in m'[n'] && (n', t') != (n, t)
      ensures n' in m && t' in m[n'] && m'[n'][t'] == m[n'][t']
    {
    }
  }

  lemma {:induction false} NothingInTransit(m: SliceMap, c: Contents, n: string, t: RecordType)
    requires Separated(m) && AgreesElsewhere(m, c, n, t) && t !in TypesOf(m, n)
    ensures Shows(m, c)
  {
  }

  /** A name given an entry although nothing is stored under it. */
  lemma {:induction false} EmptyNameShows(m: SliceMap, c: Contents, n: string)
    requires Separated(m) && Shows(m, c) && n !in m
    ensures Separated(m[n := map[]]) && Buffers(m[n := map[]]) <= Buffers(m)
    ensures Shows(m[n := map[]], c[n := map[]])
  {
  }

  function WithoutType(m: SliceMap, n: string, t: RecordType): SliceMap {
    var byType := TypesOf(m, n) - {t};
    if byType == map[] then m - {n} else m[n := byType]
  }

  lemma {:induction false} WithoutTypeEntries(m: SliceMap, n: string, t: RecordType, n': string, t': RecordType)
    ensures var m' := WithoutType(m, n, t);
            && (n' in m' && t' in m'[n'] ==> n' in m && t' in m[n'] && m'[n'][t'] == m[n'][t'] && (n', t') != (n, t))
  {
  }

  lemma {:induction false} DropSeparates(m: SliceMap, n: string, t: RecordType)
    requires Separated(m)
    ensures Separated(WithoutType(m, n, t)) && Buffers(WithoutType(m, n, t)) <= Buffers(m)
  {
    var m' := WithoutType(m, n, t);
    forall n', t' | n' in m' && t' in m'[n']
      ensures n' in m && t' in m[n'] && m'[n'][t'] == m[n'][t'] && (n', t') != (n, t)
    {
      WithoutTypeEntries(m, n, t, n', t');
    }
  }

  lemma {:induction false} NothingLeft<V>(byType: map<RecordType, V>)
    ensures byType == map[] <==> byType.Keys == {}
  {
  }

  /** A nested map without one entry, and without the name if that was its last. */
  ghost predicate Less<V>(m': map<string, map<RecordType, V>>, m: map<string, map<RecordType, V>>,
                          n: string, t: RecordType) {
    && (forall n' :: n' in m' <==> n' in m && (n' != n || m[n'].Keys - {t} != {}))
    && (forall n' :: n' in m' ==> m'[n'].Keys == if n' == n then m[n'].Keys - {t} else m[n'].Keys)
    && (forall n', t' :: n' in m' && t' in m'[n'] ==> t' in m[n'] && m'[n'][t'] == m[n'][t'])
  }

  lemma {:induction false} WithoutTypeIsLess(m: SliceMap, n: string, t: RecordType)
    requires n in m
    ensures Less(WithoutType(m, n, t), m, n, t)
  {
    NothingLeft(m[n] - {t});
  }

  lemma {:induction false} DeleteIsLess(c: Contents, n: string, t: RecordType)
    requires n in c
    ensures Less(DeleteFrom(c, n, RRSetsOf(c, n), t, []), c, n, t)
  {
    NothingLeft(c[n] - {t});
  }

  lemma {:induction false} LessShows(m': SliceMap, m: SliceMap, c': Contents, c: Contents, n: string, t: RecordType)
    requires Separated(m) && Separated(m') && AgreesElsewhere(m, c, n, t)
    requires Less(m', m, n, t) && Less(c', c, n, t)
    ensures Shows(m', c')
  {
    forall n', t' | n' in m' && t' in m'[n'] ensures m'[n'][t'].buf[..m'[n'][t'].len] == c'[n'][t'] {
      assert m'[n'][t'] == m[n'][t'] && c'[n'][t'] == c[n'][t'];
    }
  }

  /** Removing an RRset, and its name when nothing is left of it. */
  lemma {:induction false} DropShows(m: SliceMap, c: Contents, n: string, t: RecordType)
    requires Separated(m) && AgreesElsewhere(m, c, n, t)
    ensures var m' := WithoutType(m, n, t);
            && Separated(m') && Buffers(m') <= Buffers(m)
            && Shows(m', DeleteFrom(c, n, RRSetsOf(c, n), t, []))
  {
    DropSeparates(m, n, t);
    if n in m {
      WithoutTypeIsLess(m, n, t);
      DeleteIsLess(c, n, t);
      LessShows(WithoutType(m, n, t), m, DeleteFrom(c, n, RRSetsOf(c, n), t, []), c, n, t);
    } else {
      assert WithoutType(m, n, t) == m - {n} == m;
      assert DeleteFrom(c, n, RRSetsOf(c, n), t, []) == c - {n} == c;
    }
  }

  /**
   The loop behind `kept := xs[:0]`: it reads the array it is overwriting. The
   survivors end up at the front in order; cells from the new length on keep what
   they held.
   */
  method Compact(buf: array<Record>, len: nat, rdata: string) returns (kept: nat)
    requires len <= buf.Length
    modifies buf
    ensures kept <= len
    ensures buf[..kept] == Without(old(buf[..len]), rdata)
    ensures buf[kept..] == old(buf[kept..])
  {
    kept := 0;
    ghost var before := buf[..];
    for i := 0 to len
      invariant kept <= i
      invariant buf[..kept] == Without(before[..i], rdata)
      invariant buf[kept..] == before[kept..]
    {
      assert before[..i + 1][..i] == before[..i];
      assert buf[i] == buf[kept..][i - kept] == before[i];
      if buf[i].rdata != rdata {
        buf[kept] := buf[i];
        kept := kept + 1;
        assert buf[kept..] == before[kept - 1..][1..];
      }
    }
  }

  /** Appending after the first `len` cells: in place when there is room, else into a larger array. */
  method Append(buf: array<Record>, len: nat, r: Record) returns (s: Slice)
    requires len <= buf.Length
    modifies buf
    ensures s.len == len + 1 <= s.buf.Length
    ensures s.buf[..s.len] == old(buf[..len]) + [r]
    ensures s.buf == buf || fresh(s.buf)
  {
    if len < buf.Length {
      buf[len] := r;
      s := Slice(buf, len + 1);
    } else {
      var slack :| 0 <= slack;  // how far the runtime over-allocates is its own affair
      var grown := new Record[len + 1 + slack](i requires 0 <= i < len + 1 + slack reads buf
                                               => if i < buf.Length then buf[i] else r);
      s := Slice(grown, len + 1);
    }
  }

  method CopyOf(s: Slice) returns (copied: Slice)
    requires s.len <= s.buf.Length
    ensures fresh(copied.buf) && copied.len == copied.buf.Length == s.len
    ensures copied.buf[..] == s.buf[..s.len]
  {
    var buf := new Record[s.len](i requires 0 <= i < s.len reads s.buf => s.buf[i]);
    copied := Slice(buf, s.len);
  }

  class Store {
    var records: SliceMap

    ghost predicate Valid()
      reads this
    {
      Separated(records)
    }

    ghost function Contents(): Contents
      requires Valid()
      reads this, Buffers(records)
    {
      View(records)
    }

    constructor ()
      ensures Valid() && Contents() == map[]
      ensures Buffers(records) == {}
    {
      records := map[];
    }

    /** Compacts the RRset in its own backing array; every other RRset keeps its cells. */
    method CompactRRSet(n: string, t: RecordType, rdata: string) returns (s: Slice, kept: nat)
      requires Valid()
      modifies Buffers(records)
      ensures Valid() && AgreesElsewhere(records, old(Contents()), n, t)
      ensures SeparatedFrom(records, n, t, s.buf) && kept <= s.len <= s.buf.Length
      ensures s.buf in Buffers(records) || fresh(s.buf)
      ensures t in TypesOf(records, n) ==> s == TypesOf(records, n)[t]
      ensures s.buf[..kept] == Without(old(RRSetOf(Contents(), n, t)), rdata)
      ensures s.buf[..s.len] == s.buf[..kept] + old(RRSetOf(Contents(), n, t))[kept..]
    {
      if t in TypesOf(records, n) {
        s := TypesOf(records, n)[t];
      } else {
        var none := new Record[0];
        s := Slice(none, 0);
      }
      ghost var before := s.buf[..];
      kept := Compact(s.buf, s.len, rdata);
      assert s.buf[kept..] == before[kept..];
      SameTail(s.buf[..], before, kept, s.len);
    }

    method Install(n: string, t: RecordType, s: Slice, ghost c: Contents)
      requires Valid() && AgreesElsewhere(records, c, n, t)
      requires SeparatedFrom(records, n, t, s.buf) && s.len <= s.buf.Length
      modifies this
      ensures Valid() && Contents() == c[n := RRSetsOf(c, n)[t := s.buf[..s.len]]]
      ensures Buffers(records) <= old(Buffers(records)) + {s.buf}
    {
      InstallSeparates(records, n, t, s);
      InstallShows(records, c, n, t, s);
      records := records[n := TypesOf(records, n)[t := s]];
      ShowsIsView(records, c[n := RRSetsOf(c, n)[t := s.buf[..s.len]]]);
    }

    /** The end of a delete: what the compaction left is stored, or its map entries go. */
    method KeepRest(n: string, t: RecordType, rest: Slice, ghost c: Contents)
      requires Valid() && AgreesElsewhere(records, c, n, t)
      requires SeparatedFrom(records, n, t, rest.buf) && rest.len <= rest.buf.Length
      modifies this
      ensures Valid()
      ensures Contents() == DeleteFrom(c, n, RRSetsOf(c, n), t, rest.buf[..rest.len])
      ensures Buffers(records) <= old(Buffers(records)) + {rest.buf}
    {
      if rest.len == 0 {
        DropShows(records, c, n, t);
        records := WithoutType(records, n, t);
        ShowsIsView(records, DeleteFrom(c, n, RRSetsOf(c, n), t, []));
      } else {
        assert t in RRSetsOf(c, n)[t := rest.buf[..rest.len]];
        Install(n, t, rest, c);
      }
    }

    /** A name gets an entry although nothing is stored under it. */
    method Touch(n: string, t: RecordType, ghost c: Contents)
      requires Valid() && AgreesElsewhere(records, c, n, t) && t !in TypesOf(records, n)
      modifies this
      ensures Valid() && Contents() == c[n := RRSetsOf(c, n)]
      ensures Buffers(records) <= old(Buffers(records))
    {
      NothingInTransit(records, c, n, t);
      assert n in records ==> c[n := RRSetsOf(c, n)] == c;
      if n !in records {
        EmptyNameShows(records, c, n);
        records := records[n := map[]];
      }
      ShowsIsView(records, c[n := RRSetsOf(c, n)]);
    }

    /** The kind turns out to be unknown: the RRset keeps its length, compacted as its cells are by now. */
    method KeepResidue(n: string, t: RecordType, s: Slice, ghost c: Contents)
      requires Valid() && AgreesElsewhere(records, c, n, t)
      requires SeparatedFrom(records, n, t, s.buf) && s.len <= s.buf.Length
      modifies this
      ensures Valid()
      ensures Contents() == c[n := if t in RRSetsOf(c, n) then RRSetsOf(c, n)[t := s.buf[..s.len]] else RRSetsOf(c, n)]
      ensures Buffers(records) <= old(Buffers(records)) + {s.buf}
    {
      if t in TypesOf(records, n) {
        Install(n, t, s, c);
      } else {
        Touch(n, t, c);
      }
    }

    method Apply(ch: Change) returns (applied: Record, ok: bool)
      requires Valid()
      modifies this, Buffers(records)
      ensures Valid()
      ensures Contents() == Records.Apply(old(Contents()), ch)
      ensures ok == Accepted(ch)
      ensures ok ==> applied == AppliedRecord(ch)
      ensures fresh(Buffers(records) - old(Buffers(records)))
    {
      applied, ok := ch.record, false;
      if !ValidRecord(ch.record) {
        return;
      }
      var r := Stored(ch.record);
      ghost var c := Contents();
      var s, len := CompactRRSet(r.name, r.rtype, r.rdata);
      ghost var buf;
      applied, ok, buf := Conclude(ch, s, len, c);
    }

    /** What each kind does once the RRset is compacted. */
    method Conclude(ch: Change, s: Slice, len: nat, ghost c: Contents)
      returns (applied: Record, ok: bool, ghost buf: array<Record>)
      requires ValidRecord(ch.record) && Valid()
      requires var r := Stored(ch.record);
               && AgreesElsewhere(records, c, r.name, r.rtype) && SeparatedFrom(records, r.name, r.rtype, s.buf)
               && len <= s.len <= s.buf.Length
               && s.buf[..len] == Without(RRSetOf(c, r.name, r.rtype), r.rdata)
               && s.buf[..s.len] == s.buf[..len] + RRSetOf(c, r.name, r.rtype)[len..]
      modifies this, s.buf
      ensures Valid() && Contents() == Records.Apply(c, ch)
      ensures ok == Accepted(ch) && (ok ==> applied == AppliedRecord(ch))
      ensures Buffers(records) <= old(Buffers(records)) + {buf} && (buf == s.buf || fresh(buf))
    {
      var r := Stored(ch.record);
      buf := s.buf;
      if ch.kind == DELETE {
        KeepRest(r.name, r.rtype, Slice(s.buf, len), c);
        return r, true, buf;
      }
      if ch.kind != UPSERT {
        KeepResidue(r.name, r.rtype, s, c);
        return ch.record, false, buf;
      }
      buf := AppendRecord(r.name, r.rtype, Slice(s.buf, len), r, c);
      applied, ok := ch.record, true;
    }

    /** The end of an upsert: the record goes behind what the compaction left. */
    method AppendRecord(n: string, t: RecordType, rest: Slice, r: Record, ghost c: Contents)
      returns (ghost buf: array<Record>)
      requires Valid() && AgreesElsewhere(records, c, n, t)
      requires SeparatedFrom(records, n, t, rest.buf) && rest.len <= rest.buf.Length
      modifies this, rest.buf
      ensures Valid()
      ensures Contents() == c[n := RRSetsOf(c, n)[t := old(rest.buf[..rest.len]) + [r]]]
      ensures Buffers(records) <= old(Buffers(records)) + {buf} && (buf == rest.buf || fresh(buf))
    {
      var grown := Append(rest.buf, rest.len, r);
      assert AgreesElsewhere(records, c, n, t);
      Install(n, t, grown, c);
      buf := grown.buf;
    }

    /** A fresh copy of the RRset: later changes cannot reach it. */
    method Lookup(name: string, t: RecordType) returns (copied: array<Record>, ok: bool)
      requires Valid()
      ensures fresh(copied) && copied[..] == RRSetOf(Contents(), CanonicalName(name), t)
      ensures ok <==> copied.Length > 0
    {
      var key := CanonicalName(name);
      if t in TypesOf(records, key) {
        var s := CopyOf(records[key][t]);
        return s.buf, s.len > 0;
      }
      copied := new Record[0];
      ok := false;
    }

    /** Appends the records stored under one name. */
    method Gather(n: string, found: seq<Record>, ghost d: Contents, ghost c: Contents) returns (more: seq<Record>)
      requires Valid() && Shows(records, c) && n in records && n !in d && Lists(found, d)
      ensures Lists(more, d[n := c[n]])
    {
      more := found;
      ghost var byType := c[n];
      ghost var inner: map<RecordType, seq<Record>> := map[];
      var types := records[n].Keys;
      ListsNothingMore(found, d, n);
      while types != {}
        invariant types <= records[n].Keys
        invariant Lists(more, d[n := inner])
        invariant inner.Keys == byType.Keys - types
        invariant forall t :: t in inner ==> inner[t] == byType[t]
      {
        var t := Pick(types);
        types := types - {t};
        var s := records[n][t];
        assert s.buf[..s.len] == byType[t];
        ListsMore(more, d, n, inner, t, byType[t]);
        more := more + s.buf[..s.len];
        inner := inner[t := byType[t]];
      }
      SameTypes(inner, byType);
    }

    method GatherAll(ghost c: Contents) returns (found: seq<Record>)
      requires Valid() && Shows(records, c)
      ensures Lists(found, c)
    {
      found := [];
      ghost var d: Contents := map[];
      var names := records.Keys;
      while names != {}
        invariant names <= records.Keys
        invariant Lists(found, d) && PartOf(d, c, names)
      {
        var n := Pick(names);
        names := names - {n};
        found := Gather(n, found, d, c);
        d := d[n := c[n]];
      }
      SameNames(d, c);
    }

    /** Every record, in key order whatever order the maps are walked in. */
    method All() returns (out: seq<Record>)
      requires Valid()
      ensures SortedBy(out, RecordLe)
      ensures forall r :: r in out <==> r in RecordsOf(Contents())
      ensures WellFormed(Contents()) ==> out == Listed(Contents())
    {
      ViewShows(records);
      var found := GatherAll(Contents());
      out := Sort(found, RecordLe);
      SortedListing(found, Contents());
    }

    /** All names with an entry, in byte order, each once. */
    method Names() returns (names: seq<string>)
      requires Valid()
      ensures forall n :: n in names <==> n in Contents()
      ensures Ascending(names)
    {
      names := [];
      var left := records.Keys;
      while left != {}
        invariant left <= records.Keys
        invariant forall n :: n in names <==> n in records && n !in left
        invariant Distinct(names)
      {
        var n := Pick(left);
        left := left - {n};
        names := names + [n];
      }
      SortedNames(names);
      names := Sort(names, StringLe);
    }

    /** A deep copy: equal content, no shared arrays. */
    method Snapshot() returns (copied: SliceMap)
      requires Valid()
      ensures Separated(copied) && fresh(Buffers(copied))
      ensures View(copied) == old(Contents()) == Contents()
    {
      ghost var c := Contents();
      ViewShows(records);
      copied := CopyAll(records, c);
      ShowsIsView(copied, c);
      StoreUntouched(this);
    }

    method Restore(snapshot: SliceMap)
      requires Separated(snapshot)
      modifies this
      ensures records == snapshot
    {
      records := snapshot;
    }
  }

  lemma {:induction false} SameTail(now: seq<Record>, before: seq<Record>, kept: nat, len: nat)
    requires |now| == |before| && kept <= len <= |now| && now[kept..] == before[kept..]
    ensures now[..len] == now[..kept] + before[..len][kept..]
  {
    assert now[..len] == now[..kept] + now[kept..][..len - kept];
    assert before[..len][kept..] == before[kept..][..len - kept];
  }

  /** Content depends on the store's map and cells alone. */
  twostate lemma {:induction false} StoreUntouched(store: Store)
    requires old(store.Valid()) && store.records == old(store.records)
    requires forall b :: b in Buffers(store.records) ==> b[..] == old(b[..])
    ensures store.Contents() == old(store.Contents())
  {
    ShowsIsView(store.records, old(store.Contents()));
  }

  ghost predicate Distinct(s: seq<string>) {
    forall i, j :: 0 <= i < j < |s| ==> s[i] != s[j]
  }

  ghost predicate Ascending(s: seq<string>) {
    forall i, j :: 0 <= i < j < |s| ==> StringLess(s[i], s[j])
  }

  lemma {:induction false} DistinctOnce(s: seq<string>, x: string)
    requires Distinct(s)
    ensures multiset(s)[x] <= 1
  {
    if s != [] {
      var rest := s[1..];
      assert s == [s[0]] + rest;
      assert Distinct(rest) by {
        forall i, j | 0 <= i < j < |rest| ensures rest[i] != rest[j] {
          assert rest[i] == s[i + 1] && rest[j] == s[j + 1];
        }
      }
      DistinctOnce(rest, x);
      forall j | 0 <= j < |rest| ensures rest[j] != s[0] {
        assert rest[j] == s[j + 1];
      }
      assert s[0] !in rest;
    }
  }

  lemma {:induction false} OnceIsDistinct(s: seq<string>, i: nat, j: nat)
    requires i < j < |s| && multiset(s)[s[i]] <= 1
    ensures s[i] != s[j]
  {
    var front, back := s[..j], s[j..];
    assert s == front + back;
    assert front[i] == s[i] && s[i] in front && back[0] == s[j];
    assert multiset(s)[s[i]] == multiset(front)[s[i]] + multiset(back)[s[i]];
  }

  lemma {:induction false} SortedNames(names: seq<string>)
    requires Distinct(names)
    ensures Ascending(Sort(names, StringLe))
    ensures forall n :: n in Sort(names, StringLe) <==> n in names
  {
    var sorted := Sort(names, StringLe);
    StringLeOrder();
    SortSorts(names, StringLe);
    SameElements(names, sorted);
    forall i, j | 0 <= i < j < |sorted| ensures StringLess(sorted[i], sorted[j]) {
      DistinctOnce(names, sorted[i]);
      OnceIsDistinct(sorted, i, j);
      StringLessTotal(sorted[i], sorted[j]);
    }
  }

  /** One step of walking a map: the order is up to the runtime. */
  method Pick<T>(s: set<T>) returns (x: T)
    requires s != {}
    ensures x in s
  {
    x :| x in s;
  }

  /** The content of every name but those left over. */
  ghost predicate PartOf(d: Contents, c: Contents, left: set<string>) {
    d.Keys == c.Keys - left && forall n :: n in d ==> d[n] == c[n]
  }

  lemma {:induction false} OverwriteName(d: Contents, n: string, a: map<RecordType, seq<Record>>,
                                         b: map<RecordType, seq<Record>>)
    ensures d[n := a][n := b] == d[n := b]
  {
  }

  method InstallCopy(m: SliceMap, ghost d: Contents, n: string, ghost inner: map<RecordType, seq<Record>>,
                     t: RecordType, s: Slice) returns (more: SliceMap)
    requires Separated(m) && Shows(m, d[n := inner])
    requires s.buf !in Buffers(m) && s.len <= s.buf.Length
    ensures Separated(more) && Buffers(more) <= Buffers(m) + {s.buf}
    ensures Shows(more, d[n := inner[t := s.buf[..s.len]]])
  {
    assert SeparatedFrom(m, n, t, s.buf) by {
      forall n', t' | n' in m && t' in m[n'] ensures m[n'][t'].buf in Buffers(m) {
      }
    }
    InstallSeparates(m, n, t, s);
    InstallShows(m, d[n := inner], n, t, s);
    OverwriteName(d, n, inner, inner[t := s.buf[..s.len]]);
    more := m[n := m[n][t := s]];
  }

  /** The slices of one name show these lists. */
  ghost predicate ShowsName(slices: map<RecordType, Slice>, byType: map<RecordType, seq<Record>>)
    reads set t | t in slices :: slices[t].buf
  {
    && slices.Keys == byType.Keys
    && forall t :: t in slices ==> slices[t].len <= slices[t].buf.Length && slices[t].buf[..slices[t].len] == byType[t]
  }

  /** The lists of one name but those left over. */
  ghost predicate PartOfName(inner: map<RecordType, seq<Record>>, byType: map<RecordType, seq<Record>>,
                             left: set<RecordType>) {
    inner.Keys == byType.Keys - left && forall t :: t in inner ==> inner[t] == byType[t]
  }

  lemma {:induction false} PartOfNameGrows(inner: map<RecordType, seq<Record>>, byType: map<RecordType, seq<Record>>,
                                           left: set<RecordType>, t: RecordType)
    requires t in byType && t in left && PartOfName(inner, byType, left)
    ensures PartOfName(inner[t := byType[t]], byType, left - {t})
  {
  }

  method CopyOne(s: Slice, t: RecordType, n: string, m: SliceMap, ghost d: Contents,
                 ghost inner: map<RecordType, seq<Record>>) returns (more: SliceMap)
    requires s.len <= s.buf.Length
    requires Separated(m) && Shows(m, d[n := inner])
    ensures Separated(more) && (forall b :: b in Buffers(more) ==> b in Buffers(m) || fresh(b))
    ensures Shows(more, d[n := inner[t := s.buf[..s.len]]])
  {
    var copy := CopyOf(s);
    assert copy.buf[..copy.len] == s.buf[..s.len];
    more := InstallCopy(m, d, n, inner, t, copy);
  }

  /** Copies the RRsets of one name into a slice map that lacks it. */
  method CopyName(slices: map<RecordType, Slice>, ghost byType: map<RecordType, seq<Record>>, n: string,
                  copied: SliceMap, ghost d: Contents) returns (more: SliceMap)
    requires ShowsName(slices, byType) && n !in d
    requires Separated(copied) && Shows(copied, d)
    ensures Separated(more) && (forall b :: b in Buffers(more) ==> b in Buffers(copied) || fresh(b))
    ensures Shows(more, d[n := byType])
  {
    more := copied[n := map[]];
    ghost var inner: map<RecordType, seq<Record>> := map[];
    var types := slices.Keys;
    EmptyNameShows(copied, d, n);
    while types != {}
      invariant types <= slices.Keys
      invariant Separated(more) && (forall b :: b in Buffers(more) ==> b in Buffers(copied) || fresh(b))
      invariant Shows(more, d[n := inner]) && PartOfName(inner, byType, types)
    {
      var t := Pick(types);
      more := CopyOne(slices[t], t, n, more, d, inner);
      PartOfNameGrows(inner, byType, types, t);
      types, inner := types - {t}, inner[t := byType[t]];
    }
    SameTypes(inner, byType);
  }

  lemma {:induction false} NameShown(m: SliceMap, c: Contents, n: string)
    requires Separated(m) && Shows(m, c) && n in m
    ensures n in c && ShowsName(m[n], c[n])
  {
  }

  lemma {:induction false} PartGrows(d: Contents, c: Contents, left: set<string>, n: string)
    requires n in c && n in left && PartOf(d, c, left)
    ensures PartOf(d[n := c[n]], c, left - {n})
  {
  }

  method CopyAll(m: SliceMap, ghost c: Contents) returns (copied: SliceMap)
    requires Separated(m) && Shows(m, c)
    ensures Separated(copied) && fresh(Buffers(copied))
    ensures Shows(copied, c)
  {
    ghost var d: Contents := map[];
    copied := map[];
    var names := m.Keys;
    while names != {}
      invariant names <= m.Keys
      invariant Shows(m, c)
      invariant Separated(copied) && forall b :: b in Buffers(copied) ==> fresh(b)
      invariant Shows(copied, d) && PartOf(d, c, names)
    {
      var n := Pick(names);
      NameShown(m, c, n);
      copied := CopyName(m[n], c[n], n, copied, d);
      PartGrows(d, c, names, n);
      names, d := names - {n}, d[n := c[n]];
    }
    SameNames(d, c);
  }

  /** The list holds the records of the content and, if that is well formed, no key twice. */
  ghost predicate Lists(found: seq<Record>, c: Contents) {
    && (forall r :: r in found <==> r in RecordsOf(c))
    && (WellFormed(c) ==> DistinctKeys(found))
  }

  lemma {:induction false} ListsNothingMore(found: seq<Record>, c: Contents, n: string)
    requires Lists(found, c) && n !in c
    ensures Lists(found, c[n := map[]])
  {
    var c' := c[n := map[]];
    forall r ensures r in RecordsOf(c') <==> r in RecordsOf(c) {
      if r in RecordsOf(c) {
        var n', t' :| n' in c && t' in c[n'] && r in c[n'][t'];
        assert c'[n'][t'] == c[n'][t'];
      }
    }
    if WellFormed(c') {
      forall n', t' | n' in c && t' in c[n'] ensures Lowered(n') && WellFormedRRSet(n', t', c[n'][t']) {
        assert c'[n'][t'] == c[n'][t'];
      }
    }
  }

  lemma {:induction false} ListsMore(found: seq<Record>, d: Contents, n: string, inner: map<RecordType, seq<Record>>,
                  t: RecordType, rs: seq<Record>)
    requires t !in inner && Lists(found, d[n := inner])
    ensures Lists(found + rs, d[n := inner[t := rs]])
  {
    var c, c', all := d[n := inner], d[n := inner[t := rs]], found + rs;
    forall r ensures r in all <==> r in RecordsOf(c') {
      if r in RecordsOf(c') {
        var n', t' :| n' in c' && t' in c'[n'] && r in c'[n'][t'];
        assert r !in rs ==> n' in c && t' in c[n'] && r in c[n'][t'];
      }
      if r in RecordsOf(c) {
        var n', t' :| n' in c && t' in c[n'] && r in c[n'][t'];
        assert c'[n'][t'] == c[n'][t'];
      }
      if r in rs {
        assert r in c'[n][t];
      }
    }
    if WellFormed(c') {
      forall n', t' | n' in c && t' in c[n'] ensures Lowered(n') && WellFormedRRSet(n', t', c[n'][t']) {
        assert c'[n'][t'] == c[n'][t'];
      }
      assert WellFormedRRSet(n, t, rs) by {
        assert c'[n][t] == rs;
      }
      forall i, j | 0 <= i < j < |all| ensures !SameKey(all[i], all[j]) {
        if i < |found| <= j {
          assert all[j] == rs[j - |found|] && found[i] in found;
          var n', t' :| n' in c && t' in c[n'] && found[i] in c[n'][t'];
          var k :| 0 <= k < |c[n'][t']| && c[n'][t'][k] == found[i];
          assert WellFormedRRSet(n', t', c[n'][t']);
        } else if |found| <= i {
          assert all[i] == rs[i - |found|] && all[j] == rs[j - |found|];
        }
      }
    }
  }

  /** Sorting any list of a store's records gives the canonical listing. */
  lemma {:induction false} SortedListing(found: seq<Record>, c: Contents)
    requires Lists(found, c)
    ensures SortedBy(Sort(found, RecordLe), RecordLe)
    ensures forall r :: r in Sort(found, RecordLe) <==> r in RecordsOf(c)
    ensures WellFormed(c) ==> Sort(found, RecordLe) == Listed(c)
  {
    var out := Sort(found, RecordLe);
    RecordLeOrder();
    SortSorts(found, RecordLe);
    SameElements(found, out);
    if WellFormed(c) {
      DistinctKeysPermute(found, out);
      SortedDistinctIsStrict(out);
      ListedIsSorted(c);
      StrictlySortedUnique(out, Listed(c));
    }
  }
}
