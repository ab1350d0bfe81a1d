/**
 The meaning of a record store: a flat map from (name, type, rdata) to TTL, with
 changes as single-key writes. Everything about replication, replay and rollback
 is argued on this map; the first part ties it to the nested store.
 */
module FlatStore {
  import opened Model
  import opened Names
  import opened Records

  datatype Key = Key(name: string, rtype: RecordType, rdata: string)

  type Flat = map<Key, uint32>

  // From store content to flat map

  ghost predicate Carries(rs: seq<Record>, rdata: string) {
    exists i :: 0 <= i < |rs| && rs[i].rdata == rdata
  }

  /** The TTL of the last record with the given rdata. */
  ghost function TtlOf(rs: seq<Record>, rdata: string): uint32 {
    if rs == [] then 0
    else if rs[|rs| - 1].rdata == rdata then rs[|rs| - 1].ttl
    else TtlOf(rs[..|rs| - 1], rdata)
  }

  ghost function KeysOf(c: Contents): set<Key> {
    set n, t, r | n in c && t in c[n] && r in c[n][t] :: Key(n, t, r.rdata)
  }

  ghost function FlatOf(c: Contents): Flat {
    map k | k in KeysOf(c) :: TtlOf(RRSetOf(c, k.name, k.rtype), k.rdata)
  }

  lemma {:induction false} FlatHas(c: Contents, k: Key)
    ensures k in FlatOf(c) <==> Carries(RRSetOf(c, k.name, k.rtype), k.rdata)
  {
    var rs := RRSetOf(c, k.name, k.rtype);
    if i :| 0 <= i < |rs| && rs[i].rdata == k.rdata {
      assert rs[i] in c[k.name][k.rtype];
    }
  }

  function At(m: Flat, k: Key): Option<uint32> {
    if k in m then Some(m[k]) else None
  }

  lemma {:induction false} SameFlat(a: Flat, b: Flat)
    requires forall k :: At(a, k) == At(b, k)
    ensures a == b
  {
    forall k ensures k in a <==> k in b {
      assert At(a, k) == At(b, k);
    }
    forall k | k in a ensures a[k] == b[k] {
      assert At(a, k) == At(b, k);
    }
  }

  // Changes on the flat map

  function KeyOf(ch: Change): Key {
    Key(CanonicalName(ch.record.name), ch.record.rtype, ch.record.rdata)
  }

  function Step(m: Flat, ch: Change): Flat {
    if ch.kind == DELETE then m - {KeyOf(ch)} else m[KeyOf(ch) := ch.record.ttl]
  }

  function Play(m: Flat, log: seq<Change>): Flat {
    if log == [] then m else Step(Play(m, log[..|log| - 1]), log[|log| - 1])
  }

  function ApplyAll(c: Contents, log: seq<Change>): Contents {
    if log == [] then c else Apply(ApplyAll(c, log[..|log| - 1]), log[|log| - 1])
  }

  ghost predicate AllAccepted(log: seq<Change>) {
    forall i :: 0 <= i < |log| ==> Accepted(log[i])
  }

  // Refinement

  lemma {:induction false} WithoutTtl(rs: seq<Record>, rdata: string, other: string)
    ensures Carries(Without(rs, rdata), other) <==> Carries(rs, other) && other != rdata
    ensures other != rdata ==> TtlOf(Without(rs, rdata), other) == TtlOf(rs, other)
  {
    if rs != [] {
      var front, last := rs[..|rs| - 1], rs[|rs| - 1];
      WithoutTtl(front, rdata, other);
      assert rs == front + [last];
      CarriesSnoc(front, last, other);
      CarriesSnoc(Without(front, rdata), last, other);
    }
  }

  lemma {:induction false} CarriesSnoc(rs: seq<Record>, r: Record, rdata: string)
    ensures Carries(rs + [r], rdata) <==> Carries(rs, rdata) || r.rdata == rdata
    ensures TtlOf(rs + [r], rdata) == if r.rdata == rdata then r.ttl else TtlOf(rs, rdata)
  {
    var rs' := rs + [r];
    assert rs'[..|rs|] == rs && rs'[|rs|] == r;
    if i :| 0 <= i < |rs| && rs[i].rdata == rdata {
      assert rs'[i].rdata == rdata;
    }
  }

  /** An accepted change writes one RRset: the old one without the rdata, plus the new record on an upsert. */
  lemma {:induction false} ApplyRRSet(c: Contents, ch: Change, n: string, t: RecordType)
    requires Accepted(ch)
    ensures var r := Stored(ch.record);
            RRSetOf(Apply(c, ch), n, t) ==
            if (n, t) != (r.name, r.rtype) then RRSetOf(c, n, t)
            else Without(RRSetOf(c, n, t), r.rdata) + if ch.kind == UPSERT then [r] else []
  {
    var r := Stored(ch.record);
    var byType := if r.name in c then c[r.name] else map[];
    var kept := Without(RRSetOf(c, r.name, r.rtype), r.rdata);
    if ch.kind == DELETE {
      assert kept + [] == kept;
      var byType' := if kept == [] then byType - {r.rtype} else byType[r.rtype := kept];
      if byType' == map[] {
        assert Apply(c, ch) == c - {r.name};
        assert t in byType && t != r.rtype ==> t in byType';
        assert kept != [] ==> r.rtype in byType';
      } else {
        assert Apply(c, ch) == c[r.name := byType'];
      }
    }
  }

  /** The flat map at a key, read off the RRset the key names. */
  lemma {:induction false} FlatAt(c: Contents, k: Key)
    ensures var rs := RRSetOf(c, k.name, k.rtype);
            At(FlatOf(c), k) == if Carries(rs, k.rdata) then Some(TtlOf(rs, k.rdata)) else None
  {
    FlatHas(c, k);
  }

  lemma {:induction false} ApplyAtKey(c: Contents, ch: Change, k: Key)
    requires Accepted(ch)
    ensures At(FlatOf(Apply(c, ch)), k) ==
            if k != KeyOf(ch) then At(FlatOf(c), k)
            else if ch.kind == DELETE then None else Some(ch.record.ttl)
  {
    var r := Stored(ch.record);
    var rs, rs' := RRSetOf(c, k.name, k.rtype), RRSetOf(Apply(c, ch), k.name, k.rtype);
    FlatAt(Apply(c, ch), k);
    FlatAt(c, k);
    ApplyRRSet(c, ch, k.name, k.rtype);
    if (k.name, k.rtype) == (r.name, r.rtype) {
      var kept := Without(rs, r.rdata);
      WithoutTtl(rs, r.rdata, k.rdata);
      if ch.kind == UPSERT {
        CarriesSnoc(kept, r, k.rdata);
      } else {
        assert rs' == kept;
      }
    } else {
      assert rs' == rs;
    }
  }

  /** Accepted changes on the nested store are single-key writes on the flat map. */
  lemma {:induction false} ApplyRefinesStep(c: Contents, ch: Change)
    requires Accepted(ch)
    ensures FlatOf(Apply(c, ch)) == Step(FlatOf(c), ch)
  {
    forall k ensures At(FlatOf(Apply(c, ch)), k) == At(Step(FlatOf(c), ch), k) {
      ApplyAtKey(c, ch, k);
    }
    SameFlat(FlatOf(Apply(c, ch)), Step(FlatOf(c), ch));
  }

  lemma {:induction false} ApplyAllRefinesPlay(c: Contents, log: seq<Change>)
    requires AllAccepted(log)
    ensures FlatOf(ApplyAll(c, log)) == Play(FlatOf(c), log)
    ensures WellFormed(c) ==> WellFormed(ApplyAll(c, log))
  {
    if log != [] {
      var front := log[..|log| - 1];
      assert Accepted(log[|log| - 1]);
      ApplyAllRefinesPlay(c, front);
      ApplyRefinesStep(ApplyAll(c, front), log[|log| - 1]);
      if WellFormed(c) {
        ApplyKeepsWellFormed(ApplyAll(c, front), log[|log| - 1]);
      }
    }
  }

  /** A change of unknown kind moves the records behind the one it names: that record is not the last of its RRset. */
  ghost predicate Displaces(c: Contents, ch: Change) {
    var rs := RRSetOf(c, CanonicalName(ch.record.name), ch.record.rtype);
    exists i :: 0 <= i < |rs| - 1 && rs[i].rdata == ch.record.rdata
  }

  /** The error of an unknown kind comes too late: the named record is gone if it was displaced. */
  lemma {:induction false} UnknownKindRemoves(c: Contents, ch: Change)
    requires WellFormed(c) && ValidRecord(ch.record) && !KnownKind(ch.kind)
    ensures FlatOf(Apply(c, ch)) == if Displaces(c, ch) then FlatOf(c) - {KeyOf(ch)} else FlatOf(c)
  {
    var after := if Displaces(c, ch) then FlatOf(c) - {KeyOf(ch)} else FlatOf(c);
    forall k ensures At(FlatOf(Apply(c, ch)), k) == At(after, k) {
      UnknownKindAt(c, ch, k);
    }
    SameFlat(FlatOf(Apply(c, ch)), after);
  }

  lemma {:induction false} UnknownKindAt(c: Contents, ch: Change, k: Key)
    requires WellFormed(c) && ValidRecord(ch.record) && !KnownKind(ch.kind)
    ensures At(FlatOf(Apply(c, ch)), k) == if Displaces(c, ch) && k == KeyOf(ch) then None else At(FlatOf(c), k)
  {
    var rs, rs' := RRSetOf(c, k.name, k.rtype), RRSetOf(Apply(c, ch), k.name, k.rtype);
    FlatAt(Apply(c, ch), k);
    FlatAt(c, k);
    ResidueRRSet(c, ch, k.name, k.rtype);
    if k.name == CanonicalName(ch.record.name) && k.rtype == ch.record.rtype {
      assert rs == [] || WellFormedRRSet(k.name, k.rtype, rs);
      ResidueTtl(rs, ch.record.rdata, k.rdata);
    } else {
      assert rs' == rs;
    }
  }

  lemma {:induction false} ResidueTtl(rs: seq<Record>, rdata: string, other: string)
    requires DistinctRData(rs)
    ensures var left := Without(rs, rdata) + rs[|Without(rs, rdata)|..];
            var gone := exists i :: 0 <= i < |rs| - 1 && rs[i].rdata == rdata;
            && (Carries(left, other) <==> Carries(rs, other) && !(gone && other == rdata))
            && (Carries(left, other) ==> TtlOf(left, other) == TtlOf(rs, other))
  {
    var kept := Without(rs, rdata);
    if p :| 0 <= p < |rs| && rs[p].rdata == rdata {
      WithoutAt(rs, rdata, p);
      if p < |rs| - 1 {
        var front, last := rs[..|rs| - 1], rs[|rs| - 1];
        assert rs == front + [last] && rs[|kept|..] == [last];
        WithoutTtl(rs, rdata, other);
        CarriesSnoc(kept, last, other);
        CarriesSnoc(front, last, other);
      } else {
        CompactionResidue(rs, rdata);
      }
    } else {
      CompactionResidue(rs, rdata);
    }
  }

  // Last writer wins

  ghost predicate Touches(log: seq<Change>, k: Key) {
    exists i :: 0 <= i < |log| && KeyOf(log[i]) == k
  }

  lemma {:induction false} TouchesSnoc(log: seq<Change>, ch: Change, k: Key)
    ensures Touches(log + [ch], k) <==> Touches(log, k) || KeyOf(ch) == k
  {
    var log' := log + [ch];
    assert log'[|log|] == ch;
    if i :| 0 <= i < |log| && KeyOf(log[i]) == k {
      assert KeyOf(log'[i]) == k;
    }
  }

  /** A key the log writes ends the same from every starting map; other keys are left alone. */
  lemma {:induction false} LastWriterWins(a: Flat, b: Flat, log: seq<Change>, k: Key)
    ensures Touches(log, k) ==> At(Play(a, log), k) == At(Play(b, log), k)
    ensures !Touches(log, k) ==> At(Play(a, log), k) == At(a, k)
  {
    if log != [] {
      var front, last := log[..|log| - 1], log[|log| - 1];
      assert log == front + [last];
      TouchesSnoc(front, last, k);
      LastWriterWins(a, b, front, k);
    }
  }

  lemma {:induction false} PlaySnoc(m: Flat, log: seq<Change>, ch: Change)
    ensures Play(m, log + [ch]) == Step(Play(m, log), ch)
  {
    assert (log + [ch])[..|log|] == log;
  }

  lemma {:induction false} ConcatSnoc<T>(a: seq<T>, b: seq<T>)
    requires b != []
    ensures a + b == a + b[..|b| - 1] + [b[|b| - 1]]
  {
  }

  lemma {:induction false} PlayConcat(m: Flat, first: seq<Change>, second: seq<Change>)
    ensures Play(m, first + second) == Play(Play(m, first), second)
  {
    if second == [] {
      assert first + second == first;
    } else {
      var front, last := second[..|second| - 1], second[|second| - 1];
      calc {
        Play(m, first + second);
        { ConcatSnoc(first, second); }
        Play(m, first + front + [last]);
        { PlaySnoc(m, first + front, last); }
        Step(Play(m, first + front), last);
        { PlayConcat(m, first, front); }
        Step(Play(Play(m, first), front), last);
        Play(Play(m, first), second);
      }
    }
  }

  /** Changes whose keys the log rewrites anyway can be applied before it, in any number, to no effect. */
  lemma {:induction false} Absorption(m: Flat, early: seq<Change>, log: seq<Change>)
    requires forall k :: Touches(early, k) ==> Touches(log, k)
    ensures Play(Play(m, early), log) == Play(m, log)
  {
    var a := Play(m, early);
    forall k ensures At(Play(a, log), k) == At(Play(m, log), k) {
      LastWriterWins(a, m, log, k);
      LastWriterWins(m, a, log, k);
      LastWriterWins(m, m, early, k);
    }
    SameFlat(Play(a, log), Play(m, log));
  }

  /** A log applied halfway and then applied again from its start ends where one full pass ends. */
  lemma {:induction false} PrefixAbsorption(m: Flat, log: seq<Change>, done: nat)
    requires done <= |log|
    ensures Play(Play(m, log[..done]), log) == Play(m, log)
  {
    forall k | Touches(log[..done], k) ensures Touches(log, k) {
      var i :| 0 <= i < done && KeyOf(log[..done][i]) == k;
      assert KeyOf(log[i]) == k;
    }
    Absorption(m, log[..done], log);
  }

  /**
   A change that one side made and the other did not: the two sides agree after a
   common log exactly when the log rewrites that key, or the change had no effect
   in the first place.
   */
  lemma {:induction false} OrphanChange(m: Flat, orphan: Change, log: seq<Change>)
    ensures Play(Step(m, orphan), log) == Play(m, log)
            <==> Touches(log, KeyOf(orphan)) || At(Step(m, orphan), KeyOf(orphan)) == At(m, KeyOf(orphan))
  {
    var k0 := KeyOf(orphan);
    var a := Step(m, orphan);
    forall k
      ensures k != k0 || Touches(log, k0) || At(a, k0) == At(m, k0) ==> At(Play(a, log), k) == At(Play(m, log), k)
    {
      LastWriterWins(a, m, log, k);
      LastWriterWins(m, a, log, k);
    }
    if Touches(log, k0) || At(a, k0) == At(m, k0) {
      SameFlat(Play(a, log), Play(m, log));
    } else {
      LastWriterWins(a, m, log, k0);
      LastWriterWins(m, a, log, k0);
    }
  }

  // Record sets

  ghost function RecordsOf(c: Contents): set<Record> {
    set n, t, r | n in c && t in c[n] && r in c[n][t] :: r
  }

  ghost function FlatRecords(m: Flat): set<Record> {
    set k | k in m :: Record(k.name, k.rtype, m[k], k.rdata)
  }

  lemma {:induction false} TtlOfMember(rs: seq<Record>, i: nat)
    requires DistinctRData(rs) && i < |rs|
    ensures TtlOf(rs, rs[i].rdata) == rs[i].ttl
  {
    if i < |rs| - 1 {
      TtlOfMember(rs[..|rs| - 1], i);
    }
  }

  /** The records of a well-formed store are exactly the entries of its flat map. */
  lemma {:induction false} RecordsAreFlat(c: Contents)
    requires WellFormed(c)
    ensures RecordsOf(c) == FlatRecords(FlatOf(c))
  {
    var m := FlatOf(c);
    forall r | r in RecordsOf(c) ensures r in FlatRecords(m) {
      var n, t :| n in c && t in c[n] && r in c[n][t];
      var i :| 0 <= i < |c[n][t]| && c[n][t][i] == r;
      assert WellFormedRRSet(n, t, c[n][t]);
      TtlOfMember(c[n][t], i);
      var k := Key(n, t, r.rdata);
      assert k in m && r == Record(k.name, k.rtype, m[k], k.rdata);
    }
    forall r | r in FlatRecords(m) ensures r in RecordsOf(c) {
      var k :| k in m && r == Record(k.name, k.rtype, m[k], k.rdata);
      FlatHas(c, k);
      var rs := RRSetOf(c, k.name, k.rtype);
      var i :| 0 <= i < |rs| && rs[i].rdata == k.rdata;
      assert WellFormedRRSet(k.name, k.rtype, rs);
      TtlOfMember(rs, i);
      assert rs[i] == r && rs[i] in c[k.name][k.rtype];
    }
  }
}
