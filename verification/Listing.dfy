/**
 The canonical listing of a store: all records ordered by name, type and rdata.
 Because that key is unique in a well-formed store, the listing depends on the
 content alone and not on the order in which maps are walked or records arrived.
 */
module Listing {
  import opened Model
  import opened Names
  import opened Records
  import opened FlatStore
  import opened Sorting

  predicate RecordLess(a: Record, b: Record) {
    if a.name != b.name then StringLess(a.name, b.name)
    else if a.rtype != b.rtype then a.rtype.code < b.rtype.code
    else StringLess(a.rdata, b.rdata)
  }

  predicate RecordLe(a: Record, b: Record) {
    !RecordLess(b, a)
  }

  predicate SameKey(a: Record, b: Record) {
    a.name == b.name && a.rtype == b.rtype && a.rdata == b.rdata
  }

  ghost predicate StrictlySorted(s: seq<Record>) {
    forall i, j :: 0 <= i < j < |s| ==> RecordLess(s[i], s[j])
  }

  lemma {:induction false} RecordLessTotal(a: Record, b: Record)
    ensures RecordLess(a, b) || RecordLess(b, a) || SameKey(a, b)
    ensures !(RecordLess(a, b) && RecordLess(b, a))
    ensures SameKey(a, b) ==> !RecordLess(a, b)
  {
    StringLessTotal(a.name, b.name);
    StringLessTotal(a.rdata, b.rdata);
  }

  lemma {:induction false} RecordLessTransitive(a: Record, b: Record, c: Record)
    requires RecordLess(a, b) && RecordLess(b, c)
    ensures RecordLess(a, c)
  {
    StringLessTotal(a.name, b.name);
    if a.name != b.name && b.name != c.name {
      StringLessTransitive(a.name, b.name, c.name);
      StringLessTotal(a.name, c.name);
    }
    if a.name == b.name == c.name && a.rtype == b.rtype == c.rtype {
      StringLessTransitive(a.rdata, b.rdata, c.rdata);
    }
  }

  lemma {:induction false} RecordLeOrder()
    ensures TotalPreorder(RecordLe)
  {
    forall x, y ensures RecordLe(x, y) || RecordLe(y, x) {
      RecordLessTotal(x, y);
    }
    forall x, y, z | RecordLe(x, y) && RecordLe(y, z) ensures RecordLe(x, z) {
      RecordLessTotal(x, y);
      RecordLessTotal(y, z);
      if RecordLess(z, x) && !SameKey(y, z) {
        RecordLessTransitive(y, z, x);
      }
    }
  }

  ghost predicate DistinctKeys(s: seq<Record>) {
    forall i, j :: 0 <= i < j < |s| ==> !SameKey(s[i], s[j])
  }

  /** Two strictly sorted lists of the same records are the same list. */
  lemma {:induction false} StrictlySortedUnique(a: seq<Record>, b: seq<Record>)
    requires StrictlySorted(a) && StrictlySorted(b)
    requires forall r :: r in a <==> r in b
    ensures a == b
  {
    if a == [] {
      EmptyOrMember(b);
    } else {
      assert a[0] in b;
      assert b != [] && b[0] in a;
      var i :| 0 <= i < |b| && b[i] == a[0];
      var j :| 0 <= j < |a| && a[j] == b[0];
      RecordLessTotal(a[0], b[0]);
      assert a[0] == b[0];
      forall r ensures r in a[1..] <==> r in b[1..] {
        TailMembers(a, r);
        TailMembers(b, r);
      }
      StrictlySortedUnique(a[1..], b[1..]);
      assert a == [a[0]] + a[1..] && b == [b[0]] + b[1..];
    }
  }

  lemma {:induction false} EmptyOrMember(s: seq<Record>)
    ensures s == [] || exists r :: r in s
  {
    if s != [] {
      assert s[0] in s;
    }
  }

  lemma {:induction false} TailMembers(s: seq<Record>, r: Record)
    requires s != [] && StrictlySorted(s)
    ensures r in s[1..] <==> r in s && r != s[0]
  {
    assert s == [s[0]] + s[1..];
    if r in s[1..] {
      var i :| 0 <= i < |s[1..]| && s[1..][i] == r;
      assert RecordLess(s[0], s[i + 1]);
      RecordLessTotal(s[0], s[0]);
    }
  }

  lemma {:induction false} SortedDistinctIsStrict(s: seq<Record>)
    requires SortedBy(s, RecordLe) && DistinctKeys(s)
    ensures StrictlySorted(s)
  {
    forall i, j | 0 <= i < j < |s| ensures RecordLess(s[i], s[j]) {
      assert RecordLe(s[i], s[j]);
      RecordLessTotal(s[i], s[j]);
    }
  }

  lemma {:induction false} DistinctKeysPermute(s: seq<Record>, r: seq<Record>)
    requires DistinctKeys(s) && multiset(s) == multiset(r)
    ensures DistinctKeys(r)
  {
    forall i, j | 0 <= i < j < |r| ensures !SameKey(r[i], r[j]) {
      SameElements(s, r);
      if r[i] == r[j] {
        TwicePresent(r, i, j);
        assert multiset(s)[r[i]] >= 2;
        OncePresent(s, r[i]);
      } else {
        assert r[i] in s && r[j] in s;
        var p :| 0 <= p < |s| && s[p] == r[i];
        var q :| 0 <= q < |s| && s[q] == r[j];
        assert p != q;
      }
    }
  }

  lemma {:induction false} TwicePresent(s: seq<Record>, i: nat, j: nat)
    requires i < j < |s| && s[i] == s[j]
    ensures multiset(s)[s[i]] >= 2
  {
    assert s == s[..j] + [s[j]] + s[j + 1..];
    assert s[i] in s[..j];
  }

  lemma {:induction false} OncePresent(s: seq<Record>, r: Record)
    requires DistinctKeys(s)
    ensures multiset(s)[r] <= 1
  {
    if s != [] {
      var front, last := s[..|s| - 1], s[|s| - 1];
      assert s == front + [last];
      OncePresent(front, r);
      if last == r {
        forall i | 0 <= i < |front| ensures front[i] != r {
          assert !SameKey(s[i], s[|s| - 1]);
        }
      }
    }
  }

  // The listing as a function of content

  ghost function InSomeOrder(rs: set<Record>): (s: seq<Record>)
    ensures forall r :: r in s <==> r in rs
    ensures |s| == |rs|
  {
    if rs == {} then []
    else
      var r :| r in rs;
      [r] + InSomeOrder(rs - {r})
  }

  ghost function Listed(c: Contents): seq<Record> {
    Sort(InSomeOrder(RecordsOf(c)), RecordLe)
  }

  lemma {:induction false} DistinctOrder(rs: set<Record>)
    requires forall a, b :: a in rs && b in rs && a != b ==> !SameKey(a, b)
    ensures DistinctKeys(InSomeOrder(rs))
  {
    if rs != {} {
      var s := InSomeOrder(rs);
      var r := s[0];
      assert s[1..] == InSomeOrder(rs - {r});
      DistinctOrder(rs - {r});
      forall j | 0 < j < |s| ensures !SameKey(s[0], s[j]) {
        assert s[j] == s[1..][j - 1];
        assert s[j] in rs - {r};
      }
      forall i, j | 0 < i < j < |s| ensures !SameKey(s[i], s[j]) {
        assert s[i] == s[1..][i - 1] && s[j] == s[1..][j - 1];
      }
    }
  }

  lemma {:induction false} KeysAreUnique(c: Contents)
    requires WellFormed(c)
    ensures forall a, b :: a in RecordsOf(c) && b in RecordsOf(c) && a != b ==> !SameKey(a, b)
  {
    RecordsAreFlat(c);
  }

  /** The listing holds every record of the store once, in strictly ascending key order. */
  lemma {:induction false} ListedIsSorted(c: Contents)
    requires WellFormed(c)
    ensures StrictlySorted(Listed(c))
    ensures forall r :: r in Listed(c) <==> r in RecordsOf(c)
  {
    var s := InSomeOrder(RecordsOf(c));
    KeysAreUnique(c);
    DistinctOrder(RecordsOf(c));
    RecordLeOrder();
    SortSorts(s, RecordLe);
    DistinctKeysPermute(s, Listed(c));
    SortedDistinctIsStrict(Listed(c));
    SameElements(s, Listed(c));
  }

  /** The order spelled out: by name, then by the number of the type, then by rdata. */
  lemma {:induction false} ListingOrder(c: Contents, i: nat, j: nat)
    requires WellFormed(c) && i < j < |Listed(c)|
    ensures var a, b := Listed(c)[i], Listed(c)[j];
            || StringLess(a.name, b.name)
            || (a.name == b.name && a.rtype.code < b.rtype.code)
            || (a.name == b.name && a.rtype == b.rtype && StringLess(a.rdata, b.rdata))
  {
    ListedIsSorted(c);
    assert RecordLess(Listed(c)[i], Listed(c)[j]);
  }

  /** Well-formed stores with the same flat map list the same records in the same order, and conversely. */
  lemma {:induction false} ListingIsContent(c: Contents, d: Contents)
    requires WellFormed(c) && WellFormed(d)
    ensures Listed(c) == Listed(d) <==> FlatOf(c) == FlatOf(d)
  {
    ListedIsSorted(c);
    ListedIsSorted(d);
    RecordsAreFlat(c);
    RecordsAreFlat(d);
    if FlatOf(c) == FlatOf(d) {
      assert RecordsOf(c) == RecordsOf(d);
    }
    if Listed(c) == Listed(d) {
      assert RecordsOf(c) == RecordsOf(d);
      FlatFromRecords(FlatOf(c), FlatOf(d));
    }
  }

  lemma {:induction false} FlatFromRecords(m: Flat, w: Flat)
    requires FlatRecords(m) == FlatRecords(w)
    ensures m == w
  {
    forall k ensures At(m, k) == At(w, k) {
      FlatRecordAt(m, w, k);
      FlatRecordAt(w, m, k);
    }
    SameFlat(m, w);
  }

  lemma {:induction false} FlatRecordAt(m: Flat, w: Flat, k: Key)
    requires FlatRecords(m) == FlatRecords(w)
    ensures k in m ==> k in w && w[k] == m[k]
  {
    if k in m {
      var r := Record(k.name, k.rtype, m[k], k.rdata);
      assert r in FlatRecords(m);
      assert r in FlatRecords(w);
      var k' :| k' in w && r == Record(k'.name, k'.rtype, w[k'], k'.rdata);
      assert k' == k;
    }
  }
}
