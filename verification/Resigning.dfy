/** What re-signing does to the stored signatures, and when an RRset counts as signed. */
module Resigning {
  import opened Model
  import opened Names
  import opened Sorting
  import opened Records
  import opened Validation
  import opened Keyrings
  import opened Wire
  import opened Signers

  // Signed RRsets

  ghost predicate Genuine(key: Key, rrset: RRSet, sig: RRSIG) {
    exists nonce :: sig.data == Sign(key.secret, Payload(rrset, sig.expires, sig.incept, sig.keyID), nonce)
  }

  /** A stored signature over the current list, by a key that will be tried. */
  ghost predicate Covered(c: Contents, ring: Ring, sigs: Signatures, n: string, t: RecordType) {
    var key := SignatureKey(n, t);
    && key in sigs
    && sigs[key].keyID in ring.verifying && sigs[key].keyID in ring.keys
    && Genuine(ring.keys[sigs[key].keyID], RRSet(n, t, RRSetOf(c, n, t)), sigs[key])
  }

  /** What is visible has a managed type and a fixed-point name. */
  lemma {:induction false} VisibleIsManaged(c: Contents, n: string, t: RecordType)
    requires Reappliable(c) && RRSetOf(c, n, t) != []
    ensures t in MANAGED && KnownType(t) && CanonicalName(n) == n
  {
    var rs := RRSetOf(c, n, t);
    assert WellFormedRRSet(n, t, rs) && ReappliableRRSet(n, rs);
    assert ValidRecord(rs[0]) && rs[0].rtype == t;
    assert MANAGED[0] == TYPE_A && MANAGED[1] == TYPE_AAAA && MANAGED[2] == TYPE_CNAME;
    assert MANAGED[3] == TYPE_MX && MANAGED[4] == TYPE_TXT && MANAGED[5] == TYPE_NS;
  }

  // What re-signing does to the stored signatures

  ghost predicate Listed(rrsets: seq<RRSet>, n: string, t: RecordType) {
    exists i :: 0 <= i < |rrsets| && rrsets[i].name == n && rrsets[i].rtype == t
  }

  /** Every listed RRset is what a lookup of its name and type finds. */
  ghost predicate Current(c: Contents, rrsets: seq<RRSet>) {
    forall i :: 0 <= i < |rrsets| ==>
      rrsets[i].records == RRSetOf(c, CanonicalName(rrsets[i].name), rrsets[i].rtype)
  }

  ghost predicate ManagedTypes(rrsets: seq<RRSet>) {
    forall i :: 0 <= i < |rrsets| ==> KnownType(rrsets[i].rtype)
  }

  lemma {:induction false} SignedElsewhere(sigs: Signatures, key: Key, rrsets: seq<RRSet>, now: int, draws: Draws,
                                           n: string, t: RecordType)
    requires ManagedTypes(rrsets) && KnownType(t) && !Listed(rrsets, n, t)
    ensures var k, after := SignatureKey(n, t), Signed(sigs, key, rrsets, now, draws);
            (k in after <==> k in sigs) && (k in sigs ==> after[k] == sigs[k])
  {
    if rrsets != [] {
      var front, last := rrsets[..|rrsets| - 1], rrsets[|rrsets| - 1];
      assert forall i :: 0 <= i < |front| ==> front[i] == rrsets[i];
      SignedElsewhere(sigs, key, front, now, draws, n, t);
      SignatureKeyInjective(n, t, last.name, last.rtype);
      TypeStringInjective(t, last.rtype);
      assert last.name != n || last.rtype != t;
    }
  }

  lemma {:induction false} SignedCovers(c: Contents, ring: Ring, sigs: Signatures, key: Key, rrsets: seq<RRSet>,
                                        now: int, draws: Draws, n: string, t: RecordType)
    requires CanSign(ring) && SigningKeyOf(ring) == Some(key)
    requires ManagedTypes(rrsets) && Current(c, rrsets) && KnownType(t) && Listed(rrsets, n, t)
    requires CanonicalName(n) == n
    ensures Covered(c, ring, Signed(sigs, key, rrsets, now, draws), n, t)
  {
    var front, last := rrsets[..|rrsets| - 1], rrsets[|rrsets| - 1];
    var before := Signed(sigs, key, front, now, draws);
    var made := Signature(key, last, now, draws(|rrsets| - 1));
    assert Signed(sigs, key, rrsets, now, draws) == before[SignatureKey(last.name, last.rtype) := made];
    if last.name == n && last.rtype == t {
      SignedLast(c, ring, before, key, last, now, draws(|rrsets| - 1));
    } else {
      ListedInFront(c, rrsets, n, t);
      SignedCovers(c, ring, sigs, key, front, now, draws, n, t);
      OtherSignatureKept(c, ring, before, last.name, last.rtype, made, n, t);
    }
  }

  lemma {:induction false} ListedInFront(c: Contents, rrsets: seq<RRSet>, n: string, t: RecordType)
    requires ManagedTypes(rrsets) && Current(c, rrsets) && Listed(rrsets, n, t)
    requires rrsets[|rrsets| - 1].name != n || rrsets[|rrsets| - 1].rtype != t
    ensures var front := rrsets[..|rrsets| - 1];
            ManagedTypes(front) && Current(c, front) && Listed(front, n, t)
  {
    var front := rrsets[..|rrsets| - 1];
    var i :| 0 <= i < |rrsets| && rrsets[i].name == n && rrsets[i].rtype == t;
    assert i < |front| && front[i] == rrsets[i];
  }

  lemma {:induction false} OtherSignatureKept(c: Contents, ring: Ring, sigs: Signatures, n': string, t': RecordType,
                                              sig: RRSIG, n: string, t: RecordType)
    requires Covered(c, ring, sigs, n, t) && KnownType(t) && KnownType(t') && (n', t') != (n, t)
    ensures Covered(c, ring, sigs[SignatureKey(n', t') := sig], n, t)
  {
    SignatureKeyInjective(n, t, n', t');
    TypeStringInjective(t, t');
  }

  lemma {:induction false} SignedLast(c: Contents, ring: Ring, sigs: Signatures, key: Key, rrset: RRSet, now: int,
                                      nonce: int)
    requires CanSign(ring) && SigningKeyOf(ring) == Some(key)
    requires rrset.records == RRSetOf(c, rrset.name, rrset.rtype)
    ensures Covered(c, ring, sigs[SignatureKey(rrset.name, rrset.rtype) := Signature(key, rrset, now, nonce)],
                    rrset.name, rrset.rtype)
  {
    assert rrset == RRSet(rrset.name, rrset.rtype, RRSetOf(c, rrset.name, rrset.rtype));
    assert Genuine(key, rrset, Signature(key, rrset, now, nonce));
  }

  /** Every element is the stored RRset of its type under the name. */
  ghost predicate OfName(c: Contents, rrsets: seq<RRSet>, name: string, types: seq<RecordType>) {
    forall i :: 0 <= i < |rrsets| ==>
      && rrsets[i].name == name && rrsets[i].rtype in types
      && rrsets[i].records == RRSetOf(c, CanonicalName(name), rrsets[i].rtype)
  }

  lemma {:induction false} UnderLists(c: Contents, name: string, types: seq<RecordType>)
    ensures OfName(c, RRSetsUnder(c, name, types), name, types)
    ensures forall t :: t in types && RRSetOf(c, CanonicalName(name), t) != [] ==>
              Listed(RRSetsUnder(c, name, types), name, t)
  {
    if types != [] {
      var front, last := types[..|types| - 1], types[|types| - 1];
      var records := RRSetOf(c, CanonicalName(name), last);
      var before := RRSetsUnder(c, name, front);
      var more: seq<RRSet> := if records == [] then [] else [RRSet(name, last, records)];
      var all: seq<RRSet> := before + more;
      UnderLists(c, name, front);
      assert types == front + [last];
      assert RRSetsUnder(c, name, types) == all;
      forall i | 0 <= i < |all|
        ensures all[i].name == name && all[i].rtype in types
        ensures all[i].records == RRSetOf(c, CanonicalName(name), all[i].rtype)
      {
        if i < |before| {
          assert all[i] == before[i];
        }
      }
      forall t | t in types && RRSetOf(c, CanonicalName(name), t) != [] ensures Listed(before + more, name, t) {
        if t in front {
          ListedLeft(before, more, name, t);
        } else {
          assert more[0].rtype == t;
          ListedRight(before, more, name, t);
        }
      }
    }
  }

  ghost predicate OfNames(rrsets: seq<RRSet>, names: seq<string>) {
    forall i :: 0 <= i < |rrsets| ==> rrsets[i].name in names
  }

  lemma {:induction false} NamesList(c: Contents, names: seq<string>)
    ensures Current(c, RRSetsOfNames(c, names)) && ManagedTypes(RRSetsOfNames(c, names))
    ensures OfNames(RRSetsOfNames(c, names), names)
    ensures forall n, t :: n in names && t in MANAGED && RRSetOf(c, CanonicalName(n), t) != [] ==>
              Listed(RRSetsOfNames(c, names), n, t)
  {
    if names != [] {
      var front, last := names[..|names| - 1], names[|names| - 1];
      var before, under := RRSetsOfNames(c, front), RRSetsUnder(c, last, MANAGED);
      NamesList(c, front);
      UnderLists(c, last, MANAGED);
      assert names == front + [last];
      assert RRSetsOfNames(c, names) == before + under;
      NamesJoin(c, before, under, front, last);
      forall n, t | n in names && t in MANAGED && RRSetOf(c, CanonicalName(n), t) != []
        ensures Listed(before + under, n, t)
      {
        if n in front {
          ListedLeft(before, under, n, t);
        } else {
          ListedRight(before, under, n, t);
        }
      }
    }
  }

  lemma {:induction false} NamesJoin(c: Contents, before: seq<RRSet>, under: seq<RRSet>, front: seq<string>,
                                     last: string)
    requires Current(c, before) && ManagedTypes(before) && OfNames(before, front)
    requires OfName(c, under, last, MANAGED)
    ensures Current(c, before + under) && ManagedTypes(before + under) && OfNames(before + under, front + [last])
  {
    var all := before + under;
    forall i | 0 <= i < |all|
      ensures all[i].records == RRSetOf(c, CanonicalName(all[i].name), all[i].rtype)
      ensures KnownType(all[i].rtype) && all[i].name in front + [last]
    {
      if i < |before| {
        assert all[i] == before[i];
      } else {
        assert all[i] == under[i - |before|];
        ManagedIsKnown(all[i].rtype);
      }
    }
  }

  /** The signer looks for the types a dynamic record may have, and for no others. */
  lemma {:induction false} ManagedIsKnown(t: RecordType)
    ensures t in MANAGED <==> KnownType(t) && t != TYPE_SOA && t != TYPE_RRSIG
  {
    assert MANAGED[0] == TYPE_A && MANAGED[1] == TYPE_AAAA && MANAGED[2] == TYPE_CNAME;
    assert MANAGED[3] == TYPE_MX && MANAGED[4] == TYPE_TXT && MANAGED[5] == TYPE_NS;
  }

  lemma {:induction false} ListedLeft(a: seq<RRSet>, b: seq<RRSet>, n: string, t: RecordType)
    requires Listed(a, n, t)
    ensures Listed(a + b, n, t)
  {
    var i :| 0 <= i < |a| && a[i].name == n && a[i].rtype == t;
    assert (a + b)[i] == a[i];
  }

  lemma {:induction false} ListedRight(a: seq<RRSet>, b: seq<RRSet>, n: string, t: RecordType)
    requires Listed(b, n, t)
    ensures Listed(a + b, n, t)
  {
    var i :| 0 <= i < |b| && b[i].name == n && b[i].rtype == t;
    assert (a + b)[|a| + i] == b[i];
  }

  // Events keep every answer signed

  /** Signing all RRsets of a list with a trusted key covers what is on it; the rest stays as it was. */
  lemma {:induction false} BatchCovers(c: Contents, ring: Ring, sigs: Signatures, rrsets: seq<RRSet>, now: int,
                                       draws: Draws, n: string, t: RecordType)
    requires RingOk(ring) && ManagedTypes(rrsets) && Current(c, rrsets) && KnownType(t) && CanonicalName(n) == n
    requires if Listed(rrsets, n, t) then CanSign(ring) else Covered(c, ring, sigs, n, t)
    ensures Covered(c, ring, Resigned(sigs, ring, rrsets, now, draws).0, n, t)
  {
    if rrsets != [] && SigningKeyOf(ring).Some? {
      var key := ring.keys[ring.active];
      if Listed(rrsets, n, t) {
        SignedCovers(c, ring, sigs, key, rrsets, now, draws, n, t);
      } else {
        SignedElsewhere(sigs, key, rrsets, now, draws, n, t);
      }
    }
  }

  lemma {:induction false} SortedLists(rrsets: seq<RRSet>, sorted: seq<RRSet>, c: Contents)
    requires multiset(rrsets) == multiset(sorted)
    requires Current(c, rrsets) && ManagedTypes(rrsets)
    ensures Current(c, sorted) && ManagedTypes(sorted)
    ensures forall n, t :: Listed(rrsets, n, t) ==> Listed(sorted, n, t)
  {
    SameElements(rrsets, sorted);
    forall i | 0 <= i < |sorted|
      ensures KnownType(sorted[i].rtype)
              && sorted[i].records == RRSetOf(c, CanonicalName(sorted[i].name), sorted[i].rtype)
    {
      assert sorted[i] in rrsets;
    }
    forall n, t | Listed(rrsets, n, t) ensures Listed(sorted, n, t) {
      var i :| 0 <= i < |rrsets| && rrsets[i].name == n && rrsets[i].rtype == t;
      assert rrsets[i] in sorted;
    }
  }

  /** RRsets that are listed have records. */
  ghost predicate NoneEmpty(rrsets: seq<RRSet>) {
    forall i :: 0 <= i < |rrsets| ==> rrsets[i].records != []
  }

  lemma {:induction false} UnderNoneEmpty(c: Contents, name: string, types: seq<RecordType>)
    ensures NoneEmpty(RRSetsUnder(c, name, types))
  {
    if types != [] {
      UnderNoneEmpty(c, name, types[..|types| - 1]);
    }
  }

  lemma {:induction false} NamesNoneEmpty(c: Contents, names: seq<string>)
    ensures NoneEmpty(RRSetsOfNames(c, names))
  {
    if names != [] {
      NamesNoneEmpty(c, names[..|names| - 1]);
      UnderNoneEmpty(c, names[|names| - 1], MANAGED);
    }
  }

  /** Signing a list of RRsets of one content leaves a signature alone whose name and type that content lacks. */
  lemma {:induction false} ElsewhereCovered(c: Contents, ring: Ring, sigs: Signatures, other: Contents,
                                            rrsets: seq<RRSet>, now: int, draws: Draws, n: string, t: RecordType)
    requires RingOk(ring) && Covered(c, ring, sigs, n, t) && KnownType(t) && CanonicalName(n) == n
    requires Current(other, rrsets) && ManagedTypes(rrsets) && NoneEmpty(rrsets) && RRSetOf(other, n, t) == []
    ensures Covered(c, ring, Resigned(sigs, ring, rrsets, now, draws).0, n, t)
  {
    assert !Listed(rrsets, n, t);
    if rrsets != [] && SigningKeyOf(ring).Some? {
      SignedElsewhere(sigs, ring.keys[ring.active], rrsets, now, draws, n, t);
    }
  }

  /** Every signature in the map after signing was there before or is of a listed RRset. */
  lemma {:induction false} SignedKeys(sigs: Signatures, key: Key, rrsets: seq<RRSet>, now: int, draws: Draws, k: string)
    requires k in Signed(sigs, key, rrsets, now, draws)
    ensures k in sigs || exists i :: 0 <= i < |rrsets| && k == SignatureKey(rrsets[i].name, rrsets[i].rtype)
  {
    if rrsets != [] {
      var front, last := rrsets[..|rrsets| - 1], rrsets[|rrsets| - 1];
      if k != SignatureKey(last.name, last.rtype) {
        SignedKeys(sigs, key, front, now, draws, k);
        if k !in sigs {
          var i :| 0 <= i < |front| && k == SignatureKey(front[i].name, front[i].rtype);
          assert rrsets[i] == front[i];
        }
      }
    }
  }

  // One zone

  /** A reload covers whatever is visible. */
  lemma {:induction false} ReloadCoversOne(c: Contents, ring: Ring, sigs: Signatures, names: seq<string>, now: int,
                                           draws: Draws, n: string, t: RecordType)
    requires Reappliable(c) && CanSign(ring) && (forall n :: n in names <==> n in c)
    requires RRSetOf(c, n, t) != []
    ensures Covered(c, ring, Resigned(sigs, ring, ZoneRRSets(c, names), now, draws).0, n, t)
  {
    VisibleIsManaged(c, n, t);
    NamesList(c, names);
    SortedLists(RRSetsOfNames(c, names), ZoneRRSets(c, names), c);
    BatchCovers(c, ring, sigs, ZoneRRSets(c, names), now, draws, n, t);
  }

  lemma {:induction false} RRSetOrder()
    ensures TotalPreorder(RRSetLe)
  {
    forall x, y ensures RRSetLe(x, y) || RRSetLe(y, x) {
      StringLessTotal(x.name, y.name);
    }
    forall x, y, z | RRSetLe(x, y) && RRSetLe(y, z) ensures RRSetLe(x, z) {
      StringLessTotal(x.name, y.name);
      StringLessTotal(y.name, z.name);
      StringLessTotal(x.name, z.name);
      if x.name != y.name && y.name != z.name {
        StringLessTransitive(x.name, y.name, z.name);
      }
    }
  }

  /** A reload signs in byte order of names, and under one name in the order of types. */
  lemma {:induction false} ReloadOrder(c: Contents, names: seq<string>)
    ensures var rrsets := ZoneRRSets(c, names);
            forall i, j :: 0 <= i < j < |rrsets| ==>
              || StringLess(rrsets[i].name, rrsets[j].name)
              || (rrsets[i].name == rrsets[j].name && rrsets[i].rtype.code <= rrsets[j].rtype.code)
  {
    RRSetOrder();
    SortSorts(RRSetsOfNames(c, names), RRSetLe);
  }

  lemma {:induction false} ZoneRRSetsListed(c: Contents, names: seq<string>)
    ensures Current(c, ZoneRRSets(c, names)) && ManagedTypes(ZoneRRSets(c, names)) && NoneEmpty(ZoneRRSets(c, names))
  {
    var found, sorted := RRSetsOfNames(c, names), ZoneRRSets(c, names);
    NamesList(c, names);
    NamesNoneEmpty(c, names);
    SortedLists(found, sorted, c);
    SameElements(found, sorted);
    forall i | 0 <= i < |sorted| ensures sorted[i].records != [] {
      assert sorted[i] in found;
    }
  }

  lemma {:induction false} HookSucceeds(ring: Ring, sigs: Signatures, rrsets: seq<RRSet>, now: int, draws: Draws)
    ensures Resigned(sigs, ring, rrsets, now, draws).1 <==> rrsets == [] || SigningKeyOf(ring).Some?
    ensures !Resigned(sigs, ring, rrsets, now, draws).1 ==> Resigned(sigs, ring, rrsets, now, draws).0 == sigs
  {
  }

  /** After the hook signed one name: every RRset of that name, and whatever was covered, is covered. */
  lemma {:induction false} HookCovers(c: Contents, was: Contents, ring: Ring, sigs: Signatures, raw: string, now: int,
                                      draws: Draws, n: string, t: RecordType)
    requires Reappliable(c) && RingOk(ring) && RRSetOf(c, n, t) != []
    requires Resigned(sigs, ring, RRSetsOfNames(c, [raw]), now, draws).1
    requires if n == raw then KeyTrusted(ring)
             else RRSetOf(c, n, t) == RRSetOf(was, n, t) && Covered(was, ring, sigs, n, t)
    ensures Covered(c, ring, Resigned(sigs, ring, RRSetsOfNames(c, [raw]), now, draws).0, n, t)
  {
    VisibleIsManaged(c, n, t);
    NamesList(c, [raw]);
    BatchCovers(c, ring, sigs, RRSetsOfNames(c, [raw]), now, draws, n, t);
  }

  /** Signing under a name that is not canonical changes no signature of a canonical name. */
  lemma {:induction false} MisspeltSigns(c: Contents, ring: Ring, sigs: Signatures, raw: string, now: int, draws: Draws,
                                         n: string, t: RecordType)
    requires RingOk(ring) && KnownType(t) && n != raw
    ensures var after, k := Resigned(sigs, ring, RRSetsOfNames(c, [raw]), now, draws).0, SignatureKey(n, t);
            (k in after <==> k in sigs) && (k in sigs ==> after[k] == sigs[k])
  {
    var rrsets := RRSetsOfNames(c, [raw]);
    NamesList(c, [raw]);
    assert !Listed(rrsets, n, t);
    if rrsets != [] && SigningKeyOf(ring).Some? {
      SignedElsewhere(sigs, ring.keys[ring.active], rrsets, now, draws, n, t);
    }
  }

  // The check on answers

  /** A covered RRset passes the check on answers. */
  lemma {:induction false} CoveredVerifies(c: Contents, ring: Ring, sigs: Signatures, n: string, t: RecordType)
    requires GenuineVerifies() && Covered(c, ring, sigs, n, t)
    ensures SignsResponse(sigs, ring, RRSet(n, t, RRSetOf(c, n, t)))
  {
    var rrset, sig := RRSet(n, t, RRSetOf(c, n, t)), sigs[SignatureKey(n, t)];
    var key, keys := ring.keys[sig.keyID], VerifyKeysOf(ring);
    KeysForMembers(ring.keys, ring.verifying);
    assert key in keys;
    var i :| 0 <= i < |keys| && keys[i] == key;
    assert Verify(keys[i].secret, Payload(rrset, sig.expires, sig.incept, sig.keyID), sig.data);
  }

  /** A genuine signature of the ring passes, under its verification keys, over the payload it was made for only. */
  lemma {:induction false} GenuinePayload(ring: Ring, rrset: RRSet, sig: RRSIG, payload: seq<byte>)
    requires GenuineVerifies() && OnlyGenuineVerifies(ring)
    requires sig.keyID in ring.verifying && sig.keyID in ring.keys && Genuine(ring.keys[sig.keyID], rrset, sig)
    ensures AnyVerifies(VerifyKeysOf(ring), payload, sig.data)
            <==> payload == Payload(rrset, sig.expires, sig.incept, sig.keyID)
  {
    var key, keys := ring.keys[sig.keyID], VerifyKeysOf(ring);
    KeysForMembers(ring.keys, ring.verifying);
    var nonce :| sig.data == Sign(key.secret, Payload(rrset, sig.expires, sig.incept, sig.keyID), nonce);
    if payload == Payload(rrset, sig.expires, sig.incept, sig.keyID) {
      assert key in keys;
      var i :| 0 <= i < |keys| && keys[i] == key;
      assert Verify(keys[i].secret, payload, sig.data);
    }
    if AnyVerifies(keys, payload, sig.data) {
      var i :| 0 <= i < |keys| && Verify(keys[i].secret, payload, sig.data);
      assert keys[i] in keys;
    }
  }

  /** A signature over one list vouches for another list exactly when their bytes agree. */
  lemma {:induction false} OldSignatureOnly(c: Contents, ring: Ring, sigs: Signatures, n: string, t: RecordType,
                                            found: seq<Record>)
    requires GenuineVerifies() && OnlyGenuineVerifies(ring) && Covered(c, ring, sigs, n, t)
    ensures SignsResponse(sigs, ring, RRSet(n, t, found)) <==> EncodedRRSet(found) == EncodedRRSet(RRSetOf(c, n, t))
  {
    var was, sig := RRSetOf(c, n, t), sigs[SignatureKey(n, t)];
    PayloadRecords(n, t, was, found, sig.expires, sig.incept, sig.keyID);
    GenuinePayload(ring, RRSet(n, t, was), sig, Payload(RRSet(n, t, found), sig.expires, sig.incept, sig.keyID));
  }

  /** A genuine signature over the current list passes exactly while its key is in the verification set. */
  lemma {:induction false} PassesWhileTried(c: Contents, ring: Ring, sigs: Signatures, n: string, t: RecordType)
    requires GenuineVerifies() && OwnKeyVerifies(ring) && RingOk(ring) && SignatureKey(n, t) in sigs
    requires var sig := sigs[SignatureKey(n, t)];
             sig.keyID in ring.keys && Genuine(ring.keys[sig.keyID], RRSet(n, t, RRSetOf(c, n, t)), sig)
    ensures SignsResponse(sigs, ring, RRSet(n, t, RRSetOf(c, n, t)))
            <==> sigs[SignatureKey(n, t)].keyID in ring.verifying
  {
    var rrset, sig := RRSet(n, t, RRSetOf(c, n, t)), sigs[SignatureKey(n, t)];
    var payload, keys := Payload(rrset, sig.expires, sig.incept, sig.keyID), VerifyKeysOf(ring);
    if SignsResponse(sigs, ring, rrset) {
      KeysForMembers(ring.keys, ring.verifying);
      var nonce :| sig.data == Sign(ring.keys[sig.keyID].secret, payload, nonce);
      var i :| 0 <= i < |keys| && Verify(keys[i].secret, payload, sig.data);
      assert keys[i] in keys;
      var id :| id in ring.verifying && id in ring.keys && ring.keys[id] == keys[i];
      assert id == sig.keyID;
    }
    if sig.keyID in ring.verifying {
      CoveredVerifies(c, ring, sigs, n, t);
    }
  }

  function StampOf(sig: RRSIG): Stamp {
    Stamp(sig.expires, sig.incept, sig.keyID)
  }

  /**
   The bytes of a stored signature pass the check with its own expiry, inception and key
   identifier, over its own record bytes, and with nothing else.
   */
  lemma {:induction false} AlteredSignature(c: Contents, ring: Ring, sigs: Signatures, n: string, t: RecordType,
                                            found: seq<Record>, altered: RRSIG)
    requires GenuineVerifies() && OnlyGenuineVerifies(ring) && Covered(c, ring, sigs, n, t)
    requires var sig := sigs[SignatureKey(n, t)];
             altered.data == sig.data && ShortID(sig.keyID) && ShortID(altered.keyID)
    ensures VerifiesBy(VerifyKeysOf(ring), RRSet(n, t, found), altered)
            <==> && StampOf(altered) == StampOf(sigs[SignatureKey(n, t)])
                 && EncodedRRSet(found) == EncodedRRSet(RRSetOf(c, n, t))
  {
    var was, sig := RRSetOf(c, n, t), sigs[SignatureKey(n, t)];
    PayloadFixesStamp(n, t, was, StampOf(sig), found, StampOf(altered));
    GenuinePayload(ring, RRSet(n, t, was), sig, Stamped(RRSet(n, t, found), StampOf(altered)));
  }

  // When a signature was made

  /** Made with a key at a moment: from an hour before it to a week after it, in wrapped seconds. */
  ghost predicate MadeAt(sig: RRSIG, key: string, keyID: string, now: int) {
    && SignatureKey(sig.name, sig.rtype) == key && sig.zone == sig.name && sig.ttl == 0 && sig.keyID == keyID
    && sig.incept == (now - 3600) % 0x1_0000_0000 && sig.expires == (now + 604_800) % 0x1_0000_0000
  }

  /** Its bytes were made over one of the RRsets, each of which has a draw of its own. */
  ghost predicate DrawnFor(sig: RRSIG, secret: PrivateKey, rrsets: seq<RRSet>, draws: Draws) {
    exists i :: 0 <= i < |rrsets| && rrsets[i].name == sig.name && rrsets[i].rtype == sig.rtype
                && sig.data == Sign(secret, Payload(rrsets[i], sig.expires, sig.incept, sig.keyID), draws(i))
  }

  lemma {:induction false} SignedOrKept(sigs: Signatures, key: Key, rrsets: seq<RRSet>, now: int, draws: Draws,
                                        k: string)
    ensures var after := Signed(sigs, key, rrsets, now, draws);
            k in after ==>
              || (k in sigs && after[k] == sigs[k])
              || (MadeAt(after[k], k, key.id, now) && DrawnFor(after[k], key.secret, rrsets, draws))
  {
    if rrsets != [] {
      var n := |rrsets| - 1;
      var front, last, before := rrsets[..n], rrsets[n], Signed(sigs, key, rrsets[..n], now, draws);
      SignedOrKept(sigs, key, front, now, draws, k);
      assert Signed(sigs, key, rrsets, now, draws)
             == before[SignatureKey(last.name, last.rtype) := Signature(key, last, now, draws(n))];
      if k == SignatureKey(last.name, last.rtype) {
        LastIsMade(key, rrsets, now, draws);
      } else if k in before && DrawnFor(before[k], key.secret, front, draws) {
        DrawnInFront(before[k], key.secret, rrsets, draws);
      }
    }
  }

  lemma {:induction false} LastIsMade(key: Key, rrsets: seq<RRSet>, now: int, draws: Draws)
    requires rrsets != []
    ensures var last := rrsets[|rrsets| - 1];
            var sig := Signature(key, last, now, draws(|rrsets| - 1));
            MadeAt(sig, SignatureKey(last.name, last.rtype), key.id, now) && DrawnFor(sig, key.secret, rrsets, draws)
  {
    var last := rrsets[|rrsets| - 1];
    assert last.name == Signature(key, last, now, draws(|rrsets| - 1)).name;
  }

  lemma {:induction false} DrawnInFront(sig: RRSIG, secret: PrivateKey, rrsets: seq<RRSet>, draws: Draws)
    requires rrsets != [] && DrawnFor(sig, secret, rrsets[..|rrsets| - 1], draws)
    ensures DrawnFor(sig, secret, rrsets, draws)
  {
    var front := rrsets[..|rrsets| - 1];
    var i :| 0 <= i < |front| && front[i].name == sig.name && front[i].rtype == sig.rtype
             && sig.data == Sign(secret, Payload(front[i], sig.expires, sig.incept, sig.keyID), draws(i));
    assert rrsets[i] == front[i];
  }

  /** A batch leaves a stored signature alone, or makes it with the signing key there and then. */
  lemma {:induction false} SignedNow(sigs: Signatures, ring: Ring, rrsets: seq<RRSet>, now: int, draws: Draws,
                                     k: string)
    requires RingOk(ring)
    ensures var after := Resigned(sigs, ring, rrsets, now, draws).0;
            k in after ==> (k in sigs && after[k] == sigs[k]) || MadeAt(after[k], k, ring.active, now)
  {
    if rrsets != [] && SigningKeyOf(ring).Some? {
      SignedOrKept(sigs, ring.keys[ring.active], rrsets, now, draws, k);
    }
  }
}
