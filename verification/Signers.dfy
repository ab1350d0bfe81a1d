/**
 The signer: one stored signature per RRset, renewed by the re-signing hook and by
 reloads, checked on every answer.
 */
module Signers {
  import opened Model
  import opened Names
  import opened Sorting
  import opened Records
  import opened RecordStore
  import opened Zones
  import opened Keyrings
  import opened Wire

  datatype RRSIG = RRSIG(zone: string, name: string, rtype: RecordType, keyID: string, ttl: uint32,
                         expires: uint32, incept: uint32, data: seq<byte>)

  // Foreign cryptography

  /** Signing is randomised; the last argument stands for the randomness drawn. */
  const Sign: (PrivateKey, seq<byte>, int) -> seq<byte>

  const Verify: (PrivateKey, seq<byte>, seq<byte>) -> bool

  /** A genuine signature verifies. */
  ghost predicate GenuineVerifies() {
    forall k, payload, nonce :: Verify(k, payload, Sign(k, payload, nonce))
  }

  /**
   No key of the ring takes a signature made by a key of the ring for one payload as
   a signature over another: the ideal a signature scheme and its hash approximate.
   */
  ghost predicate OnlyGenuineVerifies(ring: Ring) {
    forall id, id', payload, payload', nonce
           {:trigger Verify(ring.keys[id'].secret, payload', Sign(ring.keys[id].secret, payload, nonce))} ::
      && id in ring.keys && id' in ring.keys
      && Verify(ring.keys[id'].secret, payload', Sign(ring.keys[id].secret, payload, nonce))
      ==> payload == payload'
  }

  /** A signature made by a key of the ring verifies for its own payload under that key, and otherwise nowhere. */
  ghost predicate OwnKeyVerifies(ring: Ring) {
    forall id, id', payload, payload', nonce
           {:trigger Verify(ring.keys[id'].secret, payload', Sign(ring.keys[id].secret, payload, nonce))} ::
      && id in ring.keys && id' in ring.keys
      && Verify(ring.keys[id'].secret, payload', Sign(ring.keys[id].secret, payload, nonce))
      ==> payload == payload' && id == id'
  }

  // Signing

  type Signatures = map<string, RRSIG>

  const MANAGED: seq<RecordType> := [TYPE_A, TYPE_AAAA, TYPE_CNAME, TYPE_MX, TYPE_TXT, TYPE_NS]

  function SignatureKey(name: string, t: RecordType): string {
    name + "\0" + TypeString(t)
  }

  function Expires(now: int): uint32 {
    (now + 7 * DAY) % 0x1_0000_0000
  }

  function Incept(now: int): uint32 {
    (now - 3600) % 0x1_0000_0000
  }

  function Signature(key: Key, rrset: RRSet, now: int, nonce: int): RRSIG {
    RRSIG(rrset.name, rrset.name, rrset.rtype, key.id, 0, Expires(now), Incept(now),
          Sign(key.secret, Payload(rrset, Expires(now), Incept(now), key.id), nonce))
  }

  /** Draws of randomness, one per signature made. */
  type Draws = nat -> int

  function Signed(sigs: Signatures, key: Key, rrsets: seq<RRSet>, now: int, draws: Draws): Signatures {
    if rrsets == [] then sigs
    else
      var n := |rrsets| - 1;
      var rrset := rrsets[n];
      Signed(sigs, key, rrsets[..n], now, draws)
        [SignatureKey(rrset.name, rrset.rtype) := Signature(key, rrset, now, draws(n))]
  }

  /** Re-signing a list of RRsets: without a signing key it fails unless there is nothing to sign. */
  function Resigned(sigs: Signatures, ring: Ring, rrsets: seq<RRSet>, now: int, draws: Draws): (Signatures, bool) {
    if rrsets == [] then (sigs, true)
    else match SigningKeyOf(ring)
      case None => (sigs, false)
      case Some(key) => (Signed(sigs, key, rrsets, now, draws), true)
  }

  /** The RRsets stored under a name, labelled with the name as it was asked for. */
  function RRSetsUnder(c: Contents, name: string, types: seq<RecordType>): seq<RRSet> {
    if types == [] then []
    else
      var t := types[|types| - 1];
      var records := RRSetOf(c, CanonicalName(name), t);
      RRSetsUnder(c, name, types[..|types| - 1]) + if records == [] then [] else [RRSet(name, t, records)]
  }

  function RRSetsOfNames(c: Contents, names: seq<string>): seq<RRSet> {
    if names == [] then []
    else RRSetsOfNames(c, names[..|names| - 1]) + RRSetsUnder(c, names[|names| - 1], MANAGED)
  }

  predicate RRSetLe(a: RRSet, b: RRSet) {
    if a.name != b.name then StringLess(a.name, b.name) else a.rtype.code <= b.rtype.code
  }

  function ZoneRRSets(c: Contents, names: seq<string>): seq<RRSet> {
    Sort(RRSetsOfNames(c, names), RRSetLe)
  }

  predicate AnyVerifies(keys: seq<Key>, payload: seq<byte>, data: seq<byte>) {
    exists i :: 0 <= i < |keys| && Verify(keys[i].secret, payload, data)
  }

  /** Some key of the list verifies the signature. */
  predicate VerifiesBy(keys: seq<Key>, rrset: RRSet, sig: RRSIG) {
    AnyVerifies(keys, Payload(rrset, sig.expires, sig.incept, sig.keyID), sig.data)
  }

  /** The check every authoritative answer passes. */
  predicate SignsResponse(sigs: Signatures, ring: Ring, rrset: RRSet) {
    var key := SignatureKey(rrset.name, rrset.rtype);
    key in sigs && VerifiesBy(VerifyKeysOf(ring), rrset, sigs[key])
  }

  lemma {:induction false} SignatureKeyInjective(n: string, t: RecordType, n': string, t': RecordType)
    ensures SignatureKey(n, t) == SignatureKey(n', t') <==> n == n' && TypeString(t) == TypeString(t')
  {
    TypeStringHasNoSeparator(t);
    TypeStringHasNoSeparator(t');
    LastSeparator(n, TypeString(t), n', TypeString(t'));
  }

  lemma {:induction false} UnderNext(c: Contents, name: string, i: nat)
    requires i < |MANAGED|
    ensures var records := RRSetOf(c, CanonicalName(name), MANAGED[i]);
            RRSetsUnder(c, name, MANAGED[..i + 1])
            == RRSetsUnder(c, name, MANAGED[..i]) + if records == [] then [] else [RRSet(name, MANAGED[i], records)]
  {
    assert MANAGED[..i + 1][..i] == MANAGED[..i];
  }

  // The signer as an object

  class Signer {
    const ring: Keyring
    var signatures: Signatures

    constructor (ring: Keyring)
      ensures this.ring == ring && signatures == map[]
    {
      this.ring, signatures := ring, map[];
    }

    method ResignZone(rrsets: seq<RRSet>, now: int, draws: Draws) returns (ok: bool)
      modifies this
      ensures (signatures, ok) == Resigned(old(signatures), ring.State(), rrsets, now, draws)
    {
      ghost var before := signatures;
      for i := 0 to |rrsets|
        invariant (signatures, true) == Resigned(before, ring.State(), rrsets[..i], now, draws)
      {
        assert rrsets[..i + 1][..i] == rrsets[..i];
        ok := ResignRRSet(rrsets[i], now, draws(i));
        if !ok {
          return;
        }
      }
      assert rrsets[..|rrsets|] == rrsets;
      ok := true;
    }

    method ResignRRSet(rrset: RRSet, now: int, nonce: int) returns (ok: bool)
      modifies this
      ensures ok <==> SigningKeyOf(ring.State()).Some?
      ensures signatures ==
              match SigningKeyOf(ring.State())
              case None => old(signatures)
              case Some(key) =>
                old(signatures)[SignatureKey(rrset.name, rrset.rtype) := Signature(key, rrset, now, nonce)]
    {
      var key := ring.SigningKey();
      if key.None? {
        return false;
      }
      signatures := signatures[SignatureKey(rrset.name, rrset.rtype) := Signature(key.value, rrset, now, nonce)];
      ok := true;
    }

    /** The re-signing hook: every RRset of the changed names, looked up as it stands now. */
    method OnZoneUpdated(z: Zone, changed: seq<string>, now: int, draws: Draws) returns (ok: bool)
      requires z.Valid()
      modifies this
      ensures (signatures, ok)
              == Resigned(old(signatures), ring.State(), RRSetsOfNames(z.store.Contents(), changed), now, draws)
    {
      var affected := Affected(z, changed);
      ok := ResignZone(affected, now, draws);
      StoreUntouched(z.store);
    }

    method Affected(z: Zone, names: seq<string>) returns (affected: seq<RRSet>)
      requires z.Valid()
      ensures affected == RRSetsOfNames(z.store.Contents(), names)
    {
      ghost var c := z.store.Contents();
      affected := [];
      for i := 0 to |names|
        invariant z.store.Contents() == c
        invariant affected == RRSetsOfNames(c, names[..i])
      {
        assert names[..i + 1][..i] == names[..i];
        var under := Under(z, names[i]);
        StoreUntouched(z.store);
        affected := affected + under;
      }
      assert names[..|names|] == names;
    }

    method Under(z: Zone, name: string) returns (found: seq<RRSet>)
      requires z.Valid()
      ensures found == RRSetsUnder(z.store.Contents(), name, MANAGED)
    {
      ghost var c := z.store.Contents();
      found := [];
      for i := 0 to |MANAGED|
        invariant z.store.Contents() == c
        invariant found == RRSetsUnder(c, name, MANAGED[..i])
      {
        UnderNext(c, name, i);
        var records, ok := z.store.Lookup(name, MANAGED[i]);
        StoreUntouched(z.store);
        if ok {
          found := found + [RRSet(name, MANAGED[i], records[..])];
        }
      }
      assert MANAGED[..|MANAGED|] == MANAGED;
    }

    /** A reload signs every RRset of the zone again, in order of name and type. */
    method Reload(z: Zone, now: int, draws: Draws) returns (ok: bool, ghost names: seq<string>)
      requires z.Valid()
      modifies this
      ensures forall n :: n in names <==> n in z.store.Contents()
      ensures (signatures, ok)
              == Resigned(old(signatures), ring.State(), ZoneRRSets(z.store.Contents(), names), now, draws)
    {
      var rrsets;
      rrsets, names := AllRRSets(z);
      ok := ResignZone(rrsets, now, draws);
      StoreUntouched(z.store);
    }

    method AllRRSets(z: Zone) returns (rrsets: seq<RRSet>, ghost names: seq<string>)
      requires z.Valid()
      ensures forall n :: n in names <==> n in z.store.Contents()
      ensures rrsets == ZoneRRSets(z.store.Contents(), names)
    {
      var listed := z.store.Names();
      var found := Affected(z, listed);
      StoreUntouched(z.store);
      rrsets, names := Sort(found, RRSetLe), listed;
    }

    method SignResponse(rrset: RRSet) returns (sig: Option<RRSIG>)
      ensures sig.Some? <==> SignsResponse(signatures, ring.State(), rrset)
      ensures sig.Some? ==> sig.value == signatures[SignatureKey(rrset.name, rrset.rtype)]
    {
      var key := SignatureKey(rrset.name, rrset.rtype);
      if key !in signatures {
        return None;
      }
      var found := signatures[key];
      var ok := TryKeys(Payload(rrset, found.expires, found.incept, found.keyID), found.data);
      sig := if ok then Some(found) else None;
    }

    /** Whether some key of the verification set takes the signature for this payload. */
    method TryKeys(payload: seq<byte>, data: seq<byte>) returns (ok: bool)
      ensures ok <==> AnyVerifies(VerifyKeysOf(ring.State()), payload, data)
    {
      var keys := ring.VerifyKeys();
      for i := 0 to |keys|
        invariant !AnyVerifies(keys[..i], payload, data)
      {
        if Verify(keys[i].secret, payload, data) {
          return true;
        }
      }
      assert keys[..|keys|] == keys;
      ok := false;
    }
  }
}
