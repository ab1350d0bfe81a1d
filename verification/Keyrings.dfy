/** Signing keys: the ring, its active key, the verification set, and rollover. Times are seconds; zero is unset. */
module Keyrings {
  import opened Model
  import opened Names
  import opened Sorting

  /** Key material is foreign; only its identity matters here. */
  type PrivateKey = int

  datatype Key = Key(id: string, createdAt: int, activeFrom: int, activeUntil: int, secret: PrivateKey)

  const UNSET := 0
  const DAY := 24 * 3600

  datatype Ring = Ring(keys: map<string, Key>, order: seq<string>, active: string, verifying: seq<string>)

  const EMPTY_RING := Ring(map[], [], "", [])

  predicate InWindow(key: Key, now: int) {
    key.activeFrom <= now && (key.activeUntil == UNSET || key.activeUntil >= now)
  }

  function Added(r: Ring, key: Key): (Ring, bool) {
    if key.id in r.keys then (r, false)
    else (Ring(r.keys[key.id := key], r.order + [key.id], if r.active == "" then key.id else r.active,
               r.verifying + [key.id]), true)
  }

  function SigningKeyOf(r: Ring): Option<Key> {
    if r.active == "" || r.active !in r.keys then None else Some(r.keys[r.active])
  }

  /** An open-ended key gets thirty more days. */
  function Bounded(key: Key, now: int): Key {
    if key.activeUntil == UNSET then key.(activeUntil := now + 30 * DAY) else key
  }

  function BoundedKeys(keys: map<string, Key>, order: seq<string>, now: int): map<string, Key>
    requires forall id :: id in order ==> id in keys
  {
    map id | id in keys :: if id in order then Bounded(keys[id], now) else keys[id]
  }

  function InWindowIds(keys: map<string, Key>, order: seq<string>, now: int): seq<string>
    requires forall id :: id in order ==> id in keys
  {
    if order == [] then []
    else
      var front, last := order[..|order| - 1], order[|order| - 1];
      InWindowIds(keys, front, now) + if InWindow(keys[last], now) then [last] else []
  }

  function VerificationSet(keys: map<string, Key>, order: seq<string>, now: int): seq<string>
    requires forall id :: id in order ==> id in keys
  {
    Sort(InWindowIds(keys, order, now), StringLe)
  }

  /** The key as a rollover installs it. */
  function Installed(newKey: Key, activeFrom: int, now: int): Key {
    newKey.(activeFrom := if activeFrom < now then now else activeFrom, activeUntil := now + 365 * DAY)
  }

  function RolledOver(r: Ring, newKey: Key, activeFrom: int, now: int): (Ring, bool)
    requires RingOk(r)
  {
    if newKey.id in r.keys then (r, false)
    else
      var keys := BoundedKeys(r.keys, r.order, now)[newKey.id := Installed(newKey, activeFrom, now)];
      var order := r.order + [newKey.id];
      (Ring(keys, order, newKey.id, VerificationSet(keys, order, now)), true)
  }

  function VerifyKeysOf(r: Ring): seq<Key> {
    KeysFor(r.keys, r.verifying)
  }

  function KeysFor(keys: map<string, Key>, ids: seq<string>): seq<Key> {
    if ids == [] then []
    else
      var last := ids[|ids| - 1];
      KeysFor(keys, ids[..|ids| - 1]) + if last in keys then [keys[last]] else []
  }

  // What the ring keeps

  /** Keys are filed under their own identifiers, and the lists name keys of the ring. */
  predicate RingOk(r: Ring) {
    && (forall id :: id in r.keys ==> r.keys[id].id == id)
    && (forall id :: id in r.order ==> id in r.keys)
    && (forall id :: id in r.keys ==> id in r.order)
    && (forall id :: id in r.verifying ==> id in r.keys)
    && (r.active != "" ==> r.active in r.keys)
  }

  /** There is a signing key, and what it signs can be verified. */
  predicate CanSign(r: Ring) {
    RingOk(r) && r.active != "" && r.active in r.verifying
  }

  /** What would be signed now can be verified, or nothing can be signed. */
  predicate KeyTrusted(r: Ring) {
    SigningKeyOf(r).Some? ==> r.active in r.verifying
  }

  lemma {:induction false} InWindowMembers(keys: map<string, Key>, order: seq<string>, now: int)
    requires forall id :: id in order ==> id in keys
    ensures forall id :: id in InWindowIds(keys, order, now) <==> id in order && InWindow(keys[id], now)
  {
    if order != [] {
      var front, last := order[..|order| - 1], order[|order| - 1];
      assert order == front + [last];
      InWindowMembers(keys, front, now);
    }
  }

  /** The verification set holds exactly the keys in their validity window, in byte order. */
  lemma {:induction false} VerificationMembers(keys: map<string, Key>, order: seq<string>, now: int)
    requires forall id :: id in order ==> id in keys
    ensures forall id :: id in VerificationSet(keys, order, now) <==> id in order && InWindow(keys[id], now)
    ensures SortedBy(VerificationSet(keys, order, now), StringLe)
  {
    StringLeOrder();
    SortSorts(InWindowIds(keys, order, now), StringLe);
    InWindowMembers(keys, order, now);
    SameElements(InWindowIds(keys, order, now), VerificationSet(keys, order, now));
  }

  lemma {:induction false} KeysForMembers(keys: map<string, Key>, ids: seq<string>)
    ensures forall key :: key in KeysFor(keys, ids) <==> exists id :: id in ids && id in keys && keys[id] == key
  {
    if ids != [] {
      var front, last := ids[..|ids| - 1], ids[|ids| - 1];
      assert ids == front + [last];
      KeysForMembers(keys, front);
    }
  }

  /**
   A key is added unless its identifier is taken. It is then filed as given and tried at
   once beside all keys tried before; it signs only where nothing could sign yet.
   */
  lemma {:induction false} AddKeeps(r: Ring, key: Key)
    requires RingOk(r)
    ensures RingOk(Added(r, key).0) && (CanSign(r) ==> CanSign(Added(r, key).0))
    ensures r == EMPTY_RING && key.id != "" ==> CanSign(Added(r, key).0)
    ensures var (w, ok) := Added(r, key);
            if key.id in r.keys then !ok && w == r
            else ok && VerifyKeysOf(w) == VerifyKeysOf(r) + [key]
                 && (key.id != "" ==> SigningKeyOf(w) == if SigningKeyOf(r).Some? then SigningKeyOf(r) else Some(key))
                 && w.order == r.order + [key.id] && forall id :: id in w.keys <==> id in r.keys || id == key.id
  {
    if key.id !in r.keys {
      var w := Added(r, key).0;
      assert w.verifying[..|w.verifying| - 1] == r.verifying;
      KeysForGrows(r.keys, w.keys, r.verifying);
    }
  }

  lemma {:induction false} KeysForGrows(keys: map<string, Key>, more: map<string, Key>, ids: seq<string>)
    requires forall id :: id in ids ==> id in keys && id in more && keys[id] == more[id]
    ensures KeysFor(keys, ids) == KeysFor(more, ids)
  {
    if ids != [] {
      assert forall id :: id in ids[..|ids| - 1] ==> id in ids;
      KeysForGrows(keys, more, ids[..|ids| - 1]);
    }
  }

  /**
   A rollover to a fresh key keeps the ring in order. The new key is active at once,
   and what it signs verifies exactly when its start does not lie in the future (an
   empty identifier stands for no key at all); an older key stays in the verification
   set exactly when it is inside its window.
   */
  lemma {:induction false} RolloverKeeps(r: Ring, newKey: Key, activeFrom: int, now: int)
    requires RingOk(r) && newKey.id !in r.keys
    ensures var (w, ok) := RolledOver(r, newKey, activeFrom, now);
            && ok && RingOk(w) && w.active == newKey.id
            && (CanSign(w) <==> newKey.id != "" && activeFrom <= now)
            && (forall id :: id in r.keys ==>
                  && id in w.keys && w.keys[id].secret == r.keys[id].secret
                  && (id in w.verifying <==> InWindow(r.keys[id], now)))
  {
    var all := BoundedKeys(r.keys, r.order, now)[newKey.id := Installed(newKey, activeFrom, now)];
    var order := r.order + [newKey.id];
    OldKeysBounded(r, newKey, activeFrom, now, all);
    VerificationMembers(all, order, now);
    OldKeysTried(r, newKey.id, now, all, order, VerificationSet(all, order, now));
    RolloverRingOk(Ring(all, order, newKey.id, VerificationSet(all, order, now)), r, newKey.id);
    assert newKey.id in order;
    assert InWindow(all[newKey.id], now) <==> activeFrom <= now;
  }

  /**
   How long keys are tried after a rollover to a fresh key: that key, with the secret it
   came with, from its start to a year from now; an older key without an end for thirty
   more days; one with an end to that end. Seconds are counted out.
   */
  lemma {:induction false} RolloverWindows(r: Ring, newKey: Key, activeFrom: int, now: int)
    requires RingOk(r) && newKey.id !in r.keys && 0 < now
    ensures var w := RolledOver(r, newKey, activeFrom, now).0;
            && w.order == r.order + [newKey.id] && newKey.id in w.keys
            && w.keys[newKey.id].secret == newKey.secret && w.keys[newKey.id].createdAt == newKey.createdAt
            && (forall later :: InWindow(w.keys[newKey.id], later)
                                <==> now <= later && activeFrom <= later <= now + 31_536_000)
            && (forall id, later :: id in r.keys && now <= later ==>
                  && id in w.keys
                  && (InWindow(w.keys[id], later) <==>
                      r.keys[id].activeFrom <= later
                      <= if r.keys[id].activeUntil == UNSET then now + 2_592_000 else r.keys[id].activeUntil))
  {
  }

  /** At a clock past `from` the key is tried no more, or it is tried until `until`. */
  predicate Lasts(key: Key, from: int, until: int) {
    if key.activeUntil == UNSET then until <= from + 2_592_000 else key.activeUntil < from || until <= key.activeUntil
  }

  /** The ring signs, and no key it verifies with lapses from `now` to `until`; `from` is where the stretch began. */
  ghost predicate Lasting(r: Ring, from: int, now: int, until: int) {
    && CanSign(r)
    && forall id :: id in r.keys ==>
         && Lasts(r.keys[id], from, until)
         && (id in r.verifying ==> InWindow(r.keys[id], now) && InWindow(r.keys[id], until))
  }

  /** Rollovers within a year of `from` to keys that start at once keep it so, and keep every key that is tried. */
  lemma {:induction false} RolloverLasts(r: Ring, newKey: Key, activeFrom: int, from: int, was: int, now: int,
                                         until: int)
    requires 0 < from <= was <= now <= until <= from + 31_536_000 && activeFrom <= now && newKey.id != ""
    requires Lasting(r, from, was, until)
    ensures var w := RolledOver(r, newKey, activeFrom, now).0;
            && Lasting(w, from, now, until)
            && forall id :: id in r.verifying ==> id in w.verifying
  {
    if newKey.id !in r.keys {
      RolloverKeeps(r, newKey, activeFrom, now);
      RolloverWindows(r, newKey, activeFrom, now);
      var w := RolledOver(r, newKey, activeFrom, now).0;
      forall id | id in w.keys
        ensures Lasts(w.keys[id], from, until)
        ensures id in w.verifying ==> InWindow(w.keys[id], now) && InWindow(w.keys[id], until)
      {
      }
    }
  }

  lemma {:induction false} OldKeysBounded(r: Ring, newKey: Key, activeFrom: int, now: int, all: map<string, Key>)
    requires RingOk(r) && newKey.id !in r.keys
    requires all == BoundedKeys(r.keys, r.order, now)[newKey.id := Installed(newKey, activeFrom, now)]
    ensures forall id :: id in r.keys ==>
              && id in all && all[id].id == id && all[id].secret == r.keys[id].secret
              && (InWindow(all[id], now) <==> InWindow(r.keys[id], now))
  {
  }

  lemma {:induction false} OldKeysTried(r: Ring, newID: string, now: int, all: map<string, Key>, order: seq<string>,
                                        verifying: seq<string>)
    requires RingOk(r) && order == r.order + [newID]
    requires forall id :: id in order ==> id in all
    requires forall id :: id in verifying <==> id in order && InWindow(all[id], now)
    requires forall id :: id in r.keys ==> id in all && (InWindow(all[id], now) <==> InWindow(r.keys[id], now))
    ensures forall id :: id in r.keys ==> (id in verifying <==> InWindow(r.keys[id], now))
  {
  }

  lemma {:induction false} RolloverRingOk(w: Ring, r: Ring, id: string)
    requires RingOk(r) && w.order == r.order + [id] && w.active == id
    requires w.keys.Keys == r.keys.Keys + {id} && forall k :: k in w.keys ==> w.keys[k].id == k
    requires forall k :: k in w.verifying ==> k in w.order
    ensures RingOk(w)
  {
  }

  // The ring as an object

  class Keyring {
    var keys: map<string, Key>
    var order: seq<string>
    var active: string
    var verifying: seq<string>

    ghost function State(): Ring
      reads this
    {
      Ring(keys, order, active, verifying)
    }

    constructor ()
      ensures State() == EMPTY_RING
    {
      keys, order, active, verifying := map[], [], "", [];
    }

    method Add(key: Key) returns (ok: bool)
      modifies this
      ensures (State(), ok) == Added(old(State()), key)
    {
      if key.id in keys {
        return false;
      }
      keys := keys[key.id := key];
      order := order + [key.id];
      verifying := verifying + [key.id];
      if active == "" {
        active := key.id;
      }
      ok := true;
    }

    method SigningKey() returns (key: Option<Key>)
      ensures key == SigningKeyOf(State())
    {
      if active == "" || active !in keys {
        return None;
      }
      key := Some(keys[active]);
    }

    method VerifyKeys() returns (found: seq<Key>)
      ensures found == VerifyKeysOf(State())
    {
      found := [];
      for i := 0 to |verifying|
        invariant found == KeysFor(keys, verifying[..i])
      {
        assert verifying[..i + 1][..i] == verifying[..i];
        if verifying[i] in keys {
          found := found + [keys[verifying[i]]];
        }
      }
      assert verifying[..|verifying|] == verifying;
    }

    method Rollover(newKey: Key, activeFrom: int, now: int) returns (ok: bool)
      requires RingOk(State())
      modifies this
      ensures (State(), ok) == RolledOver(old(State()), newKey, activeFrom, now)
    {
      if newKey.id in keys {
        return false;
      }
      ghost var before := keys;
      for i := 0 to |order|
        invariant order == old(order) && active == old(active) && verifying == old(verifying)
        invariant keys == BoundedKeys(before, order[..i], now)
      {
        var id := order[i];
        BoundedNext(before, order, i, now);
        keys := keys[id := Bounded(keys[id], now)];
      }
      assert order[..|order|] == order;
      keys := keys[newKey.id := Installed(newKey, activeFrom, now)];
      order := order + [newKey.id];
      active := newKey.id;
      verifying := Verifying(now);
      ok := true;
    }

    method Verifying(now: int) returns (ids: seq<string>)
      requires forall id :: id in order ==> id in keys
      ensures ids == VerificationSet(keys, order, now)
    {
      ids := [];
      for i := 0 to |order|
        invariant ids == InWindowIds(keys, order[..i], now)
      {
        assert order[..i + 1][..i] == order[..i];
        if InWindow(keys[order[i]], now) {
          ids := ids + [order[i]];
        }
      }
      assert order[..|order|] == order;
      ids := Sort(ids, StringLe);
    }
  }

  /** A second visit to a key changes nothing more. */
  lemma {:induction false} BoundedNext(keys: map<string, Key>, order: seq<string>, i: nat, now: int)
    requires i < |order| && forall id :: id in order ==> id in keys
    ensures var done := BoundedKeys(keys, order[..i], now);
            order[i] in done && BoundedKeys(keys, order[..i + 1], now) == done[order[i] := Bounded(done[order[i]], now)]
  {
    assert order[..i + 1] == order[..i] + [order[i]];
  }
}
