/**
 The data types shared by every component: records, changes, zone metadata,
 deltas and snapshots. Record types and change kinds are integers underneath, as
 in the program, because values outside the known ranges do reach the code.
 */
module Model {

  type uint32 = n: int | 0 <= n < 0x1_0000_0000
  type uint64 = n: int | 0 <= n < 0x1_0000_0000_0000_0000

  datatype Option<+T> = None | Some(value: T)

  datatype RecordType = RecordType(code: int)

  const TYPE_A := RecordType(1)
  const TYPE_AAAA := RecordType(2)
  const TYPE_CNAME := RecordType(3)
  const TYPE_MX := RecordType(4)
  const TYPE_TXT := RecordType(5)
  const TYPE_NS := RecordType(6)
  const TYPE_SOA := RecordType(7)
  const TYPE_RRSIG := RecordType(8)

  predicate KnownType(t: RecordType) {
    TYPE_A.code <= t.code <= TYPE_RRSIG.code
  }

  function TypeString(t: RecordType): string {
    if t == TYPE_A then "A"
    else if t == TYPE_AAAA then "AAAA"
    else if t == TYPE_CNAME then "CNAME"
    else if t == TYPE_MX then "MX"
    else if t == TYPE_TXT then "TXT"
    else if t == TYPE_NS then "NS"
    else if t == TYPE_SOA then "SOA"
    else if t == TYPE_RRSIG then "RRSIG"
    else "UNKNOWN"
  }

  type ChangeKind = int

  const UPSERT: ChangeKind := 1
  const DELETE: ChangeKind := 2

  predicate KnownKind(k: ChangeKind) {
    k == UPSERT || k == DELETE
  }

  function KindString(k: ChangeKind): string {
    if k == UPSERT then "upsert" else if k == DELETE then "delete" else "unknown"
  }

  datatype Record = Record(name: string, rtype: RecordType, ttl: uint32, rdata: string)

  datatype RRSet = RRSet(name: string, rtype: RecordType, records: seq<Record>)

  datatype SOA = SOA(mname: string, rname: string, serial: uint32,
                     refresh: uint32, retry: uint32, expire: uint32, minimum: uint32)

  datatype ZoneMeta = ZoneMeta(name: string, class_: string, soa: SOA, primary: bool)

  datatype Change = Change(kind: ChangeKind, record: Record)

  datatype SerialRange = SerialRange(start: uint32, end: uint32)

  datatype DeltaOp = DeltaOp(kind: ChangeKind, record: Record)

  datatype Delta = Delta(zone: string, range: SerialRange, ops: seq<DeltaOp>)

  datatype ZoneSnapshot = ZoneSnapshot(name: string, meta: ZoneMeta, serial: uint32, records: seq<Record>)

  datatype Query = Query(name: string, rtype: RecordType)

  datatype Answer = Answer(name: string, rtype: RecordType, ttl: uint32, rdata: string, nxdomain: bool)

  /** The text forms of two types coincide exactly when the types do, or when neither is known. */
  lemma {:induction false} TypeStringInjective(t: RecordType, u: RecordType)
    ensures TypeString(t) == TypeString(u) <==> t == u || (!KnownType(t) && !KnownType(u))
  {
    var s, r := TypeString(t), TypeString(u);
    if s == r {
      assert |s| == |r| && s[0] == r[0] && s[|s| - 1] == r[|r| - 1];
    }
  }

  /** No text form contains the separator used in cache and signature keys. */
  lemma {:induction false} TypeStringHasNoSeparator(t: RecordType)
    ensures forall i :: 0 <= i < |TypeString(t)| ==> TypeString(t)[i] != '\0'
  {
  }
}
