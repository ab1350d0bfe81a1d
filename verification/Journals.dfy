/** The change journal: the text form of a change, the append-only log, and what one entry replays to. */
module Journals {
  import opened Model
  import opened Records
  import opened Validation
  import opened Zones

  datatype JournalRecord = JournalRecord(name: string, rtype: string, ttl: uint32, rdata: string)

  datatype JournalChange = JournalChange(kind: string, record: JournalRecord)

  datatype Entry = Entry(zone: string, serial: uint32, change: JournalChange)

  function ToJournal(ch: Change): JournalChange {
    JournalChange(KindString(ch.kind),
                  JournalRecord(ch.record.name, TypeString(ch.record.rtype), ch.record.ttl, ch.record.rdata))
  }

  /** The types a replay understands; CNAME is not among them. */
  function ReplayedType(text: string): Option<RecordType> {
    if text == "A" then Some(TYPE_A)
    else if text == "AAAA" then Some(TYPE_AAAA)
    else if text == "TXT" then Some(TYPE_TXT)
    else if text == "MX" then Some(TYPE_MX)
    else if text == "NS" then Some(TYPE_NS)
    else None
  }

  function FromJournal(jc: JournalChange): Option<Change> {
    var kind := if jc.kind == "delete" then DELETE else UPSERT;
    match ReplayedType(jc.record.rtype)
    case None => None
    case Some(t) => Some(Change(kind, Record(jc.record.name, t, jc.record.ttl, jc.record.rdata)))
  }

  predicate IsCnameDelete(ch: Change) {
    ch.kind == DELETE && ch.record.rtype == TYPE_CNAME
  }

  lemma {:induction false} ReplayedTypeInverts(t: RecordType)
    ensures ReplayedType(TypeString(t)) ==
            if t in {TYPE_A, TYPE_AAAA, TYPE_TXT, TYPE_MX, TYPE_NS} then Some(t) else None
  {
    var s := TypeString(t);
    assert s == "A" ==> |s| == 1;
    assert |s| == 2 ==> s[0] == (if t == TYPE_MX then 'M' else 'N');
    assert |s| == 3 ==> s[0] == (if t == TYPE_TXT then 'T' else 'S');
    assert |"MX"| == 2 && "MX"[0] == 'M' && "NS"[0] == 'N' && "TXT"[0] == 'T';
  }

  /** Every valid change comes back from the journal unchanged, except that a CNAME delete does not come back at all. */
  lemma {:induction false} JournalRoundTrip(zoneName: string, ch: Change)
    requires ValidChange(zoneName, ch)
    ensures FromJournal(ToJournal(ch)) == if IsCnameDelete(ch) then None else Some(ch)
  {
    ReplayedTypeInverts(ch.record.rtype);
    assert "delete"[0] != "upsert"[0];
  }

  /** A line replays as a delete if it says so and as an upsert whatever else it says, of the record it holds. */
  lemma {:induction false} AnyOtherKind(jc: JournalChange, kind: string)
    ensures FromJournal(jc).Some? ==>
              && var ch := FromJournal(jc).value;
              && (ch.kind == DELETE <==> jc.kind == "delete") && (ch.kind == UPSERT <==> jc.kind != "delete")
              && (kind != "delete" && jc.kind != "delete" ==> FromJournal(jc.(kind := kind)) == Some(ch))
              && ch.record.name == jc.record.name
              && ch.record.ttl == jc.record.ttl && ch.record.rdata == jc.record.rdata
  {
  }

  // The log

  /** The bytes of an entry's line, its end included; the text encoding itself is not part of this model. */
  const LineLength: Entry -> nat

  const SCAN_LIMIT := 1024 * 1024

  predicate Fits(e: Entry) {
    LineLength(e) <= SCAN_LIMIT
  }

  /** Reading the lines back: one that is longer than the scanner's buffer makes the whole scan fail. */
  function Scan(lines: seq<Entry>): Option<seq<Entry>> {
    if forall i :: 0 <= i < |lines| ==> Fits(lines[i]) then Some(lines) else None
  }

  /** The journal is read back, whole and in order, exactly when no line is longer than 1 048 576 bytes. */
  lemma {:induction false} ScanReads(lines: seq<Entry>)
    ensures Scan(lines) == Some(lines) <==> forall i :: 0 <= i < |lines| ==> LineLength(lines[i]) <= 1_048_576
    ensures Scan(lines) == Some(lines) || Scan(lines) == None
  {
    forall i | 0 <= i < |lines| ensures Fits(lines[i]) <==> LineLength(lines[i]) <= 1_048_576 {
    }
  }

  /** What becomes of an append: turned down beforehand, not written, written but not synced, or done. */
  datatype Fate = Refused | Unwritten | Unsynced | Done

  /** A journal without a file accepts entries and keeps none of them. */
  class Journal {
    const durable: bool
    var lines: seq<Entry>

    constructor (durable: bool)
      ensures this.durable == durable && lines == []
    {
      this.durable, lines := durable, [];
    }

    /** An append whose sync fails reports an error although its line is in the file. */
    method Append(entry: Entry, fate: Fate) returns (ok: bool)
      modifies this
      ensures ok <==> fate.Done? || (!durable && !fate.Refused?)
      ensures lines == old(lines) + if durable && (fate.Done? || fate.Unsynced?) then [entry] else []
    {
      if fate.Refused? {
        return false;
      }
      if !durable {
        return true;
      }
      if fate.Unwritten? {
        return false;
      }
      lines := lines + [entry];
      ok := fate.Done?;
    }

    method Replay() returns (entries: Option<seq<Entry>>)
      ensures entries == if durable then Scan(lines) else Some([])
    {
      var scanned: seq<Entry> := [];
      if !durable {
        return Some(scanned);
      }
      for i := 0 to |lines|
        invariant scanned == lines[..i] && forall j :: 0 <= j < i ==> Fits(lines[j])
      {
        if !Fits(lines[i]) {
          return None;
        }
        scanned := scanned + [lines[i]];
      }
      assert lines[..|lines|] == lines;
      entries := Some(scanned);
    }
  }
}
