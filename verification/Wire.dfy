/**
 The bytes a signature covers: encoded names, the RRset in stored order, and the header.
 One character is one byte.
 */
module Wire {
  import opened Model
  import opened Names

  type byte = n: int | 0 <= n < 256

  function ByteOf(c: char): byte {
    (c as int) % 256
  }

  function BytesOf(s: string): seq<byte> {
    seq(|s|, i requires 0 <= i < |s| => ByteOf(s[i]))
  }

  function Big16(n: int): seq<byte> {
    [n / 256 % 256, n % 256]
  }

  function Big32(n: int): seq<byte> {
    [n / 0x100_0000 % 256, n / 0x1_0000 % 256, n / 256 % 256, n % 256]
  }

  // Names

  function EncodeLabel(text: string): seq<byte> {
    if text == "" then [] else [|text| % 256] + BytesOf(ToLower(text))
  }

  function EncodeLabels(labels: seq<string>): seq<byte> {
    if labels == [] then [] else EncodeLabel(labels[0]) + EncodeLabels(labels[1..])
  }

  function EncodedName(name: string): seq<byte> {
    EncodeLabels(Labels(TrimDot(name))) + [0]
  }

  lemma {:induction false} Assoc(a: seq<byte>, b: seq<byte>, c: seq<byte>)
    ensures (a + b) + c == a + (b + c)
  {
  }

  /** The loop over the labels; empty ones are dropped. */
  method EncodeName(name: string) returns (out: seq<byte>)
    ensures out == EncodedName(name)
  {
    var labels := Labels(TrimDot(name));
    out := [];
    for i := 0 to |labels|
      invariant out + EncodeLabels(labels[i..]) == EncodeLabels(labels)
    {
      assert labels[i..][1..] == labels[i + 1..];
      Assoc(out, EncodeLabel(labels[i]), EncodeLabels(labels[i + 1..]));
      if labels[i] == "" {
        assert out + EncodeLabel(labels[i]) == out;
        continue;
      }
      var prefix: byte := |labels[i]| % 256;
      out := out + ([prefix] + BytesOf(ToLower(labels[i])));
    }
    assert labels[|labels|..] == [];
    out := out + [0];
  }

  /** The labels of a name that reach the wire: not empty, lower-cased. */
  function WireLabels(labels: seq<string>): seq<string> {
    if labels == [] then []
    else if labels[0] == "" then WireLabels(labels[1..])
    else [ToLower(labels[0])] + WireLabels(labels[1..])
  }

  /** Names with labels of at most 255 bytes, as section 3.1 of RFC 1035 allows up to its own bound of 63. */
  ghost predicate ShortLabels(labels: seq<string>) {
    forall i :: 0 <= i < |labels| ==> |labels[i]| <= 255 && ByteString(labels[i])
  }

  ghost predicate ByteString(s: string) {
    forall i :: 0 <= i < |s| ==> s[i] as int < 256
  }

  function StringOf(bytes: seq<byte>): string {
    seq(|bytes|, i requires 0 <= i < |bytes| => bytes[i] as char)
  }

  datatype Decoded = Malformed | Decoded(labels: seq<string>, rest: seq<byte>)

  /** Reads length-prefixed labels up to the zero byte. */
  function Decode(bytes: seq<byte>): Decoded {
    if bytes == [] then Malformed
    else if bytes[0] == 0 then Decoded([], bytes[1..])
    else
      var next: int := 1 + bytes[0] as int;
      if |bytes| < next then Malformed
      else
        match Decode(bytes[next..])
        case Malformed => Malformed
        case Decoded(labels, rest) => Decoded([StringOf(bytes[1..next])] + labels, rest)
  }

  lemma {:induction false} StringRoundTrip(s: string)
    requires ByteString(s)
    ensures StringOf(BytesOf(s)) == s
  {
    forall i | 0 <= i < |s| ensures StringOf(BytesOf(s))[i] == s[i] {
      assert (s[i] as int) % 256 == s[i] as int;
    }
  }

  lemma {:induction false} DecodeOne(lower: string, tail: seq<byte>)
    requires 1 <= |lower| <= 255 && ByteString(lower) && Decode(tail).Decoded?
    ensures Decode([|lower|] + BytesOf(lower) + tail) == Decoded([lower] + Decode(tail).labels, Decode(tail).rest)
  {
    var bytes := [|lower|] + BytesOf(lower) + tail;
    assert bytes[1..1 + |lower|] == BytesOf(lower);
    assert bytes[1 + |lower|..] == tail;
    StringRoundTrip(lower);
  }

  ghost predicate Reads(bytes: seq<byte>, labels: seq<string>, rest: seq<byte>) {
    Decode(bytes) == Decoded(labels, rest)
  }

  lemma {:induction false} DecodeLabels(labels: seq<string>, rest: seq<byte>)
    requires ShortLabels(labels)
    ensures Reads(EncodeLabels(labels) + [0] + rest, WireLabels(labels), rest)
  {
    if labels == [] {
      assert EncodeLabels(labels) + [0] + rest == [0] + rest;
      assert ([0] + rest)[1..] == rest;
    } else {
      var head, tail := EncodeLabel(labels[0]), EncodeLabels(labels[1..]);
      DecodeLabels(labels[1..], rest);
      ReadsFirst(labels, tail + [0] + rest, rest);
      Assoc(head, tail, [0]);
      Assoc(head, tail + [0], rest);
    }
  }

  lemma {:induction false} ReadsFirst(labels: seq<string>, tail: seq<byte>, rest: seq<byte>)
    requires labels != [] && ShortLabels(labels) && Reads(tail, WireLabels(labels[1..]), rest)
    ensures Reads(EncodeLabel(labels[0]) + tail, WireLabels(labels), rest)
  {
    var head := labels[0];
    if head == "" {
      assert EncodeLabel(head) + tail == tail;
    } else {
      var lower := ToLower(head);
      LowerIsShort(head);
      assert EncodeLabel(head) == [|lower|] + BytesOf(lower);
      DecodeOne(lower, tail);
    }
  }

  lemma {:induction false} LowerIsShort(s: string)
    requires |s| <= 255 && ByteString(s)
    ensures |ToLower(s)| == |s| == |s| % 256 && ByteString(ToLower(s))
  {
  }

  /**
   The encoding of a byte string can be read back, whatever follows it, to the
   lower-cased labels without the empty ones, exactly when no label is longer than
   the 255 bytes its length byte can tell.
   */
  lemma {:induction false} NameDecodes(name: string, rest: seq<byte>)
    requires ByteString(name)
    ensures Decode(EncodedName(name) + rest) == Decoded(WireLabels(Labels(TrimDot(name))), rest)
            <==> ShortLabels(Labels(TrimDot(name)))
  {
    var labels, bytes := Labels(TrimDot(name)), EncodedName(name) + rest;
    LabelsAreBytes(TrimDot(name));
    if ShortLabels(labels) {
      DecodeLabels(labels, rest);
    } else if Decode(bytes) == Decoded(WireLabels(labels), rest) {
      var i :| 0 <= i < |labels| && |labels[i]| > 255;
      DecodedAreShort(bytes);
      LongReachesWire(labels, i);
    }
  }

  lemma {:induction false} LabelsAreBytes(s: string)
    requires ByteString(s)
    ensures forall i :: 0 <= i < |Labels(s)| ==> ByteString(Labels(s)[i])
  {
    if s != "" {
      LabelsAreBytes(s[1..]);
    }
  }

  lemma {:induction false} DecodedAreShort(bytes: seq<byte>)
    ensures Decode(bytes).Decoded? ==> forall i :: 0 <= i < |Decode(bytes).labels| ==> |Decode(bytes).labels[i]| <= 255
  {
    if bytes != [] && bytes[0] != 0 && 1 + bytes[0] <= |bytes| {
      DecodedAreShort(bytes[1 + bytes[0]..]);
    }
  }

  lemma {:induction false} LongReachesWire(labels: seq<string>, i: nat)
    requires i < |labels| && |labels[i]| > 255
    ensures exists j :: 0 <= j < |WireLabels(labels)| && |WireLabels(labels)[j]| > 255
  {
    var wire := WireLabels(labels);
    if i == 0 {
      assert wire[0] == ToLower(labels[0]);
    } else {
      LongReachesWire(labels[1..], i - 1);
      var rest := WireLabels(labels[1..]);
      var j :| 0 <= j < |rest| && |rest[j]| > 255;
      assert wire[if labels[0] == "" then j else j + 1] == rest[j];
    }
  }

  /**
   Encodings of names with the same wire labels agree, so case and empty labels are
   forgotten. Without long labels nothing else is: two encodings, each followed by
   anything, then agree only if the wire labels and what follows do, and no encoding
   is a proper prefix of another.
   */
  lemma {:induction false} EncodingIsPrefixFree(a: string, b: string, restA: seq<byte>, restB: seq<byte>)
    ensures WireLabels(Labels(TrimDot(a))) == WireLabels(Labels(TrimDot(b))) && restA == restB
            ==> EncodedName(a) + restA == EncodedName(b) + restB
    ensures ShortLabels(Labels(TrimDot(a))) && ShortLabels(Labels(TrimDot(b)))
            && EncodedName(a) + restA == EncodedName(b) + restB
            ==> WireLabels(Labels(TrimDot(a))) == WireLabels(Labels(TrimDot(b))) && restA == restB
  {
    if ShortLabels(Labels(TrimDot(a))) && ShortLabels(Labels(TrimDot(b))) {
      DecodeLabels(Labels(TrimDot(a)), restA);
      DecodeLabels(Labels(TrimDot(b)), restB);
    }
    WireLabelsSuffice(Labels(TrimDot(a)));
    WireLabelsSuffice(Labels(TrimDot(b)));
  }

  /** Encoding the wire labels gives the encoding of the labels they came from. */
  lemma {:induction false} WireLabelsSuffice(labels: seq<string>)
    ensures EncodeLabels(WireLabels(labels)) == EncodeLabels(labels)
  {
    if labels != [] {
      WireLabelsSuffice(labels[1..]);
      if labels[0] == "" {
        assert EncodeLabel(labels[0]) + EncodeLabels(labels[1..]) == EncodeLabels(labels[1..]);
      } else {
        LowerTwice(labels[0]);
        assert WireLabels(labels)[1..] == WireLabels(labels[1..]);
      }
    }
  }

  lemma {:induction false} LowerTwice(s: string)
    ensures ToLower(ToLower(s)) == ToLower(s)
  {
  }

  /** A label of 256 bytes is announced as empty: the encoding of the root is a proper prefix of that of such a name. */
  lemma {:induction false} LongLabelExample(text: string, rest: seq<byte>)
    requires |text| == 256 && forall i :: 0 <= i < 256 ==> text[i] == 'a'
    ensures EncodedName(text) + rest == EncodedName("") + (BytesOf(ToLower(text)) + [0] + rest)
    ensures WireLabels(Labels(TrimDot(text))) == [ToLower(text)] && WireLabels(Labels(TrimDot(""))) == []
  {
    NoDots(text);
    assert TrimDot(text) == text;
    assert [text][1..] == [] && [""][1..] == [];
    assert EncodeLabels([text]) == EncodeLabel(text) + [] == EncodeLabel(text);
    assert EncodeLabels([""]) == [] + [] == [];
    assert EncodedName("") == [] + [0] == [0];
    var text' := BytesOf(ToLower(text));
    assert EncodeLabel(text) == [0] + text';
    Assoc([0], text', [0]);
    Assoc([0], text' + [0], rest);
  }

  lemma {:induction false} NoDots(s: string)
    requires forall i :: 0 <= i < |s| ==> s[i] != '.'
    ensures Labels(s) == [s]
  {
    if s != "" {
      NoDots(s[1..]);
      assert [s[0]] + s[1..] == s;
    }
  }

  // RRsets

  function EncodeRecord(r: Record): seq<byte> {
    EncodedName(r.name) + Big16(r.rtype.code) + Big16(1) + Big32(r.ttl)
    + BytesOf(ToLower(r.rdata))
  }

  function Flatten(parts: seq<seq<byte>>): seq<byte> {
    if parts == [] then [] else Flatten(parts[..|parts| - 1]) + parts[|parts| - 1]
  }

  function Parts(records: seq<Record>): seq<seq<byte>> {
    seq(|records|, i requires 0 <= i < |records| => EncodeRecord(records[i]))
  }

  function EncodedRRSet(records: seq<Record>): seq<byte> {
    Flatten(Parts(records))
  }

  lemma {:induction false} FlattenSnoc(parts: seq<seq<byte>>, part: seq<byte>)
    ensures Flatten(parts + [part]) == Flatten(parts) + part
  {
    assert (parts + [part])[..|parts|] == parts;
  }

  lemma {:induction false} RecordSnoc(records: seq<Record>, r: Record)
    ensures EncodedRRSet(records + [r]) == EncodedRRSet(records) + EncodeRecord(r)
  {
    assert Parts(records + [r]) == Parts(records) + [EncodeRecord(r)];
    FlattenSnoc(Parts(records), EncodeRecord(r));
  }

  /** Appending the parts of a record one by one appends the record. */
  lemma {:induction false} RecordAppended(done: seq<byte>, r: Record)
    ensures done + EncodedName(r.name) + Big16(r.rtype.code) + Big16(1) + Big32(r.ttl) + BytesOf(ToLower(r.rdata))
            == done + EncodeRecord(r)
  {
    var a, b, c, d, e := EncodedName(r.name), Big16(r.rtype.code), Big16(1), Big32(r.ttl), BytesOf(ToLower(r.rdata));
    Assoc(done, a, b);
    Assoc(done, a + b, c);
    Assoc(done, a + b + c, d);
    Assoc(done, a + b + c + d, e);
  }

  method CanonicalRRSet(records: seq<Record>) returns (payload: seq<byte>)
    ensures payload == EncodedRRSet(records)
  {
    payload := [];
    for i := 0 to |records|
      invariant payload == EncodedRRSet(records[..i])
    {
      assert records[..i + 1] == records[..i] + [records[i]];
      RecordSnoc(records[..i], records[i]);
      var r := records[i];
      ghost var done := payload;
      var name := EncodeName(r.name);
      payload := payload + name;
      payload := payload + Big16(r.rtype.code);
      payload := payload + Big16(1);
      payload := payload + Big32(r.ttl);
      payload := payload + BytesOf(ToLower(r.rdata));
      RecordAppended(done, r);
    }
    assert records[..|records|] == records;
  }

  function Header(rrset: RRSet, expires: uint32, incept: uint32, keyID: string): seq<byte> {
    EncodedName(rrset.name) + [rrset.rtype.code % 256, 0] + Big32(0) + Big32(expires) + Big32(incept)
    + [|keyID| % 256] + BytesOf(keyID)
  }

  /** What is signed and verified. */
  function Payload(rrset: RRSet, expires: uint32, incept: uint32, keyID: string): seq<byte> {
    Header(rrset, expires, incept, keyID) + EncodedRRSet(rrset.records)
  }

  /** Under one header, payloads agree exactly when the record bytes do. */
  lemma {:induction false} PayloadRecords(name: string, t: RecordType, a: seq<Record>, b: seq<Record>,
                                          expires: uint32, incept: uint32, keyID: string)
    ensures Payload(RRSet(name, t, a), expires, incept, keyID) == Payload(RRSet(name, t, b), expires, incept, keyID)
            <==> EncodedRRSet(a) == EncodedRRSet(b)
  {
    var h := Header(RRSet(name, t, a), expires, incept, keyID);
    assert h == Header(RRSet(name, t, b), expires, incept, keyID);
    assert (h + EncodedRRSet(a))[|h|..] == EncodedRRSet(a);
    assert (h + EncodedRRSet(b))[|h|..] == EncodedRRSet(b);
  }

  /** What a signature says of itself. */
  datatype Stamp = Stamp(expires: uint32, incept: uint32, keyID: string)

  function Stamped(rrset: RRSet, stamp: Stamp): seq<byte> {
    Payload(rrset, stamp.expires, stamp.incept, stamp.keyID)
  }

  /** Identifiers whose length byte tells their length. */
  ghost predicate ShortID(keyID: string) {
    |keyID| <= 255 && ByteString(keyID)
  }

  function Fixed(t: RecordType, stamp: Stamp): seq<byte> {
    [t.code % 256, 0] + Big32(0) + Big32(stamp.expires) + Big32(stamp.incept)
  }

  function Tail(records: seq<Record>, keyID: string): seq<byte> {
    [|keyID| % 256] + BytesOf(keyID) + EncodedRRSet(records)
  }

  lemma {:induction false} PayloadParts(rrset: RRSet, stamp: Stamp)
    ensures Stamped(rrset, stamp)
            == EncodedName(rrset.name) + (Fixed(rrset.rtype, stamp) + Tail(rrset.records, stamp.keyID))
  {
    var name, fixed, length := EncodedName(rrset.name), Fixed(rrset.rtype, stamp), [|stamp.keyID| % 256];
    var id, records := BytesOf(stamp.keyID), EncodedRRSet(rrset.records);
    assert Header(rrset, stamp.expires, stamp.incept, stamp.keyID) == name + fixed + length + id;
    Assoc(name + fixed, length, id);
    Assoc(name + fixed, length + id, records);
    Assoc(name, fixed, length + id + records);
  }

  lemma {:induction false} SplitEqual(a: seq<byte>, x: seq<byte>, b: seq<byte>, y: seq<byte>)
    requires |a| == |b|
    ensures a + x == b + y <==> a == b && x == y
  {
    assert (a + x)[..|a|] == a && (b + y)[..|b|] == b;
    assert (a + x)[|a|..] == x && (b + y)[|b|..] == y;
  }

  lemma {:induction false} FixedDetermines(t: RecordType, stamp: Stamp, t': RecordType, stamp': Stamp)
    ensures Fixed(t, stamp) == Fixed(t', stamp')
            <==> t.code % 256 == t'.code % 256 && stamp.expires == stamp'.expires && stamp.incept == stamp'.incept
  {
    var a, b := Fixed(t, stamp), Fixed(t', stamp');
    assert a[0] == t.code % 256 && b[0] == t'.code % 256;
    assert a[6..10] == Big32(stamp.expires) && b[6..10] == Big32(stamp'.expires);
    assert a[10..14] == Big32(stamp.incept) && b[10..14] == Big32(stamp'.incept);
    if a == b {
      Big32Injective(stamp.expires, stamp'.expires);
      Big32Injective(stamp.incept, stamp'.incept);
    }
  }

  lemma {:induction false} IdBytes(id: string, id': string)
    requires ShortID(id) && ShortID(id') && |id| == |id'|
    ensures [|id| % 256] + BytesOf(id) == [|id'| % 256] + BytesOf(id') <==> id == id'
  {
    SplitEqual([|id| % 256], BytesOf(id), [|id'| % 256], BytesOf(id'));
    StringRoundTrip(id);
    StringRoundTrip(id');
  }

  lemma {:induction false} TailStarts(records: seq<Record>, id: string)
    requires ShortID(id)
    ensures Tail(records, id) != [] && Tail(records, id)[0] == |id|
  {
  }

  lemma {:induction false} TailDetermines(records: seq<Record>, id: string, records': seq<Record>, id': string)
    requires ShortID(id) && ShortID(id')
    ensures Tail(records, id) == Tail(records', id') <==> id == id' && EncodedRRSet(records) == EncodedRRSet(records')
  {
    TailStarts(records, id);
    TailStarts(records', id');
    if |id| == |id'| {
      var a: seq<byte>, b: seq<byte> := [|id| % 256] + BytesOf(id), [|id'| % 256] + BytesOf(id');
      IdBytes(id, id');
      SplitEqual(a, EncodedRRSet(records), b, EncodedRRSet(records'));
    }
  }

  /** Under one name and type the signed bytes fix expiry, inception, key identifier and record bytes, one by one. */
  lemma {:induction false} PayloadFixesStamp(name: string, t: RecordType, a: seq<Record>, stamp: Stamp,
                                             b: seq<Record>, stamp': Stamp)
    ensures Stamped(RRSet(name, t, a), stamp) == Stamped(RRSet(name, t, b), stamp')
            ==> stamp.expires == stamp'.expires && stamp.incept == stamp'.incept
    ensures ShortID(stamp.keyID) && ShortID(stamp'.keyID) ==>
              (Stamped(RRSet(name, t, a), stamp) == Stamped(RRSet(name, t, b), stamp')
               <==> stamp == stamp' && EncodedRRSet(a) == EncodedRRSet(b))
  {
    var f, f', x, x' := Fixed(t, stamp), Fixed(t, stamp'), Tail(a, stamp.keyID), Tail(b, stamp'.keyID);
    PayloadParts(RRSet(name, t, a), stamp);
    PayloadParts(RRSet(name, t, b), stamp');
    SplitEqual(EncodedName(name), f + x, EncodedName(name), f' + x');
    SplitEqual(f, x, f', x');
    FixedDetermines(t, stamp, t, stamp');
    if ShortID(stamp.keyID) && ShortID(stamp'.keyID) {
      TailDetermines(a, stamp.keyID, b, stamp'.keyID);
    }
  }

  /**
   What a signature covers: without long labels and identifiers, two payloads agree
   exactly when the lower-cased labels, the low byte of the type, expiry, inception, the
   key identifier and the record bytes all do.
   */
  lemma {:induction false} PayloadCovers(r: RRSet, stamp: Stamp, r': RRSet, stamp': Stamp)
    requires ShortLabels(Labels(TrimDot(r.name))) && ShortLabels(Labels(TrimDot(r'.name)))
    requires ShortID(stamp.keyID) && ShortID(stamp'.keyID)
    ensures Stamped(r, stamp) == Stamped(r', stamp')
            <==> && WireLabels(Labels(TrimDot(r.name))) == WireLabels(Labels(TrimDot(r'.name)))
                 && r.rtype.code % 256 == r'.rtype.code % 256 && stamp == stamp'
                 && EncodedRRSet(r.records) == EncodedRRSet(r'.records)
  {
    var f, f' := Fixed(r.rtype, stamp), Fixed(r'.rtype, stamp');
    var x, x' := Tail(r.records, stamp.keyID), Tail(r'.records, stamp'.keyID);
    PayloadParts(r, stamp);
    PayloadParts(r', stamp');
    EncodingIsPrefixFree(r.name, r'.name, f + x, f' + x');
    SplitEqual(f, x, f', x');
    FixedDetermines(r.rtype, stamp, r'.rtype, stamp');
    TailDetermines(r.records, stamp.keyID, r'.records, stamp'.keyID);
  }

  /** One more record is more bytes. */
  lemma {:induction false} MoreRecordsMoreBytes(records: seq<Record>, r: Record)
    ensures EncodedRRSet(records + [r]) != EncodedRRSet(records)
  {
    RecordSnoc(records, r);
    assert |EncodeRecord(r)| > 0;
  }

  // What the signed bytes determine

  /** Rdata carries no length, so the bytes of a further record can just as well be rdata. */
  lemma {:induction false} SwallowedRecord(r: Record, next: Record)
    requires Lowered(StringOf(EncodeRecord(next)))
    ensures EncodedRRSet([r, next]) == EncodedRRSet([r.(rdata := r.rdata + StringOf(EncodeRecord(next)))])
  {
    var text, whole := StringOf(EncodeRecord(next)), r.(rdata := r.rdata + StringOf(EncodeRecord(next)));
    assert BytesOf(ToLower(text)) == EncodeRecord(next);
    assert BytesOf(ToLower(r.rdata + text)) == BytesOf(ToLower(r.rdata)) + BytesOf(ToLower(text));
    var head := EncodedName(r.name) + Big16(r.rtype.code) + Big16(1) + Big32(r.ttl);
    Assoc(head, BytesOf(ToLower(r.rdata)), EncodeRecord(next));
    assert EncodeRecord(whole) == EncodeRecord(r) + EncodeRecord(next);
    FrontRecord([r, next]);
    assert [r, next][1..] == [next];
    OneRecord(next);
    OneRecord(whole);
  }

  lemma {:induction false} OneRecord(r: Record)
    ensures EncodedRRSet([r]) == EncodeRecord(r)
  {
    RecordSnoc([], r);
    assert [] + [r] == [r] && Parts([]) == [];
    assert [] + EncodeRecord(r) == EncodeRecord(r);
  }

  /** Two texts at one name are signed like a single text, which is a valid record as well. */
  lemma {:induction false} SwallowedExample(x: Record, y: Record, xy: Record)
    requires x == Record("a", TYPE_TXT, 0, "x") && y == Record("a", TYPE_TXT, 0, "y")
    requires xy == x.(rdata := "x" + StringOf([1, 97, 0, 0, 5, 0, 1, 0, 0, 0, 0, 121]))
    ensures EncodedRRSet([x, y]) == EncodedRRSet([xy]) && 1 <= |xy.rdata| <= 255
  {
    NoDots("a");
    assert ToLower("a") == "a" && ToLower("y") == "y";
    assert EncodeLabels(["a"]) == EncodeLabel("a") + [] == [1, 97];
    assert EncodedName("a") == [1, 97, 0];
    assert EncodeRecord(y) == [1, 97, 0, 0, 5, 0, 1, 0, 0, 0, 0, 121];
    SwallowedRecord(x, y);
  }

  lemma {:induction false} FlattenFront(parts: seq<seq<byte>>)
    requires parts != []
    ensures Flatten(parts) == parts[0] + Flatten(parts[1..])
  {
    var front, last := parts[..|parts| - 1], parts[|parts| - 1];
    if front == [] {
      assert parts == [last] && parts[1..] == [];
    } else {
      FlattenFront(front);
      assert parts[1..][..|parts[1..]| - 1] == front[1..];
      Assoc(parts[0], Flatten(front[1..]), last);
    }
  }

  lemma {:induction false} FrontRecord(records: seq<Record>)
    requires records != []
    ensures EncodedRRSet(records) == EncodeRecord(records[0]) + EncodedRRSet(records[1..])
  {
    FlattenFront(Parts(records));
    PartsTail(records);
  }

  lemma {:induction false} PartsTail(records: seq<Record>)
    requires records != []
    ensures Parts(records) != [] && Parts(records)[1..] == Parts(records[1..])
  {
    var tail := records[1..];
    assert |Parts(records)[1..]| == |Parts(tail)|;
    forall i | 0 <= i < |tail| ensures Parts(records)[1..][i] == Parts(tail)[i] {
      assert tail[i] == records[1 + i];
    }
  }

  ghost predicate NonZero(bytes: seq<byte>) {
    forall i :: 0 <= i < |bytes| ==> bytes[i] != 0
  }

  /** Records of one name and type whose rdata holds no zero byte. */
  ghost predicate PlainRRSet(records: seq<Record>, name: string, t: RecordType) {
    forall i :: 0 <= i < |records| ==>
      records[i].name == name && records[i].rtype == t && NonZero(BytesOf(ToLower(records[i].rdata)))
  }

  /** Two lists that differ at most in the case of letters in their rdata. */
  ghost predicate SameButCase(a: seq<Record>, b: seq<Record>) {
    && |a| == |b|
    && forall i :: 0 <= i < |a| ==>
         a[i].ttl == b[i].ttl && BytesOf(ToLower(a[i].rdata)) == BytesOf(ToLower(b[i].rdata))
  }

  /** Zero-free text before a block that starts with a given head, or before nothing, can be told from it. */
  lemma {:induction false} TextEnds(head: seq<byte>, zero: nat, text: seq<byte>, rest: seq<byte>,
                                    text': seq<byte>, rest': seq<byte>)
    requires zero < |head| && head[zero] == 0 && NonZero(head[..zero]) && NonZero(text) && NonZero(text')
    requires (rest == [] || head <= rest) && (rest' == [] || head <= rest') && text + rest == text' + rest'
    ensures |text| >= |text'|
  {
    if |text| < |text'| {
      assert rest != [] && (text + rest)[|text| + zero] == rest[zero] == head[zero];
      NoZeroBefore(head, zero, text', rest', |text| + zero);
    }
  }

  lemma {:induction false} NoZeroBefore(head: seq<byte>, zero: nat, text: seq<byte>, rest: seq<byte>, at: nat)
    requires zero < |head| && NonZero(head[..zero]) && NonZero(text) && (rest == [] || head <= rest)
    requires at < |text + rest| && at < |text| + zero
    ensures (text + rest)[at] != 0
  {
    if at < |text| {
      assert (text + rest)[at] == text[at];
    } else {
      var k := at - |text|;
      assert (text + rest)[at] == rest[k] == head[k] == head[..zero][k];
    }
  }

  lemma {:induction false} TextSeparates(head: seq<byte>, zero: nat, text: seq<byte>, rest: seq<byte>,
                                         text': seq<byte>, rest': seq<byte>)
    requires zero < |head| && head[zero] == 0 && NonZero(head[..zero]) && NonZero(text) && NonZero(text')
    requires (rest == [] || head <= rest) && (rest' == [] || head <= rest') && text + rest == text' + rest'
    ensures text == text' && rest == rest'
  {
    TextEnds(head, zero, text, rest, text', rest');
    TextEnds(head, zero, text', rest', text, rest);
    assert (text + rest)[..|text|] == text && (text' + rest')[..|text'|] == text';
    assert (text + rest)[|text|..] == rest && (text' + rest')[|text'|..] == rest';
  }

  lemma {:induction false} FirstZero(bytes: seq<byte>) returns (zero: nat)
    requires bytes != [] && bytes[|bytes| - 1] == 0
    ensures zero < |bytes| && bytes[zero] == 0 && NonZero(bytes[..zero])
  {
    if bytes[0] == 0 {
      zero := 0;
    } else {
      var later := FirstZero(bytes[1..]);
      zero := later + 1;
      assert forall i :: 0 < i < zero ==> bytes[i] == bytes[1..][..zero - 1][i - 1];
    }
  }

  lemma {:induction false} StartsWithName(records: seq<Record>, name: string)
    requires records != [] ==> records[0].name == name
    ensures records == [] || EncodedName(name) <= EncodedRRSet(records)
    ensures records == [] ==> EncodedRRSet(records) == []
    ensures records != [] ==> EncodedRRSet(records) != []
  {
    if records != [] {
      FrontRecord(records);
      Assoc(EncodedName(name), Big16(records[0].rtype.code), Big16(1));
    }
  }

  lemma {:induction false} Big32Injective(a: uint32, b: uint32)
    requires Big32(a) == Big32(b)
    ensures a == b
  {
    Big32Value(a);
    Big32Value(b);
  }

  lemma {:induction false} Big32Value(n: uint32)
    ensures var bytes := Big32(n);
            n == bytes[0] as int * 0x100_0000 + bytes[1] as int * 0x1_0000 + bytes[2] as int * 256 + bytes[3]
  {
    assert n / 256 / 256 == n / 0x1_0000 && n / 0x1_0000 / 256 == n / 0x100_0000;
    assert n / 0x100_0000 < 256;
  }

  /** A record of the set is a fixed prefix, its TTL and its text. */
  lemma {:induction false} RecordParts(r: Record, tail: seq<byte>)
    ensures var prefix := EncodedName(r.name) + Big16(r.rtype.code) + Big16(1);
            EncodeRecord(r) + tail == prefix + Big32(r.ttl) + (BytesOf(ToLower(r.rdata)) + tail)
  {
    var prefix := EncodedName(r.name) + Big16(r.rtype.code) + Big16(1);
    Assoc(prefix + Big32(r.ttl), BytesOf(ToLower(r.rdata)), tail);
  }

  lemma {:induction false} CutPrefix(prefix: seq<byte>, a: uint32, rest: seq<byte>, b: uint32, rest': seq<byte>)
    requires prefix + Big32(a) + rest == prefix + Big32(b) + rest'
    ensures a == b && rest == rest'
  {
    var n := |prefix|;
    var x, y := prefix + Big32(a) + rest, prefix + Big32(b) + rest';
    assert x[n..n + 4] == Big32(a) && y[n..n + 4] == Big32(b);
    assert x[n + 4..] == rest && y[n + 4..] == rest';
    Big32Injective(a, b);
  }

  /**
   Where no rdata holds a zero byte, equal signed bytes of two RRsets of one name and
   type mean equal lists: same length, same TTLs, same rdata but for the case of letters.
   */
  lemma {:induction false} SameBytes(a: seq<Record>, b: seq<Record>, name: string, t: RecordType)
    requires PlainRRSet(a, name, t) && PlainRRSet(b, name, t)
    ensures EncodedRRSet(a) == EncodedRRSet(b) <==> SameButCase(a, b)
  {
    StartsWithName(a, name);
    StartsWithName(b, name);
    if a != [] && b != [] {
      SameBytes(a[1..], b[1..], name, t);
      FrontRecord(a);
      FrontRecord(b);
      if EncodedRRSet(a) == EncodedRRSet(b) {
        FirstRecordsAgree(a, b, name, t);
        SameTail(a, b);
      } else if SameButCase(a, b) {
        assert SameButCase(a[1..], b[1..]);
      }
    }
  }

  lemma {:induction false} SameTail(a: seq<Record>, b: seq<Record>)
    requires a != [] && b != [] && SameButCase(a[1..], b[1..])
    requires a[0].ttl == b[0].ttl && BytesOf(ToLower(a[0].rdata)) == BytesOf(ToLower(b[0].rdata))
    ensures SameButCase(a, b)
  {
    forall i | 0 <= i < |a|
      ensures a[i].ttl == b[i].ttl && BytesOf(ToLower(a[i].rdata)) == BytesOf(ToLower(b[i].rdata))
    {
      if i > 0 {
        assert a[i] == a[1..][i - 1] && b[i] == b[1..][i - 1];
      }
    }
  }

  lemma {:induction false} FirstRecordsAgree(a: seq<Record>, b: seq<Record>, name: string, t: RecordType)
    requires a != [] && b != [] && PlainRRSet(a, name, t) && PlainRRSet(b, name, t)
    requires EncodeRecord(a[0]) + EncodedRRSet(a[1..]) == EncodeRecord(b[0]) + EncodedRRSet(b[1..])
    ensures a[0].ttl == b[0].ttl && BytesOf(ToLower(a[0].rdata)) == BytesOf(ToLower(b[0].rdata))
    ensures EncodedRRSet(a[1..]) == EncodedRRSet(b[1..])
  {
    var x, y, restX, restY := a[0], b[0], EncodedRRSet(a[1..]), EncodedRRSet(b[1..]);
    var textX, textY := BytesOf(ToLower(x.rdata)), BytesOf(ToLower(y.rdata));
    RecordParts(x, restX);
    RecordParts(y, restY);
    CutPrefix(EncodedName(name) + Big16(t.code) + Big16(1), x.ttl, textX + restX, y.ttl, textY + restY);
    StartsWithName(a[1..], name);
    StartsWithName(b[1..], name);
    var zero := FirstZero(EncodedName(name));
    TextSeparates(EncodedName(name), zero, textX, restX, textY, restY);
  }
}
