/**
 Record validity and the content of a record store as a value: names, then
 types, then the RRset in stored order. `Apply` says what one change does to
 that value, including what it leaves behind when it reports an error.
 */
module Records {
  import opened Model
  import opened Names

  // Validity

  datatype IPKind = NotIP | V4 | V6

  /** The address parser of the standard library; nothing is known about it but that it is a function. */
  const ParseIP: string -> IPKind

  /** The leading run of non-space characters. */
  function Word(s: string): (w: string)
    ensures |w| <= |s|
    ensures s != "" && !IsSpace(s[0]) ==> w != ""
  {
    if s == "" || IsSpace(s[0]) then "" else [s[0]] + Word(s[1..])
  }

  function Fields(s: string): seq<string>
    decreases |s|
  {
    TrimLeftShrinks(s);
    TrimLeftStart(s);
    var t := TrimLeft(s);
    if t == "" then [] else
      var w := Word(t);
      [w] + Fields(t[|w|..])
  }

  function DigitsValue(s: string): Option<nat> {
    if s == "" then Some(0)
    else
      var last := s[|s| - 1];
      var front := DigitsValue(s[..|s| - 1]);
      if '0' <= last <= '9' && front.Some? then Some(10 * front.value + (last as int - '0' as int)) else None
  }

  function Decimal(n: nat): string {
    var digit := ['0' + (n % 10) as char];
    if n < 10 then digit else Decimal(n / 10) + digit
  }

  /** Decimal text with an optional sign; values beyond the machine range are out of the MX range as well. */
  function Atoi(s: string): Option<int> {
    var digits := if s != "" && (s[0] == '+' || s[0] == '-') then s[1..] else s;
    var v := DigitsValue(digits);
    if digits == "" || v.None? then None
    else if s[0] == '-' then Some(-(v.value as int)) else Some(v.value as int)
  }

  predicate ValidMX(rdata: string) {
    var parts := Fields(rdata);
    && |parts| == 2
    && var priority := Atoi(parts[0]);
    && priority.Some? && 0 <= priority.value <= 65535
  }

  predicate ValidRData(t: RecordType, rdata: string) {
    if t == TYPE_A then ParseIP(rdata) == V4
    else if t == TYPE_AAAA then ParseIP(rdata) == V6
    else if t == TYPE_CNAME || t == TYPE_NS then TrimSpace(rdata) != ""
    else if t == TYPE_MX then ValidMX(rdata)
    else if t == TYPE_TXT then 1 <= |rdata| <= 255
    else false
  }

  predicate ValidRecord(r: Record) {
    TrimSpace(r.name) != "" && KnownType(r.rtype) && ValidRData(r.rtype, r.rdata)
  }

  /** The change is applied without an error. */
  predicate Accepted(ch: Change) {
    ValidRecord(ch.record) && KnownKind(ch.kind)
  }

  // What the readers read

  /** A text reads as a number exactly when it is digits only; leading zeros do not count. */
  lemma {:induction false} ReadsDigits(s: string)
    ensures DigitsValue(s).Some? <==> forall i :: 0 <= i < |s| ==> '0' <= s[i] <= '9'
    ensures DigitsValue("0" + s) == DigitsValue(s)
  {
    if s != "" {
      var front, last := s[..|s| - 1], s[|s| - 1];
      ReadsDigits(front);
      assert s == front + [last];
      assert ("0" + s)[..|s|] == "0" + front;
    } else {
      assert ("0" + s)[..0] == "";
    }
  }

  lemma {:induction false} DigitsSnoc(s: string, digit: char)
    requires '0' <= digit <= '9'
    ensures DigitsValue(s + [digit])
            == if DigitsValue(s).None? then None else Some(10 * DigitsValue(s).value + (digit as int - '0' as int))
  {
    assert (s + [digit])[..|s|] == s;
  }

  predicate NoLeadingZero(s: string) {
    s != "" && (s[0] == '0' ==> |s| == 1)
  }

  function DigitChar(d: nat): char
    requires d < 10
  {
    '0' + d as char
  }

  lemma {:induction false} DigitCharValue(d: nat)
    requires d < 10
    ensures '0' <= DigitChar(d) <= '9' && DigitChar(d) as int - '0' as int == d
    ensures d > 0 ==> DigitChar(d) != '0'
  {
  }

  lemma {:induction false} DecimalSnoc(n: nat)
    ensures Decimal(n) == (if n < 10 then "" else Decimal(n / 10)) + [DigitChar(n % 10)]
  {
  }

  lemma {:induction false} DecimalIsRead(n: nat)
    ensures NoLeadingZero(Decimal(n)) && DigitsValue(Decimal(n)) == Some(n)
    ensures n > 0 ==> Decimal(n)[0] != '0'
  {
    var front := if n < 10 then "" else Decimal(n / 10);
    var digit := DigitChar(n % 10);
    DecimalSnoc(n);
    DigitCharValue(n % 10);
    DigitsSnoc(front, digit);
    assert n == 10 * (n / 10) + n % 10;
    if n >= 10 {
      DecimalIsRead(n / 10);
      assert (front + [digit])[0] == front[0];
    }
  }

  lemma {:induction false} DecimalIsOnly(n: nat, s: string)
    requires NoLeadingZero(s) && DigitsValue(s) == Some(n)
    ensures s == Decimal(n)
  {
    var front, last := s[..|s| - 1], s[|s| - 1];
    assert s == front + [last];
    if front == "" {
      assert DigitsValue(front) == Some(0);
    } else {
      LeadingDigit(front, n / 10);
      DecimalIsOnly(n / 10, front);
    }
  }

  /** The decimal form of a number is the one text without a leading zero that reads as it. */
  lemma {:induction false} DecimalReads(n: nat, s: string)
    ensures s == Decimal(n) <==> NoLeadingZero(s) && DigitsValue(s) == Some(n)
  {
    DecimalIsRead(n);
    if NoLeadingZero(s) && DigitsValue(s) == Some(n) {
      DecimalIsOnly(n, s);
    }
  }

  lemma {:induction false} LeadingDigit(s: string, n: nat)
    requires s != "" && s[0] != '0' && DigitsValue(s) == Some(n)
    ensures n > 0
  {
    if |s| > 1 {
      LeadingDigit(s[..|s| - 1], n / 10);
    } else {
      assert s[..0] == "";
    }
  }

  ghost predicate IsWord(w: string) {
    w != "" && forall i :: 0 <= i < |w| ==> !IsSpace(w[i])
  }

  lemma {:induction false} WordAhead(w: string, rest: string)
    requires forall i :: 0 <= i < |w| ==> !IsSpace(w[i])
    requires rest != "" ==> IsSpace(rest[0])
    ensures Word(w + rest) == w
  {
    if w == "" {
      assert w + rest == rest;
    } else {
      WordAhead(w[1..], rest);
      assert (w + rest)[1..] == w[1..] + rest;
    }
  }

  /** Splitting at white space: leading space is dropped, and a word is what stands before the next space or the end. */
  lemma {:induction false} FieldsAre(w: string, space: char, rest: string)
    requires IsSpace(space)
    ensures Fields("") == [] && Fields([space] + rest) == Fields(rest)
    ensures IsWord(w) ==> Fields(w) == [w] && Fields(w + [space] + rest) == [w] + Fields(rest)
  {
    assert ([space] + rest)[1..] == rest;
    if IsWord(w) {
      var more := [space] + rest;
      assert w + [space] + rest == w + more && w + "" == w;
      WordAhead(w, "");
      WordAhead(w, more);
      assert TrimLeft(w) == w && TrimLeft(w + more) == w + more;
      assert w[|w|..] == "" && (w + more)[|w|..] == more;
      assert more[1..] == rest;
    }
  }

  predicate IsSign(sign: string) {
    sign == "" || sign == "+" || sign == "-"
  }

  lemma {:induction false} SignedWord(sign: string, digits: string)
    requires IsSign(sign) && digits != "" && DigitsValue(digits).Some?
    ensures IsWord(sign + digits)
  {
    ReadsDigits(digits);
    forall i | 0 <= i < |sign + digits| ensures !IsSpace((sign + digits)[i]) {
      assert i >= |sign| ==> (sign + digits)[i] == digits[i - |sign|];
    }
  }

  lemma {:induction false} AtoiUnsigned(digits: string)
    requires digits != "" && DigitsValue(digits).Some?
    ensures Atoi(digits) == Some(DigitsValue(digits).value as int)
  {
    ReadsDigits(digits);
  }

  lemma {:induction false} AtoiSigned(sign: char, digits: string)
    requires sign == '+' || sign == '-'
    requires digits != "" && DigitsValue(digits).Some?
    ensures var n := DigitsValue(digits).value;
            Atoi([sign] + digits) == Some(if sign == '-' then 0 - n as int else n as int)
  {
    assert ([sign] + digits)[1..] == digits;
  }

  lemma {:induction false} AtoiReads(sign: string, n: nat)
    requires IsSign(sign)
    ensures IsWord(sign + Decimal(n))
    ensures Atoi(sign + Decimal(n)) == Some(if sign == "-" then 0 - n as int else n as int)
  {
    var digits := Decimal(n);
    DecimalIsRead(n);
    SignedWord(sign, digits);
    if sign == "" {
      assert sign + digits == digits;
      AtoiUnsigned(digits);
    } else {
      assert sign == [sign[0]];
      AtoiSigned(sign[0], digits);
    }
  }

  lemma {:induction false} TwoWords(priority: string, host: string)
    requires IsWord(priority) && IsWord(host)
    ensures ValidMX(priority + " " + host) <==> Atoi(priority).Some? && 0 <= Atoi(priority).value <= 65535
  {
    FieldsAre(priority, ' ', host);
    FieldsAre(host, ' ', "");
    assert Fields(priority + " " + host) == [priority, host];
  }

  /** Mail exchange data `10 mail.example.com`: the priority is valid up to 65535, and a minus only before zero. */
  lemma {:induction false} PriorityRange(sign: string, n: nat, host: string)
    requires IsSign(sign) && IsWord(host)
    ensures ValidMX(sign + Decimal(n) + " " + host) <==> n <= if sign == "-" then 0 else 65535
  {
    AtoiReads(sign, n);
    TwoWords(sign + Decimal(n), host);
  }

  /**
   Which rdata a dynamic record may carry: an address of its own family, a target that is
   not blank, two words of which the first is a priority, or a text of 1 to 255 bytes. The
   zone's own SOA, signatures and unknown types are refused.
   */
  lemma {:induction false} ManagedRData(t: RecordType, rdata: string)
    ensures ValidRData(t, rdata) ==> t in {TYPE_A, TYPE_AAAA, TYPE_CNAME, TYPE_MX, TYPE_TXT, TYPE_NS}
    ensures !(ValidRData(TYPE_A, rdata) && ValidRData(TYPE_AAAA, rdata))
    ensures ValidRData(TYPE_A, rdata) || ValidRData(TYPE_AAAA, rdata) <==> ParseIP(rdata) != NotIP
    ensures ValidRData(TYPE_CNAME, rdata) <==> ValidRData(TYPE_NS, rdata)
    ensures ValidRData(TYPE_NS, rdata) <==> exists i :: 0 <= i < |rdata| && !IsSpace(rdata[i])
    ensures ValidRData(TYPE_MX, rdata) ==> |Fields(rdata)| == 2
    ensures ValidRData(TYPE_TXT, rdata) <==> 0 < |rdata| < 256
  {
    NotBlank(rdata);
  }

  // Content

  type Contents = map<string, map<RecordType, seq<Record>>>

  function RRSetOf(c: Contents, name: string, t: RecordType): seq<Record> {
    if name in c && t in c[name] then c[name][t] else []
  }

  /** The records whose rdata differs from the given one, in order. */
  function Without(rs: seq<Record>, rdata: string): (kept: seq<Record>)
    ensures |kept| <= |rs|
  {
    if rs == [] then []
    else
      var last := rs[|rs| - 1];
      var front := Without(rs[..|rs| - 1], rdata);
      if last.rdata != rdata then front + [last] else front
  }

  function Stored(r: Record): Record {
    r.(name := CanonicalName(r.name))
  }

  /** What is left of a name after a delete: no entry for an empty RRset, none for a name without types. */
  function DeleteFrom(c: Contents, name: string, byType: map<RecordType, seq<Record>>,
                      t: RecordType, kept: seq<Record>): Contents {
    var byType' := if kept == [] then byType - {t} else byType[t := kept];
    if byType' == map[] then c - {name} else c[name := byType']
  }

  function Apply(c: Contents, ch: Change): Contents {
    if !ValidRecord(ch.record) then c
    else
      var r := Stored(ch.record);
      var byType := if r.name in c then c[r.name] else map[];
      var was := if r.rtype in byType then byType[r.rtype] else [];
      var kept := Without(was, r.rdata);
      if ch.kind == DELETE then DeleteFrom(c, r.name, byType, r.rtype, kept)
      else if ch.kind == UPSERT then c[r.name := byType[r.rtype := kept + [r]]]
      // The unknown kind is noticed only after the RRset has been compacted in place.
      else if r.rtype in byType then c[r.name := byType[r.rtype := kept + was[|kept|..]]]
      else c[r.name := byType]
  }

  /** The record an accepted change reports: as stored for a delete, as given for an upsert. */
  function AppliedRecord(ch: Change): Record {
    if ch.kind == DELETE then Stored(ch.record) else ch.record
  }

  // Well-formed content

  ghost predicate DistinctRData(rs: seq<Record>) {
    forall i, j :: 0 <= i < j < |rs| ==> rs[i].rdata != rs[j].rdata
  }

  ghost predicate WellFormedRRSet(name: string, t: RecordType, rs: seq<Record>) {
    && (forall i :: 0 <= i < |rs| ==> rs[i].name == name && rs[i].rtype == t)
    && DistinctRData(rs)
  }

  ghost predicate WellFormed(c: Contents) {
    forall n, t :: n in c && t in c[n] ==> Lowered(n) && WellFormedRRSet(n, t, c[n][t])
  }

  lemma {:induction false} WithoutIn(rs: seq<Record>, rdata: string)
    ensures forall r :: r in Without(rs, rdata) <==> r in rs && r.rdata != rdata
  {
    if rs != [] {
      WithoutIn(rs[..|rs| - 1], rdata);
      assert rs == rs[..|rs| - 1] + [rs[|rs| - 1]];
    }
  }

  lemma {:induction false} WithoutDistinct(rs: seq<Record>, rdata: string)
    requires DistinctRData(rs)
    ensures DistinctRData(Without(rs, rdata))
  {
    if rs != [] {
      var front := rs[..|rs| - 1];
      var kept := Without(front, rdata);
      WithoutDistinct(front, rdata);
      WithoutIn(front, rdata);
      forall k | 0 <= k < |kept| ensures kept[k].rdata != rs[|rs| - 1].rdata {
        assert kept[k] in front;
        var i :| 0 <= i < |front| && front[i] == kept[k];
        assert rs[i] == kept[k];
      }
    }
  }

  lemma {:induction false} WithoutAbsent(rs: seq<Record>, rdata: string)
    requires forall i :: 0 <= i < |rs| ==> rs[i].rdata != rdata
    ensures Without(rs, rdata) == rs
  {
    if rs != [] {
      WithoutAbsent(rs[..|rs| - 1], rdata);
    }
  }

  /** Dropping the one match closes the gap it leaves. */
  lemma {:induction false} WithoutAt(rs: seq<Record>, rdata: string, p: nat)
    requires p < |rs| && rs[p].rdata == rdata
    requires DistinctRData(rs)
    ensures Without(rs, rdata) == rs[..p] + rs[p + 1..]
  {
    var front := rs[..|rs| - 1];
    if p == |rs| - 1 {
      WithoutAbsent(front, rdata);
    } else {
      WithoutAt(front, rdata, p);
      assert front[..p] == rs[..p];
      assert front[p + 1..] + [rs[|rs| - 1]] == rs[p + 1..];
    }
  }

  /** Accepted changes keep keys lower-case, records filed under their own name and type, and rdata unique. */
  lemma {:induction false} ApplyKeepsWellFormed(c: Contents, ch: Change)
    requires WellFormed(c) && Accepted(ch)
    ensures WellFormed(Apply(c, ch))
  {
    var r := Stored(ch.record);
    var was := RRSetOf(c, r.name, r.rtype);
    var kept := Without(was, r.rdata);
    CanonicalShape(ch.record.name);
    assert WellFormedRRSet(r.name, r.rtype, was);
    WithoutIn(was, r.rdata);
    WithoutDistinct(was, r.rdata);
    forall k | 0 <= k < |kept|
      ensures kept[k].name == r.name && kept[k].rtype == r.rtype && kept[k].rdata != r.rdata
    {
      assert kept[k] in kept && kept[k] in was;
    }
    assert WellFormedRRSet(r.name, r.rtype, kept);
    assert WellFormedRRSet(r.name, r.rtype, kept + [r]);
  }

  /** No name without a type, no type without a record. */
  ghost predicate Gapless(c: Contents) {
    forall n :: n in c ==> c[n] != map[] && forall t :: t in c[n] ==> c[n][t] != []
  }

  /** Accepted changes leave no empty entries behind, so the names listed are the names that have records. */
  lemma {:induction false} ApplyLeavesGapless(c: Contents, ch: Change)
    requires Gapless(c) && Accepted(ch)
    ensures Gapless(Apply(c, ch))
  {
  }

  /** Compacting in place without shrinking restores the RRset only if nothing had to move. */
  lemma {:induction false} CompactionResidue(rs: seq<Record>, rdata: string)
    requires DistinctRData(rs)
    ensures var kept := Without(rs, rdata);
            kept + rs[|kept|..] == rs <==> forall i :: 0 <= i < |rs| - 1 ==> rs[i].rdata != rdata
  {
    if p :| 0 <= p < |rs| && rs[p].rdata == rdata {
      WithoutAt(rs, rdata, p);
      if p < |rs| - 1 {
        assert (Without(rs, rdata) + rs[|rs| - 1..])[p] == rs[p + 1];
      }
    } else {
      WithoutAbsent(rs, rdata);
    }
  }

  /**
   A change of unknown kind is reported as an error, but the RRset it names has
   been compacted by then. On a well-formed store the error leaves every RRset as
   it was exactly when no record carries that rdata or the last one does.
   */
  lemma {:induction false} UnknownKindDamage(c: Contents, ch: Change)
    requires WellFormed(c) && ValidRecord(ch.record) && !KnownKind(ch.kind)
    ensures var r := Stored(ch.record);
            var was := RRSetOf(c, r.name, r.rtype);
            (forall n, t :: RRSetOf(Apply(c, ch), n, t) == RRSetOf(c, n, t))
            <==> (forall i :: 0 <= i < |was| - 1 ==> was[i].rdata != r.rdata)
  {
    var r := Stored(ch.record);
    var was := RRSetOf(c, r.name, r.rtype);
    assert WellFormedRRSet(r.name, r.rtype, was);
    CompactionResidue(was, r.rdata);
    var kept := Without(was, r.rdata);
    ResidueRRSet(c, ch, r.name, r.rtype);
    forall n, t | (n, t) != (r.name, r.rtype) ensures RRSetOf(Apply(c, ch), n, t) == RRSetOf(c, n, t) {
      ResidueRRSet(c, ch, n, t);
    }
  }

  lemma {:induction false} ResidueRRSet(c: Contents, ch: Change, n: string, t: RecordType)
    requires ValidRecord(ch.record) && !KnownKind(ch.kind)
    ensures var r := Stored(ch.record);
            var kept := Without(RRSetOf(c, n, t), r.rdata);
            RRSetOf(Apply(c, ch), n, t) ==
            if (n, t) == (r.name, r.rtype) then kept + RRSetOf(c, n, t)[|kept|..] else RRSetOf(c, n, t)
  {
  }

  /** An entry for the name is left behind even where there was none. */
  lemma {:induction false} UnknownKindNames(c: Contents, ch: Change)
    requires ValidRecord(ch.record) && !KnownKind(ch.kind)
    ensures Apply(c, ch).Keys == c.Keys + {CanonicalName(ch.record.name)}
  {
  }

  /** Two addresses, one change of kind 3: the error leaves the second address stored twice. */
  lemma {:induction false} UnknownKindExample(x: Record, y: Record)
    requires x.name == y.name == "a" && x.rtype == y.rtype && x.rdata != y.rdata && ValidRecord(x)
    ensures RRSetOf(Apply(map["a" := map[x.rtype := [x, y]]], Change(3, x)), "a", x.rtype) == [y, y]
  {
    assert CanonicalName("a") == "a" by { FixedPointShape("a"); }
    WithoutAt([x, y], x.rdata, 0);
    assert Without([x, y], x.rdata) == [y];
  }
}
