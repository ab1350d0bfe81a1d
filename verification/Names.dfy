/**
 Domain names as the program handles them: canonical form, label lists, zone
 routing and byte order. Strings are ASCII; white space and case folding outside
 ASCII are not modelled.
 */
module Names {

  // Canonical form

  predicate IsSpace(c: char) {
    c == ' ' || c == '\t' || c == '\n' || c == '\r' || c == '\U{0B}' || c == '\U{0C}'
  }

  function TrimLeft(s: string): string {
    if s != "" && IsSpace(s[0]) then TrimLeft(s[1..]) else s
  }

  function TrimRight(s: string): string {
    if s != "" && IsSpace(s[|s| - 1]) then TrimRight(s[..|s| - 1]) else s
  }

  function TrimSpace(s: string): string {
    TrimRight(TrimLeft(s))
  }

  function LowerChar(c: char): char {
    if 'A' <= c <= 'Z' then c - 'A' + 'a' else c
  }

  function ToLower(s: string): string {
    seq(|s|, i requires 0 <= i < |s| => LowerChar(s[i]))
  }

  function TrimDot(s: string): string {
    if s != "" && s[|s| - 1] == '.' then s[..|s| - 1] else s
  }

  function CanonicalName(name: string): string {
    TrimDot(ToLower(TrimSpace(name)))
  }

  /** A last character that canonicalisation would strip. */
  predicate Strippable(c: char) {
    c == '.' || IsSpace(c)
  }

  ghost predicate Lowered(s: string) {
    forall i :: 0 <= i < |s| ==> LowerChar(s[i]) == s[i]
  }

  /** White space is the space and the five control characters from tab to carriage return. */
  lemma {:induction false} WhiteSpace(c: char)
    ensures IsSpace(c) <==> c as int == 32 || 9 <= c as int <= 13
  {
  }

  /** Lower-casing leaves no capital, and identifies a letter with its other case and with nothing else. */
  lemma {:induction false} CaseFolds(c: char, d: char)
    ensures !('A' <= LowerChar(c) <= 'Z')
    ensures LowerChar(c) == LowerChar(d) <==>
            || c == d
            || ('a' <= c <= 'z' && c as int - d as int == 32)
            || ('a' <= d <= 'z' && d as int - c as int == 32)
  {
  }

  lemma {:induction false} TrimLeftStart(s: string)
    ensures TrimLeft(s) != "" ==> !IsSpace(TrimLeft(s)[0])
  {
    if s != "" && IsSpace(s[0]) {
      TrimLeftStart(s[1..]);
    }
  }

  lemma {:induction false} TrimRightEnds(s: string)
    ensures TrimRight(s) <= s
    ensures TrimRight(s) != "" ==> !IsSpace(TrimRight(s)[|TrimRight(s)| - 1])
  {
    if s != "" && IsSpace(s[|s| - 1]) {
      TrimRightEnds(s[..|s| - 1]);
    }
  }

  /** Trimming leaves something exactly when there is a character other than white space. */
  lemma {:induction false} NotBlank(s: string)
    ensures TrimSpace(s) != "" <==> exists i :: 0 <= i < |s| && !IsSpace(s[i])
  {
    if i :| 0 <= i < |s| && !IsSpace(s[i]) {
      LeftKeeps(s, i);
      var t := TrimLeft(s);
      RightKeeps(t, t[0]);
    }
    BlankTrims(s);
  }

  lemma {:induction false} LeftKeeps(s: string, i: nat)
    requires i < |s| && !IsSpace(s[i])
    ensures TrimLeft(s) != "" && !IsSpace(TrimLeft(s)[0])
  {
    if IsSpace(s[0]) {
      LeftKeeps(s[1..], i - 1);
    }
  }

  lemma {:induction false} RightKeeps(s: string, first: char)
    requires s != "" && s[0] == first && !IsSpace(first)
    ensures TrimRight(s) != ""
  {
    if |s| > 1 && IsSpace(s[|s| - 1]) {
      RightKeeps(s[..|s| - 1], first);
    }
  }

  lemma {:induction false} BlankTrims(s: string)
    ensures (forall i :: 0 <= i < |s| ==> IsSpace(s[i])) ==> TrimLeft(s) == ""
  {
    if s != "" {
      BlankTrims(s[1..]);
    }
  }

  /** A canonical name is lower-case and does not start with white space. */
  lemma {:induction false} CanonicalShape(name: string)
    ensures var c := CanonicalName(name);
            Lowered(c) && (c != "" ==> !IsSpace(c[0]))
  {
    TrimLeftStart(name);
    TrimRightEnds(TrimLeft(name));
  }

  /** A name is its own canonical form exactly when it is lower-case, unpadded and has no trailing dot. */
  lemma {:induction false} FixedPointShape(s: string)
    ensures CanonicalName(s) == s <==>
            Lowered(s) && (s != "" ==> !IsSpace(s[0]) && !Strippable(s[|s| - 1]))
  {
    if CanonicalName(s) == s && s != "" {
      CanonicalShape(s);
      assert |CanonicalName(s)| <= |TrimSpace(s)| <= |TrimLeft(s)| <= |s| by {
        TrimRightEnds(TrimLeft(s));
        TrimLeftShrinks(s);
      }
      assert TrimSpace(s) == s == ToLower(s) by {
        TrimRightEnds(TrimLeft(s));
        TrimLeftWhole(s);
      }
      TrimRightEnds(TrimLeft(s));
    }
    if Lowered(s) && (s != "" ==> !IsSpace(s[0]) && !Strippable(s[|s| - 1])) {
      assert TrimSpace(s) == s;
      assert ToLower(s) == s;
    }
  }

  lemma {:induction false} TrimLeftShrinks(s: string)
    ensures |TrimLeft(s)| <= |s|
  {
    if s != "" && IsSpace(s[0]) {
      TrimLeftShrinks(s[1..]);
    }
  }

  lemma {:induction false} TrimLeftWhole(s: string)
    ensures |TrimLeft(s)| == |s| ==> TrimLeft(s) == s
  {
    if s != "" && IsSpace(s[0]) {
      TrimLeftShrinks(s[1..]);
    }
  }

  /**
   Canonicalisation is not idempotent: the second pass changes a name exactly
   when the first one leaves a dot or white space at the end.
   */
  lemma {:induction false} CanonicalTwice(name: string)
    ensures var c := CanonicalName(name);
            CanonicalName(c) == c <==> c == "" || !Strippable(c[|c| - 1])
  {
    CanonicalShape(name);
    FixedPointShape(CanonicalName(name));
  }

  lemma {:induction false} CanonicalTwiceExample()
    ensures CanonicalName("a..") == "a." && CanonicalName("a.") == "a"
  {
    assert ToLower("a..") == "a.." && ToLower("a.") == "a.";
    assert TrimSpace("a..") == "a.." && TrimSpace("a.") == "a.";
    assert "a.."[..2] == "a." && "a."[..1] == "a";
  }

  predicate HasSuffix(s: string, suffix: string) {
    |suffix| <= |s| && s[|s| - |suffix|..] == suffix
  }

  /** The zone membership test of a dynamic update, on canonical names. */
  predicate InZone(name: string, zone: string) {
    name == zone || HasSuffix(name, "." + zone)
  }

  /** Names inside a zone whose own name is a non-empty fixed point are fixed points too. */
  lemma {:induction false} InZoneIsFixedPoint(raw: string, zone: string)
    requires zone != "" && CanonicalName(zone) == zone
    requires InZone(CanonicalName(raw), zone)
    ensures CanonicalName(CanonicalName(raw)) == CanonicalName(raw)
    ensures CanonicalName(raw) != ""
  {
    var c := CanonicalName(raw);
    FixedPointShape(zone);
    if c != zone {
      assert c[|c| - 1] == ("." + zone)[|zone|] == zone[|zone| - 1];
    }
    CanonicalTwice(raw);
  }

  /** A name whose canonical form is not empty is not blank. */
  lemma {:induction false} CanonicalNotBlank(raw: string)
    ensures CanonicalName(raw) != "" ==> TrimSpace(raw) != ""
  {
  }

  // Labels

  function Labels(s: string): (r: seq<string>)
    ensures |r| > 0
  {
    if s == "" then [""]
    else
      var rest := Labels(s[1..]);
      if s[0] == '.' then [""] + rest else [[s[0]] + rest[0]] + rest[1..]
  }

  function Join(labels: seq<string>): string
    requires |labels| > 0
  {
    if |labels| == 1 then labels[0] else labels[0] + "." + Join(labels[1..])
  }

  lemma {:induction false} JoinLabels(s: string)
    ensures Join(Labels(s)) == s
  {
    if s != "" {
      var rest := Labels(s[1..]);
      JoinLabels(s[1..]);
      if s[0] == '.' {
        assert ([""] + rest)[1..] == rest;
      } else {
        assert ([[s[0]] + rest[0]] + rest[1..])[1..] == rest[1..];
        if |rest| > 1 {
          assert [s[0]] + rest[0] + "." + Join(rest[1..]) == [s[0]] + (rest[0] + "." + Join(rest[1..]));
        }
      }
    }
  }

  lemma {:induction false} JoinConcat(a: seq<string>, b: seq<string>)
    requires |a| > 0 && |b| > 0
    ensures Join(a + b) == Join(a) + "." + Join(b)
  {
    assert (a + b)[1..] == a[1..] + b;
    if |a| > 1 {
      JoinConcat(a[1..], b);
      assert a[0] + "." + (Join(a[1..]) + "." + Join(b)) == a[0] + "." + Join(a[1..]) + "." + Join(b);
    } else {
      assert a[1..] + b == b;
    }
  }

  lemma {:induction false} LabelsConcat(a: string, b: string)
    ensures Labels(a + "." + b) == Labels(a) + Labels(b)
  {
    var s := a + "." + b;
    if a == "" {
      assert s[1..] == b;
    } else {
      assert s[1..] == a[1..] + "." + b;
      LabelsConcat(a[1..], b);
    }
  }

  ghost predicate LabelSuffix(zone: seq<string>, name: seq<string>) {
    |zone| <= |name| && name[|name| - |zone|..] == zone
  }

  /** Of two suffixes of one label list, the shorter is a suffix of the longer. */
  lemma {:induction false} SuffixesNest(short: seq<string>, long: seq<string>, all: seq<string>)
    requires LabelSuffix(short, all) && LabelSuffix(long, all) && |short| <= |long|
    ensures LabelSuffix(short, long)
  {
    assert all[|all| - |short|..] == all[|all| - |long|..][|long| - |short|..];
  }

  // Routing

  /** The candidate test in the routing loop. */
  predicate RouteMatch(name: string, candidate: string) {
    || name == candidate
    || (|name| > |candidate| && name[|name| - |candidate| - 1] == '.' && name[|name| - |candidate|..] == candidate)
  }

  /** The byte test of the routing loop compares whole labels: it holds exactly for label suffixes. */
  lemma {:induction false} RouteMatchIsLabelSuffix(name: string, zone: string)
    ensures RouteMatch(name, zone) <==> LabelSuffix(Labels(zone), Labels(name))
  {
    if RouteMatch(name, zone) && name != zone {
      var front := name[..|name| - |zone| - 1];
      assert name == front + "." + zone;
      LabelsConcat(front, zone);
    }
    if LabelSuffix(Labels(zone), Labels(name)) {
      SuffixRoutes(name, zone);
    }
  }

  lemma {:induction false} SuffixRoutes(name: string, zone: string)
    requires LabelSuffix(Labels(zone), Labels(name))
    ensures RouteMatch(name, zone)
  {
    var cut := |Labels(name)| - |Labels(zone)|;
    JoinLabels(name);
    JoinLabels(zone);
    if cut > 0 {
      var front := Labels(name)[..cut];
      assert Labels(name) == front + Labels(zone);
      JoinConcat(front, Labels(zone));
    } else {
      assert Labels(name) == Labels(zone);
    }
  }

  /** The update service and the resolver agree on zone membership. */
  lemma {:induction false} InZoneRoutes(name: string, zone: string)
    ensures InZone(name, zone) <==> RouteMatch(name, zone)
  {
    if HasSuffix(name, "." + zone) {
      var tail := name[|name| - |zone| - 1..];
      assert tail == "." + zone;
      assert tail[0] == '.' && tail[1..] == zone;
    }
    if RouteMatch(name, zone) && name != zone {
      assert name[|name| - |zone| - 1..] == "." + zone;
    }
  }

  /** The longest stored zone the name belongs to, or "" when it belongs to none with a non-empty name. */
  method FindZone(names: seq<string>, name: string) returns (best: string)
    ensures best == "" <==> forall z :: z in names && z != "" ==> !LabelSuffix(Labels(z), Labels(name))
    ensures best != "" ==> best in names && LabelSuffix(Labels(best), Labels(name))
    ensures forall z :: z in names && z != best && LabelSuffix(Labels(z), Labels(name)) ==> |z| < |best| || z == ""
  {
    best := "";
    for i := 0 to |names|
      invariant best != "" ==> best in names[..i] && RouteMatch(name, best)
      invariant forall z :: z in names[..i] && RouteMatch(name, z) ==> |z| < |best| || z == best || z == ""
    {
      var candidate := names[i];
      if RouteMatch(name, candidate) {
        if |candidate| > |best| {
          best := candidate;
        }
      }
    }
    assert names[..|names|] == names;
    forall z ensures RouteMatch(name, z) <==> LabelSuffix(Labels(z), Labels(name)) {
      RouteMatchIsLabelSuffix(name, z);
    }
  }

  // Composite keys

  ghost predicate Unseparated(s: string) {
    forall i :: 0 <= i < |s| ==> s[i] != '\0'
  }

  /** A text cut at its last NUL byte: the parts can be told apart whatever bytes the first one holds. */
  lemma {:induction false} LastSeparator(n: string, k: string, n': string, k': string)
    requires Unseparated(k) && Unseparated(k')
    ensures n + "\0" + k == n' + "\0" + k' <==> n == n' && k == k'
  {
    var s, s' := n + "\0" + k, n' + "\0" + k';
    if s == s' {
      assert s[|n|] == '\0' && s'[|n'|] == '\0';
      assert forall i :: 0 <= i < |k| ==> s[|n| + 1 + i] == k[i];
      assert forall i :: 0 <= i < |k'| ==> s'[|n'| + 1 + i] == k'[i];
      assert |n| == |n'|;
      assert n == s[..|n|] == s'[..|n|] == n';
      assert k == s[|n| + 1..] == s'[|n| + 1..] == k';
    }
  }

  // Byte order

  predicate StringLess(a: string, b: string) {
    if b == "" then false
    else if a == "" then true
    else a[0] < b[0] || (a[0] == b[0] && StringLess(a[1..], b[1..]))
  }

  predicate StringLe(a: string, b: string) {
    !StringLess(b, a)
  }

  /** Byte order: a proper prefix comes first, else the first character that differs decides. */
  lemma {:induction false} ByteOrder(a: string, b: string)
    ensures StringLess(a, b) <==>
            || (a < b)
            || exists i :: 0 <= i < |a| && i < |b| && a[..i] == b[..i] && a[i] < b[i]
  {
    if a != "" && b != "" {
      if a[0] != b[0] {
        assert a[..0] == b[..0];
        assert !(a < b);
        forall i | 0 < i < |a| && i < |b| ensures a[..i] != b[..i] {
          assert a[..i][0] == a[0] && b[..i][0] == b[0];
        }
      } else {
        ByteOrder(a[1..], b[1..]);
        assert a < b <==> a[1..] < b[1..] by {
          assert a == [a[0]] + a[1..] && b == [b[0]] + b[1..];
        }
        DifferLater(a, b);
      }
    }
  }

  lemma {:induction false} DifferLater(a: string, b: string)
    requires a != "" && b != "" && a[0] == b[0]
    ensures (exists i :: 0 <= i < |a| && i < |b| && a[..i] == b[..i] && a[i] < b[i])
            <==> exists i :: 0 <= i < |a[1..]| && i < |b[1..]| && a[1..][..i] == b[1..][..i] && a[1..][i] < b[1..][i]
  {
    if i :| 0 <= i < |a| && i < |b| && a[..i] == b[..i] && a[i] < b[i] {
      assert a[1..][..i - 1] == a[..i][1..] && b[1..][..i - 1] == b[..i][1..];
      assert a[1..][i - 1] < b[1..][i - 1];
    }
    if i :| 0 <= i < |a[1..]| && i < |b[1..]| && a[1..][..i] == b[1..][..i] && a[1..][i] < b[1..][i] {
      assert a[..i + 1] == [a[0]] + a[1..][..i] && b[..i + 1] == [b[0]] + b[1..][..i];
      assert a[i + 1] < b[i + 1];
    }
  }

  lemma {:induction false} StringLessTotal(a: string, b: string)
    ensures StringLess(a, b) || StringLess(b, a) || a == b
    ensures !(StringLess(a, b) && StringLess(b, a))
  {
    if a != "" && b != "" {
      StringLessTotal(a[1..], b[1..]);
      assert a == [a[0]] + a[1..] && b == [b[0]] + b[1..];
    }
  }

  lemma {:induction false} StringLessTransitive(a: string, b: string, c: string)
    requires StringLess(a, b) && StringLess(b, c)
    ensures StringLess(a, c)
  {
    if a != "" && a[0] == b[0] == c[0] {
      StringLessTransitive(a[1..], b[1..], c[1..]);
    }
  }
}
