/**
 The canonical fingerprint string (fingerprint.go): labelled components are validated,
 trimmed, rendered as `label=value`, sorted bytewise and joined with the unit separator.
 `CanonicalFingerprint` hashes that string; the digest is not part of this model.
 */
module Fingerprint {
  import opened Wrappers
  import opened Bytes

  datatype Component = Component(name: bytes, value: bytes)

  /** Why an input is refused. Each carries the sentinel ErrInvalidFingerprintComponent in Go. */
  datatype Refusal =
    | NoComponents
    | BadLabel(name: bytes)
    | DuplicateLabel(name: bytes)
    | BadValue(name: bytes)

  const EQUALS: byte := 0x3d
  const SEPARATOR: byte := 0x1f
  const DOMAIN: bytes := Ascii("tamga-fingerprint-v1")
  const PREFIX: bytes := DOMAIN + [SEPARATOR]

  // ----- what the documentation promises

  predicate ValidLabel(name: bytes) {
    name != [] && forall k :: 0 <= k < |name| ==> 0x21 <= name[k] <= 0x7E && name[k] != EQUALS
  }

  predicate ValidValue(value: bytes) {
    forall k :: 0 <= k < |value| ==> value[k] > 0x1F && value[k] != 0x7F
  }

  /** Space, tab, CR, LF, VT, FF: the enumerated ASCII trim set. */
  predicate IsTrimmed(c: byte) {
    c == 0x20 || 0x09 <= c <= 0x0D
  }

  function TrimLeft(v: bytes): bytes {
    if v != [] && IsTrimmed(v[0]) then TrimLeft(v[1..]) else v
  }

  function TrimRight(v: bytes): bytes {
    if v != [] && IsTrimmed(v[|v| - 1]) then TrimRight(v[..|v| - 1]) else v
  }

  /** Go's `strings.Trim` under the ASCII cutset. */
  function Trim(v: bytes): bytes {
    TrimRight(TrimLeft(v))
  }

  function Part(c: Component): bytes {
    c.name + [EQUALS] + Trim(c.value)
  }

  function Parts(cs: seq<Component>): (ps: seq<bytes>)
    ensures |ps| == |cs| && forall i :: 0 <= i < |cs| ==> ps[i] == Part(cs[i])
  {
    seq(|cs|, i requires 0 <= i < |cs| => Part(cs[i]))
  }

  predicate ComponentOk(c: Component) {
    ValidLabel(c.name) && ValidValue(Trim(c.value))
  }

  ghost predicate AllOk(cs: seq<Component>, n: nat)
    requires n <= |cs|
  {
    forall i :: 0 <= i < n ==> ComponentOk(cs[i])
  }

  ghost predicate DistinctLabels(cs: seq<Component>, n: nat)
    requires n <= |cs|
  {
    forall i, j :: 0 <= i < j < n ==> cs[i].name != cs[j].name
  }

  /** The inputs `CanonicalFingerprint` accepts. */
  ghost predicate Acceptable(cs: seq<Component>) {
    cs != [] && AllOk(cs, |cs|) && DistinctLabels(cs, |cs|)
  }

  /** Component `k` is the first one at fault, and `why` is its fault. */
  ghost predicate FirstFault(cs: seq<Component>, k: nat, why: Refusal) {
    && k < |cs|
    && AllOk(cs, k)
    && DistinctLabels(cs, k)
    && var c := cs[k];
       if !ValidLabel(c.name) then why == BadLabel(c.name)
       else if exists i :: 0 <= i < k && cs[i].name == c.name then why == DuplicateLabel(c.name)
       else !ValidValue(Trim(c.value)) && why == BadValue(c.name)
  }

  /** The pre-hash canonical string of an accepted input. */
  function Canonical(cs: seq<Component>): bytes {
    PREFIX + Body(cs)
  }

  function Body(cs: seq<Component>): bytes {
    Join(Sort(Parts(cs)), SEPARATOR)
  }

  /** What a component means: its label and its trimmed value. */
  ghost function Meaning(c: Component): (bytes, bytes) {
    (c.name, Trim(c.value))
  }

  ghost function Pairs(cs: seq<Component>): set<(bytes, bytes)> {
    set i | 0 <= i < |cs| :: Meaning(cs[i])
  }

  // ----- the code

  method ValidateLabel(name: bytes) returns (ok: bool)
    ensures ok <==> ValidLabel(name)
  {
    if name == [] {
      return false;
    }
    var i := 0;
    while i < |name|
      invariant 0 <= i <= |name|
      invariant forall k :: 0 <= k < i ==> 0x21 <= name[k] <= 0x7E && name[k] != EQUALS
    {
      var c := name[i];
      if c < 0x21 || c > 0x7E {
        return false;
      }
      if c == EQUALS {
        return false;
      }
      i := i + 1;
    }
    return true;
  }

  method ValidateValue(value: bytes) returns (ok: bool)
    ensures ok <==> ValidValue(value)
  {
    var i := 0;
    while i < |value|
      invariant 0 <= i <= |value|
      invariant forall k :: 0 <= k < i ==> value[k] > 0x1F && value[k] != 0x7F
    {
      if value[i] <= 0x1F || value[i] == 0x7F {
        return false;
      }
      i := i + 1;
    }
    return true;
  }

  lemma FaultRefuses(cs: seq<Component>, k: nat, why: Refusal)
    requires FirstFault(cs, k, why)
    ensures !Acceptable(cs)
  {
    assert Acceptable(cs) ==> ComponentOk(cs[k]);
  }

  lemma PartsSoFar(cs: seq<Component>, i: nat)
    requires i < |cs|
    ensures Parts(cs[..i + 1]) == Parts(cs[..i]) + [Part(cs[i])]
  {
  }

  /** The loop of `fingerprintCanonicalForm`: validates each component and renders it. */
  method RenderParts(cs: seq<Component>) returns (r: Result<seq<bytes>, Refusal>)
    ensures r.Ok? ==> AllOk(cs, |cs|) && DistinctLabels(cs, |cs|) && r.value == Parts(cs)
    ensures r.Err? ==> exists k :: FirstFault(cs, k, r.error)
  {
    var parts: seq<bytes> := [];
    var seen: set<bytes> := {};
    var i := 0;
    while i < |cs|
      invariant 0 <= i <= |cs|
      invariant parts == Parts(cs[..i])
      invariant forall l :: l in seen <==> exists k :: 0 <= k < i && cs[k].name == l
      invariant AllOk(cs, i) && DistinctLabels(cs, i)
    {
      var component := cs[i];
      var okLabel := ValidateLabel(component.name);
      if !okLabel {
        assert FirstFault(cs, i, BadLabel(component.name));
        return Err(BadLabel(component.name));
      }
      if component.name in seen {
        assert FirstFault(cs, i, DuplicateLabel(component.name));
        return Err(DuplicateLabel(component.name));
      }
      seen := seen + {component.name};
      var value := Trim(component.value);
      var okValue := ValidateValue(value);
      if !okValue {
        assert FirstFault(cs, i, BadValue(component.name));
        return Err(BadValue(component.name));
      }
      PartsSoFar(cs, i);
      parts := parts + [component.name + [EQUALS] + value];
      i := i + 1;
    }
    assert cs[..i] == cs;
    return Ok(parts);
  }

  /** `fingerprintCanonicalForm`: accepts exactly the acceptable inputs, and names the first fault of any other. */
  method CanonicalForm(cs: seq<Component>) returns (r: Result<bytes, Refusal>)
    ensures r.Ok? <==> Acceptable(cs)
    ensures r.Ok? ==> r.value == Canonical(cs)
    ensures r.Err? ==> if cs == [] then r.error == NoComponents
                       else exists k :: FirstFault(cs, k, r.error)
  {
    if cs == [] {
      return Err(NoComponents);
    }
    var rendered := RenderParts(cs);
    if rendered.Err? {
      ghost var k :| FirstFault(cs, k, rendered.error);
      FaultRefuses(cs, k, rendered.error);
      return Err(rendered.error);
    }
    var parts := new bytes[|rendered.value|](k requires 0 <= k < |rendered.value| => rendered.value[k]);
    assert parts[..] == Parts(cs);
    SortInPlace(parts);
    return Ok(PREFIX + Join(parts[..], SEPARATOR));
  }

  // ----- the parser that undoes it

  /** Splits one `label=value` at its first `=`. */
  function ParsePart(p: bytes): Option<(bytes, bytes)> {
    Cut(p, EQUALS)
  }

  function ParseParts(ps: seq<bytes>): Option<seq<(bytes, bytes)>> {
    if ps == [] then Some([])
    else match (ParsePart(ps[0]), ParseParts(ps[1..]))
         case (Some(c), Some(rest)) => Some([c] + rest)
         case _ => None
  }

  /** Reads a canonical string back: the domain tag, then separated components. */
  function ParseCanonical(s: bytes): Option<seq<(bytes, bytes)>> {
    if PREFIX <= s then ParseParts(Split(s[|PREFIX|..], SEPARATOR)) else None
  }

  lemma PartIsReadable(c: Component)
    requires ComponentOk(c)
    ensures SEPARATOR !in Part(c)
    ensures ParsePart(Part(c)) == Some(Meaning(c))
  {
    CutJoined(c.name, EQUALS, Trim(c.value));
  }

  lemma {:induction false} ParsePartsEach(ps: seq<bytes>)
    requires forall p <- ps :: ParsePart(p).Some?
    ensures ParseParts(ps).Some? && |ParseParts(ps).value| == |ps|
    ensures forall i :: 0 <= i < |ps| ==> ParseParts(ps).value[i] == ParsePart(ps[i]).value
  {
    if ps != [] {
      ParsePartsEach(ps[1..]);
    }
  }

  lemma BodyReadsBack(cs: seq<Component>)
    requires Acceptable(cs)
    ensures Split(Body(cs), SEPARATOR) == Sort(Parts(cs))
    ensures ParseParts(Sort(Parts(cs))).Some?
    ensures |ParseParts(Sort(Parts(cs))).value| == |cs|
    ensures forall x :: x in ParseParts(Sort(Parts(cs))).value <==> x in Pairs(cs)
  {
    var parts := Parts(cs);
    var ps := Sort(parts);
    forall j | 0 <= j < |ps|
      ensures SEPARATOR !in ps[j] && ParsePart(ps[j]).Some? && ParsePart(ps[j]).value in Pairs(cs)
    {
      var i := PermutationSource(parts, ps, j);
      PartIsReadable(cs[i]);
    }
    SplitJoin(ps, SEPARATOR);
    ParsePartsEach(ps);
    forall i | 0 <= i < |cs| ensures Meaning(cs[i]) in ParseParts(ps).value {
      var j := PermutationSource(ps, parts, i);
      PartIsReadable(cs[i]);
      assert ParseParts(ps).value[j] == Meaning(cs[i]);
    }
  }

  lemma AfterPrefix(p: bytes, s: bytes)
    ensures p <= p + s && (p + s)[|p|..] == s
  {
  }

  /** The parser undoes the printer: it recovers exactly the (label, trimmed value) pairs, each once. */
  lemma ParseUndoesCanonical(cs: seq<Component>)
    requires Acceptable(cs)
    ensures ParseCanonical(Canonical(cs)).Some?
    ensures var read := ParseCanonical(Canonical(cs)).value;
            |read| == |cs| && forall x :: x in read <==> x in Pairs(cs)
  {
    BodyReadsBack(cs);
    AfterPrefix(PREFIX, Body(cs));
  }

  lemma AcceptedPartsAreDistinct(cs: seq<Component>)
    requires Acceptable(cs)
    ensures Distinct(Parts(cs))
  {
    forall i, j | 0 <= i < j < |cs| ensures Parts(cs)[i] != Parts(cs)[j] {
      assert ComponentOk(cs[i]) && ComponentOk(cs[j]);
      CutJoined(cs[i].name, EQUALS, Trim(cs[i].value));
      CutJoined(cs[j].name, EQUALS, Trim(cs[j].value));
    }
  }

  lemma PartsFollowPairs(a: seq<Component>, b: seq<Component>, p: bytes)
    requires Pairs(a) <= Pairs(b)
    requires p in Parts(a)
    ensures p in Parts(b)
  {
    var i :| 0 <= i < |a| && Parts(a)[i] == p;
    assert Meaning(a[i]) in Pairs(a);
    var j :| 0 <= j < |b| && Meaning(b[j]) == Meaning(a[i]);
    assert Parts(b)[j] == p;
  }

  lemma BodyIsIdentity(a: seq<Component>, b: seq<Component>)
    requires Acceptable(a) && Acceptable(b)
    ensures Body(a) == Body(b) <==> Pairs(a) == Pairs(b)
  {
    if Body(a) == Body(b) {
      BodyReadsBack(a);
      BodyReadsBack(b);
    }
    if Pairs(a) == Pairs(b) {
      AcceptedPartsAreDistinct(a);
      AcceptedPartsAreDistinct(b);
      forall p ensures p in Parts(a) <==> p in Parts(b) {
        if p in Parts(a) { PartsFollowPairs(a, b, p); }
        if p in Parts(b) { PartsFollowPairs(b, a, p); }
      }
      DistinctSameElements(Parts(a), Parts(b));
      SortIgnoresOrder(Parts(a), Parts(b));
    }
  }

  /**
   Two accepted inputs share a canonical string exactly when they are the same set of
   (label, trimmed value) pairs: no two machines collide, and no machine gets two strings.
   */
  lemma CanonicalIsIdentity(a: seq<Component>, b: seq<Component>)
    requires Acceptable(a) && Acceptable(b)
    ensures Canonical(a) == Canonical(b) <==> Pairs(a) == Pairs(b)
  {
    BodyIsIdentity(a, b);
    AfterPrefix(PREFIX, Body(a));
    AfterPrefix(PREFIX, Body(b));
  }

  lemma OrderOfBody(a: seq<Component>, b: seq<Component>)
    requires multiset(a) == multiset(b)
    requires Acceptable(a)
    ensures Acceptable(b) && Body(a) == Body(b)
  {
    SameMultisetSameLength(a, b);
    SameComponents(a, b);
    SameComponents(b, a);
    BodyIsIdentity(a, b);
  }

  /** The caller's iteration order affects neither acceptance nor the result. */
  lemma OrderIsIrrelevant(a: seq<Component>, b: seq<Component>)
    requires multiset(a) == multiset(b)
    ensures Acceptable(a) <==> Acceptable(b)
    ensures Acceptable(a) ==> Canonical(a) == Canonical(b)
  {
    if Acceptable(a) { OrderOfBody(a, b); }
    if Acceptable(b) { OrderOfBody(b, a); }
  }

  lemma SameComponents(a: seq<Component>, b: seq<Component>)
    requires multiset(a) == multiset(b)
    ensures AllOk(a, |a|) ==> AllOk(b, |b|)
    ensures DistinctLabels(a, |a|) ==> DistinctLabels(b, |b|)
    ensures Pairs(b) <= Pairs(a)
  {
    forall i | 0 <= i < |b| ensures exists j :: 0 <= j < |a| && a[j] == b[i] {
      SameMultisetSameElements(a, b, b[i]);
    }
    if DistinctLabels(a, |a|) { LabelsStayDistinct(a, b); }
  }

  lemma LabelsStayDistinct(a: seq<Component>, b: seq<Component>)
    requires multiset(a) == multiset(b)
    requires DistinctLabels(a, |a|)
    ensures DistinctLabels(b, |b|)
  {
    DistinctPermutes(a, b);
    forall i, j | 0 <= i < j < |b| ensures b[i].name != b[j].name {
      var p := PermutationSource(a, b, i);
      var q := PermutationSource(a, b, j);
      assert p != q;
    }
  }

  function Trimmed(cs: seq<Component>): (r: seq<Component>)
    ensures |r| == |cs|
    ensures forall i :: 0 <= i < |cs| ==> r[i] == Component(cs[i].name, Trim(cs[i].value))
  {
    seq(|cs|, i requires 0 <= i < |cs| => Component(cs[i].name, Trim(cs[i].value)))
  }

  lemma {:induction false} TrimLeftEnds(v: bytes)
    ensures TrimLeft(v) != [] ==> !IsTrimmed(TrimLeft(v)[0])
  {
    if v != [] { TrimLeftEnds(v[1..]); }
  }

  lemma {:induction false} TrimRightEnds(v: bytes)
    ensures TrimRight(v) != [] ==> !IsTrimmed(TrimRight(v)[|TrimRight(v)| - 1])
    ensures TrimRight(v) <= v
  {
    if v != [] { TrimRightEnds(v[..|v| - 1]); }
  }

  lemma TrimIdempotent(v: bytes)
    ensures Trim(Trim(v)) == Trim(v)
  {
    TrimLeftEnds(v);
    TrimRightEnds(TrimLeft(v));
  }

  /** One of the six ASCII white-space characters, and no other. */
  ghost predicate IsAsciiSpace(c: byte) {
    c in {0x20, 0x09, 0x0A, 0x0D, 0x0B, 0x0C}
  }

  lemma {:induction false} TrimLeftExactly(v: bytes) returns (a: bytes)
    ensures v == a + TrimLeft(v) && forall i :: 0 <= i < |a| ==> IsAsciiSpace(a[i])
    ensures TrimLeft(v) != [] ==> !IsAsciiSpace(TrimLeft(v)[0])
  {
    a := [];
    if v != [] && IsTrimmed(v[0]) {
      a := TrimLeftExactly(v[1..]);
      a := [v[0]] + a;
    }
  }

  lemma {:induction false} TrimRightExactly(v: bytes) returns (b: bytes)
    ensures v == TrimRight(v) + b && forall i :: 0 <= i < |b| ==> IsAsciiSpace(b[i])
    ensures TrimRight(v) != [] ==> !IsAsciiSpace(TrimRight(v)[|TrimRight(v)| - 1])
  {
    b := [];
    if v != [] && IsTrimmed(v[|v| - 1]) {
      b := TrimRightExactly(v[..|v| - 1]);
      b := b + [v[|v| - 1]];
    }
  }

  /** Trimming takes off all ASCII white space at both ends, and nothing else: not the wider Unicode notion. */
  lemma TrimExactly(v: bytes) returns (a: bytes, b: bytes)
    ensures v == a + Trim(v) + b
    ensures (forall i :: 0 <= i < |a| ==> IsAsciiSpace(a[i])) && (forall i :: 0 <= i < |b| ==> IsAsciiSpace(b[i]))
    ensures Trim(v) != [] ==> !IsAsciiSpace(Trim(v)[0]) && !IsAsciiSpace(Trim(v)[|Trim(v)| - 1])
  {
    a := TrimLeftExactly(v);
    b := TrimRightExactly(TrimLeft(v));
    if Trim(v) != [] { assert Trim(v)[0] == TrimLeft(v)[0]; }
  }

  /** The canonical string in full: the domain tag, then each `label=value` after a unit separator, in byte order. */
  lemma CanonicalText(cs: seq<Component>) returns (parts: seq<bytes>)
    requires cs != []
    ensures Canonical(cs) == Ascii("tamga-fingerprint-v1") + [0x1F] + Join(parts, 0x1F)
    ensures multiset(parts) == multiset(Parts(cs))
    ensures forall i :: 0 <= i < |cs| ==> Parts(cs)[i] == cs[i].name + Ascii("=") + Trim(cs[i].value)
    ensures forall i, j :: 0 <= i < j < |parts| ==> PrefixOrSmaller(parts[i], parts[j])
  {
    parts := Sort(Parts(cs));
    assert Ascii("=") == [EQUALS];
    SortIsSorted(Parts(cs));
    forall i, j | 0 <= i < j < |parts| ensures PrefixOrSmaller(parts[i], parts[j]) {
      LexLeqExactly(parts[i], parts[j]);
    }
  }

  /** Trimming the values beforehand changes neither acceptance nor the result. */
  lemma PreTrimmingIsIrrelevant(cs: seq<Component>)
    ensures Acceptable(Trimmed(cs)) <==> Acceptable(cs)
    ensures Canonical(Trimmed(cs)) == Canonical(cs)
  {
    var t := Trimmed(cs);
    forall i | 0 <= i < |cs|
      ensures Part(t[i]) == Part(cs[i]) && (ComponentOk(t[i]) <==> ComponentOk(cs[i]))
    {
      TrimIdempotent(cs[i].value);
    }
    assert Parts(t) == Parts(cs);
    assert AllOk(t, |t|) <==> AllOk(cs, |cs|) by {
      if AllOk(t, |t|) { forall i | 0 <= i < |cs| ensures ComponentOk(cs[i]) { assert ComponentOk(t[i]); } }
    }
    assert DistinctLabels(t, |t|) <==> DistinctLabels(cs, |cs|) by {
      if DistinctLabels(t, |t|) {
        forall i, j | 0 <= i < j < |cs| ensures cs[i].name != cs[j].name { assert t[i].name != t[j].name; }
      }
    }
  }
}
