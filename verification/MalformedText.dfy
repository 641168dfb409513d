/**
 What the proof encoding does to strings that are not UTF-8, which a Go string may hold and a Rust
 `String` may not: Go writes one replacement escape for every malformed byte. The module says exactly
 when the bytes are still the server's, and exactly when they still identify what was encoded.
 */
module MalformedText {
  import opened Wrappers
  import opened Bytes
  import opened Json
  import opened JsonParser
  import opened OfflineProof

  /** What Go writes for a malformed byte. */
  const REPLACEMENT: bytes := [0x5C, 0x75, 0x66, 0x66, 0x66, 0x64]

  // ----- when the bytes are the server's

  /** However both are continued, what the scanner makes of `p` differs from `q`. */
  ghost predicate Diverges(p: bytes, q: bytes) {
    forall rest: bytes, rest': bytes {:trigger Unescape(p + rest), q + rest'} :: Unescape(p + rest) != q + rest'
  }

  lemma DivergesAt(p: bytes, q: bytes, rest: bytes, rest': bytes)
    requires Diverges(p, q)
    ensures Unescape(p + rest) != q + rest'
  {
  }

  lemma PrefixCancels(b: bytes, x: bytes, y: bytes)
    ensures b + x == b + y <==> x == y
  {
    assert (b + x)[|b|..] == x && (b + y)[|b|..] == y;
  }

  lemma DivergesInsideAt(a: bytes, b: bytes, p: bytes, q: bytes, t: bytes, u: bytes, rest: bytes, rest': bytes)
    requires Scans(a, b) && Diverges(p, q)
    ensures Unescape(a + p + t + rest) != b + q + u + rest'
  {
    hide Unescape;
    assert a + p + t + rest == a + (p + (t + rest));
    assert b + q + u + rest' == b + (q + (u + rest'));
    DivergesAt(p, q, t + rest, u + rest');
    PrefixCancels(b, Unescape(p + (t + rest)), q + (u + rest'));
  }

  /** A divergence stays one after aligned text, and whatever comes next. */
  lemma DivergesInside(a: bytes, b: bytes, p: bytes, q: bytes, t: bytes, u: bytes)
    requires Scans(a, b) && Diverges(p, q)
    ensures Diverges(a + p + t, b + q + u)
  {
    forall rest: bytes, rest': bytes ensures Unescape(a + p + t + rest) != b + q + u + rest' {
      DivergesInsideAt(a, b, p, q, t, u, rest, rest');
    }
  }

  lemma ReplacementIsScanned()
    ensures Scans(REPLACEMENT, REPLACEMENT)
  {
    ScanEscape(REPLACEMENT);
  }

  lemma MalformedByteDiverges(b: byte)
    requires b >= 0x80
    ensures Diverges(REPLACEMENT, [b])
  {
    ReplacementIsScanned();
    forall rest: bytes, rest': bytes ensures Unescape(REPLACEMENT + rest) != [b] + rest' {
      assert (REPLACEMENT + Unescape(rest))[0] == BACKSLASH && ([b] + rest')[0] == b;
    }
  }

  // A malformed front: one replacement for one byte.
  lemma MalformedFront(s: bytes)
    requires s != [] && Malformed(s)
    ensures GoChars(s) == REPLACEMENT + GoChars(s[1..])
    ensures SerdeChars(s) == [s[0]] + SerdeChars(s[1..])
  {
  }

  lemma NothingScans()
    ensures Scans([], [])
  {
    ScanPlain([]);
  }

  lemma {:induction false} BadChars(s: bytes)
    requires !ValidUtf8(s)
    ensures Diverges(GoChars(s), SerdeChars(s))
    decreases |s|
  {
    if Malformed(s) {
      MalformedFront(s);
      MalformedByteDiverges(s[0]);
      NothingScans();
      DivergesInside([], [], REPLACEMENT, [s[0]], GoChars(s[1..]), SerdeChars(s[1..]));
      assert [] + REPLACEMENT == REPLACEMENT && [] + [s[0]] == [s[0]];
    } else {
      var token, n := ScanRune(s);
      var image :| Scans(token, image) && SerdeChars(s) == image + SerdeChars(s[n..]);
      BadChars(s[n..]);
      DivergesInside(token, image, GoChars(s[n..]), SerdeChars(s[n..]), [], []);
      assert token + GoChars(s[n..]) + [] == GoChars(s) && image + SerdeChars(s[n..]) + [] == SerdeChars(s);
    }
  }

  lemma BadText(s: bytes)
    requires !ValidUtf8(s)
    ensures Diverges(Text(s, Go), Text(s, Serde))
  {
    BadChars(s);
    ScanPlain([QUOTE]);
    DivergesInside([QUOTE], [QUOTE], GoChars(s), SerdeChars(s), [QUOTE], [QUOTE]);
  }

  lemma {:induction false} BadValue(v: Json)
    requires !ValidText(v)
    ensures Diverges(Encode(v, Go), Encode(v, Serde))
    decreases v, 1
  {
    match v
    case Str(s) => BadText(s);
    case Arr(items) =>
      BadItems(items, true);
      ScanPlain([OPEN_BRACKET]);
      DivergesInside([OPEN_BRACKET], [OPEN_BRACKET], EncodeItems(items, Go, true), EncodeItems(items, Serde, true),
                     [CLOSE_BRACKET], [CLOSE_BRACKET]);
    case Obj(m) =>
      var keys := SortedKeys(m.Keys);
      BadMembers(v, keys, true);
      ScanPlain([OPEN_BRACE]);
      DivergesInside([OPEN_BRACE], [OPEN_BRACE], EncodeMembers(v, keys, Go, true), EncodeMembers(v, keys, Serde, true),
                     [CLOSE_BRACE], [CLOSE_BRACE]);
    case _ =>
  }

  lemma {:induction false} BadItems(items: seq<Json>, first: bool)
    requires exists i :: 0 <= i < |items| && !ValidText(items[i])
    ensures Diverges(EncodeItems(items, Go, first), EncodeItems(items, Serde, first))
    decreases items, 0
  {
    var sep, v := Separator(first), items[0];
    var goRest, serdeRest := EncodeItems(items[1..], Go, false), EncodeItems(items[1..], Serde, false);
    ScanPlain(sep);
    if ValidText(v) {
      ScanValue(v);
      ScanConcat(sep, sep, Encode(v, Go), Encode(v, Serde));
      var i :| 0 <= i < |items| && !ValidText(items[i]);
      assert items[1..][i - 1] == items[i];
      BadItems(items[1..], false);
      DivergesInside(sep + Encode(v, Go), sep + Encode(v, Serde), goRest, serdeRest, [], []);
      assert sep + Encode(v, Go) + goRest + [] == EncodeItems(items, Go, first);
      assert sep + Encode(v, Serde) + serdeRest + [] == EncodeItems(items, Serde, first);
    } else {
      BadValue(v);
      DivergesInside(sep, sep, Encode(v, Go), Encode(v, Serde), goRest, serdeRest);
    }
  }

  ghost predicate BadMember(v: Json, k: bytes)
    requires v.Obj? && k in v.members
  {
    !ValidUtf8(k) || !ValidText(v.members[k])
  }

  lemma MembersUnfoldIn(v: Json, keys: seq<bytes>, style: Style, first: bool)
    requires v.Obj? && keys != [] && forall k :: k in keys ==> k in v.members
    ensures EncodeMembers(v, keys, style, first)
         == Separator(first) + Text(keys[0], style) + [COLON] + Encode(v.members[keys[0]], style)
            + EncodeMembers(v, keys[1..], style, false)
  {
  }

  lemma {:induction false} BadMembers(v: Json, keys: seq<bytes>, first: bool)
    requires v.Obj? && (forall k :: k in keys ==> k in v.members) && (exists k :: k in keys && BadMember(v, k))
    ensures Diverges(EncodeMembers(v, keys, Go, first), EncodeMembers(v, keys, Serde, first))
    decreases v, 0, |keys|
  {
    var sep, k, value := Separator(first), keys[0], v.members[keys[0]];
    var goRest, serdeRest := EncodeMembers(v, keys[1..], Go, false), EncodeMembers(v, keys[1..], Serde, false);
    MembersUnfoldIn(v, keys, Go, first);
    MembersUnfoldIn(v, keys, Serde, first);
    ScanPlain(sep);
    if !ValidUtf8(k) {
      BadText(k);
      DivergesInside(sep, sep, Text(k, Go), Text(k, Serde), [COLON] + Encode(value, Go) + goRest,
                     [COLON] + Encode(value, Serde) + serdeRest);
      Regroup(sep, Text(k, Go), Encode(value, Go), goRest);
      Regroup(sep, Text(k, Serde), Encode(value, Serde), serdeRest);
    } else {
      ScanText(k);
      ScanPlain([COLON]);
      ScanConcat(sep, sep, Text(k, Go), Text(k, Serde));
      ScanConcat(sep + Text(k, Go), sep + Text(k, Serde), [COLON], [COLON]);
      if !ValidText(value) {
        BadValue(value);
        DivergesInside(sep + Text(k, Go) + [COLON], sep + Text(k, Serde) + [COLON], Encode(value, Go),
                       Encode(value, Serde), goRest, serdeRest);
      } else {
        ScanValue(value);
        ScanMember(sep, Text(k, Go), Text(k, Serde), Encode(value, Go), Encode(value, Serde));
        var bad :| bad in keys && BadMember(v, bad);
        assert bad in keys[1..];
        BadMembers(v, keys[1..], false);
        DivergesInside(sep + Text(k, Go) + [COLON] + Encode(value, Go),
                       sep + Text(k, Serde) + [COLON] + Encode(value, Serde), goRest, serdeRest, [], []);
        NothingAfter(sep + Text(k, Go) + [COLON] + Encode(value, Go) + goRest);
        NothingAfter(sep + Text(k, Serde) + [COLON] + Encode(value, Serde) + serdeRest);
      }
    }
  }

  lemma Regroup(sep: bytes, key: bytes, value: bytes, rest: bytes)
    ensures sep + key + ([COLON] + value + rest) == sep + key + [COLON] + value + rest
  {
  }

  lemma NothingAfter(s: bytes)
    ensures s + [] == s
  {
  }

  /**
   The produced bytes are the serde encoding, byte for byte, exactly when every string in the value, keys
   included, is well-formed.
   */
  lemma MarshalMatchesSerdeExactly(v: Json)
    ensures SerdeCompatMarshal(v) == Encode(v, Serde) <==> ValidText(v)
  {
    if ValidText(v) {
      MarshalMatchesSerde(v);
    } else {
      BadValue(v);
      DivergesAt(Encode(v, Go), Encode(v, Serde), [], []);
      MarshalIsUnescape(v);
      NothingAfter(Encode(v, Go));
      NothingAfter(Encode(v, Serde));
    }
  }

  lemma MarshalIsUnescape(v: Json)
    ensures SerdeCompatMarshal(v) == Unescape(Encode(v, Go))
  {
    assert TrimSuffix(EncoderOutput(v), NEWLINE) == Encode(v, Go);
  }

  // ----- when the bytes identify the value

  lemma ScanAt(p: bytes, image: bytes, rest: bytes)
    requires Scans(p, image)
    ensures Unescape(p + rest) == image + Unescape(rest)
  {
  }

  lemma {:induction false} SerdeCharsConcat(p: bytes, s: bytes)
    ensures SerdeChars(p + s) == SerdeChars(p) + SerdeChars(s)
  {
    if p == [] {
      assert p + s == s;
    } else {
      assert (p + s)[1..] == p[1..] + s;
      SerdeCharsConcat(p[1..], s);
    }
  }

  /** No serde text contains a replacement escape: the parser stops at it. */
  lemma ReplacementIsUnreadable(rest: bytes)
    ensures ParseChars(REPLACEMENT + rest).None?
  {
    var s := REPLACEMENT + rest;
    assert s[0] == BACKSLASH && s[1] == LETTER_U && s[2] == 0x66;
    assert ParseToken(s).None?;
  }

  // Reading on after well-formed text changes nothing about what follows it.
  lemma {:induction false} UnreadableAfter(w: bytes, rest: bytes)
    requires ParseChars(rest).None?
    ensures ParseChars(SerdeChars(w) + rest).None?
  {
    if w == [] {
      assert SerdeChars(w) + rest == rest;
    } else {
      var after := SerdeChars(w[1..]) + rest;
      assert SerdeChars(w) + rest == SerdeToken(w[0]) + after;
      TokenReadsBack(w[0], after);
      UnreadableAfter(w[1..], rest);
    }
  }

  lemma {:induction false} CharsUnreadable(s: bytes, rest: bytes)
    requires !ValidUtf8(s)
    ensures ParseChars(Unescape(GoChars(s) + rest)).None?
    decreases |s|
  {
    if Malformed(s) {
      MalformedFront(s);
      ReplacementIsScanned();
      assert GoChars(s) + rest == REPLACEMENT + (GoChars(s[1..]) + rest);
      ScanAt(REPLACEMENT, REPLACEMENT, GoChars(s[1..]) + rest);
      ReplacementIsUnreadable(Unescape(GoChars(s[1..]) + rest));
    } else {
      var token, n := ScanRune(s);
      var image :| Scans(token, image) && SerdeChars(s) == image + SerdeChars(s[n..]);
      assert s == s[..n] + s[n..];
      SerdeCharsConcat(s[..n], s[n..]);
      SuffixCancels(image, SerdeChars(s[..n]), SerdeChars(s[n..]));
      assert GoChars(s) + rest == token + (GoChars(s[n..]) + rest);
      ScanAt(token, image, GoChars(s[n..]) + rest);
      CharsUnreadable(s[n..], rest);
      UnreadableAfter(s[..n], Unescape(GoChars(s[n..]) + rest));
    }
  }

  lemma SuffixCancels(x: bytes, y: bytes, s: bytes)
    ensures x + s == y + s <==> x == y
  {
    assert |x| == |y| ==> (x + s)[..|x|] == x && (y + s)[..|y|] == y;
  }

  lemma TextUnreadable(s: bytes, rest: bytes)
    requires !ValidUtf8(s)
    ensures ParseText(Unescape(Text(s, Go) + rest)).None?
    ensures var out := Unescape(Text(s, Go) + rest); out != [] && out[0] == QUOTE
  {
    ScanPlain([QUOTE]);
    assert Text(s, Go) + rest == [QUOTE] + (GoChars(s) + ([QUOTE] + rest));
    ScanAt([QUOTE], [QUOTE], GoChars(s) + ([QUOTE] + rest));
    CharsUnreadable(s, [QUOTE] + rest);
    var tail := Unescape(GoChars(s) + ([QUOTE] + rest));
    assert ([QUOTE] + tail)[1..] == tail;
  }

  /** A byte no value starts with, and the scanner leaves alone in front. */
  lemma GoFirstByte(v: Json, rest: bytes)
    ensures Encode(v, Go) != []
    ensures var out := Unescape(Encode(v, Go) + rest); out != [] && out[0] != CLOSE_BRACKET
  {
    if v.Int? { DecimalReadsBack(if v.n < 0 then -v.n else v.n); }
    var s := Encode(v, Go) + rest;
    assert s[0] == Encode(v, Go)[0];
    UnescapeFront(s);
  }

  lemma QuotedIsRefused(s: bytes)
    requires s != [] && s[0] == QUOTE && ParseText(s).None?
    ensures Parse(s).None?
  {
  }

  lemma BracketedIsRefused(body: bytes)
    requires ParseItems(body, true).None?
    ensures Parse([OPEN_BRACKET] + body).None?
  {
    assert ([OPEN_BRACKET] + body)[1..] == body;
  }

  lemma BracedIsRefused(body: bytes)
    requires ParseMembers(body, true).None?
    ensures Parse([OPEN_BRACE] + body).None?
  {
    assert ([OPEN_BRACE] + body)[1..] == body;
  }

  lemma ScanPlainAt(p: bytes, rest: bytes)
    requires BACKSLASH !in p
    ensures Unescape(p + rest) == p + Unescape(rest)
  {
    ScanPlain(p);
  }

  /** The parser refuses the produced bytes of a value that holds a malformed string, whatever follows them. */
  lemma {:induction false} ValueUnreadable(v: Json, rest: bytes)
    requires !ValidText(v)
    ensures Parse(Unescape(Encode(v, Go) + rest)).None?
    decreases v, 1
  {
    match v
    case Str(s) =>
      TextUnreadable(s, rest);
      QuotedIsRefused(Unescape(Text(s, Go) + rest));
    case Arr(items) => ArrUnreadable(items, rest);
    case Obj(m) => ObjUnreadable(m, rest);
    case _ =>
  }

  lemma {:induction false} ArrUnreadable(items: seq<Json>, rest: bytes)
    requires exists i :: 0 <= i < |items| && !ValidText(items[i])
    ensures Parse(Unescape(Encode(Arr(items), Go) + rest)).None?
    decreases Arr(items), 0
  {
    hide Parse, ParseItems, Unescape;
    var body := EncodeItems(items, Go, true) + ([CLOSE_BRACKET] + rest);
    assert Encode(Arr(items), Go) + rest == [OPEN_BRACKET] + body;
    ScanPlainAt([OPEN_BRACKET], body);
    ItemsUnreadable(items, true, [CLOSE_BRACKET] + rest);
    BracketedIsRefused(Unescape(body));
  }

  lemma {:induction false} ObjUnreadable(m: map<bytes, Json>, rest: bytes)
    requires exists k :: k in m && BadMember(Obj(m), k)
    ensures Parse(Unescape(Encode(Obj(m), Go) + rest)).None?
    decreases Obj(m), 0
  {
    hide Parse, ParseMembers, Unescape;
    var v, keys := Obj(m), SortedKeys(m.Keys);
    var body := EncodeMembers(v, keys, Go, true) + ([CLOSE_BRACE] + rest);
    assert Encode(v, Go) + rest == [OPEN_BRACE] + body;
    ScanPlainAt([OPEN_BRACE], body);
    MembersUnreadable(v, keys, true, [CLOSE_BRACE] + rest);
    BracedIsRefused(Unescape(body));
  }

  /** The item parser refuses this text, or what follows its first item. */
  ghost predicate ItemRefused(text: bytes) {
    && text != [] && text[0] != CLOSE_BRACKET
    && (Parse(text).None? || ParseItems(Parse(text).value.1, false).None?)
  }

  lemma ItemStep(sep: bytes, first: bool, text: bytes)
    requires sep == Separator(first) && ItemRefused(text)
    ensures ParseItems(sep + text, first).None?
  {
    ExpectReadsBack(sep, text);
  }

  lemma BadItemIsRefused(v: Json, after: bytes)
    requires Parse(Unescape(Encode(v, Go) + after)).None?
    ensures ItemRefused(Unescape(Encode(v, Go) + after))
  {
    hide Parse, Unescape, Encode;
    GoFirstByte(v, after);
  }

  lemma BadTailIsRefused(v: Json, after: bytes)
    requires ValidText(v) && EndsNumber(Unescape(after)) && ParseItems(Unescape(after), false).None?
    ensures ItemRefused(Unescape(Encode(v, Go) + after))
  {
    hide Parse, ParseItems, Unescape, Encode, EndsNumber;
    GoFirstByte(v, after);
    ScanValue(v);
    ScanAt(Encode(v, Go), Encode(v, Serde), after);
    ReadsBack(v, Unescape(after));
  }

  lemma AfterItem(items: seq<Json>, rest: bytes)
    requires items != []
    ensures EndsNumber(Unescape(EncodeItems(items, Go, false) + rest))
  {
    var after := EncodeItems(items, Go, false) + rest;
    assert after[0] == COMMA;
    UnescapeFront(after);
  }

  lemma ItemsUnfold(items: seq<Json>, first: bool, rest: bytes)
    requires items != []
    ensures EncodeItems(items, Go, first) + rest
         == Separator(first) + (Encode(items[0], Go) + (EncodeItems(items[1..], Go, false) + rest))
  {
  }

  lemma {:induction false} ItemsUnreadable(items: seq<Json>, first: bool, rest: bytes)
    requires exists i :: 0 <= i < |items| && !ValidText(items[i])
    ensures ParseItems(Unescape(EncodeItems(items, Go, first) + rest), first).None?
    decreases items, 0
  {
    hide Parse, ParseItems, Unescape, Encode, EncodeItems, EndsNumber, ItemRefused;
    var sep, v, after := Separator(first), items[0], EncodeItems(items[1..], Go, false) + rest;
    ItemsUnfold(items, first, rest);
    ScanPlainAt(sep, Encode(v, Go) + after);
    if ValidText(v) {
      var i :| 0 <= i < |items| && !ValidText(items[i]);
      assert items[1..][i - 1] == items[i];
      AfterItem(items[1..], rest);
      ItemsUnreadable(items[1..], false, rest);
      BadTailIsRefused(v, after);
    } else {
      ValueUnreadable(v, after);
      BadItemIsRefused(v, after);
    }
    ItemStep(sep, first, Unescape(Encode(v, Go) + after));
  }

  /** The member parser refuses this text, or what follows its first member. */
  ghost predicate MemberRefused(text: bytes) {
    && text != [] && text[0] == QUOTE
    && (ParseMember(text).None? || ParseMembers(ParseMember(text).value.1, false).None?)
  }

  lemma MemberStep(sep: bytes, first: bool, text: bytes)
    requires sep == Separator(first) && MemberRefused(text)
    ensures ParseMembers(sep + text, first).None?
  {
    ExpectReadsBack(sep, text);
  }

  lemma BadKeyIsRefused(text: bytes)
    requires text != [] && text[0] == QUOTE && ParseText(text).None?
    ensures MemberRefused(text)
  {
  }

  lemma BadValueIsRefused(k: bytes, value: bytes)
    requires Parse(value).None?
    ensures MemberRefused(Text(k, Serde) + ([COLON] + value))
  {
    TextReadsBack(k, [COLON] + value);
    ExpectReadsBack([COLON], value);
  }

  lemma Reassociate4(a: bytes, b: bytes, c: bytes, d: bytes)
    ensures a + (b + (c + d)) == a + b + c + d
  {
  }

  lemma BadRestIsRefused(k: bytes, value: Json, rest: bytes)
    requires EndsNumber(rest) && ParseMembers(rest, false).None?
    ensures MemberRefused(Text(k, Serde) + ([COLON] + (Encode(value, Serde) + rest)))
  {
    hide ParseMember, ParseMembers, Encode, EndsNumber, SerdeChars;
    MemberReadsBack(k, value, rest);
    Reassociate4(Text(k, Serde), [COLON], Encode(value, Serde), rest);
    assert Text(k, Serde)[0] == QUOTE;
  }

  // A well-formed key and the colon are scanned as they stand in the serde form.
  lemma ScanKey(k: bytes, value: bytes)
    requires ValidUtf8(k)
    ensures Unescape(Text(k, Go) + ([COLON] + value)) == Text(k, Serde) + ([COLON] + Unescape(value))
  {
    ScanText(k);
    ScanAt(Text(k, Go), Text(k, Serde), [COLON] + value);
    ScanPlainAt([COLON], value);
  }

  lemma AfterMember(v: Json, keys: seq<bytes>, rest: bytes)
    requires v.Obj? && keys != [] && (forall k :: k in keys ==> k in v.members)
    ensures EndsNumber(Unescape(EncodeMembers(v, keys, Go, false) + rest))
  {
    var after := EncodeMembers(v, keys, Go, false) + rest;
    assert after[0] == COMMA;
    UnescapeFront(after);
  }

  lemma {:induction false} MembersUnreadable(v: Json, keys: seq<bytes>, first: bool, rest: bytes)
    requires v.Obj? && (forall k :: k in keys ==> k in v.members) && (exists k :: k in keys && BadMember(v, k))
    ensures ParseMembers(Unescape(EncodeMembers(v, keys, Go, first) + rest), first).None?
    decreases v, -1, |keys|
  {
    hide Parse, ParseMember, ParseMembers, ParseText, Unescape, MemberRefused, Encode, EndsNumber, Text;
    var sep, k, value := Separator(first), keys[0], v.members[keys[0]];
    var after := EncodeMembers(v, keys[1..], Go, false) + rest;
    var member := Text(k, Go) + ([COLON] + (Encode(value, Go) + after));
    MembersUnfoldIn(v, keys, Go, first);
    assert EncodeMembers(v, keys, Go, first) + rest == sep + member;
    ScanPlainAt(sep, member);
    if !ValidUtf8(k) {
      TextUnreadable(k, [COLON] + (Encode(value, Go) + after));
      BadKeyIsRefused(Unescape(member));
    } else if !ValidText(value) {
      ScanKey(k, Encode(value, Go) + after);
      ValueUnreadable(value, after);
      BadValueIsRefused(k, Unescape(Encode(value, Go) + after));
    } else {
      var bad :| bad in keys && BadMember(v, bad);
      assert bad in keys[1..];
      ScanKey(k, Encode(value, Go) + after);
      ScanValue(value);
      ScanAt(Encode(value, Go), Encode(value, Serde), after);
      AfterMember(v, keys[1..], rest);
      MembersUnreadable(v, keys[1..], false, rest);
      BadRestIsRefused(k, value, Unescape(after));
    }
    MemberStep(sep, first, Unescape(member));
  }

  /** No other value, well-formed or not, has the bytes of a well-formed one. */
  lemma WellFormedIsIdentified(v: Json, w: Json)
    requires ValidText(v)
    ensures SerdeCompatMarshal(v) == SerdeCompatMarshal(w) <==> v == w
  {
    MarshalMatchesSerde(v);
    ReadsBack(v, []);
    NothingAfter(Encode(v, Serde));
    if ValidText(w) {
      MarshalMatchesSerde(w);
      EncodeIsInjective(v, w);
    } else {
      ValueUnreadable(w, []);
      MarshalIsUnescape(w);
      NothingAfter(Encode(w, Go));
    }
  }

  // ----- when they do not

  // A well-formed rune decodes alike whatever follows it.
  lemma RuneIgnoresTail(s: bytes, tail: bytes)
    requires s != [] && !Malformed(s)
    ensures var n := DecodeRune(s).1; DecodeRune(s[..n] + tail) == DecodeRune(s)
  {
    var n := DecodeRune(s).1;
    assert forall k :: 0 <= k < n ==> (s[..n] + tail)[k] == s[k];
  }

  lemma RuneText(s: bytes, tail: bytes)
    requires s != [] && !Malformed(s)
    ensures var n := DecodeRune(s).1;
            exists token :: GoChars(s) == token + GoChars(s[n..]) && GoChars(s[..n] + tail) == token + GoChars(tail)
  {
    var n := DecodeRune(s).1;
    RuneIgnoresTail(s, tail);
    var t := s[..n] + tail;
    assert t[n..] == tail && t[..n] == s[..n] && t[0] == s[0];
    var token := if s[0] < 0x80 then EscapeAscii(s[0])
                 else if DecodeRune(s).0 == 0x2028 || DecodeRune(s).0 == 0x2029
                 then [BACKSLASH, LETTER_U, 0x32, 0x30, 0x32, HexDigit(DecodeRune(s).0 % 16)]
                 else s[..n];
    assert GoChars(s) == token + GoChars(s[n..]) && GoChars(t) == token + GoChars(tail);
  }

  /** A malformed string has a twin: another one Go writes alike. */
  lemma {:induction false} TwinString(s: bytes) returns (t: bytes)
    requires !ValidUtf8(s)
    ensures t != s && GoChars(t) == GoChars(s) && !ValidUtf8(t)
    decreases |s|
  {
    if Malformed(s) {
      var b: byte := if s[0] == 0xFF then 0xFE else 0xFF;
      t := [b] + s[1..];
      assert t[1..] == s[1..];
      MalformedFront(s);
      MalformedFront(t);
    } else {
      var n := DecodeRune(s).1;
      var tail := TwinString(s[n..]);
      t := s[..n] + tail;
      RuneText(s, tail);
      RuneIgnoresTail(s, tail);
      assert t[n..] == tail && s == s[..n] + s[n..];
    }
  }

  /** A string's bytes identify it among all strings exactly when it is well-formed. */
  lemma StringIsIdentifiedExactly(s: bytes)
    ensures (forall t :: SerdeCompatMarshal(Str(s)) == SerdeCompatMarshal(Str(t)) ==> s == t) <==> ValidUtf8(s)
  {
    if ValidUtf8(s) {
      forall t | SerdeCompatMarshal(Str(s)) == SerdeCompatMarshal(Str(t)) ensures s == t {
        WellFormedIsIdentified(Str(s), Str(t));
      }
    } else {
      var t := TwinString(s);
      assert SerdeCompatMarshal(Str(s)) == SerdeCompatMarshal(Str(t));
    }
  }

  /** Every object key, at every depth, is well-formed. */
  ghost predicate KeysAreText(v: Json) {
    match v
    case Arr(items) => forall i :: 0 <= i < |items| ==> KeysAreText(items[i])
    case Obj(m) => forall k :: k in m ==> ValidUtf8(k) && KeysAreText(m[k])
    case _ => true
  }

  lemma {:induction false} SameItems(a: seq<Json>, b: seq<Json>, first: bool)
    requires |a| == |b| && forall i :: 0 <= i < |a| ==> Encode(a[i], Go) == Encode(b[i], Go)
    ensures EncodeItems(a, Go, first) == EncodeItems(b, Go, first)
  {
    if a != [] { SameItems(a[1..], b[1..], false); }
  }

  lemma {:induction false} SameMembers(v: Json, w: Json, keys: seq<bytes>, first: bool)
    requires v.Obj? && w.Obj? && forall k :: k in keys ==> k in v.members && k in w.members
    requires forall k :: k in keys ==> Encode(v.members[k], Go) == Encode(w.members[k], Go)
    ensures EncodeMembers(v, keys, Go, first) == EncodeMembers(w, keys, Go, first)
    decreases |keys|
  {
    if keys != [] {
      MembersUnfoldIn(v, keys, Go, first);
      MembersUnfoldIn(w, keys, Go, first);
      SameMembers(v, w, keys[1..], false);
    }
  }

  lemma SameObject(m: map<bytes, Json>, m': map<bytes, Json>)
    requires m.Keys == m'.Keys && forall k :: k in m ==> Encode(m[k], Go) == Encode(m'[k], Go)
    ensures Encode(Obj(m), Go) == Encode(Obj(m'), Go)
  {
    SameMembers(Obj(m), Obj(m'), SortedKeys(m.Keys), true);
  }

  /** So has every value that holds a malformed string other than as a key. */
  lemma {:induction false} TwinValue(v: Json) returns (w: Json)
    requires !ValidText(v) && KeysAreText(v)
    ensures w != v && Encode(w, Go) == Encode(v, Go) && (v.Obj? ==> w.Obj?)
  {
    match v
    case Str(s) =>
      var t := TwinString(s);
      w := Str(t);
    case Arr(items) =>
      var i :| 0 <= i < |items| && !ValidText(items[i]);
      var x := TwinValue(items[i]);
      w := Arr(items[i := x]);
      assert items[i := x][i] == x;
      SameItems(items, items[i := x], true);
    case Obj(m) =>
      var k :| k in m && !ValidText(m[k]);
      var x := TwinValue(m[k]);
      w := Obj(m[k := x]);
      assert m[k := x][k] == x;
      SameObject(m, m[k := x]);
    case _ => w := v;
  }

  /** While its object keys are well-formed, a value's bytes identify it exactly when all its strings are. */
  lemma ValueIsIdentifiedExactly(v: Json)
    requires KeysAreText(v)
    ensures (forall w :: SerdeCompatMarshal(v) == SerdeCompatMarshal(w) ==> v == w) <==> ValidText(v)
  {
    if ValidText(v) {
      forall w | SerdeCompatMarshal(v) == SerdeCompatMarshal(w) ensures v == w { WellFormedIsIdentified(v, w); }
    } else {
      var w := TwinValue(v);
      MarshalIsUnescape(v);
      MarshalIsUnescape(w);
    }
  }

  // ----- the payload

  lemma PayloadTellsApart(a: bytes, m: bytes, f: bytes, d: Option<Dataset>,
                          a': bytes, m': bytes, f': bytes, d': Option<Dataset>)
    ensures Payload(a, m, f, d) == Payload(a', m', f', d')
       <==> a == a' && m == m' && f == f' && Entries(d) == Entries(d')
  {
    PayloadFields(a, m, f, d);
    PayloadFields(a', m', f', d');
    FieldNamesDiffer();
    assert map[ID := Str(a)][ID] == Str(a) && map[ID := Str(a')][ID] == Str(a');
    var x, y := map[ID := Str(m), FINGERPRINT := Str(f)], map[ID := Str(m'), FINGERPRINT := Str(f')];
    assert x[ID] == Str(m) && y[ID] == Str(m') && x[FINGERPRINT] == Str(f) && y[FINGERPRINT] == Str(f');
  }

  /** A signed payload over well-formed strings is unambiguous against every other tuple, well-formed or not. */
  lemma PayloadIsUnambiguous(a: bytes, m: bytes, f: bytes, d: Option<Dataset>,
                             a': bytes, m': bytes, f': bytes, d': Option<Dataset>)
    requires ValidPayload(a, m, f, d)
    ensures PayloadJson(a, m, f, d) == PayloadJson(a', m', f', d')
       <==> a == a' && m == m' && f == f' && Entries(d) == Entries(d')
  {
    WellFormedIsIdentified(Payload(a, m, f, d), Payload(a', m', f', d'));
    PayloadTellsApart(a, m, f, d, a', m', f', d');
  }

  lemma SameAccount(a: bytes, a': bytes)
    requires GoChars(a) == GoChars(a')
    ensures Encode(Obj(map[ID := Str(a)]), Go) == Encode(Obj(map[ID := Str(a')]), Go)
  {
    SameObject(map[ID := Str(a)], map[ID := Str(a')]);
  }

  lemma StrTextGo(s: bytes)
    ensures Encode(Str(s), Go) == Text(s, Go)
  {
  }

  lemma SameMachine(m: bytes, f: bytes, m': bytes, f': bytes)
    requires GoChars(m) == GoChars(m') && GoChars(f) == GoChars(f')
    ensures Encode(Obj(map[ID := Str(m), FINGERPRINT := Str(f)]), Go)
         == Encode(Obj(map[ID := Str(m'), FINGERPRINT := Str(f')]), Go)
  {
    FieldNamesDiffer();
    StrTextGo(m);
    StrTextGo(m');
    StrTextGo(f);
    StrTextGo(f');
    hide Encode, Ascii;
    SameObject(map[ID := Str(m), FINGERPRINT := Str(f)], map[ID := Str(m'), FINGERPRINT := Str(f')]);
  }

  // Two payloads Go writes alike, field by field.
  lemma SamePayload(a: bytes, m: bytes, f: bytes, d: Option<Dataset>,
                    a': bytes, m': bytes, f': bytes, d': Option<Dataset>)
    requires GoChars(a) == GoChars(a') && GoChars(m) == GoChars(m') && GoChars(f) == GoChars(f')
    requires Encode(Obj(Entries(d)), Go) == Encode(Obj(Entries(d')), Go)
    ensures PayloadJson(a, m, f, d) == PayloadJson(a', m', f', d')
  {
    hide GoChars, Encode, SerdeCompatMarshal, Payload;
    PayloadFields(a, m, f, d);
    PayloadFields(a', m', f', d');
    SameAccount(a, a');
    SameMachine(m, f, m', f');
    var v, w := Payload(a, m, f, d), Payload(a', m', f', d');
    PayloadIsObject(a, m, f, d);
    PayloadIsObject(a', m', f', d');
    SameObject(v.members, w.members);
    MarshalIsUnescape(v);
    MarshalIsUnescape(w);
  }

  lemma PayloadIsObject(a: bytes, m: bytes, f: bytes, d: Option<Dataset>)
    ensures Payload(a, m, f, d).Obj?
  {
  }

  ghost predicate IsAmbiguous(a: bytes, m: bytes, f: bytes, d: Option<Dataset>) {
    exists a', m', f', d' :: PayloadJson(a, m, f, d) == PayloadJson(a', m', f', d')
                             && !(a == a' && m == m' && f == f' && Entries(d) == Entries(d'))
  }

  /**
   While the dataset's object keys are well-formed, the signed bytes stand for more than one tuple exactly
   when some string in the tuple is malformed.
   */
  lemma PayloadIsAmbiguousExactly(a: bytes, m: bytes, f: bytes, d: Option<Dataset>)
    requires KeysAreText(Obj(Entries(d)))
    ensures IsAmbiguous(a, m, f, d)
       <==> !(ValidUtf8(a) && ValidUtf8(m) && ValidUtf8(f) && ValidText(Obj(Entries(d))))
  {
    if !ValidUtf8(a) {
      var t := TwinString(a);
      SamePayload(a, m, f, d, t, m, f, d);
    } else if !ValidUtf8(m) {
      var t := TwinString(m);
      SamePayload(a, m, f, d, a, t, f, d);
    } else if !ValidUtf8(f) {
      var t := TwinString(f);
      SamePayload(a, m, f, d, a, m, t, d);
    } else if !ValidText(Obj(Entries(d))) {
      var w := TwinValue(Obj(Entries(d)));
      assert Entries(Some(w.members)) == w.members;
      SamePayload(a, m, f, d, a, m, f, Some(w.members));
    } else {
      PartsAreText(a, m, f, d);
      forall a', m', f', d' | PayloadJson(a, m, f, d) == PayloadJson(a', m', f', d')
        ensures a == a' && m == m' && f == f' && Entries(d) == Entries(d')
      {
        PayloadIsUnambiguous(a, m, f, d, a', m', f', d');
      }
    }
  }

  lemma PartsAreText(a: bytes, m: bytes, f: bytes, d: Option<Dataset>)
    requires ValidUtf8(a) && ValidUtf8(m) && ValidUtf8(f) && ValidText(Obj(Entries(d)))
    ensures ValidPayload(a, m, f, d)
  {
    hide ValidUtf8, Ascii;
    FieldNamesAreText();
    FieldNamesDiffer();
    PayloadFields(a, m, f, d);
    assert ValidText(Str(a)) && ValidText(Str(m)) && ValidText(Str(f));
    assert ValidText(Obj(map[ID := Str(a)]));
    assert ValidText(Obj(map[ID := Str(m), FINGERPRINT := Str(f)]));
  }

  lemma {:induction false} AsciiIsText(s: bytes)
    requires forall k :: 0 <= k < |s| ==> s[k] < 0x80
    ensures ValidUtf8(s)
  {
    if s != [] { AsciiIsText(s[1..]); }
  }

  lemma LiteralIsText(s: string)
    requires forall i :: 0 <= i < |s| ==> IsAscii(s[i])
    ensures ValidUtf8(Ascii(s))
  {
    AsciiIsText(Ascii(s));
  }

  lemma FieldNamesAreText()
    ensures ValidUtf8(ACCOUNT) && ValidUtf8(DATASET) && ValidUtf8(MACHINE) && ValidUtf8(ID) && ValidUtf8(FINGERPRINT)
  {
    hide ValidUtf8, Ascii;
    LiteralIsText("account");
    LiteralIsText("dataset");
    LiteralIsText("machine");
    LiteralIsText("id");
    LiteralIsText("fingerprint");
  }
}
