/**
 A parser for the serde form of `Json`, and the proof that it undoes the encoder. It is what makes
 a signed payload unambiguous: equal bytes can only come from equal values.
 */
module JsonParser {
  import opened Wrappers
  import opened Bytes
  import opened Json

  // ----- numbers

  /** Where the digits starting at `from` end. */
  function DigitsEnd(s: bytes, from: nat): (i: nat)
    requires from <= |s|
    ensures from <= i <= |s|
    ensures i < |s| ==> !IsDigit(s[i])
    ensures forall k :: from <= k < i ==> IsDigit(s[k])
    decreases |s| - from
  {
    if from == |s| || !IsDigit(s[from]) then from else DigitsEnd(s, from + 1)
  }

  /** Nothing that could extend a number: what always follows one inside a payload. */
  predicate EndsNumber(rest: bytes) {
    rest == [] || !IsDigit(rest[0])
  }

  function ParseInt(s: bytes): Option<(Json, bytes)> {
    var negative := s != [] && s[0] == MINUS;
    var t := if negative then s[1..] else s;
    var n := DigitsEnd(t, 0);
    if n == 0 then None
    else Some((Int(if negative then -DecimalValue(t[..n]) else DecimalValue(t[..n])), t[n..]))
  }

  lemma {:induction false} DecimalReadsBack(n: nat)
    ensures AllDigits(Decimal(n)) && DecimalValue(Decimal(n)) == n
  {
    if n < 10 {
      assert DecimalValue([]) == 0;
      assert Decimal(n)[..0] == [];
    } else {
      DecimalReadsBack(n / 10);
      var d := Decimal(n);
      assert d[..|d| - 1] == Decimal(n / 10);
    }
  }

  lemma DigitsStop(d: bytes, rest: bytes)
    requires AllDigits(d) && EndsNumber(rest)
    ensures DigitsEnd(d + rest, 0) == |d|
  {
    var s, n := d + rest, DigitsEnd(d + rest, 0);
    assert forall k :: 0 <= k < |d| ==> s[k] == d[k];
    assert |d| < |s| ==> s[|d|] == rest[0];
  }

  // What the digits read as, once the sign is known and out of the way.
  lemma SignedReadsBack(s: bytes, negative: bool, d: bytes, rest: bytes)
    requires AllDigits(d) && d != [] && EndsNumber(rest)
    requires s != [] && (negative <==> s[0] == MINUS) && (if negative then s[1..] else s) == d + rest
    ensures ParseInt(s) == Some((Int(if negative then -DecimalValue(d) else DecimalValue(d)), rest))
  {
    hide DecimalValue, DigitsEnd;
    DigitsStop(d, rest);
    var t := d + rest;
    assert t[..|d|] == d && t[|d|..] == rest;
  }

  lemma DigitsReadBack(d: bytes, negative: bool, rest: bytes)
    requires AllDigits(d) && d != [] && EndsNumber(rest)
    ensures ParseInt((if negative then [MINUS] else []) + d + rest)
         == Some((Int(if negative then -DecimalValue(d) else DecimalValue(d)), rest))
  {
    hide ParseInt, DecimalValue;
    var s := (if negative then [MINUS] else []) + d + rest;
    if negative {
      assert s[1..] == d + rest;
    } else {
      assert s == d + rest && s[0] == d[0];
    }
    SignedReadsBack(s, negative, d, rest);
  }

  lemma IntReadsBack(n: int, rest: bytes)
    requires EndsNumber(rest)
    ensures ParseInt(Number(n) + rest) == Some((Int(n), rest))
  {
    if n < 0 {
      DecimalReadsBack(-n);
      DigitsReadBack(Decimal(-n), true, rest);
    } else {
      DecimalReadsBack(n);
      DigitsReadBack(Decimal(n), false, rest);
      assert [] + Decimal(n) == Decimal(n);
    }
  }

  // ----- strings

  function HexValue(b: byte): int {
    var n: int := b;
    if n < 0x57 then n - 0x30 else n - 0x57
  }

  /** One string token: a raw byte, a short escape, or a control character as `\u00XX`. */
  function ParseToken(s: bytes): (r: Option<(byte, bytes)>)
    ensures r.Some? ==> |r.value.1| < |s|
  {
    if s == [] || s[0] == QUOTE || s[0] < 0x20 then None
    else if s[0] != BACKSLASH then Some((s[0], s[1..]))
    else if |s| < 2 then None
    else if s[1] == QUOTE || s[1] == BACKSLASH then Some((s[1], s[2..]))
    else if s[1] == 0x62 then Some((0x08, s[2..]))
    else if s[1] == 0x66 then Some((0x0C, s[2..]))
    else if s[1] == 0x6E then Some((0x0A, s[2..]))
    else if s[1] == 0x72 then Some((0x0D, s[2..]))
    else if s[1] == 0x74 then Some((0x09, s[2..]))
    else if s[1] == LETTER_U && |s| >= 6 && s[2] == 0x30 && s[3] == 0x30
         && 0 <= HexValue(s[4]) * 16 + HexValue(s[5]) < 0x20 then
      Some((HexValue(s[4]) * 16 + HexValue(s[5]), s[6..]))
    else None
  }

  /** The text up to the closing quote, unescaped, and what follows it. */
  function ParseChars(s: bytes): (r: Option<(bytes, bytes)>)
    ensures r.Some? ==> |r.value.1| < |s|
    decreases |s|
  {
    if s == [] then None
    else if s[0] == QUOTE then Some(([], s[1..]))
    else match ParseToken(s)
         case None => None
         case Some((b, after)) =>
           match ParseChars(after)
           case None => None
           case Some((t, rest)) => Some(([b] + t, rest))
  }

  function ParseText(s: bytes): (r: Option<(bytes, bytes)>)
    ensures r.Some? ==> |r.value.1| < |s|
  {
    if s != [] && s[0] == QUOTE then ParseChars(s[1..]) else None
  }

  function SerdeToken(b: byte): bytes {
    if b < 0x80 then EscapeAscii(b) else [b]
  }

  lemma TokenReadsBack(b: byte, rest: bytes)
    ensures SerdeToken(b) != [] && SerdeToken(b)[0] != QUOTE
    ensures ParseToken(SerdeToken(b) + rest) == Some((b, rest))
  {
    var t := SerdeToken(b) + rest;
    assert t[|SerdeToken(b)|..] == rest;
  }

  lemma {:induction false} CharsReadBack(s: bytes, rest: bytes)
    ensures ParseChars(SerdeChars(s) + [QUOTE] + rest) == Some((s, rest))
  {
    if s == [] {
      assert SerdeChars(s) + [QUOTE] + rest == [QUOTE] + rest;
    } else {
      var after := SerdeChars(s[1..]) + [QUOTE] + rest;
      assert SerdeChars(s) + [QUOTE] + rest == SerdeToken(s[0]) + after;
      TokenReadsBack(s[0], after);
      CharsReadBack(s[1..], rest);
      assert [s[0]] + s[1..] == s;
    }
  }

  lemma TextReadsBack(s: bytes, rest: bytes)
    ensures ParseText(Text(s, Serde) + rest) == Some((s, rest))
  {
    CharsReadBack(s, rest);
    assert (Text(s, Serde) + rest)[1..] == SerdeChars(s) + [QUOTE] + rest;
  }

  // ----- values

  /** Drops `p` from the front of `s`. */
  function Expect(s: bytes, p: bytes): (r: Option<bytes>)
    ensures r.Some? ==> s == p + r.value
  {
    if p <= s then Some(s[|p|..]) else None
  }

  function ParseLiteral(s: bytes, p: bytes, v: Json): Option<(Json, bytes)> {
    match Expect(s, p)
    case None => None
    case Some(rest) => Some((v, rest))
  }

  function Parse(s: bytes): (r: Option<(Json, bytes)>)
    ensures r.Some? ==> |r.value.1| < |s|
    decreases |s|, 1
  {
    if s == [] then None
    else if s[0] == NULL_TEXT[0] then ParseLiteral(s, NULL_TEXT, Null)
    else if s[0] == TRUE_TEXT[0] then ParseLiteral(s, TRUE_TEXT, Bool(true))
    else if s[0] == FALSE_TEXT[0] then ParseLiteral(s, FALSE_TEXT, Bool(false))
    else if s[0] == QUOTE then
      match ParseText(s) { case None => None case Some((t, rest)) => Some((Str(t), rest)) }
    else if s[0] == OPEN_BRACKET then
      match ParseItems(s[1..], true) { case None => None case Some((vs, rest)) => Some((Arr(vs), rest)) }
    else if s[0] == OPEN_BRACE then
      match ParseMembers(s[1..], true) { case None => None case Some((m, rest)) => Some((Obj(m), rest)) }
    else ParseInt(s)
  }

  function ParseItems(s: bytes, first: bool): (r: Option<(seq<Json>, bytes)>)
    ensures r.Some? ==> |r.value.1| < |s|
    decreases |s|, 2
  {
    if s != [] && s[0] == CLOSE_BRACKET then Some(([], s[1..]))
    else match Expect(s, Separator(first))
         case None => None
         case Some(t) =>
           match Parse(t)
           case None => None
           case Some((v, u)) =>
             match ParseItems(u, false)
             case None => None
             case Some((vs, rest)) => Some(([v] + vs, rest))
  }

  function ParseMember(s: bytes): (r: Option<((bytes, Json), bytes)>)
    ensures r.Some? ==> |r.value.1| < |s|
    decreases |s|, 2
  {
    match ParseText(s)
    case None => None
    case Some((k, t)) =>
      match Expect(t, [COLON])
      case None => None
      case Some(u) =>
        match Parse(u)
        case None => None
        case Some((v, rest)) => Some(((k, v), rest))
  }

  function ParseMembers(s: bytes, first: bool): (r: Option<(map<bytes, Json>, bytes)>)
    ensures r.Some? ==> |r.value.1| < |s|
    decreases |s|, 3
  {
    if s != [] && s[0] == CLOSE_BRACE then Some((map[], s[1..]))
    else match Expect(s, Separator(first))
         case None => None
         case Some(t) =>
           match ParseMember(t)
           case None => None
           case Some((kv, u)) =>
             match ParseMembers(u, false)
             case None => None
             case Some((m, rest)) => Some((m[kv.0 := kv.1], rest))
  }

  lemma ExpectReadsBack(p: bytes, rest: bytes)
    ensures Expect(p + rest, p) == Some(rest)
  {
  }

  lemma FirstByte(v: Json)
    ensures Encode(v, Serde) != []
    ensures var b := Encode(v, Serde)[0];
            match v
            case Null => b == NULL_TEXT[0]
            case Bool(x) => b == if x then TRUE_TEXT[0] else FALSE_TEXT[0]
            case Int(_) => b == MINUS || IsDigit(b)
            case Str(_) => b == QUOTE
            case Arr(_) => b == OPEN_BRACKET
            case Obj(_) => b == OPEN_BRACE
  {
    if v.Int? { DecimalReadsBack(if v.n < 0 then -v.n else v.n); }
  }

  /** Parsing undoes encoding, whatever follows. */
  lemma {:induction false} ReadsBack(v: Json, rest: bytes)
    requires EndsNumber(rest)
    ensures Parse(Encode(v, Serde) + rest) == Some((v, rest))
    decreases v, 1
  {
    FirstByte(v);
    match v
    case Null => ExpectReadsBack(NULL_TEXT, rest);
    case Bool(b) => ExpectReadsBack(if b then TRUE_TEXT else FALSE_TEXT, rest);
    case Int(n) => IntReadsBack(n, rest);
    case Str(s) => TextReadsBack(s, rest);
    case Arr(items) => ArrReadsBack(items, rest);
    case Obj(m) => ObjReadsBack(m, rest);
  }

  lemma {:induction false} ArrReadsBack(items: seq<Json>, rest: bytes)
    ensures Parse(Encode(Arr(items), Serde) + rest) == Some((Arr(items), rest))
    decreases Arr(items), 0
  {
    ItemsReadBack(items, true, rest);
    var inside := EncodeItems(items, Serde, true) + [CLOSE_BRACKET] + rest;
    assert Encode(Arr(items), Serde) + rest == [OPEN_BRACKET] + inside;
  }

  lemma ParseOpenBrace(s: bytes, m: map<bytes, Json>, rest: bytes)
    requires s != [] && s[0] == OPEN_BRACE && ParseMembers(s[1..], true) == Some((m, rest))
    ensures Parse(s) == Some((Obj(m), rest))
  {
  }

  lemma RestrictToAll(m: map<bytes, Json>, keys: seq<bytes>)
    requires forall k :: k in keys <==> k in m.Keys
    ensures Restrict(m, keys) == m
  {
  }

  lemma ObjText(body: bytes, rest: bytes)
    ensures var s := [OPEN_BRACE] + body + [CLOSE_BRACE] + rest;
            s[0] == OPEN_BRACE && s[1..] == body + [CLOSE_BRACE] + rest
  {
  }

  lemma {:induction false} ObjReadsBack(m: map<bytes, Json>, rest: bytes)
    ensures Parse(Encode(Obj(m), Serde) + rest) == Some((Obj(m), rest))
    decreases Obj(m), 0
  {
    var keys := SortedKeys(m.Keys);
    MembersReadBack(Obj(m), keys, true, rest);
    RestrictToAll(m, keys);
    ObjText(EncodeMembers(Obj(m), keys, Serde, true), rest);
    ParseOpenBrace(Encode(Obj(m), Serde) + rest, m, rest);
  }

  lemma {:induction false} ItemsReadBack(items: seq<Json>, first: bool, rest: bytes)
    ensures ParseItems(EncodeItems(items, Serde, first) + [CLOSE_BRACKET] + rest, first) == Some((items, rest))
    decreases items, 0
  {
    if items == [] {
      assert EncodeItems(items, Serde, first) + [CLOSE_BRACKET] + rest == [CLOSE_BRACKET] + rest;
    } else {
      var tail := EncodeItems(items[1..], Serde, false) + [CLOSE_BRACKET] + rest;
      var s := EncodeItems(items, Serde, first) + [CLOSE_BRACKET] + rest;
      assert s == Separator(first) + (Encode(items[0], Serde) + tail);
      FirstByte(items[0]);
      ExpectReadsBack(Separator(first), Encode(items[0], Serde) + tail);
      ReadsBack(items[0], tail);
      ItemsReadBack(items[1..], false, rest);
      assert [items[0]] + items[1..] == items;
    }
  }

  ghost function Restrict(m: map<bytes, Json>, keys: seq<bytes>): map<bytes, Json>
    requires forall k :: k in keys ==> k in m
  {
    map k | k in keys :: m[k]
  }

  lemma {:induction false} MemberReadsBack(k: bytes, v: Json, rest: bytes)
    requires EndsNumber(rest)
    ensures ParseMember(Text(k, Serde) + [COLON] + Encode(v, Serde) + rest) == Some(((k, v), rest))
    decreases v, 2
  {
    var value := Encode(v, Serde) + rest;
    assert Text(k, Serde) + [COLON] + Encode(v, Serde) + rest == Text(k, Serde) + ([COLON] + value);
    TextReadsBack(k, [COLON] + value);
    ExpectReadsBack([COLON], value);
    ReadsBack(v, rest);
  }

  lemma MembersStep(first: bool, member: bytes, k: bytes, v: Json, tail: bytes, m: map<bytes, Json>, rest: bytes)
    requires member != [] && member[0] == QUOTE
    requires ParseMember(member) == Some(((k, v), tail))
    requires ParseMembers(tail, false) == Some((m, rest))
    ensures ParseMembers(Separator(first) + member, first) == Some((m[k := v], rest))
  {
    ExpectReadsBack(Separator(first), member);
  }

  // Splitting off the first member of an object's text.
  lemma MemberText(sep: bytes, key: bytes, value: bytes, others: bytes, rest: bytes)
    ensures sep + key + [COLON] + value + others + [CLOSE_BRACE] + rest
         == sep + (key + [COLON] + value + (others + [CLOSE_BRACE] + rest))
  {
    assert sep + key + [COLON] + value == sep + (key + [COLON] + value);
    var member, tail := key + [COLON] + value, others + [CLOSE_BRACE] + rest;
    assert sep + member + others + [CLOSE_BRACE] + rest == sep + member + tail == sep + (member + tail);
  }

  lemma MembersUnfold(v: Json, keys: seq<bytes>, first: bool, rest: bytes, tail: bytes)
    requires v.Obj? && keys != [] && forall k :: k in keys ==> k in v.members
    requires tail == EncodeMembers(v, keys[1..], Serde, false) + [CLOSE_BRACE] + rest
    ensures EncodeMembers(v, keys, Serde, first) + [CLOSE_BRACE] + rest
         == Separator(first) + (Text(keys[0], Serde) + [COLON] + Encode(v.members[keys[0]], Serde) + tail)
  {
    var k, others := keys[0], EncodeMembers(v, keys[1..], Serde, false);
    assert EncodeMembers(v, keys, Serde, first)
        == Separator(first) + Text(k, Serde) + [COLON] + Encode(v.members[k], Serde) + others;
    hide EncodeMembers, Encode, Text;
    MemberText(Separator(first), Text(k, Serde), Encode(v.members[k], Serde), others, rest);
  }

  lemma {:induction false} MembersReadBack(v: Json, keys: seq<bytes>, first: bool, rest: bytes)
    requires v.Obj? && (forall k :: k in keys ==> k in v.members)
    ensures ParseMembers(EncodeMembers(v, keys, Serde, first) + [CLOSE_BRACE] + rest, first)
         == Some((Restrict(v.members, keys), rest))
    decreases v, -1, |keys|
  {
    if keys == [] {
      assert EncodeMembers(v, keys, Serde, first) + [CLOSE_BRACE] + rest == [CLOSE_BRACE] + rest;
    } else {
      var k, value := keys[0], v.members[keys[0]];
      var tail := EncodeMembers(v, keys[1..], Serde, false) + [CLOSE_BRACE] + rest;
      MembersReadBack(v, keys[1..], false, rest);
      MemberReadsBack(k, value, tail);
      MembersUnfold(v, keys, first, rest, tail);
      MembersStep(first, Text(k, Serde) + [COLON] + Encode(value, Serde) + tail, k, value, tail,
                  Restrict(v.members, keys[1..]), rest);
      assert Restrict(v.members, keys[1..])[k := value] == Restrict(v.members, keys);
    }
  }

  /** Equal serde bytes come from equal values, and from no others. */
  lemma EncodeIsInjective(v: Json, w: Json)
    ensures Encode(v, Serde) == Encode(w, Serde) <==> v == w
  {
    ReadsBack(v, []);
    ReadsBack(w, []);
    assert Encode(v, Serde) + [] == Encode(v, Serde) && Encode(w, Serde) + [] == Encode(w, Serde);
  }
}
