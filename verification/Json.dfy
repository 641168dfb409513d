/**
 JSON text as the two encoders in play write it: Go's encoding/json with HTML escaping off, and
 Rust's serde_json. They share every structural rule (no spaces, object keys sorted bytewise,
 the same short escapes of section 7 of RFC 8259) and differ inside strings: Go also escapes
 U+2028 and U+2029, and writes the replacement character for bytes that are not UTF-8.
 `JsonParser` reads the serde form back.
 */
module Json {
  import opened Wrappers
  import opened Bytes

  /** A Go `any` built from maps, slices, strings, integers, booleans and nil. */
  datatype Json =
    | Null
    | Bool(b: bool)
    | Int(n: int)
    | Str(s: bytes)
    | Arr(items: seq<Json>)
    | Obj(members: map<bytes, Json>)

  datatype Style = Go | Serde

  const QUOTE: byte := 0x22
  const COMMA: byte := 0x2C
  const MINUS: byte := 0x2D
  const COLON: byte := 0x3A
  const OPEN_BRACKET: byte := 0x5B
  const BACKSLASH: byte := 0x5C
  const CLOSE_BRACKET: byte := 0x5D
  const OPEN_BRACE: byte := 0x7B
  const CLOSE_BRACE: byte := 0x7D
  const LETTER_U: byte := 0x75

  const NULL_TEXT: bytes := [0x6E, 0x75, 0x6C, 0x6C]
  const TRUE_TEXT: bytes := [0x74, 0x72, 0x75, 0x65]
  const FALSE_TEXT: bytes := [0x66, 0x61, 0x6C, 0x73, 0x65]

  // ----- UTF-8

  predicate ByteIn(s: bytes, i: nat, lo: int, hi: int) {
    i < |s| && lo <= s[i] <= hi
  }

  function Tail(b: byte): int {
    b - 0x80
  }

  /** Go's utf8.DecodeRune: the code point at the front and its width; (0xFFFD, 1) when malformed. */
  function DecodeRune(s: bytes): (r: (int, nat))
    requires s != []
    ensures 1 <= r.1 <= |s|
    ensures forall k :: 1 <= k < r.1 ==> s[k] >= 0x80
  {
    var b: int := s[0];
    if b < 0x80 then
      (b, 1)
    else if 0xC2 <= b <= 0xDF && ByteIn(s, 1, 0x80, 0xBF) then
      ((b - 0xC0) * 64 + Tail(s[1]), 2)
    else if 0xE0 <= b <= 0xEF
         && ByteIn(s, 1, if b == 0xE0 then 0xA0 else 0x80, if b == 0xED then 0x9F else 0xBF)
         && ByteIn(s, 2, 0x80, 0xBF) then
      ((b - 0xE0) * 4096 + Tail(s[1]) * 64 + Tail(s[2]), 3)
    else if 0xF0 <= b <= 0xF4
         && ByteIn(s, 1, if b == 0xF0 then 0x90 else 0x80, if b == 0xF4 then 0x8F else 0xBF)
         && ByteIn(s, 2, 0x80, 0xBF) && ByteIn(s, 3, 0x80, 0xBF) then
      ((b - 0xF0) * 262144 + Tail(s[1]) * 4096 + Tail(s[2]) * 64 + Tail(s[3]), 4)
    else
      (0xFFFD, 1)
  }

  predicate Malformed(s: bytes)
    requires s != []
  {
    s[0] >= 0x80 && DecodeRune(s).1 == 1
  }

  /** Well-formed UTF-8, the only strings a Rust `String` can hold. */
  predicate ValidUtf8(s: bytes)
    decreases |s|
  {
    s == [] || (!Malformed(s) && ValidUtf8(s[DecodeRune(s).1..]))
  }

  ghost predicate ValidText(v: Json) {
    match v
    case Str(s) => ValidUtf8(s)
    case Arr(items) => forall i :: 0 <= i < |items| ==> ValidText(items[i])
    case Obj(m) => forall k :: k in m ==> ValidUtf8(k) && ValidText(m[k])
    case _ => true
  }

  // ----- strings

  function HexDigit(n: int): byte
    requires 0 <= n < 16
  {
    if n < 10 then 0x30 + n else 0x57 + n
  }

  /** How both encoders write one ASCII byte inside a string. */
  function EscapeAscii(b: byte): bytes {
    if b == QUOTE || b == BACKSLASH then [BACKSLASH, b]
    else if b == 0x08 then [BACKSLASH, 0x62]
    else if b == 0x0C then [BACKSLASH, 0x66]
    else if b == 0x0A then [BACKSLASH, 0x6E]
    else if b == 0x0D then [BACKSLASH, 0x72]
    else if b == 0x09 then [BACKSLASH, 0x74]
    else if b < 0x20 then [BACKSLASH, LETTER_U, 0x30, 0x30, HexDigit(b / 16), HexDigit(b % 16)]
    else [b]
  }

  /** Go's string body: runes one at a time, U+2028 and U+2029 escaped, bad bytes replaced. */
  function GoChars(s: bytes): bytes
    decreases |s|
  {
    if s == [] then
      []
    else if s[0] < 0x80 then
      EscapeAscii(s[0]) + GoChars(s[1..])
    else
      var (c, n) := DecodeRune(s);
      if n == 1 then
        [BACKSLASH, LETTER_U, 0x66, 0x66, 0x66, 0x64] + GoChars(s[1..])
      else if c == 0x2028 || c == 0x2029 then
        [BACKSLASH, LETTER_U, 0x32, 0x30, 0x32, HexDigit(c % 16)] + GoChars(s[n..])
      else
        s[..n] + GoChars(s[n..])
  }

  /** serde_json's string body: a byte-by-byte escape table that leaves everything above ASCII raw. */
  function SerdeChars(s: bytes): bytes {
    if s == [] then []
    else (if s[0] < 0x80 then EscapeAscii(s[0]) else [s[0]]) + SerdeChars(s[1..])
  }

  function Text(s: bytes, style: Style): bytes {
    [QUOTE] + (if style.Go? then GoChars(s) else SerdeChars(s)) + [QUOTE]
  }

  // ----- numbers

  function Decimal(n: nat): (d: bytes)
    ensures d != []
  {
    if n < 10 then [0x30 + n] else Decimal(n / 10) + [0x30 + n % 10]
  }

  function Number(n: int): bytes {
    if n < 0 then [MINUS] + Decimal(-n) else Decimal(n)
  }

  // ----- objects

  /** The keys of an object in the order both encoders write them. */
  ghost function SortedKeys(keys: set<bytes>): (r: seq<bytes>)
    ensures forall k :: k in r <==> k in keys
  {
    if keys == {} then
      []
    else
      var k :| k in keys;
      var r := Inserted(k, SortedKeys(keys - {k}));
      assert forall x :: x in r <==> x in multiset(r);
      r
  }

  lemma InsertedIsDistinct(k: bytes, s: seq<bytes>)
    requires Distinct(s) && k !in s
    ensures Distinct(Inserted(k, s))
  {
    assert multiset([k] + s) == multiset(Inserted(k, s));
    DistinctPermutes([k] + s, Inserted(k, s));
  }

  lemma {:induction false} SortedKeysShape(keys: set<bytes>)
    ensures Sorted(SortedKeys(keys)) && Distinct(SortedKeys(keys))
  {
    if keys != {} {
      var k :| k in keys && SortedKeys(keys) == Inserted(k, SortedKeys(keys - {k}));
      SortedKeysShape(keys - {k});
      InsertedIsSorted(k, SortedKeys(keys - {k}));
      InsertedIsDistinct(k, SortedKeys(keys - {k}));
    }
  }

  /** Go walks a map in any order and sorts what it saw: whatever the order, the result is the same. */
  lemma KeyOrderIsIrrelevant(listing: seq<bytes>, keys: set<bytes>)
    requires Distinct(listing) && forall k :: k in listing <==> k in keys
    ensures Sort(listing) == SortedKeys(keys)
  {
    SortedKeysShape(keys);
    DistinctSameElements(listing, SortedKeys(keys));
    SortIsSorted(listing);
    SortUnique(Sort(listing), SortedKeys(keys));
  }

  /** Keys are written in bytewise order: a key before its extensions, and before any larger at the first difference. */
  lemma KeysAreInByteOrder(keys: set<bytes>, i: nat, j: nat)
    requires i < j < |SortedKeys(keys)|
    ensures SortedKeys(keys)[i] != SortedKeys(keys)[j]
    ensures PrefixOrSmaller(SortedKeys(keys)[i], SortedKeys(keys)[j])
  {
    SortedKeysShape(keys);
    LexLeqExactly(SortedKeys(keys)[i], SortedKeys(keys)[j]);
  }

  // ----- values

  ghost function Encode(v: Json, style: Style): bytes
    decreases v, 1
  {
    match v
    case Null => NULL_TEXT
    case Bool(b) => if b then TRUE_TEXT else FALSE_TEXT
    case Int(n) => Number(n)
    case Str(s) => Text(s, style)
    case Arr(items) => [OPEN_BRACKET] + EncodeItems(items, style, true) + [CLOSE_BRACKET]
    case Obj(m) => [OPEN_BRACE] + EncodeMembers(v, SortedKeys(m.Keys), style, true) + [CLOSE_BRACE]
  }

  function Separator(first: bool): bytes {
    if first then [] else [COMMA]
  }

  ghost function EncodeItems(items: seq<Json>, style: Style, first: bool): bytes
    decreases items, 0
  {
    if items == [] then []
    else Separator(first) + Encode(items[0], style) + EncodeItems(items[1..], style, false)
  }

  ghost function EncodeMembers(v: Json, keys: seq<bytes>, style: Style, first: bool): bytes
    requires v.Obj? && forall k :: k in keys ==> k in v.members
    decreases v, 0, |keys|
  {
    if keys == [] then []
    else Separator(first) + Text(keys[0], style) + [COLON] + Encode(v.members[keys[0]], style)
         + EncodeMembers(v, keys[1..], style, false)
  }
}
