/**
 The bytes an offline proof signs (proof.go). Go's own encoding is rewritten by an escape-aware
 scanner so that it equals what the server's Rust encoder produced.
 */
module OfflineProof {
  import opened Wrappers
  import opened Bytes
  import opened Json
  import opened JsonParser
  import Base64

  const U2028_ESCAPE: bytes := [0x5C, 0x75, 0x32, 0x30, 0x32, 0x38]
  const U2029_ESCAPE: bytes := [0x5C, 0x75, 0x32, 0x30, 0x32, 0x39]
  const U2028_RUNE: bytes := [0xE2, 0x80, 0xA8]
  const U2029_RUNE: bytes := [0xE2, 0x80, 0xA9]

  // ----- the scanner

  predicate IsShortEscape(b: byte) {
    b == QUOTE || b == BACKSLASH || b == 0x2F || b == 0x62 || b == 0x66 || b == 0x6E || b == 0x72 || b == 0x74
  }

  /** How many bytes the scanner consumes at the front of `s`. */
  function TokenLength(s: bytes): (n: nat)
    requires s != []
    ensures 1 <= n <= |s|
  {
    if s[0] == BACKSLASH && |s| > 1 then
      if s[1] == LETTER_U && |s| >= 6 then 6
      else if IsShortEscape(s[1]) then 2
      else 1
    else 1
  }

  /** What it writes for the token it consumed. */
  function TokenImage(token: bytes): bytes {
    if token == U2028_ESCAPE then U2028_RUNE
    else if token == U2029_ESCAPE then U2029_RUNE
    else token
  }

  /** The scanner's output, token by token. */
  function Unescape(s: bytes): bytes
    decreases |s|
  {
    if s == [] then [] else TokenImage(s[..TokenLength(s)]) + Unescape(s[TokenLength(s)..])
  }

  // Consuming one token, after `out` has been written.
  lemma ConsumeToken(out: bytes, s: bytes, token: bytes, rest: bytes)
    requires s != [] && s == token + rest && |token| == TokenLength(s)
    ensures out + TokenImage(token) + Unescape(rest) == out + Unescape(s)
  {
    assert s[..|token|] == token && s[|token|..] == rest;
    assert out + TokenImage(token) + Unescape(rest) == out + (TokenImage(token) + Unescape(rest));
  }

  lemma UnescapeNothing()
    ensures Unescape([]) == []
  {
  }

  /** The switch in the scanner's loop: how far to move, and what to write. */
  method NextToken(input: array<byte>, i: nat) returns (n: nat, image: bytes)
    requires i < input.Length
    ensures n == TokenLength(input[i..]) && i + n <= input.Length
    ensures image == TokenImage(input[i..i + n])
  {
    if input[i] == BACKSLASH && i + 1 < input.Length {
      if input[i + 1] == LETTER_U {
        if i + 6 <= input.Length {
          if input[i..i + 6] == U2028_ESCAPE {
            return 6, U2028_RUNE;
          } else if input[i..i + 6] == U2029_ESCAPE {
            return 6, U2029_RUNE;
          } else {
            return 6, input[i..i + 6];
          }
        }
      } else if IsShortEscape(input[i + 1]) {
        return 2, [input[i], input[i + 1]];
      }
    }
    return 1, [input[i]];
  }

  /** `unescapeLineAndParagraphSeparators`. */
  method UnescapeSeparators(input: array<byte>) returns (out: bytes)
    ensures out == Unescape(input[..])
  {
    hide Unescape, TokenLength, TokenImage;
    out := [];
    var i := 0;
    assert input[0..] == input[..];
    while i < input.Length
      invariant 0 <= i <= input.Length
      invariant out + Unescape(input[i..]) == Unescape(input[..])
      decreases input.Length - i
    {
      var n, image := NextToken(input, i);
      assert input[i..] == input[i..i + n] + input[i + n..];
      ConsumeToken(out, input[i..], input[i..i + n], input[i + n..]);
      out := out + image;
      i := i + n;
    }
    assert input[i..] == [];
    UnescapeNothing();
  }

  // ----- the scanner on arbitrary bytes

  lemma {:induction false} NeverLengthens(s: bytes)
    ensures |Unescape(s)| <= |s|
    decreases |s|
  {
    if s != [] { NeverLengthens(s[TokenLength(s)..]); }
  }

  /** `p` is a whole number of tokens, and the scanner turns it into `image` whatever follows. */
  ghost predicate Scans(p: bytes, image: bytes) {
    forall rest: bytes {:trigger Unescape(p + rest)} :: Unescape(p + rest) == image + Unescape(rest)
  }

  /** A token followed by anything is scanned as that token. */
  lemma ScanToken(token: bytes, rest: bytes)
    requires token != [] && TokenLength(token + rest) == |token|
    ensures Unescape(token + rest) == TokenImage(token) + Unescape(rest)
  {
    var s := token + rest;
    assert s[..|token|] == token && s[|token|..] == rest;
  }

  lemma ScanConcatAt(p: bytes, a: bytes, q: bytes, b: bytes, rest: bytes)
    requires Unescape(p + (q + rest)) == a + Unescape(q + rest)
    requires Unescape(q + rest) == b + Unescape(rest)
    ensures Unescape(p + q + rest) == a + b + Unescape(rest)
  {
    assert p + q + rest == p + (q + rest);
  }

  /** Alignment survives concatenation. */
  lemma ScanConcat(p: bytes, a: bytes, q: bytes, b: bytes)
    requires Scans(p, a) && Scans(q, b)
    ensures Scans(p + q, a + b)
  {
    forall rest: bytes ensures Unescape(p + q + rest) == a + b + Unescape(rest) {
      ScanConcatAt(p, a, q, b, rest);
    }
  }

  lemma {:induction false} ScanPlain(p: bytes)
    requires BACKSLASH !in p
    ensures Scans(p, p)
  {
    if p == [] {
      forall rest: bytes ensures Unescape(p + rest) == p + Unescape(rest) {
        assert p + rest == rest && p + Unescape(rest) == Unescape(rest);
      }
    } else {
      ScanPlain(p[1..]);
      var b := [p[0]];
      assert p == b + p[1..];
      forall rest: bytes ensures Unescape(b + rest) == b + Unescape(rest) {
        ScanToken(b, rest);
      }
      ScanConcat(b, b, p[1..], p[1..]);
    }
  }

  // The first byte of the output is the first byte of the input, unless an escape was replaced.
  lemma UnescapeFront(s: bytes)
    requires s != [] && s[0] != BACKSLASH
    ensures Unescape(s) != [] && Unescape(s)[0] == s[0]
  {
  }

  /** Scanning twice is scanning once, on every byte string. */
  lemma {:induction false} Idempotent(s: bytes)
    ensures Unescape(Unescape(s)) == Unescape(s)
    decreases |s|
  {
    if s != [] {
      var n := TokenLength(s);
      var token, rest := s[..n], s[n..];
      Idempotent(rest);
      NeverLengthens(rest);
      if token == U2028_ESCAPE || token == U2029_ESCAPE {
        ScanPlain(TokenImage(token));
      } else if n > 1 {
        ScanToken(token, Unescape(rest));
      } else {
        if rest != [] && rest[0] != BACKSLASH { UnescapeFront(rest); }
        ScanToken(token, Unescape(rest));
      }
    }
  }

  // ----- the scanner on an encoding

  lemma ScanEscape(token: bytes)
    requires |token| >= 2 && token[0] == BACKSLASH
    requires (token[1] == LETTER_U && |token| == 6) || (IsShortEscape(token[1]) && |token| == 2)
    ensures Scans(token, TokenImage(token))
  {
    forall rest: bytes ensures Unescape(token + rest) == TokenImage(token) + Unescape(rest) {
      ScanToken(token, rest);
    }
  }

  lemma ScanAscii(b: byte)
    requires b < 0x80
    ensures Scans(EscapeAscii(b), EscapeAscii(b))
  {
    if EscapeAscii(b) == [b] {
      ScanPlain([b]);
    } else {
      ScanEscape(EscapeAscii(b));
    }
  }

  lemma {:induction false} SerdeCopies(p: bytes, s: bytes)
    requires forall k :: 0 <= k < |p| ==> p[k] >= 0x80
    ensures SerdeChars(p + s) == p + SerdeChars(s)
  {
    if p == [] {
      assert p + s == s;
    } else {
      assert (p + s)[1..] == p[1..] + s;
      SerdeCopies(p[1..], s);
      assert [p[0]] + (p[1..] + SerdeChars(s)) == p + SerdeChars(s);
    }
  }

  // U+2028 and U+2029 have one encoding each, the three bytes the scanner restores.
  lemma SeparatorBytes(s: bytes)
    requires s != [] && s[0] >= 0x80 && DecodeRune(s).1 > 1
    requires DecodeRune(s).0 == 0x2028 || DecodeRune(s).0 == 0x2029
    ensures DecodeRune(s).1 == 3
    ensures s[..3] == if DecodeRune(s).0 == 0x2028 then U2028_RUNE else U2029_RUNE
  {
  }

  lemma AsciiRune(s: bytes)
    requires s != [] && s[0] < 0x80
    ensures DecodeRune(s) == (s[0] as int, 1)
  {
  }

  ghost predicate ScannedRune(s: bytes, token: bytes, n: nat)
    requires n <= |s|
  {
    GoChars(s) == token + GoChars(s[n..])
    && exists image :: Scans(token, image) && SerdeChars(s) == image + SerdeChars(s[n..])
  }

  lemma ScanAsciiRune(s: bytes)
    requires s != [] && s[0] < 0x80
    ensures DecodeRune(s).1 == 1 && ScannedRune(s, EscapeAscii(s[0]), 1)
  {
    hide Scans, Unescape, DecodeRune, EscapeAscii;
    AsciiRune(s);
    ScanAscii(s[0]);
  }

  lemma ScanSeparatorRune(s: bytes, token: bytes)
    requires s != [] && s[0] >= 0x80 && DecodeRune(s).1 > 1
    requires DecodeRune(s).0 == 0x2028 || DecodeRune(s).0 == 0x2029
    requires token == if DecodeRune(s).0 == 0x2028 then U2028_ESCAPE else U2029_ESCAPE
    ensures DecodeRune(s).1 == 3 && ScannedRune(s, token, 3)
  {
    SeparatorBytes(s);
    hide Scans, Unescape, DecodeRune, SerdeChars;
    assert s == s[..3] + s[3..];
    SerdeCopies(s[..3], s[3..]);
    ScanEscape(token);
    assert Scans(token, s[..3]);
  }

  lemma ScanPlainRune(s: bytes)
    requires s != [] && s[0] >= 0x80 && DecodeRune(s).1 > 1
    requires DecodeRune(s).0 != 0x2028 && DecodeRune(s).0 != 0x2029
    ensures ScannedRune(s, s[..DecodeRune(s).1], DecodeRune(s).1)
  {
    var n := DecodeRune(s).1;
    hide Scans, Unescape, DecodeRune, SerdeChars;
    assert s == s[..n] + s[n..];
    SerdeCopies(s[..n], s[n..]);
    ScanPlain(s[..n]);
  }

  /** One well-formed rune: what Go writes for it, and that the scanner restores it. */
  lemma ScanRune(s: bytes) returns (token: bytes, n: nat)
    requires s != [] && !Malformed(s)
    ensures n == DecodeRune(s).1 && 1 <= n <= |s|
    ensures GoChars(s) == token + GoChars(s[n..])
    ensures exists image :: Scans(token, image) && SerdeChars(s) == image + SerdeChars(s[n..])
  {
    hide Scans, DecodeRune, GoChars, SerdeChars, EscapeAscii;
    var c := DecodeRune(s).0;
    n := DecodeRune(s).1;
    if s[0] < 0x80 {
      token := EscapeAscii(s[0]);
      ScanAsciiRune(s);
    } else if c == 0x2028 || c == 0x2029 {
      token := if c == 0x2028 then U2028_ESCAPE else U2029_ESCAPE;
      ScanSeparatorRune(s, token);
    } else {
      token := s[..n];
      ScanPlainRune(s);
    }
  }

  lemma {:induction false} ScanChars(s: bytes)
    requires ValidUtf8(s)
    ensures Scans(GoChars(s), SerdeChars(s))
    decreases |s|
  {
    if s == [] {
      ScanPlain([]);
    } else {
      var token, n := ScanRune(s);
      var image :| Scans(token, image) && SerdeChars(s) == image + SerdeChars(s[n..]);
      ScanChars(s[n..]);
      ScanConcat(token, image, GoChars(s[n..]), SerdeChars(s[n..]));
    }
  }

  // Wrapping an aligned body in two plain bytes keeps it aligned.
  lemma ScanBracketed(open: byte, body: bytes, image: bytes, close: byte)
    requires open != BACKSLASH && close != BACKSLASH && Scans(body, image)
    ensures Scans([open] + body + [close], [open] + image + [close])
  {
    ScanPlain([open]);
    ScanPlain([close]);
    ScanConcat([open], [open], body, image);
    ScanConcat([open] + body, [open] + image, [close], [close]);
  }

  lemma ScanText(s: bytes)
    requires ValidUtf8(s)
    ensures Scans(Text(s, Go), Text(s, Serde))
  {
    ScanChars(s);
    ScanBracketed(QUOTE, GoChars(s), SerdeChars(s), QUOTE);
  }

  lemma NumberIsPlain(n: int)
    ensures BACKSLASH !in Number(n)
  {
    DecimalReadsBack(if n < 0 then -n else n);
  }

  /** The scanner stays aligned with the encoder's tokens through every nesting and concatenation. */
  lemma {:induction false} ScanValue(v: Json)
    requires ValidText(v)
    ensures Scans(Encode(v, Go), Encode(v, Serde))
    decreases v, 1
  {
    match v
    case Null => ScanPlain(NULL_TEXT);
    case Bool(b) => ScanPlain(if b then TRUE_TEXT else FALSE_TEXT);
    case Int(n) => NumberIsPlain(n); ScanPlain(Number(n));
    case Str(s) => ScanText(s);
    case Arr(items) =>
      ScanItems(items, true);
      ScanBracketed(OPEN_BRACKET, EncodeItems(items, Go, true), EncodeItems(items, Serde, true), CLOSE_BRACKET);
    case Obj(m) =>
      var keys := SortedKeys(m.Keys);
      ScanMembers(v, keys, true);
      ScanBracketed(OPEN_BRACE, EncodeMembers(v, keys, Go, true), EncodeMembers(v, keys, Serde, true), CLOSE_BRACE);
  }

  lemma {:induction false} ScanItems(items: seq<Json>, first: bool)
    requires forall i :: 0 <= i < |items| ==> ValidText(items[i])
    ensures Scans(EncodeItems(items, Go, first), EncodeItems(items, Serde, first))
    decreases items, 0
  {
    if items == [] {
      ScanPlain([]);
    } else {
      var sep := Separator(first);
      var go, serde := Encode(items[0], Go), Encode(items[0], Serde);
      ScanPlain(sep);
      ScanValue(items[0]);
      ScanItems(items[1..], false);
      ScanConcat(sep, sep, go, serde);
      ScanConcat(sep + go, sep + serde, EncodeItems(items[1..], Go, false), EncodeItems(items[1..], Serde, false));
    }
  }

  lemma {:induction false} ScanMembers(v: Json, keys: seq<bytes>, first: bool)
    requires v.Obj? && ValidText(v) && forall k :: k in keys ==> k in v.members
    ensures Scans(EncodeMembers(v, keys, Go, first), EncodeMembers(v, keys, Serde, first))
    decreases v, 0, |keys|
  {
    if keys == [] {
      ScanPlain([]);
    } else {
      var k, value := keys[0], v.members[keys[0]];
      ScanText(k);
      ScanValue(value);
      ScanMembers(v, keys[1..], false);
      ScanMember(Separator(first), Text(k, Go), Text(k, Serde), Encode(value, Go), Encode(value, Serde));
      ScanConcat(Separator(first) + Text(k, Go) + [COLON] + Encode(value, Go),
                 Separator(first) + Text(k, Serde) + [COLON] + Encode(value, Serde),
                 EncodeMembers(v, keys[1..], Go, false), EncodeMembers(v, keys[1..], Serde, false));
    }
  }

  lemma ScanMember(sep: bytes, k: bytes, kImage: bytes, value: bytes, valueImage: bytes)
    requires BACKSLASH !in sep && Scans(k, kImage) && Scans(value, valueImage)
    ensures Scans(sep + k + [COLON] + value, sep + kImage + [COLON] + valueImage)
  {
    ScanPlain(sep);
    ScanPlain([COLON]);
    ScanConcat(sep, sep, k, kImage);
    ScanConcat(sep + k, sep + kImage, [COLON], [COLON]);
    ScanConcat(sep + k + [COLON], sep + kImage + [COLON], value, valueImage);
  }

  // ----- serdeCompatMarshal

  const NEWLINE: byte := 0x0A

  /** json.Encoder's output: the value, then a newline. */
  ghost function EncoderOutput(v: Json): bytes {
    Encode(v, Go) + [NEWLINE]
  }

  /** Go's `bytes.TrimSuffix` for a one-byte suffix. */
  function TrimSuffix(s: bytes, b: byte): bytes {
    if s != [] && s[|s| - 1] == b then s[..|s| - 1] else s
  }

  ghost function SerdeCompatMarshal(v: Json): bytes {
    Unescape(TrimSuffix(EncoderOutput(v), NEWLINE))
  }

  /** `serdeCompatMarshal`, given what json.Encoder wrote into its buffer. */
  method MarshalBuffer(ghost v: Json, buffer: array<byte>) returns (out: bytes)
    requires buffer[..] == EncoderOutput(v)
    ensures out == SerdeCompatMarshal(v)
  {
    var trimmed := TrimSuffix(buffer[..], NEWLINE);
    var copy := new byte[|trimmed|](k requires 0 <= k < |trimmed| => trimmed[k]);
    assert copy[..] == trimmed;
    out := UnescapeSeparators(copy);
  }

  /**
   For every value over well-formed strings, the rewritten Go encoding is the serde encoding,
   byte for byte: text that merely looks like an escape is never taken for one.
   */
  lemma MarshalMatchesSerde(v: Json)
    requires ValidText(v)
    ensures SerdeCompatMarshal(v) == Encode(v, Serde)
  {
    assert TrimSuffix(EncoderOutput(v), NEWLINE) == Encode(v, Go);
    ScanValue(v);
    assert Encode(v, Go) + [] == Encode(v, Go);
    assert Encode(v, Serde) + [] == Encode(v, Serde);
  }

  // ----- the payload

  type Dataset = map<bytes, Json>

  const ACCOUNT: bytes := Ascii("account")
  const DATASET: bytes := Ascii("dataset")
  const MACHINE: bytes := Ascii("machine")
  const ID: bytes := Ascii("id")
  const FINGERPRINT: bytes := Ascii("fingerprint")

  ghost function Payload(account: bytes, machine: bytes, fingerprint: bytes, dataset: Option<Dataset>): Json {
    Obj(map[
      ACCOUNT := Obj(map[ID := Str(account)]),
      MACHINE := Obj(map[ID := Str(machine), FINGERPRINT := Str(fingerprint)]),
      DATASET := Obj(if dataset.Some? then dataset.value else map[])
    ])
  }

  /** `buildOfflineProofPayloadJSON`. */
  ghost function PayloadJson(account: bytes, machine: bytes, fingerprint: bytes, dataset: Option<Dataset>): bytes {
    SerdeCompatMarshal(Payload(account, machine, fingerprint, dataset))
  }

  ghost predicate ValidPayload(account: bytes, machine: bytes, fingerprint: bytes, dataset: Option<Dataset>) {
    ValidText(Payload(account, machine, fingerprint, dataset))
  }

  ghost function Entries(dataset: Option<Dataset>): Dataset {
    if dataset.Some? then dataset.value else map[]
  }

  lemma FirstByteOrders(k: bytes, l: bytes)
    requires k != [] && l != [] && k[0] < l[0]
    ensures LexLeq(k, l) && k != l
  {
  }

  // Keys already in bytewise order are the sorted listing of their set.
  lemma SortedListing(listing: seq<bytes>, keys: set<bytes>)
    requires Sorted(listing) && Distinct(listing)
    requires forall k :: k in listing <==> k in keys
    ensures SortedKeys(keys) == listing
  {
    SortedKeysShape(keys);
    DistinctSameElements(listing, SortedKeys(keys));
    SortUnique(listing, SortedKeys(keys));
  }

  lemma FieldOrder()
    ensures SortedKeys({ACCOUNT, DATASET, MACHINE}) == [ACCOUNT, DATASET, MACHINE]
    ensures SortedKeys({FINGERPRINT, ID}) == [FINGERPRINT, ID]
    ensures SortedKeys({ID}) == [ID]
  {
    assert ACCOUNT[0] == 0x61 && MACHINE[0] == 0x6D && DATASET[0] == 0x64 && ID[0] == 0x69 && FINGERPRINT[0] == 0x66;
    FirstByteOrders(ACCOUNT, DATASET);
    FirstByteOrders(DATASET, MACHINE);
    FirstByteOrders(ACCOUNT, MACHINE);
    FirstByteOrders(FINGERPRINT, ID);
    OrderedTriple(ACCOUNT, DATASET, MACHINE);
    OrderedPair(FINGERPRINT, ID);
    SortedListing([ID], {ID});
  }

  lemma OrderedPair(k: bytes, l: bytes)
    requires LexLeq(k, l) && k != l
    ensures SortedKeys({k, l}) == [k, l]
  {
    SortedListing([k, l], {k, l});
  }

  lemma OrderedTriple(j: bytes, k: bytes, l: bytes)
    requires LexLeq(j, k) && LexLeq(k, l) && LexLeq(j, l) && j != k && k != l && j != l
    ensures SortedKeys({j, k, l}) == [j, k, l]
  {
    SortedListing([j, k, l], {j, k, l});
  }

  ghost function Field(name: bytes, value: bytes): bytes {
    Text(name, Serde) + [COLON] + value
  }

  ghost function Braces(body: bytes): bytes {
    [OPEN_BRACE] + body + [CLOSE_BRACE]
  }

  lemma FieldText(sep: bytes, key: bytes, value: bytes, rest: bytes)
    ensures sep + key + [COLON] + value + rest == sep + (key + [COLON] + value) + rest
  {
    assert sep + key + [COLON] + value == sep + (key + [COLON] + value);
  }

  lemma FieldsStep(v: Json, keys: seq<bytes>, first: bool)
    requires v.Obj? && keys != [] && forall k :: k in keys ==> k in v.members
    ensures EncodeMembers(v, keys, Serde, first)
         == Separator(first) + Field(keys[0], Encode(v.members[keys[0]], Serde))
            + EncodeMembers(v, keys[1..], Serde, false)
  {
    var k, rest := keys[0], EncodeMembers(v, keys[1..], Serde, false);
    assert EncodeMembers(v, keys, Serde, first)
        == Separator(first) + Text(k, Serde) + [COLON] + Encode(v.members[k], Serde) + rest;
    hide EncodeMembers, Encode, Text;
    FieldText(Separator(first), Text(k, Serde), Encode(v.members[k], Serde), rest);
  }

  lemma ObjectText(v: Json, keys: seq<bytes>)
    requires v.Obj? && SortedKeys(v.members.Keys) == keys
    ensures Encode(v, Serde) == Braces(EncodeMembers(v, keys, Serde, true))
    ensures EncodeMembers(v, [], Serde, false) == []
  {
  }

  lemma OnlyOne(a: bytes)
    ensures [] + a + [] == a
  {
  }

  lemma OneField(v: Json, k: bytes)
    requires v.Obj? && v.members.Keys == {k} && SortedKeys({k}) == [k]
    ensures Encode(v, Serde) == Braces(Field(k, Encode(v.members[k], Serde)))
  {
    hide Encode, EncodeMembers, Field, Braces;
    ObjectText(v, [k]);
    FieldsStep(v, [k], true);
    assert [k][1..] == [];
    OnlyOne(Field(k, Encode(v.members[k], Serde)));
  }

  lemma TwoFields(v: Json, k: bytes, l: bytes)
    requires v.Obj? && v.members.Keys == {k, l} && SortedKeys({k, l}) == [k, l]
    ensures Encode(v, Serde) == Braces(Field(k, Encode(v.members[k], Serde))
                                       + [COMMA] + Field(l, Encode(v.members[l], Serde)))
  {
    hide Encode, EncodeMembers, Field, Braces;
    ObjectText(v, [k, l]);
    FieldsStep(v, [k, l], true);
    assert [k, l][1..] == [l];
    FieldsStep(v, [l], false);
    assert [l][1..] == [];
    Reassociate(Field(k, Encode(v.members[k], Serde)), [COMMA], Field(l, Encode(v.members[l], Serde)));
  }

  lemma Reassociate(a: bytes, b: bytes, c: bytes)
    ensures [] + a + (b + c + []) == a + b + c
  {
  }

  lemma ThreeMembers(e3: bytes, e2: bytes, e1: bytes, a: bytes, b: bytes, c: bytes)
    requires e3 == Separator(true) + a + e2 && e2 == Separator(false) + b + e1 && e1 == Separator(false) + c + []
    ensures e3 == a + [COMMA] + b + [COMMA] + c
  {
    OnlyOne(a);
    assert Separator(false) + c + [] == [COMMA] + c;
    Flat(a + [COMMA] + b, [COMMA], c);
    Flat(a, [COMMA] + b, [COMMA] + c);
    Flat(a, [COMMA], b);
  }

  lemma ThreeFields(v: Json, j: bytes, k: bytes, l: bytes)
    requires v.Obj? && v.members.Keys == {j, k, l} && SortedKeys({j, k, l}) == [j, k, l]
    ensures Encode(v, Serde) == Braces(Field(j, Encode(v.members[j], Serde))
                                       + [COMMA] + Field(k, Encode(v.members[k], Serde))
                                       + [COMMA] + Field(l, Encode(v.members[l], Serde)))
  {
    hide Encode, EncodeMembers, Field, Braces, SortedKeys, Separator;
    ObjectText(v, [j, k, l]);
    FieldsStep(v, [j, k, l], true);
    assert [j, k, l][1..] == [k, l];
    FieldsStep(v, [k, l], false);
    assert [k, l][1..] == [l];
    FieldsStep(v, [l], false);
    assert [l][1..] == [];
    ThreeMembers(EncodeMembers(v, [j, k, l], Serde, true), EncodeMembers(v, [k, l], Serde, false),
                 EncodeMembers(v, [l], Serde, false), Field(j, Encode(v.members[j], Serde)),
                 Field(k, Encode(v.members[k], Serde)), Field(l, Encode(v.members[l], Serde)));
  }

  lemma TwoFieldLayout(k: bytes, l: bytes, x: Json, y: Json)
    requires k != l && SortedKeys({k, l}) == [k, l]
    ensures Encode(Obj(map[l := y, k := x]), Serde)
         == Braces(Field(k, Encode(x, Serde)) + [COMMA] + Field(l, Encode(y, Serde)))
  {
    TwoFields(Obj(map[l := y, k := x]), k, l);
  }

  lemma MachineLayout(machine: bytes, fingerprint: bytes)
    ensures Encode(Obj(map[ID := Str(machine), FINGERPRINT := Str(fingerprint)]), Serde)
         == Braces(Field(FINGERPRINT, Encode(Str(fingerprint), Serde)) + [COMMA]
                   + Field(ID, Encode(Str(machine), Serde)))
  {
    FieldNamesDiffer();
    FieldOrder();
    TwoFieldLayout(FINGERPRINT, ID, Str(fingerprint), Str(machine));
  }

  lemma AccountLayout(account: bytes)
    ensures Encode(Obj(map[ID := Str(account)]), Serde) == Braces(Field(ID, Text(account, Serde)))
  {
    FieldOrder();
    OneField(Obj(map[ID := Str(account)]), ID);
  }

  lemma TopLayout(v: Json)
    requires v.Obj? && v.members.Keys == {ACCOUNT, DATASET, MACHINE}
    ensures Encode(v, Serde) == Braces(Field(ACCOUNT, Encode(v.members[ACCOUNT], Serde))
                                       + [COMMA] + Field(DATASET, Encode(v.members[DATASET], Serde))
                                       + [COMMA] + Field(MACHINE, Encode(v.members[MACHINE], Serde)))
  {
    FieldOrder();
    ThreeFields(v, ACCOUNT, DATASET, MACHINE);
  }

  /**
   The layout on the wire: account, dataset, machine, and inside machine fingerprint before id. It is
   the sorted order, not the order the code builds the maps in.
   */
  lemma PayloadLayout(account: bytes, machine: bytes, fingerprint: bytes, dataset: Option<Dataset>)
    requires ValidPayload(account, machine, fingerprint, dataset)
    ensures PayloadJson(account, machine, fingerprint, dataset)
         == Braces(Field(ACCOUNT, Braces(Field(ID, Text(account, Serde))))
                   + [COMMA] + Field(DATASET, Encode(Obj(Entries(dataset)), Serde))
                   + [COMMA] + Field(MACHINE, Braces(Field(FINGERPRINT, Text(fingerprint, Serde))
                                                     + [COMMA] + Field(ID, Text(machine, Serde)))))
  {
    hide Encode, Unescape, ValidText, Ascii;
    MarshalMatchesSerde(Payload(account, machine, fingerprint, dataset));
    PayloadFields(account, machine, fingerprint, dataset);
    TopLayout(Payload(account, machine, fingerprint, dataset));
    AccountLayout(account);
    MachineLayout(machine, fingerprint);
    StrText(machine);
    StrText(fingerprint);
  }

  lemma StrText(s: bytes)
    ensures Encode(Str(s), Serde) == Text(s, Serde)
  {
  }

  /** Two members are written in byte order, whatever order the map was built in: a key before its extensions. */
  lemma TwoMembersInOrder(k: bytes, l: bytes, x: Json, y: Json)
    requires k != l && PrefixOrSmaller(k, l)
    ensures Encode(Obj(map[l := y, k := x]), Serde)
         == Braces(Field(k, Encode(x, Serde)) + [COMMA] + Field(l, Encode(y, Serde)))
  {
    LexLeqExactly(k, l);
    OrderedPair(k, l);
    TwoFieldLayout(k, l, x, y);
  }

  lemma {:induction false} PlainChars(s: bytes)
    requires forall i :: 0 <= i < |s| ==> 0x20 <= s[i] < 0x80 && s[i] != QUOTE && s[i] != BACKSLASH
    ensures SerdeChars(s) == s
  {
    if s != [] { PlainChars(s[1..]); }
  }

  predicate IsPlain(s: string) {
    forall i :: 0 <= i < |s| ==> ' ' <= s[i] <= '~' && s[i] != '"' && s[i] != '\\'
  }

  lemma PlainText(s: string)
    requires IsPlain(s)
    ensures Text(Ascii(s), Serde) == Ascii("\"" + s + "\"")
  {
    PlainChars(Ascii(s));
  }

  lemma NameText(name: string, text: string)
    requires IsPlain(name) && text == "\"" + name + "\""
    ensures Text(Ascii(name), Serde) == Ascii(text)
  {
    PlainText(name);
  }

  lemma TopFieldTexts()
    ensures Text(ACCOUNT, Serde) == Ascii("\"account\"")
    ensures Text(DATASET, Serde) == Ascii("\"dataset\"")
    ensures Text(MACHINE, Serde) == Ascii("\"machine\"")
  {
    hide Text, Ascii;
    NameText("account", "\"account\"");
    NameText("dataset", "\"dataset\"");
    NameText("machine", "\"machine\"");
  }

  lemma InnerFieldTexts()
    ensures Text(ID, Serde) == Ascii("\"id\"")
    ensures Text(FINGERPRINT, Serde) == Ascii("\"fingerprint\"")
  {
    hide Text, Ascii;
    NameText("id", "\"id\"");
    NameText("fingerprint", "\"fingerprint\"");
  }

  // The punctuation between the five values of a payload.
  lemma Punctuation()
    ensures [OPEN_BRACE] + Ascii("\"account\"") + [COLON] + [OPEN_BRACE] + Ascii("\"id\"") + [COLON]
         == Ascii("{\"account\":{\"id\":")
    ensures [CLOSE_BRACE] + [COMMA] + Ascii("\"dataset\"") + [COLON] == Ascii("},\"dataset\":")
  {
  }

  lemma MorePunctuation()
    ensures [COMMA] + Ascii("\"machine\"") + [COLON] + [OPEN_BRACE] + Ascii("\"fingerprint\"") + [COLON]
         == Ascii(",\"machine\":{\"fingerprint\":")
    ensures [COMMA] + Ascii("\"id\"") + [COLON] == Ascii(",\"id\":")
    ensures [CLOSE_BRACE] + [CLOSE_BRACE] == Ascii("}}")
  {
  }

  lemma Flat(a: bytes, b: bytes, c: bytes)
    ensures a + (b + c) == a + b + c
  {
  }

  // The braces of one object moved out to its neighbours.
  lemma Opened(ob: bytes, name: bytes, co: bytes, body: bytes, cb: bytes)
    ensures name + co + (ob + body + cb) == (name + co + ob) + body + cb
  {
    Flat(name + co, ob + body, cb);
    Flat(name + co, ob, body);
  }

  lemma Pair(name: bytes, co: bytes, value: bytes, left: bytes)
    ensures left + (name + co + value) == (left + name + co) + value
  {
    Flat(left, name + co, value);
    Flat(left, name, co);
  }

  lemma AccountPart(ob: bytes, na: bytes, co: bytes, ni: bytes, a: bytes, cb: bytes)
    ensures ob + (na + co + (ob + (ni + co + a) + cb)) == (ob + na + co + ob + ni + co) + a + cb
  {
    Opened(ob, na, co, ni + co + a, cb);
    Pair(ni, co, a, na + co + ob);
    var x := na + co + ob + ni + co;
    Flat(ob, x + a, cb);
    Flat(ob, x, a);
    assert ob + x == ob + na + co + ob + ni + co;
  }

  lemma MachinePart(ob: bytes, nm: bytes, co: bytes, nf: bytes, f: bytes, cm: bytes, ni: bytes, m: bytes, cb: bytes)
    ensures cm + (nm + co + (ob + ((nf + co + f) + cm + (ni + co + m)) + cb)) + cb
         == (cm + nm + co + ob + nf + co) + f + (cm + ni + co) + m + (cb + cb)
  {
    var inner := (nf + co + f) + cm + (ni + co + m);
    Opened(ob, nm, co, inner, cb);
    var head := nm + co + ob;
    Flat(cm, head + inner, cb);
    Flat(cm, head, inner);
    assert cm + head == cm + nm + co + ob;
    var start := cm + nm + co + ob;
    Flat(nf + co + f, cm, ni + co + m);
    Pair(ni, co, m, cm);
    Flat(start, nf + co + f, (cm + ni + co) + m);
    Pair(nf, co, f, start);
    Flat(start + nf + co + f, cm + ni + co, m);
    Flat((start + nf + co) + f + (cm + ni + co) + m, cb, cb);
  }

  // Three fields in braces, with each comma and brace next to its neighbours.
  lemma ThreeParts(ob: bytes, a: bytes, cm: bytes, nd: bytes, co: bytes, d: bytes, m: bytes, cb: bytes, front: bytes,
                   id: bytes)
    requires ob + a == front + id + cb
    ensures ob + (a + cm + (nd + co + d) + cm + m) + cb == front + id + (cb + cm + nd + co) + d + (cm + m + cb)
  {
    var rest := cm + (nd + co + d);
    Flat(a, cm, nd + co + d);
    Flat(a + rest, cm, m);
    Flat(ob, a + rest, cm + m);
    Flat(ob, a, rest);
    Pair(nd, co, d, cm);
    Flat(front + id, cb, (cm + nd + co) + d);
    Flat(cb, cm + nd + co, d);
    assert cb + (cm + nd + co) == cb + cm + nd + co;
    Flat(front + id, cb + cm + nd + co, d);
    Flat(front + id + (cb + cm + nd + co) + d, cm + m, cb);
  }

  lemma Regrouped(ob: bytes, na: bytes, co: bytes, ni: bytes, a: bytes, cb: bytes, cm: bytes, nd: bytes, d: bytes,
                  nm: bytes, nf: bytes, f: bytes, m: bytes)
    ensures ob + ((na + co + (ob + (ni + co + a) + cb)) + cm + (nd + co + d)
                  + cm + (nm + co + (ob + ((nf + co + f) + cm + (ni + co + m)) + cb))) + cb
         == (ob + na + co + ob + ni + co) + a + (cb + cm + nd + co) + d + (cm + nm + co + ob + nf + co) + f
            + (cm + ni + co) + m + (cb + cb)
  {
    AccountPart(ob, na, co, ni, a, cb);
    MachinePart(ob, nm, co, nf, f, cm, ni, m, cb);
    var account := na + co + (ob + (ni + co + a) + cb);
    var machine := nm + co + (ob + ((nf + co + f) + cm + (ni + co + m)) + cb);
    var front, mid := ob + na + co + ob + ni + co, cb + cm + nd + co;
    ThreeParts(ob, account, cm, nd, co, d, machine, cb, front, a);
    var head, x, y, z := front + a + mid + d, cm + nm + co + ob + nf + co, cm + ni + co, cb + cb;
    Flat(head, x + f + y + m, z);
    Flat(head, x + f + y, m);
    Flat(head, x + f, y);
    Flat(head, x, f);
  }

  /** The signed bytes, character by character around the five values. */
  lemma PayloadText(account: bytes, machine: bytes, fingerprint: bytes, dataset: Option<Dataset>)
    requires ValidPayload(account, machine, fingerprint, dataset)
    ensures PayloadJson(account, machine, fingerprint, dataset)
         == Ascii("{\"account\":{\"id\":") + Text(account, Serde) + Ascii("},\"dataset\":")
            + Encode(Obj(Entries(dataset)), Serde) + Ascii(",\"machine\":{\"fingerprint\":")
            + Text(fingerprint, Serde) + Ascii(",\"id\":") + Text(machine, Serde) + Ascii("}}")
  {
    hide Text, Encode, PayloadJson, Ascii, ValidPayload;
    PayloadLayout(account, machine, fingerprint, dataset);
    TopFieldTexts();
    InnerFieldTexts();
    Punctuation();
    MorePunctuation();
    Regrouped([OPEN_BRACE], Ascii("\"account\""), [COLON], Ascii("\"id\""), Text(account, Serde), [CLOSE_BRACE],
              [COMMA], Ascii("\"dataset\""), Encode(Obj(Entries(dataset)), Serde), Ascii("\"machine\""),
              Ascii("\"fingerprint\""), Text(fingerprint, Serde), Text(machine, Serde));
  }

  /** The parser recovers the signed value from the payload bytes. */
  lemma PayloadReadsBack(account: bytes, machine: bytes, fingerprint: bytes, dataset: Option<Dataset>)
    requires ValidPayload(account, machine, fingerprint, dataset)
    ensures Parse(PayloadJson(account, machine, fingerprint, dataset))
         == Some((Payload(account, machine, fingerprint, dataset), []))
  {
    var v := Payload(account, machine, fingerprint, dataset);
    MarshalMatchesSerde(v);
    ReadsBack(v, []);
    assert Encode(v, Serde) + [] == Encode(v, Serde);
  }

  lemma FieldNamesDiffer()
    ensures ACCOUNT != MACHINE && ACCOUNT != DATASET && MACHINE != DATASET && ID != FINGERPRINT
  {
    assert ACCOUNT[0] == 0x61 && MACHINE[0] == 0x6D && DATASET[0] == 0x64 && ID[0] == 0x69 && FINGERPRINT[0] == 0x66;
  }

  // The four inputs can be read off the payload value.
  lemma PayloadFields(account: bytes, machine: bytes, fingerprint: bytes, dataset: Option<Dataset>)
    ensures var m := Payload(account, machine, fingerprint, dataset).members;
            && m.Keys == {ACCOUNT, MACHINE, DATASET}
            && m[ACCOUNT] == Obj(map[ID := Str(account)])
            && m[MACHINE] == Obj(map[ID := Str(machine), FINGERPRINT := Str(fingerprint)])
            && m[DATASET] == Obj(Entries(dataset))
  {
    FieldNamesDiffer();
  }

  // ----- verification

  const PROOF_PREFIX: bytes := Ascii("v1x0.")

  /** `ParseProof`. */
  function ParseProof(proof: bytes): Option<bytes> {
    if PROOF_PREFIX <= proof then Base64.Decode(proof[|PROOF_PREFIX|..]) else None
  }

  datatype ProofResult = Accepted | NoPublicKey | MalformedProof | InvalidSignature

  /** `VerifyOfflineProof`, with RSA verification under the given key as a parameter. */
  ghost function VerifyOfflineProof(rsa: Option<(bytes, bytes) -> bool>, account: bytes, machine: bytes,
                                    fingerprint: bytes, dataset: Option<Dataset>, proof: bytes): ProofResult {
    if rsa.None? then NoPublicKey
    else match ParseProof(proof)
         case None => MalformedProof
         case Some(sig) =>
           if rsa.value(PayloadJson(account, machine, fingerprint, dataset), sig) then Accepted else InvalidSignature
  }

  /** A proof the server made over its own serde_json bytes is accepted here, for every tuple it can sign. */
  lemma GenuineProofIsAccepted(rsa: (bytes, bytes) -> bool, account: bytes, machine: bytes, fingerprint: bytes,
                               dataset: Option<Dataset>, sig: bytes)
    requires ValidPayload(account, machine, fingerprint, dataset)
    ensures VerifyOfflineProof(Some(rsa), account, machine, fingerprint, dataset, PROOF_PREFIX + Base64.Encode(sig))
         == if rsa(Encode(Payload(account, machine, fingerprint, dataset), Serde), sig) then Accepted
            else InvalidSignature
  {
    MarshalMatchesSerde(Payload(account, machine, fingerprint, dataset));
    Base64.DecodeUndoesEncode(sig);
    assert (PROOF_PREFIX + Base64.Encode(sig))[|PROOF_PREFIX|..] == Base64.Encode(sig);
  }

  /** `proof` is the prefix and the base64 of `sig`. */
  ghost predicate CarriesSignature(proof: bytes, sig: bytes) {
    exists b64 :: proof == Ascii("v1x0.") + b64 && Base64.Decode(b64) == Some(sig)
  }

  lemma ParseProofExactly(proof: bytes, sig: bytes)
    ensures ParseProof(proof) == Some(sig) <==> CarriesSignature(proof, sig)
  {
    hide Base64.Decode;
    if PROOF_PREFIX <= proof { assert proof == PROOF_PREFIX + proof[|PROOF_PREFIX|..]; }
    forall b64 | proof == Ascii("v1x0.") + b64 ensures proof[|PROOF_PREFIX|..] == b64 {
    }
  }

  /** Which outcome, exactly: no key, no proof in the format, a signature over other bytes, or acceptance. */
  lemma ProofOutcomes(rsa: Option<(bytes, bytes) -> bool>, account: bytes, machine: bytes, fingerprint: bytes,
                      dataset: Option<Dataset>, proof: bytes)
    ensures var r := VerifyOfflineProof(rsa, account, machine, fingerprint, dataset, proof);
            && (r == NoPublicKey <==> rsa.None?)
            && (r == MalformedProof <==> rsa.Some? && forall sig :: !CarriesSignature(proof, sig))
            && (r == Accepted <==>
                  rsa.Some? && exists sig :: CarriesSignature(proof, sig)
                                             && rsa.value(PayloadJson(account, machine, fingerprint, dataset), sig))
  {
    hide PayloadJson, CarriesSignature, ParseProof;
    forall sig ensures ParseProof(proof) == Some(sig) <==> CarriesSignature(proof, sig) {
      ParseProofExactly(proof, sig);
    }
  }
}
