/**
 What the two encoders write, spelled out: escapes and numbers in characters, strings as the UTF-8 of
 their scalar values (section 3 of RFC 3629), punctuation in whole texts.
 */
module JsonSyntax {
  import opened Bytes
  import opened Json
  import opened JsonParser

  // ----- UTF-8

  predicate IsScalar(c: int) {
    0 <= c < 0xD800 || 0xE000 <= c < 0x11_0000
  }

  /** The UTF-8 of one scalar value. */
  function Utf8(c: int): bytes
    requires IsScalar(c)
  {
    if c < 0x80 then [c]
    else if c < 0x800 then [0xC0 + c / 64, 0x80 + c % 64]
    else if c < 0x1_0000 then [0xE0 + c / 4096, 0x80 + c / 64 % 64, 0x80 + c % 64]
    else [0xF0 + c / 262144, 0x80 + c / 4096 % 64, 0x80 + c / 64 % 64, 0x80 + c % 64]
  }

  ghost predicate AllScalars(cs: seq<int>) {
    forall i :: 0 <= i < |cs| ==> IsScalar(cs[i])
  }

  function Utf8All(cs: seq<int>): bytes
    requires AllScalars(cs)
  {
    if cs == [] then [] else Utf8(cs[0]) + Utf8All(cs[1..])
  }

  lemma TwoBytes(c: int)
    requires 0x80 <= c < 0x800
    ensures 0xC2 <= 0xC0 + c / 64 <= 0xDF && 0x80 <= 0x80 + c % 64 <= 0xBF && c / 64 * 64 + c % 64 == c
  {
  }

  lemma ThreeBytes(c: int)
    requires 0x800 <= c < 0x1_0000 && IsScalar(c)
    ensures 0 <= c / 4096 < 16 && c / 4096 * 4096 + c / 64 % 64 * 64 + c % 64 == c
    ensures c / 4096 == 0 ==> c / 64 % 64 >= 0x20
    ensures c / 4096 == 0xD ==> c / 64 % 64 < 0x20
  {
    assert c / 64 == c / 4096 * 64 + c / 64 % 64;
  }

  lemma FourBytes(c: int)
    requires 0x1_0000 <= c < 0x11_0000
    ensures 0 <= c / 262144 <= 4
    ensures c / 262144 * 262144 + c / 4096 % 64 * 4096 + c / 64 % 64 * 64 + c % 64 == c
    ensures c / 262144 == 0 ==> c / 4096 % 64 >= 0x10
    ensures c / 262144 == 4 ==> c / 4096 % 64 < 0x10
  {
    assert c / 64 == c / 4096 * 64 + c / 64 % 64;
    assert c / 4096 == c / 262144 * 64 + c / 4096 % 64;
  }

  /** Decoding undoes encoding, whatever follows. */
  lemma DecodeUndoesUtf8(c: int, rest: bytes)
    requires IsScalar(c)
    ensures var s := Utf8(c) + rest; DecodeRune(s) == (c, |Utf8(c)|) && !Malformed(s)
  {
    if c < 0x80 {
    } else if c < 0x800 {
      TwoBytes(c);
    } else if c < 0x1_0000 {
      ThreeBytes(c);
    } else {
      FourBytes(c);
    }
  }

  // One base-64 digit comes off the end.
  lemma DigitsOf(high: int, low: int)
    requires 0 <= low < 64
    ensures (high * 64 + low) / 64 == high && (high * 64 + low) % 64 == low
  {
  }

  lemma TwoDecode(a: int, b: int)
    requires 0xC2 <= a <= 0xDF && 0x80 <= b <= 0xBF
    ensures var c := (a - 0xC0) * 64 + (b - 0x80);
            IsScalar(c) && 0x80 <= c < 0x800 && a == 0xC0 + c / 64 && b == 0x80 + c % 64
  {
    DigitsOf(a - 0xC0, b - 0x80);
  }

  lemma ThreeDecode(a: int, b: int, d: int)
    requires 0xE0 <= a <= 0xEF && 0x80 <= b <= 0xBF && 0x80 <= d <= 0xBF
    requires (a == 0xE0 ==> b >= 0xA0) && (a == 0xED ==> b <= 0x9F)
    ensures var c := (a - 0xE0) * 4096 + (b - 0x80) * 64 + (d - 0x80);
            && IsScalar(c) && 0x800 <= c < 0x1_0000
            && a == 0xE0 + c / 4096 && b == 0x80 + c / 64 % 64 && d == 0x80 + c % 64
  {
    DigitsOf((a - 0xE0) * 64 + (b - 0x80), d - 0x80);
    DigitsOf(a - 0xE0, b - 0x80);
  }

  lemma FourDecode(a: int, b: int, d: int, e: int)
    requires 0xF0 <= a <= 0xF4 && 0x80 <= b <= 0xBF && 0x80 <= d <= 0xBF && 0x80 <= e <= 0xBF
    requires (a == 0xF0 ==> b >= 0x90) && (a == 0xF4 ==> b <= 0x8F)
    ensures var c := (a - 0xF0) * 262144 + (b - 0x80) * 4096 + (d - 0x80) * 64 + (e - 0x80);
            && IsScalar(c) && 0x1_0000 <= c
            && a == 0xF0 + c / 262144 && b == 0x80 + c / 4096 % 64 && d == 0x80 + c / 64 % 64 && e == 0x80 + c % 64
  {
    DigitsOf((a - 0xF0) * 4096 + (b - 0x80) * 64 + (d - 0x80), e - 0x80);
    DigitsOf((a - 0xF0) * 64 + (b - 0x80), d - 0x80);
    DigitsOf(a - 0xF0, b - 0x80);
  }

  /** What is accepted at the front of a string is the UTF-8 of the scalar value it decodes to. */
  lemma DecodedIsUtf8(s: bytes)
    requires s != [] && !Malformed(s)
    ensures var (c, n) := DecodeRune(s); IsScalar(c) && s[..n] == Utf8(c)
  {
    var n := DecodeRune(s).1;
    if n == 2 {
      TwoDecode(s[0], s[1]);
    } else if n == 3 {
      ThreeDecode(s[0], s[1], s[2]);
    } else if n == 4 {
      FourDecode(s[0], s[1], s[2], s[3]);
    }
  }

  /** A string is well-formed exactly when it is the UTF-8 of some scalar values. */
  lemma {:induction false} ValidUtf8Exactly(s: bytes)
    ensures ValidUtf8(s) <==> exists cs :: AllScalars(cs) && s == Utf8All(cs)
    decreases |s|
  {
    if ValidUtf8(s) {
      var cs := ScalarsOf(s);
    }
    forall cs | AllScalars(cs) && s == Utf8All(cs) ensures ValidUtf8(s) {
      Utf8AllIsValid(cs);
    }
  }

  lemma Utf8AllStep(c: int, cs: seq<int>)
    requires IsScalar(c) && AllScalars(cs)
    ensures AllScalars([c] + cs) && Utf8All([c] + cs) == Utf8(c) + Utf8All(cs)
  {
    assert ([c] + cs)[1..] == cs;
  }

  lemma NoScalars()
    ensures AllScalars([]) && Utf8All([]) == []
  {
  }

  // The first scalar value of a well-formed string, and the string after it.
  lemma FirstScalar(s: bytes) returns (c: int, rest: bytes)
    requires s != [] && ValidUtf8(s)
    ensures IsScalar(c) && s == Utf8(c) + rest && |rest| < |s| && ValidUtf8(rest)
  {
    DecodedIsUtf8(s);
    hide Utf8, IsScalar;
    var n := DecodeRune(s).1;
    c, rest := DecodeRune(s).0, s[n..];
    assert s == s[..n] + s[n..];
  }

  lemma {:induction false} ScalarsOf(s: bytes) returns (cs: seq<int>)
    requires ValidUtf8(s)
    ensures AllScalars(cs) && s == Utf8All(cs)
    decreases |s|
  {
    hide ValidUtf8, Utf8, Utf8All, AllScalars, IsScalar;
    if s == [] {
      NoScalars();
      cs := [];
    } else {
      var c, rest := FirstScalar(s);
      var others := ScalarsOf(rest);
      cs := [c] + others;
      Utf8AllStep(c, others);
    }
  }

  lemma {:induction false} Utf8AllIsValid(cs: seq<int>)
    requires AllScalars(cs)
    ensures ValidUtf8(Utf8All(cs))
  {
    if cs != [] {
      var rest := Utf8All(cs[1..]);
      DecodeUndoesUtf8(cs[0], rest);
      Utf8AllIsValid(cs[1..]);
      assert (Utf8(cs[0]) + rest)[|Utf8(cs[0])|..] == rest;
    }
  }

  // ----- strings

  const HEXDIGITS: string := "0123456789abcdef"

  /** The escapes both encoders write, in characters; everything else in ASCII stands for itself. */
  lemma EscapeTable(b: byte)
    requires b < 0x80
    ensures b == 0x22 ==> EscapeAscii(b) == Ascii("\\\"")
    ensures b == 0x5C ==> EscapeAscii(b) == Ascii("\\\\")
    ensures b == 0x08 ==> EscapeAscii(b) == Ascii("\\b")
    ensures b == 0x09 ==> EscapeAscii(b) == Ascii("\\t")
    ensures b == 0x0A ==> EscapeAscii(b) == Ascii("\\n")
    ensures b == 0x0C ==> EscapeAscii(b) == Ascii("\\f")
    ensures b == 0x0D ==> EscapeAscii(b) == Ascii("\\r")
    ensures b < 0x20 && b !in {0x08, 0x09, 0x0A, 0x0C, 0x0D} ==>
              EscapeAscii(b) == Ascii("\\u00") + [Code(HEXDIGITS[b / 16]), Code(HEXDIGITS[b % 16])]
    ensures b >= 0x20 && b != 0x22 && b != 0x5C ==> EscapeAscii(b) == [b]
  {
    assert Ascii("\\u00") == [0x5C, 0x75, 0x30, 0x30];
  }

  lemma GoStepAtSeparator(t: bytes, c: int)
    requires t != [] && t[0] >= 0x80 && DecodeRune(t) == (c, 3) && (c == 0x2028 || c == 0x2029)
    ensures GoChars(t) == [0x5C, 0x75, 0x32, 0x30, 0x32, 0x30 + c % 16] + GoChars(t[3..])
  {
    hide DecodeRune;
  }

  lemma SeparatorEscape(c: int, s: bytes)
    requires c == 0x2028 || c == 0x2029
    ensures GoChars(Utf8(c) + s) == [0x5C, 0x75, 0x32, 0x30, 0x32, 0x30 + c % 16] + GoChars(s)
  {
    hide DecodeRune, GoChars;
    DecodeUndoesUtf8(c, s);
    var t := Utf8(c) + s;
    assert |Utf8(c)| == 3 && t[0] >= 0x80 && t[3..] == s;
    GoStepAtSeparator(t, c);
  }

  /** Go writes U+2028 and U+2029 as escapes, which is what the scanner is there to undo. */
  lemma GoEscapesSeparators(s: bytes)
    ensures GoChars(Utf8(0x2028) + s) == Ascii("\\u2028") + GoChars(s)
    ensures GoChars(Utf8(0x2029) + s) == Ascii("\\u2029") + GoChars(s)
  {
    hide GoChars, Utf8;
    SeparatorEscape(0x2028, s);
    SeparatorEscape(0x2029, s);
    assert Ascii("\\u2028") == [0x5C, 0x75, 0x32, 0x30, 0x32, 0x38];
    assert Ascii("\\u2029") == [0x5C, 0x75, 0x32, 0x30, 0x32, 0x39];
  }

  /** Every other scalar value above ASCII is written raw by both. */
  lemma OthersAreRaw(c: int, s: bytes)
    requires IsScalar(c) && c >= 0x80 && c != 0x2028 && c != 0x2029
    ensures GoChars(Utf8(c) + s) == Utf8(c) + GoChars(s)
    ensures SerdeChars(Utf8(c)) == Utf8(c)
  {
    DecodeUndoesUtf8(c, s);
    var t := Utf8(c) + s;
    assert t[..|Utf8(c)|] == Utf8(c) && t[|Utf8(c)|..] == s;
    RawInSerde(Utf8(c));
  }

  lemma {:induction false} RawInSerde(p: bytes)
    requires forall k :: 0 <= k < |p| ==> p[k] >= 0x80
    ensures SerdeChars(p) == p
  {
    if p != [] { RawInSerde(p[1..]); }
  }

  // ----- numbers

  /** Digits without a needless zero in front. */
  predicate IsCanonicalDecimal(d: bytes) {
    d != [] && AllDigits(d) && (|d| > 1 ==> d[0] != 0x30)
  }

  lemma {:induction false} CanonicalValueGrows(d: bytes)
    requires IsCanonicalDecimal(d)
    ensures DecimalValue(d) >= 0 && (|d| > 1 ==> DecimalValue(d) >= 10) && (|d| == 1 ==> DecimalValue(d) < 10)
  {
    var init := d[..|d| - 1];
    if |d| == 1 {
      assert init == [] && DecimalValue(init) == 0;
    } else if |d| == 2 {
      assert init == [d[0]] && init[..0] == [] && DecimalValue(init) == DigitValue(d[0]);
    } else {
      assert init[0] == d[0];
      CanonicalValueGrows(init);
    }
  }

  /** A number is written as its decimal digits without a leading zero: there is exactly one such text. */
  lemma {:induction false} DecimalIsCanonical(n: nat, d: bytes)
    ensures IsCanonicalDecimal(Decimal(n)) && DecimalValue(Decimal(n)) == n
    ensures IsCanonicalDecimal(d) && DecimalValue(d) == n ==> d == Decimal(n)
  {
    DecimalReadsBack(n);
    if n >= 10 {
      DecimalIsCanonical(n / 10, if d == [] then [] else d[..|d| - 1]);
    }
    if IsCanonicalDecimal(d) && DecimalValue(d) == n {
      CanonicalValueGrows(d);
      var init := d[..|d| - 1];
      if |d| == 1 {
        assert init == [] && DecimalValue(init) == 0;
      } else {
        assert init[0] == d[0] && IsCanonicalDecimal(init);
        assert DecimalValue(init) == n / 10 && DigitValue(d[|d| - 1]) == n % 10;
        assert d == init + [d[|d| - 1]];
      }
    }
  }

  /** A negative number is a minus sign and the decimal of its magnitude; zero has no sign. */
  lemma NumberText(n: int)
    ensures Number(n) == if n < 0 then Ascii("-") + Decimal(-n) else Decimal(n)
  {
    assert Ascii("-") == [0x2D];
  }

  // ----- whole texts

  lemma ItemsStep(items: seq<Json>, style: Style, first: bool)
    requires items != []
    ensures EncodeItems(items, style, first)
         == (if first then [] else Ascii(",")) + Encode(items[0], style) + EncodeItems(items[1..], style, false)
  {
    assert Ascii(",") == [0x2C];
  }

  lemma LeafTexts(style: Style)
    ensures Encode(Null, style) == Ascii("null")
    ensures Encode(Bool(true), style) == Ascii("true") && Encode(Bool(false), style) == Ascii("false")
  {
  }

  // Putting an item with known text in front of items with known text.
  lemma ItemInFront(v: Json, items: seq<Json>, style: Style, first: bool, item: string, rest: string)
    requires (forall i :: 0 <= i < |item| ==> IsAscii(item[i])) && (forall i :: 0 <= i < |rest| ==> IsAscii(rest[i]))
    requires Encode(v, style) == Ascii(item) && EncodeItems(items, style, false) == Ascii(rest)
    ensures EncodeItems([v] + items, style, first) == Ascii((if first then "" else ",") + item + rest)
  {
    hide Encode, EncodeItems;
    ItemsStep([v] + items, style, first);
    assert ([v] + items)[1..] == items;
  }

  lemma NoItems(style: Style)
    ensures EncodeItems([], style, false) == Ascii("") && Encode(Arr([]), style) == Ascii("[]")
  {
    assert Ascii("[]") == [0x5B, 0x5D];
  }

  lemma Bracketed(items: seq<Json>, style: Style, text: string)
    requires forall i :: 0 <= i < |text| ==> IsAscii(text[i])
    requires EncodeItems(items, style, true) == Ascii(text)
    ensures Encode(Arr(items), style) == Ascii("[" + text + "]")
  {
    assert Encode(Arr(items), style) == [OPEN_BRACKET] + EncodeItems(items, style, true) + [CLOSE_BRACKET];
  }

  /** Brackets, commas and the three literals, in both encoders. */
  lemma ArrayText(style: Style)
    ensures Encode(Arr([Null, Bool(true), Bool(false), Arr([])]), style) == Ascii("[null,true,false,[]]")
  {
    LeafTexts(style);
    NoItems(style);
    hide Encode, EncodeItems, Ascii;
    ItemInFront(Arr([]), [], style, false, "[]", "");
    assert "," + "[]" + "" == ",[]" + "";
    ItemInFront(Bool(false), [Arr([])] + [], style, false, "false", ",[]" + "");
    assert "," + "false" + (",[]" + "") == ",false" + (",[]" + "");
    var c := [Bool(false)] + ([Arr([])] + []);
    ItemInFront(Bool(true), c, style, false, "true", ",false" + (",[]" + ""));
    assert "," + "true" + (",false" + (",[]" + "")) == ",true" + (",false" + (",[]" + ""));
    ItemInFront(Null, [Bool(true)] + c, style, true, "null", ",true" + (",false" + (",[]" + "")));
    assert "" + "null" + (",true" + (",false" + (",[]" + ""))) == "null" + (",true" + (",false" + (",[]" + "")));
    Bracketed([Null] + ([Bool(true)] + c), style, "null" + (",true" + (",false" + (",[]" + ""))));
    assert [Null] + ([Bool(true)] + c) == [Null, Bool(true), Bool(false), Arr([])];
    assert "[" + ("null" + (",true" + (",false" + (",[]" + "")))) + "]" == "[null,true,false,[]]";
  }
}
