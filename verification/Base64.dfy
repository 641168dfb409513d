/** Go's base64.StdEncoding (section 4 of RFC 4648), with the leniencies its decoder has. */
module Base64 {
  import opened Wrappers
  import opened Bytes

  const PAD: byte := 0x3D

  /** The character for a six-bit value. */
  function Symbol(n: int): (c: byte)
    requires 0 <= n < 64
  {
    if n < 26 then 0x41 + n
    else if n < 52 then 0x61 + (n - 26)
    else if n < 62 then 0x30 + (n - 52)
    else if n == 62 then 0x2B
    else 0x2F
  }

  /** The six-bit value of a character, or -1 when it is outside the alphabet. */
  function SymbolValue(c: byte): (n: int)
    ensures -1 <= n < 64
  {
    var i: int := c;
    if 0x41 <= i <= 0x5A then i - 0x41
    else if 0x61 <= i <= 0x7A then i - 0x61 + 26
    else if 0x30 <= i <= 0x39 then i - 0x30 + 52
    else if i == 0x2B then 62
    else if i == 0x2F then 63
    else -1
  }

  /** Three bytes as four symbols. */
  function Group(x: byte, y: byte, z: byte): bytes {
    [Symbol(x / 4), Symbol(x % 4 * 16 + y / 16), Symbol(y % 16 * 4 + z / 64), Symbol(z % 64)]
  }

  function Encode(b: bytes): bytes {
    if b == [] then
      []
    else if |b| == 1 then
      [Symbol(b[0] / 4), Symbol(b[0] % 4 * 16), PAD, PAD]
    else if |b| == 2 then
      [Symbol(b[0] / 4), Symbol(b[0] % 4 * 16 + b[1] / 16), Symbol(b[1] % 16 * 4), PAD]
    else
      Group(b[0], b[1], b[2]) + Encode(b[3..])
  }

  /** The decoder skips CR and LF wherever they stand. */
  function WithoutNewlines(s: bytes): (r: bytes)
    ensures |r| <= |s|
  {
    if s == [] then []
    else (if s[0] == 0x0A || s[0] == 0x0D then [] else [s[0]]) + WithoutNewlines(s[1..])
  }

  /** Four symbols at a time. Padding ends the input, and the bits under it are not checked. */
  function DecodeQuads(s: bytes): Option<bytes> {
    if s == [] then
      Some([])
    else if |s| < 4 || SymbolValue(s[0]) < 0 || SymbolValue(s[1]) < 0 then
      None
    else
      var first := SymbolValue(s[0]) * 4 + SymbolValue(s[1]) / 16;
      if s[2] == PAD then
        if s[3] == PAD && |s| == 4 then Some([first]) else None
      else if SymbolValue(s[2]) < 0 then
        None
      else
        var second := SymbolValue(s[1]) % 16 * 16 + SymbolValue(s[2]) / 4;
        if s[3] == PAD then
          if |s| == 4 then Some([first, second]) else None
        else if SymbolValue(s[3]) < 0 then
          None
        else
          var third := SymbolValue(s[2]) % 4 * 64 + SymbolValue(s[3]);
          match DecodeQuads(s[4..])
          case None => None
          case Some(rest) => Some([first, second, third] + rest)
  }

  function Decode(s: bytes): Option<bytes> {
    DecodeQuads(WithoutNewlines(s))
  }

  /** A byte an encoding can contain. */
  predicate IsEncodingByte(c: byte) {
    c == PAD || SymbolValue(c) >= 0
  }

  lemma SymbolReadsBack(n: int)
    requires 0 <= n < 64
    ensures SymbolValue(Symbol(n)) == n && Symbol(n) != PAD
  {
  }

  lemma GroupArithmetic(x: byte, y: byte, z: byte)
    ensures x / 4 * 4 + (x % 4 * 16 + y / 16) / 16 == x
    ensures (x % 4 * 16 + y / 16) % 16 * 16 + (y % 16 * 4 + z / 64) / 4 == y
    ensures (y % 16 * 4 + z / 64) % 4 * 64 + z % 64 == z
  {
  }

  predicate IsSextet(n: int) {
    0 <= n < 64
  }

  // Four symbols in front of anything decodable.
  lemma SymbolsReadBack(a: int, b: int, c: int, d: int, rest: bytes, decoded: bytes)
    requires IsSextet(a) && IsSextet(b) && IsSextet(c) && IsSextet(d)
    requires DecodeQuads(rest) == Some(decoded)
    ensures DecodeQuads([Symbol(a), Symbol(b), Symbol(c), Symbol(d)] + rest)
         == Some([a * 4 + b / 16, b % 16 * 16 + c / 4, c % 4 * 64 + d] + decoded)
  {
    SymbolReadsBack(a);
    SymbolReadsBack(b);
    SymbolReadsBack(c);
    SymbolReadsBack(d);
    assert ([Symbol(a), Symbol(b), Symbol(c), Symbol(d)] + rest)[4..] == rest;
  }

  // One full group of three bytes survives the trip through four symbols.
  lemma GroupReadsBack(x: byte, y: byte, z: byte, rest: bytes, decoded: bytes)
    requires DecodeQuads(rest) == Some(decoded)
    ensures DecodeQuads(Group(x, y, z) + rest) == Some([x, y, z] + decoded)
  {
    SymbolsReadBack(x / 4, x % 4 * 16 + y / 16, y % 16 * 4 + z / 64, z % 64, rest, decoded);
    GroupArithmetic(x, y, z);
  }

  lemma OneReadsBack(x: byte)
    ensures DecodeQuads([Symbol(x / 4), Symbol(x % 4 * 16), PAD, PAD]) == Some([x])
  {
    SymbolReadsBack(x / 4);
    SymbolReadsBack(x % 4 * 16);
  }

  lemma TwoReadBack(x: byte, y: byte)
    ensures DecodeQuads([Symbol(x / 4), Symbol(x % 4 * 16 + y / 16), Symbol(y % 16 * 4), PAD]) == Some([x, y])
  {
    SymbolReadsBack(x / 4);
    SymbolReadsBack(x % 4 * 16 + y / 16);
    SymbolReadsBack(y % 16 * 4);
    var s := [Symbol(x / 4), Symbol(x % 4 * 16 + y / 16), Symbol(y % 16 * 4), PAD];
    assert SymbolValue(s[2]) == y % 16 * 4;
  }

  lemma EncodeShort(b: bytes)
    ensures |b| == 1 ==> Encode(b) == [Symbol(b[0] / 4), Symbol(b[0] % 4 * 16), PAD, PAD]
    ensures |b| == 2 ==> Encode(b) == [Symbol(b[0] / 4), Symbol(b[0] % 4 * 16 + b[1] / 16), Symbol(b[1] % 16 * 4), PAD]
  {
  }

  lemma {:induction false} QuadsReadBack(b: bytes)
    ensures DecodeQuads(Encode(b)) == Some(b)
  {
    if |b| >= 3 {
      QuadsReadBack(b[3..]);
      GroupReadsBack(b[0], b[1], b[2], Encode(b[3..]), b[3..]);
      assert b == [b[0], b[1], b[2]] + b[3..];
    } else if |b| == 2 {
      EncodeShort(b);
      TwoReadBack(b[0], b[1]);
      assert b == [b[0], b[1]];
    } else if |b| == 1 {
      EncodeShort(b);
      OneReadsBack(b[0]);
      assert b == [b[0]];
    }
  }

  lemma {:induction false} EncodeAlphabet(b: bytes)
    ensures forall i :: 0 <= i < |Encode(b)| ==> IsEncodingByte(Encode(b)[i])
    ensures Encode(b) == [] <==> b == []
  {
    if |b| >= 3 { EncodeAlphabet(b[3..]); }
  }

  lemma {:induction false} NothingToSkip(s: bytes)
    requires forall i :: 0 <= i < |s| ==> IsEncodingByte(s[i])
    ensures WithoutNewlines(s) == s
  {
    if s != [] {
      assert IsEncodingByte(s[0]);
      NothingToSkip(s[1..]);
      assert [s[0]] + s[1..] == s;
    }
  }

  /** Decoding undoes encoding. (Not the converse: the decoder also accepts CR, LF and loose trailing bits.) */
  lemma DecodeUndoesEncode(b: bytes)
    ensures Decode(Encode(b)) == Some(b)
  {
    EncodeAlphabet(b);
    NothingToSkip(Encode(b));
    QuadsReadBack(b);
  }

  lemma {:induction false} QuadsRejectForeignBytes(s: bytes, i: nat)
    requires i < |s| && !IsEncodingByte(s[i])
    ensures DecodeQuads(s).None?
  {
    if i >= 4 {
      assert s[4..][i - 4] == s[i];
      QuadsRejectForeignBytes(s[4..], i - 4);
    }
  }

  lemma {:induction false} ForeignByteIsKept(s: bytes, i: nat) returns (j: nat)
    requires i < |s| && s[i] != 0x0A && s[i] != 0x0D
    ensures j < |WithoutNewlines(s)| && WithoutNewlines(s)[j] == s[i]
  {
    if i == 0 {
      j := 0;
    } else {
      j := ForeignByteIsKept(s[1..], i - 1);
      if s[0] != 0x0A && s[0] != 0x0D { j := j + 1; }
    }
  }

  /** A byte outside the alphabet that is not a line break makes the decoder refuse the whole string. */
  lemma ForeignByteIsRefused(s: bytes, c: byte)
    requires c in s && !IsEncodingByte(c) && c != 0x0A && c != 0x0D
    ensures Decode(s).None?
  {
    var i :| 0 <= i < |s| && s[i] == c;
    var j := ForeignByteIsKept(s, i);
    QuadsRejectForeignBytes(WithoutNewlines(s), j);
  }

  /** Encodings never contain a byte from outside the alphabet. */
  lemma EncodeAvoids(b: bytes, c: byte)
    requires !IsEncodingByte(c)
    ensures c !in Encode(b)
  {
    EncodeAlphabet(b);
  }

  // ----- exactly what decodes

  const UPPER: string := "ABCDEFGHIJKLMNOPQRSTUVWXYZ"
  const LOWER: string := "abcdefghijklmnopqrstuvwxyz"
  const DIGITS: string := "0123456789+/"

  /** The alphabet of section 4 of RFC 4648. */
  const ALPHABET: string := UPPER + LOWER + DIGITS

  lemma SymbolInAlphabet(n: int)
    requires 0 <= n < 64
    ensures |ALPHABET| == 64 && Symbol(n) as int == ALPHABET[n] as int
  {
    if n < 26 {
      assert UPPER[n] as int == 65 + n;
    } else if n < 52 {
      assert LOWER[n - 26] as int == 97 + (n - 26);
    } else {
      assert DIGITS[n - 52] as int == if n < 62 then 48 + (n - 52) else if n == 62 then 43 else 47;
    }
  }

  /** It is read in both directions, and nothing else has a value. */
  lemma AlphabetIsStandard(n: int, c: byte)
    requires 0 <= n < 64
    ensures |ALPHABET| == 64 && Symbol(n) as int == ALPHABET[n] as int
    ensures SymbolValue(c) == n <==> c as int == ALPHABET[n] as int
    ensures SymbolValue(c) == -1 <==> forall m :: 0 <= m < 64 ==> c != Symbol(m)
  {
    hide ALPHABET;
    SymbolInAlphabet(n);
    SymbolReadsBack(n);
    if SymbolValue(c) >= 0 { SymbolOfValue(c); }
    hide Symbol, SymbolValue;
    forall m | 0 <= m < 64 ensures SymbolValue(Symbol(m)) == m {
      SymbolReadsBack(m);
    }
  }

  lemma {:induction false} SkipsConcat(a: bytes, b: bytes)
    ensures WithoutNewlines(a + b) == WithoutNewlines(a) + WithoutNewlines(b)
  {
    if a == [] {
      assert a + b == b;
    } else {
      assert (a + b)[1..] == a[1..] + b;
      SkipsConcat(a[1..], b);
    }
  }

  /** A CR or LF anywhere changes nothing. */
  lemma LineBreaksAreSkipped(a: bytes, c: byte, b: bytes)
    requires c == 0x0A || c == 0x0D
    ensures Decode(a + [c] + b) == Decode(a + b)
  {
    SkipsConcat(a + [c], b);
    SkipsConcat(a, [c]);
    SkipsConcat(a, b);
    assert [c][1..] == [] && WithoutNewlines([c]) == [];
    assert WithoutNewlines(a) + [] == WithoutNewlines(a);
  }

  /** The bits of the last symbol that carry data: the decoder does not look at the others. */
  function DataBits(b: bytes, k: nat, n: nat): (unit: int)
    ensures unit >= 1
  {
    if |b| % 3 == 1 && k + 3 == n then 16 else if |b| % 3 == 2 && k + 2 == n then 4 else 1
  }

  /** One character stands for another: the same, or a symbol that agrees in every bit that carries data. */
  predicate StandsFor(c: byte, e: byte, unit: int)
    requires unit >= 1
  {
    c == e || (SymbolValue(c) >= 0 && SymbolValue(e) >= 0 && SymbolValue(c) / unit == SymbolValue(e) / unit)
  }

  /** `t` is the encoding of `b`, but for bits under the padding. */
  ghost predicate EncodesLoosely(t: bytes, b: bytes) {
    |t| == |Encode(b)| && forall k :: 0 <= k < |t| ==> StandsFor(t[k], Encode(b)[k], DataBits(b, k, |t|))
  }

  lemma SameSymbol(c: byte, e: byte)
    requires SymbolValue(e) >= 0
    ensures StandsFor(c, e, 1) <==> c == e
  {
    if SymbolValue(c) == SymbolValue(e) { assert c == Symbol(SymbolValue(c)) && e == Symbol(SymbolValue(e)); }
  }

  lemma {:induction false} EncodedLength(b: bytes)
    ensures |Encode(b)| == (|b| + 2) / 3 * 4
  {
    if |b| >= 3 { EncodedLength(b[3..]); }
  }

  // The last group of one byte: two symbols and two pads.
  lemma DecodesOne(t: bytes, b: bytes)
    requires |b| == 1
    ensures DecodeQuads(t) == Some(b) <==> EncodesLoosely(t, b)
  {
    var x: int := b[0];
    EncodeShort(b);
    SymbolReadsBack(x / 4);
    SymbolReadsBack(x % 4 * 16);
    if |t| == 4 {
      SameSymbol(t[0], Symbol(x / 4));
      assert b == [b[0]];
    }
  }

  // A quad with one pad, unfolded.
  lemma TwoQuad(t: bytes, b: bytes)
    requires |b| == 2
    ensures DecodeQuads(t) == Some(b)
       <==> && |t| == 4 && t[3] == PAD && t[2] != PAD
            && SymbolValue(t[0]) >= 0 && SymbolValue(t[1]) >= 0 && SymbolValue(t[2]) >= 0
            && SymbolValue(t[0]) * 4 + SymbolValue(t[1]) / 16 == b[0]
            && SymbolValue(t[1]) % 16 * 16 + SymbolValue(t[2]) / 4 == b[1]
  {
    hide SymbolValue;
    assert b == [b[0], b[1]];
    if |t| >= 4 && t[2] != PAD && t[3] != PAD && DecodeQuads(t) == Some(b) { UnpaddedQuad(t); }
  }

  lemma TwoSextets(h: int, i: int, j: int, x: byte, y: byte)
    requires IsSextet(h) && IsSextet(i) && IsSextet(j)
    ensures h * 4 + i / 16 == x && i % 16 * 16 + j / 4 == y
       <==> h == x / 4 && i == x % 4 * 16 + y / 16 && j / 4 == y % 16
  {
  }

  // Four characters against the encoding of two bytes.
  lemma TwoStand(t: bytes, b: bytes)
    requires |b| == 2 && |t| == 4
    ensures EncodesLoosely(t, b)
       <==> && t[0] == Symbol(b[0] / 4) && t[1] == Symbol(b[0] % 4 * 16 + b[1] / 16) && t[3] == PAD
            && SymbolValue(t[2]) >= 0 && SymbolValue(t[2]) / 4 == b[1] % 16
  {
    var e := Encode(b);
    EncodeShort(b);
    SymbolReadsBack(b[0] / 4);
    SymbolReadsBack(b[0] % 4 * 16 + b[1] / 16);
    SymbolReadsBack(b[1] % 16 * 4);
    hide Symbol, Encode, SymbolValue;
    SameSymbol(t[0], e[0]);
    SameSymbol(t[1], e[1]);
    PadStands(t[3]);
  }

  lemma PadStands(c: byte)
    ensures StandsFor(c, PAD, 1) <==> c == PAD
  {
  }

  lemma DecodesTwo(t: bytes, b: bytes)
    requires |b| == 2
    ensures DecodeQuads(t) == Some(b) <==> EncodesLoosely(t, b)
  {
    EncodedLength(b);
    TwoQuad(t, b);
    if |t| == 4 {
      TwoStand(t, b);
      PadHasNoValue();
      SymbolReadsBack(b[0] / 4);
      SymbolReadsBack(b[0] % 4 * 16 + b[1] / 16);
      hide DecodeQuads, EncodesLoosely, Symbol, SymbolValue;
      if SymbolValue(t[0]) >= 0 && SymbolValue(t[1]) >= 0 && SymbolValue(t[2]) >= 0 {
        TwoSextets(SymbolValue(t[0]), SymbolValue(t[1]), SymbolValue(t[2]), b[0], b[1]);
        SymbolOfValue(t[0]);
        SymbolOfValue(t[1]);
      }
    }
  }

  lemma PadHasNoValue()
    ensures SymbolValue(PAD) == -1
  {
  }

  /**
   What the decoder accepts, exactly: with CR and LF removed, the encoding of the result, but for the bits
   under the padding, which are not checked.
   */
  lemma DecodesExactly(s: bytes, b: bytes)
    ensures Decode(s) == Some(b) <==> EncodesLoosely(WithoutNewlines(s), b)
  {
    QuadsDecodeExactly(WithoutNewlines(s), b);
  }

  lemma {:induction false} QuadsDecodeExactly(t: bytes, b: bytes)
    ensures DecodeQuads(t) == Some(b) <==> EncodesLoosely(t, b)
    decreases |t|
  {
    if |b| == 0 {
    } else if |b| == 1 {
      DecodesOne(t, b);
    } else if |b| == 2 {
      DecodesTwo(t, b);
    } else if |t| >= 4 {
      QuadsDecodeExactly(t[4..], b[3..]);
      FirstGroup(t, b);
    } else {
      EncodedLength(b);
    }
  }

  // A full group in front: its four characters are exact, and the rest decides.
  lemma FirstGroup(t: bytes, b: bytes)
    requires |t| >= 4 && |b| >= 3
    requires DecodeQuads(t[4..]) == Some(b[3..]) <==> EncodesLoosely(t[4..], b[3..])
    ensures DecodeQuads(t) == Some(b) <==> EncodesLoosely(t, b)
  {
    GroupDecodes(t, b);
    GroupEncodes(t, b);
  }

  lemma GroupDecodes(t: bytes, b: bytes)
    requires |t| >= 4 && |b| >= 3
    ensures DecodeQuads(t) == Some(b) <==> t[..4] == Group(b[0], b[1], b[2]) && DecodeQuads(t[4..]) == Some(b[3..])
  {
    var rest := DecodeQuads(t[4..]);
    assert t == t[..4] + t[4..] && b == [b[0], b[1], b[2]] + b[3..];
    if t[..4] == Group(b[0], b[1], b[2]) && rest == Some(b[3..]) {
      GroupReadsBack(b[0], b[1], b[2], t[4..], b[3..]);
    }
    if DecodeQuads(t) == Some(b) {
      FullQuad(t, b);
    }
  }

  // A padded quad ends the input with one byte or two.
  lemma PaddedIsShort(t: bytes)
    requires |t| >= 4 && (t[2] == PAD || t[3] == PAD)
    ensures DecodeQuads(t).Some? ==> |DecodeQuads(t).value| < 3
  {
    hide SymbolValue;
    if t[2] != PAD { assert SymbolValue(t[3]) >= 0 || t[3] == PAD; }
  }

  lemma UnpaddedQuad(t: bytes)
    requires |t| >= 4 && t[2] != PAD && t[3] != PAD && DecodeQuads(t).Some?
    ensures SymbolValue(t[0]) >= 0 && SymbolValue(t[1]) >= 0 && SymbolValue(t[2]) >= 0 && SymbolValue(t[3]) >= 0
    ensures DecodeQuads(t[4..]).Some?
    ensures var h, i, j, k := SymbolValue(t[0]), SymbolValue(t[1]), SymbolValue(t[2]), SymbolValue(t[3]);
            DecodeQuads(t).value == [h * 4 + i / 16, i % 16 * 16 + j / 4, j % 4 * 64 + k] + DecodeQuads(t[4..]).value
  {
    hide SymbolValue;
  }

  lemma QuadContents(t: bytes, b: bytes)
    requires |t| >= 4 && |b| >= 3 && DecodeQuads(t) == Some(b)
    ensures forall m :: 0 <= m < 4 ==> SymbolValue(t[m]) >= 0
    ensures DecodeQuads(t[4..]).Some?
    ensures var h, i, j, k := SymbolValue(t[0]), SymbolValue(t[1]), SymbolValue(t[2]), SymbolValue(t[3]);
            b == [h * 4 + i / 16, i % 16 * 16 + j / 4, j % 4 * 64 + k] + DecodeQuads(t[4..]).value
  {
    hide DecodeQuads, SymbolValue;
    if t[2] == PAD || t[3] == PAD { PaddedIsShort(t); }
    UnpaddedQuad(t);
  }

  lemma FullQuad(t: bytes, b: bytes)
    requires |t| >= 4 && |b| >= 3 && DecodeQuads(t) == Some(b)
    ensures t[..4] == Group(b[0], b[1], b[2]) && DecodeQuads(t[4..]) == Some(b[3..])
  {
    hide DecodeQuads;
    QuadContents(t, b);
    var h: int, i: int, j: int, k: int := SymbolValue(t[0]), SymbolValue(t[1]), SymbolValue(t[2]), SymbolValue(t[3]);
    assert b[3..] == DecodeQuads(t[4..]).value;
    Sextets(h, i, j, k);
    SymbolOfValue(t[0]);
    SymbolOfValue(t[1]);
    SymbolOfValue(t[2]);
    SymbolOfValue(t[3]);
  }

  lemma SymbolOfValue(c: byte)
    requires SymbolValue(c) >= 0
    ensures Symbol(SymbolValue(c)) == c
  {
  }

  lemma Sextets(h: int, i: int, j: int, k: int)
    requires IsSextet(h) && IsSextet(i) && IsSextet(j) && IsSextet(k)
    ensures var x, y, z := h * 4 + i / 16, i % 16 * 16 + j / 4, j % 4 * 64 + k;
            h == x / 4 && i == x % 4 * 16 + y / 16 && j == y % 16 * 4 + z / 64 && k == z % 64
  {
  }

  lemma EncodeSplits(b: bytes)
    requires |b| >= 3
    ensures Encode(b) == Group(b[0], b[1], b[2]) + Encode(b[3..])
    ensures Encode(b)[..4] == Group(b[0], b[1], b[2]) && Encode(b)[4..] == Encode(b[3..])
  {
  }

  lemma ExactInFront(b: bytes, n: nat, k: nat)
    requires |b| >= 3 && k < 4 && n == (|b| + 2) / 3 * 4
    ensures DataBits(b, k, n) == 1
  {
  }

  lemma BitsShift(b: bytes, k: nat, n: nat)
    requires |b| >= 3 && n >= 4
    ensures DataBits(b[3..], k, n - 4) == DataBits(b, k + 4, n)
  {
  }

  lemma GroupEncodes(t: bytes, b: bytes)
    requires |t| >= 4 && |b| >= 3
    ensures EncodesLoosely(t, b) <==> t[..4] == Group(b[0], b[1], b[2]) && EncodesLoosely(t[4..], b[3..])
  {
    hide StandsFor, DataBits, Group;
    var e, rest := Encode(b), Encode(b[3..]);
    EncodedLength(b);
    EncodeSplits(b);
    hide Encode;
    if |t| == |e| {
      forall k | 0 <= k < 4 ensures StandsFor(t[k], e[k], DataBits(b, k, |t|)) <==> t[k] == e[k] {
        GroupIsSymbols(b[0], b[1], b[2], k);
        assert e[..4][k] == e[k];
        ExactInFront(b, |t|, k);
        SameSymbol(t[k], e[k]);
      }
      forall k | 0 <= k < |rest|
        ensures StandsFor(t[4..][k], rest[k], DataBits(b[3..], k, |rest|))
           <==> StandsFor(t[k + 4], e[k + 4], DataBits(b, k + 4, |t|))
      {
        BitsShift(b, k, |t|);
      }
      GroupEncodesHere(t, b, e, rest);
    }
  }

  lemma GroupEncodesHere(t: bytes, b: bytes, e: bytes, rest: bytes)
    requires |t| == |e| >= 4 && |b| >= 3 && e == Encode(b) && rest == Encode(b[3..]) && e[4..] == rest
    requires e[..4] == Group(b[0], b[1], b[2])
    requires forall k :: 0 <= k < 4 ==> (StandsFor(t[k], e[k], DataBits(b, k, |t|)) <==> t[k] == e[k])
    requires forall k :: 0 <= k < |rest| ==> (StandsFor(t[4..][k], rest[k], DataBits(b[3..], k, |rest|))
                                              <==> StandsFor(t[k + 4], e[k + 4], DataBits(b, k + 4, |t|)))
    ensures EncodesLoosely(t, b) <==> t[..4] == Group(b[0], b[1], b[2]) && EncodesLoosely(t[4..], b[3..])
  {
    hide StandsFor, DataBits, Encode;
    if t[..4] == e[..4] {
      assert forall k :: 0 <= k < 4 ==> t[k] == t[..4][k] && e[k] == e[..4][k];
    }
    if EncodesLoosely(t[4..], b[3..]) && t[..4] == e[..4] {
      forall k | 0 <= k < |t| ensures StandsFor(t[k], e[k], DataBits(b, k, |t|)) {
        if k >= 4 { assert StandsFor(t[4..][k - 4], rest[k - 4], DataBits(b[3..], k - 4, |rest|)); }
      }
    }
    if EncodesLoosely(t, b) {
      forall k | 0 <= k < |rest| ensures StandsFor(t[4..][k], rest[k], DataBits(b[3..], k, |rest|)) {
        assert StandsFor(t[k + 4], e[k + 4], DataBits(b, k + 4, |t|));
      }
    }
  }

  lemma GroupIsSymbols(x: byte, y: byte, z: byte, k: nat)
    requires k < 4
    ensures SymbolValue(Group(x, y, z)[k]) >= 0
  {
    SymbolReadsBack(x / 4);
    SymbolReadsBack(x % 4 * 16 + y / 16);
    SymbolReadsBack(y % 16 * 4 + z / 64);
    SymbolReadsBack(z % 64);
  }
}
