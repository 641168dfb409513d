/**
 The unsigned framing of an offline checkout file: the `alg` strings of both file kinds and the two
 layouts of `enc` (checkout_license.go, checkout_machine.go).
 */
module WireFormat {
  import opened Wrappers
  import opened Bytes
  import Base64

  const PLUS: byte := 0x2B
  const DOT: byte := 0x2E

  const V2_MARKER: bytes := Ascii("v2")
  const PLAIN_PREFIX: bytes := Ascii("base64")
  const ENCRYPTED_PREFIX: bytes := Ascii("aes-256-gcm")
  const ED25519_SUFFIX: bytes := Ascii("ed25519")

  const NONCE_SIZE: nat := 12
  const TAG_SIZE: nat := 16

  // ----- alg

  /** `prefix+suffix+v2`. */
  function PrintAlg(prefix: bytes, suffix: bytes): bytes {
    prefix + [PLUS] + suffix + [PLUS] + V2_MARKER
  }

  /** Go's `strings.LastIndex(s, sep)` for a one-byte separator; -1 when absent. */
  function LastIndex(s: bytes, sep: byte): (i: int)
    ensures -1 <= i < |s|
    ensures i >= 0 ==> s[i] == sep
    ensures forall k :: i < k < |s| ==> s[k] != sep
  {
    if s == [] then -1
    else if s[|s| - 1] == sep then |s| - 1
    else LastIndex(s[..|s| - 1], sep)
  }

  /** `parseMachineFileAlg`: cut at the first plus, then at the last one of what remains. */
  function ParseMachineAlg(alg: bytes): Option<(bytes, bytes)> {
    match Cut(alg, PLUS)
    case None => None
    case Some((prefix, rest)) =>
      var sep := LastIndex(rest, PLUS);
      if sep < 0 then None
      else
        var suffix, marker := rest[..sep], rest[sep + 1..];
        if marker != V2_MARKER || prefix == [] || suffix == [] then None
        else Some((prefix, suffix))
  }

  predicate IsAlgPair(prefix: bytes, suffix: bytes) {
    prefix != [] && PLUS !in prefix && suffix != []
  }

  lemma MarkerIsPlusFree()
    ensures V2_MARKER == [0x76, 0x32] && PLUS !in V2_MARKER
  {
    assert V2_MARKER == [0x76, 0x32];
  }

  lemma {:induction false} LastIndexBeforeMarker(suffix: bytes, marker: bytes)
    requires PLUS !in marker
    ensures LastIndex(suffix + [PLUS] + marker, PLUS) == |suffix|
  {
    if marker != [] {
      var shorter := marker[..|marker| - 1];
      var s := suffix + [PLUS] + marker;
      assert s[..|s| - 1] == suffix + [PLUS] + shorter;
      LastIndexBeforeMarker(suffix, shorter);
    }
  }

  /** The parser inverts the printer. */
  lemma ParseUndoesPrint(prefix: bytes, suffix: bytes)
    requires IsAlgPair(prefix, suffix)
    ensures ParseMachineAlg(PrintAlg(prefix, suffix)) == Some((prefix, suffix))
  {
    var rest := suffix + [PLUS] + V2_MARKER;
    assert PrintAlg(prefix, suffix) == prefix + [PLUS] + rest;
    CutJoined(prefix, PLUS, rest);
    MarkerIsPlusFree();
    LastIndexBeforeMarker(suffix, V2_MARKER);
    assert rest[..|suffix|] == suffix && rest[|suffix| + 1..] == V2_MARKER;
  }

  lemma ParsedIsPrinted(alg: bytes, prefix: bytes, suffix: bytes)
    requires ParseMachineAlg(alg) == Some((prefix, suffix))
    ensures IsAlgPair(prefix, suffix) && alg == PrintAlg(prefix, suffix)
  {
    hide V2_MARKER, LastIndex;
    var rest := Cut(alg, PLUS).value.1;
    var sep := LastIndex(rest, PLUS);
    assert rest == rest[..sep] + [PLUS] + rest[sep + 1..];
    assert alg == prefix + [PLUS] + (suffix + [PLUS] + V2_MARKER);
  }

  /** It accepts nothing but printed pairs, and reads each in one way only. */
  lemma ParsesExactlyPrintedAlgs(alg: bytes, prefix: bytes, suffix: bytes)
    ensures ParseMachineAlg(alg) == Some((prefix, suffix))
       <==> IsAlgPair(prefix, suffix) && alg == PrintAlg(prefix, suffix)
  {
    if IsAlgPair(prefix, suffix) && alg == PrintAlg(prefix, suffix) {
      ParseUndoesPrint(prefix, suffix);
    }
    if ParseMachineAlg(alg) == Some((prefix, suffix)) { ParsedIsPrinted(alg, prefix, suffix); }
  }

  const ALG_PLAIN: bytes := PrintAlg(PLAIN_PREFIX, ED25519_SUFFIX)
  const ALG_ENCRYPTED: bytes := PrintAlg(ENCRYPTED_PREFIX, ED25519_SUFFIX)

  /** `validateLicenseFileAlg`. */
  predicate LicenseAlgAllowed(alg: bytes) {
    alg == ALG_PLAIN || alg == ALG_ENCRYPTED
  }

  lemma PrefixesArePairs()
    ensures IsAlgPair(PLAIN_PREFIX, ED25519_SUFFIX) && IsAlgPair(ENCRYPTED_PREFIX, ED25519_SUFFIX)
    ensures PLAIN_PREFIX != ENCRYPTED_PREFIX
  {
    assert forall i :: 0 <= i < |PLAIN_PREFIX| ==> PLAIN_PREFIX[i] == Code("base64"[i]);
    assert forall i :: 0 <= i < |ENCRYPTED_PREFIX| ==> ENCRYPTED_PREFIX[i] == Code("aes-256-gcm"[i]);
    assert PLAIN_PREFIX[0] == 0x62 && ENCRYPTED_PREFIX[0] == 0x61;
  }

  /** The printed form of two literal parts. */
  lemma PrintedText(prefix: string, suffix: string, text: string)
    requires forall i :: 0 <= i < |prefix| ==> IsAscii(prefix[i])
    requires forall i :: 0 <= i < |suffix| ==> IsAscii(suffix[i])
    requires text == prefix + "+" + suffix + "+v2"
    ensures forall i :: 0 <= i < |text| ==> IsAscii(text[i])
    ensures PrintAlg(Ascii(prefix), Ascii(suffix)) == Ascii(text)
  {
    assert |text| == |prefix| + 1 + |suffix| + 3;
  }

  /** The two algs of a license file, in full. */
  lemma LicenseAlgsExactly(alg: bytes)
    ensures LicenseAlgAllowed(alg) <==> alg == Ascii("base64+ed25519+v2") || alg == Ascii("aes-256-gcm+ed25519+v2")
  {
    hide PrintAlg, Ascii;
    PrintedText("base64", "ed25519", "base64+ed25519+v2");
    PrintedText("aes-256-gcm", "ed25519", "aes-256-gcm+ed25519+v2");
  }

  /** The license gate accepts exactly the algs the machine parser reads as Ed25519 under one of the two encodings. */
  lemma LicenseGateAgreesWithParser(alg: bytes)
    ensures LicenseAlgAllowed(alg) <==> exists prefix :: (prefix == PLAIN_PREFIX || prefix == ENCRYPTED_PREFIX)
                                                        && ParseMachineAlg(alg) == Some((prefix, ED25519_SUFFIX))
  {
    PrefixesArePairs();
    ParsesExactlyPrintedAlgs(alg, PLAIN_PREFIX, ED25519_SUFFIX);
    ParsesExactlyPrintedAlgs(alg, ENCRYPTED_PREFIX, ED25519_SUFFIX);
  }

  // ----- enc

  datatype SplitError = NoDot | SecondDot | BadNonce | BadCiphertext | TooShort

  /** `splitEncryptedEnc`: two base64 halves joined by a dot. */
  function SplitEncryptedEnc(enc: bytes): Result<(bytes, bytes), SplitError> {
    match Cut(enc, DOT)
    case None => Err(NoDot)
    case Some((nonceB64, cipherB64)) =>
      if DOT in cipherB64 then Err(SecondDot)
      else match Base64.Decode(nonceB64)
           case None => Err(BadNonce)
           case Some(nonce) =>
             match Base64.Decode(cipherB64)
             case None => Err(BadCiphertext)
             case Some(cipher) =>
               if |cipher| < TAG_SIZE then Err(TooShort) else Ok((nonce, cipher))
  }

  /** Splitting undoes joining, for every nonce and every ciphertext that can hold a tag. */
  lemma SplitUndoesJoin(nonce: bytes, cipher: bytes)
    requires |cipher| >= 16
    ensures SplitEncryptedEnc(Base64.Encode(nonce) + [DOT] + Base64.Encode(cipher)) == Ok((nonce, cipher))
  {
    Base64.EncodeAvoids(nonce, DOT);
    Base64.EncodeAvoids(cipher, DOT);
    CutJoined(Base64.Encode(nonce), DOT, Base64.Encode(cipher));
    Base64.DecodeUndoesEncode(nonce);
    Base64.DecodeUndoesEncode(cipher);
  }

  /** `enc` is two halves around its only dot, and they decode to these. */
  ghost predicate Halves(enc: bytes, nonce: bytes, cipher: bytes) {
    exists a, b :: enc == a + [0x2E] + b && 0x2E !in a && 0x2E !in b
                   && Base64.Decode(a) == Some(nonce) && Base64.Decode(b) == Some(cipher)
  }

  /** It reads two decodable halves around one dot, the second of at least 16 bytes, and nothing else. */
  lemma SplitsExactly(enc: bytes, nonce: bytes, cipher: bytes)
    ensures SplitEncryptedEnc(enc) == Ok((nonce, cipher)) <==> Halves(enc, nonce, cipher) && |cipher| >= 16
    ensures Halves(enc, nonce, cipher) && |cipher| < 16 ==> SplitEncryptedEnc(enc) == Err(TooShort)
  {
    hide Base64.Decode;
    forall a, b | enc == a + [0x2E] + b && 0x2E !in a && 0x2E !in b ensures Cut(enc, DOT) == Some((a, b)) {
      CutJoined(a, DOT, b);
    }
  }

  /** No `enc` is readable both as one base64 blob and as two dotted halves. */
  lemma LayoutsAreDisjoint(enc: bytes)
    ensures Base64.Decode(enc).None? || SplitEncryptedEnc(enc).Err?
  {
    if DOT in enc { Base64.ForeignByteIsRefused(enc, DOT); }
  }

  /** A license file's single blob: nonce, then ciphertext and tag. */
  function SplitBlob(blob: bytes): Option<(bytes, bytes)> {
    if |blob| < NONCE_SIZE + TAG_SIZE then None else Some((blob[..NONCE_SIZE], blob[NONCE_SIZE..]))
  }

  lemma BlobReadsBack(nonce: bytes, cipher: bytes)
    requires |nonce| == 12 && |cipher| >= 16
    ensures Base64.Decode(Base64.Encode(nonce + cipher)) == Some(nonce + cipher)
    ensures SplitBlob(nonce + cipher) == Some((nonce, cipher))
  {
    Base64.DecodeUndoesEncode(nonce + cipher);
  }
}
