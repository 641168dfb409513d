/**
 Offline verification of .lic and .machine files against one key (checkout_license.go,
 checkout_machine.go). Every entry point returns its outcome together with the steps it ran, so
 that the order in which untrusted bytes are touched can be stated. Cryptography, key derivation
 and JSON parsing are the fields of `Primitives`: uninterpreted, deterministic functions.
 */
module Checkout {
  import opened Wrappers
  import opened Bytes
  import opened WireFormat
  import opened SigningKeys
  import Base64

  // ----- int64

  const MIN_INT64: int := -0x8000_0000_0000_0000
  const MAX_INT64: int := 0x7FFF_FFFF_FFFF_FFFF

  type int64 = x: int | MIN_INT64 <= x <= MAX_INT64

  /** Two's-complement wrap-around. */
  function Wrap64(x: int): int64 {
    var r := x % 0x1_0000_0000_0000_0000;
    if r > MAX_INT64 then r - 0x1_0000_0000_0000_0000 else r
  }

  // ----- what is left uninterpreted

  datatype Claims = Claims(jti: bytes, kid: bytes, iat: int64, exp: int64)

  datatype Payload = Payload(data: bytes, claims: Claims)

  datatype Primitives = Primitives(
    ed25519: (bytes, bytes, bytes) -> bool,
    rsaPkcs1: (bytes, bytes, bytes) -> bool,
    rsaPss: (bytes, bytes, bytes) -> bool,
    ecdsaP256: (bytes, bytes, bytes) -> bool,
    licenseFileKey: bytes -> Option<bytes>,
    machineFileKey: (bytes, bytes) -> Option<bytes>,
    gcmOpen: (bytes, bytes, bytes) -> Option<bytes>,
    // The {"data", "meta"} document of each file kind: its data, and its claims if present.
    licensePayload: bytes -> Option<(bytes, Option<Claims>)>,
    machinePayload: bytes -> Option<(bytes, Option<Claims>)>,
    // Only the claims of a document, whatever its data.
    claimsProbe: bytes -> Option<Option<Claims>>,
    keyId: KeyIdFunction)

  /** internal/crypto's VerifyEd25519: a key of the wrong size verifies nothing. */
  predicate VerifyEd25519(p: Primitives, pub: bytes, message: bytes, sig: bytes) {
    |pub| == PUBLIC_KEY_SIZE && p.ed25519(pub, message, sig)
  }

  // ----- outcomes

  datatype FileError =
    | UnsupportedAlgorithm
    | SchemeNotSupported
    | UnrecognizedScheme
    | AlgSuffixMismatch
    | MalformedSignature
    | WrongKeyType
    | InvalidSignature
    | MalformedEnc
    | LicenseKeyRequired
    | FingerprintRequired
    | KeyDerivationFailed
    | PayloadTooShort
    | BadNonceLength
    | DecryptionFailed
    | MalformedJson
    | MissingClaims
    | Expired(exp: int64)
    | NoUsableSigningKey
    | UnknownSigningKey(kid: bytes, available: seq<bytes>)

  datatype Step =
    | AlgGate
    | DecodeSig
    | CheckSig(key: bytes, passed: bool)
    | DecodeEnc
    | DeriveKey
    | Decrypt
    | ParsePayload
    | CheckExpiry
    | ProbeKid

  /** The steps that read bytes taken from `enc`. */
  predicate TouchesPayload(s: Step) {
    s.DecodeEnc? || s.Decrypt? || s.ParsePayload? || s.CheckExpiry? || s.ProbeKid?
  }

  /** All steps do but the gate, everything about the signature, and deriving a key from the caller's credentials. */
  lemma WhatTouchesPayload(s: Step)
    ensures !TouchesPayload(s) <==> s == AlgGate || s == DecodeSig || s.CheckSig? || s == DeriveKey
  {
  }

  datatype Run<+T> = Run(result: Result<T, FileError>, steps: seq<Step>)

  function Fails<T>(steps: seq<Step>, e: FileError): Run<T> {
    Run(Err(e), steps)
  }

  // ----- license files

  datatype LicenseFile = LicenseFile(enc: bytes, sig: bytes, alg: bytes)

  /** internal/crypto's OpenAESGCM. */
  function OpenAesGcm(p: Primitives, key: bytes, nonce: bytes, cipher: bytes): Result<bytes, FileError> {
    if |nonce| != NONCE_SIZE then Err(BadNonceLength)
    else match p.gcmOpen(key, nonce, cipher)
         case None => Err(DecryptionFailed)
         case Some(plain) => Ok(plain)
  }

  /** `(*LicenseFile).decodePlaintext`. */
  function DecodeLicense(p: Primitives, f: LicenseFile, licenseKey: bytes): Run<bytes> {
    match Base64.Decode(f.enc)
    case None => Fails([DecodeEnc], MalformedEnc)
    case Some(blob) =>
      if f.alg == ALG_PLAIN then Run(Ok(blob), [DecodeEnc])
      else if f.alg == ALG_ENCRYPTED then
        if licenseKey == [] then Fails([DecodeEnc], LicenseKeyRequired)
        else match p.licenseFileKey(licenseKey)
             case None => Fails([DecodeEnc, DeriveKey], KeyDerivationFailed)
             case Some(key) =>
               match SplitBlob(blob)
               case None => Fails([DecodeEnc, DeriveKey], PayloadTooShort)
               case Some((nonce, cipher)) =>
                 Run(OpenAesGcm(p, key, nonce, cipher), [DecodeEnc, DeriveKey, Decrypt])
      else Fails([DecodeEnc], UnsupportedAlgorithm)
  }

  const CLOCK_SKEW: int := 60

  /** The expiry test, in int64 arithmetic. */
  predicate IsExpired(now: int64, exp: int64) {
    exp != 0 && Wrap64(now - CLOCK_SKEW) > exp
  }

  /** `payloadFrom`, the same in both file kinds. */
  function PayloadFrom(parsed: Option<(bytes, Option<Claims>)>, now: int64): Run<Payload> {
    match parsed
    case None => Fails([ParsePayload], MalformedJson)
    case Some((data, meta)) =>
      match meta
      case None => Fails([ParsePayload], MissingClaims)
      case Some(claims) =>
        if IsExpired(now, claims.exp) then Fails([ParsePayload, CheckExpiry], Expired(claims.exp))
        else Run(Ok(Payload(data, claims)), [ParsePayload, CheckExpiry])
  }

  /** Everything that follows a passed signature check. */
  function Open(decoded: Run<bytes>, parse: bytes -> Option<(bytes, Option<Claims>)>, now: int64): Run<Payload> {
    match decoded.result
    case Err(e) => Fails(decoded.steps, e)
    case Ok(plain) =>
      var payload := PayloadFrom(parse(plain), now);
      Run(payload.result, decoded.steps + payload.steps)
  }

  /** `(*LicenseFile).Verify`. */
  function VerifyLicense(p: Primitives, f: LicenseFile, pub: bytes, licenseKey: bytes, now: int64): Run<Payload> {
    if !LicenseAlgAllowed(f.alg) then Fails([AlgGate], UnsupportedAlgorithm)
    else match Base64.Decode(f.sig)
         case None => Fails([AlgGate, DecodeSig], MalformedSignature)
         case Some(sig) =>
           var passed := VerifyEd25519(p, pub, f.enc, sig);
           var checked := [AlgGate, DecodeSig, CheckSig(pub, passed)];
           if !passed then Fails(checked, InvalidSignature)
           else
             var content := Open(DecodeLicense(p, f, licenseKey), p.licensePayload, now);
             Run(content.result, checked + content.steps)
  }

  // ----- machine files

  datatype Scheme = Ed25519Sign | Rsa2048Pkcs1Sign | Rsa2048PkcsPssSign | EcdsaP256Sign | Rsa2048JwtRs256 | OtherScheme

  /** A Go `crypto.PublicKey`; `NoKey` is nil, a typed nil, or any other type. */
  datatype PublicKey = Ed25519Key(raw: bytes) | RsaKey(raw: bytes) | EcdsaKey(raw: bytes) | NoKey

  datatype MachineFile = MachineFile(enc: bytes, sig: bytes, alg: bytes)

  const RSA_SUFFIX: bytes := Ascii("rsa-sha256")
  const RSA_PSS_SUFFIX: bytes := Ascii("rsa-pss-sha256")
  const ECDSA_SUFFIX: bytes := Ascii("ecdsa-p256")

  function SchemeAlgSuffix(scheme: Scheme): Option<bytes> {
    match scheme
    case Ed25519Sign => Some(ED25519_SUFFIX)
    case Rsa2048Pkcs1Sign => Some(RSA_SUFFIX)
    case Rsa2048JwtRs256 => Some(RSA_SUFFIX)
    case Rsa2048PkcsPssSign => Some(RSA_PSS_SUFFIX)
    case EcdsaP256Sign => Some(ECDSA_SUFFIX)
    case OtherScheme => None
  }

  /** `verifyMachineFileSignature`: the scheme chooses the primitive, the key must have its type. */
  function VerifyMachineSignature(p: Primitives, scheme: Scheme, pub: PublicKey, message: bytes, sig: bytes)
    : Result<bool, FileError>
  {
    match (scheme, pub)
    case (Ed25519Sign, Ed25519Key(raw)) => Ok(VerifyEd25519(p, raw, message, sig))
    case (Rsa2048Pkcs1Sign, RsaKey(raw)) => Ok(p.rsaPkcs1(raw, message, sig))
    case (Rsa2048PkcsPssSign, RsaKey(raw)) => Ok(p.rsaPss(raw, message, sig))
    case (EcdsaP256Sign, EcdsaKey(raw)) => Ok(p.ecdsaP256(raw, message, sig))
    case (Rsa2048JwtRs256, _) => Err(SchemeNotSupported)
    case (OtherScheme, _) => Err(UnrecognizedScheme)
    case (_, _) => Err(WrongKeyType)
  }

  /** `(*MachineFile).decodePlaintext`. */
  function DecodeMachine(p: Primitives, enc: bytes, prefix: bytes, licenseKey: bytes, fingerprint: bytes): Run<bytes> {
    if prefix == PLAIN_PREFIX then
      match Base64.Decode(enc)
      case None => Fails([DecodeEnc], MalformedEnc)
      case Some(plain) => Run(Ok(plain), [DecodeEnc])
    else if prefix == ENCRYPTED_PREFIX then
      if licenseKey == [] then Fails([], LicenseKeyRequired)
      else if fingerprint == [] then Fails([], FingerprintRequired)
      else match SplitEncryptedEnc(enc)
           case Err(TooShort) => Fails([DecodeEnc], PayloadTooShort)
           case Err(_) => Fails([DecodeEnc], MalformedEnc)
           case Ok((nonce, cipher)) =>
             match p.machineFileKey(licenseKey, fingerprint)
             case None => Fails([DecodeEnc, DeriveKey], KeyDerivationFailed)
             case Some(key) => Run(OpenAesGcm(p, key, nonce, cipher), [DecodeEnc, DeriveKey, Decrypt])
    else Fails([], UnsupportedAlgorithm)
  }

  /** The gate both machine entry points run: the alg's encoding prefix, once scheme and suffix agree. */
  function MachineGate(alg: bytes, scheme: Scheme): Result<bytes, FileError> {
    if scheme == Rsa2048JwtRs256 then Err(SchemeNotSupported)
    else match ParseMachineAlg(alg)
         case None => Err(UnsupportedAlgorithm)
         case Some((prefix, suffix)) =>
           match SchemeAlgSuffix(scheme)
           case None => Err(UnrecognizedScheme)
           case Some(expected) => if suffix != expected then Err(AlgSuffixMismatch) else Ok(prefix)
  }

  function RawKey(pub: PublicKey): bytes {
    if pub.NoKey? then [] else pub.raw
  }

  /** `(*MachineFile).Verify`. */
  function VerifyMachine(p: Primitives, f: MachineFile, scheme: Scheme, pub: PublicKey, licenseKey: bytes,
                         fingerprint: bytes, now: int64): Run<Payload>
  {
    match MachineGate(f.alg, scheme)
    case Err(e) => Fails([AlgGate], e)
    case Ok(prefix) =>
      match Base64.Decode(f.sig)
      case None => Fails([AlgGate, DecodeSig], MalformedSignature)
      case Some(sig) =>
        match VerifyMachineSignature(p, scheme, pub, f.enc, sig)
        case Err(e) => Fails([AlgGate, DecodeSig], e)
        case Ok(passed) =>
          var checked := [AlgGate, DecodeSig, CheckSig(RawKey(pub), passed)];
          if !passed then Fails(checked, InvalidSignature)
          else
            var content := Open(DecodeMachine(p, f.enc, prefix, licenseKey, fingerprint), p.machinePayload, now);
            Run(content.result, checked + content.steps)
  }

  // ----- expiry

  /** A file is never accepted past its expiry, not even where the subtraction wraps. */
  lemma AcceptedMeansNotExpired(now: int64, exp: int64)
    requires exp != 0 && !IsExpired(now, exp)
    ensures now - 60 <= exp
  {
  }

  /** The int64 test agrees with the exact one unless the clock is within 60 s of the smallest int64. */
  lemma ExpiryIsExact(now: int64, exp: int64)
    requires exp != 0
    ensures (IsExpired(now, exp) <==> now - 60 > exp)
       <==> (now >= MIN_INT64 + 60 || exp >= now - 60 + 0x1_0000_0000_0000_0000)
  {
  }

  /** Within 60 s of the smallest int64 the subtraction wraps, and a file good for ages reads as expired. */
  lemma ExpiryCanWrap()
    ensures IsExpired(MIN_INT64, 1) && !(MIN_INT64 - 60 > 1)
  {
  }

  // ----- fail-closed order

  /** No payload byte is read before some signature check has passed. */
  ghost predicate FailClosed(steps: seq<Step>) {
    forall k :: 0 <= k < |steps| && TouchesPayload(steps[k])
                ==> exists j :: 0 <= j < k && steps[j].CheckSig? && steps[j].passed
  }

  lemma PassedCheckFirst(before: seq<Step>, key: bytes, after: seq<Step>)
    requires forall k :: 0 <= k < |before| ==> !TouchesPayload(before[k])
    ensures FailClosed(before + [CheckSig(key, true)] + after)
  {
    var steps := before + [CheckSig(key, true)] + after;
    assert steps[|before|] == CheckSig(key, true);
    assert forall k :: 0 <= k < |before| ==> steps[k] == before[k];
  }

  lemma CheckedThenRead(key: bytes, after: seq<Step>)
    ensures FailClosed([AlgGate, DecodeSig, CheckSig(key, true)] + after)
  {
    PassedCheckFirst([AlgGate, DecodeSig], key, after);
    assert [AlgGate, DecodeSig] + [CheckSig(key, true)] + after == [AlgGate, DecodeSig, CheckSig(key, true)] + after;
  }

  lemma LicenseIsFailClosed(p: Primitives, f: LicenseFile, pub: bytes, licenseKey: bytes, now: int64)
    ensures FailClosed(VerifyLicense(p, f, pub, licenseKey, now).steps)
  {
    CheckedThenRead(pub, Open(DecodeLicense(p, f, licenseKey), p.licensePayload, now).steps);
  }

  lemma MachineIsFailClosed(p: Primitives, f: MachineFile, scheme: Scheme, pub: PublicKey, licenseKey: bytes,
                            fingerprint: bytes, now: int64)
    ensures FailClosed(VerifyMachine(p, f, scheme, pub, licenseKey, fingerprint, now).steps)
  {
    var gate := MachineGate(f.alg, scheme);
    if gate.Ok? {
      var decoded := DecodeMachine(p, f.enc, gate.value, licenseKey, fingerprint);
      CheckedThenRead(RawKey(pub), Open(decoded, p.machinePayload, now).steps);
      MachineSteps(p, f, scheme, pub, licenseKey, fingerprint, now, decoded);
    }
  }

  lemma MachineSteps(p: Primitives, f: MachineFile, scheme: Scheme, pub: PublicKey, licenseKey: bytes,
                     fingerprint: bytes, now: int64, decoded: Run<bytes>)
    requires MachineGate(f.alg, scheme).Ok?
    requires decoded == DecodeMachine(p, f.enc, MachineGate(f.alg, scheme).value, licenseKey, fingerprint)
    ensures var steps := VerifyMachine(p, f, scheme, pub, licenseKey, fingerprint, now).steps;
            || steps == [AlgGate, DecodeSig]
            || steps == [AlgGate, DecodeSig, CheckSig(RawKey(pub), false)]
            || steps == [AlgGate, DecodeSig, CheckSig(RawKey(pub), true)] + Open(decoded, p.machinePayload, now).steps
  {
  }

  // ----- a failed check reveals nothing of the payload

  /** `p` and `q` check signatures alike; they may decrypt, derive, parse and probe differently. */
  ghost predicate SignaturesAgree(p: Primitives, q: Primitives) {
    && (forall key, message, sig :: p.ed25519(key, message, sig) == q.ed25519(key, message, sig))
    && (forall key, message, sig :: p.rsaPkcs1(key, message, sig) == q.rsaPkcs1(key, message, sig))
    && (forall key, message, sig :: p.rsaPss(key, message, sig) == q.rsaPss(key, message, sig))
    && (forall key, message, sig :: p.ecdsaP256(key, message, sig) == q.ecdsaP256(key, message, sig))
  }

  /**
   Unless the signature verifies, the whole outcome is independent of what decrypting, deriving a key and
   parsing would have given: none of them can have been consulted.
   */
  lemma UnsignedLicenseIsUnread(p: Primitives, q: Primitives, f: LicenseFile, pub: bytes, licenseKey: bytes,
                                licenseKey': bytes, now: int64, now': int64)
    requires SignaturesAgree(p, q)
    requires forall sig :: Base64.Decode(f.sig) == Some(sig) ==> !VerifyEd25519(p, pub, f.enc, sig)
    ensures VerifyLicense(p, f, pub, licenseKey, now) == VerifyLicense(q, f, pub, licenseKey', now')
  {
  }

  lemma UnsignedMachineIsUnread(p: Primitives, q: Primitives, f: MachineFile, scheme: Scheme, pub: PublicKey,
                                licenseKey: bytes, licenseKey': bytes, fingerprint: bytes, fingerprint': bytes,
                                now: int64, now': int64)
    requires SignaturesAgree(p, q)
    requires forall sig :: Base64.Decode(f.sig) == Some(sig)
                           ==> VerifyMachineSignature(p, scheme, pub, f.enc, sig) != Ok(true)
    ensures VerifyMachine(p, f, scheme, pub, licenseKey, fingerprint, now)
         == VerifyMachine(q, f, scheme, pub, licenseKey', fingerprint', now')
  {
    hide DecodeMachine, MachineGate, PayloadFrom;
  }

  // ----- the unsigned alg prefix

  /**
   The encoding prefix is outside the signature, yet flipping it gains nothing: whatever keys are
   held, no `enc` decodes under both prefixes.
   */
  lemma FlippingThePrefixFails(p: Primitives, enc: bytes, lk: bytes, fp: bytes, lk': bytes, fp': bytes)
    ensures DecodeMachine(p, enc, PLAIN_PREFIX, lk, fp).result.Err?
         || DecodeMachine(p, enc, ENCRYPTED_PREFIX, lk', fp').result.Err?
  {
    LayoutsAreDisjoint(enc);
    PrefixesArePairs();
  }

  /**
   An unknown encoding prefix passes the gate: it is refused as unsupported only once the signature
   has verified, and as a bad signature otherwise.
   */
  lemma UnknownPrefixIsFoundAfterTheSignature(p: Primitives, f: MachineFile, prefix: bytes, scheme: Scheme,
                                              pub: PublicKey, sig: bytes, lk: bytes, fp: bytes, now: int64)
    requires MachineGate(f.alg, scheme) == Ok(prefix) && prefix != PLAIN_PREFIX && prefix != ENCRYPTED_PREFIX
    requires Base64.Decode(f.sig) == Some(sig) && VerifyMachineSignature(p, scheme, pub, f.enc, sig).Ok?
    ensures VerifyMachine(p, f, scheme, pub, lk, fp, now).result
         == Err(if VerifyMachineSignature(p, scheme, pub, f.enc, sig).value then UnsupportedAlgorithm
                else InvalidSignature)
  {
  }

  /** A well-formed v2 alg, whatever its parts name. */
  ghost predicate IsV2Alg(alg: bytes) {
    exists prefix, suffix :: IsAlgPair(prefix, suffix) && alg == PrintAlg(prefix, suffix)
  }

  /** A v2 alg of this scheme whose encoding prefix is neither of the two. */
  ghost predicate HasUnknownPrefix(alg: bytes, scheme: Scheme) {
    && SchemeAlgSuffix(scheme).Some?
    && exists prefix :: prefix != PLAIN_PREFIX && prefix != ENCRYPTED_PREFIX
                        && IsAlgPair(prefix, SchemeAlgSuffix(scheme).value)
                        && alg == PrintAlg(prefix, SchemeAlgSuffix(scheme).value)
  }

  lemma ParsesExactlyV2Algs(alg: bytes)
    ensures ParseMachineAlg(alg).Some? <==> IsV2Alg(alg)
  {
    if ParseMachineAlg(alg).Some? {
      var (prefix, suffix) := ParseMachineAlg(alg).value;
      ParsesExactlyPrintedAlgs(alg, prefix, suffix);
    }
    if IsV2Alg(alg) {
      var prefix, suffix :| IsAlgPair(prefix, suffix) && alg == PrintAlg(prefix, suffix);
      ParsesExactlyPrintedAlgs(alg, prefix, suffix);
    }
  }

  /** Each refusal of the gate, by the alg string. A v2 alg of another suffix is a mismatch, not an unsupported alg. */
  lemma GateRefusesExactly(alg: bytes, scheme: Scheme)
    ensures MachineGate(alg, scheme) == Err(SchemeNotSupported) <==> scheme == Rsa2048JwtRs256
    ensures MachineGate(alg, scheme) == Err(UnsupportedAlgorithm) <==> scheme != Rsa2048JwtRs256 && !IsV2Alg(alg)
    ensures MachineGate(alg, scheme) == Err(UnrecognizedScheme) <==> scheme == OtherScheme && IsV2Alg(alg)
    ensures MachineGate(alg, scheme) == Err(AlgSuffixMismatch)
       <==> scheme != Rsa2048JwtRs256 && SchemeAlgSuffix(scheme).Some?
            && exists prefix, suffix :: suffix != SchemeAlgSuffix(scheme).value
                                        && IsAlgPair(prefix, suffix) && alg == PrintAlg(prefix, suffix)
  {
    hide ParseMachineAlg;
    ParsesExactlyV2Algs(alg);
    forall prefix, suffix
      ensures ParseMachineAlg(alg) == Some((prefix, suffix))
         <==> IsAlgPair(prefix, suffix) && alg == PrintAlg(prefix, suffix)
    {
      ParsesExactlyPrintedAlgs(alg, prefix, suffix);
    }
  }

  lemma GatePassesUnknownPrefix(alg: bytes, scheme: Scheme)
    requires scheme != Rsa2048JwtRs256
    ensures var gate := MachineGate(alg, scheme);
            HasUnknownPrefix(alg, scheme) <==> gate.Ok? && gate.value != PLAIN_PREFIX && gate.value != ENCRYPTED_PREFIX
  {
    hide MachineGate, PrintAlg;
    forall prefix ensures MachineGate(alg, scheme) == Ok(prefix)
       <==> SchemeAlgSuffix(scheme).Some? && IsAlgPair(prefix, SchemeAlgSuffix(scheme).value)
            && alg == PrintAlg(prefix, SchemeAlgSuffix(scheme).value)
    {
      GatePassesExactly(alg, scheme, prefix);
    }
  }

  lemma UnsupportedPastTheGate(p: Primitives, f: MachineFile, scheme: Scheme, pub: PublicKey, licenseKey: bytes,
                               fingerprint: bytes, now: int64)
    ensures var gate, sig := MachineGate(f.alg, scheme), Base64.Decode(f.sig);
            VerifyMachine(p, f, scheme, pub, licenseKey, fingerprint, now).result == Err(UnsupportedAlgorithm)
            <==> || gate == Err(UnsupportedAlgorithm)
                 || (gate.Ok? && gate.value != PLAIN_PREFIX && gate.value != ENCRYPTED_PREFIX
                     && sig.Some? && VerifyMachineSignature(p, scheme, pub, f.enc, sig.value) == Ok(true))
  {
    hide MachineGate, Base64.Decode, VerifyEd25519, SplitEncryptedEnc, IsExpired;
  }

  /**
   When Verify reports a machine file's alg as unsupported: it is not a v2 alg at all; or its encoding
   prefix is unknown, and then only if the signature verifies.
   */
  lemma UnsupportedIsReportedExactly(p: Primitives, f: MachineFile, scheme: Scheme, pub: PublicKey, licenseKey: bytes,
                                     fingerprint: bytes, now: int64)
    ensures VerifyMachine(p, f, scheme, pub, licenseKey, fingerprint, now).result == Err(UnsupportedAlgorithm)
       <==> scheme != Rsa2048JwtRs256
            && (|| !IsV2Alg(f.alg)
                || (HasUnknownPrefix(f.alg, scheme)
                    && exists sig :: Base64.Decode(f.sig) == Some(sig)
                                     && VerifyMachineSignature(p, scheme, pub, f.enc, sig) == Ok(true)))
  {
    hide VerifyMachine, MachineGate, Base64.Decode, VerifyMachineSignature, HasUnknownPrefix, IsV2Alg;
    UnsupportedPastTheGate(p, f, scheme, pub, licenseKey, fingerprint, now);
    GateRefusesExactly(f.alg, scheme);
    if scheme != Rsa2048JwtRs256 { GatePassesUnknownPrefix(f.alg, scheme); }
  }

  /** The concrete case: `x+ed25519+v2` under a signature that does not verify is reported as a forgery. */
  lemma UnknownPrefixExample(p: Primitives, pub: bytes, licenseKey: bytes, fingerprint: bytes, now: int64)
    requires !VerifyEd25519(p, pub, [], [])
    ensures var f := MachineFile([], [], PrintAlg(Ascii("x"), ED25519_SUFFIX));
            && HasUnknownPrefix(f.alg, Ed25519Sign)
            && VerifyMachine(p, f, Ed25519Sign, Ed25519Key(pub), licenseKey, fingerprint, now).result
               == Err(InvalidSignature)
  {
    var x := Ascii("x");
    assert x == [0x78];
    PrefixesArePairs();
    ParseUndoesPrint(x, ED25519_SUFFIX);
    assert Base64.Decode([]) == Some([]);
    assert |PLAIN_PREFIX| == 6 && |ENCRYPTED_PREFIX| == 11;
  }

  /** And `base64+foo+v2` is reported as a suffix mismatch, under every scheme that has a suffix. */
  lemma ForeignSuffixExample(scheme: Scheme)
    requires scheme != Rsa2048JwtRs256 && SchemeAlgSuffix(scheme).Some?
    ensures MachineGate(PrintAlg(PLAIN_PREFIX, Ascii("foo")), scheme) == Err(AlgSuffixMismatch)
  {
    PrefixesArePairs();
    ParseUndoesPrint(PLAIN_PREFIX, Ascii("foo"));
    assert |Ascii("foo")| == 3 && |ED25519_SUFFIX| == 7 && |RSA_SUFFIX| == 10 && |RSA_PSS_SUFFIX| == 14
        && |ECDSA_SUFFIX| == 10;
  }

  // ----- which primitive decides

  /** The signature is good under the scheme's own primitive and a key of its type; an Ed25519 key is 32 bytes. */
  ghost predicate SignedUnder(p: Primitives, scheme: Scheme, pub: PublicKey, message: bytes, sig: bytes) {
    || (scheme == Ed25519Sign && pub.Ed25519Key? && |pub.raw| == 32 && p.ed25519(pub.raw, message, sig))
    || (scheme == Rsa2048Pkcs1Sign && pub.RsaKey? && p.rsaPkcs1(pub.raw, message, sig))
    || (scheme == Rsa2048PkcsPssSign && pub.RsaKey? && p.rsaPss(pub.raw, message, sig))
    || (scheme == EcdsaP256Sign && pub.EcdsaKey? && p.ecdsaP256(pub.raw, message, sig))
  }

  /** The key has the type the scheme verifies with. */
  ghost predicate KeyFits(scheme: Scheme, pub: PublicKey) {
    || (scheme == Ed25519Sign && pub.Ed25519Key?)
    || ((scheme == Rsa2048Pkcs1Sign || scheme == Rsa2048PkcsPssSign) && pub.RsaKey?)
    || (scheme == EcdsaP256Sign && pub.EcdsaKey?)
  }

  lemma ChecksExactly(p: Primitives, scheme: Scheme, pub: PublicKey, message: bytes, sig: bytes)
    ensures VerifyMachineSignature(p, scheme, pub, message, sig) == Ok(true)
       <==> SignedUnder(p, scheme, pub, message, sig)
    ensures VerifyMachineSignature(p, scheme, pub, message, sig).Ok? <==> KeyFits(scheme, pub)
    ensures VerifyMachineSignature(p, scheme, pub, message, sig) == Err(WrongKeyType)
       <==> !KeyFits(scheme, pub) && scheme != Rsa2048JwtRs256 && scheme != OtherScheme
  {
  }

  /** `q` is `p` but for the signature primitives that are not the scheme's own. */
  ghost predicate AgreeForScheme(p: Primitives, q: Primitives, scheme: Scheme) {
    && q == p.(ed25519 := q.ed25519, rsaPkcs1 := q.rsaPkcs1, rsaPss := q.rsaPss, ecdsaP256 := q.ecdsaP256)
    && (scheme == Ed25519Sign ==> q.ed25519 == p.ed25519)
    && (scheme == Rsa2048Pkcs1Sign ==> q.rsaPkcs1 == p.rsaPkcs1)
    && (scheme == Rsa2048PkcsPssSign ==> q.rsaPss == p.rsaPss)
    && (scheme == EcdsaP256Sign ==> q.ecdsaP256 == p.ecdsaP256)
  }

  /** No other signature primitive has any influence on a machine file. */
  lemma OnlyTheSchemeDecides(p: Primitives, q: Primitives, f: MachineFile, scheme: Scheme, pub: PublicKey,
                             licenseKey: bytes, fingerprint: bytes, now: int64)
    requires AgreeForScheme(p, q, scheme)
    ensures VerifyMachine(p, f, scheme, pub, licenseKey, fingerprint, now)
         == VerifyMachine(q, f, scheme, pub, licenseKey, fingerprint, now)
  {
    DecodesAlike(p, q, f.enc, licenseKey, fingerprint);
    hide DecodeMachine, MachineGate, PayloadFrom, Base64.Decode;
  }

  lemma DecodesAlike(p: Primitives, q: Primitives, enc: bytes, licenseKey: bytes, fingerprint: bytes)
    requires p.machineFileKey == q.machineFileKey && p.gcmOpen == q.gcmOpen
    ensures forall prefix :: DecodeMachine(p, enc, prefix, licenseKey, fingerprint)
                          == DecodeMachine(q, enc, prefix, licenseKey, fingerprint)
  {
  }

  /** Nor has any but Ed25519 on a license file. */
  lemma OnlyEd25519Decides(p: Primitives, q: Primitives, f: LicenseFile, pub: bytes, licenseKey: bytes, now: int64)
    requires AgreeForScheme(p, q, Ed25519Sign)
    ensures VerifyLicense(p, f, pub, licenseKey, now) == VerifyLicense(q, f, pub, licenseKey, now)
  {
    hide PayloadFrom, Base64.Decode, SplitBlob;
  }

  /** Which scheme each alg suffix belongs to, in full texts: exactly one. */
  lemma Ed25519Alg(scheme: Scheme)
    ensures MachineGate(Ascii("base64+ed25519+v2"), scheme).Ok? <==> scheme == Ed25519Sign
  {
    hide PrintAlg, ParseMachineAlg, Ascii;
    SuffixesDiffer();
    PrintedGate("ed25519", "base64+ed25519+v2", scheme);
  }

  lemma RsaAlg(scheme: Scheme)
    ensures MachineGate(Ascii("base64+rsa-sha256+v2"), scheme).Ok? <==> scheme == Rsa2048Pkcs1Sign
  {
    hide PrintAlg, ParseMachineAlg, Ascii;
    SuffixesDiffer();
    PrintedGate("rsa-sha256", "base64+rsa-sha256+v2", scheme);
  }

  lemma RsaPssAlg(scheme: Scheme)
    ensures MachineGate(Ascii("base64+rsa-pss-sha256+v2"), scheme).Ok? <==> scheme == Rsa2048PkcsPssSign
  {
    hide PrintAlg, ParseMachineAlg, Ascii;
    SuffixesDiffer();
    PrintedGate("rsa-pss-sha256", "base64+rsa-pss-sha256+v2", scheme);
  }

  lemma EcdsaAlg(scheme: Scheme)
    ensures MachineGate(Ascii("base64+ecdsa-p256+v2"), scheme).Ok? <==> scheme == EcdsaP256Sign
  {
    hide PrintAlg, ParseMachineAlg, Ascii;
    SuffixesDiffer();
    PrintedGate("ecdsa-p256", "base64+ecdsa-p256+v2", scheme);
  }

  lemma PrintedGate(suffix: string, text: string, scheme: Scheme)
    requires suffix != "" && forall i :: 0 <= i < |suffix| ==> IsAscii(suffix[i])
    requires text == "base64" + "+" + suffix + "+v2"
    ensures forall i :: 0 <= i < |text| ==> IsAscii(text[i])
    ensures MachineGate(Ascii(text), scheme).Ok?
       <==> scheme != Rsa2048JwtRs256 && SchemeAlgSuffix(scheme) == Some(Ascii(suffix))
  {
    PrintedText("base64", suffix, text);
    PrefixesArePairs();
    ParseUndoesPrint(PLAIN_PREFIX, Ascii(suffix));
    hide PrintAlg, ParseMachineAlg;
  }

  lemma SuffixesDiffer()
    ensures ED25519_SUFFIX != RSA_SUFFIX && ED25519_SUFFIX != RSA_PSS_SUFFIX && ED25519_SUFFIX != ECDSA_SUFFIX
    ensures RSA_SUFFIX != RSA_PSS_SUFFIX && RSA_SUFFIX != ECDSA_SUFFIX && RSA_PSS_SUFFIX != ECDSA_SUFFIX
  {
    assert |ED25519_SUFFIX| == 7 && |RSA_SUFFIX| == 10 && |RSA_PSS_SUFFIX| == 14 && |ECDSA_SUFFIX| == 10;
    assert RSA_SUFFIX[0] == 0x72 && ECDSA_SUFFIX[0] == 0x65;
  }

  // ----- exactly what is accepted

  /** `plain` is what was sealed under `key`, as internal/crypto opens it. */
  ghost predicate Opens(p: Primitives, key: Option<bytes>, nonce: bytes, cipher: bytes, plain: bytes) {
    && key.Some? && |nonce| == NONCE_SIZE && |cipher| >= TAG_SIZE
    && p.gcmOpen(key.value, nonce, cipher) == Some(plain)
  }

  /** `plain` is what a license file carries: its blob, or what a nonce in front of a sealed blob opens to. */
  ghost predicate LicenseCarries(p: Primitives, f: LicenseFile, licenseKey: bytes, plain: bytes) {
    || (f.alg == ALG_PLAIN && Base64.Decode(f.enc) == Some(plain))
    || (f.alg == ALG_ENCRYPTED && licenseKey != []
        && exists nonce, cipher :: Base64.Decode(f.enc) == Some(nonce + cipher)
                                   && Opens(p, p.licenseFileKey(licenseKey), nonce, cipher, plain))
  }

  /** `plain` is what a machine file carries: its blob, or what its two dotted halves open to. */
  ghost predicate MachineCarries(p: Primitives, enc: bytes, prefix: bytes, licenseKey: bytes, fingerprint: bytes,
                                 plain: bytes) {
    || (prefix == PLAIN_PREFIX && Base64.Decode(enc) == Some(plain))
    || (prefix == ENCRYPTED_PREFIX && licenseKey != [] && fingerprint != []
        && exists nonce, cipher :: SplitEncryptedEnc(enc) == Ok((nonce, cipher))
                                   && Opens(p, p.machineFileKey(licenseKey, fingerprint), nonce, cipher, plain))
  }

  lemma BlobSplits(blob: bytes, nonce: bytes, cipher: bytes)
    ensures SplitBlob(blob) == Some((nonce, cipher))
       <==> blob == nonce + cipher && |nonce| == NONCE_SIZE && |cipher| >= TAG_SIZE
  {
    if blob == nonce + cipher && |nonce| == NONCE_SIZE {
      assert blob[..NONCE_SIZE] == nonce && blob[NONCE_SIZE..] == cipher;
    }
    if SplitBlob(blob) == Some((nonce, cipher)) {
      assert blob == blob[..NONCE_SIZE] + blob[NONCE_SIZE..];
    }
  }

  lemma LicenseDecodesExactly(p: Primitives, f: LicenseFile, licenseKey: bytes, plain: bytes)
    ensures DecodeLicense(p, f, licenseKey).result == Ok(plain) <==> LicenseCarries(p, f, licenseKey, plain)
  {
    AlgsDiffer();
    var blob := Base64.Decode(f.enc);
    if DecodeLicense(p, f, licenseKey).result == Ok(plain) && f.alg == ALG_ENCRYPTED {
      var (nonce, cipher) := SplitBlob(blob.value).value;
      BlobSplits(blob.value, nonce, cipher);
      assert Opens(p, p.licenseFileKey(licenseKey), nonce, cipher, plain);
    }
    if LicenseCarries(p, f, licenseKey, plain) && f.alg == ALG_ENCRYPTED {
      var nonce, cipher :| blob == Some(nonce + cipher) && Opens(p, p.licenseFileKey(licenseKey), nonce, cipher, plain);
      BlobSplits(blob.value, nonce, cipher);
    }
  }

  lemma MachineDecodesExactly(p: Primitives, enc: bytes, prefix: bytes, licenseKey: bytes, fingerprint: bytes,
                              plain: bytes)
    ensures DecodeMachine(p, enc, prefix, licenseKey, fingerprint).result == Ok(plain)
       <==> MachineCarries(p, enc, prefix, licenseKey, fingerprint, plain)
  {
    PrefixesArePairs();
    if DecodeMachine(p, enc, prefix, licenseKey, fingerprint).result == Ok(plain) && prefix == ENCRYPTED_PREFIX {
      var (nonce, cipher) := SplitEncryptedEnc(enc).value;
      assert Opens(p, p.machineFileKey(licenseKey, fingerprint), nonce, cipher, plain);
    }
  }

  /** A document of data and claims, not past its expiry: zero never expires, and 60 s of skew are allowed. */
  ghost predicate Yields(parsed: Option<(bytes, Option<Claims>)>, payload: Payload, now: int64) {
    parsed == Some((payload.data, Some(payload.claims))) && !IsExpired(now, payload.claims.exp)
  }

  /**
   A license file verifies to a payload exactly when its alg is one of the two, its signature is a
   valid one over `enc`, and what `enc` carries is that payload, current. Every way to be accepted is
   listed, and nothing else is.
   */
  lemma LicenseVerifiesExactly(p: Primitives, f: LicenseFile, pub: bytes, licenseKey: bytes, now: int64,
                               payload: Payload)
    ensures VerifyLicense(p, f, pub, licenseKey, now).result == Ok(payload)
       <==> exists sig, plain :: Base64.Decode(f.sig) == Some(sig) && |pub| == 32 && p.ed25519(pub, f.enc, sig)
                                 && LicenseCarries(p, f, licenseKey, plain)
                                 && Yields(p.licensePayload(plain), payload, now)
  {
    var decoded := DecodeLicense(p, f, licenseKey).result;
    if decoded.Ok? { LicenseDecodesExactly(p, f, licenseKey, decoded.value); }
    forall plain | LicenseCarries(p, f, licenseKey, plain) ensures decoded == Ok(plain) {
      LicenseDecodesExactly(p, f, licenseKey, plain);
    }
  }

  /** The gate passes exactly the algs printed from a prefix and the suffix of the requested scheme. */
  lemma GatePassesExactly(alg: bytes, scheme: Scheme, prefix: bytes)
    ensures MachineGate(alg, scheme) == Ok(prefix)
       <==> scheme != Rsa2048JwtRs256 && SchemeAlgSuffix(scheme).Some?
            && IsAlgPair(prefix, SchemeAlgSuffix(scheme).value)
            && alg == PrintAlg(prefix, SchemeAlgSuffix(scheme).value)
  {
    if SchemeAlgSuffix(scheme).Some? { ParsesExactlyPrintedAlgs(alg, prefix, SchemeAlgSuffix(scheme).value); }
  }

  // Past the gate and the signature, the outcome is what the decoded bytes yield.
  lemma MachineVerifiesTo(p: Primitives, f: MachineFile, scheme: Scheme, pub: PublicKey, licenseKey: bytes,
                          fingerprint: bytes, now: int64, payload: Payload)
    ensures VerifyMachine(p, f, scheme, pub, licenseKey, fingerprint, now).result == Ok(payload)
       <==> && MachineGate(f.alg, scheme).Ok? && Base64.Decode(f.sig).Some?
            && VerifyMachineSignature(p, scheme, pub, f.enc, Base64.Decode(f.sig).value) == Ok(true)
            && var decoded := DecodeMachine(p, f.enc, MachineGate(f.alg, scheme).value, licenseKey, fingerprint).result;
               decoded.Ok? && Yields(p.machinePayload(decoded.value), payload, now)
  {
    hide MachineGate, VerifyMachineSignature, DecodeMachine, Base64.Decode;
  }

  /** The same for a machine file, whose gate `GatePassesExactly` describes. */
  lemma MachineVerifiesExactly(p: Primitives, f: MachineFile, scheme: Scheme, pub: PublicKey, licenseKey: bytes,
                               fingerprint: bytes, now: int64, payload: Payload)
    ensures VerifyMachine(p, f, scheme, pub, licenseKey, fingerprint, now).result == Ok(payload)
       <==> exists prefix, sig, plain ::
              && MachineGate(f.alg, scheme) == Ok(prefix)
              && Base64.Decode(f.sig) == Some(sig) && SignedUnder(p, scheme, pub, f.enc, sig)
              && MachineCarries(p, f.enc, prefix, licenseKey, fingerprint, plain)
              && Yields(p.machinePayload(plain), payload, now)
  {
    hide MachineGate, VerifyMachine, DecodeMachine, MachineCarries, VerifyMachineSignature, SignedUnder, Yields,
         Base64.Decode;
    MachineVerifiesTo(p, f, scheme, pub, licenseKey, fingerprint, now, payload);
    forall sig
      ensures VerifyMachineSignature(p, scheme, pub, f.enc, sig) == Ok(true)
         <==> SignedUnder(p, scheme, pub, f.enc, sig)
    {
      ChecksExactly(p, scheme, pub, f.enc, sig);
    }
    if MachineGate(f.alg, scheme).Ok? {
      var prefix := MachineGate(f.alg, scheme).value;
      forall plain
        ensures DecodeMachine(p, f.enc, prefix, licenseKey, fingerprint).result == Ok(plain)
           <==> MachineCarries(p, f.enc, prefix, licenseKey, fingerprint, plain)
      {
        MachineDecodesExactly(p, f.enc, prefix, licenseKey, fingerprint, plain);
      }
    }
  }

  /** `plain` is a document whose claims carry this expiry, and it has passed. */
  ghost predicate IsStale(parsed: Option<(bytes, Option<Claims>)>, exp: int64, now: int64) {
    parsed.Some? && parsed.value.1.Some? && parsed.value.1.value.exp == exp && IsExpired(now, exp)
  }

  /** Which refusal a license file meets: an expiry or missing claims are reported for genuinely signed files only. */
  lemma LicenseRefusals(p: Primitives, f: LicenseFile, pub: bytes, licenseKey: bytes, now: int64, exp: int64)
    ensures var r := VerifyLicense(p, f, pub, licenseKey, now).result;
            var sig := Base64.Decode(f.sig);
            var genuine := LicenseAlgAllowed(f.alg) && sig.Some? && VerifyEd25519(p, pub, f.enc, sig.value);
            && (r == Err(UnsupportedAlgorithm) <==> !LicenseAlgAllowed(f.alg))
            && (r == Err(MalformedSignature) <==> LicenseAlgAllowed(f.alg) && sig.None?)
            && (r == Err(InvalidSignature) <==> LicenseAlgAllowed(f.alg) && sig.Some? && !genuine)
            && (r == Err(Expired(exp)) <==>
                  genuine && exists plain :: LicenseCarries(p, f, licenseKey, plain)
                                             && IsStale(p.licensePayload(plain), exp, now))
            && (r == Err(MissingClaims) <==>
                  genuine && exists plain :: LicenseCarries(p, f, licenseKey, plain) && p.licensePayload(plain).Some?
                                             && p.licensePayload(plain).value.1.None?)
  {
    hide Base64.Decode, LicenseCarries, VerifyEd25519, IsExpired;
    var decoded := DecodeLicense(p, f, licenseKey).result;
    forall plain ensures decoded == Ok(plain) <==> LicenseCarries(p, f, licenseKey, plain) {
      LicenseDecodesExactly(p, f, licenseKey, plain);
    }
  }

  /** The same for a machine file. An alg the gate refuses is refused before anything else. */
  lemma MachineRefusals(p: Primitives, f: MachineFile, scheme: Scheme, pub: PublicKey, licenseKey: bytes,
                        fingerprint: bytes, now: int64, exp: int64)
    ensures var r := VerifyMachine(p, f, scheme, pub, licenseKey, fingerprint, now).result;
            var gate, sig := MachineGate(f.alg, scheme), Base64.Decode(f.sig);
            var checked := if gate.Ok? && sig.Some? then VerifyMachineSignature(p, scheme, pub, f.enc, sig.value)
                           else Ok(false);
            && (gate.Err? ==> r == Err(gate.error))
            && (r == Err(MalformedSignature) <==> gate.Ok? && sig.None?)
            && (r == Err(InvalidSignature) <==> gate.Ok? && sig.Some? && checked == Ok(false))
            && (r == Err(Expired(exp)) <==>
                  checked == Ok(true)
                  && exists plain :: MachineCarries(p, f.enc, gate.value, licenseKey, fingerprint, plain)
                                     && IsStale(p.machinePayload(plain), exp, now))
  {
    hide Base64.Decode, MachineCarries, IsExpired, VerifyEd25519, ParseMachineAlg, SplitEncryptedEnc;
    if MachineGate(f.alg, scheme).Ok? {
      var prefix := MachineGate(f.alg, scheme).value;
      forall plain
        ensures DecodeMachine(p, f.enc, prefix, licenseKey, fingerprint).result == Ok(plain)
           <==> MachineCarries(p, f.enc, prefix, licenseKey, fingerprint, plain)
      {
        MachineDecodesExactly(p, f.enc, prefix, licenseKey, fingerprint, plain);
      }
    }
  }

  /** Every refusal a genuinely signed license file can meet before its claims are read, exactly. */
  lemma LicenseContentRefusals(p: Primitives, f: LicenseFile, pub: bytes, licenseKey: bytes, now: int64, sig: bytes)
    requires LicenseAlgAllowed(f.alg) && Base64.Decode(f.sig) == Some(sig) && |pub| == 32 && p.ed25519(pub, f.enc, sig)
    ensures var r := VerifyLicense(p, f, pub, licenseKey, now).result;
            var blob, key := Base64.Decode(f.enc), p.licenseFileKey(licenseKey);
            var sealed := f.alg == ALG_ENCRYPTED && blob.Some?;
            && (r == Err(MalformedEnc) <==> blob.None?)
            && (r == Err(LicenseKeyRequired) <==> sealed && licenseKey == [])
            && (r == Err(KeyDerivationFailed) <==> sealed && licenseKey != [] && key.None?)
            && (r == Err(PayloadTooShort) <==> sealed && licenseKey != [] && key.Some? && |blob.value| < 28)
            && (r == Err(DecryptionFailed) <==>
                  sealed && licenseKey != [] && key.Some? && |blob.value| >= 28
                  && p.gcmOpen(key.value, blob.value[..12], blob.value[12..]).None?)
            && (r == Err(MalformedJson) <==>
                  exists plain :: LicenseCarries(p, f, licenseKey, plain) && p.licensePayload(plain).None?)
  {
    AlgsDiffer();
    hide Base64.Decode, LicenseCarries, IsExpired;
    var decoded := DecodeLicense(p, f, licenseKey).result;
    forall plain ensures decoded == Ok(plain) <==> LicenseCarries(p, f, licenseKey, plain) {
      LicenseDecodesExactly(p, f, licenseKey, plain);
    }
  }

  /** The same for a machine file: credentials first, then the two halves, then the key. */
  lemma MachineContentRefusals(p: Primitives, f: MachineFile, scheme: Scheme, pub: PublicKey, licenseKey: bytes,
                               fingerprint: bytes, now: int64, prefix: bytes, sig: bytes)
    requires MachineGate(f.alg, scheme) == Ok(prefix) && Base64.Decode(f.sig) == Some(sig)
    requires SignedUnder(p, scheme, pub, f.enc, sig)
    ensures var r := VerifyMachine(p, f, scheme, pub, licenseKey, fingerprint, now).result;
            var halves, key := SplitEncryptedEnc(f.enc), p.machineFileKey(licenseKey, fingerprint);
            var sealed := prefix == ENCRYPTED_PREFIX;
            var credentials := sealed && licenseKey != [] && fingerprint != [];
            && (r == Err(LicenseKeyRequired) <==> sealed && licenseKey == [])
            && (r == Err(FingerprintRequired) <==> sealed && licenseKey != [] && fingerprint == [])
            && (r == Err(MalformedEnc) <==>
                  || (prefix == PLAIN_PREFIX && Base64.Decode(f.enc).None?)
                  || (credentials && halves.Err? && halves.error != TooShort))
            && (r == Err(PayloadTooShort) <==> credentials && halves == Err(TooShort))
            && (r == Err(KeyDerivationFailed) <==> credentials && halves.Ok? && key.None?)
            && (r == Err(BadNonceLength) <==> credentials && halves.Ok? && key.Some? && |halves.value.0| != 12)
            && (r == Err(DecryptionFailed) <==>
                  credentials && halves.Ok? && key.Some? && |halves.value.0| == 12
                  && p.gcmOpen(key.value, halves.value.0, halves.value.1).None?)
  {
    ChecksExactly(p, scheme, pub, f.enc, sig);
    PrefixesArePairs();
    hide Base64.Decode, SplitEncryptedEnc, IsExpired, MachineGate, VerifyMachineSignature;
  }

  /** And what its document lacks. */
  lemma MachineDocumentRefusals(p: Primitives, f: MachineFile, scheme: Scheme, pub: PublicKey, licenseKey: bytes,
                                fingerprint: bytes, now: int64, prefix: bytes, sig: bytes)
    requires MachineGate(f.alg, scheme) == Ok(prefix) && Base64.Decode(f.sig) == Some(sig)
    requires SignedUnder(p, scheme, pub, f.enc, sig)
    ensures var r := VerifyMachine(p, f, scheme, pub, licenseKey, fingerprint, now).result;
            && (r == Err(MalformedJson) <==>
                  exists plain :: MachineCarries(p, f.enc, prefix, licenseKey, fingerprint, plain)
                                  && p.machinePayload(plain).None?)
            && (r == Err(MissingClaims) <==>
                  exists plain :: MachineCarries(p, f.enc, prefix, licenseKey, fingerprint, plain)
                                  && p.machinePayload(plain).Some? && p.machinePayload(plain).value.1.None?)
  {
    ChecksExactly(p, scheme, pub, f.enc, sig);
    hide Base64.Decode, MachineCarries, IsExpired, MachineGate, VerifyMachineSignature, SplitEncryptedEnc;
    forall plain
      ensures DecodeMachine(p, f.enc, prefix, licenseKey, fingerprint).result == Ok(plain)
         <==> MachineCarries(p, f.enc, prefix, licenseKey, fingerprint, plain)
    {
      MachineDecodesExactly(p, f.enc, prefix, licenseKey, fingerprint, plain);
    }
  }

  /** A file whose claims carry no expiry, once valid, is valid at any time. */
  lemma NoExpiryNeverExpires(p: Primitives, f: LicenseFile, pub: bytes, licenseKey: bytes, now: int64, later: int64,
                             payload: Payload)
    requires VerifyLicense(p, f, pub, licenseKey, now).result == Ok(payload) && payload.claims.exp == 0
    ensures VerifyLicense(p, f, pub, licenseKey, later).result == Ok(payload)
  {
    hide Base64.Decode, VerifyEd25519;
  }

  lemma NoMachineExpiryNeverExpires(p: Primitives, f: MachineFile, scheme: Scheme, pub: PublicKey, licenseKey: bytes,
                                    fingerprint: bytes, now: int64, later: int64, payload: Payload)
    requires VerifyMachine(p, f, scheme, pub, licenseKey, fingerprint, now).result == Ok(payload)
    requires payload.claims.exp == 0
    ensures VerifyMachine(p, f, scheme, pub, licenseKey, fingerprint, later).result == Ok(payload)
  {
    hide Base64.Decode, VerifyMachineSignature, DecodeMachine, MachineGate;
  }

  // ----- what a genuine file verifies to

  /** A file the server encrypted and signed opens to exactly what was sealed. */
  lemma GenuineEncryptedLicenseOpens(p: Primitives, pub: bytes, licenseKey: bytes, key: bytes, nonce: bytes,
                                     cipher: bytes, plain: bytes, sig: bytes, now: int64)
    requires licenseKey != [] && p.licenseFileKey(licenseKey) == Some(key)
    requires |nonce| == NONCE_SIZE && |cipher| >= TAG_SIZE && p.gcmOpen(key, nonce, cipher) == Some(plain)
    requires |pub| == 32 && p.ed25519(pub, Base64.Encode(nonce + cipher), sig)
    ensures var f := LicenseFile(Base64.Encode(nonce + cipher), Base64.Encode(sig), ALG_ENCRYPTED);
            VerifyLicense(p, f, pub, licenseKey, now).result == PayloadFrom(p.licensePayload(plain), now).result
  {
    BlobReadsBack(nonce, cipher);
    Base64.DecodeUndoesEncode(sig);
    AlgsDiffer();
  }

  lemma AlgsDiffer()
    ensures ALG_PLAIN != ALG_ENCRYPTED
  {
    PrefixesArePairs();
    ParseUndoesPrint(PLAIN_PREFIX, ED25519_SUFFIX);
    ParseUndoesPrint(ENCRYPTED_PREFIX, ED25519_SUFFIX);
  }

  lemma GenuineEncryptedMachineOpens(p: Primitives, pub: PublicKey, scheme: Scheme, suffix: bytes, licenseKey: bytes,
                                     fingerprint: bytes, key: bytes, nonce: bytes, cipher: bytes, plain: bytes,
                                     sig: bytes, now: int64)
    requires scheme != Rsa2048JwtRs256 && SchemeAlgSuffix(scheme) == Some(suffix)
    requires licenseKey != [] && fingerprint != [] && p.machineFileKey(licenseKey, fingerprint) == Some(key)
    requires |nonce| == NONCE_SIZE && |cipher| >= TAG_SIZE && p.gcmOpen(key, nonce, cipher) == Some(plain)
    requires SignedUnder(p, scheme, pub, Base64.Encode(nonce) + [DOT] + Base64.Encode(cipher), sig)
    ensures var enc := Base64.Encode(nonce) + [DOT] + Base64.Encode(cipher);
            var f := MachineFile(enc, Base64.Encode(sig), PrintAlg(ENCRYPTED_PREFIX, suffix));
            VerifyMachine(p, f, scheme, pub, licenseKey, fingerprint, now).result
            == PayloadFrom(p.machinePayload(plain), now).result
  {
    var enc := Base64.Encode(nonce) + [DOT] + Base64.Encode(cipher);
    PrefixesArePairs();
    GatePassesExactly(PrintAlg(ENCRYPTED_PREFIX, suffix), scheme, ENCRYPTED_PREFIX);
    ParseUndoesPrint(ENCRYPTED_PREFIX, suffix);
    SplitUndoesJoin(nonce, cipher);
    Base64.DecodeUndoesEncode(sig);
    ChecksExactly(p, scheme, pub, enc, sig);
    hide MachineGate, PrintAlg, VerifyMachineSignature, SignedUnder, SplitEncryptedEnc, Base64.Decode, Base64.Encode,
         IsExpired;
  }
}
