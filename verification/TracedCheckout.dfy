/**
 The verification steps as they are executed: every method notes a step in a ghost trace at the moment
 it takes it, and is proved to take exactly the steps its function in `Checkout` lists, in that order.
 */
module TracedCheckout {
  import opened Wrappers
  import opened Bytes
  import opened WireFormat
  import opened SigningKeys
  import opened Checkout
  import Base64

  /** What has been done so far. */
  class Trace {
    ghost var steps: seq<Step>

    constructor ()
      ensures steps == []
    {
      steps := [];
    }

    ghost method Note(s: Step)
      modifies this
      ensures steps == old(steps) + [s]
    {
      steps := steps + [s];
    }
  }

  /** The trace of a call that did what `run` says: its result, and its steps after those already taken. */
  ghost predicate Took<T>(before: seq<Step>, after: seq<Step>, r: Result<T, FileError>, run: Run<T>) {
    r == run.result && after == before + run.steps
  }

  method CheckSignature(trace: Trace, p: Primitives, key: bytes, message: bytes, sig: bytes) returns (passed: bool)
    modifies trace
    ensures passed == VerifyEd25519(p, key, message, sig)
    ensures trace.steps == old(trace.steps) + [CheckSig(key, passed)]
  {
    passed := VerifyEd25519(p, key, message, sig);
    trace.Note(CheckSig(key, passed));
  }

  /** `(*LicenseFile).decodePlaintext`. */
  method DecodeLicenseNow(trace: Trace, p: Primitives, f: LicenseFile, licenseKey: bytes)
    returns (r: Result<bytes, FileError>)
    modifies trace
    ensures Took(old(trace.steps), trace.steps, r, DecodeLicense(p, f, licenseKey))
  {
    trace.Note(DecodeEnc);
    var blob := Base64.Decode(f.enc);
    if blob.None? {
      return Err(MalformedEnc);
    }
    if f.alg == ALG_PLAIN {
      return Ok(blob.value);
    }
    if f.alg != ALG_ENCRYPTED {
      return Err(UnsupportedAlgorithm);
    }
    if licenseKey == [] {
      return Err(LicenseKeyRequired);
    }
    trace.Note(DeriveKey);
    var key := p.licenseFileKey(licenseKey);
    if key.None? {
      return Err(KeyDerivationFailed);
    }
    var halves := SplitBlob(blob.value);
    if halves.None? {
      return Err(PayloadTooShort);
    }
    trace.Note(Decrypt);
    return OpenAesGcm(p, key.value, halves.value.0, halves.value.1);
  }

  /** `(*MachineFile).decodePlaintext`. */
  method DecodeMachineNow(trace: Trace, p: Primitives, enc: bytes, prefix: bytes, licenseKey: bytes, fingerprint: bytes)
    returns (r: Result<bytes, FileError>)
    modifies trace
    ensures Took(old(trace.steps), trace.steps, r, DecodeMachine(p, enc, prefix, licenseKey, fingerprint))
  {
    if prefix == PLAIN_PREFIX {
      trace.Note(DecodeEnc);
      var plain := Base64.Decode(enc);
      return if plain.None? then Err(MalformedEnc) else Ok(plain.value);
    }
    if prefix != ENCRYPTED_PREFIX {
      return Err(UnsupportedAlgorithm);
    }
    if licenseKey == [] {
      return Err(LicenseKeyRequired);
    }
    if fingerprint == [] {
      return Err(FingerprintRequired);
    }
    trace.Note(DecodeEnc);
    var halves := SplitEncryptedEnc(enc);
    if halves.Err? {
      return Err(if halves.error.TooShort? then PayloadTooShort else MalformedEnc);
    }
    trace.Note(DeriveKey);
    var key := p.machineFileKey(licenseKey, fingerprint);
    if key.None? {
      return Err(KeyDerivationFailed);
    }
    trace.Note(Decrypt);
    return OpenAesGcm(p, key.value, halves.value.0, halves.value.1);
  }

  /** `payloadFrom`. */
  method PayloadNow(trace: Trace, parse: bytes -> Option<(bytes, Option<Claims>)>, plain: bytes, now: int64)
    returns (r: Result<Payload, FileError>)
    modifies trace
    ensures Took(old(trace.steps), trace.steps, r, PayloadFrom(parse(plain), now))
  {
    trace.Note(ParsePayload);
    var parsed := parse(plain);
    if parsed.None? {
      return Err(MalformedJson);
    }
    var (data, meta) := parsed.value;
    if meta.None? {
      return Err(MissingClaims);
    }
    trace.Note(CheckExpiry);
    if IsExpired(now, meta.value.exp) {
      return Err(Expired(meta.value.exp));
    }
    return Ok(Payload(data, meta.value));
  }

  /** `(*LicenseFile).Verify`. */
  method VerifyLicenseNow(trace: Trace, p: Primitives, f: LicenseFile, pub: bytes, licenseKey: bytes, now: int64)
    returns (r: Result<Payload, FileError>)
    modifies trace
    ensures Took(old(trace.steps), trace.steps, r, VerifyLicense(p, f, pub, licenseKey, now))
  {
    hide DecodeLicense, PayloadFrom, Base64.Decode, VerifyEd25519;
    trace.Note(AlgGate);
    if !LicenseAlgAllowed(f.alg) {
      return Err(UnsupportedAlgorithm);
    }
    trace.Note(DecodeSig);
    var sig := Base64.Decode(f.sig);
    if sig.None? {
      return Err(MalformedSignature);
    }
    var passed := CheckSignature(trace, p, pub, f.enc, sig.value);
    if !passed {
      return Err(InvalidSignature);
    }
    var plain := DecodeLicenseNow(trace, p, f, licenseKey);
    if plain.Err? {
      return Err(plain.error);
    }
    r := PayloadNow(trace, p.licensePayload, plain.value, now);
  }

  /** `(*MachineFile).Verify`. */
  method VerifyMachineNow(trace: Trace, p: Primitives, f: MachineFile, scheme: Scheme, pub: PublicKey,
                          licenseKey: bytes, fingerprint: bytes, now: int64)
    returns (r: Result<Payload, FileError>)
    modifies trace
    ensures Took(old(trace.steps), trace.steps, r, VerifyMachine(p, f, scheme, pub, licenseKey, fingerprint, now))
  {
    hide DecodeMachine, PayloadFrom, Base64.Decode, VerifyMachineSignature, MachineGate;
    trace.Note(AlgGate);
    var gate := MachineGate(f.alg, scheme);
    if gate.Err? {
      return Err(gate.error);
    }
    trace.Note(DecodeSig);
    var sig := Base64.Decode(f.sig);
    if sig.None? {
      return Err(MalformedSignature);
    }
    var checked := VerifyMachineSignature(p, scheme, pub, f.enc, sig.value);
    if checked.Err? {
      return Err(checked.error);
    }
    trace.Note(CheckSig(RawKey(pub), checked.value));
    if !checked.value {
      return Err(InvalidSignature);
    }
    var plain := DecodeMachineNow(trace, p, f.enc, gate.value, licenseKey, fingerprint);
    if plain.Err? {
      return Err(plain.error);
    }
    r := PayloadNow(trace, p.machinePayload, plain.value, now);
  }
}
