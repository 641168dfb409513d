/**
 Verification against a set of trusted keys (checkout_key_set.go): every key is tried before the
 payload is read, and the payload's kid claim only ever chooses between two rejections.
 */
module KeySetVerification {
  import opened Wrappers
  import opened Bytes
  import opened WireFormat
  import opened SigningKeys
  import opened Checkout
  import opened TracedCheckout
  import Base64

  datatype Verified = Verified(payload: Payload, key: SigningKey)

  // ----- the failure path

  /** `unverifiedKeyID`. */
  function UnverifiedKeyId(p: Primitives, plain: bytes): bytes {
    match p.claimsProbe(plain)
    case Some(Some(claims)) => claims.kid
    case _ => []
  }

  /** `unverifiableFileError`. */
  function UnverifiableFileError(e: FileError): FileError {
    if e == LicenseKeyRequired || e == FingerprintRequired || e == UnsupportedAlgorithm then e else InvalidSignature
  }

  /** `keySetFailure`. */
  function KeySetFailure(keys: KeySet, kid: bytes): FileError {
    if kid == [] || Holds(keys, kid) then InvalidSignature else UnknownSigningKey(kid, KeyIds(keys))
  }

  /** What `enc` is decoded with, in either kind of file. */
  datatype Content =
    | LicenseContent(file: LicenseFile, licenseKey: bytes)
    | MachineContent(enc: bytes, prefix: bytes, licenseKey: bytes, fingerprint: bytes)

  function Signed(c: Content): bytes {
    if c.LicenseContent? then c.file.enc else c.enc
  }

  function DecodeContent(p: Primitives, c: Content): Run<bytes> {
    match c
    case LicenseContent(file, licenseKey) => DecodeLicense(p, file, licenseKey)
    case MachineContent(enc, prefix, licenseKey, fingerprint) => DecodeMachine(p, enc, prefix, licenseKey, fingerprint)
  }

  function Parser(p: Primitives, c: Content): bytes -> Option<(bytes, Option<Claims>)> {
    if c.LicenseContent? then p.licensePayload else p.machinePayload
  }

  function OpenContent(p: Primitives, c: Content, now: int64): Run<Payload> {
    Open(DecodeContent(p, c), Parser(p, c), now)
  }

  /** What is left to decide once every key has failed. */
  function Rejection(p: Primitives, keys: KeySet, c: Content): Run<Verified> {
    var decoded := DecodeContent(p, c);
    match decoded.result
    case Err(e) => Fails(decoded.steps, UnverifiableFileError(e))
    case Ok(plain) => Fails(decoded.steps + [ProbeKid], KeySetFailure(keys, UnverifiedKeyId(p, plain)))
  }

  // ----- the scan

  predicate Checks(p: Primitives, e: Entry, enc: bytes, sig: bytes) {
    VerifyEd25519(p, e.publicKey, enc, sig)
  }

  /** The first entry at or after `from` whose key checks the signature, or `|keys|`. */
  function FirstVerifyingFrom(p: Primitives, keys: KeySet, enc: bytes, sig: bytes, from: nat): (i: nat)
    requires from <= |keys|
    ensures from <= i <= |keys|
    ensures i < |keys| ==> Checks(p, keys[i], enc, sig)
    ensures forall k :: from <= k < i ==> !Checks(p, keys[k], enc, sig)
    decreases |keys| - from
  {
    if from == |keys| || Checks(p, keys[from], enc, sig) then from
    else FirstVerifyingFrom(p, keys, enc, sig, from + 1)
  }

  function FirstVerifying(p: Primitives, keys: KeySet, enc: bytes, sig: bytes): nat {
    FirstVerifyingFrom(p, keys, enc, sig, 0)
  }

  /** The failed checks of the first `n` keys. */
  function FailedChecks(keys: KeySet, n: nat): (steps: seq<Step>)
    requires n <= |keys|
    ensures |steps| == n && forall k :: 0 <= k < n ==> steps[k] == CheckSig(keys[k].publicKey, false)
  {
    seq(n, k requires 0 <= k < n => CheckSig(keys[k].publicKey, false))
  }

  function WithKey(key: SigningKey, content: Run<Payload>): Run<Verified> {
    match content.result
    case Err(e) => Fails(content.steps, e)
    case Ok(payload) => Run(Ok(Verified(payload, key)), content.steps)
  }

  /** The outcome of scanning `keys` over one file whose signature has been decoded. */
  function ScanOutcome(p: Primitives, keys: KeySet, c: Content, sig: bytes, now: int64): Run<Verified> {
    var i := FirstVerifying(p, keys, Signed(c), sig);
    if i < |keys| then
      var content := WithKey(keys[i].key, OpenContent(p, c, now));
      Run(content.result, FailedChecks(keys, i) + [CheckSig(keys[i].publicKey, true)] + content.steps)
    else
      var content := Rejection(p, keys, c);
      Run(content.result, FailedChecks(keys, |keys|) + content.steps)
  }

  // ----- the code

  method DecodeContentNow(trace: Trace, p: Primitives, c: Content) returns (r: Result<bytes, FileError>)
    modifies trace
    ensures Took(old(trace.steps), trace.steps, r, DecodeContent(p, c))
  {
    match c
    case LicenseContent(file, licenseKey) => r := DecodeLicenseNow(trace, p, file, licenseKey);
    case MachineContent(enc, prefix, licenseKey, fingerprint) =>
      r := DecodeMachineNow(trace, p, enc, prefix, licenseKey, fingerprint);
  }

  /** The body of the loop once a key has checked the signature. */
  method AcceptNow(trace: Trace, p: Primitives, key: SigningKey, c: Content, now: int64)
    returns (r: Result<Verified, FileError>)
    modifies trace
    ensures Took(old(trace.steps), trace.steps, r, WithKey(key, OpenContent(p, c, now)))
  {
    hide DecodeContent, PayloadFrom;
    var plain := DecodeContentNow(trace, p, c);
    if plain.Err? {
      return Err(plain.error);
    }
    var payload := PayloadNow(trace, Parser(p, c), plain.value, now);
    if payload.Err? {
      return Err(payload.error);
    }
    return Ok(Verified(payload.value, key));
  }

  /** What follows the loop: only now is the payload read, for its kid. */
  method RejectNow(trace: Trace, p: Primitives, keys: KeySet, c: Content) returns (r: Result<Verified, FileError>)
    modifies trace
    ensures Took(old(trace.steps), trace.steps, r, Rejection(p, keys, c))
  {
    hide DecodeContent;
    var plain := DecodeContentNow(trace, p, c);
    if plain.Err? {
      return Err(UnverifiableFileError(plain.error));
    }
    trace.Note(ProbeKid);
    return Err(KeySetFailure(keys, UnverifiedKeyId(p, plain.value)));
  }

  /** The loop of both VerifyWithKeySet methods. Nothing is decoded until a key has checked, or all have failed. */
  method ScanKeys(trace: Trace, p: Primitives, keys: KeySet, c: Content, sig: bytes, now: int64)
    returns (r: Result<Verified, FileError>)
    modifies trace
    ensures Took(old(trace.steps), trace.steps, r, ScanOutcome(p, keys, c, sig, now))
  {
    hide OpenContent, Rejection, VerifyEd25519;
    var i := 0;
    while i < |keys|
      invariant 0 <= i <= |keys|
      invariant trace.steps == old(trace.steps) + FailedChecks(keys, i)
      invariant forall k :: 0 <= k < i ==> !Checks(p, keys[k], Signed(c), sig)
    {
      var passed := CheckSignature(trace, p, keys[i].publicKey, Signed(c), sig);
      if passed {
        r := AcceptNow(trace, p, keys[i].key, c, now);
        return;
      }
      i := i + 1;
    }
    r := RejectNow(trace, p, keys, c);
  }

  function After<T>(before: seq<Step>, run: Run<T>): Run<T> {
    Run(run.result, before + run.steps)
  }

  /** `(*LicenseFile).VerifyWithKeySet`: the signature is decoded before the set is found empty. */
  function LicenseWithKeySet(p: Primitives, f: LicenseFile, keys: KeySet, licenseKey: bytes, now: int64): Run<Verified>
  {
    if !LicenseAlgAllowed(f.alg) then Fails([AlgGate], UnsupportedAlgorithm)
    else match Base64.Decode(f.sig)
         case None => Fails([AlgGate, DecodeSig], MalformedSignature)
         case Some(sig) =>
           if keys == [] then Fails([AlgGate, DecodeSig], NoUsableSigningKey)
           else After([AlgGate, DecodeSig], ScanOutcome(p, keys, LicenseContent(f, licenseKey), sig, now))
  }

  method VerifyLicenseWithKeySet(trace: Trace, p: Primitives, f: LicenseFile, keys: KeySet, licenseKey: bytes,
                                 now: int64) returns (r: Result<Verified, FileError>)
    modifies trace
    ensures Took(old(trace.steps), trace.steps, r, LicenseWithKeySet(p, f, keys, licenseKey, now))
  {
    hide ScanOutcome, Base64.Decode;
    trace.Note(AlgGate);
    if !LicenseAlgAllowed(f.alg) {
      return Err(UnsupportedAlgorithm);
    }
    trace.Note(DecodeSig);
    var sig := Base64.Decode(f.sig);
    if sig.None? {
      return Err(MalformedSignature);
    }
    if |keys| == 0 {
      return Err(NoUsableSigningKey);
    }
    r := ScanKeys(trace, p, keys, LicenseContent(f, licenseKey), sig.value, now);
  }

  /** `(*MachineFile).VerifyWithKeySet`: Ed25519 only, and an empty set is found before the signature is decoded. */
  function MachineWithKeySet(p: Primitives, f: MachineFile, scheme: Scheme, keys: KeySet, licenseKey: bytes,
                             fingerprint: bytes, now: int64): Run<Verified>
  {
    match MachineGate(f.alg, scheme)
    case Err(e) => Fails([AlgGate], e)
    case Ok(prefix) =>
      if scheme != Ed25519Sign || keys == [] then Fails([AlgGate], NoUsableSigningKey)
      else match Base64.Decode(f.sig)
           case None => Fails([AlgGate, DecodeSig], MalformedSignature)
           case Some(sig) =>
             After([AlgGate, DecodeSig],
                   ScanOutcome(p, keys, MachineContent(f.enc, prefix, licenseKey, fingerprint), sig, now))
  }

  method VerifyMachineWithKeySet(trace: Trace, p: Primitives, f: MachineFile, scheme: Scheme, keys: KeySet,
                                 licenseKey: bytes, fingerprint: bytes, now: int64)
    returns (r: Result<Verified, FileError>)
    modifies trace
    ensures Took(old(trace.steps), trace.steps, r,
                 MachineWithKeySet(p, f, scheme, keys, licenseKey, fingerprint, now))
  {
    hide ScanOutcome, Base64.Decode, MachineGate;
    trace.Note(AlgGate);
    var gate := MachineGate(f.alg, scheme);
    if gate.Err? {
      return Err(gate.error);
    }
    if scheme != Ed25519Sign {
      return Err(NoUsableSigningKey);
    }
    if |keys| == 0 {
      return Err(NoUsableSigningKey);
    }
    trace.Note(DecodeSig);
    var sig := Base64.Decode(f.sig);
    if sig.None? {
      return Err(MalformedSignature);
    }
    var c := MachineContent(f.enc, gate.value, licenseKey, fingerprint);
    r := ScanKeys(trace, p, keys, c, sig.value, now);
  }

  // ----- refinement of single-key verification

  /** The key-set result is the single-key one, labelled with the key that passed. */
  ghost predicate Refines(viaSet: Run<Verified>, single: Run<Payload>, key: SigningKey) {
    match single.result
    case Err(e) => viaSet.result == Err(e)
    case Ok(payload) => viaSet.result == Ok(Verified(payload, key))
  }

  /**
   If some key checks the signature, the outcome, success or error, is Verify's under the first
   such key.
   */
  lemma LicenseRefinesSingleKey(p: Primitives, f: LicenseFile, keys: KeySet, sig: bytes, licenseKey: bytes, now: int64)
    requires Base64.Decode(f.sig) == Some(sig) && FirstVerifying(p, keys, f.enc, sig) < |keys|
    ensures var e := keys[FirstVerifying(p, keys, f.enc, sig)];
            Refines(LicenseWithKeySet(p, f, keys, licenseKey, now),
                    VerifyLicense(p, f, e.publicKey, licenseKey, now), e.key)
  {
  }

  lemma MachineRefinesSingleKey(p: Primitives, f: MachineFile, keys: KeySet, sig: bytes, licenseKey: bytes,
                                fingerprint: bytes, now: int64)
    requires Base64.Decode(f.sig) == Some(sig) && FirstVerifying(p, keys, f.enc, sig) < |keys|
    ensures var e := keys[FirstVerifying(p, keys, f.enc, sig)];
            Refines(MachineWithKeySet(p, f, Ed25519Sign, keys, licenseKey, fingerprint, now),
                    VerifyMachine(p, f, Ed25519Sign, Ed25519Key(e.publicKey), licenseKey, fingerprint, now), e.key)
  {
  }

  /**
   Success through a set is success under one of its keys, with the same payload, and conversely.
   The kid claim has no part in it: nothing on the right reads the claims probe.
   */
  lemma LicenseAcceptsExactly(p: Primitives, f: LicenseFile, keys: KeySet, licenseKey: bytes, now: int64,
                              payload: Payload)
    ensures (exists key :: LicenseWithKeySet(p, f, keys, licenseKey, now).result == Ok(Verified(payload, key)))
       <==> (exists i :: 0 <= i < |keys|
                         && VerifyLicense(p, f, keys[i].publicKey, licenseKey, now).result == Ok(payload))
  {
    if LicenseAlgAllowed(f.alg) && Base64.Decode(f.sig).Some? {
      var i := FirstVerifying(p, keys, f.enc, Base64.Decode(f.sig).value);
      if i < |keys| {
        LicenseRefinesSingleKey(p, f, keys, Base64.Decode(f.sig).value, licenseKey, now);
        if VerifyLicense(p, f, keys[i].publicKey, licenseKey, now).result == Ok(payload) {
          assert LicenseWithKeySet(p, f, keys, licenseKey, now).result == Ok(Verified(payload, keys[i].key));
        }
      }
    }
  }

  lemma MachineAcceptsExactly(p: Primitives, f: MachineFile, keys: KeySet, licenseKey: bytes, fingerprint: bytes,
                              now: int64, payload: Payload)
    ensures (exists key :: MachineWithKeySet(p, f, Ed25519Sign, keys, licenseKey, fingerprint, now).result
                           == Ok(Verified(payload, key)))
       <==> (exists i :: 0 <= i < |keys|
                         && VerifyMachine(p, f, Ed25519Sign, Ed25519Key(keys[i].publicKey), licenseKey, fingerprint,
                                          now).result == Ok(payload))
  {
    hide OpenContent, MachineGate, Base64.Decode, FailedChecks;
    if MachineGate(f.alg, Ed25519Sign).Ok? && Base64.Decode(f.sig).Some? {
      var i := FirstVerifying(p, keys, f.enc, Base64.Decode(f.sig).value);
      if i < |keys| {
        MachineRefinesSingleKey(p, f, keys, Base64.Decode(f.sig).value, licenseKey, fingerprint, now);
        if VerifyMachine(p, f, Ed25519Sign, Ed25519Key(keys[i].publicKey), licenseKey, fingerprint, now).result
           == Ok(payload) {
          assert MachineWithKeySet(p, f, Ed25519Sign, keys, licenseKey, fingerprint, now).result
              == Ok(Verified(payload, keys[i].key));
        }
      }
    }
  }

  // ----- reordering, supersets, rotation

  /** The clock moves on, but not past the file's own expiry. */
  ghost predicate StillCurrent(payload: Payload, now: int64) {
    !IsExpired(now, payload.claims.exp)
  }

  lemma LicensePayloadOutlivesKeys(p: Primitives, f: LicenseFile, a: bytes, b: bytes, sig: bytes, licenseKey: bytes,
                                   now: int64, later: int64, payload: Payload)
    requires VerifyLicense(p, f, a, licenseKey, now).result == Ok(payload)
    requires Base64.Decode(f.sig) == Some(sig) && VerifyEd25519(p, b, f.enc, sig) && StillCurrent(payload, later)
    ensures VerifyLicense(p, f, b, licenseKey, later).result == Ok(payload)
  {
  }

  /** A file that verified against one set verifies, with the same payload, against any set holding the same keys. */
  lemma MoreKeysKeepLicense(p: Primitives, f: LicenseFile, keys: KeySet, more: KeySet, licenseKey: bytes,
                            now: int64, later: int64, v: Verified)
    requires LicenseWithKeySet(p, f, keys, licenseKey, now).result == Ok(v)
    requires PublicKeys(keys) <= PublicKeys(more) && StillCurrent(v.payload, later)
    ensures exists key :: LicenseWithKeySet(p, f, more, licenseKey, later).result == Ok(Verified(v.payload, key))
  {
    LicenseAcceptsExactly(p, f, keys, licenseKey, now, v.payload);
    var i :| 0 <= i < |keys| && VerifyLicense(p, f, keys[i].publicKey, licenseKey, now).result == Ok(v.payload);
    assert keys[i].publicKey in PublicKeys(more);
    var j :| 0 <= j < |more| && more[j].publicKey == keys[i].publicKey;
    LicensePayloadOutlivesKeys(p, f, keys[i].publicKey, more[j].publicKey, Base64.Decode(f.sig).value, licenseKey,
                               now, later, v.payload);
    LicenseAcceptsExactly(p, f, more, licenseKey, later, v.payload);
  }

  lemma MachinePayloadOutlivesKeys(p: Primitives, f: MachineFile, a: bytes, b: bytes, sig: bytes, licenseKey: bytes,
                                   fingerprint: bytes, now: int64, later: int64, payload: Payload)
    requires VerifyMachine(p, f, Ed25519Sign, Ed25519Key(a), licenseKey, fingerprint, now).result == Ok(payload)
    requires Base64.Decode(f.sig) == Some(sig) && VerifyEd25519(p, b, f.enc, sig) && StillCurrent(payload, later)
    ensures VerifyMachine(p, f, Ed25519Sign, Ed25519Key(b), licenseKey, fingerprint, later).result == Ok(payload)
  {
  }

  lemma MoreKeysKeepMachine(p: Primitives, f: MachineFile, keys: KeySet, more: KeySet, licenseKey: bytes,
                            fingerprint: bytes, now: int64, later: int64, v: Verified)
    requires MachineWithKeySet(p, f, Ed25519Sign, keys, licenseKey, fingerprint, now).result == Ok(v)
    requires PublicKeys(keys) <= PublicKeys(more) && StillCurrent(v.payload, later)
    ensures exists key :: MachineWithKeySet(p, f, Ed25519Sign, more, licenseKey, fingerprint, later).result
                          == Ok(Verified(v.payload, key))
  {
    MachineAcceptsExactly(p, f, keys, licenseKey, fingerprint, now, v.payload);
    var i :| 0 <= i < |keys| && VerifyMachine(p, f, Ed25519Sign, Ed25519Key(keys[i].publicKey), licenseKey,
                                              fingerprint, now).result == Ok(v.payload);
    assert keys[i].publicKey in PublicKeys(more);
    var j :| 0 <= j < |more| && more[j].publicKey == keys[i].publicKey;
    MachinePayloadOutlivesKeys(p, f, keys[i].publicKey, more[j].publicKey, Base64.Decode(f.sig).value, licenseKey,
                               fingerprint, now, later, v.payload);
    MachineAcceptsExactly(p, f, more, licenseKey, fingerprint, later, v.payload);
  }

  /**
   Rotation is survivable: over every key history, a file that verified against the keys published
   at one point keeps verifying, with the same payload, against every later key set until it expires.
   */
  lemma RotationKeepsFiles(p: Primitives, history: seq<seq<SigningKey>>, i: nat, j: nat, f: LicenseFile,
                           licenseKey: bytes, now: int64, later: int64, v: Verified)
    requires IsHistory(history) && i <= j < |history|
    requires LicenseWithKeySet(p, f, EntriesOf(p.keyId, history[i]), licenseKey, now).result == Ok(v)
    requires StillCurrent(v.payload, later)
    ensures exists key :: LicenseWithKeySet(p, f, EntriesOf(p.keyId, history[j]), licenseKey, later).result
                          == Ok(Verified(v.payload, key))
  {
    HistoryKeepsKeys(p.keyId, history, i, j);
    var before, after := EntriesOf(p.keyId, history[i]), EntriesOf(p.keyId, history[j]);
    MoreKeysKeepLicense(p, f, before, after, licenseKey, now, later, v);
  }

  lemma RotationKeepsMachineFiles(p: Primitives, history: seq<seq<SigningKey>>, i: nat, j: nat, f: MachineFile,
                                  licenseKey: bytes, fingerprint: bytes, now: int64, later: int64, v: Verified)
    requires IsHistory(history) && i <= j < |history|
    requires MachineWithKeySet(p, f, Ed25519Sign, EntriesOf(p.keyId, history[i]), licenseKey, fingerprint, now).result
          == Ok(v)
    requires StillCurrent(v.payload, later)
    ensures exists key :: MachineWithKeySet(p, f, Ed25519Sign, EntriesOf(p.keyId, history[j]), licenseKey, fingerprint,
                                            later).result == Ok(Verified(v.payload, key))
  {
    HistoryKeepsKeys(p.keyId, history, i, j);
    MoreKeysKeepMachine(p, f, EntriesOf(p.keyId, history[i]), EntriesOf(p.keyId, history[j]), licenseKey, fingerprint,
                        now, later, v);
  }

  // ----- fail-closed order

  /** Every held key was tried, and failed, before the first payload byte was read; and the run ends in an error. */
  ghost predicate FailsAfterEveryKey<T>(run: Run<T>, keys: KeySet) {
    && run.result.Err?
    && forall k, i :: 0 <= k < |run.steps| && TouchesPayload(run.steps[k]) && 0 <= i < |keys|
                      ==> exists j :: 0 <= j < k && run.steps[j] == CheckSig(keys[i].publicKey, false)
  }

  lemma StepBefore(keys: KeySet, after: seq<Step>, k: nat)
    requires k < 2 + |keys|
    ensures var steps := [AlgGate, DecodeSig] + FailedChecks(keys, |keys|) + after;
            !TouchesPayload(steps[k]) && (k >= 2 ==> steps[k] == CheckSig(keys[k - 2].publicKey, false))
  {
    if k >= 2 { assert FailedChecks(keys, |keys|)[k - 2] == CheckSig(keys[k - 2].publicKey, false); }
  }

  lemma RejectionOrder(keys: KeySet, after: seq<Step>, run: Run<Verified>)
    requires run.result.Err? && run.steps == [AlgGate, DecodeSig] + FailedChecks(keys, |keys|) + after
    ensures FailsAfterEveryKey(run, keys)
  {
    var steps := run.steps;
    forall k, i | 0 <= k < |steps| && TouchesPayload(steps[k]) && 0 <= i < |keys|
      ensures exists j :: 0 <= j < k && steps[j] == CheckSig(keys[i].publicKey, false)
    {
      if k < 2 + |keys| { StepBefore(keys, after, k); }
      StepBefore(keys, after, 2 + i);
    }
  }

  lemma ScanOrder(p: Primitives, keys: KeySet, c: Content, sig: bytes, now: int64)
    ensures var run := After([AlgGate, DecodeSig], ScanOutcome(p, keys, c, sig, now));
            FailClosed(run.steps) || FailsAfterEveryKey(run, keys)
  {
    hide OpenContent, DecodeContent;
    var run := After([AlgGate, DecodeSig], ScanOutcome(p, keys, c, sig, now));
    var i := FirstVerifying(p, keys, Signed(c), sig);
    if i < |keys| {
      var content := WithKey(keys[i].key, OpenContent(p, c, now));
      var before := [AlgGate, DecodeSig] + FailedChecks(keys, i);
      assert run.steps == before + [CheckSig(keys[i].publicKey, true)] + content.steps;
      PassedCheckFirst(before, keys[i].publicKey, content.steps);
    } else {
      var after := Rejection(p, keys, c).steps;
      assert run.steps == [AlgGate, DecodeSig] + FailedChecks(keys, |keys|) + after;
      RejectionOrder(keys, after, run);
    }
  }

  /** On every run a check passed before the first payload byte was read, or every key failed first. */
  lemma LicenseKeySetOrder(p: Primitives, f: LicenseFile, keys: KeySet, licenseKey: bytes, now: int64)
    ensures var run := LicenseWithKeySet(p, f, keys, licenseKey, now);
            FailClosed(run.steps) || FailsAfterEveryKey(run, keys)
  {
    if Base64.Decode(f.sig).Some? {
      ScanOrder(p, keys, LicenseContent(f, licenseKey), Base64.Decode(f.sig).value, now);
    }
  }

  lemma MachineKeySetOrder(p: Primitives, f: MachineFile, scheme: Scheme, keys: KeySet, licenseKey: bytes,
                           fingerprint: bytes, now: int64)
    ensures var run := MachineWithKeySet(p, f, scheme, keys, licenseKey, fingerprint, now);
            FailClosed(run.steps) || FailsAfterEveryKey(run, keys)
  {
    var gate := MachineGate(f.alg, scheme);
    if gate.Ok? && Base64.Decode(f.sig).Some? {
      ScanOrder(p, keys, MachineContent(f.enc, gate.value, licenseKey, fingerprint), Base64.Decode(f.sig).value, now);
    }
  }

  // ----- what the payload can and cannot influence

  /** `q` differs from `p` at most in what it reads as the claims of an unverified document. */
  ghost predicate DifferInProbe(p: Primitives, q: Primitives) {
    q == p.(claimsProbe := q.claimsProbe)
  }

  /**
   The kid claim plays no part in acceptance: changing what the probe reads changes no success and no
   payload, and nothing at all about a run in which some key verifies.
   */
  lemma KidNeverAcceptsLicense(p: Primitives, q: Primitives, f: LicenseFile, keys: KeySet, licenseKey: bytes,
                               now: int64)
    requires DifferInProbe(p, q)
    ensures var r, r' := LicenseWithKeySet(p, f, keys, licenseKey, now), LicenseWithKeySet(q, f, keys, licenseKey, now);
            && (r.result.Ok? <==> r'.result.Ok?) && (r.result.Ok? ==> r == r')
            && (r != r' ==> forall i :: 0 <= i < |keys| ==> CheckSig(keys[i].publicKey, false) in r.steps)
  {
    if Base64.Decode(f.sig).Some? {
      ProbeOnlyRejects(p, q, keys, LicenseContent(f, licenseKey), Base64.Decode(f.sig).value, now);
    }
  }

  lemma KidNeverAcceptsMachine(p: Primitives, q: Primitives, f: MachineFile, scheme: Scheme, keys: KeySet,
                               licenseKey: bytes, fingerprint: bytes, now: int64)
    requires DifferInProbe(p, q)
    ensures var r := MachineWithKeySet(p, f, scheme, keys, licenseKey, fingerprint, now);
            var r' := MachineWithKeySet(q, f, scheme, keys, licenseKey, fingerprint, now);
            && (r.result.Ok? <==> r'.result.Ok?) && (r.result.Ok? ==> r == r')
            && (r != r' ==> forall i :: 0 <= i < |keys| ==> CheckSig(keys[i].publicKey, false) in r.steps)
  {
    hide MachineGate, Base64.Decode, ScanOutcome;
    var gate := MachineGate(f.alg, scheme);
    if gate.Ok? && Base64.Decode(f.sig).Some? {
      var c := MachineContent(f.enc, gate.value, licenseKey, fingerprint);
      ProbeOnlyRejects(p, q, keys, c, Base64.Decode(f.sig).value, now);
    }
  }

  lemma {:induction false} SameScan(p: Primitives, q: Primitives, keys: KeySet, enc: bytes, sig: bytes, from: nat)
    requires SignaturesAgree(p, q) && from <= |keys|
    ensures FirstVerifyingFrom(p, keys, enc, sig, from) == FirstVerifyingFrom(q, keys, enc, sig, from)
    decreases |keys| - from
  {
    if from < |keys| { SameScan(p, q, keys, enc, sig, from + 1); }
  }

  lemma FailedChecksAreNoted(keys: KeySet, after: seq<Step>, i: nat)
    requires i < |keys|
    ensures CheckSig(keys[i].publicKey, false) in [AlgGate, DecodeSig] + (FailedChecks(keys, |keys|) + after)
  {
    assert ([AlgGate, DecodeSig] + (FailedChecks(keys, |keys|) + after))[2 + i] == CheckSig(keys[i].publicKey, false);
  }

  lemma ProbeIsNotOpened(p: Primitives, q: Primitives, c: Content, now: int64)
    requires DifferInProbe(p, q)
    ensures OpenContent(p, c, now) == OpenContent(q, c, now) && SignaturesAgree(p, q)
  {
  }

  lemma ProbeOnlyRejects(p: Primitives, q: Primitives, keys: KeySet, c: Content, sig: bytes, now: int64)
    requires DifferInProbe(p, q)
    ensures var r := After([AlgGate, DecodeSig], ScanOutcome(p, keys, c, sig, now));
            var r' := After([AlgGate, DecodeSig], ScanOutcome(q, keys, c, sig, now));
            && (r.result.Ok? <==> r'.result.Ok?) && (r.result.Ok? ==> r == r')
            && (r != r' ==> forall i :: 0 <= i < |keys| ==> CheckSig(keys[i].publicKey, false) in r.steps)
  {
    hide OpenContent, DecodeContent, VerifyEd25519, SignaturesAgree;
    ProbeIsNotOpened(p, q, c, now);
    SameScan(p, q, keys, Signed(c), sig, 0);
    forall i | 0 <= i < |keys|
      ensures CheckSig(keys[i].publicKey, false)
              in [AlgGate, DecodeSig] + (FailedChecks(keys, |keys|) + Rejection(p, keys, c).steps)
    {
      FailedChecksAreNoted(keys, Rejection(p, keys, c).steps, i);
    }
  }

  /** When no held key verifies, the file is refused, whatever decoding, decrypting, parsing and probing would give. */
  lemma UnsignedLicenseIsRefused(p: Primitives, q: Primitives, f: LicenseFile, keys: KeySet, sig: bytes,
                                 licenseKey: bytes, now: int64)
    requires SignaturesAgree(p, q) && Base64.Decode(f.sig) == Some(sig)
    requires FirstVerifying(p, keys, f.enc, sig) == |keys|
    ensures LicenseWithKeySet(q, f, keys, licenseKey, now).result.Err?
  {
    SameScan(p, q, keys, f.enc, sig, 0);
  }

  lemma UnsignedMachineIsRefused(p: Primitives, q: Primitives, f: MachineFile, scheme: Scheme, keys: KeySet,
                                 sig: bytes, licenseKey: bytes, fingerprint: bytes, now: int64)
    requires SignaturesAgree(p, q) && Base64.Decode(f.sig) == Some(sig)
    requires FirstVerifying(p, keys, f.enc, sig) == |keys|
    ensures MachineWithKeySet(q, f, scheme, keys, licenseKey, fingerprint, now).result.Err?
  {
    SameScan(p, q, keys, f.enc, sig, 0);
  }

  /** The two agree on everything, but for what their probes read in the claims besides the kid. */
  ghost predicate AgreeButForClaims(p: Primitives, q: Primitives) {
    && q == p.(claimsProbe := q.claimsProbe)
    && forall plain, kid :: ProbesKid(p, plain, kid) <==> ProbesKid(q, plain, kid)
  }

  ghost predicate ProbesKid(p: Primitives, plain: bytes, kid: bytes) {
    exists claims: Claims :: p.claimsProbe(plain) == Some(Some(claims)) && claims.kid == kid
  }

  lemma SameKid(p: Primitives, q: Primitives, plain: bytes)
    requires AgreeButForClaims(p, q)
    ensures UnverifiedKeyId(p, plain) == UnverifiedKeyId(q, plain)
  {
    if p.claimsProbe(plain).Some? && p.claimsProbe(plain).value.Some? {
      assert ProbesKid(p, plain, p.claimsProbe(plain).value.value.kid);
    }
    if q.claimsProbe(plain).Some? && q.claimsProbe(plain).value.Some? {
      assert ProbesKid(q, plain, q.claimsProbe(plain).value.value.kid);
    }
  }

  lemma SameScanOutcome(p: Primitives, q: Primitives, keys: KeySet, c: Content, sig: bytes, now: int64)
    requires AgreeButForClaims(p, q)
    ensures ScanOutcome(p, keys, c, sig, now) == ScanOutcome(q, keys, c, sig, now)
  {
    ProbeIsNotOpened(p, q, c, now);
    SameScan(p, q, keys, Signed(c), sig, 0);
    SameDecode(p, q, c);
    if DecodeContent(p, c).result.Ok? { SameKid(p, q, DecodeContent(p, c).result.value); }
    hide OpenContent, DecodeContent, UnverifiedKeyId, VerifyEd25519;
  }

  lemma SameDecode(p: Primitives, q: Primitives, c: Content)
    requires AgreeButForClaims(p, q)
    ensures DecodeContent(p, c) == DecodeContent(q, c)
  {
  }

  /** Of an unverified document only the kid is ever used: its other claims have no influence on any outcome. */
  lemma OnlyTheKidIsReadLicense(p: Primitives, q: Primitives, f: LicenseFile, keys: KeySet, licenseKey: bytes,
                                now: int64)
    requires AgreeButForClaims(p, q)
    ensures LicenseWithKeySet(p, f, keys, licenseKey, now) == LicenseWithKeySet(q, f, keys, licenseKey, now)
  {
    hide ScanOutcome, AgreeButForClaims;
    if Base64.Decode(f.sig).Some? {
      SameScanOutcome(p, q, keys, LicenseContent(f, licenseKey), Base64.Decode(f.sig).value, now);
    }
  }

  lemma OnlyTheKidIsReadMachine(p: Primitives, q: Primitives, f: MachineFile, scheme: Scheme, keys: KeySet,
                                licenseKey: bytes, fingerprint: bytes, now: int64)
    requires AgreeButForClaims(p, q)
    ensures MachineWithKeySet(p, f, scheme, keys, licenseKey, fingerprint, now)
         == MachineWithKeySet(q, f, scheme, keys, licenseKey, fingerprint, now)
  {
    hide ScanOutcome, AgreeButForClaims, MachineGate;
    var gate := MachineGate(f.alg, scheme);
    if gate.Ok? && Base64.Decode(f.sig).Some? {
      SameScanOutcome(p, q, keys, MachineContent(f.enc, gate.value, licenseKey, fingerprint),
                      Base64.Decode(f.sig).value, now);
    }
  }

  // ----- the unsupported alg

  /** Both license entry points report an alg as unsupported exactly when it is not one of the two. */
  lemma UnsupportedLicenseExactly(p: Primitives, f: LicenseFile, pub: bytes, keys: KeySet, licenseKey: bytes,
                                  now: int64)
    ensures VerifyLicense(p, f, pub, licenseKey, now).result == Err(UnsupportedAlgorithm) <==> !LicenseAlgAllowed(f.alg)
    ensures LicenseWithKeySet(p, f, keys, licenseKey, now).result == Err(UnsupportedAlgorithm)
       <==> !LicenseAlgAllowed(f.alg)
  {
    hide VerifyEd25519, Base64.Decode, IsExpired;
    AlgsDiffer();
  }

  lemma UnsupportedPastTheScan(p: Primitives, f: MachineFile, keys: KeySet, licenseKey: bytes, fingerprint: bytes,
                               now: int64)
    ensures var gate := MachineGate(f.alg, Ed25519Sign);
            MachineWithKeySet(p, f, Ed25519Sign, keys, licenseKey, fingerprint, now).result == Err(UnsupportedAlgorithm)
            <==> || gate == Err(UnsupportedAlgorithm)
                 || (gate.Ok? && gate.value != PLAIN_PREFIX && gate.value != ENCRYPTED_PREFIX
                     && keys != [] && Base64.Decode(f.sig).Some?)
  {
    hide MachineGate, Base64.Decode, VerifyEd25519, SplitEncryptedEnc, IsExpired;
  }

  /**
   The key-set machine method: not a v2 alg at all; or an unknown encoding prefix, and then whether or not
   any key verifies, so that here it is never taken for a forgery.
   */
  lemma UnsupportedMachineExactly(p: Primitives, f: MachineFile, scheme: Scheme, keys: KeySet, licenseKey: bytes,
                                  fingerprint: bytes, now: int64)
    ensures MachineWithKeySet(p, f, scheme, keys, licenseKey, fingerprint, now).result == Err(UnsupportedAlgorithm)
       <==> || (scheme != Rsa2048JwtRs256 && !IsV2Alg(f.alg))
            || (scheme == Ed25519Sign && HasUnknownPrefix(f.alg, scheme) && keys != [] && Base64.Decode(f.sig).Some?)
  {
    hide Base64.Decode, MachineGate, ScanOutcome, HasUnknownPrefix, IsV2Alg;
    GateRefusesExactly(f.alg, scheme);
    if scheme == Ed25519Sign {
      UnsupportedPastTheScan(p, f, keys, licenseKey, fingerprint, now);
      GatePassesUnknownPrefix(f.alg, scheme);
    }
  }

  // ----- which rejection

  /** errors.Is(err, ErrUnknownSigningKey), by way of Unwrap. */
  predicate MatchesUnknown(e: FileError) {
    e.UnknownSigningKey? && e.kid != UNPUBLISHED_ID
  }

  /** errors.Is(err, ErrSigningKeyNotPublished). */
  predicate MatchesNotPublished(e: FileError) {
    e.UnknownSigningKey? && e.kid == UNPUBLISHED_ID
  }

  /** The document's claims, whatever their signature is worth, name this non-empty kid. */
  ghost predicate NamesKid(p: Primitives, c: Content, kid: bytes) {
    && kid != [] && DecodeContent(p, c).result.Ok?
    && exists claims: Claims :: p.claimsProbe(DecodeContent(p, c).result.value) == Some(Some(claims))
                                && claims.kid == kid
  }

  /** The kid a rejected file names: readable, non-empty and held under neither its served nor its computed id. */
  ghost predicate NamesUnheldKey(p: Primitives, keys: KeySet, c: Content, kid: bytes) {
    NamesKid(p, c, kid) && forall i :: 0 <= i < |keys| ==> keys[i].key.id != kid && keys[i].computedId != kid
  }

  /**
   One of four disjoint rejections, each exactly when its condition holds: an unheld kid, a missing credential,
   an unsupported alg, or else a bad signature; and no error answers to both kid sentinels.
   */
  ghost predicate RejectsByCase(p: Primitives, keys: KeySet, c: Content, r: Result<Verified, FileError>) {
    && r.Err?
    && !(MatchesUnknown(r.error) && MatchesNotPublished(r.error))
    && (r.error.UnknownSigningKey? <==> exists kid :: NamesUnheldKey(p, keys, c, kid))
    && (forall kid :: NamesUnheldKey(p, keys, c, kid) ==> r.error == UnknownSigningKey(kid, KeyIds(keys)))
    && (MatchesNotPublished(r.error) <==> NamesUnheldKey(p, keys, c, Ascii("e3b0c44298fc1c14")))
    && (MatchesUnknown(r.error) <==>
          exists kid :: kid != Ascii("e3b0c44298fc1c14") && NamesUnheldKey(p, keys, c, kid))
    && (forall e :: e == LicenseKeyRequired || e == FingerprintRequired || e == UnsupportedAlgorithm
                    ==> (r.error == e <==> DecodeContent(p, c).result == Err(e)))
    && (r.error == InvalidSignature || r.error.UnknownSigningKey? || r.error == LicenseKeyRequired
        || r.error == FingerprintRequired || r.error == UnsupportedAlgorithm)
  }

  lemma ScanRejectsByCase(p: Primitives, keys: KeySet, c: Content, sig: bytes, now: int64)
    requires FirstVerifying(p, keys, Signed(c), sig) == |keys|
    ensures RejectsByCase(p, keys, c, ScanOutcome(p, keys, c, sig, now).result)
  {
    if DecodeContent(p, c).result.Ok? {
      var plain := DecodeContent(p, c).result.value;
      var kid := UnverifiedKeyId(p, plain);
      if kid != [] { assert p.claimsProbe(plain).value.value.kid == kid; }
      assert kid != [] ==> NamesKid(p, c, kid);
      assert NamesUnheldKey(p, keys, c, kid) <==> kid != [] && !Holds(keys, kid);
    }
    assert |UNPUBLISHED_ID| == 16;
  }

  /** A license file that passes the gate, with a readable signature and keys none of which verifies it. */
  lemma LicenseRejectionCases(p: Primitives, f: LicenseFile, keys: KeySet, licenseKey: bytes, sig: bytes, now: int64)
    requires LicenseAlgAllowed(f.alg) && Base64.Decode(f.sig) == Some(sig) && keys != []
    requires forall i :: 0 <= i < |keys| ==> !(|keys[i].publicKey| == 32 && p.ed25519(keys[i].publicKey, f.enc, sig))
    ensures RejectsByCase(p, keys, LicenseContent(f, licenseKey), LicenseWithKeySet(p, f, keys, licenseKey, now).result)
  {
    hide RejectsByCase;
    ScanRejectsByCase(p, keys, LicenseContent(f, licenseKey), sig, now);
  }

  /** The same for a machine file, decoded under the prefix its gate passed. */
  lemma MachineRejectionCases(p: Primitives, f: MachineFile, keys: KeySet, prefix: bytes, licenseKey: bytes,
                              fingerprint: bytes, sig: bytes, now: int64)
    requires MachineGate(f.alg, Ed25519Sign) == Ok(prefix) && Base64.Decode(f.sig) == Some(sig) && keys != []
    requires forall i :: 0 <= i < |keys| ==> !(|keys[i].publicKey| == 32 && p.ed25519(keys[i].publicKey, f.enc, sig))
    ensures RejectsByCase(p, keys, MachineContent(f.enc, prefix, licenseKey, fingerprint),
                          MachineWithKeySet(p, f, Ed25519Sign, keys, licenseKey, fingerprint, now).result)
  {
    hide RejectsByCase, MachineGate;
    ScanRejectsByCase(p, keys, MachineContent(f.enc, prefix, licenseKey, fingerprint), sig, now);
  }
}
