# Verification model of tamga-go

A Dafny model of the parts of the tamga-go licensing SDK whose correctness is decided by code rather
than by a remote party: what an offline proof signs, what a machine fingerprint is, when an offline
file is accepted, how a machine is activated without harming anyone else's, what a cached entitlement
answer is worth, and the arithmetic behind retries, heartbeats, overage and paging.

Go strings and byte slices are sequences of bytes. Ed25519, RSA, ECDSA, SHA-256, HKDF and AES-GCM are
uninterpreted deterministic functions (the fields of `Checkout.Primitives`, and function parameters
elsewhere); nothing is claimed about forgery or collisions. Clocks, jitter, cancellation and the
server's answers are parameters, quantified over. Loops and mutable objects of the source are methods
and classes here, each proved equal to a specification function; what the source promises is then
proved about that function.

| file | models |
|---|---|
| Bytes.dfy, Fingerprint.dfy | fingerprint.go: validate, trim, sort in place, join; the parser that undoes it |
| Json.dfy, JsonParser.dfy, OfflineProof.dfy | proof.go: both JSON encoders, the escape-aware scanner, the payload and its parser |
| JsonSyntax.dfy | what the encoders write, in characters: escapes, numbers, UTF-8, punctuation |
| MalformedText.dfy | the same on strings that are not UTF-8: exactly when the bytes still agree, and still identify |
| Base64.dfy, WireFormat.dfy | base64 as Go decodes it (section 4 of RFC 4648), the `alg` strings, the two `enc` layouts |
| Checkout.dfy, SigningKeys.dfy | single-key verification as a function to a result and its steps; key sets and their history |
| TracedCheckout.dfy, KeySetVerification.dfy | the same steps as executed, noted in a trace as they happen; key-set verification and its error classification |
| MachineServer.dfy, MachineSearch.dfy | the machine rows as an object, the filter, the offset-paginated search |
| Activation.dfy, ActivationAlone.dfy, ActivationRuns.dfy | the activation protocol: under arbitrary answers, alone with a well-behaved server, in every interleaving |
| EntitlementCache.dfy | the TTL cache racing with fetches and invalidation |
| Arithmetic.dfy, Retry.dfy, Heartbeat.dfy, Overage.dfy, KeysetPaging.dfy | the 429 loop, ping intervals, float64 limits, keyset cursors |

## Where the code and its documentation disagree

The model follows the code.

- README.md:554 says machine files carry no signed expiry; checkout_machine.go:347 enforces one.
  `Checkout.MachineRefusals` and `Checkout.MachineVerifiesExactly` state it.
- doc.go:87 says a pre-v2 license file is rejected with ErrMissingClaims; the alg gate
  (checkout_license.go:265) refuses it first, as an unsupported algorithm. See `Checkout.LicenseRefusals`.
- errors.go:330-337 says that all four entry points report any alg that is not a recognized v2 value as
  ErrUnsupportedAlgorithm, before a signature is checked and never as ErrInvalidSignature. The two license
  methods do (`KeySetVerification.UnsupportedLicenseExactly`). A machine alg with the scheme's suffix and an
  unknown encoding prefix (`x+ed25519+v2`) passes the gate: Verify reports it as ErrInvalidSignature when the
  signature is bad, and the key-set method as unsupported, but only after every key was tried. A machine alg
  with an unknown suffix (`base64+foo+v2`) is reported as a suffix mismatch, which carries no sentinel. See
  `Checkout.UnsupportedIsReportedExactly`, `Checkout.GateRefusesExactly`,
  `KeySetVerification.UnsupportedMachineExactly` and the two examples beside them.
- entitlement.go:289-292 says an invalidation forces the next call to refetch. A fetch already under way can
  store after it: `EntitlementCache.InvalidationForcesRefetchExactly` says exactly when the promise holds.
- machine.go:606-607 says NextCursor marks a full page. With a limit above 100 the server sends 100 rows,
  which the client takes for a short page: the walk stops early. `KeysetPaging.WalkIsCompleteExactly` says
  exactly when a walk is complete, and `KeysetPaging.WalkCanStopEarly` shows one that is not.
- Activating twice is not activating once for an empty fingerprint whose conflict names no machine:
  `ActivationAlone.TwiceIsOnceExactly`.
- The float64 comparison of policy.go is not the integer one for every int64. It is for every int32, the type of
  each limit the policy resource exposes, and well beyond: `Overage.FloatVerdictIsExact`. The three
  `IsRightExactly` lemmas decide any max, and each strategy has an input where one count too many is allowed.
- The proof payload of a string that is not UTF-8 is neither the server's nor unambiguous:
  `MalformedText.MarshalMatchesSerdeExactly`, `MalformedText.PayloadIsAmbiguousExactly`.
- `now - 60` is int64 arithmetic. Where it wraps it can only turn a valid file into an expired one:
  `Checkout.AcceptedMeansNotExpired`, `Checkout.ExpiryIsExact`, `Checkout.ExpiryCanWrap`.

## Model

| member | source | states |
|---|---|---|
| Bytes.SortInPlace | fingerprint.go:163 | the in-place sort leaves the one sorted arrangement of what was there |
| Bytes.SortUnique | fingerprint.go:162-164 | two bytewise-sorted arrangements of the same strings are equal |
| Bytes.SortIgnoresOrder | fingerprint.go:162-164 | sorting two lists gives the same result exactly when they hold the same strings with the same multiplicities |
| Bytes.LexLeqExactly | fingerprint.go:162-164 | the order strings are sorted in: a prefix before its extensions, otherwise the smaller byte at the first difference |
| Bytes.SplitJoin | fingerprint.go:47-51 | splitting at the separator recovers the joined parts when no part contains it |
| Bytes.CutJoined | fingerprint.go:47-51 | cutting at the first separator recovers both halves, whatever the second contains |
| Fingerprint.ValidateLabel | fingerprint.go:174-188 | accepts exactly the non-empty labels of printable ASCII without an equals sign |
| Fingerprint.ValidateValue | fingerprint.go:193-201 | accepts exactly the values free of ASCII control characters |
| Fingerprint.RenderParts | fingerprint.go:143-161 | succeeds only on valid, duplicate-free components, rendered in order; otherwise names the first component at fault and its first fault |
| Fingerprint.CanonicalForm | fingerprint.go:139-165 | accepts exactly the non-empty, valid, duplicate-free inputs and returns their canonical string; any refusal is the first fault in input order |
| Fingerprint.TrimExactly | fingerprint.go:55-63 | trimming takes off all of the six ASCII white-space characters at both ends, and nothing else |
| Fingerprint.CanonicalText | fingerprint.go:45-51 | the canonical string in full: the domain tag, then each label=value after a unit separator, in byte order |
| Fingerprint.ParseUndoesCanonical | fingerprint.go:47-51 | a parser reads back from the canonical string exactly the (label, trimmed value) pairs, each once |
| Fingerprint.CanonicalIsIdentity | fingerprint.go:139-165 | two accepted inputs have the same canonical string if and only if they are the same set of (label, trimmed value) pairs |
| Fingerprint.OrderIsIrrelevant | fingerprint.go:162-164 | no permutation of the components changes acceptance or the result |
| Fingerprint.PreTrimmingIsIrrelevant | fingerprint.go:156 | trimming values beforehand changes neither acceptance nor the result |
| Fingerprint.TrimIdempotent | fingerprint.go:55-63 | trimming twice is trimming once |
| Json.KeyOrderIsIrrelevant | proof.go:107-121 | whatever order a map is walked in, the keys come out in one sorted order |
| Json.KeysAreInByteOrder | proof.go:107-121 | in that order a key comes before its extensions and before any key larger at the first difference |
| JsonSyntax.ValidUtf8Exactly | proof.go:122-138 | a string is accepted as well-formed if and only if it is the UTF-8 of some scalar values |
| JsonSyntax.DecodeUndoesUtf8 | proof.go:122-138 | decoding the UTF-8 of any scalar value gives that value back, whatever follows |
| JsonSyntax.EscapeTable | proof.go:122-138 | which ASCII characters are escaped, and how, in characters; all others stand for themselves |
| JsonSyntax.GoEscapesSeparators | proof.go:122-138 | Go writes U+2028 and U+2029 as six-character escapes |
| JsonSyntax.OthersAreRaw | proof.go:122-138 | every other scalar value above ASCII is written raw by both encoders |
| JsonSyntax.DecimalIsCanonical | proof.go:44-56 | a number is its decimal digits without a leading zero, and that is the only such text of its value |
| JsonSyntax.NumberText | proof.go:44-56 | a negative number is a minus sign and the decimal of its magnitude, zero has no sign |
| JsonSyntax.ArrayText | proof.go:107-121 | brackets, commas and the literals of an array, in full |
| JsonParser.ReadsBack | proof.go:139-149 | a parser recovers any value from its serde encoding, whatever follows it, and leaves exactly the rest |
| JsonParser.EncodeIsInjective | proof.go:139-149 | two values have equal serde bytes if and only if they are equal |
| OfflineProof.NextToken | proof.go:199-222 | one turn of the scanner consumes one token of the remaining input and writes that token's image |
| OfflineProof.UnescapeSeparators | proof.go:196-225 | the scanner's loop computes the token-wise rewriting of its whole input |
| OfflineProof.NeverLengthens | proof.go:183-225 | on every byte string the scanner's output is no longer than its input |
| OfflineProof.Idempotent | proof.go:183-225 | on every byte string scanning twice is scanning once |
| OfflineProof.ScanConcat | proof.go:183-195 | if two texts are whole numbers of tokens, so is their concatenation, and it is rewritten piecewise whatever follows |
| OfflineProof.ScanChars | proof.go:183-195 | the Go body of any well-formed string, wherever it stands, is rewritten to its serde body: a literal backslash before u2028 is never taken for an escape |
| OfflineProof.ScanValue | proof.go:183-195 | the same for whole values through every nesting of arrays and objects |
| OfflineProof.MarshalBuffer | proof.go:171-181 | the marshaller returns the scanner's rewriting of the encoder's output without its newline |
| MalformedText.MarshalMatchesSerdeExactly | proof.go:122-138 | for every JSON value over integers the produced bytes are the serde encoding, byte for byte, if and only if every string in it, keys included, is well-formed UTF-8 |
| MalformedText.StringIsIdentifiedExactly | proof.go:171-181 | the produced bytes of a string identify it among all strings if and only if it is well-formed |
| MalformedText.WellFormedIsIdentified | proof.go:171-181 | no other value, well-formed or not, has the bytes of a well-formed value |
| MalformedText.ValueIsIdentifiedExactly | proof.go:171-181 | for a value whose object keys are well-formed, its bytes identify it among all values if and only if all its strings are well-formed |
| OfflineProof.PayloadLayout | proof.go:91-106 | the signed bytes are account, dataset, machine, and inside machine fingerprint before id, with no spaces |
| OfflineProof.PayloadText | proof.go:91-106 | the signed bytes in full, character by character around the five values |
| OfflineProof.TwoMembersInOrder | proof.go:107-121 | any two dataset members are written in byte order of their keys, whatever order the map was built in |
| OfflineProof.PayloadReadsBack | proof.go:139-149 | a parser recovers the whole signed value from the payload bytes |
| MalformedText.PayloadIsUnambiguous | proof.go:139-149 | a payload over well-formed strings has equal bytes with any other, well-formed or not, if and only if account, machine, fingerprint and dataset agree |
| MalformedText.PayloadIsAmbiguousExactly | proof.go:139-149 | while the dataset keys are well-formed, the signed bytes stand for more than one tuple if and only if some string in the tuple is malformed |
| OfflineProof.GenuineProofIsAccepted | proof.go:237-253 | a proof in the server's format is accepted exactly when its signature verifies over the server's own serde bytes of the tuple |
| OfflineProof.ProofOutcomes | proof.go:237-253 | the three refusals and acceptance, each if and only if its condition holds: no key, no proof in the v1x0 format, a signature that does not verify over the payload |
| Base64.DecodeUndoesEncode | checkout_machine.go:427-453 | decoding an encoding returns the original bytes, for all bytes |
| Base64.DecodesExactly | checkout_machine.go:427-453 | what the decoder accepts: with CR and LF removed, exactly the encoding of the result but for the unchecked bits under the padding |
| Base64.LineBreaksAreSkipped | checkout_machine.go:427-453 | a CR or LF anywhere changes nothing |
| Base64.AlphabetIsStandard | checkout_machine.go:262-274 | the symbols are the standard alphabet, in both directions, and nothing else has a value |
| Base64.ForeignByteIsRefused | checkout_machine.go:262-274 | one byte outside the alphabet, other than CR and LF, makes the decoder refuse the whole string |
| WireFormat.ParseUndoesPrint | checkout_machine.go:389-406 | the alg parser recovers every non-empty plus-free prefix and non-empty suffix, even a suffix containing pluses |
| WireFormat.ParsesExactlyPrintedAlgs | checkout_machine.go:389-406 | the parser accepts a string as a pair if and only if the string is that pair printed, so it reads each string in one way only |
| WireFormat.LicenseGateAgreesWithParser | checkout_license.go:63-71 | the license gate accepts exactly what the machine parser reads as Ed25519 under one of the two encodings |
| WireFormat.LicenseAlgsExactly | checkout_license.go:63-71 | the two algs the license gate accepts, in full |
| WireFormat.SplitUndoesJoin | checkout_machine.go:427-453 | splitting the dot-joined halves returns every nonce and every ciphertext that can hold a tag |
| WireFormat.SplitsExactly | checkout_machine.go:427-453 | splitting succeeds if and only if there is exactly one dot between two decodable halves, the second of at least 16 bytes; a shorter one is reported as such |
| WireFormat.LayoutsAreDisjoint | checkout_machine.go:262-274 | no string is readable both as one base64 blob and as two dotted halves |
| WireFormat.BlobReadsBack | checkout_license.go:318-324 | a license file's blob gives back its 12-byte nonce and the rest |
| Checkout.AcceptedMeansNotExpired | checkout_license.go:353-357 | a file that passes the expiry test is within 60 s of its expiry, even where the subtraction wraps |
| Checkout.ExpiryIsExact | checkout_machine.go:347-351 | the int64 test agrees with the exact one if and only if the clock is not within 60 s of the smallest int64, or the expiry is so large that wrapping does not show |
| Checkout.ExpiryCanWrap | checkout_machine.go:347-351 | a clock and an expiry at which the wrapped test reports a current file as expired |
| Checkout.NoExpiryNeverExpires | checkout_license.go:353-357 | a license file whose claims carry no expiry, once valid, is valid at any time |
| Checkout.NoMachineExpiryNeverExpires | checkout_machine.go:340-351 | the same for machine files |
| Checkout.LicenseVerifiesExactly | checkout_license.go:262-324 | a license file verifies to a payload if and only if its alg is allowed, the Ed25519 primitive accepts its signature over enc under a 32-byte key, and what enc carries is that payload, with claims and current |
| Checkout.GatePassesExactly | checkout_machine.go:218-243 | the machine gate passes a prefix if and only if the alg is that prefix printed with the suffix of a supported scheme |
| Checkout.MachineVerifiesExactly | checkout_machine.go:218-323 | a machine file verifies to a payload if and only if the gate, the scheme's own primitive under a key of its type, decoding under the gate's prefix, claims and expiry all agree |
| Checkout.ChecksExactly | checkout_machine.go:488-530 | a signature check passes if and only if the primitive of the scheme accepts key, message and signature; a key of another type is refused as such |
| Checkout.OnlyTheSchemeDecides | checkout_machine.go:488-530 | no signature primitive but the scheme's own has any influence on the outcome |
| Checkout.OnlyEd25519Decides | checkout_license.go:262-288 | nor has any but Ed25519 on a license file |
| Checkout.Ed25519Alg | checkout_machine.go:465-478 | the alg base64+ed25519+v2 passes under its scheme and no other |
| Checkout.RsaAlg | checkout_machine.go:465-478 | the alg base64+rsa-sha256+v2 passes under PKCS#1 v1.5 and no other scheme |
| Checkout.RsaPssAlg | checkout_machine.go:465-478 | the alg base64+rsa-pss-sha256+v2 passes under PSS and no other scheme |
| Checkout.EcdsaAlg | checkout_machine.go:465-478 | the alg base64+ecdsa-p256+v2 passes under ECDSA and no other scheme |
| Checkout.LicenseRefusals | checkout_license.go:262-357 | which refusal, as exact conditions: unsupported alg, malformed signature, bad signature; expiry and missing claims are reported for genuinely signed files only |
| Checkout.MachineRefusals | checkout_machine.go:218-352 | the same for machine files: a gate error before anything else, a bad signature exactly when the check fails, expiry for genuinely signed files only |
| Checkout.LicenseContentRefusals | checkout_license.go:301-345 | each refusal a genuinely signed license file can meet while it is decoded, decrypted and parsed, with its exact condition |
| Checkout.MachineContentRefusals | checkout_machine.go:292-323 | the same for a machine file: credentials, the two halves, the key, the nonce, the decryption |
| Checkout.MachineDocumentRefusals | checkout_machine.go:328-346 | and an unreadable document or one without claims |
| Checkout.WhatTouchesPayload | checkout_license.go:277-287 | which steps read payload bytes: all but the gate, the signature, and deriving a key from the credentials |
| Checkout.LicenseIsFailClosed | checkout_license.go:277-287 | on every run no payload byte is decoded, decrypted or parsed before a signature check has passed |
| Checkout.MachineIsFailClosed | checkout_machine.go:244-280 | the same for machine files, under every scheme and key type |
| Checkout.UnsignedLicenseIsUnread | checkout_license.go:262-288 | unless the signature verifies, the outcome is the same whatever decrypting, key derivation and parsing would give, and whatever the license key and the clock are |
| Checkout.UnsignedMachineIsUnread | checkout_machine.go:218-281 | the same for machine files, under every scheme and key type, and whatever the fingerprint is |
| TracedCheckout.DecodeLicenseNow | checkout_license.go:301-333 | the decoding as executed takes the specified steps in the specified order |
| TracedCheckout.DecodeMachineNow | checkout_machine.go:292-323 | the same for machine files, where missing credentials are found before enc is touched |
| TracedCheckout.PayloadNow | checkout_license.go:338-360 | parsing comes before the claims check and that before the expiry check |
| TracedCheckout.VerifyLicenseNow | checkout_license.go:262-288 | the single-key license method as executed: gate, signature decoding, signature check, and only then the payload |
| TracedCheckout.VerifyMachineNow | checkout_machine.go:218-281 | the same for machine files |
| Checkout.FlippingThePrefixFails | checkout_machine.go:254-274 | whatever keys are held, no enc decodes under both encoding prefixes, so changing the unsigned prefix makes the file fail |
| Checkout.UnknownPrefixIsFoundAfterTheSignature | checkout_machine.go:292-323 | an alg with an unknown prefix is refused as unsupported when the signature verified and as a bad signature otherwise |
| Checkout.GateRefusesExactly | checkout_machine.go:218-243 | each refusal of the machine gate by the alg string: unsupported if and only if it is no v2 alg at all; a v2 alg with another suffix is a mismatch |
| Checkout.UnsupportedIsReportedExactly | errors.go:330-337 | Verify reports a machine alg as unsupported if and only if it is no v2 alg, or has an unknown encoding prefix under the scheme's suffix and the signature verifies |
| KeySetVerification.UnsupportedMachineExactly | errors.go:330-337 | the key-set method reports it if and only if it is no v2 alg, or has an unknown prefix and there are keys and a decodable signature, whether or not any key verifies |
| KeySetVerification.UnsupportedLicenseExactly | errors.go:330-337 | both license methods report it if and only if the alg is not one of the two, as documented |
| Checkout.UnknownPrefixExample | errors.go:330-337 | a concrete file with an unknown encoding prefix whose bad signature is reported as a forgery |
| Checkout.ForeignSuffixExample | errors.go:330-337 | an alg with an unknown suffix is reported as a mismatch under every scheme |
| Checkout.GenuineEncryptedLicenseOpens | checkout_license.go:301-333 | a license file sealed and signed in the server's layout yields what was sealed |
| Checkout.GenuineEncryptedMachineOpens | checkout_machine.go:292-323 | the same for a machine file, under every supported scheme |
| SigningKeys.NewSigningKeySet | signing_key.go:239-256 | the lenient constructor keeps the usable rows in publication order |
| SigningKeys.EntriesAreTheUsableRows | signing_key.go:221-256 | a row is in the set if and only if it names ed25519 and its base64 decodes to 32 bytes; its entry holds those bytes and the id computed from the published string |
| SigningKeys.EntriesKeepOrder | signing_key.go:239-256 | the entries keep the order of the published rows |
| SigningKeys.NewSigningKeySetFromPublicKeys | signing_key.go:278-300 | the strict constructor succeeds exactly when every key decodes, keeps them all, and otherwise names the first that does not |
| SigningKeys.Find | signing_key.go:366-376 | finds the first entry answering to a non-empty id by its served or its computed id, and none only if there is none |
| SigningKeys.Mismatched | signing_key.go:387-398 | lists, in order, the served ids their key material does not hash to |
| SigningKeys.MismatchedDetectsDisagreement | signing_key.go:378-398 | that list is empty if and only if both ids of every entry agree |
| SigningKeys.RotationKeepsKeys | signing_key.go:7-22 | one rotation loses no usable key, however the rows are reordered or retired |
| SigningKeys.HistoryKeepsKeys | signing_key.go:520-528 | over any history of rotations no key that could once verify a file is ever lost |
| KeySetVerification.ScanKeys | checkout_key_set.go:160-184 | the loop as executed: each key is checked in turn, the payload is decoded only after the first key that checks, or after all have failed, and result and steps are as specified |
| KeySetVerification.VerifyLicenseWithKeySet | checkout_key_set.go:145-184 | the license method as executed, with its steps: gate, signature decoding, empty set, scan |
| KeySetVerification.VerifyMachineWithKeySet | checkout_key_set.go:211-267 | the machine method as executed, with its steps: gate, scheme, empty set, signature decoding, scan |
| KeySetVerification.LicenseRefinesSingleKey | checkout_key_set.go:160-175 | if any key checks the signature, the result, success or error, is single-key verification under the first such key |
| KeySetVerification.MachineRefinesSingleKey | checkout_key_set.go:243-257 | the same for machine files |
| KeySetVerification.LicenseAcceptsExactly | checkout_key_set.go:103-144 | success with a payload through a set is equivalent to single-key success with that payload under some member |
| KeySetVerification.MachineAcceptsExactly | checkout_key_set.go:211-257 | the same for machine files |
| KeySetVerification.MoreKeysKeepLicense | checkout_key_set.go:103-144 | any reordering or superset of the keys preserves success and payload, at any time the file is still current |
| KeySetVerification.MoreKeysKeepMachine | checkout_key_set.go:211-257 | the same for machine files |
| KeySetVerification.RotationKeepsFiles | signing_key.go:7-22 | over every key history a license file that verified keeps verifying, with the same payload, until it expires |
| KeySetVerification.RotationKeepsMachineFiles | signing_key.go:7-22 | the same for machine files |
| KeySetVerification.ScanOrder | checkout_key_set.go:160-184 | in the steps the scan executes, either a signature check passed before the first payload byte was read, or every key had failed before it and the run ends in an error |
| KeySetVerification.KidNeverAcceptsLicense | checkout_key_set.go:87-102 | changing what is read as the unverified kid changes no success and no payload, and nothing at all unless every key was tried and failed |
| KeySetVerification.KidNeverAcceptsMachine | checkout_key_set.go:87-102 | the same for machine files |
| KeySetVerification.OnlyTheKidIsReadLicense | checkout_key_set.go:94-100 | of an unverified document only the presence of claims and their kid have any influence on any outcome |
| KeySetVerification.OnlyTheKidIsReadMachine | checkout_key_set.go:94-100 | the same for machine files |
| KeySetVerification.UnsignedLicenseIsRefused | checkout_key_set.go:145-184 | when no held key verifies the file is refused, whatever decrypting, parsing and probing would give |
| KeySetVerification.UnsignedMachineIsRefused | checkout_key_set.go:211-267 | the same for machine files |
| KeySetVerification.LicenseKeySetOrder | checkout_key_set.go:145-184 | that order for the whole license method |
| KeySetVerification.MachineKeySetOrder | checkout_key_set.go:211-267 | that order for the whole machine method, for every scheme |
| KeySetVerification.LicenseRejectionCases | checkout_key_set.go:160-184 | past the gate, with a readable signature and keys none of which verifies, the license method ends in one of disjoint errors, each exactly when its condition holds: an unheld readable kid, the empty-key kid, a missing credential or unsupported alg as itself, a bad signature otherwise; no error matches both kid sentinels |
| KeySetVerification.MachineRejectionCases | checkout_key_set.go:243-310 | the same for the machine method |
| MachineServer.FilterKeepsExactMatch | machine_read.go:276-281 | the trimmed, 200-character, case-insensitive substring filter never hides a row with exactly the searched fingerprint |
| MachineServer.MatchingIsExact | machine_read.go:263-275 | the filtered listing holds exactly the license's rows that pass the filter |
| MachineServer.MatchingKeepsOrder | machine_read.go:263-275 | and keeps the order of the rows |
| MachineServer.TermExactly | machine_read.go:276-281 | the search term is the query without spaces at its ends, cut to its first 200 characters |
| MachineServer.MatchesExactly | machine_read.go:263-281 | a row passes the filter if and only if the folded term is empty or occurs in its folded name, hostname or fingerprint |
| MachineServer.CreateAddsOneRowOrNone | machine_read.go:283-287 | a create is refused as taken if and only if a conflicting row holds the fingerprint, names only the license's own machine, changes nothing when refused, and otherwise puts one row in front under an id never given out before; ids and seats stay unique |
| MachineServer.OwnRowIsNamed | machine_read.go:382-387 | a server that names conflicts names the license's own row whenever it has one |
| MachineServer.GetShowsTheRow | machine_read.go:421-438 | a read by id shows the row if there is one, and answers not found if and only if there is none |
| MachineServer.DeleteRemovesOneRow | machine.go:355-364 | a delete answers for the named row if and only if it exists, removes it and no other, and keeps the order of the rest |
| MachineServer.ListServesTheStretch | machine_read.go:298-302 | a listing refuses exactly the pages before the first or past the offset ceiling; any other is the stretch of the filtered rows at its offset, full unless they run out, under the right page count |
| MachineSearch.PageDecides | machine_read.go:313-328 | one page either holds the first exact match of the whole listing or rules out its rows, and the walk stops only when nothing reachable is left |
| MachineSearch.FindMachineByFingerprint | machine_read.go:303-330 | finds the first exact match in listing order within the reachable window, or reports none; at most 1001 requests, for pages 1, 2, 3 and on, none past the offset ceiling; nothing is changed; an empty fingerprint sends nothing |
| MachineSearch.FoundIffReachable | machine_read.go:263-302 | a machine is found if and only if a row of the license in the window has that fingerprint; with no more rows than the window, if and only if the license has it at all |
| Activation.DriveIsOk | machine.go:336-368 | the invariant of one call under arbitrary answers, at every point of the call |
| Activation.DeletesOnlyWhatItCreated | machine.go:336-368 | whatever the server answers, the only id a call ever deletes is the one its own create returned |
| Activation.RecoveredMachineHasTheFingerprint | machine_read.go:372-439 | whatever the server answers, a machine handed back that this call did not create has exactly the requested fingerprint |
| Activation.OverLimitCodes | machine.go:255-293 | whatever the server answers, an over-limit error carries one of the five overage codes whichever step raised it, a success none of them, and a plain activation over its limit hands back no machine |
| Activation.PlainTroubles | machine.go:336-368 | a failed validation keeps the machine it created and rolls nothing back; a failed rollback is still reported as over limit |
| Activation.RecoveryTroubles | machine_read.go:376-438 | a machine that is gone, or is another, falls back to the search; any other failed lookup ends the call without a machine; a failed re-validation keeps the recovered one |
| Activation.SearchAlone | machine_read.go:303-330 | against a well-behaved server the protocol's search ends in the first reachable match or re-raises the conflict |
| ActivationAlone.ActivateMachine | machine.go:336-368 | the call as written has the outcome and leaves the rows of the protocol run to its end |
| ActivationAlone.ResolveTakenFingerprint | machine_read.go:421-439 | the named machine is used only if its fingerprint matches; otherwise, or if it is gone, the search decides |
| ActivationAlone.ActivateMachineIdempotent | machine_read.go:372-397 | the idempotent call as written has the outcome and leaves the rows of the protocol run to its end |
| ActivationAlone.IdempotentExtendsPlain | machine_read.go:372-376 | the idempotent call is the plain one unless that ends in a taken fingerprint, and then it goes on from unchanged rows |
| ActivationAlone.RowsAfterActivation | machine.go:336-368 | an activation leaves the rows exactly as they were, or succeeds having added exactly one; a rolled-back one leaves nothing |
| ActivationAlone.VerdictDecides | machine.go:357-368 | past creation the verdict decides: one of the five overage codes, and the rows are restored and the error carries it; any other, and exactly one new row stays |
| ActivationAlone.LimitDecides | machine.go:280-293 | each of the four create-time limits becomes its own overage code, any other refusal is passed on, and nothing changes |
| ActivationAlone.RevalidationDecides | machine_read.go:389-397 | a re-validated machine is kept either way, with an over-limit error for the five codes and a success for any other |
| ActivationAlone.TakenDecides | machine_read.go:372-397 | a taken fingerprint fails the plain call; the idempotent one ends with the machine its lookup resolves to, or re-raises the conflict, or reports the lookup; no row changes |
| ActivationAlone.TwiceIsOnce | machine_read.go:332-371 | after a success, running the call again gives the same machine and verdict and leaves the same rows |
| ActivationAlone.EmptyFingerprintIsNotIdempotent | machine_read.go:304-306 | with an empty fingerprint and a conflict that names no machine, the second call always fails |
| ActivationAlone.EmptyFingerprintExample | machine_read.go:304-306 | a concrete server, without limits and with unnamed conflicts, on which an empty fingerprint activates once and then fails |
| ActivationAlone.OnlyRollbackSpendsAnId | machine.go:336-368 | a call that ends without a success and yet leaves a trace was rolled back, and the trace is an id used up, not a row |
| ActivationAlone.TwiceIsOnceExactly | machine_read.go:372-397 | every outcome but a rolled-back one is repeated exactly by a second call, machine, verdict, error and rows alike; a success that added a row if and only if the fingerprint is non-empty or conflicts name the machine |
| ActivationRuns.NextKeepsInv | machine.go:336-368 | every step of any call, with lost requests, lost answers and outside interference, keeps the protocol invariant |
| ActivationRuns.RunKeepsInv | machine.go:336-368 | the invariant holds at every point of every interleaving |
| ActivationRuns.NoForeignRowIsRemoved | machine.go:336-368 | in every interleaving a row that a call makes disappear was created by that very call, after it began |
| ActivationRuns.ACallCreatesOneRow | machine.go:336-368 | in every interleaving one call creates at most one row, whatever it ends in |
| ActivationRuns.HandedBackMachineIsTheCallersOwn | machine_read.go:283-297 | in every interleaving a machine a call hands back was issued to the requested license under the requested fingerprint; no other license's seat is adopted |
| ActivationRuns.HandedBackIsLostOnlyToItsCreator | machine.go:336-368 | in every interleaving a machine a call handed back disappears later only by outside interference or by the rollback of the other call that created it |
| ActivationRuns.CanBeRemovedExactly | machine.go:336-368 | in every reachable state a row can disappear without outside interference if and only if some call, and then its creator, is yet to hear its verdict on it or is rolling it back |
| ActivationRuns.HandedBackIsSafeExactly | machine_read.go:372-397 | a machine that was handed back is safe from every call if and only if its creator neither waits for a verdict on it nor rolls it back |
| ActivationRuns.RecoveredMachineCanBeRolledBack | machine_read.go:372-397 | a concrete run in which one call succeeds with a recovered machine and its creator then rolls it back |
| ActivationRuns.WellBehavedServerIsHonest | machine_read.go:283-297 | the server object's answers are among those the interleavings allow, so their theorems apply to it |
| ActivationRuns.RepresentationIsKept | machine_read.go:283-297 | after every request the server object's rows and the interleaving's world still agree |
| EntitlementCache.Cache.Read | entitlement.go:265-269 | answers from the cache exactly when an entry for the license is under 60 s old |
| EntitlementCache.Cache.Store | entitlement.go:280-283 | replaces that license's entry and no other |
| EntitlementCache.Cache.Invalidate | entitlement.go:293-298 | drops that license's entry and no other |
| EntitlementCache.CodesOf | entitlement.go:275-278 | the code set holds exactly the listed codes |
| EntitlementCache.HasEntitlement | entitlement.go:262-287 | uninterrupted: a fresh entry answers and nothing changes; a failed fetch answers nothing and changes nothing; a fetch answers from its own list and stores it |
| EntitlementCache.ListingIsFaithful | entitlement.go:164-167 | a listed code is held; and with at most 100 entitlements an unlisted one is not |
| EntitlementCache.NextKeepsInv | entitlement.go:262-298 | every step of every call and every invalidation keeps each cached entry traceable to a response for that license |
| EntitlementCache.AnswersAreJustified | entitlement.go:229-287 | in every interleaving, and whatever the server returns, an answer is membership in a list it returned for that license, fetched by this call or stamped under 60 s before the read; where that list was a true listing, true is right for the snapshot, and false is right up to 100 entitlements |
| EntitlementCache.FirstReadFromColdFetches | entitlement.go:289-298 | with nothing fresh cached and no call under way able to change that, the first read of the license fetches, whatever else happens in between |
| EntitlementCache.NextReadMayHitExactly | entitlement.go:262-298 | in every reachable state the next call for a license may be answered without a fetch if and only if its entry is fresh, or some call is fetching for it, or holds a response yet to be stored under a stamp less than 60 s old |
| EntitlementCache.InvalidationForcesRefetchExactly | entitlement.go:289-298 | at every invalidation in every run, the next call may still be answered from the cache if and only if such a call is under way: the exact condition of the documented promise |
| EntitlementCache.FetchInFlightOutlivesInvalidation | entitlement.go:270-283 | a concrete run in which a call begun after the invalidation is answered from what an earlier fetch stored after it |
| Retry.CreatesAndMetersAreNotRetried | client.go:334-357 | for all account and resource ids, no POST that creates a machine, component or process, or increments, decrements or resets a meter, is retryable |
| Retry.RetryableExactly | client.go:334-357 | every GET and every POST of one of the seven safe actions, under any prefix, may be repeated, and nothing else |
| Retry.RetryAfterExactly | client.go:364-380 | which Retry-After headers are honoured: exactly a decimal number of seconds that fits an int64, with at most one sign and not negative |
| Retry.DoWith | client.go:242-283 | one send for a request that may not be repeated; otherwise, when nothing breaks or is cancelled, one per answer up to the first that is not a 429, at most maxRetries + 1; the first carries what the request held, every later one the body buffered from GetBody; each wait is what the header spells, up to a minute, or the capped power of two and the jitter; without Retry-After the waits stay below the closed form |
| Retry.SendNew | client.go:195-224 | a request built by newRequest goes out with one identical body every time |
| Retry.DelayIsBounded | client.go:383-399 | every wait is between zero and 60 s, whatever the header and the jitter |
| Retry.BackoffStep | client.go:383-399 | the closed form grows by one capped power of two and one second per retry |
| Heartbeat.IntervalIsSound | policy_read.go:36-81 | for every stored duration the interval fits a time.Duration, is at least a second and at most the window, and passes through the scheduler clamp unchanged |
| Heartbeat.WindowInSeconds | policy_read.go:36-81 | a policy without a usable duration gets 600 s and a ping every 200 s, any other the seconds it asks for; a scheduler given no interval pings every 200 s |
| Heartbeat.ClampIsAFloor | machine.go:501-507 | the clamp never lets a sub-second interval through, is idempotent, and keeps every other interval |
| Heartbeat.ToleratesExactly | policy_read.go:57-69 | the next ping lands before DEAD is read if and only if at most 2 pings were lost for durations of 3 s and up, 1 for 2 s, 0 for 1 s |
| Heartbeat.NeverDeadWithinTolerance | policy_read.go:57-69 | no infinite schedule within that loss bound ever reads DEAD at any instant |
| Heartbeat.DeadBeyondTolerance | policy_read.go:57-69 | every schedule that loses one more in a row does read DEAD |
| Heartbeat.ZeroWindowIsNeverHeld | policy_read.go:62-72 | a stored duration of zero reads DEAD one second after every ping, for every schedule, even one without a loss, at any interval of a second or more |
| Heartbeat.ZeroDurationInterval | policy_read.go:62-72 | and the interval such a policy gets is 200 s |
| Overage.FloatVerdictIsExact | policy.go:58-77 | for every count the float64 comparison gives the exact integer verdict while 5, 3 or 2 times max stays below 2^53 in magnitude |
| Overage.PolicyMaximaAreExact | policy.go:244-252 | every int32 max, the type of each limit the policy resource exposes, is in that range |
| Overage.FloatVerdictIsRightExactly | policy.go:62-77 | for every max the verdict is right for all counts if and only if it is right for two: the exact limit is allowed and the count after it refused |
| Overage.Allow125IsRightExactly | policy.go:62-77 | the same over roundings of max and of the exact limit: the rounded product must still separate the limit from the count after it |
| Overage.Allow150IsRightExactly | policy.go:62-77 | the same for the factor 1.5 |
| Overage.Allow200IsRightExactly | policy.go:62-77 | for the factor 2 it is enough, and needed, that twice max and the integer after it round apart |
| Overage.StrategiesAreNested | policy.go:62-77 | for every count and every max of zero or more, each strategy permits what the stricter ones do, rounding included |
| Overage.DoubleNeverRefusesWrongly | policy.go:62-77 | the doubled limit is rounded once, so for every count and max a count within it is never refused |
| Overage.Allow125CanDiffer | policy.go:62-77 | the first max past the exact products allows one count too many |
| Overage.Allow150IsRightAtFirst | policy.go:62-77 | the first two maxima past the exact products are still right for every count |
| Overage.Allow150CanDiffer | policy.go:62-77 | the third allows one count too many |
| Overage.Allow200CanDiffer | policy.go:62-77 | the first max past the exact products allows one count too many |
| Overage.Allow200IsRightAgain | policy.go:62-77 | the max after that is right for every count |
| Overage.RoundIsMonotone | policy.go:62-77 | a larger integer never rounds to a smaller double |
| Overage.RoundIsIdempotent | policy.go:62-77 | a double converts to itself |
| Overage.RoundIsNearest | policy.go:62-77 | an integer converts to a nearest double: no other is closer |
| Overage.RoundDoubles | policy.go:62-77 | rounding commutes with doubling |
| KeysetPaging.CursorAdvances | machine.go:616-635 | a page is the next stretch of rows, and its cursor, if any, points just past it |
| KeysetPaging.FirstPageExactly | entitlement.go:123-136 | the first page holds 100 rows when no limit is set, else as many as asked for up to the server's 100 |
| KeysetPaging.WalkCollectsTheRest | process_read.go:38-56 | following the cursors under an honoured limit collects every remaining row once, in order |
| KeysetPaging.WalkIsCompleteExactly | entitlement.go:123-136 | a walk from nil visits every row once, in order, and stops, if and only if the limit is at most 100 (or unset) or the collection fits in 100 rows |
| KeysetPaging.WalkCanStopEarly | machine.go:616-635 | 101 rows under a limit of 101: the walk ends after 100 |

## Left out

- Cryptographic primitives, HKDF key derivation and the fingerprint digest: uninterpreted or absent; injectivity is stated on the canonical string, not on its hash.
- HTTP transport, authentication headers, request and response decoding, error mapping, artifact download, health and upgrade calls.
- The POST and GET requests that fetch a checkout file, and the PEM-like envelope of stripPEM, ParseLicenseFile and ParseMachineFile.
- General JSON parsing of license and machine payloads: an abstract partial function from bytes to data and optional claims.
- JSON floats in proof datasets, which the code's own documentation excludes.
- An HTTP transport that stops reading a request body early: a send drains it.
- encoding/json and serde_json themselves: specification functions, with the map walk abstracted by `Json.KeyOrderIsIrrelevant`.
- slices.Sort's algorithm: an insertion sort stands in, under the same specification.
- Scheduler Run loops, tickers, goroutines and contexts: only the interval and a discrete schedule of pings.
- Jitter randomness: any value in [0 s, 1 s).
- Server limits, verdicts and permissions: functions of the rows, left open.
- The hexadecimal form of a key id: an uninterpreted function of the published key.
- Entitlement usage meters, machine updates, attribute structs and simple accessors.
- MalformedText.PayloadIsAmbiguousExactly: asks for well-formed object keys in the dataset; whether a malformed key can be told from another depends on which other malformed keys its object has.
- ActivationAlone.TwiceIsOnce: needs the server to be left alone between and during the two calls; what survives interference is in ActivationRuns.
- EntitlementCache.HasEntitlement: the mutex is modelled by making each critical section one step, not as a lock.
