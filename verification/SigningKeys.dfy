/**
 The set of Ed25519 keys an offline file may have been signed by (signing_key.go). SHA-256 is a
 parameter: a key id is an uninterpreted function of the published base64 string.
 */
module SigningKeys {
  import opened Wrappers
  import opened Bytes
  import Base64

  /** A `signing-keys` resource. `id` is the id the server served. */
  datatype SigningKey = SigningKey(id: bytes, algorithm: bytes, publicKey: bytes, retired: bool)

  /** One usable member: the resource, its decoded key, and the id its key material hashes to. */
  datatype Entry = Entry(key: SigningKey, publicKey: bytes, computedId: bytes)

  /** A nil set and an empty one behave alike. */
  type KeySet = seq<Entry>

  type KeyIdFunction = bytes -> bytes

  const ED25519: bytes := Ascii("ed25519")
  const PUBLIC_KEY_SIZE: nat := 32

  /** The id of the empty key string. */
  const UNPUBLISHED_ID: bytes := Ascii("e3b0c44298fc1c14")

  /** `decodeEd25519PublicKey`. */
  function DecodePublicKey(b64: bytes): (r: Option<bytes>)
    ensures r.Some? ==> |r.value| == PUBLIC_KEY_SIZE
  {
    match Base64.Decode(b64)
    case None => None
    case Some(raw) => if |raw| == PUBLIC_KEY_SIZE then Some(raw) else None
  }

  predicate Usable(key: SigningKey) {
    key.algorithm == ED25519 && DecodePublicKey(key.publicKey).Some?
  }

  function EntryOf(keyId: KeyIdFunction, key: SigningKey): Entry
    requires Usable(key)
  {
    Entry(key, DecodePublicKey(key.publicKey).value, keyId(key.publicKey))
  }

  /** The usable rows, in the order they were published. */
  function EntriesOf(keyId: KeyIdFunction, keys: seq<SigningKey>): KeySet {
    if keys == [] then []
    else
      var init := EntriesOf(keyId, keys[..|keys| - 1]);
      var last := keys[|keys| - 1];
      if Usable(last) then init + [EntryOf(keyId, last)] else init
  }

  /** `NewSigningKeySet`: lenient, so that one unusable row strands nothing else. */
  method NewSigningKeySet(keyId: KeyIdFunction, keys: seq<SigningKey>) returns (entries: KeySet)
    ensures entries == EntriesOf(keyId, keys)
  {
    entries := [];
    var i := 0;
    while i < |keys|
      invariant 0 <= i <= |keys|
      invariant entries == EntriesOf(keyId, keys[..i])
    {
      var key := keys[i];
      assert keys[..i + 1][..i] == keys[..i];
      i := i + 1;
      if key.algorithm != ED25519 {
        continue;
      }
      var pub := DecodePublicKey(key.publicKey);
      if pub.None? {
        continue;
      }
      entries := entries + [Entry(key, pub.value, keyId(key.publicKey))];
    }
    assert keys[..i] == keys;
  }

  lemma {:induction false} EntriesComeFromRows(keyId: KeyIdFunction, keys: seq<SigningKey>, e: Entry)
    ensures e in EntriesOf(keyId, keys) <==> e.key in keys && Usable(e.key) && e == EntryOf(keyId, e.key)
  {
    if keys != [] {
      var init := keys[..|keys| - 1];
      EntriesComeFromRows(keyId, init, e);
      assert keys == init + [keys[|keys| - 1]];
    }
  }

  /**
   A row is kept exactly when it names Ed25519 and its base64 decodes to 32 bytes; its entry holds those bytes
   and the id computed from the published string, whatever id was served. Nothing else is added.
   */
  lemma EntriesAreTheUsableRows(keyId: KeyIdFunction, keys: seq<SigningKey>, e: Entry)
    ensures e in EntriesOf(keyId, keys)
       <==> && e.key in keys && e.key.algorithm == Ascii("ed25519")
            && Base64.Decode(e.key.publicKey) == Some(e.publicKey) && |e.publicKey| == 32
            && e.computedId == keyId(e.key.publicKey)
  {
    hide Base64.Decode;
    EntriesComeFromRows(keyId, keys, e);
  }

  /** The entries keep the order the rows were published in. */
  lemma {:induction false} EntriesKeepOrder(keyId: KeyIdFunction, keys: seq<SigningKey>, i: nat, j: nat)
    returns (m: nat, n: nat)
    requires i < j < |EntriesOf(keyId, keys)|
    ensures m < n < |keys| && keys[m] == EntriesOf(keyId, keys)[i].key && keys[n] == EntriesOf(keyId, keys)[j].key
  {
    var init := keys[..|keys| - 1];
    var before := EntriesOf(keyId, init);
    if j < |before| {
      m, n := EntriesKeepOrder(keyId, init, i, j);
    } else {
      EntriesComeFromRows(keyId, init, before[i]);
      m :| 0 <= m < |init| && init[m] == before[i].key;
      n := |keys| - 1;
    }
  }

  function PinnedKey(keyId: KeyIdFunction, b64: bytes): SigningKey {
    SigningKey(keyId(b64), ED25519, b64, false)
  }

  /** The entry of a pinned key: current, under the id it hashes to, with the bytes it decodes to. */
  ghost predicate IsPinned(keyId: KeyIdFunction, b64: bytes, e: Entry) {
    && e.key == SigningKey(keyId(b64), Ascii("ed25519"), b64, false) && e.computedId == keyId(b64)
    && Base64.Decode(b64) == Some(e.publicKey)
  }

  lemma DecodedKey(b64: bytes)
    ensures DecodePublicKey(b64).Some? <==> Base64.Decode(b64).Some? && |Base64.Decode(b64).value| == 32
    ensures DecodePublicKey(b64).Some? ==> DecodePublicKey(b64) == Base64.Decode(b64)
  {
  }

  /** `NewSigningKeySetFromPublicKeys`: strict, naming the first key that does not decode. */
  method NewSigningKeySetFromPublicKeys(keyId: KeyIdFunction, pinned: seq<bytes>)
    returns (r: Result<KeySet, nat>)
    ensures r.Ok? <==> forall i :: 0 <= i < |pinned| ==> DecodePublicKey(pinned[i]).Some?
    ensures r.Ok? ==> r.value == EntriesOf(keyId, PinnedKeys(keyId, pinned)) && |r.value| == |pinned|
    ensures r.Ok? ==> forall i :: 0 <= i < |pinned| ==> IsPinned(keyId, pinned[i], r.value[i])
    ensures r.Err? ==> r.error < |pinned| && DecodePublicKey(pinned[r.error]).None?
                       && forall i :: 0 <= i < r.error ==> DecodePublicKey(pinned[i]).Some?
  {
    hide DecodePublicKey, EntriesOf;
    var entries: KeySet := [];
    var i := 0;
    assert EntriesOf(keyId, PinnedKeys(keyId, pinned[..0])) == [] by { NothingPinned(keyId); assert pinned[..0] == []; }
    while i < |pinned|
      invariant 0 <= i <= |pinned| && |entries| == i
      invariant forall k :: 0 <= k < i ==> IsPinned(keyId, pinned[k], entries[k])
      invariant forall k :: 0 <= k < i ==> DecodePublicKey(pinned[k]).Some?
      invariant entries == EntriesOf(keyId, PinnedKeys(keyId, pinned[..i]))
    {
      var pub := DecodePublicKey(pinned[i]);
      if pub.None? {
        return Err(i);
      }
      var kid := keyId(pinned[i]);
      PinnedStep(keyId, pinned, i);
      DecodedKey(pinned[i]);
      entries := entries + [Entry(SigningKey(kid, ED25519, pinned[i], false), pub.value, kid)];
      i := i + 1;
    }
    assert pinned[..i] == pinned;
    return Ok(entries);
  }

  lemma NothingPinned(keyId: KeyIdFunction)
    ensures EntriesOf(keyId, PinnedKeys(keyId, [])) == []
  {
  }

  lemma PinnedStep(keyId: KeyIdFunction, pinned: seq<bytes>, i: nat)
    requires i < |pinned| && DecodePublicKey(pinned[i]).Some?
    ensures EntriesOf(keyId, PinnedKeys(keyId, pinned[..i + 1]))
         == EntriesOf(keyId, PinnedKeys(keyId, pinned[..i])) + [EntryOf(keyId, PinnedKey(keyId, pinned[i]))]
  {
    hide DecodePublicKey;
    var next := PinnedKeys(keyId, pinned[..i + 1]);
    assert next[..i] == PinnedKeys(keyId, pinned[..i]) && next[i] == PinnedKey(keyId, pinned[i]);
  }

  function PinnedKeys(keyId: KeyIdFunction, pinned: seq<bytes>): (r: seq<SigningKey>)
    ensures |r| == |pinned| && forall i :: 0 <= i < |r| ==> r[i] == PinnedKey(keyId, pinned[i])
  {
    seq(|pinned|, i requires 0 <= i < |pinned| => PinnedKey(keyId, pinned[i]))
  }

  predicate Answers(e: Entry, kid: bytes) {
    e.key.id == kid || e.computedId == kid
  }

  /** `find` has an answer: an entry answers to its served id and to its computed one; the empty id names nothing. */
  predicate Holds(keys: KeySet, kid: bytes) {
    kid != [] && exists i :: 0 <= i < |keys| && Answers(keys[i], kid)
  }

  /** The first entry that answers to the id, in publication order. */
  method Find(keys: KeySet, kid: bytes) returns (e: Option<Entry>)
    ensures e.Some? <==> Holds(keys, kid)
    ensures e.Some? ==> exists i :: 0 <= i < |keys| && keys[i] == e.value
                                    && (keys[i].key.id == kid || keys[i].computedId == kid)
                                    && forall k :: 0 <= k < i ==> keys[k].key.id != kid && keys[k].computedId != kid
    ensures e.None? ==> kid == [] || forall k :: 0 <= k < |keys| ==> keys[k].key.id != kid && keys[k].computedId != kid
  {
    if kid == [] {
      return None;
    }
    var i := 0;
    while i < |keys|
      invariant 0 <= i <= |keys|
      invariant forall k :: 0 <= k < i ==> !Answers(keys[k], kid)
    {
      if Answers(keys[i], kid) {
        return Some(keys[i]);
      }
      i := i + 1;
    }
    return None;
  }

  function KeyIds(keys: KeySet): (r: seq<bytes>)
    ensures |r| == |keys| && forall i :: 0 <= i < |r| ==> r[i] == keys[i].key.id
  {
    seq(|keys|, i requires 0 <= i < |keys| => keys[i].key.id)
  }

  /** `Mismatched`: the served ids whose key material hashes to something else, in order. */
  function MismatchedIds(keys: KeySet): seq<bytes> {
    if keys == [] then []
    else
      var last := keys[|keys| - 1];
      MismatchedIds(keys[..|keys| - 1]) + (if last.key.id != last.computedId then [last.key.id] else [])
  }

  method Mismatched(keys: KeySet) returns (out: seq<bytes>)
    ensures out == MismatchedIds(keys)
  {
    out := [];
    var i := 0;
    while i < |keys|
      invariant 0 <= i <= |keys|
      invariant out == MismatchedIds(keys[..i])
    {
      assert keys[..i + 1][..i] == keys[..i];
      if keys[i].key.id != keys[i].computedId {
        out := out + [keys[i].key.id];
      }
      i := i + 1;
    }
    assert keys[..i] == keys;
  }

  /** Empty exactly when the two ids of every entry agree; then `find` needs only the served id. */
  lemma {:induction false} MismatchedDetectsDisagreement(keys: KeySet)
    ensures MismatchedIds(keys) == [] <==> forall i :: 0 <= i < |keys| ==> keys[i].key.id == keys[i].computedId
  {
    if keys != [] {
      var init := keys[..|keys| - 1];
      MismatchedDetectsDisagreement(init);
      assert forall i :: 0 <= i < |init| ==> init[i] == keys[i];
    }
  }

  // ----- the history of an account's keys

  ghost function PublicKeys(keys: KeySet): set<bytes> {
    set i | 0 <= i < |keys| :: keys[i].publicKey
  }

  /** Rotation retires what was there and adds one key; the server may list the rows in any order. */
  ghost predicate Rotates(before: seq<SigningKey>, after: seq<SigningKey>) {
    forall k :: k in before ==>
      exists k' :: k' in after && k'.publicKey == k.publicKey && k'.algorithm == k.algorithm && k'.id == k.id
  }

  ghost predicate IsHistory(history: seq<seq<SigningKey>>) {
    forall i :: 0 <= i < |history| - 1 ==> Rotates(history[i], history[i + 1])
  }

  lemma RotationKeepsKeys(keyId: KeyIdFunction, before: seq<SigningKey>, after: seq<SigningKey>)
    requires Rotates(before, after)
    ensures PublicKeys(EntriesOf(keyId, before)) <= PublicKeys(EntriesOf(keyId, after))
  {
    var olds, news := EntriesOf(keyId, before), EntriesOf(keyId, after);
    forall i | 0 <= i < |olds| ensures olds[i].publicKey in PublicKeys(news) {
      EntriesComeFromRows(keyId, before, olds[i]);
      var k :| k in after && k.publicKey == olds[i].key.publicKey && k.algorithm == olds[i].key.algorithm;
      EntriesComeFromRows(keyId, after, EntryOf(keyId, k));
      var j :| 0 <= j < |news| && news[j] == EntryOf(keyId, k);
      assert news[j].publicKey == olds[i].publicKey;
    }
  }

  /** Over any history, no key that could once verify a file is ever lost. */
  lemma {:induction false} HistoryKeepsKeys(keyId: KeyIdFunction, history: seq<seq<SigningKey>>, i: nat, j: nat)
    requires IsHistory(history) && i <= j < |history|
    ensures PublicKeys(EntriesOf(keyId, history[i])) <= PublicKeys(EntriesOf(keyId, history[j]))
    decreases j - i
  {
    if i < j {
      RotationKeepsKeys(keyId, history[i], history[i + 1]);
      HistoryKeepsKeys(keyId, history, i + 1, j);
    }
  }
}
