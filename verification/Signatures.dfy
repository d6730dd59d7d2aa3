/** The signed payload, its envelope, strict hexadecimal, and signature verification. The
    cryptographic checks are predicates on key, signature and message. */
module Signatures {
  import opened Outcomes
  import opened Unicode
  import opened Json
  import opened JsonRoundTrip
  import opened JsonReading
  import opened Digests
  import opened Der
  import opened ChainTheorems

  /* -- hexadecimal --------------------------------------------------------------------- */

  predicate LowerHex(s: Text) {
    forall i :: 0 <= i < |s| ==> 48 <= s[i] <= 57 || 97 <= s[i] <= 102
  }

  /** bytes.fromhex of lowercase digits. */
  function FromHex(s: Text): Bytes
    requires |s| % 2 == 0 && LowerHex(s)
  {
    if s == [] then [] else [HexValue(s[0]) * 16 + HexValue(s[1])] + FromHex(s[2..])
  }

  function ToHex(b: Bytes): Text {
    if b == [] then [] else [HexDigit(b[0] / 16), HexDigit(b[0] % 16)] + ToHex(b[1..])
  }

  /** decode_hex_strict */
  function DecodeHexStrict(value: Text, maxBytes: int): Option<Bytes> {
    if |value| > 2 * maxBytes then None
    else if |value| % 2 != 0 || !LowerHex(value) then None
    else Some(FromHex(value))
  }

  lemma {:induction false} ToHexReads(b: Bytes)
    ensures |ToHex(b)| == 2 * |b| && LowerHex(ToHex(b)) && FromHex(ToHex(b)) == b
  {
    if b != [] {
      ToHexReads(b[1..]);
      var s := ToHex(b);
      assert s[2..] == ToHex(b[1..]);
      forall i | 0 <= i < |s| ensures 48 <= s[i] <= 57 || 97 <= s[i] <= 102 {
        if i >= 2 { assert s[i] == s[2..][i - 2]; }
      }
      assert b == [b[0]] + b[1..];
    }
  }

  lemma {:induction false} FromHexPrints(s: Text)
    requires |s| % 2 == 0 && LowerHex(s)
    ensures ToHex(FromHex(s)) == s && 2 * |FromHex(s)| == |s|
  {
    if s != [] {
      FromHexPrints(s[2..]);
      assert FromHex(s)[1..] == FromHex(s[2..]);
      assert s == [s[0], s[1]] + s[2..];
    }
  }

  /** A string is accepted exactly when it is the one canonical spelling of some bytes
      within the limit, and those are the bytes it decodes to. */
  lemma HexHasOneSpelling(value: Text, maxBytes: int, b: Bytes)
    ensures DecodeHexStrict(value, maxBytes) == Some(b) <==> value == ToHex(b) && |b| <= maxBytes
  {
    hide ToHex, FromHex, LowerHex;
    ToHexReads(b);
    if |value| % 2 == 0 && LowerHex(value) { FromHexPrints(value); }
  }

  /* -- the payload ------------------------------------------------------------------------ */

  datatype Payload = Payload(
    schemaVersion: Text, artifactDigest: Text, mbomDigest: Text, modelId: Option<Text>, version: Option<Text>,
    signerIdentity: Text, signedAt: Text, signatureAlgorithm: Option<Text>, keyId: Option<Text>)

  const SCHEMA_VERSION: Text := Ascii("schema_version")
  const ARTIFACT_DIGEST: Text := Ascii("artifact_digest")
  const MBOM_DIGEST: Text := Ascii("mbom_digest")
  const MODEL_ID: Text := Ascii("model_id")
  const VERSION: Text := Ascii("version")
  const SIGNER_IDENTITY: Text := Ascii("signer_identity")
  const SIGNED_AT: Text := Ascii("signed_at")
  const SIGNATURE_ALGORITHM: Text := Ascii("signature_algorithm")
  const KEY_ID: Text := Ascii("key_id")

  type Fields = seq<(Text, Option<Text>)>

  /** The object of the fields that are set. */
  function ObjectOf(fields: Fields): map<Text, Value> {
    if fields == [] then map[]
    else
      var n := |fields| - 1;
      var rest := ObjectOf(fields[..n]);
      if fields[n].1.None? then rest else rest[fields[n].0 := Str(fields[n].1.value)]
  }

  function FieldsOf(p: Payload): Fields {
    [(SCHEMA_VERSION, Some(p.schemaVersion)), (ARTIFACT_DIGEST, Some(p.artifactDigest)),
     (MBOM_DIGEST, Some(p.mbomDigest)), (MODEL_ID, p.modelId), (VERSION, p.version),
     (SIGNER_IDENTITY, Some(p.signerIdentity)), (SIGNED_AT, Some(p.signedAt)),
     (SIGNATURE_ALGORITHM, p.signatureAlgorithm), (KEY_ID, p.keyId)]
  }

  /** model_dump(exclude_none=True) */
  function PayloadValue(p: Payload): Value {
    Obj(ObjectOf(FieldsOf(p)))
  }

  function CanonicalJson(p: Payload): Bytes {
    DumpsBytes(PayloadValue(p))
  }

  ghost predicate DistinctFaithfulKeys(fields: Fields) {
    && (forall i, j :: 0 <= i < j < |fields| ==> fields[i].0 != fields[j].0)
    && (forall i :: 0 <= i < |fields| ==> Faithful(fields[i].0))
  }

  lemma PayloadKeys(p: Payload)
    ensures DistinctFaithfulKeys(FieldsOf(p))
  {
    assert |SCHEMA_VERSION| == 14 && |ARTIFACT_DIGEST| == 15 && |MBOM_DIGEST| == 11 && |MODEL_ID| == 8;
    assert |VERSION| == 7 && |SIGNER_IDENTITY| == 15 && |SIGNED_AT| == 9 && |SIGNATURE_ALGORITHM| == 19 && |KEY_ID| == 6;
    assert ARTIFACT_DIGEST[0] == 'a' as int && SIGNER_IDENTITY[0] == 's' as int;
  }

  function JoinOption(t: Option<Text>): Option<Text> {
    match t case None => None case Some(s) => Some(JoinPairs(s))
  }

  /** The payload as its signed bytes read back. */
  function JoinPayload(p: Payload): Payload {
    Payload(JoinPairs(p.schemaVersion), JoinPairs(p.artifactDigest), JoinPairs(p.mbomDigest), JoinOption(p.modelId),
            JoinOption(p.version), JoinPairs(p.signerIdentity), JoinPairs(p.signedAt),
            JoinOption(p.signatureAlgorithm), JoinOption(p.keyId))
  }

  /** A key is present exactly when its field is set, with the field's value. */
  lemma {:induction false} ObjectField(fields: Fields, i: nat)
    requires DistinctFaithfulKeys(fields) && i < |fields|
    ensures fields[i].0 in ObjectOf(fields) <==> fields[i].1.Some?
    ensures fields[i].1.Some? ==> ObjectOf(fields)[fields[i].0] == Str(fields[i].1.value)
  {
    var n := |fields| - 1;
    assert DistinctFaithfulKeys(fields[..n]);
    if i < n {
      ObjectField(fields[..n], i);
    } else {
      ObjectKeys(fields[..n]);
    }
  }

  lemma {:induction false} ObjectKeys(fields: Fields)
    ensures forall k :: k in ObjectOf(fields) ==> exists i :: 0 <= i < |fields| && fields[i].0 == k
    ensures forall k :: k in ObjectOf(fields) ==> ObjectOf(fields)[k].Str?
  {
    if fields != [] {
      var n := |fields| - 1;
      ObjectKeys(fields[..n]);
      forall k | k in ObjectOf(fields) ensures exists i :: 0 <= i < |fields| && fields[i].0 == k {
        if k in ObjectOf(fields[..n]) {
          var i :| 0 <= i < n && fields[..n][i].0 == k;
          assert fields[i].0 == k;
        } else {
          assert fields[n].0 == k;
        }
      }
    }
  }

  /** Fields under the same keys are determined by their object. */
  lemma ObjectInjective(a: Fields, b: Fields)
    requires DistinctFaithfulKeys(a) && |a| == |b| && forall i :: 0 <= i < |a| ==> a[i].0 == b[i].0
    requires ObjectOf(a) == ObjectOf(b)
    ensures a == b
  {
    assert DistinctFaithfulKeys(b);
    forall i | 0 <= i < |a| ensures a[i] == b[i] {
      ObjectField(a, i);
      ObjectField(b, i);
    }
  }

  lemma SameFields(p: Payload, q: Payload)
    requires PayloadValue(p) == PayloadValue(q)
    ensures p == q
  {
    hide ObjectOf, DistinctFaithfulKeys;
    PayloadKeys(p);
    var a, b := FieldsOf(p), FieldsOf(q);
    ObjectInjective(a, b);
    assert forall i :: 0 <= i < 9 ==> a[i].1 == b[i].1;
    assert a[0].1 == b[0].1 && a[1].1 == b[1].1 && a[2].1 == b[2].1 && a[3].1 == b[3].1 && a[4].1 == b[4].1;
    assert a[5].1 == b[5].1 && a[6].1 == b[6].1 && a[7].1 == b[7].1 && a[8].1 == b[8].1;
  }

  function JoinFields(fields: Fields): (r: Fields)
    ensures |r| == |fields|
    ensures forall i :: 0 <= i < |fields| ==> r[i] == (fields[i].0, JoinOption(fields[i].1))
  {
    seq(|fields|, i requires 0 <= i < |fields| => (fields[i].0, JoinOption(fields[i].1)))
  }

  lemma EmptyObject()
    ensures Joined(Obj(map[])) == Obj(map[])
  {
  }

  lemma JoinedUpdate(m: map<Text, Value>, key: Text, s: Text)
    ensures Joined(Obj(m)).Obj? && Joined(Obj(m[key := Str(s)])) == Obj(Joined(Obj(m)).members[key := Str(JoinPairs(s))])
  {
    hide JoinPairs;
    var longer := m[key := Str(s)];
    assert (map k | k in longer :: Joined(longer[k])) == (map k | k in m :: Joined(m[k]))[key := Str(JoinPairs(s))];
  }

  lemma {:induction false} JoinedObject(fields: Fields)
    ensures Joined(Obj(ObjectOf(fields))) == Obj(ObjectOf(JoinFields(fields)))
  {
    hide JoinPairs, Joined;
    if fields != [] {
      var n := |fields| - 1;
      JoinedObject(fields[..n]);
      assert JoinFields(fields)[..n] == JoinFields(fields[..n]);
      if fields[n].1.Some? {
        JoinedUpdate(ObjectOf(fields[..n]), fields[n].0, fields[n].1.value);
      }
    } else {
      EmptyObject();
    }
  }

  lemma JoinedPayload(p: Payload)
    ensures CleanKeys(PayloadValue(p))
    ensures Joined(PayloadValue(p)) == PayloadValue(JoinPayload(p))
  {
    hide ObjectOf, JoinPairs, Joined, Faithful;
    var fields := FieldsOf(p);
    PayloadKeys(p);
    JoinedObject(fields);
    assert JoinFields(fields) == FieldsOf(JoinPayload(p));
    ObjectKeys(fields);
    forall k | k in ObjectOf(fields) ensures Faithful(k) && CleanKeys(ObjectOf(fields)[k]) {
      var i :| 0 <= i < |fields| && fields[i].0 == k;
    }
  }

  /** Two payloads have the same signed bytes exactly when they read back the same, the
      omitted optional fields included. */
  lemma SignedBytesIdentify(p: Payload, q: Payload)
    ensures CanonicalJson(p) == CanonicalJson(q) <==> JoinPayload(p) == JoinPayload(q)
  {
    hide Dumps, Joined, PayloadValue, JoinPayload, Loads;
    JoinedPayload(p);
    JoinedPayload(q);
    LoadsDumps(PayloadValue(p));
    LoadsDumps(PayloadValue(q));
    if JoinPayload(p) == JoinPayload(q) {
      DumpsJoined(PayloadValue(p));
      DumpsJoined(PayloadValue(q));
    }
    if CanonicalJson(p) == CanonicalJson(q) {
      SameFields(JoinPayload(p), JoinPayload(q));
    }
  }

  /* -- verification ---------------------------------------------------------------------------- */

  datatype Envelope = Envelope(signatureType: Text, payload: Payload, signature: Text, publicKey: Text)

  datatype SignatureCheck = SignatureCheck(algorithm: Text, keyFingerprint: Text, formatVersion: Text, keyBound: bool)

  /** UnsupportedSignatureSchemeError and SignatureInvalidError. */
  datatype Refusal = Unsupported | InvalidSignature

  /** Accepts a public key, a signature and a message. */
  type Verifier = (Bytes, Bytes, Bytes) -> bool

  const LEGACY: Text := Ascii("1")
  const BOUND: Text := Ascii("2")
  const ED25519_LOCAL: Text := Ascii("ed25519-local")
  const ED25519: Text := Ascii("ed25519")
  const ECDSA_P256: Text := Ascii("ecdsa-p256-sha256")
  const MAX_KEY_BYTES := 128
  const MAX_SIGNATURE_BYTES := 128

  /** DEFAULT_VERIFIERS over the two cryptographic checks. */
  function DefaultVerifiers(ed25519: Verifier, ecdsa: Verifier): map<Text, Verifier> {
    map[ED25519 := (key: Bytes, signature: Bytes, message: Bytes) =>
          |key| == 32 && |signature| == 64 && ed25519(key, signature, message),
        ECDSA_P256 := (key: Bytes, signature: Bytes, message: Bytes) =>
          |key| == 65 && key[0] == 4
          && P256_MIN_SIGNATURE_LEN <= |signature| <= P256_MAX_SIGNATURE_LEN && ecdsa(key, signature, message)]
  }

  /** The scheme and the claimed key, fixed by signed data before anything is decoded. */
  function Scheme(e: Envelope, allowLegacy: bool): Result<(Text, Option<Text>), Refusal> {
    var p := e.payload;
    if p.schemaVersion == LEGACY then
      if !allowLegacy then Err(Unsupported)
      else if p.signatureAlgorithm.Some? || p.keyId.Some? then Err(InvalidSignature)
      else if e.signatureType != ED25519_LOCAL then Err(Unsupported)
      else Ok((ED25519, None))
    else if p.schemaVersion == BOUND then
      if p.signatureAlgorithm.None? || p.keyId.None? then Err(InvalidSignature)
      else if e.signatureType != p.signatureAlgorithm.value then Err(InvalidSignature)
      else Ok((p.signatureAlgorithm.value, p.keyId))
    else Err(Unsupported)
  }

  /** verify_envelope_signature */
  function VerifyEnvelope(h: Hasher, e: Envelope, verifiers: map<Text, Verifier>, allowLegacy: bool)
    : Result<SignatureCheck, Refusal>
  {
    match Scheme(e, allowLegacy)
    case Err(refusal) => Err(refusal)
    case Ok((algorithm, claimed)) =>
      if algorithm !in verifiers then Err(Unsupported)
      else
        var key := DecodeHexStrict(e.publicKey, MAX_KEY_BYTES);
        var signature := DecodeHexStrict(e.signature, MAX_SIGNATURE_BYTES);
        if key.None? || signature.None? then Err(InvalidSignature)
        else
          var fingerprint := h(key.value);
          if claimed.Some? && claimed.value != fingerprint then Err(InvalidSignature)
          else if !verifiers[algorithm](key.value, signature.value, CanonicalJson(e.payload)) then Err(InvalidSignature)
          else Ok(SignatureCheck(algorithm, fingerprint, e.payload.schemaVersion, claimed.Some?))
  }

  /** What the signed payload and the unsigned label commit the signature to. */
  predicate Commits(h: Hasher, e: Envelope, allowLegacy: bool, check: SignatureCheck, key: Bytes) {
    var p := e.payload;
    && check.formatVersion == p.schemaVersion && check.keyFingerprint == h(key)
    && if check.keyBound
       then p.schemaVersion == BOUND && p.signatureAlgorithm == Some(check.algorithm) && p.keyId == Some(h(key))
            && e.signatureType == check.algorithm
       else allowLegacy && p.schemaVersion == LEGACY && p.signatureAlgorithm.None? && p.keyId.None?
            && e.signatureType == ED25519_LOCAL && check.algorithm == ED25519
  }

  /** An envelope is accepted, with this result, exactly when it spells a key and a signature
      canonically within the limits, payload and label commit to that key and scheme, and the
      scheme's own check of the signed bytes succeeds. */
  lemma AcceptedExactly(h: Hasher, e: Envelope, verifiers: map<Text, Verifier>, allowLegacy: bool, check: SignatureCheck)
    ensures VerifyEnvelope(h, e, verifiers, allowLegacy) == Ok(check) <==>
              exists key: Bytes, signature: Bytes ::
                && e.publicKey == ToHex(key) && |key| <= 128
                && e.signature == ToHex(signature) && |signature| <= 128
                && Commits(h, e, allowLegacy, check, key)
                && check.algorithm in verifiers && verifiers[check.algorithm](key, signature, CanonicalJson(e.payload))
  {
    hide ToHex, DecodeHexStrict, CanonicalJson;
    VersionsDiffer();
    var k, s := DecodeHexStrict(e.publicKey, MAX_KEY_BYTES), DecodeHexStrict(e.signature, MAX_SIGNATURE_BYTES);
    if VerifyEnvelope(h, e, verifiers, allowLegacy) == Ok(check) {
      HexHasOneSpelling(e.publicKey, MAX_KEY_BYTES, k.value);
      HexHasOneSpelling(e.signature, MAX_SIGNATURE_BYTES, s.value);
      assert Commits(h, e, allowLegacy, check, k.value);
    }
    if key: Bytes, signature: Bytes :|
      && e.publicKey == ToHex(key) && |key| <= MAX_KEY_BYTES
      && e.signature == ToHex(signature) && |signature| <= MAX_SIGNATURE_BYTES
      && Commits(h, e, allowLegacy, check, key)
      && check.algorithm in verifiers && verifiers[check.algorithm](key, signature, CanonicalJson(e.payload))
    {
      HexHasOneSpelling(e.publicKey, MAX_KEY_BYTES, key);
      HexHasOneSpelling(e.signature, MAX_SIGNATURE_BYTES, signature);
    }
  }

  /** An Ed25519 key is 32 bytes and its signature 64; a P-256 key is an uncompressed point
      of 65 bytes and its signature 8 to 72 bytes of DER. */
  ghost predicate Passes(algorithm: Text, key: Bytes, signature: Bytes, message: Bytes, ed25519: Verifier, ecdsa: Verifier) {
    || (algorithm == Ascii("ed25519") && |key| == 32 && |signature| == 64 && ed25519(key, signature, message))
    || (algorithm == Ascii("ecdsa-p256-sha256") && |key| == 65 && key[0] == 4 && 8 <= |signature| <= 72
        && ecdsa(key, signature, message))
  }

  lemma DefaultsAre(algorithm: Text, key: Bytes, signature: Bytes, message: Bytes, ed25519: Verifier, ecdsa: Verifier)
    ensures var verifiers := DefaultVerifiers(ed25519, ecdsa);
            (algorithm in verifiers && verifiers[algorithm](key, signature, message)) <==>
              Passes(algorithm, key, signature, message, ed25519, ecdsa)
  {
    assert |ED25519| == 7 && |ECDSA_P256| == 17;
  }

  /** Under the default registry an envelope is accepted exactly when the cryptographic check
      of its scheme accepts its signed bytes under a key and a signature of that scheme's
      lengths, and either its payload is of version 2 and names the scheme and the hash of
      the key, or it is of version 1, names neither, and the caller allows it. */
  lemma AcceptedByDefault(h: Hasher, e: Envelope, ed25519: Verifier, ecdsa: Verifier, allowLegacy: bool, check: SignatureCheck)
    ensures VerifyEnvelope(h, e, DefaultVerifiers(ed25519, ecdsa), allowLegacy) == Ok(check) <==>
              exists key: Bytes, signature: Bytes ::
                && e.publicKey == ToHex(key) && e.signature == ToHex(signature)
                && Passes(check.algorithm, key, signature, CanonicalJson(e.payload), ed25519, ecdsa)
                && check.keyFingerprint == h(key) && check.formatVersion == e.payload.schemaVersion
                && if e.payload.schemaVersion == Ascii("2")
                   then && check.keyBound && e.signatureType == check.algorithm
                        && e.payload.signatureAlgorithm == Some(check.algorithm) && e.payload.keyId == Some(h(key))
                   else && allowLegacy && !check.keyBound && e.payload.schemaVersion == Ascii("1")
                        && e.payload.signatureAlgorithm.None? && e.payload.keyId.None?
                        && e.signatureType == Ascii("ed25519-local") && check.algorithm == Ascii("ed25519")
  {
    hide ToHex, VerifyEnvelope, CanonicalJson, DefaultVerifiers;
    var verifiers := DefaultVerifiers(ed25519, ecdsa);
    VersionsDiffer();
    AcceptedExactly(h, e, verifiers, allowLegacy, check);
    forall key: Bytes, signature: Bytes
      ensures (check.algorithm in verifiers && verifiers[check.algorithm](key, signature, CanonicalJson(e.payload))) <==>
                Passes(check.algorithm, key, signature, CanonicalJson(e.payload), ed25519, ecdsa)
    {
      DefaultsAre(check.algorithm, key, signature, CanonicalJson(e.payload), ed25519, ecdsa);
    }
  }

  /** Which refusals are for a scheme nobody offers: a payload of version 1 that is not
      allowed, or has another label; a payload of neither version; and a payload that is in
      order but whose scheme is not in the registry. Every other refusal is of the signature. */
  lemma RefusedAsUnsupported(h: Hasher, e: Envelope, verifiers: map<Text, Verifier>, allowLegacy: bool)
    ensures VerifyEnvelope(h, e, verifiers, allowLegacy) == Err(Unsupported) <==>
              var p := e.payload;
              || (p.schemaVersion != Ascii("1") && p.schemaVersion != Ascii("2"))
              || (p.schemaVersion == Ascii("1") && !allowLegacy)
              || (&& p.schemaVersion == Ascii("1") && p.signatureAlgorithm.None? && p.keyId.None?
                  && (e.signatureType != Ascii("ed25519-local") || Ascii("ed25519") !in verifiers))
              || (&& p.schemaVersion == Ascii("2") && p.keyId.Some? && p.signatureAlgorithm == Some(e.signatureType)
                  && e.signatureType !in verifiers)
  {
    hide DecodeHexStrict, CanonicalJson;
    VersionsDiffer();
  }

  ghost predicate FaithfulNames(verifiers: map<Text, Verifier>) {
    forall name :: name in verifiers ==> Faithful(name)
  }

  lemma DefaultNamesFaithful(ed25519: Verifier, ecdsa: Verifier)
    ensures FaithfulNames(DefaultVerifiers(ed25519, ecdsa))
    ensures ED25519 in DefaultVerifiers(ed25519, ecdsa) && ECDSA_P256 in DefaultVerifiers(ed25519, ecdsa)
  {
    assert |ED25519| == 7 && |ECDSA_P256| == 17;
  }

  /** What acceptance of a version-2 envelope says about its signed payload. */
  lemma BoundFacts(h: Hasher, e: Envelope, verifiers: map<Text, Verifier>, allowLegacy: bool)
    requires VerifyEnvelope(h, e, verifiers, allowLegacy).Ok? && e.payload.schemaVersion == BOUND
    ensures var check := VerifyEnvelope(h, e, verifiers, allowLegacy).value;
      && e.payload.signatureAlgorithm == Some(check.algorithm) && e.signatureType == check.algorithm
      && check.algorithm in verifiers
      && e.payload.keyId == Some(check.keyFingerprint) && check.keyBound
      && DecodeHexStrict(e.publicKey, MAX_KEY_BYTES).Some?
      && check.keyFingerprint == h(DecodeHexStrict(e.publicKey, MAX_KEY_BYTES).value)
  {
    hide DecodeHexStrict, CanonicalJson;
    VersionsDiffer();
  }

  lemma VersionsDiffer()
    ensures LEGACY != BOUND && Faithful(LEGACY) && Faithful(BOUND)
  {
    assert |LEGACY| == |BOUND| == 1 && LEGACY[0] == '1' as int && BOUND[0] == '2' as int;
  }

  /** The bytes of the key an envelope carries. */
  function KeyOf(e: Envelope): Bytes {
    match DecodeHexStrict(e.publicKey, MAX_KEY_BYTES) case None => [] case Some(b) => b
  }

  /** Signed bytes determine the scheme and the key: two accepted version-2 envelopes with
      the same signed bytes have the same algorithm, label and key fingerprint, and the
      same key, or the two keys collide. */
  lemma SignedBytesDetermineKey(h: Hasher, d: Envelope, e: Envelope, verifiers: map<Text, Verifier>, allowLegacy: bool)
    requires HexValued(h) && FaithfulNames(verifiers)
    requires VerifyEnvelope(h, d, verifiers, allowLegacy).Ok? && VerifyEnvelope(h, e, verifiers, allowLegacy).Ok?
    requires d.payload.schemaVersion == BOUND && e.payload.schemaVersion == BOUND
    requires CanonicalJson(d.payload) == CanonicalJson(e.payload)
    ensures VerifyEnvelope(h, d, verifiers, allowLegacy) == VerifyEnvelope(h, e, verifiers, allowLegacy)
    ensures d.signatureType == e.signatureType
    ensures d.publicKey == e.publicKey || Collide(h, KeyOf(d), KeyOf(e))
  {
    hide CanonicalJson, JoinPairs, Faithful, IsSha256, DecodeHexStrict;
    BoundFacts(h, d, verifiers, allowLegacy);
    BoundFacts(h, e, verifiers, allowLegacy);
    SignedBytesIdentify(d.payload, e.payload);
    var a, b := d.payload.signatureAlgorithm.value, e.payload.signatureAlgorithm.value;
    JoinPairsFixed(a);
    JoinPairsFixed(b);
    var x, y := d.payload.keyId.value, e.payload.keyId.value;
    HexFaithful(h(KeyOf(d)));
    HexFaithful(h(KeyOf(e)));
    JoinPairsFixed(x);
    JoinPairsFixed(y);
    assert x == y;
    HexHasOneSpelling(d.publicKey, MAX_KEY_BYTES, KeyOf(d));
    HexHasOneSpelling(e.publicKey, MAX_KEY_BYTES, KeyOf(e));
    CheckIs(h, d, verifiers, allowLegacy);
    CheckIs(h, e, verifiers, allowLegacy);
  }

  lemma CheckIs(h: Hasher, e: Envelope, verifiers: map<Text, Verifier>, allowLegacy: bool)
    requires VerifyEnvelope(h, e, verifiers, allowLegacy).Ok?
    ensures VerifyEnvelope(h, e, verifiers, allowLegacy).value.formatVersion == e.payload.schemaVersion
  {
    hide DecodeHexStrict, CanonicalJson, Scheme;
  }

  lemma HexFaithful(s: Text)
    requires IsSha256(s)
    ensures Faithful(s)
  {
  }

  /** No version-1 payload shares its signed bytes with a version-2 payload. */
  lemma VersionsNeverShareBytes(p: Payload, q: Payload)
    requires p.schemaVersion == LEGACY && q.schemaVersion == BOUND
    ensures CanonicalJson(p) != CanonicalJson(q)
  {
    hide CanonicalJson, JoinPairs;
    SignedBytesIdentify(p, q);
    VersionsDiffer();
    JoinPairsFixed(LEGACY);
    JoinPairsFixed(BOUND);
  }

  /** An accepted version-2 envelope is refused under any other label, and under any other
      key that does not collide with its own. */
  lemma NoRelabelNoSubstitution(h: Hasher, e: Envelope, verifiers: map<Text, Verifier>, allowLegacy: bool,
                                name: Text, key: Text)
    requires VerifyEnvelope(h, e, verifiers, allowLegacy).Ok? && e.payload.schemaVersion == BOUND
    ensures name != e.signatureType ==>
      VerifyEnvelope(h, e.(signatureType := name), verifiers, allowLegacy) == Err(InvalidSignature)
    ensures key != e.publicKey && VerifyEnvelope(h, e.(publicKey := key), verifiers, allowLegacy).Ok? ==>
      Collide(h, KeyOf(e), KeyOf(e.(publicKey := key)))
  {
    hide CanonicalJson, DecodeHexStrict;
    VersionsDiffer();
    BoundFacts(h, e, verifiers, allowLegacy);
    var other := e.(publicKey := key);
    if VerifyEnvelope(h, other, verifiers, allowLegacy).Ok? {
      BoundFacts(h, other, verifiers, allowLegacy);
      HexHasOneSpelling(e.publicKey, MAX_KEY_BYTES, KeyOf(e));
      HexHasOneSpelling(key, MAX_KEY_BYTES, KeyOf(other));
    }
  }

  /** What an HSM signs passes the length gate of the ECDSA verifier, whatever the key
      and the message: only the cryptographic check decides. */
  lemma HsmSignaturesPassTheGate(ed25519: Verifier, ecdsa: Verifier, raw: Bytes, key: Bytes, message: Bytes)
    requires FromRaw(raw).Some? && |key| == 65 && key[0] == 4
    ensures ECDSA_P256 in DefaultVerifiers(ed25519, ecdsa)
    ensures DefaultVerifiers(ed25519, ecdsa)[ECDSA_P256](key, FromRaw(raw).value, message)
      <==> ecdsa(key, FromRaw(raw).value, message)
    ensures |FromRaw(raw).value| <= MAX_SIGNATURE_BYTES
  {
    hide FromRaw;
    RawConverts(raw);
    DefaultNamesFaithful(ed25519, ecdsa);
    assert |ED25519| == 7 && |ECDSA_P256| == 17;
  }
}
