/** What registries and envelopes that are accepted consist of. */
module SignatureLaws {
  import opened Wrappers
  import opened Unicode
  import opened Json
  import opened GoCanonical
  import opened CanonicalTheorems
  import opened TypedDigest
  import HexLaws
  import Base64
  import Identity = ContentIdentity
  import opened KeyRegistry
  import opened DetachedSignature

  // ---------- registries ----------

  ghost predicate IsHash(s: string) { exists b: seq<Byte> :: |b| == 32 && HexLaws.Spells(s, b) }

  /** A P-256 point for the one algorithm, 2048 bits or more for the other. */
  ghost predicate Matches(algorithm: string, key: PublicKey) {
    || (algorithm == "ECDSA_P256_SHA256" && exists point :: key == Ecdsa("P-256", point))
    || (algorithm == "RSA_PSS_SHA256" && exists bits, modulus :: key == Rsa(bits, modulus) && bits >= 2048)
  }

  lemma FitsIff(algorithm: string, key: PublicKey)
    ensures Fits(algorithm, key) <==> Matches(algorithm, key)
  {
    if Fits(algorithm, key) {
      if key.Ecdsa? { assert key == Ecdsa("P-256", key.point); }
      if key.Rsa? { assert key == Rsa(key.bits, key.modulus); }
    }
  }

  /** Revoked from some time on with a reason, or active or superseded without any. */
  ghost predicate Standing(parsers: Parsers, key: Key, from: int) {
    || ((key.status == "active" || key.status == "superseded") && key.revokedAt == None && key.revocationReason == None)
    || (key.status == "revoked" && exists at, reason, moment ::
          && key.revokedAt == Some(at) && key.revocationReason == Some(reason)
          && parsers.time(at) == Some(moment) && from <= moment)
  }

  ghost predicate GoodKey(parsers: Parsers, key: Key) {
    && key.kid != ""
    && (exists publicKey :: parsers.publicKey(key.publicKeyPem) == Some(publicKey) && Matches(key.algorithm, publicKey))
    && exists from, until :: parsers.time(key.validFrom) == Some(from) && parsers.time(key.validUntil) == Some(until)
                          && from <= until && Standing(parsers, key, from)
  }

  lemma KeyIff(parsers: Parsers, key: Key)
    ensures KeyOk(parsers, key) <==> GoodKey(parsers, key)
  {
    hide Fits, Matches;
    if parsers.publicKey(key.publicKeyPem).Some? { FitsIff(key.algorithm, parsers.publicKey(key.publicKeyPem).value); }
    if IntervalOk(parsers, key) { StandingIff(parsers, key); }
  }

  lemma StandingIff(parsers: Parsers, key: Key)
    requires IntervalOk(parsers, key)
    ensures StatusOk(parsers, key) <==> Standing(parsers, key, parsers.time(key.validFrom).value)
  {
    if StatusOk(parsers, key) && key.status == "revoked" {
      var at, reason := key.revokedAt.value, key.revocationReason.value;
      var moment := parsers.time(at).value;
      assert key.revokedAt == Some(at) && key.revocationReason == Some(reason) && parsers.time(at) == Some(moment);
    }
  }

  /** Another, superseded key of the same algorithm has the superseded kid. */
  ghost predicate Supersedes(keys: seq<Key>, key: Key) {
    match key.supersedesKid
    case None => true
    case Some(kid) =>
      exists prior :: prior in keys && prior.kid == kid != key.kid && prior.status == "superseded"
                      && prior.algorithm == key.algorithm
  }

  ghost predicate GoodHeader(parsers: Parsers, r: Registry) {
    && r.schemaVersion == "1.0.0" && r.registryVersion != 0 && |r.keys| > 0
    && IsHash(r.registryId) && IsHash(r.rootFingerprint) && IsHash(r.purposePolicyHash)
    && parsers.time(r.issuedAt) != None
    && match r.previousRegistryHash
       case None => r.registryVersion <= 1
       case Some(hash) => r.registryVersion != 1 && (r.registryVersion > 1 ==> IsHash(hash))
  }

  lemma HeaderIff(parsers: Parsers, r: Registry)
    ensures HeaderOk(parsers, r) <==> GoodHeader(parsers, r)
  {
    hide IsHash32;
    HexLaws.Hash32Iff(r.registryId);
    HexLaws.Hash32Iff(r.rootFingerprint);
    HexLaws.Hash32Iff(r.purposePolicyHash);
    if r.previousRegistryHash.Some? { HexLaws.Hash32Iff(r.previousRegistryHash.value); }
  }

  lemma LinkIff(keys: seq<Key>, key: Key)
    requires DistinctKids(keys) && key in keys
    ensures LinkOk(keys, key) <==> Supersedes(keys, key)
  {
    if key.supersedesKid.Some? {
      FindExact(keys, key.supersedesKid.value);
      if prior :| prior in keys && prior.kid == key.supersedesKid.value {
        var i :| 0 <= i < |keys| && keys[i] == prior;
        FindIs(keys, i);
      }
    }
  }

  /** Each key supersedes the next one. */
  ghost predicate KeyChain(keys: seq<Key>, ks: seq<Key>) {
    && ks != [] && (forall i | 0 <= i < |ks| :: ks[i] in keys)
    && forall i | 0 <= i < |ks| - 1 :: ks[i].supersedesKid == Some(ks[i + 1].kid)
  }

  ghost predicate NeverAround(keys: seq<Key>) {
    forall ks: seq<Key> | KeyChain(keys, ks) :: forall i, j | 0 <= i < j < |ks| :: ks[i].kid != ks[j].kid
  }

  function KidsOf(ks: seq<Key>): seq<Kid> { seq(|ks|, i requires 0 <= i < |ks| => ks[i].kid) }

  lemma FoundIn(keys: seq<Key>, key: Key)
    requires DistinctKids(keys) && key in keys
    ensures key.kid in Kids(keys) && Find(keys, key.kid) == Some(key)
  {
    var i :| 0 <= i < |keys| && keys[i] == key;
    FindIs(keys, i);
  }

  lemma LinkOf(keys: seq<Key>, key: Key, kid: Kid)
    requires DistinctKids(keys) && key in keys && key.supersedesKid == Some(kid)
    ensures key.kid in LinksOf(keys) && LinksOf(keys)[key.kid] == kid
  {
    FoundIn(keys, key);
  }

  lemma KeyChainIsChain(keys: seq<Key>, ks: seq<Key>)
    requires DistinctKids(keys) && KeyChain(keys, ks)
    ensures Chain(LinksOf(keys), KidsOf(ks))
  {
    hide LinksOf, DistinctKids;
    forall i | 0 <= i < |ks| - 1
      ensures KidsOf(ks)[i] in LinksOf(keys) && LinksOf(keys)[KidsOf(ks)[i]] == KidsOf(ks)[i + 1]
    {
      LinkOf(keys, ks[i], ks[i + 1].kid);
    }
  }

  lemma KeyWith(keys: seq<Key>, kid: Kid) returns (key: Key)
    requires kid in Kids(keys)
    ensures key in keys && key.kid == kid && Find(keys, kid) == Some(key)
  {
    FindExact(keys, kid);
    key := Find(keys, kid).value;
  }

  /** A chain of kids is a chain of their keys. */
  lemma {:induction false} ChainIsKeyChain(keys: seq<Key>, w: seq<Kid>) returns (ks: seq<Key>)
    requires DistinctKids(keys) && LinksOk(keys) && Chain(LinksOf(keys), w) && w != []
    requires w[0] in Kids(keys)
    ensures KeyChain(keys, ks) && KidsOf(ks) == w
    decreases |w|
  {
    hide LinksOf, Kids, Chain, DistinctKids, LinksOk;
    var key := KeyWith(keys, w[0]);
    if |w| == 1 {
      ks := [key];
    } else {
      ChainTail(LinksOf(keys), w);
      LinkLeads(keys, key);
      var rest := ChainIsKeyChain(keys, w[1..]);
      assert rest[0].kid == KidsOf(rest)[0] == w[1];
      ks := [key] + rest;
      assert KidsOf(ks) == [w[0]] + KidsOf(rest);
      assert w == [w[0]] + w[1..];
    }
  }

  lemma LinkLeads(keys: seq<Key>, key: Key)
    requires LinksOk(keys) && Find(keys, key.kid) == Some(key) && key in keys && key.kid in LinksOf(keys)
    ensures key.supersedesKid == Some(LinksOf(keys)[key.kid]) && LinksOf(keys)[key.kid] in Kids(keys)
  {
    assert LinkOk(keys, key);
    FindExact(keys, key.supersedesKid.value);
  }

  lemma AcyclicIff(keys: seq<Key>)
    requires DistinctKids(keys) && LinksOk(keys)
    ensures Acyclic(LinksOf(keys)) <==> NeverAround(keys)
  {
    hide LinksOf, Chain, DistinctKids, LinksOk, KeyChain;
    if Acyclic(LinksOf(keys)) {
      forall ks: seq<Key>, i, j | KeyChain(keys, ks) && 0 <= i < j < |ks| ensures ks[i].kid != ks[j].kid {
        KeyChainIsChain(keys, ks);
        assert KidsOf(ks)[i] != KidsOf(ks)[j];
      }
    }
    if NeverAround(keys) {
      forall w | Chain(LinksOf(keys), w) ensures KeyRegistry.NoRepeats(w) {
        if |w| > 1 { LongChain(keys, w); }
      }
    }
  }

  lemma LongChain(keys: seq<Key>, w: seq<Kid>)
    requires DistinctKids(keys) && LinksOk(keys) && NeverAround(keys) && Chain(LinksOf(keys), w) && |w| > 1
    ensures KeyRegistry.NoRepeats(w)
  {
    hide Chain, KeyChain, DistinctKids, LinksOk;
    ChainTail(LinksOf(keys), w);
    assert w[0] in Kids(keys);
    var ks := ChainIsKeyChain(keys, w);
    forall i, j | 0 <= i < j < |w| ensures w[i] != w[j] {
      assert KidsOf(ks)[i] == ks[i].kid && KidsOf(ks)[j] == ks[j].kid;
    }
  }

  /** Accepted are the registries with a good header and good keys of distinct kids, whose chains end. */
  lemma RegistryIff(parsers: Parsers, r: Registry)
    ensures RegistryOk(parsers, r) <==>
            && GoodHeader(parsers, r) && (forall key | key in r.keys :: GoodKey(parsers, key))
            && (forall i, j | 0 <= i < |r.keys| && 0 <= j < |r.keys| && r.keys[i].kid == r.keys[j].kid :: i == j)
            && (forall key | key in r.keys :: Supersedes(r.keys, key)) && NeverAround(r.keys)
  {
    hide HeaderOk, GoodHeader, KeyOk, GoodKey, LinkOk, Supersedes, Acyclic, LinksOf, NeverAround;
    HeaderIff(parsers, r);
    forall key | key in r.keys ensures KeyOk(parsers, key) <==> GoodKey(parsers, key) { KeyIff(parsers, key); }
    if DistinctKids(r.keys) {
      forall key | key in r.keys ensures LinkOk(r.keys, key) <==> Supersedes(r.keys, key) { LinkIff(r.keys, key); }
      if LinksOk(r.keys) { AcyclicIff(r.keys); }
    }
  }

  // ---------- the hashed forms by name ----------

  lemma {:induction false} RecordAt(names: seq<string>, v: seq<Value>, i: nat)
    requires |names| == |v| && i < |v| && DistinctNames(names)
    ensures names[i] in Record(names, v) && Record(names, v)[names[i]] == v[i]
  {
    if i > 0 {
      assert names[0] != names[i];
      RecordAt(names[1..], v[1..], i - 1);
    }
  }

  /** Under each JSON name of the claims stands the field of that name. */
  lemma ClaimsNamed(c: Claims)
    ensures var m := ClaimsValue(c).members;
            && m.Keys == (set name | name in CLAIM_NAMES) && |CLAIM_NAMES| == 17 && DistinctNames(CLAIM_NAMES)
            && Has(m, "algorithm", Str(c.algorithm)) && Has(m, "environment", Str(c.environment))
            && Has(m, "expires_at", Nullable(c.expiresAt)) && Has(m, "issued_at", Str(c.issuedAt))
            && Has(m, "key_registry_hash", Str(c.keyRegistryHash)) && Has(m, "key_registry_id", Str(c.keyRegistryId))
            && Has(m, "kid", Str(c.kid)) && Has(m, "migration_scope", Nullable(c.migrationScope))
            && Has(m, "object_schema_id", Str(c.objectSchemaId))
            && Has(m, "object_schema_version", Str(c.objectSchemaVersion))
            && Has(m, "object_type", Str(c.objectType)) && Has(m, "payload_digest", Str(c.payloadDigest))
            && Has(m, "purpose", Str(c.purpose)) && Has(m, "schema_version", Str(c.schemaVersion))
            && Has(m, "signer_id", Str(c.signerId)) && Has(m, "signer_role", Str(c.signerRole))
            && Has(m, "tenant_scope", Nullable(c.tenantScope))
  {
    hide Record, DistinctNames, Has;
    ClaimNamesDistinct();
    RecordNames(CLAIM_NAMES, ClaimValues(c));
    ClaimHas(c, 0); ClaimHas(c, 1); ClaimHas(c, 2); ClaimHas(c, 3); ClaimHas(c, 4); ClaimHas(c, 5);
    ClaimHas(c, 6); ClaimHas(c, 7); ClaimHas(c, 8); ClaimHas(c, 9); ClaimHas(c, 10); ClaimHas(c, 11);
    ClaimHas(c, 12); ClaimHas(c, 13); ClaimHas(c, 14); ClaimHas(c, 15); ClaimHas(c, 16);
  }

  predicate Has(m: map<string, Value>, name: string, v: Value) { name in m && m[name] == v }

  lemma RecordHas(names: seq<string>, v: seq<Value>, i: nat)
    requires |names| == |v| && i < |v| && DistinctNames(names)
    ensures Has(Record(names, v), names[i], v[i])
  {
    RecordAt(names, v, i);
  }

  lemma ClaimHas(c: Claims, i: nat)
    requires i < 17
    ensures Has(ClaimsValue(c).members, CLAIM_NAMES[i], ClaimValues(c)[i])
  {
    hide Record, DistinctNames, Has;
    ClaimNamesDistinct();
    RecordHas(CLAIM_NAMES, ClaimValues(c), i);
  }

  lemma KeyNamesDistinct()
    ensures DistinctNames(KEY_NAMES) && DistinctNames(REGISTRY_NAMES)
  {
    var k, r := KEY_NAMES, REGISTRY_NAMES;
    assert |k| == 12 && |r| == 8;
    forall i, j | 0 <= i < j < 12 ensures k[i] != k[j] { assert |k[i]| != |k[j]| || k[i][0] != k[j][0]; }
    forall i, j | 0 <= i < j < 8 ensures r[i] != r[j] { assert |r[i]| != |r[j]| || r[i][1] != r[j][1]; }
  }

  /** And so for a key of the registry. */
  lemma KeyNamed(k: Key)
    ensures var m := KeyValue(k).members;
            && m.Keys == (set name | name in KEY_NAMES) && |KEY_NAMES| == 12
            && Has(m, "algorithm", Str(k.algorithm)) && Has(m, "environments", Identity.StringValues(k.environments))
            && Has(m, "kid", Str(k.kid)) && Has(m, "public_key_pem", Str(k.publicKeyPem))
            && Has(m, "purposes", Identity.StringValues(k.purposes))
            && Has(m, "revocation_reason", Nullable(k.revocationReason))
            && Has(m, "revoked_at", Nullable(k.revokedAt)) && Has(m, "status", Str(k.status))
            && Has(m, "supersedes_kid", Nullable(k.supersedesKid)) && Has(m, "tenant_scope", Nullable(k.tenantScope))
            && Has(m, "valid_from", Str(k.validFrom)) && Has(m, "valid_until", Str(k.validUntil))
  {
    hide Record, DistinctNames, Has, Identity.StringValues;
    RecordNames(KEY_NAMES, KeyValues(k));
    KeyHas(k, 0); KeyHas(k, 1); KeyHas(k, 2); KeyHas(k, 3); KeyHas(k, 4); KeyHas(k, 5);
    KeyHas(k, 6); KeyHas(k, 7); KeyHas(k, 8); KeyHas(k, 9); KeyHas(k, 10); KeyHas(k, 11);
  }

  lemma KeyHas(k: Key, i: nat)
    requires i < 12
    ensures Has(KeyValue(k).members, KEY_NAMES[i], KeyValues(k)[i])
  {
    hide Record, DistinctNames, Has, Identity.StringValues;
    KeyNamesDistinct();
    RecordHas(KEY_NAMES, KeyValues(k), i);
  }

  /** And for the registry, with its keys in their order. */
  lemma RegistryNamed(lib: Library, r: Registry)
    ensures var m := RegistryValue(lib, r).members;
            && m.Keys == (set name | name in REGISTRY_NAMES) && |REGISTRY_NAMES| == 8
            && Has(m, "issued_at", Str(r.issuedAt))
            && Has(m, "previous_registry_hash", Nullable(r.previousRegistryHash))
            && Has(m, "purpose_policy_hash", Str(r.purposePolicyHash)) && Has(m, "registry_id", Str(r.registryId))
            && Has(m, "registry_version", Num(lib.double(r.registryVersion)))
            && Has(m, "root_fingerprint", Str(r.rootFingerprint)) && Has(m, "schema_version", Str(r.schemaVersion))
            && "keys" in m && m["keys"].Arr? && |m["keys"].items| == |r.keys|
            && forall i | 0 <= i < |r.keys| :: m["keys"].items[i] == KeyValue(r.keys[i])
  {
    hide Record, DistinctNames, KeyValue;
    RecordNames(REGISTRY_NAMES, RegistryValues(lib, r));
    RegistryHas(lib, r, 0); RegistryHas(lib, r, 1); RegistryHas(lib, r, 2); RegistryHas(lib, r, 3);
    RegistryHas(lib, r, 4); RegistryHas(lib, r, 5); RegistryHas(lib, r, 6); RegistryHas(lib, r, 7);
  }

  lemma RegistryHas(lib: Library, r: Registry, i: nat)
    requires i < 8
    ensures Has(RegistryValue(lib, r).members, REGISTRY_NAMES[i], RegistryValues(lib, r)[i])
  {
    hide Record, DistinctNames, Has, KeyValue;
    KeyNamesDistinct();
    RecordHas(REGISTRY_NAMES, RegistryValues(lib, r), i);
  }

  // ---------- accepted envelopes ----------

  /** An accepted envelope says what its verifier expects: another expectation is refused as replay. */
  lemma AcceptedExpectation(lib: Library, payload: seq<Byte>, e: Envelope, r: Registry, x: Expectation)
    requires Accepts(lib, payload, e, r, x)
    ensures x == Expecting(ClaimsOf(e), x.at)
  {
    hide RegistryOk, DigestMatches, InTime, Verdict, SignatureOk, RegistryHash;
  }

  /** Sign, then verify, under any expectation: it must be that of the claims, at a timely moment. */
  lemma SignedVerifiesIff(lib: Library, payload: seq<Byte>, given: Claims, signer: Signer, r: Registry, x: Expectation)
    requires Lawful(lib) && Honest(lib, signer) && RegistryOk(lib.parsers, r)
    requires SignDetached(lib, payload, given, Some(signer)).Some?
    requires Holds(lib, r, given, signer.publicKey)
    ensures Accepts(lib, payload, SignDetached(lib, payload, given, Some(signer)).value, r, x)
            <==> x == Expecting(given, x.at) && Timely(lib, r, given, x.at)
  {
    hide SignDetached, Lawful, Honest, RegistryOk, Holds, Timely, Accepts;
    var e := SignDetached(lib, payload, given, Some(signer)).value;
    SignedEnvelope(lib, payload, given, signer);
    SignedVerifies(lib, payload, given, signer, r, x.at);
    if Accepts(lib, payload, e, r, x) { AcceptedExpectation(lib, payload, e, r, x); }
  }

  /** The moments: parsed, in order, and none of them after the moment of verification. */
  predicate InOrder(lib: Library, e: Envelope, r: Registry, key: Key, at: int) {
    var issued, registryIssued := lib.parsers.time(e.issuedAt), lib.parsers.time(r.issuedAt);
    var from, until := lib.parsers.time(key.validFrom), lib.parsers.time(key.validUntil);
    && at != lib.zeroTime && issued.Some? && registryIssued.Some? && from.Some? && until.Some?
    && from.value <= issued.value <= at <= until.value && registryIssued.value <= at
    && (e.expiresAt.Some? ==>
          lib.parsers.time(e.expiresAt.value).Some? && at <= lib.parsers.time(e.expiresAt.value).value)
  }

  /** The signature is a base64 image that verifies under the key for the hash of the canonical claims. */
  ghost predicate Signs(lib: Library, e: Envelope, key: Key) {
    exists signature, publicKey ::
      && e.signatureBase64 == Base64.Encode(signature) && lib.parsers.publicKey(key.publicKeyPem) == Some(publicKey)
      && Matches(e.algorithm, publicKey)
      && lib.verify(publicKey, lib.sha(Encode8(Print(ClaimsValue(ClaimsOf(e))))), signature)
  }

  /** The active key with the envelope's kid, for its algorithm, purpose, environment and tenant. */
  predicate Eligible(key: Key, e: Envelope) {
    && key.kid == e.kid && key.status == "active" && key.algorithm == e.algorithm && e.purpose in key.purposes
    && e.environment in key.environments && key.tenantScope == e.tenantScope
  }

  /**
   What an accepted envelope is: of version 1.0.0, of the expected claims, bound to this registry by id and
   hash, to this payload by its typed digest, to its claims by its id, signed by an eligible key, and in time.
   */
  ghost predicate Genuine(lib: Library, payload: seq<Byte>, e: Envelope, r: Registry, x: Expectation) {
    && e.schemaVersion == "1.0.0" && x == Expecting(ClaimsOf(e), x.at)
    && e.keyRegistryId == r.registryId
    && e.keyRegistryHash == Hex(lib.sha(Encode8(Print(RegistryValue(lib, r)))))
    && DigestHex(lib.sha, lib.round, e.objectType, e.objectSchemaVersion, payload) == Some(e.payloadDigest)
    && e.envelopeId == Hex(lib.sha(EnvelopePreimage(ClaimsOf(e))))
    && exists key :: key in r.keys && Eligible(key, e) && InOrder(lib, e, r, key, x.at) && Signs(lib, e, key)
  }

  lemma DigestIsHash(lib: Library, payload: seq<Byte>, e: Envelope)
    requires Lawful(lib)
    ensures DigestMatches(lib, payload, ClaimsOf(e)) <==>
            DigestHex(lib.sha, lib.round, e.objectType, e.objectSchemaVersion, payload) == Some(e.payloadDigest)
  {
    hide DigestHex, IsHash32;
    if DigestHex(lib.sha, lib.round, e.objectType, e.objectSchemaVersion, payload).Some? {
      DigestIsHash32(lib, e.objectType, e.objectSchemaVersion, payload);
    }
  }

  lemma IdIff(lib: Library, e: Envelope)
    requires Lawful(lib) && e.schemaVersion == "1.0.0"
    ensures EnvelopeId(lib, ClaimsOf(e)) == Some(Hex(lib.sha(EnvelopePreimage(ClaimsOf(e)))))
  {
    hide CanonicalBytes, ClaimsBytes, Print, ClaimsValue, Preimage, Hex, ValidSchemaVersion;
    VersionValid();
    ClaimsBytesCanonical(lib, ClaimsOf(e));
  }

  lemma SignsIff(lib: Library, e: Envelope, key: Key)
    requires Lawful(lib) && e.schemaVersion == "1.0.0"
    ensures SignatureOk(lib, key, e) <==>
            Signs(lib, e, key) && e.envelopeId == Hex(lib.sha(EnvelopePreimage(ClaimsOf(e))))
  {
    hide Lawful, ClaimsBytes, EnvelopeId, EnvelopePreimage, ClaimsValue, Print, Fits, Matches, Hex;
    hide Base64.Encode, Base64.GoBytes;
    ClaimsBytesCanonical(lib, ClaimsOf(e));
    IdIff(lib, e);
    if lib.parsers.publicKey(key.publicKeyPem).Some? {
      FitsIff(e.algorithm, lib.parsers.publicKey(key.publicKeyPem).value);
    }
    var signature := Base64.GoBytes(e.signatureBase64);
    if signature.Some? { Base64.AcceptsImage(e.signatureBase64, signature.value); }
    forall b | e.signatureBase64 == Base64.Encode(b) ensures signature == Some(b) {
      Base64.AcceptsImage(e.signatureBase64, b);
    }
  }

  lemma RegistryIs(lib: Library, e: Envelope, r: Registry, x: Expectation)
    requires Lawful(lib) && x == Expecting(ClaimsOf(e), x.at)
    ensures Bound(lib, ClaimsOf(e), r, x) <==>
            && e.keyRegistryId == r.registryId
            && e.keyRegistryHash == Hex(lib.sha(Encode8(Print(RegistryValue(lib, r)))))
  {
    hide Lawful, RegistryHash, RegistryValue, Print, Hex;
    RegistryHashIs(lib, r);
  }

  lemma EligibleIff(lib: Library, e: Envelope, r: Registry, key: Key, at: int)
    requires RegistryOk(lib.parsers, r) && Find(r.keys, e.kid) == Some(key)
    ensures (InTime(lib, ClaimsOf(e), r, at)
             && Verdict(lib, r.keys, ClaimsOf(e), lib.parsers.time(e.issuedAt).value, at).None?)
            <==> Eligible(key, e) && InOrder(lib, e, r, key, at)
  {
    hide RegistryOk, Verdict;
    FindExact(r.keys, e.kid);
    if lib.parsers.time(e.issuedAt).Some? {
      VerdictIff(lib, r, ClaimsOf(e), lib.parsers.time(e.issuedAt).value, at);
    }
  }

  lemma FoundIs(r: Registry, kid: Kid, key: Key)
    requires DistinctKids(r.keys) && key in r.keys && key.kid == kid
    ensures Find(r.keys, kid) == Some(key)
  {
    var i :| 0 <= i < |r.keys| && r.keys[i] == key;
    FindIs(r.keys, i);
  }

  /** Under a valid registry, accepted are exactly the genuine envelopes. */
  lemma AcceptedIff(lib: Library, payload: seq<Byte>, e: Envelope, r: Registry, x: Expectation)
    requires Lawful(lib) && RegistryOk(lib.parsers, r)
    ensures Accepts(lib, payload, e, r, x) <==> Genuine(lib, payload, e, r, x)
  {
    hide Lawful, RegistryOk, Accepts, Genuine;
    if Accepts(lib, payload, e, r, x) { AcceptedIsGenuine(lib, payload, e, r, x); }
    if Genuine(lib, payload, e, r, x) { GenuineIsAccepted(lib, payload, e, r, x); }
  }

  lemma AcceptedIsGenuine(lib: Library, payload: seq<Byte>, e: Envelope, r: Registry, x: Expectation)
    requires Lawful(lib) && Accepts(lib, payload, e, r, x)
    ensures Genuine(lib, payload, e, r, x)
  {
    hide Lawful, RegistryOk, Verdict, InTime, SignatureOk, DigestMatches, DigestHex, Bound, RegistryValue, Print, Hex;
    hide Eligible, InOrder, Signs, EnvelopePreimage;
    var c := ClaimsOf(e);
    AcceptedExpectation(lib, payload, e, r, x);
    RegistryIs(lib, e, r, x);
    DigestIsHash(lib, payload, e);
    InTimeIssued(lib, c, r, x.at);
    KeyFound(lib, r, c, lib.parsers.time(c.issuedAt).value, x.at);
    var key := Find(r.keys, e.kid).value;
    FindExact(r.keys, e.kid);
    EligibleIff(lib, e, r, key, x.at);
    SignsIff(lib, e, key);
  }

  lemma GenuineIsAccepted(lib: Library, payload: seq<Byte>, e: Envelope, r: Registry, x: Expectation)
    requires Lawful(lib) && RegistryOk(lib.parsers, r) && Genuine(lib, payload, e, r, x)
    ensures Accepts(lib, payload, e, r, x)
  {
    hide Lawful, Verdict, InTime, SignatureOk, DigestMatches, DigestHex, Bound, RegistryValue, Print, Hex;
    hide InOrder, Signs, EnvelopePreimage, HeaderOk, KeyOk, LinksOk, Acyclic;
    var key :| key in r.keys && Eligible(key, e) && InOrder(lib, e, r, key, x.at) && Signs(lib, e, key);
    FoundIs(r, e.kid, key);
    RegistryIs(lib, e, r, x);
    DigestIsHash(lib, payload, e);
    EligibleIff(lib, e, r, key, x.at);
    SignsIff(lib, e, key);
  }

  ghost predicate StartsBeforeItEnds(lib: Library, c: Claims) {
    exists issued ::
      && lib.parsers.time(c.issuedAt) == Some(issued)
      && (c.expiresAt.Some? ==> exists expires ::
            lib.parsers.time(c.expiresAt.value) == Some(expires) && issued <= expires)
  }

  /**
   Signing goes through exactly for claims of version 1.0.0 whose times parse and do not end before they start,
   for a valid type and payload, with a signer whose key matches the algorithm and who signs the claims' hash.
   */
  lemma SignDetachedIff(lib: Library, payload: seq<Byte>, given: Claims, signer: Option<Signer>)
    requires Lawful(lib)
    ensures SignDetached(lib, payload, given, signer).Some? <==>
            && given.schemaVersion == "1.0.0" && signer != None
            && StartsBeforeItEnds(lib, given)
            && Matches(given.algorithm, signer.value.publicKey)
            && exists digest ::
                 && DigestHex(lib.sha, lib.round, given.objectType, given.objectSchemaVersion, payload) == Some(digest)
                 && var claims := given.(payloadDigest := digest);
                    signer.value.sign(lib.sha(Encode8(Print(ClaimsValue(claims))))) != None
  {
    hide Lawful, DigestHex, ClaimsBytes, Print, ClaimsValue, EnvelopeId, Fits, Matches, Base64.Encode, Encode8;
    TimesIff(lib, given);
    var digest := DigestHex(lib.sha, lib.round, given.objectType, given.objectSchemaVersion, payload);
    if signer.Some? { FitsIff(given.algorithm, signer.value.publicKey); }
    if digest.Some? && given.schemaVersion == "1.0.0" {
      var claims := given.(payloadDigest := digest.value);
      ClaimsBytesCanonical(lib, claims);
      IdOfClaims(lib, claims);
    }
  }

  lemma TimesIff(lib: Library, c: Claims)
    ensures TimesSignable(lib, c) <==> StartsBeforeItEnds(lib, c)
  {
    if TimesSignable(lib, c) {
      var issued := lib.parsers.time(c.issuedAt).value;
      assert lib.parsers.time(c.issuedAt) == Some(issued);
      if c.expiresAt.Some? {
        assert lib.parsers.time(c.expiresAt.value) == Some(lib.parsers.time(c.expiresAt.value).value);
      }
    }
  }

  lemma IdOfClaims(lib: Library, c: Claims)
    requires Lawful(lib) && c.schemaVersion == "1.0.0"
    ensures EnvelopeId(lib, c).Some?
  {
    hide CanonicalBytes, ClaimsBytes, Print, ClaimsValue, Preimage, Hex, ValidSchemaVersion;
    VersionValid();
    ClaimsBytesCanonical(lib, c);
  }

  /** A missing optional field is null, not an empty string. */
  lemma NullableIs(s: string)
    ensures Nullable(None) == Null && Nullable(Some(s)) == Str(s)
  {
  }

  /** Whatever the registry, a key with revocation data is found only before the moment of its revocation. */
  lemma RevokedIsRefused(lib: Library, key: Key, c: Claims, issuedAt: int, at: int, revokedAt: string)
    requires key.revokedAt == Some(revokedAt) && Judge(lib, key, c, issuedAt, at) == None
    ensures lib.parsers.time(revokedAt).Some? && at < lib.parsers.time(revokedAt).value
  {
  }
}
