/** SignDetached and VerifyDetached of signature.go; times are nanoseconds. */
module DetachedSignature {
  import opened Wrappers
  import opened Unicode
  import opened Number
  import opened CanonicalNumber
  import opened Json
  import opened GoCanonical
  import opened CanonicalTheorems
  import opened TypedDigest
  import Base64
  import Identity = ContentIdentity
  import opened KeyRegistry

  datatype Claims = Claims(
    schemaVersion: string, objectType: string, objectSchemaId: string, objectSchemaVersion: string,
    payloadDigest: string, purpose: string, environment: string, tenantScope: Option<string>,
    migrationScope: Option<string>, kid: string, algorithm: string, signerId: string, signerRole: string,
    issuedAt: string, expiresAt: Option<string>, keyRegistryId: string, keyRegistryHash: string)

  datatype Envelope = Envelope(
    schemaVersion: string, envelopeId: string, objectType: string, objectSchemaId: string,
    objectSchemaVersion: string, payloadDigest: string, purpose: string, environment: string,
    tenantScope: Option<string>, migrationScope: Option<string>, kid: string, algorithm: string,
    signerId: string, signerRole: string, issuedAt: string, expiresAt: Option<string>,
    keyRegistryId: string, keyRegistryHash: string, signatureBase64: string)

  datatype Expectation = Expectation(
    objectType: string, objectSchemaId: string, objectSchemaVersion: string, purpose: string,
    environment: string, tenantScope: Option<string>, migrationScope: Option<string>,
    registryHash: string, at: int)

  /** A key holder: its public key, and Sign, which may fail. */
  datatype Signer = Signer(publicKey: PublicKey, sign: seq<Byte> -> Option<seq<Byte>>)

  /** The library code: parsers, hash, doubles, json.Marshal and the signature checks; `zeroTime` is time.Time{}. */
  datatype Library = Library(
    parsers: Parsers, zeroTime: int, sha: Hash, round: Rounding, double: int -> Number,
    marshal: Value -> seq<Byte>, verify: (PublicKey, seq<Byte>, seq<Byte>) -> bool)

  ghost predicate Lawful(lib: Library) {
    && IsHash(lib.sha) && IsRounding(lib.round) && Marshals(lib.round, lib.marshal)
    && forall n: int :: lib.round(lib.double(n)) == Some(lib.double(n))
  }

  ghost predicate Honest(lib: Library, signer: Signer) {
    forall h | signer.sign(h).Some? :: lib.verify(signer.publicKey, h, signer.sign(h).value)
  }

  // ---------- the hashed forms ----------

  function Nullable(s: Option<string>): Value { match s case None => Null case Some(text) => Str(text) }

  /** An object with these names, in whatever order they are written. */
  function Record(names: seq<string>, values: seq<Value>): map<string, Value>
    requires |names| == |values|
  {
    if names == [] then map[] else Record(names[1..], values[1..])[names[0] := values[0]]
  }

  const CLAIM_NAMES := [
    "algorithm", "environment", "expires_at", "issued_at", "key_registry_hash", "key_registry_id", "kid",
    "migration_scope", "object_schema_id", "object_schema_version", "object_type", "payload_digest", "purpose",
    "schema_version", "signer_id", "signer_role", "tenant_scope"]

  function ClaimValues(c: Claims): seq<Value> {
    [Str(c.algorithm), Str(c.environment), Nullable(c.expiresAt), Str(c.issuedAt), Str(c.keyRegistryHash),
     Str(c.keyRegistryId), Str(c.kid), Nullable(c.migrationScope), Str(c.objectSchemaId), Str(c.objectSchemaVersion),
     Str(c.objectType), Str(c.payloadDigest), Str(c.purpose), Str(c.schemaVersion), Str(c.signerId), Str(c.signerRole),
     Nullable(c.tenantScope)]
  }

  function ClaimsValue(c: Claims): Value { Obj(Record(CLAIM_NAMES, ClaimValues(c))) }

  /** canonicalClaimsBytes */
  function ClaimsBytes(lib: Library, c: Claims): Option<seq<Byte>> {
    CanonicalBytes(lib.round, lib.marshal(ClaimsValue(c)))
  }

  const KEY_NAMES := [
    "algorithm", "environments", "kid", "public_key_pem", "purposes", "revocation_reason", "revoked_at", "status",
    "supersedes_kid", "tenant_scope", "valid_from", "valid_until"]

  function KeyValues(k: Key): seq<Value> {
    [Str(k.algorithm), Identity.StringValues(k.environments), Str(k.kid), Str(k.publicKeyPem),
     Identity.StringValues(k.purposes), Nullable(k.revocationReason), Nullable(k.revokedAt), Str(k.status),
     Nullable(k.supersedesKid), Nullable(k.tenantScope), Str(k.validFrom), Str(k.validUntil)]
  }

  function KeyValue(k: Key): Value { Obj(Record(KEY_NAMES, KeyValues(k))) }

  const REGISTRY_NAMES := [
    "issued_at", "keys", "previous_registry_hash", "purpose_policy_hash", "registry_id", "registry_version",
    "root_fingerprint", "schema_version"]

  function RegistryValues(lib: Library, r: Registry): seq<Value> {
    [Str(r.issuedAt), Arr(seq(|r.keys|, i requires 0 <= i < |r.keys| => KeyValue(r.keys[i]))),
     Nullable(r.previousRegistryHash), Str(r.purposePolicyHash), Str(r.registryId),
     Num(lib.double(r.registryVersion)), Str(r.rootFingerprint), Str(r.schemaVersion)]
  }

  function RegistryValue(lib: Library, r: Registry): Value { Obj(Record(REGISTRY_NAMES, RegistryValues(lib, r))) }

  /** registryDigest */
  function RegistryHash(lib: Library, r: Registry): Option<string> {
    match CanonicalBytes(lib.round, lib.marshal(RegistryValue(lib, r)))
    case None => None
    case Some(canonical) => Some(Hex(lib.sha(canonical)))
  }

  function EnvelopeId(lib: Library, c: Claims): Option<string> {
    match ClaimsBytes(lib, c)
    case None => None
    case Some(canonical) => DigestHex(lib.sha, lib.round, "signature_envelope", c.schemaVersion, canonical)
  }

  // ---------- SignDetached ----------

  predicate TimesSignable(lib: Library, c: Claims) {
    var issuedAt := lib.parsers.time(c.issuedAt);
    && issuedAt.Some?
    && (c.expiresAt.Some? ==>
          var expiresAt := lib.parsers.time(c.expiresAt.value);
          expiresAt.Some? && !(expiresAt.value < issuedAt.value))
  }

  function SignDetached(lib: Library, payload: seq<Byte>, given: Claims, signer: Option<Signer>): Option<Envelope> {
    if given.schemaVersion != "1.0.0" || signer.None? || !TimesSignable(lib, given) then None
    else match DigestHex(lib.sha, lib.round, given.objectType, given.objectSchemaVersion, payload)
         case None => None
         case Some(digest) =>
           var claims := given.(payloadDigest := digest);
           var canonicalClaims := ClaimsBytes(lib, claims);
           if canonicalClaims.None? || !Fits(claims.algorithm, signer.value.publicKey) then None
           else match signer.value.sign(lib.sha(canonicalClaims.value))
                case None => None
                case Some(signature) =>
                  match EnvelopeId(lib, claims)
                  case None => None
                  case Some(envelopeId) =>
                    Some(Envelope(
                           claims.schemaVersion, envelopeId, claims.objectType, claims.objectSchemaId,
                           claims.objectSchemaVersion, claims.payloadDigest, claims.purpose, claims.environment,
                           claims.tenantScope, claims.migrationScope, claims.kid, claims.algorithm, claims.signerId,
                           claims.signerRole, claims.issuedAt, claims.expiresAt, claims.keyRegistryId,
                           claims.keyRegistryHash, Base64.Encode(signature)))
  }

  // ---------- findEligibleKey ----------

  datatype Refusal = NotActive | Ineligible | WrongTenant | OutsideInterval | KeyRevoked | UnknownKey

  /** What the loop decides about the first key with the kid of the claims. */
  function Judge(lib: Library, key: Key, c: Claims, issuedAt: int, at: int): Option<Refusal> {
    var from, until := lib.parsers.time(key.validFrom), lib.parsers.time(key.validUntil);
    if key.status != "active" then Some(NotActive)
    else if key.algorithm != c.algorithm || c.purpose !in key.purposes || c.environment !in key.environments then
      Some(Ineligible)
    else if key.tenantScope != c.tenantScope then Some(WrongTenant)
    else if from.None? || until.None? || issuedAt < from.value || until.value < issuedAt
            || at < from.value || until.value < at then Some(OutsideInterval)
    else if key.revokedAt.Some? &&
            (lib.parsers.time(key.revokedAt.value).None? || lib.parsers.time(key.revokedAt.value).value <= at)
         then Some(KeyRevoked)
    else None
  }

  function Verdict(lib: Library, keys: seq<Key>, c: Claims, issuedAt: int, at: int): Option<Refusal> {
    match Find(keys, c.kid) case None => Some(UnknownKey) case Some(key) => Judge(lib, key, c, issuedAt, at)
  }

  method FindEligibleKey(lib: Library, r: Registry, c: Claims, issuedAt: int, at: int)
    returns (key: Option<Key>, refusal: Option<Refusal>)
    ensures refusal == Verdict(lib, r.keys, c, issuedAt, at)
    ensures key == if refusal.None? then Find(r.keys, c.kid) else None
  {
    hide Judge;
    for index := 0 to |r.keys|
      invariant Find(r.keys, c.kid) == Find(r.keys[index..], c.kid)
    {
      assert r.keys[index..][1..] == r.keys[index + 1..];
      if r.keys[index].kid == c.kid {
        refusal := Judge(lib, r.keys[index], c, issuedAt, at);
        return if refusal.None? then Some(r.keys[index]) else None, refusal;
      }
    }
    return None, Some(UnknownKey);
  }

  // ---------- VerifyDetached ----------

  function ClaimsOf(e: Envelope): Claims {
    Claims(e.schemaVersion, e.objectType, e.objectSchemaId, e.objectSchemaVersion, e.payloadDigest, e.purpose,
           e.environment, e.tenantScope, e.migrationScope, e.kid, e.algorithm, e.signerId, e.signerRole, e.issuedAt,
           e.expiresAt, e.keyRegistryId, e.keyRegistryHash)
  }

  /** Type, schema, purpose, scope and registry are the ones expected. */
  predicate Expected(c: Claims, x: Expectation) {
    && c.schemaVersion == "1.0.0" && c.objectType == x.objectType && c.objectSchemaId == x.objectSchemaId
    && c.objectSchemaVersion == x.objectSchemaVersion && c.purpose == x.purpose
    && c.environment == x.environment && c.tenantScope == x.tenantScope && c.migrationScope == x.migrationScope
  }

  predicate Bound(lib: Library, c: Claims, r: Registry, x: Expectation) {
    && c.keyRegistryId == r.registryId && c.keyRegistryHash == x.registryHash
    && RegistryHash(lib, r) == Some(x.registryHash)
  }

  predicate DigestMatches(lib: Library, payload: seq<Byte>, c: Claims) {
    && DigestHex(lib.sha, lib.round, c.objectType, c.objectSchemaVersion, payload) == Some(c.payloadDigest)
    && IsHash32(c.payloadDigest)
  }

  predicate InTime(lib: Library, c: Claims, r: Registry, at: int) {
    var issuedAt, registryIssuedAt := lib.parsers.time(c.issuedAt), lib.parsers.time(r.issuedAt);
    && issuedAt.Some? && at != lib.zeroTime
    && registryIssuedAt.Some? && !(at < registryIssuedAt.value) && !(at < issuedAt.value)
    && (c.expiresAt.Some? ==>
          var expiresAt := lib.parsers.time(c.expiresAt.value);
          expiresAt.Some? && !(expiresAt.value < issuedAt.value) && !(expiresAt.value < at))
  }

  predicate SignatureOk(lib: Library, key: Key, e: Envelope) {
    var signature, publicKey := Base64.GoBytes(e.signatureBase64), lib.parsers.publicKey(key.publicKeyPem);
    var canonicalClaims := ClaimsBytes(lib, ClaimsOf(e));
    && canonicalClaims.Some? && EnvelopeId(lib, ClaimsOf(e)) == Some(e.envelopeId)
    && signature.Some? && publicKey.Some? && Fits(e.algorithm, publicKey.value)
    && lib.verify(publicKey.value, lib.sha(canonicalClaims.value), signature.value)
  }

  /** What VerifyDetached lets pass. */
  ghost predicate Accepts(lib: Library, payload: seq<Byte>, e: Envelope, r: Registry, x: Expectation) {
    var c := ClaimsOf(e);
    && RegistryOk(lib.parsers, r) && Expected(c, x) && Bound(lib, c, r, x) && DigestMatches(lib, payload, c)
    && InTime(lib, c, r, x.at)
    && Verdict(lib, r.keys, c, lib.parsers.time(c.issuedAt).value, x.at).None?
    && SignatureOk(lib, Find(r.keys, c.kid).value, e)
  }

  method VerifyDetached(lib: Library, payload: seq<Byte>, e: Envelope, r: Registry, x: Expectation) returns (ok: bool)
    requires Lawful(lib)
    ensures ok <==> Accepts(lib, payload, e, r, x)
  {
    hide RegistryOk, Expected, Bound, InTime, SignatureOk, Judge, DigestHex, IsHash32;
    ok := ValidateRegistry(lib.parsers, r);
    if !ok { return false; }
    var c := ClaimsOf(e);
    if !Expected(c, x) || !Bound(lib, c, r, x) { return false; }
    var digest := TypedDigestHex(lib.sha, lib.round, c.objectType, c.objectSchemaVersion, payload);
    if digest.None? || c.payloadDigest != digest.value || !IsHash32(c.payloadDigest) { return false; }
    if !InTime(lib, c, r, x.at) { return false; }
    InTimeIssued(lib, c, r, x.at);
    var key, refusal := FindEligibleKey(lib, r, c, lib.parsers.time(c.issuedAt).value, x.at);
    if refusal.Some? { return false; }
    return SignatureOk(lib, key.value, e);
  }

  lemma InTimeIssued(lib: Library, c: Claims, r: Registry, at: int)
    requires InTime(lib, c, r, at)
    ensures lib.parsers.time(c.issuedAt).Some?
  {
  }

  // ---------- sign, then verify ----------

  /** The expectation of a verifier that wants exactly these claims. */
  function Expecting(c: Claims, at: int): Expectation {
    Expectation(c.objectType, c.objectSchemaId, c.objectSchemaVersion, c.purpose, c.environment, c.tenantScope,
                c.migrationScope, c.keyRegistryHash, at)
  }

  /** The registry holds the signer's public key, active, for the algorithm, purpose and scope of the claims. */
  predicate Holds(lib: Library, r: Registry, c: Claims, publicKey: PublicKey) {
    && c.keyRegistryId == r.registryId && RegistryHash(lib, r) == Some(c.keyRegistryHash)
    && var key := Find(r.keys, c.kid);
    && key.Some? && key.value.status == "active" && lib.parsers.publicKey(key.value.publicKeyPem) == Some(publicKey)
    && key.value.algorithm == c.algorithm && c.purpose in key.value.purposes
    && c.environment in key.value.environments && key.value.tenantScope == c.tenantScope
  }

  /** Everything the times must satisfy: issued within the key's validity, verified within all intervals. */
  predicate Timely(lib: Library, r: Registry, c: Claims, at: int) {
    var issuedAt, registryIssuedAt := lib.parsers.time(c.issuedAt), lib.parsers.time(r.issuedAt);
    && issuedAt.Some? && registryIssuedAt.Some? && at != lib.zeroTime
    && issuedAt.value <= at && registryIssuedAt.value <= at
    && (c.expiresAt.Some? ==>
          lib.parsers.time(c.expiresAt.value).Some? && at <= lib.parsers.time(c.expiresAt.value).value)
    && var key := Find(r.keys, c.kid);
    && key.Some? && lib.parsers.time(key.value.validFrom).Some? && lib.parsers.time(key.value.validUntil).Some?
    && lib.parsers.time(key.value.validFrom).value <= issuedAt.value
    && at <= lib.parsers.time(key.value.validUntil).value
  }

  lemma SignedEnvelope(lib: Library, payload: seq<Byte>, given: Claims, signer: Signer)
    requires SignDetached(lib, payload, given, Some(signer)).Some?
    ensures var e := SignDetached(lib, payload, given, Some(signer)).value; var c := ClaimsOf(e);
            && c == given.(payloadDigest := c.payloadDigest) && c.schemaVersion == "1.0.0"
            && DigestHex(lib.sha, lib.round, c.objectType, c.objectSchemaVersion, payload) == Some(c.payloadDigest)
            && EnvelopeId(lib, c) == Some(e.envelopeId) && Fits(c.algorithm, signer.publicKey)
            && ClaimsBytes(lib, c).Some? && signer.sign(lib.sha(ClaimsBytes(lib, c).value)).Some?
            && e.signatureBase64 == Base64.Encode(signer.sign(lib.sha(ClaimsBytes(lib, c).value)).value)
  {
    hide ClaimsBytes, DigestHex, EnvelopeId, Base64.Encode, TimesSignable;
  }

  lemma DigestIsHash32(lib: Library, objectType: string, version: string, payload: seq<Byte>)
    requires Lawful(lib) && DigestHex(lib.sha, lib.round, objectType, version, payload).Some?
    ensures IsHash32(DigestHex(lib.sha, lib.round, objectType, version, payload).value)
  {
    var canonical := CanonicalBytes(lib.round, payload).value;
    HexDigits(lib.sha(Preimage(objectType, version, canonical)));
  }

  /** In a valid registry no active key carries revocation data, so a verification never fails as revoked. */
  lemma RevocationNeverFires(lib: Library, r: Registry, c: Claims, issuedAt: int, at: int)
    requires RegistryOk(lib.parsers, r)
    ensures Verdict(lib, r.keys, c, issuedAt, at) != Some(KeyRevoked)
  {
    hide Acyclic, LinksOk, DistinctKids, HeaderOk;
    FindExact(r.keys, c.kid);
    if Find(r.keys, c.kid).Some? {
      assert KeyOk(lib.parsers, Find(r.keys, c.kid).value);
    }
  }

  /** The verdict of the loop, as conditions on the one key. */
  lemma VerdictIff(lib: Library, r: Registry, c: Claims, issuedAt: int, at: int)
    requires RegistryOk(lib.parsers, r) && Find(r.keys, c.kid).Some?
    ensures var key := Find(r.keys, c.kid).value;
            var from, until := lib.parsers.time(key.validFrom), lib.parsers.time(key.validUntil);
            && from.Some? && until.Some?
            && (Verdict(lib, r.keys, c, issuedAt, at).None? <==>
                && key.status == "active" && key.algorithm == c.algorithm && c.purpose in key.purposes
                && c.environment in key.environments && key.tenantScope == c.tenantScope
                && from.value <= issuedAt <= until.value && from.value <= at <= until.value)
  {
    hide Acyclic, LinksOk, DistinctKids, HeaderOk;
    FindExact(r.keys, c.kid);
    assert KeyOk(lib.parsers, Find(r.keys, c.kid).value);
    RevocationNeverFires(lib, r, c, issuedAt, at);
  }

  /**
   Sign, then verify: under any valid registry that holds the signer's active key, and an expectation of
   the same claims, the envelope is accepted exactly at the timely moments.
   */
  lemma SignedVerifies(lib: Library, payload: seq<Byte>, given: Claims, signer: Signer, r: Registry, at: int)
    requires Lawful(lib) && Honest(lib, signer) && RegistryOk(lib.parsers, r)
    requires SignDetached(lib, payload, given, Some(signer)).Some?
    requires Holds(lib, r, given, signer.publicKey)
    ensures Accepts(lib, payload, SignDetached(lib, payload, given, Some(signer)).value, r, Expecting(given, at))
            <==> Timely(lib, r, given, at)
  {
    hide SignDetached, RegistryOk, Verdict, ClaimsBytes, DigestHex, EnvelopeId, IsHash32, RegistryHash, Fits, Hex;
    hide Base64.Encode, Base64.GoBytes;
    var e := SignDetached(lib, payload, given, Some(signer)).value;
    var c := ClaimsOf(e);
    SignedEnvelope(lib, payload, given, signer);
    DigestIsHash32(lib, c.objectType, c.objectSchemaVersion, payload);
    SignedSignatureOk(lib, c, e, signer, Find(r.keys, c.kid).value);
    if lib.parsers.time(c.issuedAt).Some? {
      SignedInTime(lib, payload, given, signer, r, at);
      VerdictIff(lib, r, c, lib.parsers.time(c.issuedAt).value, at);
    }
  }

  lemma SignedInTime(lib: Library, payload: seq<Byte>, given: Claims, signer: Signer, r: Registry, at: int)
    requires SignDetached(lib, payload, given, Some(signer)).Some?
    ensures given.expiresAt.Some? ==>
              && lib.parsers.time(given.issuedAt).Some? && lib.parsers.time(given.expiresAt.value).Some?
              && lib.parsers.time(given.issuedAt).value <= lib.parsers.time(given.expiresAt.value).value
  {
  }

  lemma SignedSignatureOk(lib: Library, c: Claims, e: Envelope, signer: Signer, key: Key)
    requires Honest(lib, signer) && c == ClaimsOf(e) && EnvelopeId(lib, c) == Some(e.envelopeId)
    requires Fits(c.algorithm, signer.publicKey) && lib.parsers.publicKey(key.publicKeyPem) == Some(signer.publicKey)
    requires ClaimsBytes(lib, c).Some? && signer.sign(lib.sha(ClaimsBytes(lib, c).value)).Some?
    requires e.signatureBase64 == Base64.Encode(signer.sign(lib.sha(ClaimsBytes(lib, c).value)).value)
    ensures SignatureOk(lib, key, e)
  {
    hide ClaimsBytes, EnvelopeId, Fits;
    Base64.EncodeAccepted(signer.sign(lib.sha(ClaimsBytes(lib, c).value)).value);
  }

  // ---------- the accepted times ----------

  /** The first and last moments at which an envelope can be accepted. */
  function Opens(lib: Library, e: Envelope, r: Registry): int {
    var key := Find(r.keys, e.kid);
    if key.None? then 0
    else Max(Max(lib.parsers.time(e.issuedAt).GetOr(0), lib.parsers.time(r.issuedAt).GetOr(0)),
             lib.parsers.time(key.value.validFrom).GetOr(0))
  }

  function Closes(lib: Library, e: Envelope, r: Registry): int {
    var key := Find(r.keys, e.kid);
    if key.None? then 0
    else
      var until := lib.parsers.time(key.value.validUntil).GetOr(0);
      if e.expiresAt.None? then until else Min(until, lib.parsers.time(e.expiresAt.value).GetOr(0))
  }

  /** Accepted once, an envelope is accepted at all times of one closed interval, but for Go's zero time. */
  lemma AcceptedTimes(lib: Library, payload: seq<Byte>, e: Envelope, r: Registry, x: Expectation, at: int)
    requires Accepts(lib, payload, e, r, x)
    ensures Accepts(lib, payload, e, r, x.(at := at)) <==>
            at != lib.zeroTime && Opens(lib, e, r) <= at <= Closes(lib, e, r)
  {
    hide RegistryOk, Verdict, SignatureOk, DigestMatches, RegistryHash;
    var c := ClaimsOf(e);
    var issuedAt := lib.parsers.time(c.issuedAt).value;
    KeyFound(lib, r, c, issuedAt, x.at);
    VerdictIff(lib, r, c, issuedAt, x.at);
    VerdictIff(lib, r, c, issuedAt, at);
  }

  lemma KeyFound(lib: Library, r: Registry, c: Claims, issuedAt: int, at: int)
    requires Verdict(lib, r.keys, c, issuedAt, at).None?
    ensures Find(r.keys, c.kid).Some?
  {
  }

  /** The accepted times have no gap. */
  ghost predicate NoGap(lib: Library, payload: seq<Byte>, e: Envelope, r: Registry, x: Expectation) {
    forall a, b, c |
      a < b < c && Accepts(lib, payload, e, r, x.(at := a)) && Accepts(lib, payload, e, r, x.(at := c)) ::
      Accepts(lib, payload, e, r, x.(at := b))
  }

  /** So they form one closed interval exactly when the zero time is not strictly inside it. */
  lemma OneIntervalIff(lib: Library, payload: seq<Byte>, e: Envelope, r: Registry, x: Expectation)
    requires Accepts(lib, payload, e, r, x)
    ensures NoGap(lib, payload, e, r, x) <==> !(Opens(lib, e, r) < lib.zeroTime < Closes(lib, e, r))
  {
    hide Accepts, Opens, Closes;
    forall at ensures Accepts(lib, payload, e, r, x.(at := at)) <==>
                      at != lib.zeroTime && Opens(lib, e, r) <= at <= Closes(lib, e, r) {
      AcceptedTimes(lib, payload, e, r, x, at);
    }
    var first, last := Opens(lib, e, r), Closes(lib, e, r);
    if first < lib.zeroTime < last {
      assert Accepts(lib, payload, e, r, x.(at := first)) && Accepts(lib, payload, e, r, x.(at := last));
      assert !Accepts(lib, payload, e, r, x.(at := lib.zeroTime));
    }
  }

  // ---------- a gap ----------

  lemma VersionValid()
    ensures ValidSchemaVersion("1.0.0")
  {
    assert "1.0.0"[1..] == ".0.0" && ".0.0"[1..] == "0.0" && "0.0"[1..] == ".0" && ".0"[1..] == "0" && "0"[1..] == "";
    assert "0" + "" == "0" && "1" + "" == "1";
  }

  lemma OneKeyAcyclic(key: Key)
    requires key.supersedesKid.None?
    ensures LinksOk([key]) && Acyclic(LinksOf([key]))
  {
    var links := LinksOf([key]);
    assert links == map[];
    forall w | Chain(links, w) ensures |w| == 1 { NoChain(w); }
  }

  lemma NoChain(w: seq<Kid>)
    requires Chain(map[], w)
    ensures |w| == 1
  {
    if |w| > 1 { ChainTail(map[], w); }
  }

  function ZeroHash(): string { seq(64, _ => '0') }

  /** A first registry of one active key, valid between two times and issued at the first. */
  function OneKeyRegistry(pem: string, early: string, late: string): Registry {
    var key := Key("kid", ECDSA, pem, ["purpose"], ["environment"], None, early, late, "active", None, None, None);
    Registry("1.0.0", ZeroHash(), 1, None, early, ZeroHash(), ZeroHash(), [key])
  }

  function OneKeyClaims(registryHash: string, issuedAt: string): Claims {
    Claims("1.0.0", "object", "schema", "1.0.0", "", "purpose", "environment", None, None, "kid", ECDSA, "signer",
           "role", issuedAt, None, ZeroHash(), registryHash)
  }

  lemma OneKeyRegistryOk(lib: Library, pem: string, early: string, late: string)
    requires lib.parsers.time(early).Some? && lib.parsers.time(late).Some?
    requires lib.parsers.time(early).value <= lib.parsers.time(late).value
    requires lib.parsers.publicKey(pem).Some? && Fits(ECDSA, lib.parsers.publicKey(pem).value)
    ensures RegistryOk(lib.parsers, OneKeyRegistry(pem, early, late))
  {
    hide Acyclic, LinksOk, LinksOf;
    OneKeyAcyclic(OneKeyRegistry(pem, early, late).keys[0]);
  }

  lemma OneKeySigns(lib: Library, payload: seq<Byte>, signer: Signer, registryHash: string, issuedAt: string)
    requires Lawful(lib) && CanonicalBytes(lib.round, payload).Some? && Fits(ECDSA, signer.publicKey)
    requires (forall h :: signer.sign(h).Some?) && lib.parsers.time(issuedAt).Some?
    ensures SignDetached(lib, payload, OneKeyClaims(registryHash, issuedAt), Some(signer)).Some?
  {
    hide CanonicalBytes, ClaimsBytes, Base64.Encode, Lawful, Hex, ValidSchemaVersion, Fits, Preimage, Print,
         ClaimsValue;
    var c := OneKeyClaims(registryHash, issuedAt);
    VersionValid();
    var digest := DigestHex(lib.sha, lib.round, c.objectType, c.objectSchemaVersion, payload).value;
    ClaimsBytesCanonical(lib, c.(payloadDigest := digest));
  }

  /**
   Wherever the clock reads times on both sides of its zero time, a signer who never fails makes an envelope
   that is accepted before the zero time and after it.
   */
  lemma SignedGap(lib: Library, payload: seq<Byte>, signer: Signer, pem: string, early: string, late: string)
    returns (e: Envelope, r: Registry, x: Expectation)
    requires Lawful(lib) && Honest(lib, signer) && CanonicalBytes(lib.round, payload).Some?
    requires (forall h :: signer.sign(h).Some?) && Fits(ECDSA, signer.publicKey)
    requires lib.parsers.publicKey(pem) == Some(signer.publicKey)
    requires lib.parsers.time(early).Some? && lib.parsers.time(late).Some?
    requires lib.parsers.time(early).value < lib.zeroTime < lib.parsers.time(late).value
    ensures Accepts(lib, payload, e, r, x) && !NoGap(lib, payload, e, r, x)
  {
    hide SignDetached, Lawful, Honest, Fits, RegistryOk, RegistryHash, Accepts, CanonicalBytes, NoGap;
    r := OneKeyRegistry(pem, early, late);
    OneKeyRegistryOk(lib, pem, early, late);
    RegistryHashIs(lib, r);
    var c := OneKeyClaims(RegistryHash(lib, r).value, early);
    OneKeySigns(lib, payload, signer, RegistryHash(lib, r).value, early);
    e := SignDetached(lib, payload, c, Some(signer)).value;
    var at := lib.parsers.time(early).value;
    x := Expecting(c, at);
    SignedVerifies(lib, payload, c, signer, r, at);
    SignedEnvelope(lib, payload, c, signer);
    OneIntervalIff(lib, payload, e, r, x);
  }

  const BEFORE := "0000-01-01T00:00:00Z"
  const AFTER := "0002-01-01T00:00:00Z"

  /** A clock that reads two times, parsers that know one key, and a check that lets everything pass. */
  function SmallLibrary(): Library {
    Library(
      Parsers(text => if text == BEFORE then Some(-1) else if text == AFTER then Some(1) else None,
              pem => Some(Ecdsa("P-256", []))),
      0, bytes => seq(32, _ => 0), n => Some(n), n => Zero, PrintBytes, (key, hash, signature) => true)
  }

  /** An accepted envelope that is refused at the zero time, between two times at which it is accepted. */
  lemma GapExists() returns (e: Envelope, r: Registry, x: Expectation)
    ensures var lib, payload := SmallLibrary(), Encode8("null");
            Lawful(lib) && Accepts(lib, payload, e, r, x) && !NoGap(lib, payload, e, r, x)
  {
    hide Accepts, NoGap, Print, CanonicalBytes, Marshals;
    var lib := SmallLibrary();
    var signer := Signer(Ecdsa("P-256", []), h => Some([]));
    PrintMarshals(lib.round);
    NullCanonical(lib.round);
    e, r, x := SignedGap(lib, Encode8("null"), signer, "", BEFORE, AFTER);
  }

  lemma NullCanonical(round: Rounding)
    ensures CanonicalBytes(round, Encode8("null")).Some?
  {
    Decode8Inverts("null");
    PrintReads(round, Null);
  }

  // ---------- what an accepted envelope binds ----------

  lemma NullableInjective(a: Option<string>, b: Option<string>)
    requires Nullable(a) == Nullable(b)
    ensures a == b
  {
  }

  predicate DistinctNames(names: seq<string>) { forall i, j | 0 <= i < j < |names| :: names[i] != names[j] }

  /** Under distinct names an object determines its values. */
  lemma {:induction false} RecordInjective(names: seq<string>, v: seq<Value>, w: seq<Value>)
    requires |names| == |v| == |w| && DistinctNames(names) && Record(names, v) == Record(names, w)
    ensures v == w
  {
    if names != [] {
      var m, n := Record(names[1..], v[1..]), Record(names[1..], w[1..]);
      RecordNames(names[1..], v[1..]);
      RecordNames(names[1..], w[1..]);
      assert names[0] !in names[1..];
      assert m == Record(names, v) - {names[0]} && n == Record(names, w) - {names[0]};
      assert v[0] == Record(names, v)[names[0]] && w[0] == Record(names, w)[names[0]];
      RecordInjective(names[1..], v[1..], w[1..]);
      assert v == [v[0]] + v[1..] && w == [w[0]] + w[1..];
    }
  }

  lemma {:induction false} RecordNames(names: seq<string>, v: seq<Value>)
    requires |names| == |v|
    ensures forall k :: k in Record(names, v) <==> k in names
  {
    if names != [] { RecordNames(names[1..], v[1..]); }
  }

  /** Length and first letter tell the claims' names apart. */
  lemma ClaimNamesDistinct()
    ensures DistinctNames(CLAIM_NAMES)
  {
    var names := CLAIM_NAMES;
    assert |names| == 17;
    forall i, j | 0 <= i < j < 17 ensures names[i] != names[j] {
      ClaimNameMark(i);
      ClaimNameMark(j);
    }
  }

  function Mark(i: nat): (int, char) {
    match i
    case 0 => (9, 'a')
    case 1 => (11, 'e')
    case 2 => (10, 'e')
    case 3 => (9, 'i')
    case 4 => (17, 'k')
    case 5 => (15, 'k')
    case 6 => (3, 'k')
    case 7 => (15, 'm')
    case 8 => (16, 'o')
    case 9 => (21, 'o')
    case 10 => (11, 'o')
    case 11 => (14, 'p')
    case 12 => (7, 'p')
    case 13 => (14, 's')
    case 14 => (9, 's')
    case 15 => (11, 's')
    case 16 => (12, 't')
    case _ => (0, ' ')
  }

  lemma ClaimNameMark(i: nat)
    requires i < 17
    ensures |CLAIM_NAMES[i]| == Mark(i).0 && CLAIM_NAMES[i] != "" && CLAIM_NAMES[i][0] == Mark(i).1
  {
  }

  lemma {:induction false} RecordSettled(round: Rounding, names: seq<string>, v: seq<Value>)
    requires |names| == |v| && forall i | 0 <= i < |v| :: Settled(round, v[i])
    ensures Settled(round, Obj(Record(names, v)))
  {
    if names != [] {
      RecordSettled(round, names[1..], v[1..]);
    }
  }

  lemma ClaimsValueInjective(a: Claims, b: Claims)
    requires ClaimsValue(a) == ClaimsValue(b)
    ensures a == b
  {
    hide Record;
    ClaimNamesDistinct();
    RecordInjective(CLAIM_NAMES, ClaimValues(a), ClaimValues(b));
    var v, w := ClaimValues(a), ClaimValues(b);
    assert forall i | 0 <= i < 17 :: v[i] == w[i];
    NullableInjective(a.expiresAt, b.expiresAt);
    NullableInjective(a.migrationScope, b.migrationScope);
    NullableInjective(a.tenantScope, b.tenantScope);
  }

  /** However the claims are marshalled, their canonical bytes are those of their printed text. */
  lemma ClaimsBytesCanonical(lib: Library, c: Claims)
    requires Lawful(lib)
    ensures ClaimsBytes(lib, c) == Some(Encode8(Print(ClaimsValue(c))))
    ensures CanonicalBytes(lib.round, ClaimsBytes(lib, c).value) == ClaimsBytes(lib, c)
  {
    hide Print, Record, CanonicalBytes, Marshals;
    RecordSettled(lib.round, CLAIM_NAMES, ClaimValues(c));
    MarshalledBytes(lib.round, lib.marshal, ClaimsValue(c));
    FixedPoint(lib.round, lib.marshal(ClaimsValue(c)));
  }

  lemma KeySettled(round: Rounding, k: Key)
    ensures Settled(round, KeyValue(k))
  {
    hide Record;
    RecordSettled(round, KEY_NAMES, KeyValues(k));
  }

  /** However the registry is marshalled, it has one hash. */
  lemma RegistryHashIs(lib: Library, r: Registry)
    requires Lawful(lib)
    ensures RegistryHash(lib, r) == Some(Hex(lib.sha(Encode8(Print(RegistryValue(lib, r))))))
  {
    hide Print, Record, CanonicalBytes, Marshals, KeyValue, Hex;
    forall key | key in r.keys ensures Settled(lib.round, KeyValue(key)) { KeySettled(lib.round, key); }
    RecordSettled(lib.round, REGISTRY_NAMES, RegistryValues(lib, r));
    MarshalledBytes(lib.round, lib.marshal, RegistryValue(lib, r));
  }

  function EnvelopePreimage(c: Claims): seq<Byte> {
    Preimage("signature_envelope", c.schemaVersion, Encode8(Print(ClaimsValue(c))))
  }

  lemma EnvelopeIdForm(lib: Library, c: Claims)
    requires Lawful(lib) && EnvelopeId(lib, c).Some?
    ensures ValidDomain("signature_envelope", c.schemaVersion)
    ensures EnvelopeId(lib, c).value == Hex(lib.sha(EnvelopePreimage(c)))
  {
    hide ValidDomain, CanonicalBytes, ClaimsBytes, Print, ClaimsValue, Preimage, Hex;
    ClaimsBytesCanonical(lib, c);
  }

  /** Claims with one envelope id are the same claims, unless the hash collides on these two preimages. */
  lemma EnvelopeIdBindsClaims(lib: Library, a: Claims, b: Claims)
    requires Lawful(lib) && EnvelopeId(lib, a).Some? && EnvelopeId(lib, a) == EnvelopeId(lib, b)
    ensures var (p, q) := (EnvelopePreimage(a), EnvelopePreimage(b));
            if p == q then a == b else lib.sha(p) == lib.sha(q)
  {
    hide EnvelopeId, Preimage, ClaimsValue, Print, Lawful, Hex;
    EnvelopeIdForm(lib, a);
    EnvelopeIdForm(lib, b);
    HexInjective(lib.sha(EnvelopePreimage(a)), lib.sha(EnvelopePreimage(b)));
    if EnvelopePreimage(a) == EnvelopePreimage(b) {
      PreimageSplits("signature_envelope", a.schemaVersion, Encode8(Print(ClaimsValue(a))),
                     "signature_envelope", b.schemaVersion, Encode8(Print(ClaimsValue(b))));
      Encode8Injective(Print(ClaimsValue(a)), Print(ClaimsValue(b)));
      PrintInjective(ClaimsValue(a), ClaimsValue(b));
      ClaimsValueInjective(a, b);
    }
  }

  /** One envelope accepted for two payloads: they stand for one value, or the hash collides on them. */
  lemma AcceptedPayload(lib: Library, p: seq<Byte>, q: seq<Byte>, e: Envelope, r: Registry, s: Registry,
                        x: Expectation, y: Expectation)
    requires Accepts(lib, p, e, r, x) && Accepts(lib, q, e, s, y)
    ensures var (a, b) := (Preimage(e.objectType, e.objectSchemaVersion, CanonicalBytes(lib.round, p).GetOr([])),
                           Preimage(e.objectType, e.objectSchemaVersion, CanonicalBytes(lib.round, q).GetOr([])));
            if a == b then InputValue(lib.round, p) == InputValue(lib.round, q) else lib.sha(a) == lib.sha(b)
  {
    hide RegistryOk, Verdict, SignatureOk, CanonicalBytes, InputValue, Preimage, Bound, InTime;
    DigestBinds(lib.sha, lib.round, e.objectType, e.objectSchemaVersion, p, e.objectType, e.objectSchemaVersion, q);
  }
}
