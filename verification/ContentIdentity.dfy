/** Content identities: the verifier of identity.go and its Python maker. */
module ContentIdentity {
  import opened Wrappers
  import opened Unicode
  import opened CanonicalNumber
  import opened Json
  import opened JsonMeaning
  import opened GoCanonical
  import opened CanonicalTheorems
  import opened TypedDigest
  import opened PythonJson
  import opened StringOrder

  type Members = map<string, Value>

  /** logicalPayloadProjection: the recipe an object carries about itself. */
  datatype Projection = Projection(
    objectType: string, idField: string, objectSchemaVersion: string, canonicalEncoder: string,
    domainSeparator: string, excludedFields: seq<string>, equivalentDigestFields: seq<string>,
    idEncoding: string, idEqualsDigest: bool)

  const SHA_FIELD := "logical_payload_sha256"
  const RECIPE_FIELD := "logical_payload_projection"

  // ---------- json.Unmarshal into the projection ----------

  /** A missing member or null leaves the field as it is. */
  function StringIn(m: Members, name: string): Option<string> {
    if name !in m || m[name].Null? then Some("") else if m[name].Str? then Some(m[name].s) else None
  }

  function BoolIn(m: Members, name: string): Option<bool> {
    if name !in m || m[name].Null? then Some(false) else if m[name].Bool? then Some(m[name].b) else None
  }

  function Strings(items: seq<Value>): Option<seq<string>> {
    if items == [] then Some([])
    else match Strings(items[1..])
         case None => None
         case Some(rest) =>
           match items[0]
           case Str(s) => Some([s] + rest)
           case Null => Some([""] + rest)
           case _ => None
  }

  function StringsIn(m: Members, name: string): Option<seq<string>> {
    if name !in m || m[name].Null? then Some([]) else if m[name].Arr? then Strings(m[name].items) else None
  }

  function DecodeMembers(m: Members): Option<Projection> {
    var objectType, idField := StringIn(m, "object_type"), StringIn(m, "id_field");
    var version, encoder := StringIn(m, "object_schema_version"), StringIn(m, "canonical_encoder");
    var separator, encoding := StringIn(m, "domain_separator"), StringIn(m, "id_encoding");
    var excluded, equivalent := StringsIn(m, "excluded_fields"), StringsIn(m, "equivalent_digest_fields");
    var equals := BoolIn(m, "id_equals_logical_payload_sha256");
    if && objectType.Some? && idField.Some? && version.Some? && encoder.Some? && separator.Some?
       && encoding.Some? && excluded.Some? && equivalent.Some? && equals.Some?
    then Some(Projection(objectType.value, idField.value, version.value, encoder.value, separator.value,
                         excluded.value, equivalent.value, encoding.value, equals.value))
    else None
  }

  function DecodeProjection(v: Value): Option<Projection> {
    match v
    case Null => DecodeMembers(map[])
    case Obj(m) => DecodeMembers(m)
    case _ => None
  }

  // ---------- what the verifier accepts ----------

  predicate Distinct(names: seq<string>) { forall i, j | 0 <= i < j < |names| :: names[i] != names[j] }

  predicate GoodNames(names: seq<string>) { Distinct(names) && "" !in names }

  /** The separator that a recipe must name. */
  function Separator(objectType: string, version: string): string { Domain(objectType, version) + [0 as char] }

  predicate FixedPart(p: Projection) {
    && p.canonicalEncoder == "RFC8785_JCS" && p.idEncoding == "lowercase_hex_sha256" && p.idEqualsDigest
    && p.domainSeparator == Separator(p.objectType, p.objectSchemaVersion) && p.idField != ""
  }

  predicate GoodRecipe(p: Projection) {
    && FixedPart(p)
    && GoodNames(p.excludedFields)
    && p.idField in p.excludedFields && SHA_FIELD in p.excludedFields && RECIPE_FIELD in p.excludedFields
    && GoodNames(p.equivalentDigestFields)
    && forall f | f in p.equivalentDigestFields :: f in p.excludedFields
  }

  /** The members that the identity covers. */
  function Payload(m: Members, excluded: seq<string>): Members {
    map k | k in m && k !in excluded :: m[k]
  }

  function DigestFields(p: Projection): seq<string> { [p.idField, SHA_FIELD] + p.equivalentDigestFields }

  function PayloadPreimage(p: Projection, m: Members): seq<Byte> {
    Preimage(p.objectType, p.objectSchemaVersion, Encode8(Print(Obj(Payload(m, p.excludedFields)))))
  }

  function Identity(sha: Hash, p: Projection, m: Members): string { Hex(sha(PayloadPreimage(p, m))) }

  predicate AcceptsUnder(sha: Hash, p: Projection, m: Members) {
    && GoodRecipe(p) && ValidDomain(p.objectType, p.objectSchemaVersion)
    && forall f | f in DigestFields(p) :: f in m && m[f] == Str(Identity(sha, p, m))
  }

  /** The object's own recipe is well formed and every digest field holds the recomputed digest. */
  predicate AcceptsObject(sha: Hash, m: Members) {
    && RECIPE_FIELD in m && DecodeProjection(m[RECIPE_FIELD]).Some?
    && AcceptsUnder(sha, DecodeProjection(m[RECIPE_FIELD]).value, m)
  }

  function ObjectIn(round: Rounding, document: seq<Byte>): Option<Members> {
    match InputValue(round, document)
    case Some(Obj(m)) => Some(m)
    case _ => None
  }

  /** What VerifyContentIdentity accepts: the bytes of an object that is accepted. */
  predicate AcceptsDocument(sha: Hash, round: Rounding, document: seq<Byte>) {
    ObjectIn(round, document).Some? && AcceptsObject(sha, ObjectIn(round, document).value)
  }

  // ---------- the verifier ----------

  /** The set of the excluded names, if they are distinct and not empty. */
  method CollectExcluded(fields: seq<string>) returns (excluded: Option<set<string>>)
    ensures excluded == if GoodNames(fields) then Some(set f | f in fields) else None
  {
    var found: set<string> := {};
    var index := 0;
    while index < |fields|
      invariant 0 <= index <= |fields|
      invariant GoodNames(fields[..index]) && found == set f | f in fields[..index]
    {
      var field := fields[index];
      if field == "" || field in found { return None; }
      assert fields[..index + 1] == fields[..index] + [field];
      found := found + {field};
      index := index + 1;
    }
    assert fields[..index] == fields;
    return Some(found);
  }

  method CheckRequired(fields: seq<string>, excluded: set<string>) returns (ok: bool)
    ensures ok <==> forall f | f in fields :: f in excluded
  {
    var index := 0;
    while index < |fields|
      invariant 0 <= index <= |fields| && forall f | f in fields[..index] :: f in excluded
    {
      if fields[index] !in excluded { return false; }
      index := index + 1;
    }
    return true;
  }

  method CheckEquivalent(fields: seq<string>, excluded: set<string>) returns (ok: bool)
    ensures ok <==> GoodNames(fields) && forall f | f in fields :: f in excluded
  {
    var equivalent: set<string> := {};
    var index := 0;
    while index < |fields|
      invariant 0 <= index <= |fields|
      invariant GoodNames(fields[..index]) && equivalent == set f | f in fields[..index]
      invariant forall f | f in fields[..index] :: f in excluded
    {
      var field := fields[index];
      if field == "" || field in equivalent || field !in excluded { return false; }
      assert fields[..index + 1] == fields[..index] + [field];
      equivalent := equivalent + {field};
      index := index + 1;
    }
    assert fields[..index] == fields;
    return true;
  }

  /** The loop over the object, whose iteration order Go leaves open. */
  method ProjectFields(m: Members, excluded: set<string>) returns (projected: Members)
    ensures projected == map k | k in m && k !in excluded :: m[k]
  {
    projected := map[];
    var fields := m.Keys;
    while fields != {}
      invariant fields <= m.Keys
      invariant projected == map k | k in m && k !in fields && k !in excluded :: m[k]
      decreases fields
    {
      var field :| field in fields;
      if field !in excluded {
        projected := projected[field := m[field]];
      }
      fields := fields - {field};
    }
  }

  method CheckDigests(m: Members, fields: seq<string>, digest: string) returns (ok: bool)
    requires IsSha256Hex(digest)
    ensures ok <==> forall f | f in fields :: f in m && m[f] == Str(digest)
  {
    var index := 0;
    while index < |fields|
      invariant 0 <= index <= |fields| && forall f | f in fields[..index] :: f in m && m[f] == Str(digest)
    {
      var field := fields[index];
      if field !in m { return false; }
      var value := StringIn(m, field);
      if value.None? || !IsSha256Hex(value.value) || value.value != digest { return false; }
      index := index + 1;
    }
    return true;
  }

  /** The recipe's checks and the digests of one object. */
  method VerifyObject(sha: Hash, round: Rounding, marshal: Value -> seq<Byte>, p: Projection, m: Members)
    returns (ok: bool)
    requires IsHash(sha) && IsRounding(round) && Marshals(round, marshal) && forall k | k in m :: Settled(round, m[k])
    ensures ok <==> AcceptsUnder(sha, p, m)
  {
    hide Settled, Print, CanonicalBytes, ValidDomain, Separator, Marshals;
    if p.canonicalEncoder != "RFC8785_JCS" || p.idEncoding != "lowercase_hex_sha256" || !p.idEqualsDigest
       || p.domainSeparator != Separator(p.objectType, p.objectSchemaVersion) || p.idField == "" {
      return false;
    }
    var excluded := CollectExcluded(p.excludedFields);
    if excluded.None? { return false; }
    var fields := [p.idField, SHA_FIELD, RECIPE_FIELD];
    assert p.idField in fields && SHA_FIELD in fields && RECIPE_FIELD in fields;
    var required := CheckRequired(fields, excluded.value);
    if !required { return false; }
    var equivalent := CheckEquivalent(p.equivalentDigestFields, excluded.value);
    if !equivalent { return false; }
    var projected := ProjectFields(m, excluded.value);
    assert projected == Payload(m, p.excludedFields);
    PayloadBytes(round, marshal, m, p.excludedFields);
    var digest := TypedDigestHex(sha, round, p.objectType, p.objectSchemaVersion, marshal(Obj(projected)));
    if digest.None? { return false; }
    assert digest.value == Identity(sha, p, m);
    HexDigits(sha(PayloadPreimage(p, m)));
    assert p.idField in p.excludedFields && SHA_FIELD in p.excludedFields && RECIPE_FIELD in p.excludedFields;
    ok := CheckDigests(m, DigestFields(p), digest.value);
  }

  /** However the projection is marshalled, its canonical bytes are those of the payload's text. */
  lemma PayloadBytes(round: Rounding, marshal: Value -> seq<Byte>, m: Members, excluded: seq<string>)
    requires Marshals(round, marshal) && forall k | k in m :: Settled(round, m[k])
    ensures CanonicalBytes(round, marshal(Obj(Payload(m, excluded)))) == Some(Encode8(Print(Obj(Payload(m, excluded)))))
  {
    hide Print, CanonicalBytes, Marshals;
    MarshalledBytes(round, marshal, Obj(Payload(m, excluded)));
  }

  lemma ObjectSettled(round: Rounding, document: seq<Byte>)
    requires IsRounding(round) && ObjectIn(round, document).Some?
    ensures forall k | k in ObjectIn(round, document).value :: Settled(round, ObjectIn(round, document).value[k])
  {
    var text := Decode8(document).value;
    DenoteSettles(round, TreeOf(ReadText(text).value));
  }

  method VerifyContentIdentity(sha: Hash, round: Rounding, marshal: Value -> seq<Byte>, document: seq<Byte>)
    returns (ok: bool)
    requires IsHash(sha) && IsRounding(round) && Marshals(round, marshal)
    ensures ok <==> AcceptsDocument(sha, round, document)
  {
    hide AcceptsUnder, Marshals;
    var canonical := CanonicalizeJSON(document, round);
    if canonical.None? { return false; }
    FixedPoint(round, document);
    var object' := ObjectIn(round, canonical.value);
    if object'.None? { return false; }
    ObjectSettled(round, document);
    if RECIPE_FIELD !in object'.value { return false; }
    var projection := DecodeProjection(object'.value[RECIPE_FIELD]);
    if projection.None? { return false; }
    ok := VerifyObject(sha, round, marshal, projection.value, object'.value);
  }

  // ---------- the maker ----------

  function StringValues(names: seq<string>): Value {
    Arr(seq(|names|, i requires 0 <= i < |names| => Str(names[i])))
  }

  function RecipeValue(p: Projection): Value {
    Obj(map[
      "object_type" := Str(p.objectType), "id_field" := Str(p.idField),
      "object_schema_version" := Str(p.objectSchemaVersion), "canonical_encoder" := Str(p.canonicalEncoder),
      "domain_separator" := Str(p.domainSeparator), "excluded_fields" := StringValues(p.excludedFields),
      "equivalent_digest_fields" := StringValues(p.equivalentDigestFields), "id_encoding" := Str(p.idEncoding),
      "id_equals_logical_payload_sha256" := Bool(p.idEqualsDigest)])
  }

  /** The recipe that the maker attaches. */
  function MakersRecipe(objectType: string, idField: string, equivalent: seq<string>, version: string): Projection {
    Projection(objectType, idField, version, "RFC8785_JCS", Separator(objectType, version),
               [idField] + equivalent + [SHA_FIELD, RECIPE_FIELD], equivalent, "lowercase_hex_sha256", true)
  }

  /** The maker hashes Python's text of the payload. */
  function MadePreimage(p: Projection, m: Members): seq<Byte> {
    Preimage(p.objectType, p.objectSchemaVersion, Encode8(Dump(Obj(Payload(m, p.excludedFields)))))
  }

  /** The members with a digest in each of the fields. */
  function WithDigests(m: Members, fields: seq<string>, digest: string): Members {
    map k | k in m.Keys + (set f | f in fields) :: if k in fields then Str(digest) else m[k]
  }

  function Made(sha: Hash, p: Projection, m: Members): Members {
    WithDigests(m, DigestFields(p), Hex(sha(MadePreimage(p, m))))[RECIPE_FIELD := RecipeValue(p)]
  }

  class Artifact {
    var fields: Members

    constructor (fields: Members)
      ensures this.fields == fields
    {
      this.fields := fields;
    }

    method ContentIdentity(sha: Hash, objectType: string, idField: string, equivalent: seq<string>, version: string)
      modifies this
      ensures fields == Made(sha, MakersRecipe(objectType, idField, equivalent, version), old(fields))
    {
      hide WithDigests, Dump;
      var excluded := [idField] + equivalent + [SHA_FIELD, RECIPE_FIELD];
      var logical := map k | k in fields && k !in excluded :: fields[k];
      var canonical := Dump(Obj(logical));
      var input := Encode8("jumpship:" + objectType + ":" + version) + [0];
      var digest := Hex(sha(input + Encode8(canonical)));
      AttachDigests(idField, equivalent, digest);
      fields := fields[RECIPE_FIELD := RecipeValue(MakersRecipe(objectType, idField, equivalent, version))];
      assert Payload(old(fields), excluded) == logical;
    }

    method AttachDigests(idField: string, equivalent: seq<string>, digest: string)
      modifies this
      ensures fields == WithDigests(old(fields), [idField, SHA_FIELD] + equivalent, digest)
    {
      hide WithDigests;
      NoDigests(fields, digest);
      OneMoreDigest(fields, [], idField, digest);
      fields := fields[idField := Str(digest)];
      assert [] + [idField] == [idField] + equivalent[..0];
      var index := 0;
      while index < |equivalent|
        invariant 0 <= index <= |equivalent|
        invariant fields == WithDigests(old(fields), [idField] + equivalent[..index], digest)
      {
        OneMoreDigest(old(fields), [idField] + equivalent[..index], equivalent[index], digest);
        assert [idField] + equivalent[..index] + [equivalent[index]] == [idField] + equivalent[..index + 1];
        fields := fields[equivalent[index] := Str(digest)];
        index := index + 1;
      }
      assert equivalent[..index] == equivalent;
      OneMoreDigest(old(fields), [idField] + equivalent, SHA_FIELD, digest);
      fields := fields[SHA_FIELD := Str(digest)];
      SameDigests(old(fields), [idField] + equivalent + [SHA_FIELD], [idField, SHA_FIELD] + equivalent, digest);
    }
  }

  lemma NoDigests(m: Members, digest: string)
    ensures WithDigests(m, [], digest) == m
  {
  }

  lemma OneMoreDigest(m: Members, fields: seq<string>, f: string, digest: string)
    ensures WithDigests(m, fields, digest)[f := Str(digest)] == WithDigests(m, fields + [f], digest)
  {
  }

  lemma SameDigests(m: Members, a: seq<string>, b: seq<string>, digest: string)
    requires (forall f | f in a :: f in b) && forall f | f in b :: f in a
    ensures WithDigests(m, a, digest) == WithDigests(m, b, digest)
  {
  }

  // ---------- maker and verifier ----------

  lemma {:induction false} StringsDecode(names: seq<string>)
    ensures Strings(StringValues(names).items) == Some(names)
  {
    if names != [] {
      assert StringValues(names).items[1..] == StringValues(names[1..]).items;
      StringsDecode(names[1..]);
      assert names == [names[0]] + names[1..];
    }
  }

  lemma AreStrings(names: seq<string>)
    ensures StringValues(names).Arr?
  {
  }

  lemma RecipeDecodes(p: Projection)
    ensures DecodeProjection(RecipeValue(p)) == Some(p)
  {
    hide Strings, StringValues;
    StringsDecode(p.excludedFields);
    StringsDecode(p.equivalentDigestFields);
    AreStrings(p.excludedFields);
    AreStrings(p.equivalentDigestFields);
  }

  predicate IsMakersRecipe(p: Projection) {
    p == MakersRecipe(p.objectType, p.idField, p.equivalentDigestFields, p.objectSchemaVersion)
  }

  lemma MakersNames(p: Projection)
    requires IsMakersRecipe(p)
    ensures GoodRecipe(p) <==> GoodNames(p.excludedFields)
    ensures forall f | f in DigestFields(p) :: f in p.excludedFields
    ensures RECIPE_FIELD in p.excludedFields
    ensures GoodNames(p.excludedFields) ==> RECIPE_FIELD !in DigestFields(p)
  {
    var all, few := p.excludedFields, p.equivalentDigestFields;
    assert all[0] == p.idField && all[|few| + 1] == SHA_FIELD && all[|few| + 2] == RECIPE_FIELD;
    assert forall i | 0 <= i < |few| :: few[i] == all[i + 1];
  }

  /** Only excluded members are written, so the payload stays. */
  lemma MadePayload(sha: Hash, p: Projection, m: Members)
    requires IsMakersRecipe(p)
    ensures Payload(Made(sha, p, m), p.excludedFields) == Payload(m, p.excludedFields)
  {
    MakersNames(p);
  }

  /** What the maker builds is accepted when its names and its domain are good and the two digests are equal. */
  lemma MadeDigestIff(sha: Hash, p: Projection, m: Members)
    requires IsMakersRecipe(p)
    ensures AcceptsObject(sha, Made(sha, p, m)) <==>
            && GoodNames(p.excludedFields) && ValidDomain(p.objectType, p.objectSchemaVersion)
            && sha(MadePreimage(p, m)) == sha(PayloadPreimage(p, m))
  {
    hide GoodNames, GoodRecipe, ValidDomain, RecipeValue, DecodeProjection, Preimage, Dump, Print;
    RecipeDecodes(p);
    MakersNames(p);
    MadePayload(sha, p, m);
    var made := Made(sha, p, m);
    assert p.idField in DigestFields(p);
    if AcceptsObject(sha, made) {
      assert made[p.idField] == Str(Identity(sha, p, made));
      HexInjective(sha(MadePreimage(p, m)), sha(PayloadPreimage(p, m)));
    }
  }

  /** Maker and verifier hash the same bytes exactly when no object of the payload has names they order differently. */
  lemma SamePreimageIff(p: Projection, m: Members)
    ensures MadePreimage(p, m) == PayloadPreimage(p, m) <==> OrdersAgree(Obj(Payload(m, p.excludedFields)))
  {
    hide Dump, Print, OrdersAgree, Payload;
    var v := Obj(Payload(m, p.excludedFields));
    DumpIsCanonicalIff(v);
    if MadePreimage(p, m) == PayloadPreimage(p, m) {
      var before := Encode8(Domain(p.objectType, p.objectSchemaVersion)) + [0];
      SameSuffix(before, Encode8(Dump(v)), Encode8(Print(v)));
      Encode8Injective(Dump(v), Print(v));
    }
  }

  lemma SameSuffix(a: seq<Byte>, b: seq<Byte>, c: seq<Byte>)
    requires a + b == a + c
    ensures b == c
  {
    assert b == (a + b)[|a|..] && c == (a + c)[|a|..];
  }

  /**
   What the maker builds is accepted exactly when its field names are distinct and not empty, its domain is
   valid, and no object of the payload has two names that code points and UTF-16 units order differently; or
   there are such names and the hash collides on the two texts.
   */
  lemma MadeAcceptedIff(sha: Hash, p: Projection, m: Members)
    requires IsMakersRecipe(p)
    ensures AcceptsObject(sha, Made(sha, p, m)) <==>
            && GoodNames(p.excludedFields) && ValidDomain(p.objectType, p.objectSchemaVersion)
            && (|| OrdersAgree(Obj(Payload(m, p.excludedFields)))
                || (MadePreimage(p, m) != PayloadPreimage(p, m)
                    && sha(MadePreimage(p, m)) == sha(PayloadPreimage(p, m))))
  {
    hide AcceptsObject, Made, MadePreimage, PayloadPreimage, OrdersAgree;
    MadeDigestIff(sha, p, m);
    SamePreimageIff(p, m);
  }

  /** Where the two orders agree on the payload, the names and the domain alone decide. */
  lemma MadeIsAccepted(sha: Hash, p: Projection, m: Members)
    requires IsMakersRecipe(p) && OrdersAgree(Obj(Payload(m, p.excludedFields)))
    ensures AcceptsObject(sha, Made(sha, p, m)) <==>
            GoodNames(p.excludedFields) && ValidDomain(p.objectType, p.objectSchemaVersion)
  {
    hide AcceptsObject, Made, MadePreimage, PayloadPreimage, OrdersAgree;
    MadeAcceptedIff(sha, p, m);
  }

  /** So the verifier takes a document of a made object, however it is spelled, exactly under that condition. */
  lemma MadeDocumentIff(sha: Hash, round: Rounding, p: Projection, m: Members, document: seq<Byte>)
    requires IsMakersRecipe(p) && ObjectIn(round, document) == Some(Made(sha, p, m))
    ensures AcceptsDocument(sha, round, document) <==>
            && GoodNames(p.excludedFields) && ValidDomain(p.objectType, p.objectSchemaVersion)
            && (|| OrdersAgree(Obj(Payload(m, p.excludedFields)))
                || (MadePreimage(p, m) != PayloadPreimage(p, m)
                    && sha(MadePreimage(p, m)) == sha(PayloadPreimage(p, m))))
  {
    hide AcceptsObject, Made, MadePreimage, PayloadPreimage, OrdersAgree, ObjectIn;
    MadeAcceptedIff(sha, p, m);
  }

  /** There are such documents: what a made object is marshalled as is one. */
  lemma MadeMarshalled(sha: Hash, round: Rounding, marshal: Value -> seq<Byte>, p: Projection, m: Members)
    requires Marshals(round, marshal) && forall k | k in m :: Settled(round, m[k])
    ensures ObjectIn(round, marshal(Obj(Made(sha, p, m)))) == Some(Made(sha, p, m))
  {
    hide Marshals, Identity, MadePreimage, RecipeValue, Hex, Settled;
    var made := Made(sha, p, m);
    RecipeSettled(round, p);
    forall k | k in made ensures Settled(round, made[k]) {
      DigestSettled(round, Hex(sha(MadePreimage(p, m))));
    }
    MarshalsValue(round, marshal, Obj(made));
  }

  lemma RecipeSettled(round: Rounding, p: Projection)
    ensures Settled(round, RecipeValue(p))
  {
    StringsSettled(round, p.excludedFields);
    StringsSettled(round, p.equivalentDigestFields);
    hide StringValues;
    var m := RecipeValue(p).members;
    forall k | k in m ensures Settled(round, m[k]) { }
  }

  lemma StringsSettled(round: Rounding, names: seq<string>)
    ensures Settled(round, StringValues(names))
  {
  }

  lemma DigestSettled(round: Rounding, digest: string)
    ensures Settled(round, Str(digest))
  {
  }

  lemma MarshalsValue(round: Rounding, marshal: Value -> seq<Byte>, v: Value)
    requires Marshals(round, marshal) && Settled(round, v)
    ensures InputValue(round, marshal(v)) == Some(v)
  {
  }

  /** Making again what was made changes nothing. */
  lemma MadeTwice(sha: Hash, p: Projection, m: Members)
    requires IsMakersRecipe(p)
    ensures Made(sha, p, Made(sha, p, m)) == Made(sha, p, m)
  {
    hide Dump, Preimage, RecipeValue;
    MadePayload(sha, p, m);
  }

  /** Recomputing the digests of an accepted object changes nothing. */
  lemma AcceptedIsFixed(sha: Hash, m: Members)
    requires AcceptsObject(sha, m)
    ensures var p := DecodeProjection(m[RECIPE_FIELD]).value;
            WithDigests(m, DigestFields(p), Identity(sha, p, m)) == m
  {
    hide DecodeProjection, Identity, GoodRecipe;
  }

  /**
   Two accepted objects with one id have the same type, version and payload, whatever else their recipes
   say, unless the hash collides on their two preimages.
   */
  lemma SameIdSamePayload(sha: Hash, m1: Members, m2: Members)
    requires AcceptsObject(sha, m1) && AcceptsObject(sha, m2)
    requires var p1, p2 := DecodeProjection(m1[RECIPE_FIELD]).value, DecodeProjection(m2[RECIPE_FIELD]).value;
             m1[p1.idField] == m2[p2.idField]
    ensures var p1, p2 := DecodeProjection(m1[RECIPE_FIELD]).value, DecodeProjection(m2[RECIPE_FIELD]).value;
            var x, y := PayloadPreimage(p1, m1), PayloadPreimage(p2, m2);
            if x == y
            then && p1.objectType == p2.objectType && p1.objectSchemaVersion == p2.objectSchemaVersion
                 && Payload(m1, p1.excludedFields) == Payload(m2, p2.excludedFields)
            else sha(x) == sha(y)
  {
    hide DecodeProjection, GoodRecipe, ValidDomain, Preimage, Print, Payload;
    var p1, p2 := DecodeProjection(m1[RECIPE_FIELD]).value, DecodeProjection(m2[RECIPE_FIELD]).value;
    assert p1.idField in DigestFields(p1) && p2.idField in DigestFields(p2);
    HexInjective(sha(PayloadPreimage(p1, m1)), sha(PayloadPreimage(p2, m2)));
    if PayloadPreimage(p1, m1) == PayloadPreimage(p2, m2) {
      var v1, v2 := Obj(Payload(m1, p1.excludedFields)), Obj(Payload(m2, p2.excludedFields));
      PreimageSplits(p1.objectType, p1.objectSchemaVersion, Encode8(Print(v1)),
                     p2.objectType, p2.objectSchemaVersion, Encode8(Print(v2)));
      Encode8Injective(Print(v1), Print(v2));
      PrintInjective(v1, v2);
    }
  }

  // ---------- the catalog's sort keys ----------

  datatype SortKey = SortKey(capability: string, incapability: string)

  predicate KeyBefore(a: SortKey, b: SortKey) {
    Less(a.capability, b.capability) || (a.capability == b.capability && Less(a.incapability, b.incapability))
  }

  lemma KeyBeforeTransitive(a: SortKey, b: SortKey, c: SortKey)
    requires KeyBefore(a, b) && KeyBefore(b, c)
    ensures KeyBefore(a, c)
  {
    if Less(a.capability, b.capability) && Less(b.capability, c.capability) {
      LessTransitive(a.capability, b.capability, c.capability);
    } else if a.capability == b.capability == c.capability {
      LessTransitive(a.incapability, b.incapability, c.incapability);
    }
  }

  /** The loop of VerifyCustomerIncapabilityCatalog, which compares each key with the previous one only. */
  method CheckSortKeys(items: seq<SortKey>) returns (ok: bool)
    ensures ok <==> && (forall i | 0 <= i < |items| :: items[i].capability != "" && items[i].incapability != "")
                    && forall i, j | 0 <= i < j < |items| :: KeyBefore(items[i], items[j])
  {
    hide Less;
    var previousCapability, previousIncapability := "", "";
    var index := 0;
    while index < |items|
      invariant 0 <= index <= |items|
      invariant forall i | 0 <= i < index :: items[i].capability != "" && items[i].incapability != ""
      invariant forall i, j | 0 <= i < j < index :: KeyBefore(items[i], items[j])
      invariant index > 0 ==> SortKey(previousCapability, previousIncapability) == items[index - 1]
    {
      var item := items[index];
      if item.capability == "" || item.incapability == "" { return false; }
      LessOrder(item.capability, previousCapability);
      LessOrder(item.incapability, previousIncapability);
      if index > 0 && (Less(item.capability, previousCapability) ||
                       (item.capability == previousCapability && !Less(previousIncapability, item.incapability))) {
        assert !KeyBefore(items[index - 1], items[index]);
        return false;
      }
      forall i | 0 <= i < index ensures KeyBefore(items[i], item) {
        if i < index - 1 { KeyBeforeTransitive(items[i], items[index - 1], item); }
      }
      previousCapability, previousIncapability := item.capability, item.incapability;
      index := index + 1;
    }
    return true;
  }
}
