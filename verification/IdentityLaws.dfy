/** What accepted content identities look like as JSON. */
module IdentityLaws {
  import opened Wrappers
  import opened Unicode
  import opened Json
  import opened TypedDigest
  import opened ContentIdentity
  import HexLaws

  predicate Has(m: Members, name: string, v: Value) { name in m && m[name] == v }

  /** An array of these strings. */
  predicate HasNames(m: Members, name: string, names: seq<string>) {
    && name in m && m[name].Arr? && |m[name].items| == |names|
    && forall i | 0 <= i < |names| :: m[name].items[i] == Str(names[i])
  }

  /** Such an array, which may also be missing or null where there are no names. */
  predicate MayHaveNames(m: Members, name: string, names: seq<string>) {
    HasNames(m, name, names) || (names == [] && (name !in m || m[name] == Null))
  }

  predicate DistinctNames(names: seq<string>) {
    && (forall i | 0 <= i < |names| :: names[i] != "")
    && forall i, j | 0 <= i < |names| && 0 <= j < |names| && names[i] == names[j] :: i == j
  }

  /** The members that are not excluded, as they are. */
  ghost predicate Covers(payload: Members, m: Members, excluded: seq<string>) {
    && (forall k :: k in payload <==> k in m && k !in excluded) && forall k | k in payload :: payload[k] == m[k]
  }

  /** A recipe that names its type, version and id field, and the fixed encoders. */
  predicate RecipeSays(r: Members, objectType: string, version: string, id: string) {
    && Has(r, "object_type", Str(objectType)) && Has(r, "object_schema_version", Str(version))
    && Has(r, "id_field", Str(id)) && Has(r, "canonical_encoder", Str("RFC8785_JCS"))
    && Has(r, "id_encoding", Str("lowercase_hex_sha256")) && Has(r, "id_equals_logical_payload_sha256", Bool(true))
    && Has(r, "domain_separator", Str("jumpship:" + objectType + ":" + version + [0 as char]))
  }

  /**
   An object with a recipe of distinct non-empty names that excludes the id, the digest and itself, and in each
   digest field the hash of domain, zero byte and the canonical text of the members that are not excluded.
   */
  ghost predicate Identified(sha: Hash, m: Members) {
    exists objectType, version, id, excluded, equivalent, payload ::
      IdentifiedBy(sha, m, objectType, version, id, excluded, equivalent, payload)
  }

  ghost predicate IdentifiedBy(sha: Hash, m: Members, objectType: string, version: string, id: string,
                               excluded: seq<string>, equivalent: seq<string>, payload: Members)
  {
    && RECIPE_FIELD in m && m[RECIPE_FIELD].Obj?
    && var r := m[RECIPE_FIELD].members;
    && RecipeSays(r, objectType, version, id) && id != ""
    && HasNames(r, "excluded_fields", excluded) && MayHaveNames(r, "equivalent_digest_fields", equivalent)
    && DistinctNames(excluded) && DistinctNames(equivalent)
    && id in excluded && "logical_payload_sha256" in excluded && "logical_payload_projection" in excluded
    && (forall f | f in equivalent :: f in excluded)
    && ValidDomainToken(objectType) && ValidSchemaVersion(version) && Covers(payload, m, excluded)
    && var preimage := Encode8("jumpship:" + objectType + ":" + version) + [0] + Encode8(Print(Obj(payload)));
       var digest := Str(Hex(sha(preimage)));
    && Has(m, id, digest) && Has(m, "logical_payload_sha256", digest) && forall f | f in equivalent :: Has(m, f, digest)
  }

  // ---------- decoding ----------

  lemma {:induction false} StringsAre(items: seq<Value>, names: seq<string>)
    requires "" !in names
    ensures Strings(items) == Some(names) <==>
            |items| == |names| && forall i | 0 <= i < |names| :: items[i] == Str(names[i])
  {
    if items != [] && names != [] {
      assert names[0] in names && forall x | x in names[1..] :: x in names;
      StringsAre(items[1..], names[1..]);
      assert names == [names[0]] + names[1..];
      assert forall i | 0 < i < |names| :: names[i] == names[1..][i - 1];
      assert forall i | 0 < i < |items| :: items[i] == items[1..][i - 1];
      if |items| == |names| && forall i | 0 <= i < |names| :: items[i] == Str(names[i]) {
        assert forall i | 0 <= i < |names| - 1 :: items[1..][i] == items[i + 1];
      }
    }
  }

  lemma NamesDecode(m: Members, name: string, names: seq<string>)
    requires "" !in names
    ensures StringsIn(m, name) == Some(names) <==> MayHaveNames(m, name, names)
  {
    if name in m && m[name].Arr? { StringsAre(m[name].items, names); }
  }

  lemma TextDecodes(m: Members, name: string, s: string)
    requires s != ""
    ensures StringIn(m, name) == Some(s) <==> Has(m, name, Str(s))
  {
  }

  lemma DistinctIff(names: seq<string>)
    ensures GoodNames(names) <==> DistinctNames(names)
  {
  }

  lemma NoEmpty(names: seq<string>)
    requires DistinctNames(names)
    ensures "" !in names
  {
  }

  lemma DomainNotEmpty(objectType: string, version: string)
    requires ValidDomain(objectType, version)
    ensures objectType != "" && version != ""
  {
    assert Split("", '.') == [""];
  }

  lemma CoversPayload(payload: Members, m: Members, excluded: seq<string>)
    ensures Covers(payload, m, excluded) <==> payload == Payload(m, excluded)
  {
    if Covers(payload, m, excluded) {
      var p := Payload(m, excluded);
      assert forall k :: k in payload <==> k in p;
      assert forall k | k in payload :: payload[k] == p[k];
      assert payload == p;
    }
  }

  // ---------- accepted and identified ----------

  lemma AcceptedIsIdentified(sha: Hash, m: Members)
    requires AcceptsObject(sha, m)
    ensures Identified(sha, m)
  {
    hide ValidDomainToken, ValidSchemaVersion, Print, Hex, Payload, StringIn, StringsIn, Preimage;
    var p := DecodeProjection(m[RECIPE_FIELD]).value;
    RecipeDecoded(m[RECIPE_FIELD], p);
    var payload := Payload(m, p.excludedFields);
    CoversPayload(payload, m, p.excludedFields);
    DigestFieldsAre(p, m, Str(Identity(sha, p, m)));
    DistinctIff(p.excludedFields);
    DistinctIff(p.equivalentDigestFields);
    PreimageIs(p.objectType, p.objectSchemaVersion, Encode8(Print(Obj(payload))));
    assert IdentifiedBy(sha, m, p.objectType, p.objectSchemaVersion, p.idField, p.excludedFields,
                        p.equivalentDigestFields, payload);
  }

  lemma PreimageIs(objectType: string, version: string, b: seq<Byte>)
    ensures Preimage(objectType, version, b) == Encode8("jumpship:" + objectType + ":" + version) + [0] + b
  {
  }

  lemma DigestFieldsAre(p: Projection, m: Members, digest: Value)
    ensures (forall f | f in DigestFields(p) :: f in m && m[f] == digest) <==>
            && Has(m, p.idField, digest) && Has(m, "logical_payload_sha256", digest)
            && forall f | f in p.equivalentDigestFields :: Has(m, f, digest)
  {
    assert DigestFields(p)[0] == p.idField && DigestFields(p)[1] == "logical_payload_sha256";
    assert forall f | f in p.equivalentDigestFields :: f in DigestFields(p);
  }

  /** A recipe value that decodes to a good recipe is an object that says it. */
  lemma RecipeDecoded(v: Value, p: Projection)
    requires DecodeProjection(v) == Some(p) && GoodRecipe(p) && ValidDomain(p.objectType, p.objectSchemaVersion)
    ensures v.Obj? && RecipeSays(v.members, p.objectType, p.objectSchemaVersion, p.idField)
    ensures HasNames(v.members, "excluded_fields", p.excludedFields)
    ensures MayHaveNames(v.members, "equivalent_digest_fields", p.equivalentDigestFields)
  {
    hide ValidDomain, StringIn, StringsIn;
    DomainNotEmpty(p.objectType, p.objectSchemaVersion);
    if v.Null? { EmptyRecipe(p); }
    var r := v.members;
    TextDecodes(r, "object_type", p.objectType);
    TextDecodes(r, "object_schema_version", p.objectSchemaVersion);
    TextDecodes(r, "id_field", p.idField);
    TextDecodes(r, "canonical_encoder", p.canonicalEncoder);
    TextDecodes(r, "id_encoding", p.idEncoding);
    TextDecodes(r, "domain_separator", p.domainSeparator);
    NamesDecode(r, "excluded_fields", p.excludedFields);
    NamesDecode(r, "equivalent_digest_fields", p.equivalentDigestFields);
  }

  lemma EmptyRecipe(p: Projection)
    requires DecodeProjection(Null) == Some(p)
    ensures p.canonicalEncoder == ""
  {
  }

  lemma IdentifiedIsAccepted(sha: Hash, m: Members)
    requires Identified(sha, m)
    ensures AcceptsObject(sha, m)
  {
    hide ValidDomainToken, ValidSchemaVersion, Print, Hex, Payload, Preimage, DecodeProjection, Encode8, DigestFields;
    var objectType, version, id, excluded, equivalent, payload :|
      IdentifiedBy(sha, m, objectType, version, id, excluded, equivalent, payload);
    var p := Projection(objectType, id, version, "RFC8785_JCS", Separator(objectType, version), excluded, equivalent,
                        "lowercase_hex_sha256", true);
    RecipeIsFixed(m[RECIPE_FIELD].members, p);
    RecipeRead(m[RECIPE_FIELD].members, p);
    hide RecipeSays, HasNames, MayHaveNames, Separator;
    CoversPayload(payload, m, excluded);
    DigestFieldsAre(p, m, Str(Identity(sha, p, m)));
    DistinctIff(excluded);
    DistinctIff(equivalent);
    PreimageIs(objectType, version, Encode8(Print(Obj(payload))));
  }

  lemma RecipeIsFixed(r: Members, p: Projection)
    requires RecipeSays(r, p.objectType, p.objectSchemaVersion, p.idField) && p.idField != ""
    requires p.canonicalEncoder == "RFC8785_JCS" && p.idEncoding == "lowercase_hex_sha256" && p.idEqualsDigest
    requires p.domainSeparator == Separator(p.objectType, p.objectSchemaVersion)
    ensures FixedPart(p)
  {
  }

  lemma RecipeRead(r: Members, p: Projection)
    requires RecipeSays(r, p.objectType, p.objectSchemaVersion, p.idField)
    requires ValidDomain(p.objectType, p.objectSchemaVersion)
    requires FixedPart(p) && DistinctNames(p.excludedFields) && DistinctNames(p.equivalentDigestFields)
    requires HasNames(r, "excluded_fields", p.excludedFields)
    requires MayHaveNames(r, "equivalent_digest_fields", p.equivalentDigestFields)
    ensures DecodeProjection(Obj(r)) == Some(p)
  {
    hide ValidDomain, StringIn, StringsIn;
    DomainNotEmpty(p.objectType, p.objectSchemaVersion);
    NoEmpty(p.excludedFields);
    NoEmpty(p.equivalentDigestFields);
    TextDecodes(r, "object_type", p.objectType);
    TextDecodes(r, "object_schema_version", p.objectSchemaVersion);
    TextDecodes(r, "id_field", p.idField);
    TextDecodes(r, "canonical_encoder", p.canonicalEncoder);
    TextDecodes(r, "id_encoding", p.idEncoding);
    TextDecodes(r, "domain_separator", p.domainSeparator);
    NamesDecode(r, "excluded_fields", p.excludedFields);
    NamesDecode(r, "equivalent_digest_fields", p.equivalentDigestFields);
  }

  /** The verifier accepts exactly the identified objects. */
  lemma AcceptsIff(sha: Hash, m: Members)
    ensures AcceptsObject(sha, m) <==> Identified(sha, m)
  {
    hide AcceptsObject, Identified;
    if AcceptsObject(sha, m) { AcceptedIsIdentified(sha, m); }
    if Identified(sha, m) { IdentifiedIsAccepted(sha, m); }
  }
}
