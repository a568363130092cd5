/** The typed digests of canonical.go: SHA-256 over a domain and a payload. */
module TypedDigest {
  import opened Wrappers
  import opened Unicode
  import opened CanonicalNumber
  import opened Json
  import opened JsonMeaning
  import opened GoCanonical
  import opened CanonicalTheorems

  type Hash = seq<Byte> -> seq<Byte>

  ghost predicate IsHash(sha: Hash) { forall b :: |sha(b)| == 32 }

  // ---------- lowercase hexadecimal ----------

  function Hex(b: seq<Byte>): (r: string)
    ensures |r| == 2 * |b|
  {
    if b == [] then "" else HexPair(b[0]) + Hex(b[1..])
  }

  predicate IsHexDigit(c: char) { '0' <= c <= '9' || 'a' <= c <= 'f' }

  /** isSHA256Hex: what the hexadecimal form of 32 bytes looks like. */
  predicate IsSha256Hex(s: string) { |s| == 64 && forall i | 0 <= i < 64 :: IsHexDigit(s[i]) }

  lemma {:induction false} HexInjective(a: seq<Byte>, b: seq<Byte>)
    requires Hex(a) == Hex(b)
    ensures a == b
  {
    if a != [] && b != [] {
      assert Hex(a)[..2] == HexPair(a[0]) && Hex(b)[..2] == HexPair(b[0]);
      assert Hex(a)[2..] == Hex(a[1..]) && Hex(b)[2..] == Hex(b[1..]);
      HexPairInjective(a[0], b[0]);
      HexInjective(a[1..], b[1..]);
      assert a == [a[0]] + a[1..] && b == [b[0]] + b[1..];
    }
  }

  lemma HexPairInjective(m: Byte, n: Byte)
    requires HexPair(m) == HexPair(n)
    ensures m == n
  {
    assert HexPair(m)[0] == HexPair(n)[0] && HexPair(m)[1] == HexPair(n)[1];
  }

  lemma {:induction false} HexDigits(b: seq<Byte>)
    ensures forall i | 0 <= i < |Hex(b)| :: IsHexDigit(Hex(b)[i])
  {
    if b != [] {
      HexDigits(b[1..]);
      forall i | 0 <= i < |Hex(b)| ensures IsHexDigit(Hex(b)[i]) {
        if i >= 2 { assert Hex(b)[i] == Hex(b[1..])[i - 2]; }
      }
    }
  }

  // ---------- the domain ----------

  predicate TokenChar(c: char) { 'a' <= c <= 'z' || '0' <= c <= '9' || c == '_' || c == '-' }

  predicate ValidDomainToken(s: string) { 0 < |s| <= 96 && forall i | 0 <= i < |s| :: TokenChar(s[i]) }

  /** strings.Split. */
  function Split(s: string, sep: char): (parts: seq<string>)
    ensures parts != []
  {
    if s == "" then [""]
    else
      var rest := Split(s[1..], sep);
      if s[0] == sep then [""] + rest else [[s[0]] + rest[0]] + rest[1..]
  }

  predicate VersionPart(p: string) {
    p != "" && !(|p| > 1 && p[0] == '0') && forall i | 0 <= i < |p| :: '0' <= p[i] <= '9'
  }

  predicate ValidSchemaVersion(s: string) {
    var parts := Split(s, '.');
    |parts| == 3 && forall i | 0 <= i < 3 :: VersionPart(parts[i])
  }

  function Domain(objectType: string, version: string): string { "jumpship:" + objectType + ":" + version }

  function Preimage(objectType: string, version: string, canonical: seq<Byte>): seq<Byte> {
    Encode8(Domain(objectType, version)) + [0] + canonical
  }

  predicate ValidDomain(objectType: string, version: string) {
    ValidDomainToken(objectType) && ValidSchemaVersion(version)
  }

  /** TypedDigestHex. */
  function DigestHex(sha: Hash, round: Rounding, objectType: string, version: string,
                     payload: seq<Byte>): Option<string> {
    if !ValidDomain(objectType, version) then None
    else match CanonicalBytes(round, payload)
         case None => None
         case Some(canonical) => Some(Hex(sha(Preimage(objectType, version, canonical))))
  }

  method TypedDigestHex(sha: Hash, round: Rounding, objectType: string, version: string, payload: seq<Byte>)
    returns (r: Option<string>)
    requires IsRounding(round)
    ensures r == DigestHex(sha, round, objectType, version, payload)
  {
    if !ValidDomainToken(objectType) || !ValidSchemaVersion(version) {
      return None;
    }
    var canonical := CanonicalizeJSON(payload, round);
    if canonical.None? {
      return None;
    }
    var input := Encode8("jumpship:" + objectType + ":" + version);
    input := input + [0];
    input := input + canonical.value;
    return Some(Hex(sha(input)));
  }

  // ---------- the preimage splits in one way ----------

  /** What comes before the first separator, and after it, is determined. */
  lemma FirstSeparator<T>(a: seq<T>, x: seq<T>, b: seq<T>, y: seq<T>, sep: T)
    requires a + [sep] + x == b + [sep] + y
    requires (forall i | 0 <= i < |a| :: a[i] != sep) && forall i | 0 <= i < |b| :: b[i] != sep
    ensures a == b && x == y
  {
    var whole, other := a + [sep] + x, b + [sep] + y;
    assert whole[|a|] == sep && other[|b|] == sep;
    if |a| < |b| || |b| < |a| {
      assert false;
    }
    assert a == whole[..|a|] && b == other[..|b|];
    assert x == whole[|a| + 1..] && y == other[|b| + 1..];
  }

  lemma {:induction false} NoZeroByte(s: string)
    requires forall i | 0 <= i < |s| :: s[i] as int != 0
    ensures forall i | 0 <= i < |Encode8(s)| :: Encode8(s)[i] != 0
  {
    if s != "" {
      NoZeroByte(s[1..]);
    }
  }

  predicate InParts(parts: seq<string>, c: char) { exists j | 0 <= j < |parts| :: c in parts[j] }

  lemma PartHas(parts: seq<string>, j: nat, c: char)
    requires j < |parts| && c in parts[j]
    ensures InParts(parts, c)
  {
  }

  /** Every character but the separators is in one of the parts. */
  lemma {:induction false} PartChars(s: string, sep: char, i: nat)
    requires i < |s| && s[i] != sep
    ensures InParts(Split(s, sep), s[i])
  {
    var parts, rest := Split(s, sep), Split(s[1..], sep);
    if i == 0 {
      assert parts[0] == [s[0]] + rest[0];
      PartHas(parts, 0, s[i]);
    } else {
      PartChars(s[1..], sep, i - 1);
      var j :| 0 <= j < |rest| && s[i] in rest[j];
      if s[0] == sep {
        assert parts[j + 1] == rest[j];
        PartHas(parts, j + 1, s[i]);
      } else {
        assert parts[j] == if j == 0 then [s[0]] + rest[0] else rest[j];
        PartHas(parts, j, s[i]);
      }
    }
  }

  lemma DomainChars(objectType: string, version: string)
    requires ValidDomain(objectType, version)
    ensures forall i | 0 <= i < |Domain(objectType, version)| :: Domain(objectType, version)[i] as int != 0
    ensures forall i | 0 <= i < |objectType| :: objectType[i] != ':'
  {
    forall i | 0 <= i < |version| ensures version[i] == '.' || '0' <= version[i] <= '9' {
      if version[i] != '.' { PartChars(version, '.', i); }
    }
    assert forall i | 0 <= i < |"jumpship:"| :: "jumpship:"[i] as int != 0;
  }

  /** The digest preimage splits uniquely into object type, schema version and payload. */
  lemma PreimageSplits(t1: string, v1: string, c1: seq<Byte>, t2: string, v2: string, c2: seq<Byte>)
    requires ValidDomain(t1, v1) && ValidDomain(t2, v2)
    requires Preimage(t1, v1, c1) == Preimage(t2, v2, c2)
    ensures t1 == t2 && v1 == v2 && c1 == c2
  {
    hide ValidDomain, Encode8;
    DomainChars(t1, v1);
    DomainChars(t2, v2);
    NoZeroByte(Domain(t1, v1));
    NoZeroByte(Domain(t2, v2));
    FirstSeparator(Encode8(Domain(t1, v1)), c1, Encode8(Domain(t2, v2)), c2, 0);
    Encode8Injective(Domain(t1, v1), Domain(t2, v2));
    var d1, d2 := Domain(t1, v1), Domain(t2, v2);
    assert d1[9..] == t1 + [':'] + v1 && d2[9..] == t2 + [':'] + v2;
    FirstSeparator(t1, v1, t2, v2, ':');
  }

  /** Equal typed digests: same type, version and value, unless these two preimages collide. */
  lemma DigestBinds(sha: Hash, round: Rounding, t1: string, v1: string, p1: seq<Byte>, t2: string, v2: string,
                    p2: seq<Byte>)
    requires DigestHex(sha, round, t1, v1, p1).Some?
    requires DigestHex(sha, round, t1, v1, p1) == DigestHex(sha, round, t2, v2, p2)
    ensures var (x, y) := (Preimage(t1, v1, CanonicalBytes(round, p1).value),
                           Preimage(t2, v2, CanonicalBytes(round, p2).value));
            if x == y then t1 == t2 && v1 == v2 && InputValue(round, p1) == InputValue(round, p2) else sha(x) == sha(y)
  {
    hide CanonicalBytes, Preimage, ValidDomain, InputValue;
    var c1, c2 := CanonicalBytes(round, p1).value, CanonicalBytes(round, p2).value;
    HexInjective(sha(Preimage(t1, v1, c1)), sha(Preimage(t2, v2, c2)));
    if Preimage(t1, v1, c1) == Preimage(t2, v2, c2) {
      PreimageSplits(t1, v1, c1, t2, v2, c2);
      BytesDecideValues(round, p1, p2);
    }
  }
}
