/** The key registry of signature.go and its TypeScript walk. */
module KeyRegistry {
  import opened Wrappers
  import opened Unicode

  const ECDSA := "ECDSA_P256_SHA256"
  const RSA_PSS := "RSA_PSS_SHA256"

  type Kid = string

  datatype Key = Key(
    kid: Kid, algorithm: string, publicKeyPem: string, purposes: seq<string>, environments: seq<string>,
    tenantScope: Option<string>, validFrom: string, validUntil: string, status: string,
    supersedesKid: Option<Kid>, revokedAt: Option<string>, revocationReason: Option<string>)

  datatype Registry = Registry(
    schemaVersion: string, registryId: string, registryVersion: int, previousRegistryHash: Option<string>,
    issuedAt: string, rootFingerprint: string, purposePolicyHash: string, keys: seq<Key>)

  datatype PublicKey = Ecdsa(curve: string, point: seq<Byte>) | Rsa(bits: nat, modulus: seq<Byte>) | OtherKey

  /** time.Parse behind the timestamp pattern, in nanoseconds, and the PEM and X.509 parsers. */
  datatype Parsers = Parsers(time: string -> Option<int>, publicKey: string -> Option<PublicKey>)

  // ---------- the local checks ----------

  predicate HexChar(c: char) { '0' <= c <= '9' || 'a' <= c <= 'f' || 'A' <= c <= 'F' }

  /** hex.DecodeString gives 32 bytes. */
  predicate IsHash32(s: string) { |s| == 64 && forall i | 0 <= i < 64 :: HexChar(s[i]) }

  predicate HeaderOk(parsers: Parsers, r: Registry) {
    && r.schemaVersion == "1.0.0" && r.registryVersion != 0 && r.keys != []
    && IsHash32(r.registryId) && IsHash32(r.rootFingerprint) && IsHash32(r.purposePolicyHash)
    && parsers.time(r.issuedAt).Some?
    && (r.registryVersion == 1 ==> r.previousRegistryHash.None?)
    && (r.registryVersion > 1 ==> r.previousRegistryHash.Some? && IsHash32(r.previousRegistryHash.value))
  }

  predicate IntervalOk(parsers: Parsers, key: Key) {
    var from, until := parsers.time(key.validFrom), parsers.time(key.validUntil);
    from.Some? && until.Some? && from.value <= until.value
  }

  predicate StatusOk(parsers: Parsers, key: Key)
    requires IntervalOk(parsers, key)
  {
    if key.status == "revoked" then
      && key.revokedAt.Some? && key.revocationReason.Some?
      && var at := parsers.time(key.revokedAt.value);
      at.Some? && parsers.time(key.validFrom).value <= at.value
    else
      (key.status == "active" || key.status == "superseded") && key.revokedAt.None? && key.revocationReason.None?
  }

  predicate Fits(algorithm: string, key: PublicKey) {
    if algorithm == ECDSA then key.Ecdsa? && key.curve == "P-256"
    else algorithm == RSA_PSS && key.Rsa? && key.bits >= 2048
  }

  predicate KeyOk(parsers: Parsers, key: Key) {
    && key.kid != "" && IntervalOk(parsers, key) && StatusOk(parsers, key)
    && var parsed := parsers.publicKey(key.publicKeyPem);
    parsed.Some? && Fits(key.algorithm, parsed.value)
  }

  predicate DistinctKids(keys: seq<Key>) { forall i, j | 0 <= i < j < |keys| :: keys[i].kid != keys[j].kid }

  function Kids(keys: seq<Key>): set<Kid> { set i | 0 <= i < |keys| :: keys[i].kid }

  /** The first key with a kid. */
  function Find(keys: seq<Key>, kid: Kid): Option<Key> {
    if keys == [] then None else if keys[0].kid == kid then Some(keys[0]) else Find(keys[1..], kid)
  }

  lemma {:induction false} FindExact(keys: seq<Key>, kid: Kid)
    ensures Find(keys, kid).Some? <==> kid in Kids(keys)
    ensures Find(keys, kid).Some? ==> Find(keys, kid).value in keys && Find(keys, kid).value.kid == kid
  {
    if keys != [] && keys[0].kid != kid {
      FindExact(keys[1..], kid);
      if kid in Kids(keys) {
        var i :| 0 <= i < |keys| && keys[i].kid == kid;
        assert keys[1..][i - 1].kid == kid;
      }
      if kid in Kids(keys[1..]) {
        var i :| 0 <= i < |keys[1..]| && keys[1..][i].kid == kid;
        assert keys[i + 1].kid == kid;
      }
    }
  }

  lemma FindIs(keys: seq<Key>, i: nat)
    requires i < |keys| && DistinctKids(keys)
    ensures Find(keys, keys[i].kid) == Some(keys[i])
  {
    FindExact(keys, keys[i].kid);
    var j :| 0 <= j < |keys| && keys[j] == Find(keys, keys[i].kid).value;
  }

  predicate LinkOk(keys: seq<Key>, key: Key) {
    key.supersedesKid.Some? ==>
      && key.supersedesKid.value != key.kid
      && var prior := Find(keys, key.supersedesKid.value);
      prior.Some? && prior.value.status == "superseded" && prior.value.algorithm == key.algorithm
  }

  predicate LinksOk(keys: seq<Key>) { forall key | key in keys :: LinkOk(keys, key) }

  // ---------- the supersession relation ----------

  type Links = map<Kid, Kid>

  /** A kid and the one it supersedes. */
  function LinksOf(keys: seq<Key>): Links {
    map kid | kid in Kids(keys) && Find(keys, kid).Some? && Find(keys, kid).value.supersedesKid.Some?
        :: Find(keys, kid).value.supersedesKid.value
  }

  predicate Chain(links: Links, w: seq<Kid>) {
    w != [] && forall i | 0 <= i < |w| - 1 :: w[i] in links && links[w[i]] == w[i + 1]
  }

  predicate NoRepeats(w: seq<Kid>) { forall i, j | 0 <= i < j < |w| :: w[i] != w[j] }

  ghost predicate Terminates(links: Links, kid: Kid) {
    forall w | Chain(links, w) && w[0] == kid :: NoRepeats(w)
  }

  /** No supersession chain comes around. */
  ghost predicate Acyclic(links: Links) { forall w | Chain(links, w) :: NoRepeats(w) }

  ghost predicate RegistryOk(parsers: Parsers, r: Registry) {
    && HeaderOk(parsers, r) && (forall key | key in r.keys :: KeyOk(parsers, key)) && DistinctKids(r.keys)
    && LinksOk(r.keys) && Acyclic(LinksOf(r.keys))
  }

  lemma ChainTail(links: Links, w: seq<Kid>)
    requires Chain(links, w) && |w| > 1
    ensures Chain(links, w[1..]) && w[0] in links && links[w[0]] == w[1]
  {
    assert w[0 + 1] == w[1];
    forall i | 0 <= i < |w[1..]| - 1 ensures w[1..][i] in links && links[w[1..][i]] == w[1..][i + 1] {
      assert w[i + 1] in links && links[w[i + 1]] == w[i + 1 + 1];
    }
  }

  lemma ChainGrows(links: Links, w: seq<Kid>, next: Kid)
    requires Chain(links, w) && w[|w| - 1] in links && links[w[|w| - 1]] == next
    ensures Chain(links, w + [next])
  {
  }

  lemma ChainPrefix(links: Links, w: seq<Kid>, n: nat)
    requires Chain(links, w) && 0 < n <= |w|
    ensures Chain(links, w[..n])
  {
  }

  /** A kid terminates if what it supersedes does: a chain back to it would pass its parent twice. */
  lemma TerminatesUp(links: Links, kid: Kid)
    requires kid in links ==> Terminates(links, links[kid])
    ensures Terminates(links, kid)
  {
    forall w | Chain(links, w) && w[0] == kid ensures NoRepeats(w) {
      if |w| > 1 {
        ChainTail(links, w);
        var rest := w[1..];
        assert rest[0] == links[kid] && NoRepeats(rest);
        if kid in rest {
          var k :| 0 <= k < |rest| && rest[k] == kid;
          ChainPrefix(links, rest, k + 1);
          var around := rest[..k + 1] + [links[kid]];
          ChainGrows(links, rest[..k + 1], links[kid]);
          assert Chain(links, around) && around[0] == links[kid];
          assert around[0] == around[k + 1];
        }
        assert w == [kid] + rest;
      }
    }
  }

  /** A chain that meets itself is a cycle. */
  lemma MeetsItself(links: Links, w: seq<Kid>, next: Kid)
    requires Chain(links, w) && w[|w| - 1] in links && links[w[|w| - 1]] == next && next in w
    ensures !Acyclic(links)
  {
    ChainGrows(links, w, next);
    var k :| 0 <= k < |w| && w[k] == next;
    var around := w + [next];
    assert around[k] == around[|w|];
  }

  // ---------- the recursive visit of signature.go ----------

  class Visitor {
    const keys: seq<Key>
    var visiting: set<Kid>
    var visited: set<Kid>
    ghost var path: seq<Kid>

    /** `visiting` is the chain being followed; chains from visited kids end. */
    ghost predicate Valid()
      reads this
    {
      && DistinctKids(keys) && (forall kid | kid in LinksOf(keys) :: LinksOf(keys)[kid] in Kids(keys))
      && visiting <= Kids(keys) && (forall kid :: kid in visiting <==> kid in path)
      && NoRepeats(path) && (path != [] ==> Chain(LinksOf(keys), path))
      && forall kid | kid in visited :: Terminates(LinksOf(keys), kid)
    }

    ghost predicate Follows(kid: Kid)
      reads this
    {
      path != [] ==> path[|path| - 1] in LinksOf(keys) && LinksOf(keys)[path[|path| - 1]] == kid
    }

    constructor (keys: seq<Key>)
      requires DistinctKids(keys) && forall kid | kid in LinksOf(keys) :: LinksOf(keys)[kid] in Kids(keys)
      ensures this.keys == keys && Valid() && path == [] && visited == {}
    {
      this.keys := keys;
      visiting, visited, path := {}, {}, [];
    }

    /** The inner loop: the first key with this kid that supersedes another. */
    method Parent(kid: Kid) returns (parent: Option<Kid>)
      requires Valid()
      ensures parent == if kid in LinksOf(keys) then Some(LinksOf(keys)[kid]) else None
    {
      FindExact(keys, kid);
      for index := 0 to |keys|
        invariant forall i | 0 <= i < index :: keys[i].kid != kid || keys[i].supersedesKid.None?
      {
        if keys[index].kid == kid && keys[index].supersedesKid.Some? {
          FindIs(keys, index);
          return keys[index].supersedesKid;
        }
      }
      return None;
    }

    method Visit(kid: Kid) returns (ok: bool)
      requires Valid() && kid in Kids(keys) && Follows(kid)
      modifies this
      ensures ok ==> Valid() && visiting == old(visiting) && path == old(path)
      ensures ok ==> old(visited) <= visited && kid in visited
      ensures !ok ==> !Acyclic(LinksOf(keys))
      decreases Kids(keys) - visiting
    {
      hide LinksOf, Chain, Terminates, Acyclic, NoRepeats, DistinctKids, Kids;
      if kid in visiting {
        MeetsItself(LinksOf(keys), path, kid);
        return false;
      }
      if kid in visited { return true; }
      Enter(kid);
      var parent := Parent(kid);
      if parent.Some? {
        ok := Visit(parent.value);
        if !ok { return false; }
      }
      TerminatesUp(LinksOf(keys), kid);
      Leave(kid);
      return true;
    }

    method Enter(kid: Kid)
      requires Valid() && kid in Kids(keys) && Follows(kid) && kid !in visiting
      modifies this`visiting, this`path
      ensures Valid() && visiting == old(visiting) + {kid} && path == old(path) + [kid]
    {
      hide LinksOf;
      if path != [] { ChainGrows(LinksOf(keys), path, kid); }
      visiting := visiting + {kid};
      path := path + [kid];
    }

    method Leave(kid: Kid)
      requires Valid() && path != [] && path[|path| - 1] == kid && Terminates(LinksOf(keys), kid)
      modifies this
      ensures Valid() && visiting == old(visiting) - {kid} && path == old(path)[..|old(path)| - 1]
      ensures visited == old(visited) + {kid}
    {
      hide LinksOf, Terminates;
      assert path == path[..|path| - 1] + [kid];
      visiting := visiting - {kid};
      visited := visited + {kid};
      path := path[..|path| - 1];
    }
  }

  /** The visits of all kids, in whatever order the map yields them. */
  method VisitAll(keys: seq<Key>) returns (ok: bool)
    requires DistinctKids(keys) && LinksOk(keys)
    ensures ok <==> Acyclic(LinksOf(keys))
  {
    hide DistinctKids, LinksOk, Kids;
    LinksInside(keys);
    var visitor := new Visitor(keys);
    var seen := Kids(keys);
    while seen != {}
      invariant fresh(visitor) && visitor.keys == keys && visitor.Valid() && visitor.path == []
      invariant seen <= Kids(keys) && forall kid | kid in Kids(keys) && kid !in seen :: kid in visitor.visited
      decreases seen
    {
      var kid :| kid in seen;
      ok := visitor.Visit(kid);
      if !ok { return false; }
      seen := seen - {kid};
    }
    AllTerminate(keys, visitor.visited);
    return true;
  }

  lemma LinksInside(keys: seq<Key>)
    requires DistinctKids(keys) && LinksOk(keys)
    ensures forall kid | kid in LinksOf(keys) :: kid in Kids(keys) && LinksOf(keys)[kid] in Kids(keys)
  {
    forall kid | kid in LinksOf(keys) ensures LinksOf(keys)[kid] in Kids(keys) {
      FindExact(keys, kid);
      assert LinkOk(keys, Find(keys, kid).value);
      FindExact(keys, LinksOf(keys)[kid]);
    }
  }

  lemma AllTerminate(keys: seq<Key>, done: set<Kid>)
    requires forall kid | kid in Kids(keys) :: kid in done
    requires forall kid | kid in done :: Terminates(LinksOf(keys), kid)
    ensures Acyclic(LinksOf(keys))
  {
    forall w | Chain(LinksOf(keys), w) ensures NoRepeats(w) {
      if |w| > 1 {
        ChainTail(LinksOf(keys), w);
        assert Terminates(LinksOf(keys), w[0]);
      }
    }
  }

  // ---------- validateRegistry ----------

  /** The first loop: each key on its own, and no kid twice. */
  method CheckKeys(parsers: Parsers, keys: seq<Key>) returns (ok: bool)
    ensures ok <==> (forall key | key in keys :: KeyOk(parsers, key)) && DistinctKids(keys)
  {
    hide KeyOk;
    var seen: set<Kid> := {};
    for index := 0 to |keys|
      invariant forall i | 0 <= i < index :: KeyOk(parsers, keys[i])
      invariant DistinctKids(keys[..index]) && seen == set i | 0 <= i < index :: keys[i].kid
    {
      var key := keys[index];
      if key.kid in seen {
        var i :| 0 <= i < index && keys[i].kid == key.kid;
        return false;
      }
      if !KeyOk(parsers, key) { return false; }
      seen := seen + {key.kid};
    }
    assert keys[..|keys|] == keys;
    return true;
  }

  /** The second loop. */
  method CheckLinks(keys: seq<Key>) returns (ok: bool)
    ensures ok <==> LinksOk(keys)
  {
    for index := 0 to |keys|
      invariant forall i | 0 <= i < index :: LinkOk(keys, keys[i])
    {
      if !LinkOk(keys, keys[index]) { return false; }
    }
    return true;
  }

  method ValidateRegistry(parsers: Parsers, r: Registry) returns (ok: bool)
    ensures ok <==> RegistryOk(parsers, r)
  {
    hide KeyOk, LinksOk, Acyclic, DistinctKids, HeaderOk;
    if !HeaderOk(parsers, r) { return false; }
    ok := CheckKeys(parsers, r.keys);
    if !ok { return false; }
    ok := CheckLinks(r.keys);
    if !ok { return false; }
    ok := VisitAll(r.keys);
  }

  // ---------- the walk of the TypeScript client ----------

  /** The links of the first keys. */
  function LinksUpTo(keys: seq<Key>, index: nat): Links
    requires index <= |keys|
  {
    map kid | kid in LinksOf(keys) && kid in Kids(keys[..index]) :: LinksOf(keys)[kid]
  }

  /** The map that the client's loop over the keys fills. */
  method ParentByKid(keys: seq<Key>) returns (parents: Links)
    requires DistinctKids(keys)
    ensures parents == LinksOf(keys)
  {
    hide LinksOf, LinksUpTo, DistinctKids;
    parents := map[];
    LinksUpToEnds(keys);
    for index := 0 to |keys|
      invariant parents == LinksUpTo(keys, index)
    {
      OneMoreLink(keys, index);
      if keys[index].supersedesKid.Some? {
        parents := parents[keys[index].kid := keys[index].supersedesKid.value];
      }
    }
  }

  lemma LinksUpToEnds(keys: seq<Key>)
    ensures LinksUpTo(keys, 0) == map[] && LinksUpTo(keys, |keys|) == LinksOf(keys)
  {
    assert keys[..|keys|] == keys;
  }

  lemma OneMoreLink(keys: seq<Key>, index: nat)
    requires index < |keys| && DistinctKids(keys)
    ensures LinksUpTo(keys, index + 1)
         == var key, before := keys[index], LinksUpTo(keys, index);
            if key.supersedesKid.Some? then before[key.kid := key.supersedesKid.value] else before
  {
    hide DistinctKids, Kids;
    FindIs(keys, index);
    OneMoreKid(keys, index);
    KidOf(keys, index);
  }

  lemma OneMoreKid(keys: seq<Key>, index: nat)
    requires index < |keys|
    ensures Kids(keys[..index + 1]) == Kids(keys[..index]) + {keys[index].kid}
  {
    var before, after := keys[..index], keys[..index + 1];
    forall kid | kid in Kids(before) + {keys[index].kid} ensures kid in Kids(after) {
      if kid in Kids(before) {
        var i :| 0 <= i < |before| && before[i].kid == kid;
        assert after[i].kid == kid;
      } else {
        assert after[index].kid == kid;
      }
    }
    forall kid | kid in Kids(after) ensures kid in Kids(before) + {keys[index].kid} {
      var i :| 0 <= i < |after| && after[i].kid == kid;
      if i < index { assert before[i].kid == kid; }
    }
  }

  /** If what comes after a chain terminates, so does every kid on it. */
  lemma {:induction false} ChainTerminates(links: Links, w: seq<Kid>, k: nat)
    requires Chain(links, w) && k < |w|
    requires w[|w| - 1] in links ==> Terminates(links, links[w[|w| - 1]])
    ensures Terminates(links, w[k])
    decreases |w| - k
  {
    hide Terminates;
    if k < |w| - 1 {
      assert w[k] in links && links[w[k]] == w[k + 1];
      ChainTerminates(links, w, k + 1);
    }
    TerminatesUp(links, w[k]);
  }

  /** Walks up from one kid until the chain ends or was walked before. */
  method WalkUp(parents: Links, kids: set<Kid>, kid: Kid, visited: set<Kid>) returns (ok: bool, walked: set<Kid>)
    requires kid in kids && forall k | k in parents :: parents[k] in kids
    requires forall k | k in visited :: Terminates(parents, k)
    ensures ok ==> (forall k | k in walked :: Terminates(parents, k)) && kid in visited + walked
    ensures !ok ==> !Acyclic(parents)
  {
    hide Terminates, Acyclic;
    walked := {};
    ghost var path: seq<Kid> := [];
    var current := Some(kid);
    while current.Some? && current.value !in visited
      invariant current.Some? ==> current.value in kids
      invariant walked <= kids && (forall k :: k in walked <==> k in path)
      invariant path == [] ==> current == Some(kid)
      invariant path != [] ==> Chain(parents, path) && path[0] == kid
      invariant path != [] ==> current == if path[|path| - 1] in parents then Some(parents[path[|path| - 1]]) else None
      decreases kids - walked
    {
      if current.value in walked {
        MeetsItself(parents, path, current.value);
        return false, walked;
      }
      path := path + [current.value];
      walked := walked + {current.value};
      current := if current.value in parents then Some(parents[current.value]) else None;
    }
    forall k | k in walked ensures Terminates(parents, k) {
      var i :| 0 <= i < |path| && path[i] == k;
      ChainTerminates(parents, path, i);
    }
    return true, walked;
  }

  /** The supersession walk of validatePublicKeyRegistry. */
  method WalkAll(keys: seq<Key>) returns (ok: bool)
    requires DistinctKids(keys) && LinksOk(keys)
    ensures ok <==> Acyclic(LinksOf(keys))
  {
    hide DistinctKids, LinksOk, Kids, Terminates, LinksOf, Acyclic;
    LinksInside(keys);
    var parents := ParentByKid(keys);
    var visited: set<Kid> := {};
    for index := 0 to |keys|
      invariant forall k | k in visited :: Terminates(parents, k)
      invariant forall i | 0 <= i < index :: keys[i].kid in visited
    {
      KidOf(keys, index);
      var walked;
      ok, walked := WalkUp(parents, Kids(keys), keys[index].kid, visited);
      if !ok { return false; }
      visited := visited + walked;
    }
    forall kid | kid in Kids(keys) ensures kid in visited {
      IndexOf(keys, kid);
    }
    AllTerminate(keys, visited);
    return true;
  }

  lemma KidOf(keys: seq<Key>, index: nat)
    requires index < |keys|
    ensures keys[index].kid in Kids(keys)
  {
  }

  lemma IndexOf(keys: seq<Key>, kid: Kid)
    requires kid in Kids(keys)
    ensures exists i :: 0 <= i < |keys| && keys[i].kid == kid
  {
  }

  /** Both runtimes give one verdict on the supersession relation. */
  method TwinsAgree(keys: seq<Key>) returns (go: bool, ts: bool)
    requires DistinctKids(keys) && LinksOk(keys)
    ensures go == ts && (go <==> Acyclic(LinksOf(keys)))
  {
    go := VisitAll(keys);
    ts := WalkAll(keys);
  }

  // ---------- accepted registries ----------

  /** In an accepted registry every proper ancestor of a key is superseded, of its algorithm, and another key. */
  lemma {:induction false} AncestorsSuperseded(parsers: Parsers, r: Registry, w: seq<Kid>, k: nat)
    requires RegistryOk(parsers, r) && Chain(LinksOf(r.keys), w) && 0 < k < |w|
    ensures Find(r.keys, w[0]).Some? && Find(r.keys, w[k]).Some? && w[k] != w[0]
    ensures Find(r.keys, w[k]).value.status == "superseded"
    ensures Find(r.keys, w[k]).value.algorithm == Find(r.keys, w[0]).value.algorithm
  {
    var keys := r.keys;
    assert NoRepeats(w);
    if k > 1 {
      AncestorsSuperseded(parsers, r, w, k - 1);
    }
    assert w[k - 1] in LinksOf(keys) && LinksOf(keys)[w[k - 1]] == w[k - 1 + 1];
    FindExact(keys, w[k - 1]);
    assert LinkOk(keys, Find(keys, w[k - 1]).value);
  }

  /** So no chain is longer than the registry. */
  lemma ChainsAreShort(parsers: Parsers, r: Registry, w: seq<Kid>)
    requires RegistryOk(parsers, r) && Chain(LinksOf(r.keys), w) && w[0] in Kids(r.keys)
    ensures |w| <= |Kids(r.keys)|
  {
    LinksInside(r.keys);
    var names := set i | 0 <= i < |w| :: w[i];
    forall i | 0 <= i < |w| ensures w[i] in Kids(r.keys) {
      if i > 0 { assert w[i - 1] in LinksOf(r.keys) && LinksOf(r.keys)[w[i - 1]] == w[i - 1 + 1]; }
    }
    CountDistinct(w);
    CountSubset(names, Kids(r.keys));
  }

  lemma {:induction false} CountDistinct(w: seq<Kid>)
    requires NoRepeats(w)
    ensures |set i | 0 <= i < |w| :: w[i]| == |w|
  {
    if w != [] {
      var rest := w[..|w| - 1];
      CountDistinct(rest);
      assert (set i | 0 <= i < |w| :: w[i]) == (set i | 0 <= i < |rest| :: rest[i]) + {w[|w| - 1]} by {
        assert w == rest + [w[|w| - 1]];
      }
    }
  }

  lemma {:induction false} CountSubset(a: set<Kid>, b: set<Kid>)
    requires a <= b
    ensures |a| <= |b|
  {
    assert b == a + (b - a);
  }
}
