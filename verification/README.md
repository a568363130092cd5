# Contract library, clients and checkers: a Dafny model

These modules model the parts of the repository in which its logic sits, and prove what each of them is
for, over all inputs, all runs or all reachable states.

- **Canonical JSON** (`Unicode`, `Number`, `CanonicalNumber`, `Json`, `JsonGrammar`, `JsonMeaning`,
  `SurrogateScan`, `GoDecoder`, `GoCanonical`, `TsCanonical`, `CanonicalTheorems`, `CanonicalSpelling`, `NumberValue`). RFC 8259 texts are
  concrete syntax trees with a reader and a writer that are exact inverses. The Go decoder over tokens, the
  flat surrogate scanner, the Go printer, and the offset-driven TypeScript parser are methods proved against
  that grammar; the theorems on canonical bytes are about the functions these methods compute.
- **Base64 and DER** (`Base64`, `EcdsaDer`): two canonical base64 checks, and the strict reader of ECDSA
  signatures against the encoding of sections 8.3 and 10.1 of X.690.
- **Identity** (`TypedDigest`, `PythonJson`, `ContentIdentity`): typed digests, the Python maker of
  content-addressed objects and the Go verifier that recomputes them.
- **Signatures** (`KeyRegistry`, `DetachedSignature`): the registry checks with the recursive visit of
  supersession chains and its TypeScript twin, and signing and verifying over them.
- **Graphs** (`StringOrder`, `ImportBoundary`, `ExtendsWalk`, `PacketGraph`, `PacketExpansion`): the
  breadth-first boundary checker, the coloured depth-first walk over `extends`, and Kahn's algorithm on the
  packet graph with the expansion of its dependency expressions.
- **Comments** (`JsoncComments`): the scanner that blanks comments before a config is parsed.
- **Apply protocol** (`DependencyApply`, `InterruptedApply`, `ApplyProgram`): processes, one lock, the receipt
  journal, the status flip, process stops, power losses and edits as a state machine; what can still become
  of an accepted request that has its receipt; and the program in its own order as a run of the machine.
- **Connect stream** (`ConnectStream`): envelopes and the client stream object.
- **Paths** (`PathTemplate`): placeholder replacement in map order.
- **Laws** (`HexLaws`, `IdentityLaws`, `SignatureLaws`, `ApplyLaws`, `ConnectLaws`, `PacketLaws`, `CommentLaws`,
  `TextLaws`): what each check accepts and each encoding writes, stated on the data alone and proved to be what
  the methods decide.

## Conventions

- Strings are sequences of Unicode scalars; UTF-8 and UTF-16 are functions on them. Times are integers.
- A JSON number is a decimal in normal form. Rounding to a double and back to its shortest decimal is one
  function `round`, with the one law that a shortest decimal stays itself; everything about the layout of
  the digits is modelled.
- `json.Marshal` is any function whose bytes stand for the value, with member order and escapes of its own.
- SHA-256 is an uninterpreted function to 32 bytes. No lemma assumes that it is injective: a binding
  statement ends in "or the hash has the same value on exactly these two different inputs".
- PEM, X.509 and timestamp parsing are functions. Signing has one law: what a signer returns verifies under
  its public key for the same hash.
- In the apply protocol a commit is what it holds of requests, receipts and root locks, and its only parent; all
  other files are taken to be clean and unchanged, and where a run is said to exist, the branch and the
  validations are in order in it. While no lock is held, people may edit requests and root locks and move HEAD
  to any commit. They never write the status applied by hand, never touch a receipt, and name as base a commit
  whose receipts are on disk and not just being written.
- An iteration over a Go map takes any remaining key, so its results hold for every order.

## Where the code does not do what one may expect

Each of these is stated in the model, with the condition under which the expectation does hold.

- The accepted verification times of an envelope leave out Go's zero time, which parsed times may pass on
  both sides: they are one closed interval iff the zero time is not strictly inside
  (`DetachedSignature.OneIntervalIff`), and envelopes with the gap exist (`DetachedSignature.SignedGap`).
- The Python maker sorts names by code points and the verifiers by UTF-16 units. The two differ on names
  from U+E000 to U+FFFF beside names with supplementary characters (`PythonJson.DumpDiffers`). The two texts
  of a value are one iff no object in it has two names that the orders put differently
  (`PythonJson.DumpIsCanonicalIff`), and hash collisions aside what is made is accepted iff that holds of the
  payload (`ContentIdentity.MadeAcceptedIff`).
- An apply loads the request twice and then digests it, and holds no lock for any of the three reads. A
  request edited before the digest is digested in its new form and applied in its old one
  (`InterruptedApply.StaleParseEscapes`); that is the one way, hash collisions aside, in which a flip changes
  more than the status (`DependencyApply.FlipKeepsRequest`). One edited between the loads is applied though
  only its predecessor was checked against the schema (`InterruptedApply.UncheckedLoadIsApplied`).
- What a crashed apply leaves, an accepted request with an uncommitted receipt, is absorbing: the receipt is in
  no base commit of a process at work, so none of them can flip the request (`InterruptedApply.CrashSticks`,
  `InterruptedApply.CrashIsFinal`). A receipt that was committed before is not enough: the stale process of the
  last item flips such a request. In general one can still be flipped iff some process already at work on it
  passes the guards still ahead of it (`InterruptedApply.FlipIff`).
- A failed `Receive` latches nothing, so a call after the error for a trailing byte reads on behind it
  (`ConnectStream.ErrorIsNotLatched`).
- On a template with loose braces around a placeholder the rendered path depends on the order of the map;
  on all other templates it does not (`PathTemplate.OrderFreeIffFlat`).
- The breadth-first search has no entry for its start, so a source on an import cycle is never reported
  against itself (`ImportBoundary.ShortestPaths`, `ImportBoundary.CycleUnreported`).

## Model

| member | source | states |
|---|---|---|
| CanonicalTheorems.BytesDecideValues | internal/contracts/canonical/canonical.go:31-53 | two accepted inputs have the same canonical bytes iff they stand for the same JSON value, whatever their member order, blanks, escapes and number spelling |
| CanonicalTheorems.FixedPoint | internal/contracts/canonical/canonical.go:31-53 | every output is itself accepted, stands for the value that was printed, and canonicalizes to itself |
| CanonicalTheorems.MarshalledBytes | internal/contracts/canonical/canonical.go:31-53 | whatever bytes json.Marshal gives for a settled value, their canonical bytes are those of its canonical text |
| CanonicalTheorems.AcceptedIff | internal/contracts/canonical/canonical.go:31-46 | an input is accepted iff it is the UTF-8 of blanks, one value of the RFC 8259 grammar and blanks, without lone surrogates, repeated names or numbers beyond the doubles |
| CanonicalTheorems.PrintReads | internal/contracts/canonical/canonical.go:173-226 | the canonical text of a value is a JSON text and means that value |
| CanonicalTheorems.PrintInjective | internal/contracts/canonical/canonical.go:173-226 | the printer is uniquely decodable: different values have different canonical texts |
| CanonicalTheorems.TwinsAgree | internal/contracts/codegen/client_templates.py:151-154 | the TypeScript parser and printer and the Go decoder and printer accept the same texts and give the same canonical text |
| GoCanonical.CanonicalizeJSON | internal/contracts/canonical/canonical.go:31-53 | UTF-8 check, surrogate scan, token decoder, trailing checks and printer together compute the canonical bytes of the value that the grammar gives, or refuse |
| GoDecoder.DecodeValue | internal/contracts/canonical/canonical.go:114-171 | the recursive decoder over tokens reads exactly one value of the grammar, as a tree without repeated names, from any decoder position where a value may stand |
| GoDecoder.DecodeElements | internal/contracts/canonical/canonical.go:154-167 | the array loop appends the elements that the grammar gives, or fails where it has none |
| GoDecoder.DecodeMembers | internal/contracts/canonical/canonical.go:129-153 | the object loop fills the map with distinct names, and fails on a repeated one |
| GoDecoder.Decoder.Token | internal/contracts/canonical/canonical.go:115-118 | one token of the library decoder: separators, delimiters, names and scalars as the grammar has them at that position |
| GoDecoder.Decoder.More | internal/contracts/canonical/canonical.go:131-156 | whether another element or value is there, after blanks and separators |
| GoCanonical.AppendCanonical | internal/contracts/canonical/canonical.go:173-226 | the printer appends exactly the canonical text of the denoted value, and fails iff a number is not a finite double |
| GoCanonical.AppendString | internal/contracts/canonical/canonical.go:228-260 | the escape loop appends the quoted string of RFC 8785 section 3.2.2.2 |
| CanonicalSpelling.LiteralIsShortest | internal/contracts/canonical/canonical.go:228-260 | of all string literals that denote a string, the printed one is the shortest, and the only one of its length whose hexadecimal digits are lowercase |
| CanonicalSpelling.EscapeIsShortest | internal/contracts/canonical/canonical.go:233-256 | no escape and no plain character spells a rune in less than the printer writes for it |
| CanonicalSpelling.EscapeIsOnly | internal/contracts/canonical/canonical.go:233-256 | and a spelling as short with lowercase digits is the printed one |
| CanonicalSpelling.ShortEscapes | internal/contracts/codegen/client_templates.py:79-98 | the eight short escapes are those of RFC 8259, and each stands for its character |
| CanonicalSpelling.Lexemes | internal/contracts/codegen/client_templates.py:76-149 | blanks, digits and the characters that may stand unescaped are those of RFC 8259 |
| CanonicalSpelling.DigitPlaces | internal/contracts/canonical/canonical.go:305-348 | a hexadecimal digit counts what its place in the alphabet says, in either case |
| CanonicalSpelling.FourDigits | internal/contracts/canonical/canonical.go:305-348 | four digits are a code unit, the first counting most, in either case |
| GoCanonical.Utf16Less | internal/contracts/canonical/canonical.go:290-303 | the index loop decides the UTF-16 code-unit order of two names |
| GoCanonical.SortSlice | internal/contracts/canonical/canonical.go:203-207 | sorting the map keys gives the one ascending listing, from whatever order the map yields them in |
| Json.KeyLessOrder | internal/contracts/canonical/canonical.go:290-303 | the UTF-16 order of names is irreflexive, asymmetric and total |
| Json.KeyLessTransitive | internal/contracts/canonical/canonical.go:290-303 | the UTF-16 order of names is transitive |
| Json.AscendingUnique | internal/contracts/canonical/canonical.go:203-207 | there is one ascending listing of a set of names |
| Json.DenoteSettles | internal/contracts/canonical/canonical.go:262-270 | numbers of a decoded value are shortest decimals of doubles and stay so |
| CanonicalNumber.CanonicalNumberIsLayout | internal/contracts/canonical/canonical.go:262-288 | for every literal the two-branch rendering, split at 1e-6 and 1e21 with a renormalized exponent, equals the ECMAScript layout that RFC 8785 section 3.2.2.3 requires |
| CanonicalNumber.FormatFIsCanonical | internal/contracts/canonical/canonical.go:270-273 | fixed notation of given shortest digits is the layout for exponents in the split |
| CanonicalNumber.ScientificTextIsCanonical | internal/contracts/canonical/canonical.go:274-287 | splitting at e, parsing and rewriting the exponent gives the scientific layout |
| Number.CanonicalIsExact | internal/contracts/canonical/canonical.go:262-288 | the laid-out number reads back to the same decimal |
| Number.NumberTextInjective | internal/contracts/canonical/canonical.go:262-288 | different decimals are laid out differently |
| NumberValue.ExactValue | internal/contracts/canonical/canonical.go:262-270 | the decimal that a literal is taken for is the real number that its sign, digits and exponent stand for |
| NumberValue.DecimalsDiffer | internal/contracts/canonical/canonical.go:262-288 | different decimals are different real numbers, so that decimal is the only one |
| Number.MatchLiteralIff | internal/contracts/codegen/client_templates.py:138-140 | before anything that cannot go on a number, the pattern of the client matches exactly the well-formed literals of the grammar, each whole |
| Number.MatchLiteralExact | internal/contracts/codegen/client_templates.py:138-140 | whatever the pattern matches, before anything, is a well-formed literal of the grammar |
| SurrogateScan.HasLoneSurrogateEscape | internal/contracts/canonical/canonical.go:305-348 | the flat loop with its two flags and index jumps computes the scan function on any bytes |
| SurrogateScan.ScanText | internal/contracts/canonical/canonical.go:305-348 | on the bytes of a JSON text the scan answers yes iff some string literal has a surrogate escape that is no half of an adjacent pair |
| JsonGrammar.ReadValueOf | internal/contracts/canonical/canonical.go:114-171 | reading inverts writing for every concrete syntax tree of RFC 8259 |
| JsonGrammar.ReadValueExact | internal/contracts/canonical/canonical.go:114-171 | whatever is read was written by a well-formed tree |
| JsonMeaning.ReadTextIffSpells | internal/contracts/codegen/client_templates.py:76-149 | a text is read as a tree iff it is blanks, the tree and blanks |
| JsonMeaning.CanonMeans | internal/contracts/canonical/canonical.go:173-260 | the syntax tree of a canonical text is clean, has distinct names and means the value |
| Unicode.Decode8Exact | internal/contracts/canonical/canonical.go:32-33 | bytes decode as UTF-8 only if they are the encoding of the text |
| Unicode.Decode8Inverts | internal/contracts/canonical/canonical.go:32-33 | the encoding of any text decodes to it |
| TsCanonical.StrictParse | internal/contracts/codegen/client_templates.py:76-149 | the offset-driven parser returns the meaning of the text, or refuses exactly the texts without one |
| TsCanonical.StrictParser.ParseValue | internal/contracts/codegen/client_templates.py:99-144 | the recursive parser reads one value at the offset and leaves the offset behind it |
| TsCanonical.StrictParser.ParseString | internal/contracts/codegen/client_templates.py:79-98 | finding the closing quote and parsing the slice reads exactly one string literal |
| TsCanonical.RejectLoneSurrogates | internal/contracts/codegen/client_templates.py:40-51 | the loop over code units accepts exactly the well-formed UTF-16 |
| Unicode.WellFormedIff | internal/contracts/codegen/client_templates.py:40-51 | the well-formed code units are exactly the encodings of texts |
| TsCanonical.CanonicalValueIsPrint | internal/contracts/codegen/client_templates.py:53-74 | the client's recursive printer gives the canonical text |
| TsCanonical.CanonicalizeJson | internal/contracts/codegen/client_templates.py:151-154 | parser and printer of the client give the canonical text of the meaning, or refuse |
| Base64.AcceptsImage | internal/contracts/canonical/signature.go:31-33 | both base64 checks accept exactly the image of the encoder, and decoding inverts it there |
| Base64.TwinsAgree | internal/contracts/codegen/client_templates.py:160-165 | pattern plus strict decoding and pattern plus re-encoding are the same function |
| Base64.EncodeAccepted | internal/contracts/canonical/signature.go:223-229 | every encoding matches the pattern and decodes, strictly or not, to the bytes |
| Base64.StrictExact | internal/contracts/canonical/signature.go:226-229 | what the strict decoder accepts is the encoding of what it returns |
| TextLaws.AlphabetIs | internal/contracts/canonical/signature.go:31-33 | a sextet is written as the character at its place in the alphabet of RFC 4648 |
| TextLaws.MatchesIff | internal/contracts/canonical/signature.go:31-33 | the pattern matches groups of four characters of the alphabet, and after them at most one padded group |
| EcdsaDer.EcdsaDERToRaw | internal/contracts/codegen/client_templates.py:178-221 | a byte string is accepted iff it is the DER encoding of r and s with 1 <= r, s < 2^256, and the result is their 32-byte big-endian forms |
| EcdsaDer.DerReader.ReadLength | internal/contracts/codegen/client_templates.py:180-191 | a length is read iff its minimal encoding stands at the offset within the limit |
| EcdsaDer.DerReader.ReadInteger | internal/contracts/codegen/client_templates.py:198-215 | an integer is read iff the encoding of a number in range stands at the offset |
| EcdsaDer.PadInteger | internal/contracts/codegen/client_templates.py:205-214 | contents octets are accepted iff they are the minimal ones of a number in range, which is padded to 32 bytes |
| EcdsaDer.ReaderInjective | internal/contracts/codegen/client_templates.py:217-220 | signatures that are read as the same octets are the same signature |
| EcdsaDer.NoLongForm | internal/contracts/codegen/client_templates.py:180-196 | an accepted signature has 8 to 72 bytes and a one-octet length, so the long form is never accepted overall |
| EcdsaDer.RangeIsTwoTo256 | internal/contracts/codegen/client_templates.py:211-211 | 32 bytes hold exactly the numbers below 2^256 |
| TypedDigest.PreimageSplits | internal/contracts/canonical/canonical.go:58-74 | the digest preimage splits in one way into object type, schema version and payload |
| TypedDigest.DigestBinds | internal/contracts/canonical/canonical.go:58-82 | equal digests have the same type, version and payload value, unless the hash collides on exactly these two preimages |
| TypedDigest.TypedDigestHex | internal/contracts/canonical/canonical.go:76-82 | the hexadecimal digest of the canonical payload under a valid domain, or a refusal |
| TypedDigest.DomainChars | internal/contracts/canonical/canonical.go:84-112 | valid tokens and versions bring neither a colon into the type nor a zero byte into the domain |
| TypedDigest.HexInjective | internal/contracts/canonical/canonical.go:76-82 | hexadecimal digests are equal only for equal bytes |
| TypedDigest.HexDigits | internal/contracts/canonical/identity.go:496-499 | every digest passes the lowercase hexadecimal check |
| HexLaws.HexSpells | internal/contracts/canonical/canonical.go:77-83 | the digits spell the bytes in their order, the high half of each first, in lowercase |
| HexLaws.Sha256HexIff | internal/contracts/canonical/identity.go:157-179 | the hexadecimal check takes exactly the forms of 32 bytes |
| HexLaws.DomainTokenIff | internal/contracts/canonical/canonical.go:85-95 | a domain token has 1 to 96 letters, digits, underscores and hyphens |
| HexLaws.SchemaVersionIff | internal/contracts/canonical/canonical.go:97-112 | a schema version is three canonical decimal numbers between dots |
| ContentIdentity.VerifyContentIdentity | internal/contracts/canonical/identity.go:94-181 | a document is accepted iff it is an object whose own recipe is well formed and whose digest fields all hold the recomputed digest |
| IdentityLaws.AcceptsIff | internal/contracts/canonical/identity.go:94-181 | accepted are exactly the objects whose recipe says, in JSON, its type, version, id field and the fixed encoders and excludes itself, the id and the digests, and whose digest fields all hold the hash of the domain, a zero byte and the canonical text of the other members |
| ContentIdentity.VerifyObject | internal/contracts/canonical/identity.go:108-180 | the checks on the recipe and on the digests of one object, through the loops over sets and maps |
| ContentIdentity.PayloadBytes | internal/contracts/canonical/identity.go:148-160 | however the projection is marshalled, its canonical bytes are those of the payload |
| ContentIdentity.CollectExcluded | internal/contracts/canonical/identity.go:117-126 | the exclusion loop accepts exactly distinct, non-empty names and collects them |
| ContentIdentity.CheckEquivalent | internal/contracts/canonical/identity.go:136-148 | the equivalent-digest loop accepts exactly distinct, non-empty, excluded names |
| ContentIdentity.ProjectFields | internal/contracts/canonical/identity.go:149-154 | in any order of iteration the projection keeps exactly the members that are not excluded |
| ContentIdentity.CheckDigests | internal/contracts/canonical/identity.go:167-179 | the final loop accepts iff every digest field is there and is the digest |
| ContentIdentity.Artifact.ContentIdentity | internal/contracts/codegen/application_api_contracts.py:3110-3162 | the maker leaves exactly the digest fields and the recipe changed, with the digest of Python's text of the other members |
| ContentIdentity.MadeAcceptedIff | internal/contracts/codegen/application_api_contracts.py:3110-3162 | what the maker builds is accepted iff its field names are distinct and not empty, its domain is valid, and no object of the payload has two names that code points and UTF-16 units order differently, or it has and the hash collides on the two texts |
| ContentIdentity.SamePreimageIff | internal/contracts/codegen/application_api_contracts.py:3118-3145 | maker and verifier hash the same bytes iff the two orders agree on the payload |
| ContentIdentity.MadeIsAccepted | internal/contracts/codegen/application_api_contracts.py:3118-3125 | where the two orders agree on the payload, names and domain alone decide |
| ContentIdentity.MadeDocumentIff | internal/contracts/canonical/identity.go:94-181 | the verifier accepts the bytes of any document whose object the maker built iff that condition holds |
| ContentIdentity.MadeMarshalled | internal/contracts/canonical/identity.go:94-100 | whatever a made object of settled values is marshalled as is such a document |
| ContentIdentity.MadeTwice | internal/contracts/codegen/application_api_contracts.py:3127-3162 | making again what was made changes nothing |
| ContentIdentity.AcceptedIsFixed | internal/contracts/canonical/identity.go:157-179 | recomputing the digests of an accepted object leaves it unchanged |
| ContentIdentity.SameIdSamePayload | internal/contracts/canonical/identity.go:94-181 | accepted objects with one id have the same type, version and projected payload, whatever their recipes, unless the hash collides on their two preimages |
| ContentIdentity.RecipeDecodes | internal/contracts/canonical/identity.go:17-27 | the recipe that the maker writes is the one the verifier reads |
| ContentIdentity.CheckSortKeys | internal/contracts/canonical/identity.go:219-232 | comparing each key with the previous one only accepts exactly non-empty keys that ascend strictly over all pairs |
| StringOrder.ByteOrder | internal/contracts/canonical/identity.go:219-232 | code-point order of two strings is the byte-wise order of their UTF-8, which is what Go compares |
| PythonJson.DumpIsCanonicalIff | internal/contracts/codegen/application_api_contracts.py:3118-3142 | sorted compact json.dumps is the canonical text iff no object of the value has two names that the two orders put differently |
| PythonJson.BasicOrdersAgree | internal/contracts/codegen/application_api_contracts.py:3137-3142 | they agree on names without supplementary characters |
| PythonJson.DumpDiffers | internal/contracts/codegen/application_api_contracts.py:3137-3142 | an object with the names U+FF61 and U+10000 is dumped to a text that is not canonical |
| KeyRegistry.ValidateRegistry | internal/contracts/canonical/signature.go:323-437 | a registry is accepted iff header, keys and links pass the local checks and no supersession chain comes around |
| SignatureLaws.RegistryIff | internal/contracts/canonical/signature.go:323-437 | accepted are exactly the registries with a good header and good keys of distinct kids, each superseding at most a superseded one of its algorithm, where no row of superseding keys comes around |
| SignatureLaws.KeyIff | internal/contracts/canonical/signature.go:351-398 | a key is good iff it has a kid, a validity in order, a standing with its dates, and a P-256 point or at least 2048 RSA bits for its algorithm |
| HexLaws.Hash32Iff | internal/contracts/canonical/signature.go:327-331 | a registry hash is 32 bytes in hexadecimal, in either case |
| KeyRegistry.VisitAll | internal/contracts/canonical/signature.go:410-437 | for every iteration order of the map the recursive visits end, and succeed iff the supersession relation is acyclic |
| KeyRegistry.Visitor.Visit | internal/contracts/canonical/signature.go:412-432 | a successful visit leaves the path as it was and the kid visited with only terminating chains; a failed one is due to a cycle |
| KeyRegistry.WalkAll | internal/contracts/codegen/client_templates.py:498-509 | the pointer walk with its path and visited sets succeeds iff the supersession relation is acyclic |
| KeyRegistry.WalkUp | internal/contracts/codegen/client_templates.py:500-507 | one walk fails only at a cycle, and otherwise walks only over kids whose chains end |
| KeyRegistry.TwinsAgree | internal/contracts/codegen/client_templates.py:498-509 | the two runtimes give one verdict |
| KeyRegistry.ParentByKid | internal/contracts/codegen/client_templates.py:491-496 | the map that the client fills is the supersession relation |
| KeyRegistry.CheckKeys | internal/contracts/canonical/signature.go:351-398 | the first loop accepts iff every key is valid on its own and no kid occurs twice |
| KeyRegistry.CheckLinks | internal/contracts/canonical/signature.go:399-409 | the second loop accepts iff every link leads to another, superseded key of the same algorithm |
| KeyRegistry.TerminatesUp | internal/contracts/canonical/signature.go:413-432 | a kid whose superseded kid has only ending chains has only ending chains |
| KeyRegistry.AncestorsSuperseded | internal/contracts/canonical/signature.go:399-437 | in an accepted registry every proper ancestor of a key is another key, superseded, and of its algorithm |
| KeyRegistry.ChainsAreShort | internal/contracts/canonical/signature.go:399-437 | in an accepted registry no chain is longer than the number of keys |
| SignatureLaws.SignedVerifiesIff | internal/contracts/canonical/signature.go:67-248 | under every valid registry that holds the signer's active key, a signed envelope is accepted under an expectation iff it is that of the claims, at a timely moment |
| DetachedSignature.SignedVerifies | internal/contracts/canonical/signature.go:67-248 | with an expectation of the same claims it is accepted exactly at the timely moments |
| SignatureLaws.AcceptedIff | internal/contracts/canonical/signature.go:144-248 | accepted are exactly the envelopes of version 1.0.0 that say what is expected, are bound to this registry by id and hash, to the payload by its typed digest and to their claims by their id, and are signed, in base64, by the eligible key at moments in order |
| SignatureLaws.AcceptedExpectation | internal/contracts/canonical/signature.go:167-175 | an accepted envelope says what its verifier expects, so any other expectation is refused as replay |
| SignatureLaws.ClaimsNamed | internal/contracts/canonical/signature.go:250-256 | under each of the 17 JSON names of the claims stands the field of that name |
| SignatureLaws.KeyNamed | internal/contracts/canonical/signature.go:258-269 | under each of the 12 JSON names of a key stands the field of that name |
| SignatureLaws.RegistryNamed | internal/contracts/canonical/signature.go:258-269 | under each of the 8 JSON names of the registry stands the field of that name, the keys in their order |
| DetachedSignature.AcceptedTimes | internal/contracts/canonical/signature.go:190-214 | an envelope that is accepted once is accepted exactly from the latest start to the earliest end, except at Go's zero time |
| DetachedSignature.OneIntervalIff | internal/contracts/canonical/signature.go:194-197 | so the accepted times are one closed interval iff the zero time is not strictly inside |
| DetachedSignature.SignedGap | internal/contracts/canonical/signature.go:194-197 | wherever parsed times lie on both sides of the zero time, a signer who never fails makes an envelope that is accepted before and after the zero time but not at it |
| DetachedSignature.GapExists | internal/contracts/canonical/signature.go:194-197 | a library, a one-key registry, an envelope and an expectation for which this happens |
| DetachedSignature.RevocationNeverFires | internal/contracts/canonical/signature.go:283-321 | in a valid registry the lookup never fails as revoked |
| SignatureLaws.RevokedIsRefused | internal/contracts/canonical/signature.go:307-312 | in any registry, a key with revocation data is found only before the moment of its revocation |
| DetachedSignature.VerdictIff | internal/contracts/canonical/signature.go:283-321 | in a valid registry the lookup succeeds iff the one key with the kid is active, fits, and both times lie in its validity |
| DetachedSignature.FindEligibleKey | internal/contracts/canonical/signature.go:283-321 | the loop returns the verdict on the first key with the kid, or that there is none |
| DetachedSignature.VerifyDetached | internal/contracts/canonical/signature.go:144-248 | the verifier accepts iff registry, expectation, binding, digest, times, key, envelope id, encoding and signature all hold |
| DetachedSignature.SignedEnvelope | internal/contracts/canonical/signature.go:67-140 | a signed envelope carries the given claims, the payload digest, the derived id, and a signature of the claims' hash |
| SignatureLaws.SignDetachedIff | internal/contracts/canonical/signature.go:67-140 | signing goes through iff the version is 1.0.0, the times parse in order, type and payload are valid, and a signer with a matching key signs the hash of the canonical claims |
| DetachedSignature.EnvelopeIdBindsClaims | internal/contracts/canonical/signature.go:215-222 | claims with one envelope id are the same claims, unless the hash collides on these two preimages |
| DetachedSignature.AcceptedPayload | internal/contracts/canonical/signature.go:180-189 | an envelope accepted for two payloads has them stand for one value, or the hash collides on them |
| DetachedSignature.ClaimsValueInjective | internal/contracts/canonical/signature.go:250-256 | different claims are marshalled as different values |
| DetachedSignature.ClaimsBytesCanonical | internal/contracts/canonical/signature.go:250-256 | however the claims are marshalled, the hashed bytes are the canonical ones of the claims |
| DetachedSignature.RegistryHashIs | internal/contracts/canonical/signature.go:258-269 | however the registry is marshalled, its digest is the hash of its canonical text |
| ImportBoundary.ShortestPaths | scripts/architecture/architecture_check.py:1225-1238 | an entry for exactly the nodes other than the start that it reaches, and each path is the lexicographically least of the shortest |
| ImportBoundary.BoundaryViolations | scripts/architecture/architecture_check.py:1241-1280 | a rule, source and target are reported once, iff the rule matches both and a chain of imports leads from one to the other; every report is witnessed, and they are listed by rule name, source and target |
| ImportBoundary.SortKeeps | scripts/architecture/architecture_check.py:1277-1280 | the stable sort by rule name, source, target and path keeps the reports and orders them strictly |
| ImportBoundary.ListedOrder | scripts/architecture/architecture_check.py:1277-1280 | of two different reports exactly one is listed first |
| ImportBoundary.CycleUnreported | scripts/architecture/architecture_check.py:1225-1254 | two packages that import each other under a rule that matches both as source and target: each reaches itself, and that is not reported |
| ImportBoundary.MakeViolation | scripts/architecture/architecture_check.py:1256-1279 | the reported path is the least shortest chain and every edge of it is backed by the first recorded import site |
| ImportBoundary.BuildGraph | scripts/architecture/architecture_check.py:1242-1247 | the graph has exactly the recorded edges, and each edge keeps its first site |
| ImportBoundary.RuleViolations | scripts/architecture/architecture_check.py:1250-1253 | one rule over all matching sources |
| ImportBoundary.ReachesByChain | scripts/architecture/architecture_check.py:1225-1238 | reaching in the graph is the existence of a chain of import sites |
| ImportBoundary.LexTransitive | scripts/architecture/architecture_check.py:1230-1230 | the order on paths is transitive |
| ExtendsWalk.CheckConfigs | scripts/architecture/architecture_check.py:962-1098 | a cycle is recorded iff the entries that stand in the extends fields reachable from the roots lead around; the validated configs are exactly the reachable ones, each body was processed once, and the other findings are exactly those of the reachable configs |
| ExtendsWalk.FollowedIff | scripts/architecture/architecture_check.py:977-988 | the loop goes through all entries of a string or an array of strings, and through nothing else |
| ExtendsWalk.Checker.Validate | scripts/architecture/architecture_check.py:962-1090 | the recursion ends with the active set as it was and the config validated, or active with a cycle recorded |
| ExtendsWalk.Checker.ValidateParents | scripts/architecture/architecture_check.py:977-999 | every entry is followed or reported |
| ExtendsWalk.Checker.Open | scripts/architecture/architecture_check.py:969-970 | the active set is the current path of the walk and shares nothing with the validated set; a config is opened once |
| ExtendsWalk.Checker.Close | scripts/architecture/architecture_check.py:1089-1090 | a finished config leaves the path and is validated with all its findings |
| ExtendsWalk.FinishedDescends | scripts/architecture/architecture_check.py:962-1090 | walks from a finished config only go to configs that finished earlier, so they never come around |
| ExtendsWalk.ComesAround | scripts/architecture/architecture_check.py:966-968 | meeting an active config is a cycle from a root |
| JsoncComments.StripComments | scripts/architecture/architecture_check.py:829-872 | the scanner with its two flags and inner loops computes the stripped text |
| CommentLaws.StripLine | scripts/architecture/architecture_check.py:855-860 | a line comment is blanked up to the end of its line, and what follows is stripped on its own |
| CommentLaws.StripBlock | scripts/architecture/architecture_check.py:861-870 | a block comment is blanked, line ends apart, up to its first end, and what follows is stripped on its own |
| CommentLaws.StripOpenBlock | scripts/architecture/architecture_check.py:861-870 | a block comment that is never closed is blanked to the end of the text |
| CommentLaws.StripQuoted | scripts/architecture/architecture_check.py:838-854 | a string literal stays as it is, whatever looks like a comment in it |
| CommentLaws.StripPlain | scripts/architecture/architecture_check.py:871-872 | so does any other character that starts no comment |
| JsoncComments.StripBlanks | scripts/architecture/architecture_check.py:829-872 | every character stays at its place or becomes a blank, and line ends always stay |
| JsoncComments.StripTwice | scripts/architecture/architecture_check.py:829-872 | nothing is left to strip: stripping again changes nothing |
| JsoncComments.JsonUnchanged | scripts/architecture/architecture_check.py:829-872 | a text that is JSON already is left as it is |
| PacketGraph.TopologicalOrder | scripts/packets/packet_contract.py:242-262 | the loop yields the greedy order, complete iff there is no cycle; otherwise the reported nodes are those on or downstream of one |
| PacketGraph.GreedyIsLeast | scripts/packets/packet_contract.py:249-258 | the greedy order is the lexicographically least of the topological orders by declaration |
| PacketGraph.CountDependencies | scripts/packets/packet_contract.py:242-247 | the counts and consumer lists are those of the declared dependencies |
| PacketGraph.Release | scripts/packets/packet_contract.py:254-258 | releasing a node lowers exactly its consumers' counts and keeps the ready list sorted and complete |
| PacketGraph.OrderedNotBlocked | scripts/packets/packet_contract.py:249-262 | a node that was ordered is not downstream of a cycle |
| PacketGraph.RemainingWaits | scripts/packets/packet_contract.py:259-261 | a node that was not ordered waits for another that was not |
| PacketExpansion.ExpandDependencies | scripts/packets/packet_contract.py:149-175 | expressions expand to the concatenation of their ids, iff none is malformed, no id is unknown and none comes twice |
| PacketExpansion.AddAll | scripts/packets/packet_contract.py:168-174 | the inner loop refuses exactly unknown and repeated ids |
| PacketExpansion.RangeIdsAre | scripts/packets/packet_contract.py:155-161 | a range holds the packets between its ends in ascending order, and nothing else |
| PacketLaws.MeaningIff | scripts/packets/packet_contract.py:153-167 | an expression is a packet from P00 to P28 or a join, which stands for itself, or a range between two packets in order, which stands for those between them |
| PacketExpansion.BuildGraph | scripts/packets/packet_contract.py:211-234 | the graph of the resolved dependencies, iff every node has its kind, owner and lifecycle and passes the checks of its two lists |
| PacketExpansion.ValidateGraph | scripts/packets/packet_contract.py:188-262 | the least of all orders of the ids with each after all it requires, compared by declaration; refused are repeated, missing and extra ids, nodes and joins that fail a check, and requirements that come around |
| PacketLaws.FirstOrderOnly | scripts/packets/packet_contract.py:242-262 | there is only one such least order |
| PacketLaws.DocumentIff | scripts/packets/packet_contract.py:188-240 | a document passes the checks before the ordering iff its ids are P00 to P28, J13 and J19, each once, and every node has its header and two lists that stand for different expected ids, none its own, where the joins start with exactly their packets |
| PacketLaws.FlattenIff | scripts/packets/packet_contract.py:149-175 | a list of expressions stands for the ids of its expressions, one after the other |
| PacketLaws.HeaderIff | scripts/packets/packet_contract.py:211-223 | a packet belongs to itself, J13 to P13 and J19 to P19, and the lifecycle is one of the three |
| PacketLaws.ExpectedIff | scripts/packets/packet_contract.py:36-36 | the nodes are P00 to P28, J13 and J19 |
| PacketLaws.JoinPackets | scripts/packets/packet_contract.py:236-240 | the joins start with P13 to P18 and P26, and with P19 and P20 |
| PacketExpansion.CheckJoin | scripts/packets/packet_contract.py:236-240 | a join passes iff it starts with exactly the listed packets, in order |
| PacketExpansion.AlwaysKnown | scripts/packets/packet_contract.py:168-170 | on the fixed node set no well-formed expression is refused as unknown |
| DependencyApply.AppliedIsSealed | scripts/dependency-locks/dependency_locks.py:2282-2391 | at every moment of every run with stops, power losses and edits, a request that reads applied has a complete durable receipt that binds exactly its bytes |
| DependencyApply.OneFlip | scripts/dependency-locks/dependency_locks.py:2282-2387 | no run has two status flips of one request, by whatever processes |
| ApplyLaws.FlipsAreAudited | scripts/dependency-locks/dependency_locks.py:2282-2391 | at every flip of every run the process was asked for the bytes on disk and the request it writes, which is accepted; HEAD is the child of the base and changes only that request and declared root locks, at least one and none deleted; the worktree is HEAD's but for the receipt, which is complete, durable and names the bytes before and after |
| ApplyLaws.ChangesIff | scripts/dependency-locks/dependency_locks.py:2311-2328 | the check of the changed paths is, file by file: no receipt and no other request differs, the request differs, and the root locks that differ are some, declared and not deleted |
| ApplyLaws.CleanIff | scripts/dependency-locks/dependency_locks.py:2226-2231 | the check of the worktree status is, file by file: requests and root locks are those of HEAD, and exactly the given receipts are not |
| ApplyLaws.CasIff | scripts/dependency-locks/dependency_locks.py:2211-2257 | the comparison before the journal and after it covers HEAD, the worktree, and the request on disk and in the commit |
| ApplyLaws.GuardsIff | scripts/dependency-locks/dependency_locks.py:2282-2385 | each of the three steps under the lock is taken iff its checks of the files pass |
| ApplyLaws.LifecycleFails | scripts/dependency-locks/dependency_locks.py:742-770 | the lifecycle check fails iff an applied request lacks its receipt or another one has it |
| DependencyApply.FlipKeepsRequest | scripts/dependency-locks/dependency_locks.py:2066-2071 | a flip writes the request on disk with its status flipped, unless it was edited between the second load and the digest or the hash collides on the two |
| InterruptedApply.FlipIff | scripts/dependency-locks/dependency_locks.py:2282-2391 | of an accepted request with a receipt: some run without power losses and edits of it flips it iff some process at work on it passes the guards still ahead of it, on its arguments, the request, the receipts, HEAD, its parent and the worktree; with others editing and committing beside it or not |
| InterruptedApply.NeverNewly | scripts/dependency-locks/dependency_locks.py:2282-2391 | no step makes a process able to flip such a request that could not before |
| InterruptedApply.AlwaysAdvances | scripts/dependency-locks/dependency_locks.py:2282-2391 | a process that can flip always has a next step that is the flip or brings it nearer: its own, the stop of the holder of the lock, or, where others work, an edit or commit that mends the candidate |
| InterruptedApply.OnlyItsMaker | scripts/dependency-locks/dependency_locks.py:2297-2331 | where a receipt on disk is not in the base commit of a process, the process can flip nothing, unless it is the holder of the lock that is writing this receipt |
| InterruptedApply.CrashSticks | scripts/dependency-locks/dependency_locks.py:2337-2385 | an accepted request that a crashed apply leaves with its receipt is stuck for every process then at work |
| InterruptedApply.CrashIsFinal | scripts/dependency-locks/dependency_locks.py:742-770 | and it stays accepted as it is in every run, until somebody edits it or a later power loss takes the receipt |
| InterruptedApply.StuckIff | scripts/dependency-locks/dependency_locks.py:742-770 | the request is stuck iff no such run exists |
| InterruptedApply.StuckStays | scripts/dependency-locks/dependency_locks.py:742-770 | no step of a process, no commit and no edit of other files leaves a stuck request, nor does a power loss once it is on disk |
| InterruptedApply.StuckForever | scripts/dependency-locks/dependency_locks.py:742-770 | so it stays accepted as it is in every run in which nobody edits it |
| InterruptedApply.StuckFails | scripts/dependency-locks/dependency_locks.py:2204-2258 | no process parses a stuck request, and none on the file passes a check under the lock |
| InterruptedApply.StaleParseEscapes | scripts/dependency-locks/dependency_locks.py:2285-2290 | a run in which the request is edited between the second load and the digest: the process digests one request, applies the other, and leaves an accepted request whose receipt was committed before |
| InterruptedApply.UncheckedLoadIsApplied | scripts/dependency-locks/dependency_locks.py:1123-1130 | a run in which the request is edited between the two loads: the first is checked against the schema, the second is applied |
| DependencyApply.StepKeeps | scripts/dependency-locks/dependency_locks.py:2282-2391 | every step keeps the invariant that ties locks, journals, flips, seals, the candidate commit and the worktree together |
| DependencyApply.BasedKeeps | scripts/dependency-locks/dependency_locks.py:2205-2209 | no base commit of a process at work ever has a receipt that is still to be made |
| DependencyApply.ReplaceKeeps | scripts/dependency-locks/dependency_locks.py:2164-2201 | the atomic replacement keeps every applied request sealed |
| DependencyApply.WriteKeeps | scripts/dependency-locks/dependency_locks.py:2122-2145 | writing and syncing the receipt in parts keeps the invariant |
| DependencyApply.PowerLossKeeps | scripts/dependency-locks/dependency_locks.py:2122-2201 | losing unsynced contents and entries keeps the invariant |
| ApplyProgram.Repository.ApplyRequest | scripts/dependency-locks/dependency_locks.py:2282-2391 | undisturbed, an apply goes through iff the request is valid at its path, accepted, without receipt and named by its digest and id, the clean HEAD is a child of the base that changes it and declared root locks only, and branch and validations are in order; then both writes are durable and nothing else changed |
| ApplyProgram.Repository.WriteExclusive | scripts/dependency-locks/dependency_locks.py:2122-2145 | the receipt is created, written and made durable |
| ApplyProgram.Repository.AtomicReplace | scripts/dependency-locks/dependency_locks.py:2164-2201 | the request is flipped and that is made durable |
| ApplyProgram.Repository.Admit | scripts/dependency-locks/dependency_locks.py:2286-2332 | the digest, the arguments, the commit and worktree checks under the lock, and branch and validations decide whether the process goes on |
| ApplyProgram.Repository.Seal | scripts/dependency-locks/dependency_locks.py:2211-2257 | the two comparisons of HEAD, worktree, request and receipt around the journal let a checked candidate through |
| ConnectStream.DecodeInverts | internal/contracts/cell/v1/cell.connect.gen.go:328-353 | reading the concatenation of any envelopes within the 2 MiB limit returns them |
| ConnectStream.DecodeExact | internal/contracts/cell/v1/cell.connect.gen.go:339-353 | only concatenations of envelopes within the limit are read to their end |
| ConnectStream.EncodeConnectEnvelope | internal/contracts/cell/v1/cell.connect.gen.go:328-337 | the byte array holds flags, big-endian length and payload, iff the payload is within the limit |
| ConnectStream.Body.ReadConnectEnvelope | internal/contracts/cell/v1/cell.connect.gen.go:339-353 | prefix and payload are read, or the fault of the short or oversized read is returned |
| ConnectStream.MessagesThenEof | internal/contracts/cell/v1/cell.connect.gen.go:455-507 | on n data envelopes and an end without error, the calls return the n messages in order and then the end of file forever |
| ConnectStream.EofIff | internal/contracts/cell/v1/cell.connect.gen.go:478-501 | the call after the last message reports the end iff nothing follows an end without error |
| ConnectLaws.TruncatedStream | internal/contracts/cell/v1/cell.connect.gen.go:455-507 | on n data envelopes and then nothing or part of another envelope, the calls return the n messages and then the unexpected end |
| ConnectLaws.MissingEnd | internal/contracts/cell/v1/cell.connect.gen.go:461-468 | with nothing behind the data envelopes the next call fails with the unexpected end |
| ConnectLaws.EofNeedsEnd | internal/contracts/cell/v1/cell.connect.gen.go:455-507 | no call reports the end of file in whatever form unless it or one before it read an end envelope |
| ConnectLaws.AtEofIff | internal/contracts/cell/v1/cell.connect.gen.go:478-501 | a call reports the end iff the body is an end envelope without error |
| ConnectLaws.MessageIff | internal/contracts/cell/v1/cell.connect.gen.go:502-506 | a call returns a message iff a data envelope of it comes next |
| ConnectLaws.FlagsDecide | internal/contracts/cell/v1/cell.connect.gen.go:469-501 | odd flags, other unknown flags, an unreadable end, bytes behind the end and an unreadable message have their own faults |
| ConnectLaws.TooLongRefused | internal/contracts/cell/v1/cell.connect.gen.go:344-348 | a declared length beyond 2 MiB is refused before the payload is read |
| ConnectLaws.CutEnvelope | internal/contracts/cell/v1/cell.connect.gen.go:339-353 | a read that gets no byte reports the end of file, and one that gets some an unexpected end |
| ConnectLaws.ReadResponses | internal/contracts/cell/v1/cell.connect.gen.go:405-434 | only a response of status 200 and of the stream type is read |
| ConnectLaws.MergeKeeps | internal/contracts/cell/v1/cell.connect.gen.go:132-141 | merged trailers keep every name, with the values of the HTTP trailer first |
| ConnectStream.EndReached | internal/contracts/cell/v1/cell.connect.gen.go:478-501 | that call's result and what it leaves, for any bytes behind the end envelope |
| ConnectStream.ErrorIsNotLatched | internal/contracts/cell/v1/cell.connect.gen.go:485-488 | after the error for a trailing byte the next call reads on behind it and can return a message |
| ConnectStream.ReceiveMany | internal/contracts/cell/v1/cell.connect.gen.go:455-507 | n calls on the stream object return the n results of the pure transition |
| ConnectStream.Stream.Receive | internal/contracts/cell/v1/cell.connect.gen.go:455-507 | one call returns what the unread body gives, latches the end, merges the trailers and closes the request |
| ConnectStream.Stream.Send | internal/contracts/cell/v1/cell.connect.gen.go:359-383 | an accepted message extends what was sent by its envelope; after the request was closed every message is refused |
| ConnectStream.Stream.CloseRequest | internal/contracts/cell/v1/cell.connect.gen.go:385-403 | the request is closed, and the pipe with it, the first time only |
| ConnectStream.Stream.AwaitResponse | internal/contracts/cell/v1/cell.connect.gen.go:405-434 | the transport's result is taken once; a failure closes the request and stays |
| ConnectStream.Stream.ServerReadsSent | internal/contracts/cell/v1/cell.connect.gen.go:359-383 | as long as the reader stays, it reads exactly the sent messages in their order |
| PathTemplate.OrderFreeIffFlat | internal/contracts/api/openapi.gen.go:302-305 | for brace-free names the rendered path is the same in every iteration order of the map, for all parameters, iff the template has no loose opening brace before a loose closing one |
| PathTemplate.RenderPath | internal/contracts/api/openapi.gen.go:302-308 | on such a template the loop yields the template with all supplied placeholders filled, and the brace check fails iff a placeholder was not supplied or a brace belongs to none |
| PathTemplate.ReplaceIsSubst | internal/contracts/api/openapi.gen.go:304-304 | on every string, replacing a brace-free name is substituting the placeholders of that name |
| PathTemplate.EscapedBraceFree | internal/contracts/api/openapi.gen.go:304-304 | an escaped value has no braces |
| TextLaws.PathEscapeIs | internal/contracts/api/openapi.gen.go:304-304 | exactly the bytes outside the kept set are escaped, so no separator of a URL is left |
| TextLaws.UnescapeInverts | internal/contracts/api/openapi.gen.go:304-304 | an escaped value is read back to its bytes |
| PathTemplate.TrapSprings | internal/contracts/api/openapi.gen.go:302-305 | any other template has parameters and two orders with different results |
| PathTemplate.NestedTemplateDepends | internal/contracts/api/openapi.gen.go:302-305 | for example the template with a placeholder within braces |
| PathTemplate.ParseInverts | internal/contracts/api/openapi.gen.go:302-305 | the parts of a flat template are what its text parses to, so values never form new placeholders |

## Left out

- Floating point inside `strconv.ParseFloat`, `FormatFloat` and `Number`: only the layout of given shortest digits is modelled.
- Go's limits and leniencies in `encoding/json`: the nesting limit of the decoder, case-insensitive field names, and replacement of invalid UTF-8; fields are matched exactly.
- JavaScript strings with lone surrogates as parser input: the texts of the twin theorem are sequences of scalars; lone surrogates occur in them as escapes.
- ContentIdentity.Artifact.ContentIdentity: numbers are written in the ECMAScript layout and not as Python's repr, as the maker's docstring restricts its payloads to values on which the two agree.
- Base64 decoding of texts with line breaks: the patterns refuse them before any decoder runs.
- Elliptic-curve and RSA arithmetic, SHA-256, PEM, X.509 and the calendar: functions with the laws above.
- The TypeScript twins of the registry checks, of content identity and of detached verification: they differ from Go on inputs that the schemas exclude, so only the supersession walk and base64 are compared.
- The shape checks of the catalog, its binding, response and association: lists of independent guards; only the ordering loop is modelled.
- ImportBoundary.BoundaryViolations: a violation names its rule by position, and its explanation, first line and `direct` flag, which follow from rule and path, are not repeated.
- The lexers for Go and JavaScript imports and the stripper of trailing commas: heuristics without a specification to refine to.
- ExtendsWalk.Checker.ValidateOther: the fields of a config other than `extends` are a list of findings, as they touch neither colour.
- Resolution of paths and symbolic links in the `extends` walk: an entry is given with what it resolves to, and resolved paths are the nodes.
- PacketExpansion.ValidateGraph: the two header fields of the document and the types of JSON values are not modelled, nor which message a refusal has; in a range `\d` is an ASCII digit.
- PacketGraph.TopologicalOrder: reports the nodes of a cycle as a set, without the alphabetical order of the message.
- ApplyProgram.Repository.ApplyRequest: whether HEAD is on the main branch and the validations pass is one answer, `others`; the receipt's other fields are one text.
- ApplyProgram.Repository.Admit: the same answer `others` stands for those checks.
- The temporary file of the atomic replacement, and races with processes that hold no lock while another does.
- The two nested locks of the apply protocol are one lock, as cooperating processes take both.
- ConnectStream.Stream.CloseRequest: the error that closing a pipe returns is always nil and is not kept; closing with a cause is the same step.
- Transport errors in the middle of a response body, concurrent calls on one stream (each method holds its mutex), cancellation and `CloseResponse`.
- The rest of `Client.Do`: independent guards and HTTP calls.
- Secret redaction, documentation checks, schema tables, downloads and archives: guards and plumbing.
