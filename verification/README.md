# Verification of the conformance cores

A Dafny 4.11 model of the algorithmic parts of the conformance packages: the
transparency-log verifier, the canonical JSON encoder with the acceptors built
on it, the closed-cycle machine and the re-classifier of its traces, positions
18 to 28 of the recursive singleton fold, and the independent-grounding
evaluator with its oracle commitment. `dafny verify dfyconfig.toml` checks all
of it.

Loops and mutable state of the source are methods proved against a
specification; recursive and expression code is functions, with the promised
properties as lemmas about them.

## How the files fit together

- `Common.dfy`: options, results, octets, JavaScript strings and numbers, hash functions.
- `Merkle.dfy`: the tree hash and inclusion path of RFC 9162 (sections 2.1.1 and
  2.1.3.1) from the root down, and the bottom-up verifier (section 2.1.3.2)
  proved equal to them, complete and sound.
- `Der.dfy`: definite-length encoding (sections 8.1.3 and 10.1 of X.690), its
  reader, and the reader of direct children.
- `RekorPublication.dfy`, `RekorSequence.dfy`: the index over a document bundle,
  the check of one publication, and the ordered events P0 < E0 < E1 < E2.
- `Utf16.dfy`: well-formed strings, the order of keys, UTF-8 both ways.
- `JsonValue.dfy`, `JsonEncoder.dfy`, `JsonParser.dfy`, `JsonCanonical.dfy`,
  `JsonRoundTrip.dfy`, `JsonTheorems.dfy`: values, the encoder, `JSON.parse`, and
  the encoder's round trip and canonicality. The encoder and the fold
  canonicalizer are two dialects of one function. `JsonShortest.dfy`: their
  strings are the shortest literals and their texts hold no white space.
  `JsonFailures.dfy`: what a refusal names is there.
- `HostGraph.dfy`: the traversal of a graph of host objects with its active set.
- `Acceptors.dfy`, `ObjectA.dfy`, `ObjectAContents.dfy`: byte acceptance by
  re-encoding, and what stands under each key of an accepted Object A.
- `CycleMachine.dfy`, `CycleFields.dfy`: the closed-cycle machine, its traces,
  their re-classification, and its verdicts in terms of the nodes' fields.
- `Fold.dfy`: the reconstruction and the chain of checks of the fold;
  `FoldAcceptance.dfy`, `FoldCompleteness.dfy`, `FoldKeyOrder.dfy`: what acceptance
  and rejection mean, that honest stages are accepted, and that key order never
  matters; `FoldAggregate.dfy`: the rebuilt aggregate read by its keys;
  `FoldTampering.dfy`: how a stage that is right but for one thing is reported.
- `PythonCanonical.dfy`, `PythonFold.dfy`: the generator's canonicalizer and its
  reconstruction, and exactly when they agree with the auditor's.
- `Commitment.dfy`, `Observational.dfy`, `Grounding.dfy`: the oracle commitment; the
  validator of what an authority observes; attribution sets, the screening of
  publishers and references, the case universe and the gate ladder.

## How the model reads the source

- SHA-256 is an arbitrary function from octet strings to 32 octets. Every
  soundness theorem names a function that computes a pair of different
  preimages with one hash from the arguments at hand, and says that either the
  claim holds or this pair is a collision. Nothing is assumed of the hash, so
  the theorems cover every injective hash and SHA-256 itself.
- Certificates, signatures and the hexadecimal digest of an artifact are
  arbitrary functions of their inputs.
- A JSON number is an integer, negative zero, a non-finite number, or a
  fraction, which is one of the finite binary64 bit patterns with a bit behind
  the point. How the host writes fractions and reads number tokens that are no
  safe plain integer is a parameter. Of the encoder's host it is required to
  read back every fraction it writes and to write none as an integer
  (`Faithful`), as ECMAScript does and as `FaithfulFormatExists` shows to be
  possible; nothing is required of the fold's host, which writes no fractions.
- The auditor reconstructs from clones of the facts, made by writing JSON and
  parsing it again: at every depth a non-finite number becomes null and negative
  zero becomes zero. What is rebuilt and declared is taken from the clones;
  positions 24 and 28 read the facts as given.
- For the generator JSON `-0` is the integer zero, and `==` takes the booleans
  for zero and one.
- Strings are sequences of 16-bit units. `Buffer.toString("utf8")` is the
  decoder of the WHATWG Encoding Standard with its replacement characters.
- Sorting is insertion sort; with distinct keys every sorting procedure gives
  its result (`AscendingUnique`).
- `assert false` marks the two endpoint exits of the cycle machine: no run
  takes them.
- The lists of prohibited publishers and of answer-bearing tokens, and the
  host's `toLowerCase`, are parameters of the grounding evaluator.
- The two loops of the grounding evaluator run over sets; the model leaves
  their order open and proves the report independent of it.
- The stage-input test that joins sorted keys with `|` is modelled as equality
  of key sets: the four fields must be present for the following tests, and
  then no other key leaves the joined text unchanged.

## What the proofs bring to light

- A reachable cycle is not always reported as one. The traversal reports the
  fault on the least route of child positions, so an array holding an
  unsupported value and then itself is refused as unsupported, and with the two
  swapped as cyclic (`ReachabilityIsNotEnough`). The report is cyclic exactly
  when a cycle is reachable and met before everything unsupported
  (`HostGraph.EncodeHost`).
- The two canonicalizers of the fold differ on U+2028 and U+2029, which only
  the auditor escapes, and on lone surrogates, which it escapes and the
  generator either refuses, in keys, or leaves as they are
  (`TextsAgreeExactly`).
- The fold auditor compares `profile_local_notes` and `source_entry_ref` with
  `===`, so a vector whose notes or entry id are objects or arrays is never
  accepted, not even with the reconstructed aggregate as its candidate
  (`AcceptedIsScalar`, `HonestStageAccepted`).
- Positions 18 to 28 accept declarations other than the frozen ones: the flag
  `no_stronger_semantic_class_created` must then truthfully say so, and false is
  as acceptable as true (`AcceptedFlagTellsLiterals`). The clones of all three
  must be canonicalizable, and of the declarations as given those that position
  24 looks at: each up to and including the first that is not the frozen one
  (`AcceptanceIsPossible`, `LiteralsEvaluateExactly`). So a number that
  overflows in a later declaration is accepted, and the aggregate declares null
  in its place (`OverflowIsAccepted`).
- The generator compares declarations with the literals by `==`, the auditor by
  canonical octets. With `admission_required: 1` in the class declaration the
  generator sets the flag and the auditor does not (`FlagsCanDiffer`); on facts
  that both canonicalize alike their aggregates differ in nothing else, and
  exactly then (`AggregatesDifferExactly`).
- No check compares the schema of the source entry, yet acceptance forces it,
  short of a hash collision (`AcceptedSchemaOrCollision`).
- The reason `tree_rotation` at the end of the production sequence is never
  given: a second tree is always caught by the check of a single event
  (`VerifyProductionSequence`).

## Model

| member | source | states |
|---|---|---|
| MerkleTree.NodePreimageInjective | conformance/tsei-invariant-discrimination-v0/rekor-v1-verifier.ts:844-846 | the hashed octets of a parent determine both child hashes |
| MerkleTree.Split | conformance/tsei-invariant-discrimination-v0/rekor-v1-verifier.ts:848-878 | the split point of RFC 9162: the largest power of two below the size |
| MerkleTree.PathLengthLogarithmic | conformance/tsei-invariant-discrimination-v0/rekor-v1-verifier.ts:848-878 | the path length fixed by index and size is at most the binary logarithm of the size, rounded up |
| MerkleTree.ClaimedRootShape | conformance/tsei-invariant-discrimination-v0/rekor-v1-verifier.ts:848-878 | whether a path leads to a root depends on its length alone, never on a hash value |
| MerkleTree.HonestPathYieldsRoot | conformance/tsei-invariant-discrimination-v0/rekor-v1-verifier.ts:840-878 | completeness: for every tree and index the recursive path of the leaf leads to the recursive root |
| MerkleTree.SevenLeaves | conformance/tsei-invariant-discrimination-v0/rekor-v1-verifier.ts:840-846 | the seven-leaf tree of section 2.1.5 of RFC 9162: its root with every hash written out, prefix octets and all, and the four paths given there |
| MerkleTree.PathSound | conformance/tsei-invariant-discrimination-v0/rekor-v1-verifier.ts:840-878 | soundness: a path leading to the recursive root starts at the leaf's own hash and is the recursive path, or a collision is computed |
| MerkleTree.TreeHashBinds | conformance/tsei-invariant-discrimination-v0/rekor-v1-verifier.ts:840-846 | the tree hash fixes the number of leaves and every leaf, or a collision is computed |
| InclusionVerifier.LevelUpKeepsRoot | conformance/tsei-invariant-discrimination-v0/rekor-v1-verifier.ts:856-874 | halving index and size, with or without a sibling, keeps the root that the top-down definition claims |
| InclusionVerifier.RootFromInclusion | conformance/tsei-invariant-discrimination-v0/rekor-v1-verifier.ts:848-878 | the nested shift loops terminate and return the top-down root, and null for bad indexes and wrong proof lengths |
| InclusionVerifier.AnswerShape | conformance/tsei-invariant-discrimination-v0/rekor-v1-verifier.ts:849-877 | a root is returned exactly when both arguments are integers, the index lies in the tree and the proof has the one right length |
| InclusionVerifier.AcceptedProofShowsLeaf | conformance/tsei-invariant-discrimination-v0/rekor-v1-verifier.ts:840-878 | a proof for some data that reaches the root of a tree shows the leaf at that index to be the data, and is the only such proof, or a collision is computed |
| DerEncoding.ShortestIsUnique | conformance/tsei-invariant-discrimination-v0/rekor-v1-verifier.ts:258-264 | length octets without a leading zero are the only shortest form of their number |
| DerReader.HeaderOctets | conformance/tsei-invariant-discrimination-v0/rekor-v1-verifier.ts:252-271 | every encoded value carries the header octets that the reader tests for |
| DerReader.HeaderSuffices | conformance/tsei-invariant-discrimination-v0/rekor-v1-verifier.ts:252-271 | octets that pass the reader's tests are the minimal encoding of what it reports |
| DerReader.AtMostOneValue | conformance/tsei-invariant-discrimination-v0/rekor-v1-verifier.ts:252-271 | at most one value is encoded at an offset |
| DerReader.ReadDerValue | conformance/tsei-invariant-discrimination-v0/rekor-v1-verifier.ts:252-271 | returns the value minimally encoded at the offset, and null exactly when there is none |
| DerReader.TilingUnique | conformance/tsei-invariant-discrimination-v0/rekor-v1-verifier.ts:273-283 | a stretch of octets divides into encoded values in at most one way |
| DerReader.DirectDerChildren | conformance/tsei-invariant-discrimination-v0/rekor-v1-verifier.ts:273-283 | terminates with the contiguous children that exactly tile the content, and null exactly when no tiling exists |
| DerReader.EncodingsTile | conformance/tsei-invariant-discrimination-v0/rekor-v1-verifier.ts:252-283 | encodings laid end to end are tiled by the values they encode |
| DerReader.EncodingInPlace | conformance/tsei-invariant-discrimination-v0/rekor-v1-verifier.ts:252-271 | an encoding found in the octets is described by the value with its tag and its content at the end |
| DerReader.TilingReEncodes | conformance/tsei-invariant-discrimination-v0/rekor-v1-verifier.ts:273-283 | children re-encode to exactly the octets they cover |
| RekorPublication.LookupFromDocuments | conformance/tsei-invariant-discrimination-v0/rekor-v1-verifier.ts:1576-1597 | a search finds the uuids of all entries with a hash in document order; an entry is the last document with its uuid |
| RekorPublication.UuidsCount | conformance/tsei-invariant-discrimination-v0/rekor-v1-verifier.ts:1580-1590 | a search with one answer means that exactly one document carries the hash |
| RekorPublication.AcceptedDocumentIsUnique | conformance/tsei-invariant-discrimination-v0/rekor-v1-verifier.ts:927-972 | acceptance through the index rests on the one document with the artifact's digest, which is the last with its uuid, however often other uuids repeat |
| RekorPublication.AcceptedExactly | conformance/tsei-invariant-discrimination-v0/rekor-v1-verifier.ts:912-1042 | over a whole bundle: accepted exactly when the endpoint is right and some document is alone in carrying the digest, the last with its uuid, and in order in record, body, inclusion and checkpoint |
| RekorPublication.MatchesAreCounted | conformance/tsei-invariant-discrimination-v0/rekor-v1-verifier.ts:918-934 | after the endpoint, the number of documents with the digest decides: none and several are refusals of their own |
| RekorPublication.RotationExactly | conformance/tsei-invariant-discrimination-v0/rekor-v1-verifier.ts:1024-1026 | a refusal reports a tree exactly when all else holds and the tree is not the captured one |
| RekorPublication.AcceptedReportsEmail | conformance/tsei-invariant-discrimination-v0/rekor-v1-verifier.ts:975-1038 | an accepted publication reports the first address of the certificate, which was checked for the selector of its controller |
| RekorPublication.AcceptedBodyIsLogged | conformance/tsei-invariant-discrimination-v0/rekor-v1-verifier.ts:996-1023 | when the checkpoint root is the hash of a tree of its size, an accepted body is the leaf at the index shown, or a collision is computed |
| RekorPublication.PermutedUuids | conformance/tsei-invariant-discrimination-v0/rekor-v1-verifier.ts:1576-1597 | reordering documents only reorders the answers of a search |
| RekorPublication.BundleOrderNeverMatters | conformance/tsei-invariant-discrimination-v0/rekor-v1-verifier.ts:912-1042 | with pairwise distinct uuids, reordering the bundle changes no result |
| RekorSequence.AcceptedHasIndexAndTree | conformance/tsei-invariant-discrimination-v0/rekor-v1-verifier.ts:1017-1038 | an accepted publication has a global index and a tree id |
| RekorSequence.PinningATree | conformance/tsei-invariant-discrimination-v0/rekor-v1-verifier.ts:1024-1026 | pinning a tree adds the one demand that the tree be that one, and alters no accepted result |
| RekorSequence.EqualDigestsEqualIndexes | conformance/tsei-invariant-discrimination-v0/rekor-v1-verifier.ts:927-972 | accepted events with one digest have one log index |
| RekorSequence.VerifyProductionSequence | conformance/tsei-invariant-discrimination-v0/rekor-v1-verifier.ts:1285-1359 | ok exactly when policy, digests, all four events, one tree and strictly increasing indexes hold; the result of every refusal is accounted for |
| RekorSequence.ProductionByName | conformance/tsei-invariant-discrimination-v0/rekor-v1-verifier.ts:1304-1343 | acceptance event by event: P0, E0 and E2 are checked for the originator and E1 for the authority, in the order P0 < E0 < E1 < E2 and in one tree |
| RekorSequence.ReportsByName | conformance/tsei-invariant-discrimination-v0/rekor-v1-verifier.ts:1313-1356 | the publications, indexes and tree that an accepted sequence reports, event by event |
| RekorSequence.ComplainAboutOrder | conformance/tsei-invariant-discrimination-v0/rekor-v1-verifier.ts:1342-1345 | lists equal and reversed neighbours in order, and nothing exactly when all indexes increase |
| RekorSequence.ComplaintsMean | conformance/tsei-invariant-discrimination-v0/rekor-v1-verifier.ts:1342-1345 | equal and reversed indexes are complained of exactly when two neighbours are equal or reversed |
| RekorSequence.AcceptedSequence | conformance/tsei-invariant-discrimination-v0/rekor-v1-verifier.ts:1285-1359 | for every pair of events of an accepted sequence: strictly ordered indexes, one tree, different digests, different artifacts |
| RekorSequence.EligibilityExactly | conformance/tsei-invariant-discrimination-v0/rekor-v1-verifier.ts:1226-1282 | the two-event check accepts exactly allowed digests, P0 and E0 each accepted for the originator, one tree and increasing indexes, and then reports the two |
| RekorSequence.EligibilityAccounts | conformance/tsei-invariant-discrimination-v0/rekor-v1-verifier.ts:1245-1279 | the result for allowed artifacts, refused ones included: both events for the originator, E0 against the tree of P0, and the complaints of the four-event check on two indexes |
| RekorSequence.EligibilityFollows | conformance/tsei-invariant-discrimination-v0/rekor-v1-verifier.ts:1226-1282 | P0 and E0 of an accepted sequence pass the two-event check with the same publications, indexes and tree |
| Utf16.ScalarError | conformance/tsei-invariant-discrimination-v0/encode-json-utf8-lf-v0.ts:54-67 | reports an error exactly for strings with a lone surrogate, of the kind that keys or strings have |
| Utf16.LexTransitive | conformance/tsei-invariant-discrimination-v0/encode-json-utf8-lf-v0.ts:70-78 | the order of keys is transitive |
| Utf16.LexTrichotomy | conformance/tsei-invariant-discrimination-v0/encode-json-utf8-lf-v0.ts:70-78 | exactly one of less, greater and equal holds of two keys |
| Utf16.LexExactly | conformance/tsei-invariant-discrimination-v0/encode-json-utf8-lf-v0.ts:70-78 | the first difference decides the order of two keys, and without one their lengths do |
| Utf16.CompareUtf16 | conformance/tsei-invariant-discrimination-v0/encode-json-utf8-lf-v0.ts:70-78 | negative, zero and positive exactly for less, equal and greater in that order |
| Utf16.KeyOrdersCoincide | conformance/recursive-singleton-fold-v0/generate_expected.py:32 | comparing UTF-16BE octets and comparing code units order any two strings alike |
| Utf8.DecodeEncode | conformance/tsei-invariant-discrimination-v0/intended-faithfulness-v1.ts:228 | decoding the UTF-8 octets of a well-formed string gives the string back |
| Utf8.EncodeInjective | conformance/recursive-singleton-fold-v0/audit_expected.ts:32-33 | well-formed strings with the same octets are equal |
| JsonValue.SortAscending | conformance/tsei-invariant-discrimination-v0/encode-json-utf8-lf-v0.ts:140 | sorting entries with distinct keys puts them in strictly increasing order |
| JsonValue.AscendingUnique | conformance/tsei-invariant-discrimination-v0/encode-json-utf8-lf-v0.ts:140 | the increasing list of given entries is unique, whatever the sorting procedure |
| JsonValue.SortsCoincide | conformance/recursive-singleton-fold-v0/audit_expected.ts:25 | entries sorted by the UTF-16BE octets of distinct keys, by whatever procedure, are the list sorted by code units |
| JsonNumbers.FaithfulFormatExists | conformance/tsei-invariant-discrimination-v0/encode-json-utf8-lf-v0.ts:104-124 | the demand made of the host, to read back each of the finitely many binary64 fractions it writes, can be met |
| JsonNumbers.ReadNumberOfDecimal | conformance/tsei-invariant-discrimination-v0/encode-json-utf8-lf-v0.ts:104-124 | a safe integer reads back from its numeral |
| JsonEncoder.EscapeString | conformance/tsei-invariant-discrimination-v0/encode-json-utf8-lf-v0.ts:80-102 | the loop quotes and escapes as the recursive definition does, and refuses exactly the strings with lone surrogates |
| JsonShortest.WrittenIsShortest | conformance/tsei-invariant-discrimination-v0/encode-json-utf8-lf-v0.ts:80-102 | of all literals that read as a string the encoder writes the shortest, and no other of that length has lower-case digits; so does the fold canonicalizer among literals without lone surrogates and line separators |
| JsonShortest.WrittenIsLower | conformance/tsei-invariant-discrimination-v0/encode-json-utf8-lf-v0.ts:96-97 | the hexadecimal digits written are in lower case |
| JsonShortest.WrittenIsWritable | conformance/recursive-singleton-fold-v0/audit_expected.ts:14 | what the fold canonicalizer writes leaves no lone surrogate and no line separator as it is |
| JsonCanonical.KeyErrorExact | conformance/tsei-invariant-discrimination-v0/encode-json-utf8-lf-v0.ts:133-139 | the key checks pass exactly when keys are distinct and well formed |
| JsonCanonical.SerializeIsPrint | conformance/tsei-invariant-discrimination-v0/encode-json-utf8-lf-v0.ts:126-142 | serialization succeeds exactly on the domain, and then writes the normal form of the value |
| JsonCompact.SerializedIsCompact | conformance/tsei-invariant-discrimination-v0/encode-json-utf8-lf-v0.ts:126-142 | serialized text holds no white space outside its string literals |
| JsonCompact.WordsByName | conformance/tsei-invariant-discrimination-v0/encode-json-utf8-lf-v0.ts:126-130 | null, true and false are written and read under these names |
| JsonFailures.FailureNamesCause | conformance/tsei-invariant-discrimination-v0/encode-json-utf8-lf-v0.ts:104-142 | a refusal names something that is there: a number, string, key or object of the category given |
| JsonFailures.RefusedIffCause | conformance/tsei-invariant-discrimination-v0/encode-json-utf8-lf-v0.ts:104-142 | serialization is refused exactly when something of some category is there |
| JsonRoundTrip.ReadEscaped | conformance/tsei-invariant-discrimination-v0/encode-json-utf8-lf-v0.ts:80-102 | the parser of section 7 of RFC 8259 reads every escaped string back and stops at its closing quote |
| JsonRoundTrip.ReadPrinted | conformance/tsei-invariant-discrimination-v0/encode-json-utf8-lf-v0.ts:126-142 | a normal value, at any depth, reads back from its text and leaves what follows untouched |
| JsonTheorems.SerializeRoundTrip | conformance/tsei-invariant-discrimination-v0/encode-json-utf8-lf-v0.ts:80-142 | text followed by anything that continues no number parses to the normal form, which is the value up to entry order, and leaves the continuation |
| JsonTheorems.NormalIsSame | conformance/tsei-invariant-discrimination-v0/encode-json-utf8-lf-v0.ts:126-142 | the normal form of a value is the value up to the order of entries at every depth |
| JsonTheorems.SameIffNormal | conformance/tsei-invariant-discrimination-v0/encode-json-utf8-lf-v0.ts:126-142 | values of the domain have one normal form exactly when they are equal up to the order of entries at every depth |
| JsonTheorems.EqualTextsIffSame | conformance/tsei-invariant-discrimination-v0/encode-json-utf8-lf-v0.ts:126-142 | canonicality: equal texts exactly for values equal up to the order of entries, numbers compared by value |
| JsonTheorems.OrderNeverMatters | conformance/tsei-invariant-discrimination-v0/encode-json-utf8-lf-v0.ts:126-142 | permuting entries anywhere changes neither the text nor the category of a failure |
| JsonTheorems.SortedKeysAgree | conformance/recursive-singleton-fold-v0/audit_expected.ts:25 | objects with the same keys have them in the same places after sorting |
| JsonTheorems.EscapeShape | conformance/tsei-invariant-discrimination-v0/encode-json-utf8-lf-v0.ts:80-102 | escaped text has no control characters and no lone surrogates |
| HostGraph.UnfoldingUnique | conformance/tsei-invariant-discrimination-v0/encode-json-utf8-lf-v0.ts:172-218 | a host value unfolds to at most one tree |
| HostGraph.UnfoldingExcludesCycles | conformance/tsei-invariant-discrimination-v0/encode-json-utf8-lf-v0.ts:172-218 | a value that unfolds to a tree reaches no cycle |
| HostGraph.FirstFaultOfChild | conformance/tsei-invariant-discrimination-v0/encode-json-utf8-lf-v0.ts:182-214 | an object takes over the first fault of its first faulty child |
| HostGraph.FaultsAreReachability | conformance/tsei-invariant-discrimination-v0/encode-json-utf8-lf-v0.ts:172-218 | a route to a repeated object exists exactly when a cycle is reachable, one to an unsupported value exactly when such a value is |
| HostGraph.FirstFaultDecides | conformance/tsei-invariant-discrimination-v0/encode-json-utf8-lf-v0.ts:172-218 | the fault met first is a cycle exactly when a cycle is reachable and precedes everything unsupported |
| HostGraph.ReachabilityIsNotEnough | conformance/tsei-invariant-discrimination-v0/encode-json-utf8-lf-v0.ts:176-194 | two heaps that both reach a cycle and an unsupported value, one refused as cyclic and one as unsupported |
| HostGraph.ActiveSet.Add | conformance/tsei-invariant-discrimination-v0/encode-json-utf8-lf-v0.ts:178-180 | entering an object puts it into the active set |
| HostGraph.ActiveSet.Delete | conformance/tsei-invariant-discrimination-v0/encode-json-utf8-lf-v0.ts:215-217 | leaving an object takes it out of the active set |
| HostGraph.HostToAbstract | conformance/tsei-invariant-discrimination-v0/encode-json-utf8-lf-v0.ts:172-218 | terminates on every finite heap, restores the active set on every exit, and returns the unfolding where nothing is at fault or else the fault on the lexicographically least route |
| HostGraph.ElementsToAbstract | conformance/tsei-invariant-discrimination-v0/encode-json-utf8-lf-v0.ts:182-197 | the loop over an array: its unfolding, or the least fault of the first element that has one |
| HostGraph.PropertiesToAbstract | conformance/tsei-invariant-discrimination-v0/encode-json-utf8-lf-v0.ts:199-214 | the loop over an object: its unfolding, or the least fault of the first property that has one |
| HostGraph.TreesAreNotCyclic | conformance/tsei-invariant-discrimination-v0/encode-json-utf8-lf-v0.ts:126-142 | serializing a tree never fails as cyclic |
| HostGraph.EncodeHost | conformance/tsei-invariant-discrimination-v0/encode-json-utf8-lf-v0.ts:225-227 | encodes the unfolding when there is one; refused as cyclic exactly when a cycle is reachable and met before everything unsupported, and otherwise as unsupported when something unsupported is reachable |
| EncodedBytes.PrintClean | conformance/tsei-invariant-discrimination-v0/encode-json-utf8-lf-v0.ts:126-142 | serialized text has no control character and no lone surrogate |
| CanonicalAcceptor.ParseCanonical | conformance/tsei-invariant-discrimination-v0/intended-faithfulness-v1.ts:212-239 | the byte loop and gates give the specified value, or the distinct reasons in order of first appearance |
| CanonicalAcceptor.UniqueExactly | conformance/tsei-invariant-discrimination-v0/object-a-e0-contract-v1.ts:116-118 | the reasons given are the distinct ones: none lost, none twice, ordered by where each first appears |
| CanonicalAcceptor.NoFramingReasons | conformance/tsei-invariant-discrimination-v0/intended-faithfulness-v1.ts:213-225 | no reason is given exactly for octets without byte order mark, NUL and CR whose one line feed is the last octet |
| CanonicalAcceptor.FramingReasonsMean | conformance/tsei-invariant-discrimination-v0/intended-faithfulness-v1.ts:213-225 | each of the six complaints is made exactly when its defect is there |
| CanonicalAcceptor.EncodingsWellFramed | conformance/tsei-invariant-discrimination-v0/encode-json-utf8-lf-v0.ts:220-222 | every encoding is so framed |
| CanonicalAcceptor.DecodeEncoding | conformance/tsei-invariant-discrimination-v0/intended-faithfulness-v1.ts:226-231 | decoding and parsing an encoding gives the normal form of the value |
| CanonicalAcceptor.AcceptsExactlyTheImage | conformance/tsei-invariant-discrimination-v0/object-a-e0-contract-v1.ts:120-147 | octets are accepted exactly when they encode some value of the domain, which is returned |
| CanonicalAcceptor.EncodingBinds | conformance/tsei-invariant-discrimination-v0/encode-json-utf8-lf-v0.ts:220-227 | equal octets exactly for values equal up to the order of entries |
| ObjectA.ObjectAFromParts | conformance/tsei-invariant-discrimination-v0/object-a-e0-contract-v1.ts:157-191 | whatever encodes as intended artifact yields an encodable Object A with exactly the five keys |
| ObjectA.OneObjectAPerArtifact | conformance/tsei-invariant-discrimination-v0/object-a-e0-contract-v1.ts:197-222 | for every accepted intended artifact one byte string, its materialized Object A, is accepted and no other |
| ObjectAContents.AcceptedHoldsArtifact | conformance/tsei-invariant-discrimination-v0/object-a-e0-contract-v1.ts:151-222 | the value in accepted octets, key by key: the two constants, the instance id, exactly the artifact's invariants and exactly its cases, each row under its own id with its own fields |
| ObjectAContents.IntendedHoldsArtifact | conformance/tsei-invariant-discrimination-v0/intended-faithfulness-v1.ts:212-239 | the encoded intended artifact holds the same instance id, invariants and cases under the same keys |
| CycleMachine.ApplyOps | conformance/transformation-stability-v0/verify_independent.py:160-165 | every field assignment in order, and a raise exactly when some operation is not `set_field` |
| CycleMachine.UntouchedField | conformance/transformation-stability-v0/verify_independent.py:160-165 | fields named by no operation keep their value or absence |
| CycleMachine.LastAssignmentWins | conformance/transformation-stability-v0/verify_independent.py:160-165 | the last assignment to a field decides its value |
| CycleMachine.EvaluateCycle | conformance/transformation-stability-v0/verify_independent.py:191-241 | comparing each node with the one before gives the verdict of comparing each with the start; the endpoint exits are unreachable |
| CycleMachine.FirstFaultDecides | conformance/transformation-stability-v0/verify_independent.py:203-227 | the verdict is the fault of the first faulty edge, and stable without one |
| CycleMachine.StableIff | conformance/transformation-stability-v0/verify_independent.py:191-241 | stable exactly when the start resolves, every edge applies in domain and resolves, and all nodes share the start's normative and forbidden projections |
| CycleFields.StableByFields | conformance/transformation-stability-v0/verify_independent.py:168-241 | for a canonicalizer that keeps values apart: stable exactly when every node visited can be read and does not time out, every edge leaves a node in domain by supported operations, and all nodes share the start's side of zero and its forbidden field |
| CycleFields.FaultByFields | conformance/transformation-stability-v0/verify_independent.py:168-227 | which fault an edge has, or none, told by the fields of its two nodes |
| CycleFields.ObservationsNeverMatter | conformance/transformation-stability-v0/verify_independent.py:168-241 | whatever telemetry and observation a run starts with or sets, its verdict, edge and reason are the same |
| CycleMachine.FailureIsFinal | conformance/transformation-stability-v0/verify_independent.py:191-241 | appending edges never changes a verdict that is not stable |
| CycleMachine.StableRunContinues | conformance/transformation-stability-v0/verify_independent.py:191-241 | a stable run followed by more edges has the verdict of those edges from its end node |
| CycleTrace.ClassifyCycle | conformance/cross-object-transformation-stability-v0/verify_independent.py:202-225 | the loop gives the first record that settles the matter, then the short-trace assertion, then the endpoint flags |
| CycleTrace.StableTraceIff | conformance/cross-object-transformation-stability-v0/verify_independent.py:202-225 | a trace is stable exactly when it is complete and shows no failed edge and no mismatch |
| CycleTrace.ReclassificationAgrees | conformance/cross-object-transformation-stability-v0/verify_independent.py:202-225 | for every start that resolves: the recording is cut off exactly when the run raises, and otherwise re-classification gives its class, edge and reason and the short-trace assertion never fires |
| FoldValues.EqualCanonicalMeansSame | conformance/recursive-singleton-fold-v0/audit_expected.ts:16-33 | canonical octets are equal exactly for values equal up to the order of entries, on every host |
| FoldValues.CanonicalWellFormed | conformance/recursive-singleton-fold-v0/audit_expected.ts:14-30 | canonical text has no lone surrogate, so its UTF-8 octets lose nothing |
| FoldValues.FalsyExactly | conformance/recursive-singleton-fold-v0/audit_expected.ts:126-128 | which values the stage test takes for missing |
| FoldValues.CloneIsSame | conformance/recursive-singleton-fold-v0/audit_expected.ts:12 | the clone of a value that can be canonicalized can be, and is the same up to key order |
| FoldValues.CloneKeepsText | conformance/recursive-singleton-fold-v0/audit_expected.ts:12 | cloning changes no canonical text that exists |
| PythonCanonical.TextsAgreeExactly | conformance/recursive-singleton-fold-v0/generate_expected.py:23-34 | generator and auditor write one text exactly for values the auditor accepts without lone surrogates and without U+2028 and U+2029 in strings and keys |
| PythonCanonical.SeparatorsDisagree | conformance/recursive-singleton-fold-v0/audit_expected.ts:14 | on a line separator both canonicalizers succeed with different texts |
| PythonFold.ReconstructionsAgree | conformance/recursive-singleton-fold-v0/generate_expected.py:156-226 | on facts that both canonicalize alike, with notes present, generator and auditor rebuild the same statements, digests, inclusion set, breakdown and id; their flags differ as `==` and equality of octets do |
| PythonFold.AggregatesDifferExactly | conformance/recursive-singleton-fold-v0/generate_expected.py:156-226 | there the aggregates differ exactly when the generator takes the declarations for the literals and the auditor does not, and then in the flag alone, true against false |
| PythonFold.OneForTrue | conformance/recursive-singleton-fold-v0/generate_expected.py:198-199 | the class declaration with one in place of true equals the literal by `==` and not by octets |
| PythonFold.FlagsCanDiffer | conformance/recursive-singleton-fold-v0/generate_expected.py:198-199 | with it both programs evaluate the flag, to different values |
| FoldOutcomes.AcceptedIffAllPass | conformance/recursive-singleton-fold-v0/audit_expected.ts:122-159 | the chain of early returns accepts exactly when every check passes |
| FoldOutcomes.LeastFailingPosition | conformance/recursive-singleton-fold-v0/audit_expected.ts:122-159 | a rejection names a failing check such that every check at a smaller position passes |
| FoldAcceptance.ReconstructionParts | conformance/recursive-singleton-fold-v0/audit_expected.ts:60-113 | the reconstruction's statements and inclusion set are built from the entry's id and schema, and carry their digests |
| FoldAggregate.RebuiltIsConsistent | conformance/recursive-singleton-fold-v0/audit_expected.ts:60-108 | the rebuilt aggregate read by its keys: it declares the facts, each of its commitments is the digest of the part it is named after, statement, inclusion set and breakdown repeat its own reference and commitments, and its id is the digest of a seed of its own fields |
| FoldAcceptance.EveryFieldIsNamed | tests/fixtures/recursive-singleton-fold-v0/contract.json:220-240 | the frozen list of remaining fields names every field of the aggregate except the content commitment |
| FoldAcceptance.InclusionHasMember | conformance/recursive-singleton-fold-v0/audit_expected.ts:130-134 | equality of the inclusion set implies the checks of positions 18 and 19 |
| FoldAcceptance.FlagCheckMeans | conformance/recursive-singleton-fold-v0/audit_expected.ts:140-144 | position 24, on the declarations as given, passes exactly when those looked at can be canonicalized and the flag is the one reconstructed from the clones |
| FoldAcceptance.AgainstFreshMeans | conformance/recursive-singleton-fold-v0/audit_expected.ts:149-151 | position 28, on the entry as given, passes exactly when it can be canonicalized and the commitment is the one reconstructed from its clone |
| FoldAcceptance.AcceptedExactly | conformance/recursive-singleton-fold-v0/audit_expected.ts:122-159 | acceptance is agreement of both claims and of every field with the reconstruction from the clones, an id other than the source reference, a fresh source commitment, equal commitments of both statements, and that the source entry and the declarations looked at as given can be canonicalized |
| FoldAggregate.AcceptedAgrees | conformance/recursive-singleton-fold-v0/audit_expected.ts:122-159 | an accepted candidate agrees with that aggregate under every key |
| FoldAggregate.AcceptedCommitsToParts | conformance/recursive-singleton-fold-v0/audit_expected.ts:122-159 | each commitment of an accepted candidate is the digest of the candidate's own part |
| FoldAggregate.AcceptedCommitsToSource | conformance/recursive-singleton-fold-v0/audit_expected.ts:149-151 | and of the source entry that the vector gives |
| FoldTampering.DifferenceIsReported | conformance/recursive-singleton-fold-v0/audit_expected.ts:122-159 | a stage that agrees but for one field is rejected with the code and at the position of that field, whatever stands there instead |
| FoldTampering.FalseClaimIsReported | conformance/recursive-singleton-fold-v0/audit_expected.ts:134-135 | a false claim is rejected at position 20, for the statement or else for the commitment |
| FoldAcceptance.ChronicleEntryAcceptedExactly | conformance/recursive-singleton-fold-v0/audit_expected.ts:122-159 | the same for a `chronicle_entry.v0` source, where the commitments of both statements are always equal and the declarations are always looked at |
| FoldAcceptance.AcceptedSchemaOrCollision | conformance/recursive-singleton-fold-v0/audit_expected.ts:60-86 | an accepted vector has a `chronicle_entry.v0` source, or its two statements collide under the hash |
| FoldAcceptance.AcceptedIsScalar | conformance/recursive-singleton-fold-v0/audit_expected.ts:153-157 | structured notes or a structured entry id are never accepted |
| FoldCompleteness.HonestField | conformance/recursive-singleton-fold-v0/audit_expected.ts:101-108 | the reconstructed aggregate, written as JSON, holds the reconstructed value under every field name |
| FoldCompleteness.DigestLikeExactly | conformance/recursive-singleton-fold-v0/audit_expected.ts:120-128 | a text passes as claimed commitment exactly when it is the digest text of some 32 octets |
| FoldCompleteness.HonestStageAccepted | conformance/recursive-singleton-fold-v0/audit_expected.ts:122-159 | completeness: the reconstruction handed back is accepted exactly when id and notes are scalars, the id differs from the source reference, and the source entry and the declarations looked at as given can be canonicalized |
| FoldCompleteness.ReconstructionExists | conformance/recursive-singleton-fold-v0/audit_expected.ts:60-113 | for a `chronicle_entry.v0` source with a string id the reconstruction throws only where a digest of a clone of the entry or of a declaration does |
| FoldCompleteness.AcceptanceIsPossible | conformance/recursive-singleton-fold-v0/audit_expected.ts:60-159 | such a source with an id of no digest's length and scalar notes has a stage that is accepted exactly when the entry, the four clones and the declarations looked at as given can be canonicalized |
| FoldCompleteness.LiteralsEvaluateExactly | conformance/recursive-singleton-fold-v0/audit_expected.ts:140-143 | the comparison with the frozen declarations evaluates exactly when each declaration up to and including the first that differs can be canonicalized |
| FoldCompleteness.OverflowIsAccepted | conformance/recursive-singleton-fold-v0/audit_expected.ts:60-159 | a class declaration that overflows, and so cannot be canonicalized, is accepted behind a policy that differs; a policy that overflows never is |
| FoldCompleteness.FlagIsLiterals | conformance/recursive-singleton-fold-v0/audit_expected.ts:87-88 | the reconstructed flag holds exactly when the clones of all three declarations equal the frozen ones up to key order |
| FoldCompleteness.AcceptedFlagTellsLiterals | conformance/recursive-singleton-fold-v0/audit_expected.ts:140-144 | an accepted aggregate carries exactly the flag that the declarations as given call for, true or false |
| FoldKeyOrder.AlikeReconstruct | conformance/recursive-singleton-fold-v0/audit_expected.ts:60-113 | reordered facts give a reconstruction that no comparison tells apart |
| FoldKeyOrder.KeyOrderNeverMatters | conformance/recursive-singleton-fold-v0/audit_expected.ts:122-159 | reordering the keys of any object in any input leaves the outcome as it is |
| OracleCommitment.ValidateParts | conformance/tsei-invariant-discrimination-v0/independent-authority.ts:1342-1357 | accepted parts have a valid id, a lower-case digest, a nonce of 32 octets and a non-empty oracle |
| OracleCommitment.ReasonsMean | conformance/tsei-invariant-discrimination-v0/independent-authority.ts:1342-1357 | each reason for refusing the parts is given exactly when its field is wrong in its way |
| OracleCommitment.VerifiedExactly | conformance/tsei-invariant-discrimination-v0/independent-authority.ts:1385-1399 | verification succeeds exactly for valid parts and the hexadecimal hash of their preimage |
| OracleCommitment.OpeningsExactly | conformance/tsei-invariant-discrimination-v0/independent-authority.ts:1342-1399 | the openings of a commitment are exactly the valid parts whose preimage hashes to it |
| OracleCommitment.PreimageInjective | conformance/tsei-invariant-discrimination-v0/independent-authority.ts:1359-1371 | no two valid inputs share a preimage, although nonce and oracle may hold the separator |
| CommitmentReading.PreimageRead | conformance/tsei-invariant-discrimination-v0/independent-authority.ts:1359-1371 | read by the layout alone (label, id up to a NUL, 64 octets, 32 octets, rest) a preimage gives its parts back |
| CommitmentReading.ReadIsPreimage | conformance/tsei-invariant-discrimination-v0/independent-authority.ts:1359-1371 | octets that read as valid parts are the preimage of those parts |
| OracleCommitment.HexInjective | conformance/tsei-invariant-discrimination-v0/independent-authority.ts:1373-1383 | different digests have different texts |
| CommitmentReading.HexReadsBack | conformance/tsei-invariant-discrimination-v0/independent-authority.ts:1373-1383 | every octet of a digest reads back from its two digits, the high one first |
| CommitmentReading.DigestTextsExactly | conformance/tsei-invariant-discrimination-v0/independent-authority.ts:1393-1396 | the texts that pass for a commitment are exactly those of 32 octets |
| OracleCommitment.ComputedCommitmentVerifies | conformance/tsei-invariant-discrimination-v0/independent-authority.ts:1385-1399 | the computed commitment of every valid input verifies |
| OracleCommitment.CommitmentBinds | conformance/tsei-invariant-discrimination-v0/independent-authority.ts:1385-1399 | two inputs that verify against one commitment are one opening, or their preimages collide |
| Attribution.SizeShowsRepeats | conformance/tsei-invariant-discrimination-v0/independent-authority.ts:348 | the set of items is as large as the list exactly when nothing repeats |
| Attribution.ParseExact | conformance/tsei-invariant-discrimination-v0/independent-authority.ts:342-350 | a statement parses exactly when it lists definite identifiers without repetition, and then to their set |
| Attribution.DefiniteExactly | conformance/tsei-invariant-discrimination-v0/independent-authority.ts:346-347 | an identifier is definite exactly when it is not empty, holds no white space and no slash, and nowhere falls apart around the word `or` |
| Screening.BearsNothing | conformance/tsei-invariant-discrimination-v0/independent-authority.ts:332-335 | the substring scan finds nothing exactly when no token is a factor of any reference |
| Screening.OnlyLowerCaseCounts | conformance/tsei-invariant-discrimination-v0/independent-authority.ts:337-340 | two publisher lists with the same lower-case forms are screened alike |
| Observational.ScanIds | conformance/tsei-invariant-discrimination-v0/independent-authority.ts:502-521 | the loop over one id list notices an item that is no name, a repetition and an undeclared id |
| Observational.Validate | conformance/tsei-invariant-discrimination-v0/independent-authority.ts:469-600 | the loops over cases and effects refuse exactly when something is out of order, as incomplete exactly when some undeclared id is named and no id list repeats, and else keep the evidence given |
| Observational.IncompleteExactly | conformance/tsei-invariant-discrimination-v0/independent-authority.ts:587-589 | refused as incomplete exactly when declaring further invariants would change the answer; acceptances and all other refusals stand whatever is added |
| Grounding.ProvenanceExactly | conformance/tsei-invariant-discrimination-v0/independent-authority.ts:352-380 | provenance is valid exactly when the observations bind one oracle to one package in time, no token is a factor of any reference of the three sources, and no publisher shares a lower-case form with a prohibited one |
| Grounding.ClosedIffOneSet | conformance/tsei-invariant-discrimination-v0/independent-authority.ts:297-330 | the case universe is closed exactly when all four id sets are one |
| Grounding.DifferencesTell | conformance/tsei-invariant-discrimination-v0/independent-authority.ts:297-330 | the four difference sets, id by id, and that the sets compared can be told from them |
| Grounding.Evaluate | conformance/tsei-invariant-discrimination-v0/independent-authority.ts:631-822 | the gates and loops return the report fixed by the first obstacle, or by agreement on every declared case |
| Grounding.ParseAll | conformance/tsei-invariant-discrimination-v0/independent-authority.ts:727-743 | ambiguous exactly when some set is; otherwise every set is parsed and undeclared ids are noticed |
| Grounding.Compare | conformance/tsei-invariant-discrimination-v0/independent-authority.ts:784-793 | a difference is found exactly when some declared case has one |
| Grounding.VerdictExactly | conformance/tsei-invariant-discrimination-v0/independent-authority.ts:631-822 | proven and disagreed need every gate and differ in the last comparison only; the universe is closed exactly then, counting the declared cases |
| Grounding.ReasonExactly | conformance/tsei-invariant-discrimination-v0/independent-authority.ts:631-822 | each of the six reasons, and none, is given exactly when its condition holds |
| Grounding.UnprovenUniverse | conformance/tsei-invariant-discrimination-v0/independent-authority.ts:420-445 | the universe in an unproven report |
| Grounding.NothingWithoutObservations | conformance/tsei-invariant-discrimination-v0/independent-authority.ts:352-380 | without verified observations the report is unproven and provenance is not valid |
| Grounding.MetadataIsObservational | conformance/tsei-invariant-discrimination-v0/independent-authority.ts:631-822 | replacing the observations of an authority by others in order changes the evidence in the report and no other field; by others out of order, it leaves the report unproven and not evaluated |

## Left out

- X.509 certificates, ECDSA signatures, timestamps and SHA-256: functions of their inputs, with nothing assumed.
- Multi-octet DER tags: the reader takes one octet as the tag, and so does the model's encoding.
- Provider policies, freeze evaluators, pinned digests and mailboxes, and the earlier two and three event sequence functions: constant comparisons.
- Document and body decoding (base64, JSON shape of a log record): a record arrives with malformed fields as absent ones.
- The `catch` blocks that turn any exception into one reason.
- JavaScript reflection in the host traversal (accessors, symbols, prototypes, sparse arrays, proxies).
- Mutation of the host heap: no traversal changes it, so the heap is a map; its two loops are methods of their own.
- The tagged transport form of the encoder, and the category for integers that binary64 cannot hold, which no safe integer has.
- The graph inspection and shape checks that follow byte acceptance of an intended artifact; an accepted artifact is one that encodes.
- Floating-point fields of cycle nodes, and the other projections that no verdict reads.
- The trace recorder is the model's own instrumentation of the machine; the auditor reads traces from files.
- The vectors `V-UNVER` and `V-GIT`, the read of the field list from the Git index (it is a parameter, and a constant for the theorems on acceptance), and the envelopes around outcomes.
- Python's reading of number tokens: the generator's canonicalizer is given numbers that Python reads as integers, and raises on all others.
- Positions 1 to 17 of the fold, the vector generator, and the package auditors.
- The texts of the violations that the validator of observations collects, and the sorting of the id lists it keeps, which are sets here; the fixed claim boundary in the evidence.
- Malformed authority records beyond the cases modelled, which the evaluator reports as ambiguous from a `catch`.
- The ladder, the viewer, the crystal receipt and all command-line wrappers: no property beyond reading their bodies.
