/** Log entries, the index over a bundle of entry documents, and the check of
    one publication. */
module RekorPublication {
  import opened Common
  import opened MerkleTree
  import opened InclusionVerifier

  type Reasons = seq<string>

  /** The parsed body of an entry; absent fields are malformed or missing ones. */
  datatype Body = Body(
    raw: Bytes,
    kind: Option<string>,
    apiVersion: Option<string>,
    hashAlgorithm: Option<string>,
    hashValue: Option<string>,
    signature: Option<Bytes>,
    certificate: Option<Bytes>)

  /** A checkpoint note: its tree id if that is numeric, its size and its root. */
  datatype Checkpoint = Checkpoint(lineCount: nat, treeId: Option<string>, size: Option<int>, root: Option<Bytes>)

  datatype Inclusion = Inclusion(
    logIndex: Option<JsNumber>,
    treeSize: Option<JsNumber>,
    rootHash: Option<Digest>,
    checkpoint: Option<Checkpoint>,
    hashes: Option<seq<Option<Digest>>>)

  datatype Record = Record(
    body: Option<Body>,
    logId: Option<string>,
    logIndex: JsNumber,
    integratedTime: JsNumber,
    inclusion: Option<Inclusion>)

  /** A document that is not one record under one key is no entry. */
  datatype Document = NotAnEntry | EntryDocument(uuid: string, record: Record)

  datatype Selector = Selector(oidcIssuer: string, sanEmail: string)

  datatype Policy = Policy(endpoint: string, logId: string, originator: Selector, authority: Selector)

  datatype Controller = Originator | Authority

  datatype CertificateCheck = CertificateCheck(reasons: Reasons, emails: seq<string>)

  /** Hashing and the checks made by the cryptographic library. */
  datatype Trust = Trust(
    sha256: HashFunction,
    sha256Hex: Bytes -> string,
    timestampSigned: Record -> bool,
    certificate: (Bytes, Selector, int) -> CertificateCheck,
    signedBy: (Bytes, Bytes, Bytes) -> bool,
    checkpointSigned: Checkpoint -> bool)

  // The index: `lookupFromRekorDocuments`.

  datatype Lookup = Lookup(byHash: map<string, seq<string>>, byUuid: map<string, Document>)

  function Search(lookup: Lookup, hash: string): seq<string> {
    if hash in lookup.byHash then lookup.byHash[hash] else []
  }

  function GetEntry(lookup: Lookup, uuid: string): Option<Document> {
    if uuid in lookup.byUuid then Some(lookup.byUuid[uuid]) else None
  }

  /** The hash an entry is indexed under. */
  function HashOf(document: Document): Option<string> {
    if document.EntryDocument? && document.record.body.Some? then document.record.body.value.hashValue else None
  }

  /** The uuids of the entries with a hash, in document order. */
  function UuidsFor(documents: seq<Document>, hash: string): seq<string> {
    if documents == [] then []
    else
      var last := documents[|documents| - 1];
      UuidsFor(documents[..|documents| - 1], hash) + if HashOf(last) == Some(hash) then [last.uuid] else []
  }

  /** The last entry with a uuid. */
  function LastWith(documents: seq<Document>, uuid: string): Option<Document> {
    if documents == [] then None
    else
      var last := documents[|documents| - 1];
      if last.EntryDocument? && last.uuid == uuid then Some(last) else LastWith(documents[..|documents| - 1], uuid)
  }

  ghost predicate Indexes(lookup: Lookup, documents: seq<Document>) {
    && (forall hash :: Search(lookup, hash) == UuidsFor(documents, hash))
    && (forall uuid :: GetEntry(lookup, uuid) == LastWith(documents, uuid))
  }

  method LookupFromDocuments(documents: seq<Document>) returns (lookup: Lookup)
    ensures Indexes(lookup, documents)
  {
    var byHash, byUuid := map[], map[];
    for i := 0 to |documents|
      invariant Indexes(Lookup(byHash, byUuid), documents[..i])
    {
      var document := documents[i];
      assert documents[..i + 1][..i] == documents[..i];
      ghost var before := Lookup(byHash, byUuid);
      if document.EntryDocument? {
        var hash := HashOf(document);
        if hash.Some? {
          var current := if hash.value in byHash then byHash[hash.value] else [];
          byHash := byHash[hash.value := current + [document.uuid]];
        }
        byUuid := byUuid[document.uuid := document];
      }
      var after := Lookup(byHash, byUuid);
      forall hash ensures Search(after, hash) == UuidsFor(documents[..i + 1], hash) {
        assert Search(before, hash) == UuidsFor(documents[..i], hash);
      }
      forall uuid ensures GetEntry(after, uuid) == LastWith(documents[..i + 1], uuid) {
        assert GetEntry(before, uuid) == LastWith(documents[..i], uuid);
      }
    }
    assert documents[..|documents|] == documents;
    return Lookup(byHash, byUuid);
  }

  // One publication: `verifyRekorV1Publication`.

  datatype Publication = Publication(
    ok: bool,
    reasons: Reasons,
    uuid: Option<string>,
    globalLogIndex: Option<int>,
    shardLocalLogIndex: Option<JsNumber>,
    treeId: Option<string>,
    artifactSha256: Option<string>,
    sanEmail: Option<string>)

  function Fail(reason: string): Publication { FailWith([reason], None, None, None) }

  function FailWith(reasons: Reasons, treeId: Option<string>, digest: Option<string>,
                    email: Option<string>): Publication {
    Publication(false, reasons, None, None, None, treeId, digest, email)
  }

  function FirstEmail(check: CertificateCheck): Option<string> {
    if check.emails == [] then None else Some(check.emails[0])
  }

  predicate IsIndex(n: JsNumber) { n.Integer? && n.value >= 0 }

  function Proof(hashes: seq<Option<Digest>>): Option<seq<Digest>> {
    if forall h | h in hashes :: h.Some?
    then Some(seq(|hashes|, i requires 0 <= i < |hashes| => assert hashes[i] in hashes; hashes[i].value))
    else None
  }

  /** The root that the inclusion proof of a body leads to. */
  function ComputedRoot(trust: Trust, inclusion: Inclusion, raw: Bytes): Option<Digest> {
    if inclusion.logIndex.None? || inclusion.treeSize.None? || inclusion.rootHash.None? || inclusion.checkpoint.None?
       || inclusion.hashes.None? || Proof(inclusion.hashes.value).None?
    then None
    else
      ExpectedRoot(trust.sha256, inclusion.logIndex.value, inclusion.treeSize.value, HashLeaf(trust.sha256, raw),
                   Proof(inclusion.hashes.value).value)
  }

  /** The checks after the signatures: inclusion, checkpoint, and the captured tree. */
  function CheckTree(trust: Trust, record: Record, raw: Bytes, uuid: string, digest: string,
                     email: Option<string>, captured: Option<string>): Publication {
    if record.inclusion.None? then Fail("invalid_inclusion_proof")
    else
      var inclusion := record.inclusion.value;
      var computed := ComputedRoot(trust, inclusion, raw);
      if computed.None? || computed != inclusion.rootHash then Fail("invalid_inclusion_proof")
      else
        var checkpoint := inclusion.checkpoint.value;
        if !trust.checkpointSigned(checkpoint) then Fail("invalid_checkpoint_signature")
        else if checkpoint.lineCount < 3 then Fail("invalid_checkpoint")
        else if checkpoint.treeId.None? then Fail("invalid_checkpoint")
        else if checkpoint.size != Some(inclusion.treeSize.value.value) then Fail("invalid_checkpoint")
        else if checkpoint.root.None? || |checkpoint.root.value| != 32 then Fail("invalid_checkpoint")
        else if checkpoint.root.value != computed.value then Fail("invalid_checkpoint")
        else if captured.Some? && captured != checkpoint.treeId
        then FailWith(["tree_rotation"], checkpoint.treeId, Some(digest), email)
        else
          Publication(true, [], Some(uuid), if record.logIndex.Integer? then Some(record.logIndex.value) else None,
                      inclusion.logIndex, checkpoint.treeId, Some(digest), email)
  }

  /** The checks on the one record found for a digest. */
  function CheckRecord(trust: Trust, policy: Policy, artifact: Bytes, controller: Controller, record: Record,
                       uuid: string, captured: Option<string>): Publication {
    var digest := trust.sha256Hex(artifact);
    if !trust.timestampSigned(record) then Fail("invalid_signed_entry_timestamp")
    else if record.logId != Some(policy.logId) then Fail("wrong_log_id")
    else if !IsIndex(record.logIndex) || !IsIndex(record.integratedTime) then Fail("malformed_structure")
    else if record.body.None? then Fail("malformed_structure")
    else
      var body := record.body.value;
      if body.kind != Some("hashedrekord") || body.apiVersion != Some("0.0.1") then Fail("wrong_kind_or_version")
      else if body.hashAlgorithm != Some("sha256") || body.hashValue != Some(digest)
      then FailWith(["digest_mismatch"], None, Some(digest), None)
      else if body.signature.None? || body.certificate.None? then Fail("malformed_structure")
      else
        var selector := if controller == Originator then policy.originator else policy.authority;
        var check := trust.certificate(body.certificate.value, selector, record.integratedTime.value);
        if check.reasons != [] then FailWith(check.reasons, None, Some(digest), FirstEmail(check))
        else if !trust.signedBy(artifact, body.certificate.value, body.signature.value)
        then FailWith(["invalid_signature"], None, Some(digest), FirstEmail(check))
        else CheckTree(trust, record, body.raw, uuid, digest, FirstEmail(check), captured)
  }

  function VerifyPublication(trust: Trust, policy: Policy, artifact: Bytes, controller: Controller, lookup: Lookup,
                             observedEndpoint: Option<string>, captured: Option<string>): Publication {
    if observedEndpoint.Some? && observedEndpoint.value != policy.endpoint then Fail("wrong_endpoint")
    else
      var uuids := Search(lookup, trust.sha256Hex(artifact));
      if uuids == [] then Fail("zero_matches")
      else if |uuids| != 1 then Fail("multiple_matches")
      else if uuids[0] == "" then Fail("malformed_lookup")
      else
        match GetEntry(lookup, uuids[0])
        case None => Fail("malformed_structure")
        case Some(document) =>
          if document.NotAnEntry? || document.uuid != uuids[0] then Fail("malformed_structure")
          else CheckRecord(trust, policy, artifact, controller, document.record, uuids[0], captured)
  }

  // Properties of one accepted publication.

  lemma {:induction false} UuidsNone(documents: seq<Document>, hash: string)
    ensures UuidsFor(documents, hash) == [] <==> forall i | 0 <= i < |documents| :: HashOf(documents[i]) != Some(hash)
  {
    hide HashOf;
    if documents != [] { UuidsNone(documents[..|documents| - 1], hash); }
  }

  lemma {:induction false} UuidsCount(documents: seq<Document>, hash: string)
    requires |UuidsFor(documents, hash)| == 1
    ensures exists k | 0 <= k < |documents| ::
              IsOnlyOne(documents, hash, k) && UuidsFor(documents, hash) == [documents[k].uuid]
  {
    var n := |documents| - 1;
    var init := documents[..n];
    if HashOf(documents[n]) == Some(hash) {
      UuidsNone(init, hash);
      assert forall i | 0 <= i < n :: documents[i] == init[i];
      assert IsOnlyOne(documents, hash, n);
    } else {
      UuidsCount(init, hash);
      var k :| 0 <= k < n && IsOnlyOne(init, hash, k) && UuidsFor(init, hash) == [init[k].uuid];
      assert forall i | 0 <= i < n :: documents[i] == init[i];
      assert IsOnlyOne(documents, hash, k);
    }
  }

  /** Document `k` carries the hash, and no other document does. */
  predicate IsOnlyOne(documents: seq<Document>, hash: string, k: nat)
    requires k < |documents|
  {
    && HashOf(documents[k]) == Some(hash)
    && forall i | 0 <= i < |documents| && i != k :: HashOf(documents[i]) != Some(hash)
  }

  lemma {:induction false} LastWithIsMember(documents: seq<Document>, uuid: string)
    ensures LastWith(documents, uuid).Some? ==> LastWith(documents, uuid).value in documents
  {
    if documents != [] { LastWithIsMember(documents[..|documents| - 1], uuid); }
  }

  /** Inclusion and checkpoint in order, in any order of checking. */
  predicate TreeHolds(trust: Trust, record: Record, raw: Bytes, captured: Option<string>) {
    && record.inclusion.Some? && record.inclusion.value.checkpoint.Some?
    && var inclusion, checkpoint := record.inclusion.value, record.inclusion.value.checkpoint.value;
       && ComputedRoot(trust, inclusion, raw).Some? && ComputedRoot(trust, inclusion, raw) == inclusion.rootHash
       && checkpoint.root.Some? && checkpoint.root.value == inclusion.rootHash.value
       && trust.checkpointSigned(checkpoint) && checkpoint.lineCount >= 3
       && checkpoint.size == Some(inclusion.treeSize.value.value)
       && checkpoint.treeId.Some? && (captured.Some? ==> captured == checkpoint.treeId)
  }

  /** The body binds the artifact under a certificate of the expected controller. */
  predicate BodyHolds(trust: Trust, policy: Policy, artifact: Bytes, controller: Controller, record: Record) {
    && record.body.Some?
    && var body := record.body.value;
       && body.kind == Some("hashedrekord") && body.apiVersion == Some("0.0.1")
       && body.hashAlgorithm == Some("sha256") && body.hashValue == Some(trust.sha256Hex(artifact))
       && body.signature.Some? && body.certificate.Some?
       && trust.signedBy(artifact, body.certificate.value, body.signature.value)
       && record.integratedTime.Integer?
       && trust.certificate(body.certificate.value,
                            if controller.Originator? then policy.originator else policy.authority,
                            record.integratedTime.value).reasons == []
  }

  lemma TreeAcceptedExactly(trust: Trust, record: Record, raw: Bytes, uuid: string, digest: string,
                            email: Option<string>, captured: Option<string>)
    ensures CheckTree(trust, record, raw, uuid, digest, email, captured).ok <==> TreeHolds(trust, record, raw, captured)
  {
    hide ExpectedRoot, Proof, HashLeaf;
  }

  /** Everything asked of a record, without the order of asking. */
  predicate RecordHolds(trust: Trust, policy: Policy, artifact: Bytes, controller: Controller, record: Record,
                        captured: Option<string>) {
    && trust.timestampSigned(record) && record.logId == Some(policy.logId)
    && IsIndex(record.logIndex) && IsIndex(record.integratedTime)
    && BodyHolds(trust, policy, artifact, controller, record)
    && TreeHolds(trust, record, record.body.value.raw, captured)
  }

  /** Acceptance of a record: its timestamp, log, body, certificate, signature,
      inclusion and checkpoint all hold, and nothing else is asked. The result
      then reports the record's own indexes and its checkpoint's tree. */
  lemma RecordAcceptedExactly(trust: Trust, policy: Policy, artifact: Bytes, controller: Controller, record: Record,
                              uuid: string, captured: Option<string>)
    ensures CheckRecord(trust, policy, artifact, controller, record, uuid, captured).ok
       <==> RecordHolds(trust, policy, artifact, controller, record, captured)
    ensures var r := CheckRecord(trust, policy, artifact, controller, record, uuid, captured);
            r.ok ==>
              && r.reasons == [] && r.uuid == Some(uuid) && r.artifactSha256 == Some(trust.sha256Hex(artifact))
              && r.globalLogIndex == Some(record.logIndex.value)
              && r.shardLocalLogIndex == record.inclusion.value.logIndex
              && r.treeId == record.inclusion.value.checkpoint.value.treeId
  {
    hide CheckTree, TreeHolds;
    if record.body.Some? && record.body.value.certificate.Some? && record.integratedTime.Integer? {
      var selector := if controller.Originator? then policy.originator else policy.authority;
      var check := trust.certificate(record.body.value.certificate.value, selector, record.integratedTime.value);
      var raw, digest := record.body.value.raw, trust.sha256Hex(artifact);
      TreeAcceptedExactly(trust, record, raw, uuid, digest, FirstEmail(check), captured);
      TreeReports(trust, record, raw, uuid, digest, FirstEmail(check), captured);
    }
  }

  lemma TreeReports(trust: Trust, record: Record, raw: Bytes, uuid: string, digest: string, email: Option<string>,
                    captured: Option<string>)
    ensures var r := CheckTree(trust, record, raw, uuid, digest, email, captured);
            r.ok ==>
              && record.inclusion.Some? && record.inclusion.value.checkpoint.Some?
              && r.reasons == [] && r.uuid == Some(uuid) && r.artifactSha256 == Some(digest)
              && r.globalLogIndex == (if record.logIndex.Integer? then Some(record.logIndex.value) else None)
              && r.shardLocalLogIndex == record.inclusion.value.logIndex
              && r.treeId == record.inclusion.value.checkpoint.value.treeId
  {
    hide ExpectedRoot, Proof, HashLeaf;
  }

  lemma AcceptedMatchesDigest(trust: Trust, policy: Policy, artifact: Bytes, controller: Controller, record: Record,
                              uuid: string, captured: Option<string>)
    requires CheckRecord(trust, policy, artifact, controller, record, uuid, captured).ok
    ensures record.body.Some? && record.body.value.hashValue == Some(trust.sha256Hex(artifact))
  {
    hide CheckTree;
  }

  /** The certificate check that a record's own certificate undergoes. */
  function CheckOf(trust: Trust, policy: Policy, controller: Controller, record: Record): CertificateCheck
    requires record.body.Some? && record.body.value.certificate.Some? && record.integratedTime.Integer?
  {
    trust.certificate(record.body.value.certificate.value,
                      match controller case Originator => policy.originator case Authority => policy.authority,
                      record.integratedTime.value)
  }

  /** An accepted publication reports the first address of the certificate that was
      checked for its controller. */
  lemma AcceptedReportsEmail(trust: Trust, policy: Policy, artifact: Bytes, controller: Controller, record: Record,
                             uuid: string, captured: Option<string>)
    requires CheckRecord(trust, policy, artifact, controller, record, uuid, captured).ok
    ensures record.body.Some? && record.body.value.certificate.Some? && record.integratedTime.Integer?
    ensures var emails := CheckOf(trust, policy, controller, record).emails;
            CheckRecord(trust, policy, artifact, controller, record, uuid, captured).sanEmail
            == if emails == [] then None else Some(emails[0])
  {
    hide CheckTree;
    var check := CheckOf(trust, policy, controller, record);
    TreeReportsEmail(trust, record, record.body.value.raw, uuid, trust.sha256Hex(artifact), FirstEmail(check),
                     captured);
  }

  lemma TreeReportsEmail(trust: Trust, record: Record, raw: Bytes, uuid: string, digest: string,
                         email: Option<string>, captured: Option<string>)
    ensures var r := CheckTree(trust, record, raw, uuid, digest, email, captured);
            && (r.ok ==> r.sanEmail == email)
            && (!r.ok && r.treeId.Some? <==>
                  && TreeHolds(trust, record, raw, None) && captured.Some?
                  && captured != record.inclusion.value.checkpoint.value.treeId)
            && (!r.ok && r.treeId.Some? ==>
                  r.reasons == ["tree_rotation"] && r.treeId == record.inclusion.value.checkpoint.value.treeId)
  {
    hide ExpectedRoot, Proof, HashLeaf;
  }

  /** A refusal reports a tree exactly when everything holds but that the tree is
      not the captured one, and then for that reason. */
  lemma RotationExactly(trust: Trust, policy: Policy, artifact: Bytes, controller: Controller, record: Record,
                        uuid: string, captured: Option<string>)
    ensures var r := CheckRecord(trust, policy, artifact, controller, record, uuid, captured);
            && (!r.ok && r.treeId.Some? <==>
                  && RecordHolds(trust, policy, artifact, controller, record, None) && captured.Some?
                  && captured != record.inclusion.value.checkpoint.value.treeId)
            && (!r.ok && r.treeId.Some? ==>
                  r.reasons == ["tree_rotation"] && r.treeId == record.inclusion.value.checkpoint.value.treeId)
  {
    hide CheckTree, TreeHolds;
    if record.body.Some? && record.body.value.certificate.Some? && record.integratedTime.Integer? {
      var check := CheckOf(trust, policy, controller, record);
      var raw, digest := record.body.value.raw, trust.sha256Hex(artifact);
      TreeReportsEmail(trust, record, raw, uuid, digest, FirstEmail(check), captured);
    }
  }

  /** Document `k` of a bundle is the one to verify: the only one with the hash,
      under a uuid of its own that no later document has taken over. */
  predicate IsFound(documents: seq<Document>, hash: string, k: nat)
    requires k < |documents|
  {
    && IsOnlyOne(documents, hash, k) && documents[k].EntryDocument? && documents[k].uuid != ""
    && LastWith(documents, documents[k].uuid) == Some(documents[k])
  }

  /** Index uniqueness: a publication accepted through the index of a bundle rests
      on one document, the only one with the artifact's digest and the last with
      its uuid, however often other uuids repeat. */
  lemma AcceptedDocumentIsUnique(trust: Trust, policy: Policy, artifact: Bytes, controller: Controller,
                                 documents: seq<Document>, lookup: Lookup,
                                 observedEndpoint: Option<string>, captured: Option<string>)
    returns (k: nat)
    requires Indexes(lookup, documents)
    requires VerifyPublication(trust, policy, artifact, controller, lookup, observedEndpoint, captured).ok
    ensures k < |documents| && IsFound(documents, trust.sha256Hex(artifact), k)
    ensures VerifyPublication(trust, policy, artifact, controller, lookup, observedEndpoint, captured)
         == CheckRecord(trust, policy, artifact, controller, documents[k].record, documents[k].uuid, captured)
  {
    var digest := trust.sha256Hex(artifact);
    var uuids := Search(lookup, digest);
    assert uuids == UuidsFor(documents, digest) && |uuids| == 1 by { hide CheckRecord; }
    UuidsCount(documents, digest);
    k :| 0 <= k < |documents| && IsOnlyOne(documents, digest, k) && UuidsFor(documents, digest) == [documents[k].uuid];
    assert GetEntry(lookup, uuids[0]) == LastWith(documents, uuids[0]);
    var found := GetEntry(lookup, uuids[0]).value;
    hide Search, GetEntry, UuidsFor, LastWith, Indexes;
    AcceptedMatchesDigest(trust, policy, artifact, controller, found.record, uuids[0], captured);
    LastWithIsMember(documents, uuids[0]);
    hide CheckRecord;
    var i :| 0 <= i < |documents| && documents[i] == found;
    assert HashOf(found) == Some(digest);
    assert i == k;
  }

  lemma {:induction false} UuidsMany(documents: seq<Document>, hash: string, i: nat, j: nat)
    requires i < j < |documents| && HashOf(documents[i]) == Some(hash) && HashOf(documents[j]) == Some(hash)
    ensures |UuidsFor(documents, hash)| >= 2
  {
    var n := |documents| - 1;
    hide HashOf;
    if j < n {
      UuidsMany(documents[..n], hash, i, j);
    } else {
      UuidsNone(documents[..n], hash);
      assert documents[..n][i] == documents[i];
    }
  }

  /** How many documents of a bundle carry the digest decides before anything
      else: none and several are refusals of their own, whatever the documents hold. */
  lemma MatchesAreCounted(trust: Trust, policy: Policy, artifact: Bytes, controller: Controller,
                          documents: seq<Document>, lookup: Lookup, observedEndpoint: Option<string>,
                          captured: Option<string>)
    requires Indexes(lookup, documents)
    ensures var hash := trust.sha256Hex(artifact);
            var r := VerifyPublication(trust, policy, artifact, controller, lookup, observedEndpoint, captured);
            if observedEndpoint.Some? && observedEndpoint.value != policy.endpoint then r == Fail("wrong_endpoint")
            else if forall i | 0 <= i < |documents| :: HashOf(documents[i]) != Some(hash) then r == Fail("zero_matches")
            else if exists i, j | 0 <= i < j < |documents| ::
                      HashOf(documents[i]) == HashOf(documents[j]) == Some(hash)
            then r == Fail("multiple_matches")
            else exists k | 0 <= k < |documents| :: IsOnlyOne(documents, hash, k)
  {
    hide CheckRecord, HashOf, GetEntry;
    var hash := trust.sha256Hex(artifact);
    assert Search(lookup, hash) == UuidsFor(documents, hash);
    hide Search, Indexes;
    UuidsNone(documents, hash);
    if i, j :| 0 <= i < j < |documents| && HashOf(documents[i]) == HashOf(documents[j]) == Some(hash) {
      UuidsMany(documents, hash, i, j);
    } else if k :| 0 <= k < |documents| && HashOf(documents[k]) == Some(hash) {
      assert IsOnlyOne(documents, hash, k);
    }
  }

  lemma {:induction false} NoneButOne(documents: seq<Document>, hash: string, k: nat)
    requires k < |documents| && IsOnlyOne(documents, hash, k)
    ensures UuidsFor(documents, hash) == [documents[k].uuid]
    decreases |documents|
  {
    var n := |documents| - 1;
    if k < n {
      assert IsOnlyOne(documents[..n], hash, k);
      NoneButOne(documents[..n], hash, k);
    } else {
      UuidsNone(documents[..n], hash);
    }
  }

  /** The verdict over a whole bundle: accepted exactly when the endpoint is right
      and some document is the one to verify and holds. */
  lemma AcceptedExactly(trust: Trust, policy: Policy, artifact: Bytes, controller: Controller, documents: seq<Document>,
                        lookup: Lookup, observedEndpoint: Option<string>, captured: Option<string>)
    requires Indexes(lookup, documents)
    ensures VerifyPublication(trust, policy, artifact, controller, lookup, observedEndpoint, captured).ok
       <==> && (observedEndpoint.Some? ==> observedEndpoint.value == policy.endpoint)
            && exists k | 0 <= k < |documents| ::
                 && IsFound(documents, trust.sha256Hex(artifact), k)
                 && RecordHolds(trust, policy, artifact, controller, documents[k].record, captured)
  {
    hide CheckRecord, RecordHolds, IsOnlyOne, UuidsFor, LastWith, Search, GetEntry;
    var digest := trust.sha256Hex(artifact);
    assert Search(lookup, digest) == UuidsFor(documents, digest);
    if VerifyPublication(trust, policy, artifact, controller, lookup, observedEndpoint, captured).ok {
      var k :=
        AcceptedDocumentIsUnique(trust, policy, artifact, controller, documents, lookup, observedEndpoint, captured);
      RecordAcceptedExactly(trust, policy, artifact, controller, documents[k].record, documents[k].uuid, captured);
    }
    if k :| 0 <= k < |documents| && IsFound(documents, digest, k)
            && RecordHolds(trust, policy, artifact, controller, documents[k].record, captured) {
      NoneButOne(documents, digest, k);
      assert GetEntry(lookup, documents[k].uuid) == LastWith(documents, documents[k].uuid);
      RecordAcceptedExactly(trust, policy, artifact, controller, documents[k].record, documents[k].uuid, captured);
    }
  }

  /** An accepted body is in the log: if the checkpoint's root is the tree hash
      of some leaves, as many as its size, then the body is the leaf at the
      index shown, or the proof yields a collision of the hash. */
  lemma AcceptedBodyIsLogged(trust: Trust, record: Record, raw: Bytes, uuid: string, digest: string,
                             email: Option<string>, captured: Option<string>,
                             leaves: seq<Bytes>)
    requires CheckTree(trust, record, raw, uuid, digest, email, captured).ok
    requires var checkpoint := record.inclusion.value.checkpoint.value;
             checkpoint.size == Some(|leaves|) && checkpoint.root == Some(TreeHash(trust.sha256, leaves))
    ensures var inclusion := record.inclusion.value;
            && inclusion.logIndex.Some? && inclusion.logIndex.value.Integer?
            && 0 <= inclusion.logIndex.value.value < |leaves|
            && inclusion.hashes.Some? && Proof(inclusion.hashes.value).Some?
            && var m, proof := inclusion.logIndex.value.value, Proof(inclusion.hashes.value).value;
               && |proof| == PathLength(m, |leaves|)
               && match InclusionCollision(trust.sha256, m, leaves, raw, proof)
                  case Some(pair) => IsCollision(trust.sha256, pair)
                  case None => raw == leaves[m] && proof == InclusionPath(trust.sha256, m, leaves)
  {
    var inclusion := record.inclusion.value;
    hide TreeHash, InclusionPath, InclusionCollision, Proof, ClaimedRoot, PathLength;
    assert ComputedRoot(trust, inclusion, raw) == Some(TreeHash(trust.sha256, leaves));
    var m, proof := inclusion.logIndex.value.value, Proof(inclusion.hashes.value).value;
    AnswerShape(trust.sha256, inclusion.logIndex.value, inclusion.treeSize.value, HashLeaf(trust.sha256, raw), proof);
    AcceptedProofShowsLeaf(trust.sha256, m, leaves, raw, proof);
  }

  // Reordering the bundle.

  predicate DistinctUuids(documents: seq<Document>) {
    forall i, j | 0 <= i < j < |documents| && documents[i].EntryDocument? && documents[j].EntryDocument? ::
      documents[i].uuid != documents[j].uuid
  }

  lemma {:induction false} UuidsConcat(a: seq<Document>, b: seq<Document>, hash: string)
    ensures UuidsFor(a + b, hash) == UuidsFor(a, hash) + UuidsFor(b, hash)
    decreases |b|
  {
    if b == [] {
      assert a + b == a;
    } else {
      var n := |b| - 1;
      UuidsConcat(a, b[..n], hash);
      assert (a + b)[..|a + b| - 1] == a + b[..n];
    }
  }

  lemma RemoveOne<T>(a: seq<T>, b: seq<T>, k: nat)
    requires multiset(a) == multiset(b) && a != [] && k < |b| && a[|a| - 1] == b[k]
    ensures multiset(a[..|a| - 1]) == multiset(b[..k] + b[k + 1..])
  {
    var n := |a| - 1;
    Without(a, n);
    Without(b, k);
    assert a[..n] + a[n + 1..] == a[..n];
    Cancel(multiset(a[..n]), multiset(b[..k] + b[k + 1..]), b[k]);
  }

  lemma Without<T>(s: seq<T>, k: nat)
    requires k < |s|
    ensures multiset(s) == multiset(s[..k] + s[k + 1..]) + multiset{s[k]}
  {
    assert s == s[..k] + ([s[k]] + s[k + 1..]);
  }

  lemma Cancel<T>(a: multiset<T>, b: multiset<T>, x: T)
    requires a + multiset{x} == b + multiset{x}
    ensures a == b
  {
    assert a == a + multiset{x} - multiset{x} && b == b + multiset{x} - multiset{x};
  }

  lemma {:induction false} PermutedUuids(a: seq<Document>, b: seq<Document>, hash: string)
    requires multiset(a) == multiset(b)
    ensures multiset(UuidsFor(a, hash)) == multiset(UuidsFor(b, hash))
    decreases |a|
  {
    hide UuidsFor;
    if a == [] {
      assert |multiset(b)| == |b|;
      assert b == a;
    } else {
      var x, init := a[|a| - 1], a[..|a| - 1];
      assert x in multiset(b);
      var k :| 0 <= k < |b| && b[k] == x;
      RemoveOne(a, b, k);
      PermutedUuids(init, b[..k] + b[k + 1..], hash);
      UuidsAround(b, k, hash);
      assert a == init + [x];
      UuidsConcat(init, [x], hash);
    }
  }

  lemma UuidsAround(b: seq<Document>, k: nat, hash: string)
    requires k < |b|
    ensures multiset(UuidsFor(b, hash)) == multiset(UuidsFor(b[..k] + b[k + 1..], hash))
              + multiset(UuidsFor([b[k]], hash))
  {
    hide UuidsFor;
    UuidsConcat(b[..k], b[k + 1..], hash);
    assert b == b[..k] + ([b[k]] + b[k + 1..]);
    UuidsConcat(b[..k], [b[k]] + b[k + 1..], hash);
    UuidsConcat([b[k]], b[k + 1..], hash);
  }

  lemma {:induction false} LastWithFinds(documents: seq<Document>, k: nat)
    requires DistinctUuids(documents) && k < |documents| && documents[k].EntryDocument?
    ensures LastWith(documents, documents[k].uuid) == Some(documents[k])
    decreases |documents|
  {
    if k < |documents| - 1 { LastWithFinds(documents[..|documents| - 1], k); }
  }

  lemma {:induction false} LastWithNone(documents: seq<Document>, uuid: string)
    ensures LastWith(documents, uuid).None?
       <==> forall i | 0 <= i < |documents| :: !(documents[i].EntryDocument? && documents[i].uuid == uuid)
    ensures LastWith(documents, uuid).Some?
        ==> LastWith(documents, uuid).value.EntryDocument? && LastWith(documents, uuid).value.uuid == uuid
  {
    if documents != [] { LastWithNone(documents[..|documents| - 1], uuid); }
  }

  lemma PermutedLastWith(a: seq<Document>, b: seq<Document>, uuid: string)
    requires multiset(a) == multiset(b) && DistinctUuids(a) && DistinctUuids(b)
    ensures LastWith(a, uuid) == LastWith(b, uuid)
  {
    LastWithNone(a, uuid);
    LastWithNone(b, uuid);
    forall d ensures d in a <==> d in b { assert d in multiset(a) <==> d in multiset(b); }
    assert forall j | 0 <= j < |b| :: b[j] in a;
    if i :| 0 <= i < |a| && a[i].EntryDocument? && a[i].uuid == uuid {
      assert a[i] in b;
      var j :| 0 <= j < |b| && b[j] == a[i];
      LastWithFinds(a, i);
      LastWithFinds(b, j);
    }
  }

  /** Reordering a bundle whose uuids are pairwise distinct changes no verdict. */
  lemma BundleOrderNeverMatters(trust: Trust, policy: Policy, artifact: Bytes, controller: Controller,
                                a: seq<Document>, b: seq<Document>, lookupA: Lookup, lookupB: Lookup,
                                observedEndpoint: Option<string>, captured: Option<string>)
    requires multiset(a) == multiset(b) && DistinctUuids(a) && DistinctUuids(b)
    requires Indexes(lookupA, a) && Indexes(lookupB, b)
    ensures VerifyPublication(trust, policy, artifact, controller, lookupA, observedEndpoint, captured)
         == VerifyPublication(trust, policy, artifact, controller, lookupB, observedEndpoint, captured)
  {
    var digest := trust.sha256Hex(artifact);
    SearchesAgree(a, b, lookupA, lookupB, digest);
    hide CheckRecord, Search, GetEntry, Indexes;
  }

  lemma SearchesAgree(a: seq<Document>, b: seq<Document>, lookupA: Lookup, lookupB: Lookup, digest: string)
    requires multiset(a) == multiset(b) && DistinctUuids(a) && DistinctUuids(b)
    requires Indexes(lookupA, a) && Indexes(lookupB, b)
    ensures |Search(lookupA, digest)| == |Search(lookupB, digest)|
    ensures |Search(lookupA, digest)| == 1 ==>
              && Search(lookupA, digest) == Search(lookupB, digest)
              && GetEntry(lookupA, Search(lookupA, digest)[0]) == GetEntry(lookupB, Search(lookupA, digest)[0])
  {
    hide UuidsFor, LastWith, DistinctUuids;
    var u, w := Search(lookupA, digest), Search(lookupB, digest);
    PermutedUuids(a, b, digest);
    assert u == UuidsFor(a, digest) && w == UuidsFor(b, digest);
    assert |u| == |multiset(u)| == |multiset(w)| == |w|;
    if |u| == 1 {
      assert u[0] in multiset(w);
      PermutedLastWith(a, b, u[0]);
      assert GetEntry(lookupA, u[0]) == LastWith(a, u[0]) && GetEntry(lookupB, u[0]) == LastWith(b, u[0]);
    }
  }
}
