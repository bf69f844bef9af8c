/** The ordered publication events P0 < E0 < E1 < E2. */
module RekorSequence {
  import opened Common
  import opened RekorPublication

  /** What a sequence is checked against: the policy if its octets are the frozen
      ones and parse, and the artifact digests that are not allowed. */
  datatype Setting = Setting(
    trust: Trust,
    policy: Result<Policy, Reasons>,
    forbidden: set<string>,
    lookup: Lookup,
    observedEndpoint: Option<string>)

  datatype Events = Events(p0: Bytes, e0: Bytes, e1: Bytes, e2: Bytes)

  datatype SequenceResult = SequenceResult(
    ok: bool,
    reasons: Reasons,
    capturedTreeId: Option<string>,
    globalLogIndexes: seq<int>,
    publications: seq<Publication>)

  function Refused(reasons: Reasons): SequenceResult { SequenceResult(false, reasons, None, [], []) }

  function Artifacts(events: Events): (r: seq<Bytes>)
    ensures |r| == 4
  {
    [events.p0, events.e0, events.e1, events.e2]
  }

  function ControllerOf(i: nat): Controller { if i == 2 then Authority else Originator }

  function Digest(s: Setting, artifact: Bytes): string { s.trust.sha256Hex(artifact) }

  /** The check of event `i`, pinned to a captured tree or to none. */
  function Published(s: Setting, artifact: Bytes, i: nat, captured: Option<string>): Publication
    requires s.policy.Ok?
  {
    VerifyPublication(s.trust, s.policy.value, artifact, ControllerOf(i), s.lookup, s.observedEndpoint, captured)
  }

  /** The global indexes that are present. */
  function Indexed(publications: seq<Publication>): seq<int> {
    if publications == [] then []
    else
      var last := publications[|publications| - 1];
      Indexed(publications[..|publications| - 1])
      + if last.globalLogIndex.Some? then [last.globalLogIndex.value] else []
  }

  function OrderReasons(indexes: seq<int>): Reasons {
    if |indexes| <= 1 then []
    else
      var n := |indexes|;
      OrderReasons(indexes[..n - 1])
      + (if indexes[n - 1] == indexes[n - 2] then ["equal_log_index"] else [])
      + (if indexes[n - 1] < indexes[n - 2] then ["reversed_log_index"] else [])
  }

  /** Every index exceeds the one before it. */
  predicate Rising(indexes: seq<int>) { forall i | 0 < i < |indexes| :: indexes[i - 1] < indexes[i] }

  predicate OneTree(publications: seq<Publication>) {
    forall i, j | 0 <= i < |publications| && 0 <= j < |publications| :: publications[i].treeId == publications[j].treeId
  }

  // Facts about single publications.

  function CertificateOf(s: Setting, i: nat, record: Record): CertificateCheck
    requires s.policy.Ok? && record.body.Some? && record.body.value.certificate.Some? && record.integratedTime.Integer?
  {
    var selector := if ControllerOf(i) == Originator then s.policy.value.originator else s.policy.value.authority;
    s.trust.certificate(record.body.value.certificate.value, selector, record.integratedTime.value)
  }

  lemma AcceptedHasIndexAndTree(s: Setting, artifact: Bytes, i: nat, captured: Option<string>)
    requires s.policy.Ok? && Published(s, artifact, i, captured).ok
    ensures Published(s, artifact, i, captured).globalLogIndex.Some? && Published(s, artifact, i, captured).treeId.Some?
  {
    hide Search, GetEntry, CheckTree;
    var digest := Digest(s, artifact);
    var uuid := Search(s.lookup, digest)[0];
    var record := GetEntry(s.lookup, uuid).value.record;
    TreeChecked(s.trust, record, record.body.value.raw, uuid, digest,
                FirstEmail(CertificateOf(s, i, record)), captured);
  }

  lemma TreeChecked(trust: Trust, record: Record, raw: Bytes, uuid: string, digest: string, email: Option<string>,
                    captured: Option<string>)
    requires CheckTree(trust, record, raw, uuid, digest, email, captured).ok
    ensures var p := CheckTree(trust, record, raw, uuid, digest, email, captured);
            p.treeId.Some? && (p.globalLogIndex.Some? <==> record.logIndex.Integer?)
  {
    hide ComputedRoot;
  }

  /** Pinning a tree only adds the demand that the tree be that one. */
  lemma PinningATree(s: Setting, artifact: Bytes, i: nat, tree: string)
    requires s.policy.Ok?
    ensures var free, pinned := Published(s, artifact, i, None), Published(s, artifact, i, Some(tree));
            && (pinned.ok <==> free.ok && free.treeId == Some(tree))
            && (pinned.ok ==> pinned == free)
  {
    hide Search, GetEntry, CheckTree;
    if Published(s, artifact, i, None).ok || Published(s, artifact, i, Some(tree)).ok {
      var digest := Digest(s, artifact);
      var uuid := Search(s.lookup, digest)[0];
      var record := GetEntry(s.lookup, uuid).value.record;
      PinningInTree(s.trust, record, record.body.value.raw, uuid, digest,
                    FirstEmail(CertificateOf(s, i, record)), tree);
    }
  }

  lemma PinningInTree(trust: Trust, record: Record, raw: Bytes, uuid: string, digest: string, email: Option<string>,
                      tree: string)
    ensures var free := CheckTree(trust, record, raw, uuid, digest, email, None);
            var pinned := CheckTree(trust, record, raw, uuid, digest, email, Some(tree));
            (pinned.ok <==> free.ok && free.treeId == Some(tree)) && (pinned.ok ==> pinned == free)
  {
    hide ComputedRoot;
  }

  /** Events with one digest rest on one entry, whoever controls them. */
  lemma EqualDigestsEqualIndexes(s: Setting, a: Bytes, i: nat, b: Bytes, j: nat)
    requires s.policy.Ok? && Published(s, a, i, None).ok && Published(s, b, j, None).ok
    requires Digest(s, a) == Digest(s, b)
    ensures Published(s, a, i, None).globalLogIndex == Published(s, b, j, None).globalLogIndex
  {
    hide ComputedRoot, Search, GetEntry;
  }

  // The four-event sequence.

  /** What acceptance of the four events means. */
  predicate ProductionHolds(s: Setting, events: Events) {
    && s.policy.Ok?
    && var a := Artifacts(events);
       && (forall i | 0 <= i < 4 :: Digest(s, a[i]) !in s.forbidden)
       && (forall i | 0 <= i < 4 :: Published(s, a[i], i, None).ok)
       && (forall i | 0 <= i < 4 :: Published(s, a[i], i, None).treeId == Published(s, a[0], 0, None).treeId)
       && (forall i | 0 <= i < 3 :: Precedes(Published(s, a[i], i, None), Published(s, a[i + 1], i + 1, None)))
  }

  predicate Precedes(p: Publication, q: Publication) {
    p.globalLogIndex.Some? && q.globalLogIndex.Some? && p.globalLogIndex.value < q.globalLogIndex.value
  }

  /** The result lists the four publications with their indexes and their one tree. */
  predicate Reports(s: Setting, events: Events, r: SequenceResult)
    requires s.policy.Ok?
  {
    && |r.publications| == |r.globalLogIndexes| == 4
    && forall i | 0 <= i < 4 ::
         && r.publications[i] == Published(s, Artifacts(events)[i], i, None)
         && r.publications[i].globalLogIndex == Some(r.globalLogIndexes[i])
         && r.publications[i].treeId == r.capturedTreeId
  }

  /** Event `i` as it is checked: from the second event on, against the tree of the first. */
  function Pinned(s: Setting, events: Events, i: nat): Publication
    requires s.policy.Ok? && i < 4
  {
    Published(s, Artifacts(events)[i], i, if i == 0 then None else Published(s, events.p0, 0, None).treeId)
  }

  /** What any result says: the events checked up to the first one refused, with
      its reasons, or else all four with the complaints about their order. A
      second tree is only ever reported by the check of a single event. */
  predicate Accounts(s: Setting, events: Events, r: SequenceResult)
    requires s.policy.Ok?
  {
    var n := |r.publications|;
    && 1 <= n <= 4
    && (forall i | 0 <= i < n :: r.publications[i] == Pinned(s, events, i))
    && (forall i | 0 <= i < n - 1 :: r.publications[i].ok)
    && r.globalLogIndexes == Indexed(r.publications)
    && r.capturedTreeId == (if r.publications[0].ok then r.publications[0].treeId else None)
    && if r.publications[n - 1].ok then n == 4 && r.reasons == OrderReasons(r.globalLogIndexes)
       else r.reasons == r.publications[n - 1].reasons
  }

  predicate SomeForbidden(s: Setting, events: Events) {
    exists i | 0 <= i < 4 :: Digest(s, Artifacts(events)[i]) in s.forbidden
  }

  /** `verifyRekorV1ProductionSequenceV1` */
  method VerifyProductionSequence(s: Setting, events: Events) returns (r: SequenceResult)
    ensures s.policy.Err? ==> r == Refused(s.policy.error)
    ensures s.policy.Ok? && SomeForbidden(s, events) ==> r == Refused(["dummy_gate_artifact_forbidden"])
    ensures s.policy.Ok? && !SomeForbidden(s, events) ==> Accounts(s, events, r)
    ensures r.ok <==> ProductionHolds(s, events)
    ensures r.ok ==> Reports(s, events, r)
    ensures r.ok ==> r.reasons == []
  {
    hide Published, OrderReasons, Indexed;
    if s.policy.Err? { return Refused(s.policy.error); }
    var named := Artifacts(events);
    for i := 0 to |named|
      invariant forall j | 0 <= j < i :: Digest(s, named[j]) !in s.forbidden
    {
      if Digest(s, named[i]) in s.forbidden { return Refused(["dummy_gate_artifact_forbidden"]); }
    }
    var publications: seq<Publication> := [];
    var captured: Option<string> := None;
    for i := 0 to |named|
      invariant |publications| == i
      invariant forall j | 0 <= j < i :: publications[j] == Published(s, named[j], j, None) && publications[j].ok
      invariant forall j | 0 <= j < i :: publications[j] == Pinned(s, events, j)
      invariant forall j | 0 <= j < i :: publications[j].globalLogIndex.Some?
      invariant i > 0 ==> captured.Some? && captured == publications[0].treeId
      invariant i == 0 ==> captured == None
      invariant forall j | 0 <= j < i :: publications[j].treeId == captured
    {
      var publication := Published(s, named[i], i, if i == 0 then None else captured);
      if i > 0 { PinningATree(s, named[i], i, captured.value); }
      publications := publications + [publication];
      if !publication.ok {
        return SequenceResult(false, publication.reasons, captured, Indexed(publications), publications);
      }
      AcceptedHasIndexAndTree(s, named[i], i, None);
      if i == 0 { captured := publication.treeId; }
    }
    var indexes := Indexed(publications);
    FourIndexes(publications);
    var reasons := [];
    if |indexes| != 4 { reasons := reasons + ["malformed_structure"]; }
    var orderReasons := ComplainAboutOrder(indexes);
    reasons := reasons + orderReasons;
    if !OneTree(publications) { reasons := reasons + ["tree_rotation"]; }
    return SequenceResult(|reasons| == 0, reasons, captured, indexes, publications);
  }

  /** The loop over neighbouring indexes. */
  method ComplainAboutOrder(indexes: seq<int>) returns (reasons: Reasons)
    ensures reasons == OrderReasons(indexes)
    ensures reasons == [] <==> Rising(indexes)
  {
    reasons := [];
    var i := 1;
    while i < |indexes|
      invariant 1 <= i && (i <= |indexes| || |indexes| == 0)
      invariant reasons == OrderReasons(if i <= |indexes| then indexes[..i] else [])
    {
      assert indexes[..i + 1][..i] == indexes[..i];
      if indexes[i] == indexes[i - 1] { reasons := reasons + ["equal_log_index"]; }
      if indexes[i] < indexes[i - 1] { reasons := reasons + ["reversed_log_index"]; }
      i := i + 1;
    }
    assert indexes[..|indexes|] == indexes && (indexes == [] ==> reasons == []);
    NoOrderReasons(indexes);
  }

  lemma FourIndexes(publications: seq<Publication>)
    requires |publications| == 4 && forall i | 0 <= i < 4 :: publications[i].globalLogIndex.Some?
    ensures |Indexed(publications)| == 4
    ensures forall i | 0 <= i < 4 :: publications[i].globalLogIndex == Some(Indexed(publications)[i])
  {
    IndexedAll(publications);
  }

  lemma {:induction false} IndexedAll(publications: seq<Publication>)
    requires forall i | 0 <= i < |publications| :: publications[i].globalLogIndex.Some?
    ensures |Indexed(publications)| == |publications|
    ensures forall i | 0 <= i < |publications| :: publications[i].globalLogIndex == Some(Indexed(publications)[i])
  {
    if publications != [] { IndexedAll(publications[..|publications| - 1]); }
  }

  lemma {:induction false} NoOrderReasons(indexes: seq<int>)
    ensures OrderReasons(indexes) == [] <==> Rising(indexes)
  {
    if |indexes| > 1 {
      var n := |indexes|;
      NoOrderReasons(indexes[..n - 1]);
      var earlier := OrderReasons(indexes[..n - 1]);
      assert OrderReasons(indexes) == [] <==> earlier == [] && indexes[n - 2] < indexes[n - 1];
      RisingExtends(indexes);
      hide OrderReasons, Rising;
    }
  }

  lemma RisingExtends(indexes: seq<int>)
    requires |indexes| > 1
    ensures Rising(indexes) <==> indexes[|indexes| - 2] < indexes[|indexes| - 1] && Rising(indexes[..|indexes| - 1])
  {
    var n, init := |indexes|, indexes[..|indexes| - 1];
    assert forall i | 0 <= i < n - 1 :: init[i] == indexes[i];
    if Rising(init) && indexes[n - 2] < indexes[n - 1] {
      forall i | 0 < i < n ensures indexes[i - 1] < indexes[i] {
        if i < n - 1 { assert init[i - 1] < init[i]; }
      }
    }
  }

  /** An accepted sequence is strictly ordered for every pair of events, lies in
      one tree, and publishes four artifacts with pairwise different digests. */
  lemma AcceptedSequence(s: Setting, events: Events, i: nat, j: nat)
    requires ProductionHolds(s, events) && i < j < 4
    ensures var p, q := Published(s, Artifacts(events)[i], i, None), Published(s, Artifacts(events)[j], j, None);
            Precedes(p, q) && p.treeId == q.treeId
    ensures Digest(s, Artifacts(events)[i]) != Digest(s, Artifacts(events)[j])
    ensures Artifacts(events)[i] != Artifacts(events)[j]
  {
    hide Published;
    var a := Artifacts(events);
    assert Precedes(Published(s, a[0], 0, None), Published(s, a[1], 1, None));
    assert Precedes(Published(s, a[1], 1, None), Published(s, a[2], 2, None));
    assert Precedes(Published(s, a[2], 2, None), Published(s, a[3], 3, None));
    assert Published(s, a[i], i, None).treeId == Published(s, a[0], 0, None).treeId
        && Published(s, a[j], j, None).treeId == Published(s, a[0], 0, None).treeId;
    if Digest(s, a[i]) == Digest(s, a[j]) { EqualDigestsEqualIndexes(s, a[i], i, a[j], j); }
  }

  // The events by name.

  /** The check of one event, with its controller and no tree to be pinned to. */
  function Alone(s: Setting, artifact: Bytes, controller: Controller): Publication
    requires s.policy.Ok?
  {
    VerifyPublication(s.trust, s.policy.value, artifact, controller, s.lookup, s.observedEndpoint, None)
  }

  /** The four events by name: the originator publishes P0, E0 and E2, the
      authority publishes E1, in the order P0 < E0 < E1 < E2 and in one tree. */
  lemma ProductionByName(s: Setting, events: Events)
    ensures ProductionHolds(s, events)
       <==> && s.policy.Ok?
            && s.trust.sha256Hex(events.p0) !in s.forbidden && s.trust.sha256Hex(events.e0) !in s.forbidden
            && s.trust.sha256Hex(events.e1) !in s.forbidden && s.trust.sha256Hex(events.e2) !in s.forbidden
            && var p0, e0 := Alone(s, events.p0, Originator), Alone(s, events.e0, Originator);
               var e1, e2 := Alone(s, events.e1, Authority), Alone(s, events.e2, Originator);
               && p0.ok && e0.ok && e1.ok && e2.ok
               && p0.treeId == e0.treeId == e1.treeId == e2.treeId
               && Precedes(p0, e0) && Precedes(e0, e1) && Precedes(e1, e2)
  {
    hide VerifyPublication;
    if s.policy.Ok? {
      EventsByName(s, events);
      var a := Artifacts(events);
      assert Digest(s, a[0]) == s.trust.sha256Hex(events.p0) && Digest(s, a[1]) == s.trust.sha256Hex(events.e0)
          && Digest(s, a[2]) == s.trust.sha256Hex(events.e1) && Digest(s, a[3]) == s.trust.sha256Hex(events.e2);
    }
  }

  lemma EventsByName(s: Setting, events: Events)
    requires s.policy.Ok?
    ensures Published(s, Artifacts(events)[0], 0, None) == Alone(s, events.p0, Originator)
    ensures Published(s, Artifacts(events)[1], 1, None) == Alone(s, events.e0, Originator)
    ensures Published(s, Artifacts(events)[2], 2, None) == Alone(s, events.e1, Authority)
    ensures Published(s, Artifacts(events)[3], 3, None) == Alone(s, events.e2, Originator)
  {
    hide VerifyPublication;
  }

  /** What an accepted sequence reports, event by event. */
  lemma ReportsByName(s: Setting, events: Events, r: SequenceResult)
    requires s.policy.Ok? && Reports(s, events, r)
    ensures r.publications == [Alone(s, events.p0, Originator), Alone(s, events.e0, Originator),
                               Alone(s, events.e1, Authority), Alone(s, events.e2, Originator)]
    ensures r.globalLogIndexes == [r.publications[0].globalLogIndex.value, r.publications[1].globalLogIndex.value,
                                   r.publications[2].globalLogIndex.value, r.publications[3].globalLogIndex.value]
    ensures r.capturedTreeId == Alone(s, events.p0, Originator).treeId
  {
    hide VerifyPublication, Published;
    EventsByName(s, events);
    var p := r.publications;
    assert p == [p[0], p[1], p[2], p[3]];
  }

  /** Some index and the next are related so. */
  predicate Neighbours(indexes: seq<int>, related: (int, int) -> bool) {
    exists i | 0 < i < |indexes| :: related(indexes[i - 1], indexes[i])
  }

  /** Each complaint names what is there: two neighbours with one index, or two
      neighbours in the wrong order. */
  lemma {:induction false} ComplaintsMean(indexes: seq<int>)
    ensures "equal_log_index" in OrderReasons(indexes) <==> Neighbours(indexes, (a, b) => a == b)
    ensures "reversed_log_index" in OrderReasons(indexes) <==> Neighbours(indexes, (a, b) => a > b)
  {
    if |indexes| > 1 {
      ComplaintsMean(indexes[..|indexes| - 1]);
      NeighboursExtend(indexes, (a, b) => a == b);
      NeighboursExtend(indexes, (a, b) => a > b);
      hide Neighbours;
    }
  }

  lemma NeighboursExtend(indexes: seq<int>, related: (int, int) -> bool)
    requires |indexes| > 1
    ensures Neighbours(indexes, related)
       <==> || Neighbours(indexes[..|indexes| - 1], related)
            || related(indexes[|indexes| - 2], indexes[|indexes| - 1])
  {
    var init := indexes[..|indexes| - 1];
    assert forall i | 0 < i < |init| :: related(init[i - 1], init[i]) <==> related(indexes[i - 1], indexes[i]);
  }

  // The two-event sequence.

  function PairReasons(first: int, second: int): Reasons {
    (if first == second then ["equal_log_index"] else []) + (if first > second then ["reversed_log_index"] else [])
  }

  /** `verifyRekorV1IntendedEligibilitySequenceV1` */
  function VerifyEligibilitySequence(s: Setting, p0Artifact: Bytes, e0Artifact: Bytes): SequenceResult {
    if s.policy.Err? then Refused(s.policy.error)
    else if Digest(s, p0Artifact) in s.forbidden || Digest(s, e0Artifact) in s.forbidden
    then Refused(["dummy_gate_artifact_forbidden"])
    else
      var p0 := Published(s, p0Artifact, 0, None);
      if !p0.ok then SequenceResult(false, p0.reasons, None, [], [p0])
      else
        var e0 := Published(s, e0Artifact, 1, p0.treeId);
        var indexes := Indexed([p0, e0]);
        if !e0.ok then SequenceResult(false, e0.reasons, p0.treeId, indexes, [p0, e0])
        else
          var reasons :=
            (if |indexes| != 2 then ["malformed_structure"] else PairReasons(indexes[0], indexes[1]))
            + (if p0.treeId != e0.treeId then ["tree_rotation"] else []);
          SequenceResult(reasons == [], reasons, p0.treeId, indexes, [p0, e0])
  }

  /** Acceptance of the two events, without reference to the order of checks:
      the originator publishes both. */
  lemma EligibilityExactly(s: Setting, p0Artifact: Bytes, e0Artifact: Bytes)
    ensures var r := VerifyEligibilitySequence(s, p0Artifact, e0Artifact);
            && (r.ok <==>
                  && s.policy.Ok?
                  && s.trust.sha256Hex(p0Artifact) !in s.forbidden && s.trust.sha256Hex(e0Artifact) !in s.forbidden
                  && var p0, e0 := Alone(s, p0Artifact, Originator), Alone(s, e0Artifact, Originator);
                     p0.ok && e0.ok && p0.treeId == e0.treeId && Precedes(p0, e0))
            && (r.ok ==> r.publications == [Alone(s, p0Artifact, Originator), Alone(s, e0Artifact, Originator)])
  {
    if s.policy.Ok? {
      assert Published(s, p0Artifact, 0, None) == Alone(s, p0Artifact, Originator)
          && Published(s, e0Artifact, 1, None) == Alone(s, e0Artifact, Originator) by { hide VerifyPublication; }
    }
    hide Published, Alone;
    if s.policy.Ok? && Published(s, p0Artifact, 0, None).ok {
      AcceptedHasIndexAndTree(s, p0Artifact, 0, None);
      PinningATree(s, e0Artifact, 1, Published(s, p0Artifact, 0, None).treeId.value);
      if Published(s, e0Artifact, 1, None).ok {
        AcceptedHasIndexAndTree(s, e0Artifact, 1, None);
        IndexedAll([Published(s, p0Artifact, 0, None), Published(s, e0Artifact, 1, None)]);
      }
    }
    hide Indexed;
  }

  /** P0 is refused, E0 is refused, or both are checked and their order is judged. */
  predicate PairAccounts(p0: Publication, e0: Publication, r: SequenceResult) {
    if !p0.ok then !r.ok && r.publications == [p0] && r.reasons == p0.reasons && r.capturedTreeId == None
    else
      && r.publications == [p0, e0] && r.capturedTreeId == p0.treeId
      && (!e0.ok ==> !r.ok && r.reasons == e0.reasons)
      && (e0.ok ==>
            && |r.globalLogIndexes| == 2 && r.reasons == OrderReasons(r.globalLogIndexes)
            && p0.globalLogIndex == Some(r.globalLogIndexes[0]) && e0.globalLogIndex == Some(r.globalLogIndexes[1]))
  }

  /** What the two-event check says of allowed artifacts, E0 being checked against
      the tree of P0, and both for the originator. */
  lemma EligibilityAccounts(s: Setting, p0Artifact: Bytes, e0Artifact: Bytes)
    requires s.policy.Ok?
    requires s.trust.sha256Hex(p0Artifact) !in s.forbidden && s.trust.sha256Hex(e0Artifact) !in s.forbidden
    ensures var p0 := Alone(s, p0Artifact, Originator);
            var e0 := VerifyPublication(s.trust, s.policy.value, e0Artifact, Originator, s.lookup,
                                        s.observedEndpoint, p0.treeId);
            PairAccounts(p0, e0, VerifyEligibilitySequence(s, p0Artifact, e0Artifact))
  {
    hide VerifyPublication, OrderReasons, Indexed;
    var p0 := Published(s, p0Artifact, 0, None);
    var e0 := Published(s, e0Artifact, 1, p0.treeId);
    if p0.ok && e0.ok {
      AcceptedHasIndexAndTree(s, p0Artifact, 0, None);
      PinningATree(s, e0Artifact, 1, p0.treeId.value);
      AcceptedHasIndexAndTree(s, e0Artifact, 1, None);
      IndexedAll([p0, e0]);
      PairComplaints(p0.globalLogIndex.value, e0.globalLogIndex.value);
      assert Indexed([p0, e0]) == [p0.globalLogIndex.value, e0.globalLogIndex.value];
    }
  }

  lemma PairComplaints(first: int, second: int)
    ensures PairReasons(first, second) == OrderReasons([first, second])
  {
    assert [first, second][..1] == [first];
  }

  /** The first two events of an accepted sequence are accepted on their own,
      with the same publications, indexes and tree. */
  lemma EligibilityFollows(s: Setting, events: Events)
    requires ProductionHolds(s, events)
    ensures var r := VerifyEligibilitySequence(s, events.p0, events.e0);
            var p0, e0 := Published(s, events.p0, 0, None), Published(s, events.e0, 1, None);
            && r.ok && r.publications == [p0, e0] && r.capturedTreeId == p0.treeId == e0.treeId
            && |r.globalLogIndexes| == 2
            && p0.globalLogIndex == Some(r.globalLogIndexes[0]) && e0.globalLogIndex == Some(r.globalLogIndexes[1])
            && r.globalLogIndexes[0] < r.globalLogIndexes[1]
  {
    hide Published;
    var a := Artifacts(events);
    assert a[0] == events.p0 && a[1] == events.e0;
    var p0, e0 := Published(s, a[0], 0, None), Published(s, a[1], 1, None);
    assert Digest(s, a[0]) !in s.forbidden && Digest(s, a[1]) !in s.forbidden && p0.ok && e0.ok;
    assert p0.treeId == e0.treeId && Precedes(p0, e0);
    AcceptedHasIndexAndTree(s, a[0], 0, None);
    PinningATree(s, a[1], 1, p0.treeId.value);
    IndexedAll([p0, e0]);
    hide Indexed;
  }
}
