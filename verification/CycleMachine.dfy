/** The closed-cycle machine of the transformation-stability auditor. */
module CycleMachine {
  import opened Common

  /** A JSON value as Python reads it. */
  datatype Json =
    | JNull
    | JBool(b: bool)
    | JInt(n: int)
    | JStr(s: string)
    | JList(items: seq<Json>)
    | JDict(fields: map<string, Json>)

  type Node = map<string, Json>

  predicate Truthy(v: Json) {
    match v
    case JNull => false
    case JBool(b) => b
    case JInt(n) => n != 0
    case JStr(s) => s != ""
    case JList(items) => items != []
    case JDict(fields) => fields != map[]
  }

  /** `node.get(field)`, read as a condition. */
  predicate Holds(node: Node, field: string) { field in node && Truthy(node[field]) }

  datatype Op = Op(op: string, field: string, value: Json)

  datatype Edge = Edge(edgeId: string, ops: seq<Op>)

  predicate Supported(ops: seq<Op>) { forall o | o in ops :: o.op == "set_field" }

  /** The node after all assignments, later ones overriding earlier ones. */
  function Apply(node: Node, ops: seq<Op>): Node {
    if ops == [] then node
    else Apply(node, ops[..|ops| - 1])[ops[|ops| - 1].field := ops[|ops| - 1].value]
  }

  /** `apply_ops`: a copy with every field set; an unknown operation raises. */
  method ApplyOps(node: Node, ops: seq<Op>) returns (next: Option<Node>)
    ensures next == if Supported(ops) then Some(Apply(node, ops)) else None
  {
    var nextNode := node;
    for i := 0 to |ops|
      invariant Supported(ops[..i]) && nextNode == Apply(node, ops[..i])
    {
      assert ops[..i + 1][..i] == ops[..i] && ops[..i + 1] == ops[..i] + [ops[i]];
      if ops[i].op != "set_field" {
        assert ops[i] in ops;
        return None;
      }
      nextNode := nextNode[ops[i].field := ops[i].value];
    }
    assert ops[..|ops|] == ops;
    return Some(nextNode);
  }

  /** A field that no operation names keeps its value. */
  lemma {:induction false} UntouchedField(node: Node, ops: seq<Op>, field: string)
    requires forall o | o in ops :: o.field != field
    ensures field in Apply(node, ops) <==> field in node
    ensures field in node ==> Apply(node, ops)[field] == node[field]
  {
    if ops != [] { UntouchedField(node, ops[..|ops| - 1], field); }
  }

  /** Of several assignments to one field the last one counts. */
  lemma {:induction false} LastAssignmentWins(node: Node, ops: seq<Op>, i: nat)
    requires i < |ops| && forall j | i < j < |ops| :: ops[j].field != ops[i].field
    ensures ops[i].field in Apply(node, ops) && Apply(node, ops)[ops[i].field] == ops[i].value
  {
    if i < |ops| - 1 { LastAssignmentWins(node, ops[..|ops| - 1], i); }
  }

  datatype Observation = Observation(verdict: string, observation: Json, telemetry: Json, forbidden: Json)

  datatype Recomputed = Raises | Unresolved(reason: string) | Evaluated(result: Observation)

  /** Python compares integers and Booleans with zero, and nothing else. */
  function AtLeastZero(v: Json): Option<bool> {
    match v
    case JInt(n) => Some(n >= 0)
    case JBool(_) => Some(true)
    case _ => None
  }

  /** `cycle_recompute`: a missing field or an incomparable value raises. */
  function Recompute(node: Node): Recomputed {
    if Holds(node, "unresolved") then Unresolved("worker_timeout")
    else if "value" !in node || AtLeastZero(node["value"]).None? then Raises
    else if "observation" !in node || "telemetry" !in node || "forbidden" !in node then Raises
    else
      Evaluated(Observation(if AtLeastZero(node["value"]).value then "accept" else "reject",
                            node["observation"], node["telemetry"], node["forbidden"]))
  }

  /** Any canonicalizer of JSON values. */
  type Canonicalizer = Json -> string

  // `cycle_projections`, canonicalized.

  function NormativeText(canon: Canonicalizer, r: Observation): string {
    canon(JDict(map["verdict" := JStr(r.verdict)]))
  }

  function ForbiddenText(canon: Canonicalizer, r: Observation): string { canon(JDict(map["forbidden" := r.forbidden])) }

  predicate SameProjections(canon: Canonicalizer, a: Observation, b: Observation) {
    NormativeText(canon, a) == NormativeText(canon, b) && ForbiddenText(canon, a) == ForbiddenText(canon, b)
  }

  datatype Classification = Stable | Violation | UnresolvedCycle | OutOfDomain

  datatype Outcome = Raised | Verdict(classification: Classification, failedEdge: Option<string>,
                                      reason: Option<string>)

  const STABLE: Outcome := Verdict(Stable, None, None)

  function OutOfDomainReason(edgeId: string): string { edgeId + "_out_of_domain" }

  /** What is wrong with taking `edge` from `node`, judged against one fixed reference result. */
  function EdgeFault(canon: Canonicalizer, reference: Observation, node: Node, edge: Edge): Option<Outcome> {
    if !Holds(node, "inDomain") then Some(Verdict(OutOfDomain, Some(edge.edgeId), Some(OutOfDomainReason(edge.edgeId))))
    else if !Supported(edge.ops) then Some(Raised)
    else
      match Recompute(Apply(node, edge.ops))
      case Raises => Some(Raised)
      case Unresolved(reason) => Some(Verdict(UnresolvedCycle, Some(edge.edgeId), Some(reason)))
      case Evaluated(result) =>
        if NormativeText(canon, reference) != NormativeText(canon, result)
        then Some(Verdict(Violation, Some(edge.edgeId), Some("normative_projection_mismatch")))
        else if ForbiddenText(canon, reference) != ForbiddenText(canon, result)
        then Some(Verdict(Violation, Some(edge.edgeId), Some("forbidden_variant_mismatch")))
        else None
  }

  /** The first fault along the edges, always against the same reference. */
  function JudgeEdges(canon: Canonicalizer, reference: Observation, node: Node, edges: seq<Edge>): Outcome
    decreases |edges|
  {
    if edges == [] then STABLE
    else
      match EdgeFault(canon, reference, node, edges[0])
      case Some(outcome) => outcome
      case None => JudgeEdges(canon, reference, Apply(node, edges[0].ops), edges[1..])
  }

  /** The verdict of a run: every node is judged against the start. */
  function Judge(canon: Canonicalizer, start: Node, edges: seq<Edge>): Outcome {
    match Recompute(start)
    case Raises => Raised
    case Unresolved(reason) => Verdict(UnresolvedCycle, None, Some(reason))
    case Evaluated(result) => JudgeEdges(canon, result, start, edges)
  }

  lemma FaultIgnoresRepresentative(canon: Canonicalizer, a: Observation, b: Observation, node: Node, edge: Edge)
    requires SameProjections(canon, a, b)
    ensures EdgeFault(canon, a, node, edge) == EdgeFault(canon, b, node, edge)
  {
  }

  /** `evaluate_cycle_independent`. The code compares each node with the one
      before it; the verdict is the one that compares each node with the start,
      and the two endpoint exits are never taken. */
  method EvaluateCycle(canon: Canonicalizer, start: Node, edges: seq<Edge>) returns (outcome: Outcome)
    ensures outcome == Judge(canon, start, edges)
  {
    var startState := Recompute(start);
    if startState.Raises? { return Raised; }
    if startState.Unresolved? { return Verdict(UnresolvedCycle, None, Some(startState.reason)); }
    var currentNode, previous := start, startState.result;
    for i := 0 to |edges|
      invariant SameProjections(canon, startState.result, previous)
      invariant JudgeEdges(canon, startState.result, currentNode, edges[i..]) == Judge(canon, start, edges)
    {
      var edge := edges[i];
      assert edges[i..][1..] == edges[i + 1..];
      FaultIgnoresRepresentative(canon, startState.result, previous, currentNode, edge);
      if !Holds(currentNode, "inDomain") {
        return Verdict(OutOfDomain, Some(edge.edgeId), Some(OutOfDomainReason(edge.edgeId)));
      }
      var nextNode := ApplyOps(currentNode, edge.ops);
      if nextNode.None? { return Raised; }
      var next := Recompute(nextNode.value);
      if next.Raises? { return Raised; }
      if next.Unresolved? { return Verdict(UnresolvedCycle, Some(edge.edgeId), Some(next.reason)); }
      if NormativeText(canon, previous) != NormativeText(canon, next.result)
         || ForbiddenText(canon, previous) != ForbiddenText(canon, next.result) {
        var reason := if NormativeText(canon, previous) != NormativeText(canon, next.result)
                      then "normative_projection_mismatch" else "forbidden_variant_mismatch";
        return Verdict(Violation, Some(edge.edgeId), Some(reason));
      }
      currentNode, previous := nextNode.value, next.result;
    }
    if NormativeText(canon, startState.result) != NormativeText(canon, previous)
       || ForbiddenText(canon, startState.result) != ForbiddenText(canon, previous) {
      assert false; // the endpoint exits
    }
    return STABLE;
  }

  // Whole runs.

  /** The node reached after the first `i` edges, whatever happens on the way. */
  function NodeAt(start: Node, edges: seq<Edge>, i: nat): Node
    requires i <= |edges|
  {
    if i == 0 then start else Apply(NodeAt(start, edges, i - 1), edges[i - 1].ops)
  }

  /** Edge `i` applies in domain and lands on a node with the projections of `reference`. */
  predicate Keeps(canon: Canonicalizer, reference: Observation, start: Node, edges: seq<Edge>, i: nat)
    requires i < |edges|
  {
    && Holds(NodeAt(start, edges, i), "inDomain") && Supported(edges[i].ops)
    && Recompute(NodeAt(start, edges, i + 1)).Evaluated?
    && SameProjections(canon, reference, Recompute(NodeAt(start, edges, i + 1)).result)
  }

  lemma {:induction false} NodeAtShift(start: Node, edges: seq<Edge>, i: nat)
    requires i < |edges|
    ensures NodeAt(start, edges, i + 1) == NodeAt(Apply(start, edges[0].ops), edges[1..], i)
  {
    if i > 0 { NodeAtShift(start, edges, i - 1); }
  }

  /** The verdict is the fault of the first edge that has one; with no such edge the run is stable. */
  lemma {:induction false} FirstFaultDecides(canon: Canonicalizer, reference: Observation, start: Node,
                                             edges: seq<Edge>, k: nat)
    requires k <= |edges| && forall i | 0 <= i < k ::
               EdgeFault(canon, reference, NodeAt(start, edges, i), edges[i]) == None
    requires k < |edges| ==> EdgeFault(canon, reference, NodeAt(start, edges, k), edges[k]).Some?
    ensures JudgeEdges(canon, reference, start, edges)
         == if k < |edges| then EdgeFault(canon, reference, NodeAt(start, edges, k), edges[k]).value else STABLE
    decreases k
  {
    hide EdgeFault, Apply;
    if k > 0 {
      var next, tail := Apply(start, edges[0].ops), edges[1..];
      assert EdgeFault(canon, reference, NodeAt(start, edges, 0), edges[0]) == None;
      forall i | 0 <= i < |tail| ensures NodeAt(next, tail, i) == NodeAt(start, edges, i + 1) {
        NodeAtShift(start, edges, i);
      }
      FirstFaultDecides(canon, reference, next, tail, k - 1);
    }
  }

  lemma FaultIffNotKept(canon: Canonicalizer, reference: Observation, start: Node, edges: seq<Edge>, i: nat)
    requires i < |edges|
    ensures EdgeFault(canon, reference, NodeAt(start, edges, i), edges[i]) == None
       <==> Keeps(canon, reference, start, edges, i)
    ensures EdgeFault(canon, reference, NodeAt(start, edges, i), edges[i]) != Some(STABLE)
  {
  }

  lemma FirstFault(canon: Canonicalizer, reference: Observation, start: Node, edges: seq<Edge>) returns (k: nat)
    ensures k <= |edges| && forall i | 0 <= i < k ::
              EdgeFault(canon, reference, NodeAt(start, edges, i), edges[i]) == None
    ensures k < |edges| ==> EdgeFault(canon, reference, NodeAt(start, edges, k), edges[k]).Some?
  {
    hide EdgeFault;
    k := 0;
    while k < |edges| && EdgeFault(canon, reference, NodeAt(start, edges, k), edges[k]) == None
      invariant k <= |edges| && forall i | 0 <= i < k ::
                  EdgeFault(canon, reference, NodeAt(start, edges, i), edges[i]) == None
    {
      k := k + 1;
    }
  }

  /** Stable runs: the start resolves, every edge applies in domain and resolves,
      and every node visited has the start's projections. */
  lemma StableIff(canon: Canonicalizer, start: Node, edges: seq<Edge>)
    ensures Judge(canon, start, edges) == STABLE
       <==> && Recompute(start).Evaluated?
            && forall i | 0 <= i < |edges| :: Keeps(canon, Recompute(start).result, start, edges, i)
  {
    if Recompute(start).Evaluated? {
      var reference := Recompute(start).result;
      forall i | 0 <= i < |edges|
        ensures EdgeFault(canon, reference, NodeAt(start, edges, i), edges[i]) == None
           <==> Keeps(canon, reference, start, edges, i)
        ensures EdgeFault(canon, reference, NodeAt(start, edges, i), edges[i]) != Some(STABLE)
      {
        FaultIffNotKept(canon, reference, start, edges, i);
      }
      var k := FirstFault(canon, reference, start, edges);
      FirstFaultDecides(canon, reference, start, edges, k);
      hide EdgeFault, Keeps;
    }
  }

  lemma {:induction false} JudgeConcat(canon: Canonicalizer, reference: Observation, node: Node, first: seq<Edge>,
                                       rest: seq<Edge>)
    ensures JudgeEdges(canon, reference, node, first + rest)
         == if JudgeEdges(canon, reference, node, first) != STABLE then JudgeEdges(canon, reference, node, first)
            else JudgeEdges(canon, reference, NodeAt(node, first, |first|), rest)
    decreases |first|
  {
    if first == [] {
      assert first + rest == rest;
    } else {
      var next := Apply(node, first[0].ops);
      FaultIffNotKept(canon, reference, node, first, 0);
      hide EdgeFault;
      JudgeConcat(canon, reference, next, first[1..], rest);
      assert (first + rest)[1..] == first[1..] + rest;
      NodeAtShift(node, first, |first| - 1);
    }
  }

  lemma {:induction false} JudgeIgnoresRepresentative(canon: Canonicalizer, a: Observation, b: Observation, node: Node,
                                                      edges: seq<Edge>)
    requires SameProjections(canon, a, b)
    ensures JudgeEdges(canon, a, node, edges) == JudgeEdges(canon, b, node, edges)
    decreases |edges|
  {
    if edges != [] {
      FaultIgnoresRepresentative(canon, a, b, node, edges[0]);
      JudgeIgnoresRepresentative(canon, a, b, Apply(node, edges[0].ops), edges[1..]);
    }
  }

  /** Later edges never repair a run that is not stable. */
  lemma FailureIsFinal(canon: Canonicalizer, start: Node, first: seq<Edge>, rest: seq<Edge>)
    requires Judge(canon, start, first) != STABLE
    ensures Judge(canon, start, first + rest) == Judge(canon, start, first)
  {
    if Recompute(start).Evaluated? { JudgeConcat(canon, Recompute(start).result, start, first, rest); }
  }

  /** A stable run continues as a run of its own from the node where it ends. */
  lemma StableRunContinues(canon: Canonicalizer, start: Node, first: seq<Edge>, rest: seq<Edge>)
    requires Judge(canon, start, first) == STABLE
    ensures Judge(canon, start, first + rest) == Judge(canon, NodeAt(start, first, |first|), rest)
  {
    var reference, end := Recompute(start).result, NodeAt(start, first, |first|);
    StableIff(canon, start, first);
    JudgeConcat(canon, reference, start, first, rest);
    if first != [] { assert Keeps(canon, reference, start, first, |first| - 1); }
    hide Judge, JudgeEdges;
    JudgeIgnoresRepresentative(canon, reference, Recompute(end).result, end, rest);
    JudgeOfEvaluated(canon, start, first + rest);
    JudgeOfEvaluated(canon, end, rest);
  }

  lemma JudgeOfEvaluated(canon: Canonicalizer, start: Node, edges: seq<Edge>)
    requires Recompute(start).Evaluated?
    ensures Judge(canon, start, edges) == JudgeEdges(canon, Recompute(start).result, start, edges)
  {
  }
}

/** Classifying a recorded run from its per-edge flags alone. */
module CycleTrace {
  import opened Common
  import opened CycleMachine

  datatype EdgeState = EvaluatedEdge | NotApplicable | ExecutionUnresolved

  /** A flag is absent where nothing was compared. */
  datatype EdgeRecord = EdgeRecord(
    edgeId: string,
    state: EdgeState,
    reason: Option<string>,
    normativeMatch: Option<bool>,
    forbiddenMatch: Option<bool>)

  datatype Endpoint = Endpoint(normativeMatch: Option<bool>, forbiddenMatch: Option<bool>)

  datatype Observed = Observed(orderedEdgeIds: seq<string>, edges: seq<EdgeRecord>, endpoint: Option<Endpoint>)

  const NO: Option<bool> := Some(false)

  /** The outcome a single record settles, if it settles one. */
  function RecordFault(e: EdgeRecord): Option<Outcome> {
    match e.state
    case NotApplicable => Some(Verdict(OutOfDomain, Some(e.edgeId), e.reason))
    case ExecutionUnresolved => Some(Verdict(UnresolvedCycle, Some(e.edgeId), e.reason))
    case EvaluatedEdge =>
      if e.normativeMatch == NO then Some(Verdict(Violation, Some(e.edgeId), Some("normative_projection_mismatch")))
      else if e.forbiddenMatch == NO then Some(Verdict(Violation, Some(e.edgeId), Some("forbidden_variant_mismatch")))
      else None
  }

  /** The end of `classify_cycle`, once no edge has settled the matter. A trace
      that is too short, or has no endpoint, raises. */
  function ClassifyEnd(observed: Observed): Outcome {
    if |observed.edges| < |observed.orderedEdgeIds| || observed.endpoint.None? then Raised
    else if observed.endpoint.value.normativeMatch == NO
      then Verdict(Violation, None, Some("endpoint_normative_projection_mismatch"))
    else if observed.endpoint.value.forbiddenMatch == NO
      then Verdict(Violation, None, Some("endpoint_forbidden_variant_mismatch"))
    else STABLE
  }

  function ClassifyFrom(observed: Observed, edges: seq<EdgeRecord>): Outcome {
    if edges == [] then ClassifyEnd(observed)
    else
      match RecordFault(edges[0])
      case Some(outcome) => outcome
      case None => ClassifyFrom(observed, edges[1..])
  }

  /** `classify_cycle` */
  method ClassifyCycle(observed: Observed) returns (outcome: Outcome)
    ensures outcome == ClassifyFrom(observed, observed.edges)
  {
    var edges := observed.edges;
    assert edges[0..] == edges;
    for i := 0 to |edges|
      invariant ClassifyFrom(observed, edges[i..]) == ClassifyFrom(observed, edges)
    {
      var edge := edges[i];
      assert edges[i..][1..] == edges[i + 1..];
      if edge.state.NotApplicable? { return Verdict(OutOfDomain, Some(edge.edgeId), edge.reason); }
      if edge.state.ExecutionUnresolved? { return Verdict(UnresolvedCycle, Some(edge.edgeId), edge.reason); }
      if edge.normativeMatch == NO || edge.forbiddenMatch == NO {
        var reason :=
          if edge.normativeMatch == NO then "normative_projection_mismatch" else "forbidden_variant_mismatch";
        return Verdict(Violation, Some(edge.edgeId), Some(reason));
      }
    }
    if |edges| < |observed.orderedEdgeIds| || observed.endpoint.None? { return Raised; }
    var endpoint := observed.endpoint.value;
    if endpoint.normativeMatch == NO || endpoint.forbiddenMatch == NO {
      var reason := if endpoint.normativeMatch == NO
                    then "endpoint_normative_projection_mismatch" else "endpoint_forbidden_variant_mismatch";
      return Verdict(Violation, None, Some(reason));
    }
    return STABLE;
  }

  // Recording a run of the machine.

  /** What the machine sees at one edge, comparing with the previous result; the
      result reached, unless the run ends here. Nothing is recorded for a run that raises. */
  datatype Step = Aborts | Ends(record: EdgeRecord) | Goes(record: EdgeRecord, node: Node, result: Observation)

  function TakeEdge(canon: Canonicalizer, previous: Observation, node: Node, edge: Edge): Step {
    if !Holds(node, "inDomain")
      then Ends(EdgeRecord(edge.edgeId, NotApplicable, Some(OutOfDomainReason(edge.edgeId)), None, None))
    else if !Supported(edge.ops) then Aborts
    else
      var next := Apply(node, edge.ops);
      match Recompute(next)
      case Raises => Aborts
      case Unresolved(reason) => Ends(EdgeRecord(edge.edgeId, ExecutionUnresolved, Some(reason), None, None))
      case Evaluated(result) =>
        var n := NormativeText(canon, previous) == NormativeText(canon, result);
        var f := ForbiddenText(canon, previous) == ForbiddenText(canon, result);
        var record := EdgeRecord(edge.edgeId, EvaluatedEdge, None, Some(n), Some(f));
        if n && f then Goes(record, next, result) else Ends(record)
  }

  datatype Recording = Recording(edges: seq<EdgeRecord>, last: Option<Observation>, aborted: bool)

  /** The records of a run up to and including the edge that ends it, and the
      last result when every edge went through. */
  function Record(canon: Canonicalizer, previous: Observation, node: Node, edges: seq<Edge>): Recording
    decreases |edges|
  {
    if edges == [] then Recording([], Some(previous), false)
    else
      match TakeEdge(canon, previous, node, edges[0])
      case Aborts => Recording([], None, true)
      case Ends(record) => Recording([record], None, false)
      case Goes(record, next, result) =>
        var rest := Record(canon, result, next, edges[1..]);
        Recording([record] + rest.edges, rest.last, rest.aborted)
  }

  function EdgeIds(edges: seq<Edge>): (ids: seq<string>)
    ensures |ids| == |edges|
  {
    seq(|edges|, i requires 0 <= i < |edges| => edges[i].edgeId)
  }

  /** The trace file of a run: endpoint flags compare the last result with the first. */
  function TraceOf(canon: Canonicalizer, first: Observation, edges: seq<Edge>, recording: Recording): Observed {
    Observed(EdgeIds(edges), recording.edges,
             match recording.last
             case None => None
             case Some(last) =>
               Some(Endpoint(Some(NormativeText(canon, first) == NormativeText(canon, last)),
                             Some(ForbiddenText(canon, first) == ForbiddenText(canon, last)))))
  }

  lemma StepAgrees(canon: Canonicalizer, first: Observation, previous: Observation, node: Node, edge: Edge)
    requires SameProjections(canon, first, previous)
    ensures match TakeEdge(canon, previous, node, edge)
            case Aborts => EdgeFault(canon, first, node, edge) == Some(Raised)
            case Ends(record) => EdgeFault(canon, first, node, edge) == RecordFault(record) != None
            case Goes(record, next, result) =>
              && EdgeFault(canon, first, node, edge) == None == RecordFault(record)
              && next == Apply(node, edge.ops) && SameProjections(canon, first, result)
  {
  }

  lemma {:induction false} RecordingAgrees(canon: Canonicalizer, first: Observation, previous: Observation, node: Node,
                                           edges: seq<Edge>, trace: Observed)
    requires SameProjections(canon, first, previous)
    requires var r := Record(canon, previous, node, edges);
             !r.aborted && (r.last.Some? && |r.edges| == |edges| ==> ClassifyEnd(trace) == STABLE)
    ensures ClassifyFrom(trace, Record(canon, previous, node, edges).edges) == JudgeEdges(canon, first, node, edges)
    decreases |edges|
  {
    if edges != [] {
      StepAgrees(canon, first, previous, node, edges[0]);
      var step := TakeEdge(canon, previous, node, edges[0]);
      hide TakeEdge, EdgeFault, RecordFault, SameProjections;
      if step.Goes? {
        RecordingAgrees(canon, first, step.result, step.node, edges[1..], trace);
        assert Record(canon, previous, node, edges).edges[1..]
            == Record(canon, step.result, step.node, edges[1..]).edges;
      } else {
        assert step.Ends?;
        assert Record(canon, previous, node, edges).edges == [step.record];
      }
    }
  }

  lemma {:induction false} RecordingShape(canon: Canonicalizer, first: Observation, previous: Observation, node: Node,
                                          edges: seq<Edge>)
    requires SameProjections(canon, first, previous)
    ensures var r := Record(canon, previous, node, edges);
            && (r.aborted <==> JudgeEdges(canon, first, node, edges) == Raised)
            && (r.last.Some? ==> |r.edges| == |edges| && SameProjections(canon, first, r.last.value))
    decreases |edges|
  {
    if edges != [] {
      StepAgrees(canon, first, previous, node, edges[0]);
      var step := TakeEdge(canon, previous, node, edges[0]);
      if step.Goes? { RecordingShape(canon, first, step.result, step.node, edges[1..]); }
      hide TakeEdge, EdgeFault;
    }
  }

  /** For every run that resolves at its start: the recording is cut off exactly
      when the run raises, and otherwise re-classifying the trace gives the verdict
      of the run, with the same class, edge and reason. In particular the
      short-trace assertion never fires. */
  lemma ReclassificationAgrees(canon: Canonicalizer, start: Node, edges: seq<Edge>)
    requires Recompute(start).Evaluated?
    ensures var first := Recompute(start).result;
            var recording := Record(canon, first, start, edges);
            var trace := TraceOf(canon, first, edges, recording);
            if recording.aborted then Judge(canon, start, edges) == Raised
            else ClassifyFrom(trace, trace.edges) == Judge(canon, start, edges) != Raised
  {
    var first := Recompute(start).result;
    var recording := Record(canon, first, start, edges);
    RecordingShape(canon, first, first, start, edges);
    hide Record, JudgeEdges, NormativeText, ForbiddenText;
    if !recording.aborted {
      RecordingAgrees(canon, first, first, start, edges, TraceOf(canon, first, edges, recording));
    }
  }

  /** No trace is called stable unless every declared edge was recorded as
      evaluated without a mismatch and the endpoint shows none either. */
  lemma {:induction false} StableTraceIff(observed: Observed, edges: seq<EdgeRecord>)
    ensures ClassifyFrom(observed, edges) == STABLE
       <==> && (forall e | e in edges :: e.state.EvaluatedEdge? && e.normativeMatch != NO && e.forbiddenMatch != NO)
            && |observed.edges| >= |observed.orderedEdgeIds| && observed.endpoint.Some?
            && observed.endpoint.value.normativeMatch != NO && observed.endpoint.value.forbiddenMatch != NO
    decreases |edges|
  {
    if edges != [] {
      StableTraceIff(observed, edges[1..]);
      assert edges == [edges[0]] + edges[1..];
    }
  }
}
