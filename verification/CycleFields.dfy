/** What a verdict of the closed-cycle machine says about the fields of the nodes. */
module CycleFields {
  import opened Common
  import opened CycleMachine

  /** Different values have different canonical texts. */
  ghost predicate Injective(canon: Canonicalizer) { forall a, b :: canon(a) == canon(b) ==> a == b }

  /** Python takes six values for false. */
  lemma TruthyExactly(v: Json)
    ensures Truthy(v) <==> v !in {JNull, JBool(false), JInt(0), JStr(""), JList([]), JDict(map[])}
  {
  }

  predicate TimesOut(node: Node) { "unresolved" in node && Truthy(node["unresolved"]) }

  /** A node with every field that is read, and a value that compares with zero. */
  predicate Readable(node: Node) {
    && {"value", "observation", "telemetry", "forbidden"} <= node.Keys
    && (node["value"].JInt? || node["value"].JBool?)
  }

  /** Zero counts with the positive, and so do both Booleans. */
  predicate Accepts(node: Node)
    requires Readable(node)
  {
    node["value"].JInt? ==> node["value"].n >= 0
  }

  /** A node that can be read, on the start's side of zero and with the start's forbidden field. */
  predicate Kept(start: Node, node: Node) {
    && !TimesOut(node) && Readable(node) && Readable(start)
    && (Accepts(node) <==> Accepts(start)) && node["forbidden"] == start["forbidden"]
  }

  predicate InDomain(node: Node) { "inDomain" in node && Truthy(node["inDomain"]) }

  lemma RecomputeByFields(node: Node)
    ensures Recompute(node).Evaluated? <==> !TimesOut(node) && Readable(node)
    ensures Recompute(node).Unresolved? <==> TimesOut(node)
    ensures Recompute(node).Evaluated? ==>
              && Recompute(node).result.verdict == (if Accepts(node) then "accept" else "reject")
              && Recompute(node).result.forbidden == node["forbidden"]
  {
  }

  lemma ProjectionsByFields(canon: Canonicalizer, start: Node, node: Node)
    requires Injective(canon) && Recompute(start).Evaluated? && Recompute(node).Evaluated?
    ensures Readable(start) && Readable(node)
    ensures var a, b := Recompute(start).result, Recompute(node).result;
            && (NormativeText(canon, a) == NormativeText(canon, b) <==> (Accepts(node) <==> Accepts(start)))
            && (ForbiddenText(canon, a) == ForbiddenText(canon, b) <==> node["forbidden"] == start["forbidden"])
  {
    RecomputeByFields(start);
    RecomputeByFields(node);
    var a, b := Recompute(start).result, Recompute(node).result;
    hide Recompute, Accepts;
    var v, w := map["verdict" := JStr(a.verdict)], map["verdict" := JStr(b.verdict)];
    assert v["verdict"] == JStr(a.verdict) && w["verdict"] == JStr(b.verdict);
    var p, q := map["forbidden" := a.forbidden], map["forbidden" := b.forbidden];
    assert p["forbidden"] == a.forbidden && q["forbidden"] == b.forbidden;
    assert canon(JDict(v)) == canon(JDict(w)) ==> JDict(v) == JDict(w);
    assert canon(JDict(p)) == canon(JDict(q)) ==> JDict(p) == JDict(q);
  }

  /** Node `i` of the run is kept. */
  predicate KeptAt(start: Node, edges: seq<Edge>, i: nat)
    requires i <= |edges|
  {
    Kept(start, NodeAt(start, edges, i))
  }

  /** Edge `i` leaves a node in domain by supported operations. */
  predicate AppliesAt(start: Node, edges: seq<Edge>, i: nat)
    requires i < |edges|
  {
    InDomain(NodeAt(start, edges, i)) && Supported(edges[i].ops)
  }

  /** Stable runs, told by the fields of the nodes alone: no node visited times
      out, every one can be read, every edge leaves a node in domain by supported
      operations, and value and forbidden field stay as they were, up to the sign
      of the value. Telemetry and observation are not mentioned. */
  lemma StableByFields(canon: Canonicalizer, start: Node, edges: seq<Edge>)
    requires Injective(canon)
    ensures Judge(canon, start, edges) == STABLE
       <==> && (forall i | 0 <= i <= |edges| :: KeptAt(start, edges, i))
            && (forall i | 0 <= i < |edges| :: AppliesAt(start, edges, i))
  {
    StableIff(canon, start, edges);
    KeptAtStart(start, edges);
    hide Judge, Recompute, Keeps, KeptAt, AppliesAt;
    if Recompute(start).Evaluated? {
      var reference := Recompute(start).result;
      forall i | 0 <= i < |edges|
        ensures Keeps(canon, reference, start, edges, i) <==> AppliesAt(start, edges, i) && KeptAt(start, edges, i + 1)
      {
        KeepsByFields(canon, start, edges, i);
      }
      if forall i | 0 <= i < |edges| :: Keeps(canon, reference, start, edges, i) {
        forall i | 0 <= i <= |edges| ensures KeptAt(start, edges, i) {
          if i > 0 { assert Keeps(canon, reference, start, edges, i - 1); }
        }
        forall i | 0 <= i < |edges| ensures AppliesAt(start, edges, i) {
          assert Keeps(canon, reference, start, edges, i);
        }
      }
    }
  }

  lemma KeptAtStart(start: Node, edges: seq<Edge>)
    ensures KeptAt(start, edges, 0) <==> Recompute(start).Evaluated?
  {
  }

  lemma KeepsByFields(canon: Canonicalizer, start: Node, edges: seq<Edge>, i: nat)
    requires Injective(canon) && Recompute(start).Evaluated? && i < |edges|
    ensures Keeps(canon, Recompute(start).result, start, edges, i)
       <==> AppliesAt(start, edges, i) && KeptAt(start, edges, i + 1)
  {
    var next := NodeAt(start, edges, i + 1);
    RecomputeByFields(start);
    RecomputeByFields(next);
    if Recompute(next).Evaluated? { ProjectionsByFields(canon, start, next); }
    hide NormativeText, ForbiddenText, Recompute, Truthy;
  }

  /** Which fault an edge has, by the fields of the node it leaves and of the node
      it reaches, and no fault exactly when everything is kept. */
  lemma FaultByFields(canon: Canonicalizer, start: Node, node: Node, edge: Edge)
    requires Injective(canon) && Recompute(start).Evaluated?
    ensures Readable(start)
    ensures var next := Apply(node, edge.ops);
            var fault := EdgeFault(canon, Recompute(start).result, node, edge);
            if !InDomain(node) then
              fault == Some(Verdict(OutOfDomain, Some(edge.edgeId), Some(edge.edgeId + "_out_of_domain")))
            else if !Supported(edge.ops) || (!TimesOut(next) && !Readable(next)) then
              fault == Some(Raised)
            else if TimesOut(next) then
              fault == Some(Verdict(UnresolvedCycle, Some(edge.edgeId), Some("worker_timeout")))
            else if Accepts(next) != Accepts(start) then
              fault == Some(Verdict(Violation, Some(edge.edgeId), Some("normative_projection_mismatch")))
            else if next["forbidden"] != start["forbidden"] then
              fault == Some(Verdict(Violation, Some(edge.edgeId), Some("forbidden_variant_mismatch")))
            else fault == None
  {
    var next := Apply(node, edge.ops);
    RecomputeByFields(start);
    RecomputeByFields(next);
    assert Recompute(next).Unresolved? ==> Recompute(next).reason == "worker_timeout";
    if Recompute(next).Evaluated? { ProjectionsByFields(canon, start, next); }
    hide NormativeText, ForbiddenText, Recompute, Truthy, Accepts;
  }

  // Telemetry and observation.

  const UNREAD: set<string> := {"observation", "telemetry"}

  /** The same fields, with the same values but for telemetry and observation. */
  predicate AlikeNodes(a: Node, b: Node) { a.Keys == b.Keys && forall k | k in a && k !in UNREAD :: a[k] == b[k] }

  /** The same assignments, but for what telemetry and observation are set to. */
  predicate AlikeOps(p: seq<Op>, q: seq<Op>) {
    && |p| == |q|
    && forall i | 0 <= i < |p| :: p[i].op == q[i].op && p[i].field == q[i].field
                                  && (p[i].field !in UNREAD ==> p[i].value == q[i].value)
  }

  predicate AlikeEdges(p: seq<Edge>, q: seq<Edge>) {
    |p| == |q| && forall i | 0 <= i < |p| :: p[i].edgeId == q[i].edgeId && AlikeOps(p[i].ops, q[i].ops)
  }

  lemma {:induction false} AlikeApply(a: Node, b: Node, p: seq<Op>, q: seq<Op>)
    requires AlikeNodes(a, b) && AlikeOps(p, q)
    ensures AlikeNodes(Apply(a, p), Apply(b, q))
    decreases |p|
  {
    if p != [] { AlikeApply(a, b, p[..|p| - 1], q[..|q| - 1]); }
  }

  lemma AlikeSupported(p: seq<Op>, q: seq<Op>)
    requires AlikeOps(p, q)
    ensures Supported(p) <==> Supported(q)
  {
    if Supported(p) {
      forall o | o in q ensures o.op == "set_field" {
        var i :| 0 <= i < |q| && q[i] == o;
        assert p[i] in p;
      }
    }
    if Supported(q) {
      forall o | o in p ensures o.op == "set_field" {
        var i :| 0 <= i < |p| && p[i] == o;
        assert q[i] in q;
      }
    }
  }

  /** Results that may differ in what no verdict reads. */
  predicate AlikeResults(a: Observation, b: Observation) { a.verdict == b.verdict && a.forbidden == b.forbidden }

  lemma AlikeRecompute(a: Node, b: Node)
    requires AlikeNodes(a, b)
    ensures Recompute(a).Raises? <==> Recompute(b).Raises?
    ensures Recompute(a).Unresolved? ==> Recompute(a) == Recompute(b)
    ensures Recompute(a).Evaluated? ==>
              Recompute(b).Evaluated? && AlikeResults(Recompute(a).result, Recompute(b).result)
  {
  }

  lemma AlikeFault(canon: Canonicalizer, r: Observation, s: Observation, a: Node, b: Node, e: Edge, g: Edge)
    requires AlikeResults(r, s) && AlikeNodes(a, b) && e.edgeId == g.edgeId && AlikeOps(e.ops, g.ops)
    ensures EdgeFault(canon, r, a, e) == EdgeFault(canon, s, b, g)
  {
    AlikeSupported(e.ops, g.ops);
    AlikeApply(a, b, e.ops, g.ops);
    AlikeRecompute(Apply(a, e.ops), Apply(b, g.ops));
    hide Recompute, AlikeOps, Supported, Apply;
  }

  lemma {:induction false} AlikeJudge(canon: Canonicalizer, r: Observation, s: Observation, a: Node, b: Node,
                                      p: seq<Edge>, q: seq<Edge>)
    requires AlikeResults(r, s) && AlikeNodes(a, b) && AlikeEdges(p, q)
    ensures JudgeEdges(canon, r, a, p) == JudgeEdges(canon, s, b, q)
    decreases |p|
  {
    if p != [] {
      AlikeFault(canon, r, s, a, b, p[0], q[0]);
      AlikeApply(a, b, p[0].ops, q[0].ops);
      hide EdgeFault, AlikeOps, AlikeNodes, Apply;
      AlikeJudge(canon, r, s, Apply(a, p[0].ops), Apply(b, q[0].ops), p[1..], q[1..]);
    }
  }

  /** Whatever telemetry and observation a run starts with or sets on its way, its
      verdict, edge and reason are the same, under every canonicalizer. */
  lemma ObservationsNeverMatter(canon: Canonicalizer, a: Node, b: Node, p: seq<Edge>, q: seq<Edge>)
    requires AlikeNodes(a, b) && AlikeEdges(p, q)
    ensures Judge(canon, a, p) == Judge(canon, b, q)
  {
    AlikeRecompute(a, b);
    hide Recompute, AlikeNodes, AlikeEdges;
    if Recompute(a).Evaluated? { AlikeJudge(canon, Recompute(a).result, Recompute(b).result, a, b, p, q); }
  }
}
