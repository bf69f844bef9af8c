/** The rebuilt aggregate read by its JSON keys: what each part is, and that every
    commitment in it is the digest of the part it is named after. */
module FoldAggregate {
  import opened Common
  import opened JsonValue
  import opened ObjectA
  import opened FoldValues
  import opened SingletonFold
  import opened BuiltObjects
  import opened FoldAcceptance
  import opened FoldCompleteness

  /** The field of a part under a literal key. */
  function Read(part: Option<Value>, key: string): Option<Value> { Field(part, Js(key)) }

  /** The field of an aggregate, or of a part, under the key of a field name. */
  function Get(v: Option<Value>, name: FieldName): Option<Value> { Field(v, Key(name)) }

  /** The digest as it stands in JSON; nothing where `digest` throws. */
  function Digested(c: Context, v: Option<Value>): Option<Value> {
    match DigestOf(c, v)
    case None => None
    case Some(text) => Some(Str(text))
  }

  /** The part repeats the aggregate's own field of that name. */
  predicate Shares(part: Option<Value>, a: Option<Value>, name: FieldName) { Get(part, name) == Get(a, name) }

  predicate SharesCommitments(part: Option<Value>, a: Option<Value>) {
    && Shares(part, a, SourceEntryContentCommitment) && Shares(part, a, FoldPolicyCommitment)
    && Shares(part, a, ComparabilityClassCommitment) && Shares(part, a, TransitionRuleCommitment)
  }

  predicate Says(part: Option<Value>, key: string, text: string) { Read(part, key) == Some(Text(text)) }

  /** A semantic statement about the source and the declarations of the aggregate. */
  predicate IsStatementOf(s: Option<Value>, a: Option<Value>, schema: Option<Value>) {
    && Shares(s, a, SourceEntryRef) && SharesCommitments(s, a) && Read(s, "source_entry_schema") == schema
    && Says(s, "schema", "chronicle_entry_singleton_semantic_statement.v0")
    && Says(s, "source_admission_state", "chronicle_entry_independently_admitted")
    && Says(s, "singleton_transition_eligibility", "eligible_under_exact_singleton_profile_declarations")
  }

  /** An inclusion set with the source of the aggregate as its one member. */
  predicate IsInclusionOf(v: Option<Value>, a: Option<Value>) {
    && Read(Sole(v), "member_ref") == Get(a, SourceEntryRef)
    && Read(Sole(v), "member_source_entry_content_commitment") == Get(a, SourceEntryContentCommitment)
    && Says(Sole(v), "member_schema", "chronicle_entry.v0")
  }

  /** A breakdown that leads from the input commitment to the aggregate's own. */
  predicate IsBreakdownOf(b: Option<Value>, a: Option<Value>, input: JsString) {
    && Shares(b, a, SourceEntryRef) && Shares(b, a, SourceEntryContentCommitment)
    && Get(Read(b, "transition_input"), SemanticResultCommitment) == Some(Str(input))
    && Shares(Read(b, "transition_output"), a, SemanticResultCommitment)
    && Says(b, "inclusion_decision", "included") && Says(b, "exclusion_decision", "none")
    && Says(b, "source_admission_prerequisite", "chronicle_entry_independently_admitted")
    && Says(b, "comparability_evaluation", "singleton_class_eligible")
    && Says(b, "policy_evaluation", "singleton_policy_eligible")
    && Says(b, "no_elevation_finding", "no_stronger_semantic_class_created")
  }

  /** An identity seed made of the aggregate's own fields. */
  predicate IsSeedOf(seed: Option<Value>, a: Option<Value>) {
    && Says(seed, "schema", "recursive_singleton_aggregate_identity_seed.v0")
    && Read(seed, "aggregate_schema") == Get(a, Schema) && Shares(seed, a, ProfileVersion)
    && Shares(seed, a, SourceEntryRef) && SharesCommitments(seed, a)
    && Shares(seed, a, SemanticResultCommitment) && Shares(seed, a, InclusionSetCommitment)
    && Shares(seed, a, PreAggregationBreakdownCommitment)
    && seed.Some? && seed.value.Obj? && |seed.value.entries| == 11
  }

  // The parts of the aggregate.

  /** Under every key the aggregate has what the reconstruction has under the name. */
  predicate HasFields(e: Expected, x: Vector, a: Option<Value>) {
    forall name: FieldName :: Get(a, name) == ExpectedField(e, x, name)
  }

  lemma RebuiltFields(e: Expected, x: Vector)
    ensures HasFields(e, x, Some(HonestCandidate(e, x)))
  {
    hide Field, Key, ExpectedField, HonestCandidate;
    forall name: FieldName ensures Get(Some(HonestCandidate(e, x)), name) == ExpectedField(e, x, name) {
      HonestField(e, x, name);
    }
  }

  /** The keys of texts and declarations. */
  lemma KeysOfTexts()
    ensures Key(Schema) == Js("schema") && Key(ProfileVersion) == Js("profile_version")
    ensures Key(AggregateId) == Js("aggregate_id") && Key(SourceEntryRef) == Js("source_entry_ref")
    ensures Key(ProfileLocalNotes) == Js("profile_local_notes")
    ensures Key(NoStrongerSemanticClassCreated) == Js("no_stronger_semantic_class_created")
  {
    hide Js;
  }

  lemma KeysOfCommitments()
    ensures Key(SourceEntryContentCommitment) == Js("source_entry_content_commitment")
    ensures Key(SemanticResultCommitment) == Js("semantic_result_commitment")
    ensures Key(InclusionSetCommitment) == Js("inclusion_set_commitment")
    ensures Key(FoldPolicyCommitment) == Js("fold_policy_commitment")
    ensures Key(ComparabilityClassCommitment) == Js("comparability_class_commitment")
    ensures Key(TransitionRuleCommitment) == Js("transition_rule_commitment")
    ensures Key(PreAggregationBreakdownCommitment) == Js("pre_aggregation_breakdown_commitment")
  {
    hide Js;
  }

  lemma KeysOfParts()
    ensures Key(SemanticStatement) == Js("semantic_statement")
    ensures Key(CanonicalInclusionSet) == Js("canonical_inclusion_set")
    ensures Key(FoldPolicyDeclaration) == Js("fold_policy_declaration")
    ensures Key(ComparabilityClassDeclaration) == Js("comparability_class_declaration")
    ensures Key(TransitionRuleDeclaration) == Js("transition_rule_declaration")
    ensures Key(PreAggregationBreakdown) == Js("pre_aggregation_breakdown")
    ensures Key(TransitionResult) == Js("transition_result")
  {
    hide Js;
  }

  /** What the reconstruction computes beside statements and inclusion set. */
  lemma RebuiltDigests(c: Context, x: Vector, e: Expected)
    requires Reconstruct(c, x) == Some(e)
    ensures DigestOf(c, CloneOf(x.policy)) == Some(e.commitments.policy)
    ensures DigestOf(c, CloneOf(x.comparabilityClass)) == Some(e.commitments.comparabilityClass)
    ensures DigestOf(c, CloneOf(x.rule)) == Some(e.commitments.rule)
    ensures e.breakdown == Breakdown(e.ref, e.commitments, e.inputCommitment, e.outputCommitment)
    ensures DigestOf(c, Some(e.breakdown)) == Some(e.breakdownCommitment)
    ensures DigestOf(c, Some(SeedOf(e))) == Some(e.aggregateId)
    ensures Read(CloneOf(x.sourceEntry), "entry_id") == Some(e.ref)
  {
    hide DigestOf, Field, Statement, Inclusion, Breakdown, Seed, SameClass, Literals, CloneOf;
  }

  function SeedOf(e: Expected): Value {
    Seed(e.ref, e.commitments, e.outputCommitment, e.inclusionCommitment, e.breakdownCommitment)
  }

  // Reading the built objects.

  lemma EntryFound(v: Value, i: nat, key: string, w: Value)
    requires v.Obj? && DistinctKeys(v.entries) && i < |v.entries| && v.entries[i] == At(key, w)
    ensures Read(Some(v), key) == Some(w)
  {
    hide Js, Lookup, DistinctKeys;
    LookupAt(v.entries, i);
  }

  lemma FieldFound(v: Value, i: nat, name: FieldName, key: string, w: Value)
    requires v.Obj? && DistinctKeys(v.entries) && i < |v.entries| && v.entries[i] == At(key, w) && Key(name) == Js(key)
    ensures Get(Some(v), name) == Some(w)
  {
    hide Js, Lookup, DistinctKeys, Key;
    LookupAt(v.entries, i);
  }

  lemma StatementRead(schema: Value, e: Expected, x: Vector, a: Option<Value>)
    requires HasFields(e, x, a)
    ensures IsStatementOf(Some(Statement(schema, e.ref, e.commitments)), a, Some(schema))
  {
    hide DistinctKeys, At, Text, Get, Read, Statement;
    StatementKeys(schema, e.ref, e.commitments);
    StatementTexts(schema, e.ref, e.commitments);
    StatementCommitments(schema, e.ref, e.commitments);
  }

  lemma StatementTexts(schema: Value, ref: Value, k: Commitments)
    requires DistinctKeys(Statement(schema, ref, k).entries)
    ensures var v := Some(Statement(schema, ref, k));
            && Says(v, "schema", "chronicle_entry_singleton_semantic_statement.v0")
            && Read(v, "source_entry_schema") == Some(schema) && Get(v, SourceEntryRef) == Some(ref)
            && Says(v, "source_admission_state", "chronicle_entry_independently_admitted")
            && Says(v, "singleton_transition_eligibility", "eligible_under_exact_singleton_profile_declarations")
  {
    hide DistinctKeys, At, Text, Get, Read, Key, Js;
    var v := Statement(schema, ref, k);
    KeysOfTexts();
    EntryFound(v, 0, "schema", Text("chronicle_entry_singleton_semantic_statement.v0"));
    EntryFound(v, 1, "source_entry_schema", schema);
    FieldFound(v, 2, SourceEntryRef, "source_entry_ref", ref);
    EntryFound(v, 4, "source_admission_state", Text("chronicle_entry_independently_admitted"));
    EntryFound(v, 8, "singleton_transition_eligibility",
               Text("eligible_under_exact_singleton_profile_declarations"));
  }

  lemma StatementCommitments(schema: Value, ref: Value, k: Commitments)
    requires DistinctKeys(Statement(schema, ref, k).entries)
    ensures var v := Some(Statement(schema, ref, k));
            && Get(v, SourceEntryContentCommitment) == Some(Str(k.source))
            && Get(v, FoldPolicyCommitment) == Some(Str(k.policy))
            && Get(v, ComparabilityClassCommitment) == Some(Str(k.comparabilityClass))
            && Get(v, TransitionRuleCommitment) == Some(Str(k.rule))
  {
    hide DistinctKeys, At, Text, Get, Key, Js;
    var v := Statement(schema, ref, k);
    KeysOfCommitments();
    FieldFound(v, 3, SourceEntryContentCommitment, "source_entry_content_commitment", Str(k.source));
    FieldFound(v, 5, FoldPolicyCommitment, "fold_policy_commitment", Str(k.policy));
    FieldFound(v, 6, ComparabilityClassCommitment, "comparability_class_commitment", Str(k.comparabilityClass));
    FieldFound(v, 7, TransitionRuleCommitment, "transition_rule_commitment", Str(k.rule));
  }

  lemma InclusionRead(e: Expected, x: Vector, a: Option<Value>)
    requires HasFields(e, x, a)
    ensures IsInclusionOf(Some(Inclusion(e.ref, e.commitments)), a)
  {
    hide DistinctKeys, At, Text, Get, Read;
    var v := Inclusion(e.ref, e.commitments).items[0];
    MemberKeys(e.ref, e.commitments);
    EntryFound(v, 0, "member_schema", Text("chronicle_entry.v0"));
    EntryFound(v, 1, "member_ref", e.ref);
    EntryFound(v, 2, "member_source_entry_content_commitment", Str(e.commitments.source));
  }

  lemma OneCommitmentRead(text: JsString)
    ensures Get(Some(Obj([At("semantic_result_commitment", Str(text))])), SemanticResultCommitment) == Some(Str(text))
  {
    hide Key, Js;
    KeysOfCommitments();
  }

  lemma BreakdownRead(e: Expected, x: Vector, a: Option<Value>)
    requires HasFields(e, x, a)
    ensures IsBreakdownOf(Some(Breakdown(e.ref, e.commitments, e.inputCommitment, e.outputCommitment)), a,
                          e.inputCommitment)
  {
    hide DistinctKeys, At, Text, Get, Read, Breakdown;
    BreakdownKeys(e.ref, e.commitments, e.inputCommitment, e.outputCommitment);
    BreakdownTop(e.ref, e.commitments, e.inputCommitment, e.outputCommitment);
    BreakdownBottom(e.ref, e.commitments, e.inputCommitment, e.outputCommitment);
    OneCommitmentRead(e.inputCommitment);
    OneCommitmentRead(e.outputCommitment);
  }

  lemma BreakdownTop(ref: Value, k: Commitments, input: JsString, output: JsString)
    requires DistinctKeys(Breakdown(ref, k, input, output).entries)
    ensures var v := Some(Breakdown(ref, k, input, output));
            && Get(v, SourceEntryRef) == Some(ref) && Get(v, SourceEntryContentCommitment) == Some(Str(k.source))
            && Says(v, "source_admission_prerequisite", "chronicle_entry_independently_admitted")
            && Says(v, "inclusion_decision", "included") && Says(v, "exclusion_decision", "none")
  {
    hide DistinctKeys, At, Text, Get, Read, Key, Js;
    var v := Breakdown(ref, k, input, output);
    KeysOfTexts();
    KeysOfCommitments();
    FieldFound(v, 1, SourceEntryRef, "source_entry_ref", ref);
    FieldFound(v, 2, SourceEntryContentCommitment, "source_entry_content_commitment", Str(k.source));
    EntryFound(v, 3, "source_admission_prerequisite", Text("chronicle_entry_independently_admitted"));
    EntryFound(v, 4, "inclusion_decision", Text("included"));
    EntryFound(v, 5, "exclusion_decision", Text("none"));
  }

  lemma BreakdownBottom(ref: Value, k: Commitments, input: JsString, output: JsString)
    requires DistinctKeys(Breakdown(ref, k, input, output).entries)
    ensures var v := Some(Breakdown(ref, k, input, output));
            && Says(v, "comparability_evaluation", "singleton_class_eligible")
            && Says(v, "policy_evaluation", "singleton_policy_eligible")
            && Read(v, "transition_input") == Some(Obj([At("semantic_result_commitment", Str(input))]))
            && Read(v, "transition_output") == Some(Obj([At("semantic_result_commitment", Str(output))]))
            && Says(v, "no_elevation_finding", "no_stronger_semantic_class_created")
  {
    hide DistinctKeys, At, Text, Read, Js;
    var v := Breakdown(ref, k, input, output);
    EntryFound(v, 6, "comparability_evaluation", Text("singleton_class_eligible"));
    EntryFound(v, 7, "policy_evaluation", Text("singleton_policy_eligible"));
    EntryFound(v, 8, "transition_input", Obj([At("semantic_result_commitment", Str(input))]));
    EntryFound(v, 9, "transition_output", Obj([At("semantic_result_commitment", Str(output))]));
    EntryFound(v, 10, "no_elevation_finding", Text("no_stronger_semantic_class_created"));
  }

  lemma SeedRead(e: Expected, x: Vector, a: Option<Value>)
    requires HasFields(e, x, a)
    ensures IsSeedOf(Some(SeedOf(e)), a)
  {
    hide DistinctKeys, At, Text, Get, Read, SeedOf;
    SeedTexts(e);
    SeedCommitments(e);
  }

  lemma SeedTexts(e: Expected)
    ensures var v := Some(SeedOf(e));
            && v.value.Obj? && |v.value.entries| == 11
            && Says(v, "schema", "recursive_singleton_aggregate_identity_seed.v0")
            && Says(v, "aggregate_schema", "recursive_singleton_aggregate.v0")
            && Get(v, ProfileVersion) == Some(Text("recursive-singleton-fold-profile-v0"))
            && Get(v, SourceEntryRef) == Some(e.ref)
  {
    hide DistinctKeys, At, Text, Get, Read, Key, Js;
    var v := SeedOf(e);
    KeysOfTexts();
    SeedKeys(e.ref, e.commitments, e.outputCommitment, e.inclusionCommitment, e.breakdownCommitment);
    EntryFound(v, 0, "schema", Text("recursive_singleton_aggregate_identity_seed.v0"));
    EntryFound(v, 1, "aggregate_schema", Text("recursive_singleton_aggregate.v0"));
    FieldFound(v, 2, ProfileVersion, "profile_version", Text("recursive-singleton-fold-profile-v0"));
    FieldFound(v, 3, SourceEntryRef, "source_entry_ref", e.ref);
  }

  lemma SeedCommitments(e: Expected)
    ensures var v := Some(SeedOf(e));
            && Get(v, SourceEntryContentCommitment) == Some(Str(e.commitments.source))
            && Get(v, SemanticResultCommitment) == Some(Str(e.outputCommitment))
            && Get(v, InclusionSetCommitment) == Some(Str(e.inclusionCommitment))
            && Get(v, FoldPolicyCommitment) == Some(Str(e.commitments.policy))
            && Get(v, ComparabilityClassCommitment) == Some(Str(e.commitments.comparabilityClass))
            && Get(v, TransitionRuleCommitment) == Some(Str(e.commitments.rule))
            && Get(v, PreAggregationBreakdownCommitment) == Some(Str(e.breakdownCommitment))
  {
    hide DistinctKeys, At, Text, Get, Key, Js;
    var v := SeedOf(e);
    KeysOfCommitments();
    SeedKeys(e.ref, e.commitments, e.outputCommitment, e.inclusionCommitment, e.breakdownCommitment);
    FieldFound(v, 4, SourceEntryContentCommitment, "source_entry_content_commitment", Str(e.commitments.source));
    FieldFound(v, 5, SemanticResultCommitment, "semantic_result_commitment", Str(e.outputCommitment));
    FieldFound(v, 6, InclusionSetCommitment, "inclusion_set_commitment", Str(e.inclusionCommitment));
    FieldFound(v, 7, FoldPolicyCommitment, "fold_policy_commitment", Str(e.commitments.policy));
    FieldFound(v, 8, ComparabilityClassCommitment, "comparability_class_commitment",
               Str(e.commitments.comparabilityClass));
    FieldFound(v, 9, TransitionRuleCommitment, "transition_rule_commitment", Str(e.commitments.rule));
    FieldFound(v, 10, PreAggregationBreakdownCommitment, "pre_aggregation_breakdown_commitment",
               Str(e.breakdownCommitment));
  }

  // The aggregate as a whole.

  /** Each commitment is the digest of the part it is named after. */
  predicate CommitsToParts(c: Context, a: Option<Value>) {
    && Get(a, SemanticResultCommitment) == Digested(c, Get(a, SemanticStatement))
    && Get(a, InclusionSetCommitment) == Digested(c, Get(a, CanonicalInclusionSet))
    && Get(a, FoldPolicyCommitment) == Digested(c, Get(a, FoldPolicyDeclaration))
    && Get(a, ComparabilityClassCommitment) == Digested(c, Get(a, ComparabilityClassDeclaration))
    && Get(a, TransitionRuleCommitment) == Digested(c, Get(a, TransitionRuleDeclaration))
    && Get(a, PreAggregationBreakdownCommitment) == Digested(c, Get(a, PreAggregationBreakdown))
  }

  /** The facts of the vector, as the aggregate declares them. */
  predicate DeclaresFacts(c: Context, x: Vector, a: Option<Value>) {
    && Get(a, SourceEntryRef) == Read(CloneOf(x.sourceEntry), "entry_id")
    && Get(a, SourceEntryContentCommitment) == Digested(c, CloneOf(x.sourceEntry))
    && Get(a, FoldPolicyDeclaration) == CloneOf(x.policy)
    && Get(a, ComparabilityClassDeclaration) == CloneOf(x.comparabilityClass)
    && Get(a, TransitionRuleDeclaration) == CloneOf(x.rule)
    && Get(a, ProfileLocalNotes) == x.notes
  }

  /** The id is the digest of a seed made of the aggregate's own fields. */
  ghost predicate IdIsSeeded(c: Context, a: Option<Value>) {
    exists seed :: IsSeedOf(Some(seed), a) && Get(a, AggregateId) == Digested(c, Some(seed))
  }

  /** Statement, inclusion set and breakdown speak of the aggregate they stand in. */
  predicate SpeaksOfItself(x: Vector, e: Expected, a: Option<Value>) {
    && IsStatementOf(Get(a, SemanticStatement), a, ClonedSchema(x))
    && IsInclusionOf(Get(a, CanonicalInclusionSet), a)
    && IsBreakdownOf(Get(a, PreAggregationBreakdown), a, e.inputCommitment)
    && IsStatementOf(Some(e.inputStatement), a, Some(ENTRY_SCHEMA))
  }

  lemma RebuiltSpeaks(c: Context, x: Vector, e: Expected, a: Option<Value>)
    requires Reconstruct(c, x) == Some(e) && HasFields(e, x, a)
    ensures SpeaksOfItself(x, e, a)
  {
    hide Reconstruct, DigestOf, CloneOf, Get, Text, ClonedSchema;
    hide Statement, Inclusion, Breakdown, IsStatementOf, IsInclusionOf, IsBreakdownOf;
    assert Get(a, SemanticStatement) == Some(e.outputStatement) && Get(a, CanonicalInclusionSet) == Some(e.inclusion)
        && Get(a, PreAggregationBreakdown) == Some(e.breakdown);
    hide ExpectedField;
    RebuiltDigests(c, x, e);
    ReconstructionParts(c, x, e);
    StatementRead(ENTRY_SCHEMA, e, x, a);
    StatementRead(ClonedSchema(x).value, e, x, a);
    InclusionRead(e, x, a);
    BreakdownRead(e, x, a);
  }

  lemma RebuiltDeclares(c: Context, x: Vector, e: Expected, a: Option<Value>)
    requires Reconstruct(c, x) == Some(e) && HasFields(e, x, a)
    ensures DeclaresFacts(c, x, a)
  {
    hide Reconstruct, DigestOf, CloneOf, Get, Read, Text, Breakdown, SeedOf, Statement, Inclusion;
    RebuiltDigests(c, x, e);
    ReconstructionParts(c, x, e);
  }

  lemma RebuiltCommits(c: Context, x: Vector, e: Expected, a: Option<Value>)
    requires Reconstruct(c, x) == Some(e) && HasFields(e, x, a)
    ensures CommitsToParts(c, a)
  {
    hide Reconstruct, Digested, Get, ExpectedField, ComparisonOf;
    RebuiltPart(c, x, e, SemanticStatement);
    RebuiltPart(c, x, e, CanonicalInclusionSet);
    RebuiltPart(c, x, e, FoldPolicyDeclaration);
    RebuiltPart(c, x, e, ComparabilityClassDeclaration);
    RebuiltPart(c, x, e, TransitionRuleDeclaration);
    RebuiltPart(c, x, e, PreAggregationBreakdown);
  }

  lemma RebuiltIsSeeded(c: Context, x: Vector, e: Expected, a: Option<Value>)
    requires Reconstruct(c, x) == Some(e) && HasFields(e, x, a)
    ensures IdIsSeeded(c, a)
  {
    hide Reconstruct, DigestOf, Get, Read, Breakdown, SeedOf, IsSeedOf, Text;
    assert Get(a, AggregateId) == Some(Str(e.aggregateId));
    hide ExpectedField;
    RebuiltDigests(c, x, e);
    SeedRead(e, x, a);
  }

  /** The aggregate that the auditor rebuilds declares the facts of the vector,
      commits to its own parts, speaks of its own source and declarations in
      statement, inclusion set and breakdown, and is identified by its own fields. */
  lemma RebuiltIsConsistent(c: Context, x: Vector, e: Expected)
    requires Reconstruct(c, x) == Some(e)
    ensures var a := Some(HonestCandidate(e, x));
            && DeclaresFacts(c, x, a) && CommitsToParts(c, a) && SpeaksOfItself(x, e, a) && IdIsSeeded(c, a)
    ensures DigestOf(c, Some(e.inputStatement)) == Some(e.inputCommitment)
  {
    hide Reconstruct, DigestOf, HonestCandidate, DeclaresFacts, CommitsToParts, SpeaksOfItself, IdIsSeeded, HasFields;
    hide Statement, Inclusion, ClonedSchema, CloneOf;
    var a := Some(HonestCandidate(e, x));
    RebuiltFields(e, x);
    ReconstructionParts(c, x, e);
    RebuiltDeclares(c, x, e, a);
    RebuiltCommits(c, x, e, a);
    RebuiltSpeaks(c, x, e, a);
    RebuiltIsSeeded(c, x, e, a);
  }

  /** An accepted candidate agrees with that aggregate under every key. */
  lemma AcceptedAgrees(c: Context, x: Vector, e: Expected, name: FieldName)
    requires Reconstruct(c, x) == Some(e) && Evaluate(c, x, REMAINING_FIELDS) == Accepted
    ensures Compare(c, ComparisonOf(name), Get(Candidate(x), name), Get(Some(HonestCandidate(e, x)), name))
         == Some(true)
  {
    hide Reconstruct, Evaluate, StageWellFormed, HonestCandidate, Field, Key, ExpectedField, FactsEvaluate, Compare;
    AcceptedExactly(c, x);
    HonestField(e, x, name);
    assert FieldMatches(c, x, e, name);
  }

  /** The commitment that stands for a part. */
  function CommitmentTo(part: FieldName): Option<FieldName> {
    match part
    case SemanticStatement => Some(SemanticResultCommitment)
    case CanonicalInclusionSet => Some(InclusionSetCommitment)
    case FoldPolicyDeclaration => Some(FoldPolicyCommitment)
    case ComparabilityClassDeclaration => Some(ComparabilityClassCommitment)
    case TransitionRuleDeclaration => Some(TransitionRuleCommitment)
    case PreAggregationBreakdown => Some(PreAggregationBreakdownCommitment)
    case _ => None
  }

  lemma RebuiltPart(c: Context, x: Vector, e: Expected, part: FieldName)
    requires Reconstruct(c, x) == Some(e) && CommitmentTo(part).Some?
    ensures ExpectedField(e, x, CommitmentTo(part).value) == Digested(c, ExpectedField(e, x, part))
    ensures Digested(c, ExpectedField(e, x, part)).Some? && ExpectedField(e, x, part).Some?
  {
    hide Reconstruct, DigestOf;
    if part in {SemanticStatement, CanonicalInclusionSet, PreAggregationBreakdown} {
      BuiltPart(c, x, e, part);
    } else {
      DeclaredPart(c, x, e, part);
    }
    hide ExpectedField, CommitmentTo;
    DigestIsOfValue(c, ExpectedField(e, x, part));
  }

  lemma DigestIsOfValue(c: Context, v: Option<Value>)
    ensures DigestOf(c, v).Some? ==> v.Some?
  {
  }

  lemma BuiltPart(c: Context, x: Vector, e: Expected, part: FieldName)
    requires Reconstruct(c, x) == Some(e) && part in {SemanticStatement, CanonicalInclusionSet, PreAggregationBreakdown}
    ensures DigestOf(c, ExpectedField(e, x, part)).Some?
    ensures ExpectedField(e, x, CommitmentTo(part).value) == Some(Str(DigestOf(c, ExpectedField(e, x, part)).value))
  {
    hide Reconstruct, DigestOf, CloneOf, Text, Breakdown, Statement, Inclusion, SeedOf, Read;
    RebuiltDigests(c, x, e);
    ReconstructionParts(c, x, e);
  }

  lemma DeclaredPart(c: Context, x: Vector, e: Expected, part: FieldName)
    requires Reconstruct(c, x) == Some(e)
    requires part in {FoldPolicyDeclaration, ComparabilityClassDeclaration, TransitionRuleDeclaration}
    ensures DigestOf(c, ExpectedField(e, x, part)).Some?
    ensures ExpectedField(e, x, CommitmentTo(part).value) == Some(Str(DigestOf(c, ExpectedField(e, x, part)).value))
  {
    hide Reconstruct, DigestOf, CloneOf, Text, Breakdown, SeedOf, Read;
    RebuiltDigests(c, x, e);
  }

  lemma PartsCompared(part: FieldName)
    requires CommitmentTo(part).Some?
    ensures ComparisonOf(part) == ByCanonicalOctets && ComparisonOf(CommitmentTo(part).value) == Exact
  {
  }

  lemma AcceptedPart(c: Context, x: Vector, e: Expected, part: FieldName)
    requires Reconstruct(c, x) == Some(e) && CommitmentTo(part).Some?
    requires FieldMatches(c, x, e, part) && FieldMatches(c, x, e, CommitmentTo(part).value)
    ensures Get(Candidate(x), CommitmentTo(part).value) == Digested(c, Get(Candidate(x), part))
  {
    hide Reconstruct, Field, Key, ExpectedField, EqualCanonical, DigestOf, ComparisonOf, Candidate, CommitmentTo;
    RebuiltPart(c, x, e, part);
    PartsCompared(part);
    var text := DigestOf(c, ExpectedField(e, x, part)).value;
    StrictlyText(Get(Candidate(x), CommitmentTo(part).value), text);
    EqualImpliesSame(c, Get(Candidate(x), part), ExpectedField(e, x, part).value);
  }

  /** So an accepted candidate commits to its own parts. */
  lemma AcceptedCommitsToParts(c: Context, x: Vector)
    requires Evaluate(c, x, REMAINING_FIELDS) == Accepted
    ensures CommitsToParts(c, Candidate(x))
  {
    hide Reconstruct, Evaluate, StageWellFormed, Digested, Get, Candidate, FactsEvaluate, FieldMatches, ClaimsMatch;
    AcceptedExactly(c, x);
    var e := Reconstruct(c, x).value;
    AcceptedPart(c, x, e, SemanticStatement);
    AcceptedPart(c, x, e, CanonicalInclusionSet);
    AcceptedPart(c, x, e, FoldPolicyDeclaration);
    AcceptedPart(c, x, e, ComparabilityClassDeclaration);
    AcceptedPart(c, x, e, TransitionRuleDeclaration);
    AcceptedPart(c, x, e, PreAggregationBreakdown);
  }

  /** And to the source entry that the vector gives. */
  lemma AcceptedCommitsToSource(c: Context, x: Vector)
    requires Evaluate(c, x, REMAINING_FIELDS) == Accepted
    ensures Digested(c, x.sourceEntry).Some?
    ensures Get(Candidate(x), SourceEntryContentCommitment) == Digested(c, x.sourceEntry) == x.carriedCommitment
  {
    hide Reconstruct, Evaluate, StageWellFormed, Canonical, Sha256Text, Field, Key, Candidate, StrictEqual, ClaimsMatch;
    AcceptedExactly(c, x);
    var e := Reconstruct(c, x).value;
    assert FieldMatches(c, x, e, SourceEntryContentCommitment);
    AgainstFreshMeans(c, x, e, x.carriedCommitment);
    StrictlyText(Get(Candidate(x), SourceEntryContentCommitment), e.commitments.source);
    assert Passes(AgainstFresh(c, x, x.carriedCommitment)) by { hide AgainstFresh; }
    StrictlyText(x.carriedCommitment, DigestOf(c, x.sourceEntry).value);
  }
}
