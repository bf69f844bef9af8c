/** JSON as the fold auditor compares it: by canonical octets or by `===`. */
module FoldValues {
  import opened Common
  import opened Utf16
  import opened OracleCommitment
  import opened JsonValue
  import opened JsonNumbers
  import opened JsonEncoder
  import opened JsonCanonical
  import opened JsonTheorems
  import opened EncodedBytes
  import opened ObjectA

  /** The host's number format and SHA-256. */
  datatype Context = Context(format: NumberFormat, sha256: HashFunction)

  /** The value under a key; nothing for a missing key or for anything but an object. */
  function Lookup(entries: seq<Entry>, key: JsString): Option<Value> {
    if entries == [] then None
    else if entries[0].key == key then Some(entries[0].value)
    else Lookup(entries[1..], key)
  }

  lemma {:induction false} LookupFinds(entries: seq<Entry>, key: JsString)
    ensures Lookup(entries, key).Some? <==> key in KeySet(entries)
    ensures Lookup(entries, key).Some? ==>
              exists i | 0 <= i < |entries| :: entries[i] == Entry(key, Lookup(entries, key).value)
  {
    if entries != [] {
      LookupFinds(entries[1..], key);
      assert entries == [entries[0]] + entries[1..];
      if entries[0].key == key {
        assert entries[0] == Entry(key, Lookup(entries, key).value);
      } else if Lookup(entries, key).Some? {
        var i :| 0 <= i < |entries[1..]| && entries[1..][i] == Entry(key, Lookup(entries[1..], key).value);
        assert entries[i + 1] == Entry(key, Lookup(entries, key).value);
      }
    }
  }

  /** With distinct keys every entry is found under its key. */
  lemma {:induction false} LookupAt(entries: seq<Entry>, i: nat)
    requires DistinctKeys(entries) && i < |entries|
    ensures Lookup(entries, entries[i].key) == Some(entries[i].value)
  {
    if i > 0 {
      assert entries[i] in entries[1..];
      LookupAt(entries[1..], i - 1);
    }
  }

  function Field(v: Option<Value>, key: JsString): Option<Value> {
    if v.Some? && v.value.Obj? then Lookup(v.value.entries, key) else None
  }

  /** `canonical`; nothing where it throws, as it does on an absent value. */
  function Canonical(c: Context, v: Option<Value>): Option<JsString> {
    if v.None? then None
    else
      match Serialize(FoldCanonical, c.format, v.value)
      case Err(_) => None
      case Ok(text) => Some(text)
  }

  function Sha256Text(c: Context, text: JsString): JsString { Js("sha256:") + Hex(c.sha256(Utf8.Encode(text))) }

  /** `digest` */
  function DigestOf(c: Context, v: Option<Value>): Option<JsString> {
    match Canonical(c, v)
    case None => None
    case Some(text) => Some(Sha256Text(c, text))
  }

  /** `equalCanonical`; nothing where either side throws. */
  function EqualCanonical(c: Context, a: Option<Value>, b: Option<Value>): Option<bool> {
    match (Canonical(c, a), Canonical(c, b))
    case (Some(x), Some(y)) => Some(Utf8.Encode(x) == Utf8.Encode(y))
    case _ => None
  }

  /** `clone`: out through `JSON.stringify` and back through `JSON.parse`. Numbers
      beyond the finite ones come back as null, and negative zero as zero. */
  function Clone(v: Value): Value {
    match v
    case Number(NotANumber) => Null
    case Number(Infinite(_)) => Null
    case Number(NegativeZero) => Number(Integral(0))
    case Arr(items) => Arr(seq(|items|, i requires 0 <= i < |items| => Clone(items[i])))
    case Obj(entries) =>
      Obj(seq(|entries|, i requires 0 <= i < |entries| => Entry(entries[i].key, Clone(entries[i].value))))
    case _ => v
  }

  /** An absent value stays absent here; its clone throws, and so does its digest. */
  function CloneOf(v: Option<Value>): Option<Value> { if v.Some? then Some(Clone(v.value)) else None }

  /** `a && b`, where either operand may throw and the second is not always looked at. */
  function AndAlso(a: Option<bool>, b: Option<bool>): Option<bool> { if a == Some(true) then b else a }

  predicate IsZero(f: F64) { f == NegativeZero || f == Integral(0) }

  /** `===` between a given value and one built by the auditor: objects and
      arrays are never identical. */
  predicate StrictEqual(a: Option<Value>, b: Option<Value>) {
    match (a, b)
    case (None, None) => true
    case (Some(Null), Some(Null)) => true
    case (Some(Bool(x)), Some(Bool(y))) => x == y
    case (Some(Str(x)), Some(Str(y))) => x == y
    case (Some(Number(x)), Some(Number(y))) => x != NotANumber && (x == y || (IsZero(x) && IsZero(y)))
    case (Some(BigInteger(x)), Some(BigInteger(y))) => x == y
    case _ => false
  }

  predicate IsTruthy(v: Option<Value>) {
    match v
    case None => false
    case Some(Null) => false
    case Some(Bool(b)) => b
    case Some(Str(s)) => s != []
    case Some(Number(f)) => f != NotANumber && !IsZero(f)
    case Some(BigInteger(n)) => n != 0
    case Some(_) => true
  }

  /** JavaScript takes these for false, and an absent value. */
  lemma FalsyExactly(v: Option<Value>)
    ensures !IsTruthy(v)
       <==> || v.None?
            || v.value in {Null, Bool(false), Str([]), Number(Integral(0)), Number(NegativeZero), Number(NotANumber),
                           BigInteger(0)}
  {
  }

  // Clones.

  /** The clone of a canonical value is the value up to the order of entries. */
  lemma {:induction false} CloneIsSame(v: Value)
    requires Encodable(FoldCanonical, v)
    ensures Encodable(FoldCanonical, Clone(v)) && SameUpToOrder(FoldCanonical, v, Clone(v))
    decreases v, 1
  {
    match v
    case Arr(items) =>
      forall i | 0 <= i < |items|
        ensures Encodable(FoldCanonical, Clone(items[i])) && SameUpToOrder(FoldCanonical, items[i], Clone(items[i]))
      {
        CloneIsSame(items[i]);
      }
    case Obj(entries) => CloneOfObject(entries);
    case _ =>
  }

  lemma {:induction false} CloneOfObject(entries: seq<Entry>)
    requires Encodable(FoldCanonical, Obj(entries))
    ensures Encodable(FoldCanonical, Clone(Obj(entries)))
            && SameUpToOrder(FoldCanonical, Obj(entries), Clone(Obj(entries)))
    decreases Obj(entries), 0
  {
    hide DistinctKeys, KeySet;
    var n := Clone(Obj(entries)).entries;
    SameKeysDistinct(entries, n);
    forall i | 0 <= i < |entries|
      ensures Encodable(FoldCanonical, n[i].value) && SameUpToOrder(FoldCanonical, entries[i].value, n[i].value)
    {
      assert EncodableEntry(FoldCanonical, entries[i]);
      CloneIsSame(entries[i].value);
    }
    forall i, j | 0 <= i < |entries| && 0 <= j < |n| && entries[i].key == n[j].key
      ensures SameUpToOrder(FoldCanonical, entries[i].value, n[j].value)
    {
      DistinctPositions(entries, i, j);
    }
    forall e | e in n ensures EncodableEntry(FoldCanonical, e) {
      var i :| 0 <= i < |n| && n[i] == e;
    }
  }

  lemma {:induction false} SameKeysDistinct(a: seq<Entry>, b: seq<Entry>)
    requires |a| == |b| && forall i | 0 <= i < |a| :: a[i].key == b[i].key
    ensures KeySet(a) == KeySet(b) && (DistinctKeys(a) ==> DistinctKeys(b))
  {
    if a != [] {
      SameKeysDistinct(a[1..], b[1..]);
      assert a == [a[0]] + a[1..] && b == [b[0]] + b[1..];
      assert KeySet(a) == {a[0].key} + KeySet(a[1..]) && KeySet(b) == {b[0].key} + KeySet(b[1..]);
      if DistinctKeys(a) {
        forall e | e in b[1..] ensures e.key != b[0].key { assert e.key in KeySet(b[1..]); }
      }
    }
  }

  /** Where a value is canonicalized at all, its clone has the same text. */
  lemma CloneKeepsText(c: Context, v: Option<Value>)
    requires Canonical(c, v).Some?
    ensures Canonical(c, CloneOf(v)) == Canonical(c, v)
  {
    hide Serialize, Print, Normal, Encodable, SameUpToOrder, Clone;
    SerializeIsPrint(FoldCanonical, c.format, v.value);
    CloneIsSame(v.value);
    SerializeIsPrint(FoldCanonical, c.format, Clone(v.value));
    EqualTextsIffSame(FoldCanonical, c.format, v.value, Clone(v.value));
  }

  lemma {:induction false} LookupOfClone(entries: seq<Entry>, key: JsString)
    ensures Lookup(Clone(Obj(entries)).entries, key) == CloneOf(Lookup(entries, key))
  {
    if entries != [] {
      LookupOfClone(entries[1..], key);
      assert Clone(Obj(entries)).entries[1..] == Clone(Obj(entries[1..])).entries;
    }
  }

  /** A field of the clone is the clone of the field. */
  lemma FieldOfClone(v: Option<Value>, key: JsString)
    ensures Field(CloneOf(v), key) == CloneOf(Field(v, key))
  {
    if v.Some? && v.value.Obj? { LookupOfClone(v.value.entries, key); }
  }

  // Equal canonical octets.

  /** Canonical octets coincide exactly for values that are the same up to the order of entries. */
  lemma EqualCanonicalMeansSame(c: Context, a: Option<Value>, b: Option<Value>)
    requires Canonical(c, a).Some? && Canonical(c, b).Some?
    ensures EqualCanonical(c, a, b) == Some(SameUpToOrder(FoldCanonical, a.value, b.value))
    ensures EqualCanonical(c, a, b) == Some(Canonical(c, a) == Canonical(c, b))
  {
    hide Serialize, SameUpToOrder, Utf8.Encode;
    EqualTextsIffSame(FoldCanonical, c.format, a.value, b.value);
    CanonicalWellFormed(c, a);
    CanonicalWellFormed(c, b);
    if Utf8.Encode(Canonical(c, a).value) == Utf8.Encode(Canonical(c, b).value) {
      Utf8.EncodeInjective(Canonical(c, a).value, Canonical(c, b).value);
    }
  }

  /** Canonical text never has a lone surrogate, even where a string has one. */
  lemma CanonicalWellFormed(c: Context, v: Option<Value>)
    requires Canonical(c, v).Some?
    ensures WellFormed(Canonical(c, v).value)
  {
    SerializeIsPrint(FoldCanonical, c.format, v.value);
    JsonRoundTrip.NormalIsNormal(FoldCanonical, v.value);
    PrintClean(FoldCanonical, c.format, Normal(FoldCanonical, v.value));
    hide Serialize, Print, Normal, Encodable;
  }
}

/** Positions 18 to 28 of the recursive singleton fold: a candidate aggregate
    against an aggregate rebuilt from raw facts. */
module SingletonFold {
  import opened Common
  import opened JsonValue
  import opened JsonTheorems
  import opened ObjectA
  import opened FoldValues

  function Text(s: string): (v: Value)
    ensures v.Str? && IsAscii(v.s)
  {
    JsIsAscii(s);
    Str(Js(s))
  }

  function At(key: string, v: Value): (e: Entry)
    ensures e.value == v && IsAscii(e.key)
  {
    JsIsAscii(key);
    Entry(Js(key), v)
  }

  const POLICY: Value := Obj([
    At("schema", Text("recursive_singleton_fold_policy.v0")),
    At("policy_version", Text("recursive-singleton-fold-policy-v0")),
    At("policy_id", Text("singleton-chronicle-entry-semantic-preservation")),
    At("source_object_schema", Text("chronicle_entry.v0")),
    At("aggregate_object_schema", Text("recursive_singleton_aggregate.v0")),
    At("member_cardinality", Number(Integral(1))),
    At("aggregation_mode", Text("singleton_only")), At("semantic_elevation", Text("forbidden")),
    At("source_identity_reuse", Text("forbidden")), At("multi_member_extension", Text("deferred"))])

  const CLASS: Value := Obj([
    At("schema", Text("recursive_singleton_comparability_class.v0")),
    At("class_version", Text("recursive-singleton-comparability-class-v0")),
    At("class_id", Text("admitted-chronicle-entry-singleton")), At("source_object_schema", Text("chronicle_entry.v0")),
    At("admission_required", Bool(true)), At("cross_entry_comparability", Text("not_asserted")),
    At("cross_policy_bridge", Text("deferred")), At("cross_class_bridge", Text("deferred")),
    At("singleton_eligibility_rule", Text("exactly_one_independently_admitted_source_entry"))])

  const RULE: Value := Obj([
    At("schema", Text("recursive_singleton_transition_rule.v0")),
    At("rule_version", Text("recursive-singleton-transition-rule-v0")),
    At("rule_id", Text("semantic_result_preserving_singleton_identity_transition")),
    At("source_object_schema", Text("chronicle_entry.v0")),
    At("aggregate_object_schema", Text("recursive_singleton_aggregate.v0")),
    At("preserved_equality_relation", Text("semantic_result_commitment_equality_only")),
    At("source_identity_reuse", Text("forbidden")),
    At("stronger_class_creation", Text("forbidden")), At("fail_closed_on_malformed_or_unknown_input", Bool(true))])

  const TRANSITION: Value := Obj([
    At("status", Text("singleton_transition_ok")),
    At("semantic_equivalence_result", Text("semantic_result_commitment_preserved")),
    At("source_identity_reuse_result", Text("source_identity_not_reused")),
    At("stronger_semantic_class_creation_result", Text("no_stronger_semantic_class_created"))])

  const ENTRY_SCHEMA: Value := Text("chronicle_entry.v0")

  /** The raw facts and the stage input of one vector; absent where the JSON has no such field. */
  datatype Vector = Vector(
    sourceEntry: Option<Value>,
    carriedCommitment: Option<Value>,
    policy: Option<Value>,
    comparabilityClass: Option<Value>,
    rule: Option<Value>,
    notes: Option<Value>,
    stage: Option<Value>)

  datatype Commitments = Commitments(source: JsString, policy: JsString, comparabilityClass: JsString, rule: JsString)

  function Statement(schema: Value, ref: Value, k: Commitments): Value {
    Obj([At("schema", Text("chronicle_entry_singleton_semantic_statement.v0")), At("source_entry_schema", schema),
         At("source_entry_ref", ref), At("source_entry_content_commitment", Str(k.source)),
         At("source_admission_state", Text("chronicle_entry_independently_admitted")),
         At("fold_policy_commitment", Str(k.policy)),
         At("comparability_class_commitment", Str(k.comparabilityClass)), At("transition_rule_commitment", Str(k.rule)),
         At("singleton_transition_eligibility", Text("eligible_under_exact_singleton_profile_declarations"))])
  }

  function Inclusion(ref: Value, k: Commitments): Value {
    Arr([Obj([At("member_schema", ENTRY_SCHEMA), At("member_ref", ref),
              At("member_source_entry_content_commitment", Str(k.source))])])
  }

  function Descriptor(schema: Value, k: Commitments): Value {
    Obj([At("schema", Text("recursive_singleton_semantic_class_descriptor.v0")), At("source_object_schema", schema),
         At("source_admission_state", Text("chronicle_entry_independently_admitted")),
         At("fold_policy_commitment", Str(k.policy)),
         At("comparability_class_commitment", Str(k.comparabilityClass)), At("transition_rule_commitment", Str(k.rule)),
         At("singleton_transition_eligibility", Text("eligible_under_exact_singleton_profile_declarations"))])
  }

  function Breakdown(ref: Value, k: Commitments, input: JsString, output: JsString): Value {
    Obj([At("schema", Text("recursive_singleton_breakdown.v0")), At("source_entry_ref", ref),
         At("source_entry_content_commitment", Str(k.source)),
         At("source_admission_prerequisite", Text("chronicle_entry_independently_admitted")),
         At("inclusion_decision", Text("included")), At("exclusion_decision", Text("none")),
         At("comparability_evaluation", Text("singleton_class_eligible")),
         At("policy_evaluation", Text("singleton_policy_eligible")),
         At("transition_input", Obj([At("semantic_result_commitment", Str(input))])),
         At("transition_output", Obj([At("semantic_result_commitment", Str(output))])),
         At("no_elevation_finding", Text("no_stronger_semantic_class_created"))])
  }

  function Seed(ref: Value, k: Commitments, output: JsString, inclusion: JsString, breakdown: JsString): Value {
    Obj([At("schema", Text("recursive_singleton_aggregate_identity_seed.v0")),
         At("aggregate_schema", Text("recursive_singleton_aggregate.v0")),
         At("profile_version", Text("recursive-singleton-fold-profile-v0")), At("source_entry_ref", ref),
         At("source_entry_content_commitment", Str(k.source)), At("semantic_result_commitment", Str(output)),
         At("inclusion_set_commitment", Str(inclusion)), At("fold_policy_commitment", Str(k.policy)),
         At("comparability_class_commitment", Str(k.comparabilityClass)), At("transition_rule_commitment", Str(k.rule)),
         At("pre_aggregation_breakdown_commitment", Str(breakdown))])
  }

  datatype Expected = Expected(
    ref: Value,
    commitments: Commitments,
    inputStatement: Value,
    inputCommitment: JsString,
    outputStatement: Value,
    outputCommitment: JsString,
    inclusion: Value,
    inclusionCommitment: JsString,
    breakdown: Value,
    breakdownCommitment: JsString,
    aggregateId: JsString,
    sameClass: bool,
    noPromotion: bool)

  /** The vector with its facts cloned, as the reconstruction sees them. */
  function Cloned(x: Vector): Vector {
    x.(sourceEntry := CloneOf(x.sourceEntry), policy := CloneOf(x.policy),
       comparabilityClass := CloneOf(x.comparabilityClass), rule := CloneOf(x.rule))
  }

  function ExpectCommitments(c: Context, x: Vector): Option<Commitments> {
    var source :- DigestOf(c, x.sourceEntry);
    var policy :- DigestOf(c, x.policy);
    var comparabilityClass :- DigestOf(c, x.comparabilityClass);
    var rule :- DigestOf(c, x.rule);
    Some(Commitments(source, policy, comparabilityClass, rule))
  }

  /** Equal descriptors and equal commitments of the two statements. */
  predicate SameClass(c: Context, schema: Value, k: Commitments, input: JsString, output: JsString) {
    && EqualCanonical(c, Some(Descriptor(ENTRY_SCHEMA, k)), Some(Descriptor(schema, k))) == Some(true)
    && input == output
  }

  /** The declarations against the frozen literals, one after the other. */
  function Literals(c: Context, x: Vector): Option<bool> {
    AndAlso(EqualCanonical(c, x.policy, Some(POLICY)),
            AndAlso(EqualCanonical(c, x.comparabilityClass, Some(CLASS)), EqualCanonical(c, x.rule, Some(RULE))))
  }

  /** `reconstructExpected`; nothing where a clone or a digest throws. */
  function Reconstruct(c: Context, x: Vector): Option<Expected> { ReconstructFrom(c, Cloned(x)) }

  function ReconstructFrom(c: Context, x: Vector): Option<Expected> {
    var k :- ExpectCommitments(c, x);
    var ref :- Field(x.sourceEntry, Js("entry_id"));
    var schema :- Field(x.sourceEntry, Js("schema"));
    Rebuild(c, x, k, ref, schema)
  }

  function Rebuild(c: Context, x: Vector, k: Commitments, ref: Value, schema: Value): Option<Expected> {
    var inputStatement, outputStatement := Statement(ENTRY_SCHEMA, ref, k), Statement(schema, ref, k);
    var inputCommitment :- DigestOf(c, Some(inputStatement));
    var inclusion := Inclusion(ref, k);
    var inclusionCommitment :- DigestOf(c, Some(inclusion));
    var outputCommitment :- DigestOf(c, Some(outputStatement));
    var breakdown := Breakdown(ref, k, inputCommitment, outputCommitment);
    var breakdownCommitment :- DigestOf(c, Some(breakdown));
    var aggregateId :- DigestOf(c, Some(Seed(ref, k, outputCommitment, inclusionCommitment, breakdownCommitment)));
    var sameClass := SameClass(c, schema, k, inputCommitment, outputCommitment);
    Some(Expected(ref, k, inputStatement, inputCommitment, outputStatement, outputCommitment,
                  inclusion, inclusionCommitment, breakdown, breakdownCommitment,
                  aggregateId, sameClass, sameClass && Literals(c, x) == Some(true)))
  }

  datatype FieldName =
    | Schema | ProfileVersion | AggregateId | SourceEntryRef | SourceEntryContentCommitment
    | SemanticStatement | SemanticResultCommitment | CanonicalInclusionSet | InclusionSetCommitment
    | FoldPolicyDeclaration | FoldPolicyCommitment | ComparabilityClassDeclaration | ComparabilityClassCommitment
    | TransitionRuleDeclaration | TransitionRuleCommitment | PreAggregationBreakdown | PreAggregationBreakdownCommitment
    | TransitionResult | NoStrongerSemanticClassCreated | ProfileLocalNotes

  function Key(name: FieldName): JsString {
    match name
    case Schema => Js("schema")
    case ProfileVersion => Js("profile_version")
    case AggregateId => Js("aggregate_id")
    case SourceEntryRef => Js("source_entry_ref")
    case SourceEntryContentCommitment => Js("source_entry_content_commitment")
    case SemanticStatement => Js("semantic_statement")
    case SemanticResultCommitment => Js("semantic_result_commitment")
    case CanonicalInclusionSet => Js("canonical_inclusion_set")
    case InclusionSetCommitment => Js("inclusion_set_commitment")
    case FoldPolicyDeclaration => Js("fold_policy_declaration")
    case FoldPolicyCommitment => Js("fold_policy_commitment")
    case ComparabilityClassDeclaration => Js("comparability_class_declaration")
    case ComparabilityClassCommitment => Js("comparability_class_commitment")
    case TransitionRuleDeclaration => Js("transition_rule_declaration")
    case TransitionRuleCommitment => Js("transition_rule_commitment")
    case PreAggregationBreakdown => Js("pre_aggregation_breakdown")
    case PreAggregationBreakdownCommitment => Js("pre_aggregation_breakdown_commitment")
    case TransitionResult => Js("transition_result")
    case NoStrongerSemanticClassCreated => Js("no_stronger_semantic_class_created")
    case ProfileLocalNotes => Js("profile_local_notes")
  }

  /** The reconstructed aggregate, field by field. */
  function ExpectedField(e: Expected, x: Vector, name: FieldName): Option<Value> {
    match name
    case Schema => Some(Text("recursive_singleton_aggregate.v0"))
    case ProfileVersion => Some(Text("recursive-singleton-fold-profile-v0"))
    case AggregateId => Some(Str(e.aggregateId))
    case SourceEntryRef => Some(e.ref)
    case SourceEntryContentCommitment => Some(Str(e.commitments.source))
    case SemanticStatement => Some(e.outputStatement)
    case SemanticResultCommitment => Some(Str(e.outputCommitment))
    case CanonicalInclusionSet => Some(e.inclusion)
    case InclusionSetCommitment => Some(Str(e.inclusionCommitment))
    case FoldPolicyDeclaration => CloneOf(x.policy)
    case FoldPolicyCommitment => Some(Str(e.commitments.policy))
    case ComparabilityClassDeclaration => CloneOf(x.comparabilityClass)
    case ComparabilityClassCommitment => Some(Str(e.commitments.comparabilityClass))
    case TransitionRuleDeclaration => CloneOf(x.rule)
    case TransitionRuleCommitment => Some(Str(e.commitments.rule))
    case PreAggregationBreakdown => Some(e.breakdown)
    case PreAggregationBreakdownCommitment => Some(Str(e.breakdownCommitment))
    case TransitionResult => Some(TRANSITION)
    case NoStrongerSemanticClassCreated => Some(Bool(e.noPromotion))
    case ProfileLocalNotes => x.notes
  }

  datatype Comparison = ByCanonicalOctets | Exact

  function ComparisonOf(name: FieldName): Comparison {
    if name in {SemanticStatement, CanonicalInclusionSet, FoldPolicyDeclaration, ComparabilityClassDeclaration,
                TransitionRuleDeclaration, PreAggregationBreakdown, TransitionResult}
    then ByCanonicalOctets else Exact
  }

  function Compare(c: Context, how: Comparison, a: Option<Value>, b: Option<Value>): Option<bool> {
    if how == ByCanonicalOctets then EqualCanonical(c, a, b) else Some(StrictEqual(a, b))
  }

  /** The comparison of one field of the candidate with the reconstruction. */
  function CompareField(c: Context, x: Vector, e: Expected, candidate: Option<Value>, name: FieldName): Option<bool> {
    Compare(c, ComparisonOf(name), Field(candidate, Key(name)), ExpectedField(e, x, name))
  }

  /** `position_28_remaining_fields` of the frozen contract: every field but the
      content commitment, which has a check of its own. */
  const REMAINING_FIELDS: seq<FieldName> := [
    Schema, ProfileVersion, AggregateId, SourceEntryRef, SemanticStatement, SemanticResultCommitment,
    CanonicalInclusionSet, InclusionSetCommitment, FoldPolicyDeclaration, FoldPolicyCommitment,
    ComparabilityClassDeclaration, ComparabilityClassCommitment, TransitionRuleDeclaration, TransitionRuleCommitment,
    PreAggregationBreakdown, PreAggregationBreakdownCommitment, TransitionResult,
    NoStrongerSemanticClassCreated, ProfileLocalNotes]

  /** A check that passes, fails, or throws. */
  datatype Step = Step(position: nat, code: string, passes: Option<bool>)

  datatype Outcome = Throws | Malformed | Rejected(code: string, position: nat) | Accepted

  /** Early returns: the first check that does not pass decides. */
  function First(steps: seq<Step>): Outcome {
    if steps == [] then Accepted
    else
      match steps[0].passes
      case None => Throws
      case Some(false) => Rejected(steps[0].code, steps[0].position)
      case Some(true) => First(steps[1..])
  }

  const CANDIDATE := "candidate_aggregate"
  const CLAIMED_COMMITMENT := "claimed_input_semantic_result_commitment"
  const CLAIMED_STATEMENT := "claimed_input_semantic_statement"

  /** What `/^sha256:[0-9a-f]{64}$/` matches once the operand is turned into
      text, as an array of one element turns into that element's text. */
  predicate DigestLike(v: Option<Value>)
    decreases if v.Some? then v.value else Null
  {
    match v
    case Some(Str(s)) => |s| == 71 && s[..7] == Js("sha256:") && OracleCommitment.IsLowerHex64(s[7..])
    case Some(Arr(items)) => |items| == 1 && DigestLike(Some(items[0]))
    case _ => false
  }

  predicate StageWellFormed(stage: Option<Value>) {
    && stage.Some? && stage.value.Obj?
    && KeySet(stage.value.entries) == {Js(CANDIDATE), Js(CLAIMED_COMMITMENT), Js(CLAIMED_STATEMENT), Js("schema")}
    && StrictEqual(Field(stage, Js("schema")), Some(Text("recursive_singleton_fold_stage_input.v0")))
    && IsTruthy(Field(stage, Js(CLAIMED_STATEMENT)))
    && DigestLike(Field(stage, Js(CLAIMED_COMMITMENT)))
    && IsTruthy(Field(stage, Js(CANDIDATE)))
  }

  /** The only element of an array of one. */
  function Sole(v: Option<Value>): Option<Value> {
    if v.Some? && v.value.Arr? && |v.value.items| == 1 then Some(v.value.items[0]) else None
  }

  /** The recomputed commitment of the candidate's own statement against the candidate's claim. */
  function OwnCommitment(c: Context, candidate: Option<Value>): Option<bool> {
    var own :- DigestOf(c, Field(candidate, Key(SemanticStatement)));
    Some(StrictEqual(Field(candidate, Key(SemanticResultCommitment)), Some(Str(own))))
  }

  function Candidate(x: Vector): Option<Value> { Field(x.stage, Js(CANDIDATE)) }

  predicate Reuses(x: Vector, e: Expected) { StrictEqual(Field(Candidate(x), Key(AggregateId)), Some(e.ref)) }

  /** The mechanical finding of position 24, on the declarations as given. */
  function Mechanical(c: Context, x: Vector, e: Expected): Option<bool> {
    AndAlso(Some(e.sameClass && !Reuses(x, e)), Literals(c, x))
  }

  function FlagCheck(c: Context, x: Vector, e: Expected): Option<bool> {
    var found :- Mechanical(c, x, e);
    Some(StrictEqual(Field(Candidate(x), Key(NoStrongerSemanticClassCreated)), Some(Bool(found))))
  }

  /** A commitment against the fresh digest of the source entry as given. */
  function AgainstFresh(c: Context, x: Vector, v: Option<Value>): Option<bool> {
    var recomputed :- DigestOf(c, x.sourceEntry);
    Some(StrictEqual(v, Some(Str(recomputed))))
  }

  /** The checks of positions 18 to 28 that precede the list of remaining fields, in source order. */
  function NamedSteps(c: Context, x: Vector, e: Expected): (r: seq<Step>)
    ensures |r| == 17
  {
    var candidate := Candidate(x);
    [Step(18, "singleton_policy_ineligible", Some(Sole(Field(candidate, Key(CanonicalInclusionSet))).Some?)),
     Step(19, "singleton_class_ineligible",
          Some(StrictEqual(Field(Sole(Field(candidate, Key(CanonicalInclusionSet))), Js("member_ref")), Some(e.ref)))),
     Step(20, "semantic_statement_mismatch",
          EqualCanonical(c, Field(x.stage, Js(CLAIMED_STATEMENT)), Some(e.inputStatement))),
     Step(20, "semantic_result_commitment_mismatch",
          Some(StrictEqual(Field(x.stage, Js(CLAIMED_COMMITMENT)), Some(Str(e.inputCommitment))))),
     Step(21, "inclusion_set_mismatch", CompareField(c, x, e, candidate, CanonicalInclusionSet)),
     Step(21, "inclusion_set_commitment_mismatch", CompareField(c, x, e, candidate, InclusionSetCommitment)),
     Step(22, "forbidden_source_identity_reuse", Some(!Reuses(x, e))),
     Step(23, "semantic_result_commitment_mismatch", CompareField(c, x, e, candidate, SemanticStatement)),
     Step(23, "semantic_result_commitment_mismatch", OwnCommitment(c, candidate)),
     Step(23, "semantic_result_commitment_mismatch",
          Some(StrictEqual(Field(candidate, Key(SemanticResultCommitment)), Some(Str(e.inputCommitment))))),
     Step(24, "no_elevation_invariant_mismatch", FlagCheck(c, x, e)),
     Step(25, "transition_result_mismatch", CompareField(c, x, e, candidate, TransitionResult)),
     Step(26, "breakdown_mismatch", CompareField(c, x, e, candidate, PreAggregationBreakdown)),
     Step(26, "breakdown_commitment_mismatch", CompareField(c, x, e, candidate, PreAggregationBreakdownCommitment)),
     Step(27, "aggregate_id_mismatch", CompareField(c, x, e, candidate, AggregateId)),
     Step(28, "source_entry_content_commitment_mismatch", AgainstFresh(c, x, x.carriedCommitment)),
     Step(28, "source_entry_content_commitment_mismatch",
          AgainstFresh(c, x, Field(candidate, Key(SourceEntryContentCommitment))))]
  }

  function RemainingSteps(c: Context, x: Vector, e: Expected, remaining: seq<FieldName>): (r: seq<Step>)
    ensures |r| == |remaining|
  {
    seq(|remaining|, i requires 0 <= i < |remaining| =>
      Step(28, "complete_aggregate_validation_mismatch", CompareField(c, x, e, Candidate(x), remaining[i])))
  }

  function Steps(c: Context, x: Vector, e: Expected, remaining: seq<FieldName>): seq<Step> {
    NamedSteps(c, x, e) + RemainingSteps(c, x, e, remaining)
  }

  /** `evaluatePositions18Through28` */
  function Evaluate(c: Context, x: Vector, remaining: seq<FieldName>): Outcome {
    if !StageWellFormed(x.stage) then Malformed
    else
      match Reconstruct(c, x)
      case None => Throws
      case Some(e) => First(Steps(c, x, e, remaining))
  }
}
