/** What acceptance and rejection by the fold auditor mean. */
module FoldOutcomes {
  import opened Common
  import opened FoldValues
  import opened ObjectA
  import opened SingletonFold

  predicate AllPass(steps: seq<Step>) { forall i | 0 <= i < |steps| :: steps[i].passes == Some(true) }

  /** Step `k` fails and everything before it passes. */
  predicate FailsFirst(steps: seq<Step>, k: nat)
    requires k < |steps|
  {
    steps[k].passes == Some(false) && AllPass(steps[..k])
  }

  lemma {:induction false} AcceptedIffAllPass(steps: seq<Step>)
    ensures First(steps) == Accepted <==> AllPass(steps)
  {
    if steps != [] {
      AcceptedIffAllPass(steps[1..]);
      assert forall i | 0 < i < |steps| :: steps[i] == steps[1..][i - 1];
    }
  }

  lemma {:induction false} RejectedAt(steps: seq<Step>) returns (k: nat)
    requires First(steps).Rejected?
    ensures k < |steps| && FailsFirst(steps, k) && First(steps) == Rejected(steps[k].code, steps[k].position)
  {
    k := 0;
    if steps[0].passes == Some(true) {
      var j := RejectedAt(steps[1..]);
      k := j + 1;
      forall i | 0 <= i < k ensures steps[..k][i].passes == Some(true) {
        if i > 0 { assert steps[..k][i] == steps[1..][..j][i - 1]; }
      }
    }
  }

  lemma PositionsAscend(c: Context, x: Vector, e: Expected, remaining: seq<FieldName>, i: nat, j: nat)
    requires i <= j < |Steps(c, x, e, remaining)|
    ensures Steps(c, x, e, remaining)[i].position <= Steps(c, x, e, remaining)[j].position
  {
    hide EqualCanonical, StrictEqual, Field, CompareField, OwnCommitment, Sole, Key, Js, Candidate;
  }

  lemma EarlierPasses(c: Context, x: Vector, e: Expected, remaining: seq<FieldName>, k: nat, i: nat)
    requires k < |Steps(c, x, e, remaining)| && FailsFirst(Steps(c, x, e, remaining), k)
             && i < |Steps(c, x, e, remaining)|
    requires Steps(c, x, e, remaining)[i].position < Steps(c, x, e, remaining)[k].position
    ensures Steps(c, x, e, remaining)[i].passes == Some(true)
  {
    hide Steps;
    var steps := Steps(c, x, e, remaining);
    if i < k {
      assert steps[..k][i] == steps[i];
    } else {
      PositionsAscend(c, x, e, remaining, k, i);
    }
  }

  /** Check `k` decides the outcome: it fails, and every check at a smaller position passes. */
  predicate IsLeastFailure(steps: seq<Step>, outcome: Outcome, k: nat)
    requires k < |steps|
  {
    && steps[k].passes == Some(false) && outcome == Rejected(steps[k].code, steps[k].position)
    && forall i | 0 <= i < |steps| && steps[i].position < steps[k].position :: steps[i].passes == Some(true)
  }

  /** A rejection names the least position with a failing check. */
  lemma LeastFailingPosition(c: Context, x: Vector, e: Expected, remaining: seq<FieldName>)
    requires Reconstruct(c, x) == Some(e) && Evaluate(c, x, remaining).Rejected?
    ensures exists k | 0 <= k < |Steps(c, x, e, remaining)| ::
              IsLeastFailure(Steps(c, x, e, remaining), Evaluate(c, x, remaining), k)
  {
    hide StageWellFormed, Reconstruct, Steps, First;
    var steps := Steps(c, x, e, remaining);
    var k := RejectedAt(steps);
    forall i | 0 <= i < |steps| && steps[i].position < steps[k].position ensures steps[i].passes == Some(true) {
      EarlierPasses(c, x, e, remaining, k, i);
    }
    assert IsLeastFailure(steps, Evaluate(c, x, remaining), k);
  }
}

/** The objects that the auditor builds can be canonicalized, whatever the text in them. */
module BuiltObjects {
  import opened Common
  import opened JsonValue
  import opened JsonEncoder
  import opened JsonCanonical
  import opened ObjectA
  import opened FoldValues
  import opened SingletonFold

  // Keys are distinct, because length and first letter tell the place of a key.

  predicate Stands(e: Entry, place: (nat, CodeUnit) -> nat, i: nat) { e.key != [] && place(|e.key|, e.key[0]) == i }

  lemma {:induction false} DistinctByPlace(entries: seq<Entry>, place: (nat, CodeUnit) -> nat, from: nat)
    requires forall i | 0 <= i < |entries| :: Stands(entries[i], place, from + i)
    ensures DistinctKeys(entries)
  {
    if entries != [] {
      forall e | e in entries[1..] ensures e.key != entries[0].key {
        var i :| 0 < i < |entries| && entries[i] == e;
      }
      DistinctByPlace(entries[1..], place, from + 1);
    }
  }

  function StatementPlace(length: nat, first: CodeUnit): nat {
    match length
    case 6 => 0 case 19 => 1 case 16 => 2 case 31 => 3 case 30 => 6 case 26 => 7 case 32 => 8
    case _ => if first == 0x73 then 4 else 5
  }

  function BreakdownPlace(length: nat, first: CodeUnit): nat {
    match length
    case 6 => 0 case 31 => 2 case 29 => 3 case 24 => 6 case 20 => 10
    case 16 => if first == 0x73 then 1 else 8
    case 18 => if first == 0x69 then 4 else 5
    case _ => if first == 0x70 then 7 else 9
  }

  function SeedPlace(length: nat, first: CodeUnit): nat {
    match length
    case 6 => 0 case 15 => 2 case 31 => 4 case 24 => 6 case 22 => 7 case 30 => 8 case 36 => 10
    case 16 => if first == 0x61 then 1 else 3
    case _ => if first == 0x73 then 5 else 9
  }

  lemma FirstLetter(s: string)
    ensures s != "" ==> Js(s)[0] == (s[0] as int) % 0x80
  {
  }

  lemma StatementFront(schema: Value, ref: Value, k: Commitments)
    ensures forall i | 0 <= i < 5 :: Stands(Statement(schema, ref, k).entries[i], StatementPlace, i)
  {
    hide Js;
    FirstLetter("source_admission_state");
  }

  lemma StatementBack(schema: Value, ref: Value, k: Commitments)
    ensures forall i | 5 <= i < 9 :: Stands(Statement(schema, ref, k).entries[i], StatementPlace, i)
  {
    hide Js;
    FirstLetter("fold_policy_commitment");
  }

  lemma StatementKeys(schema: Value, ref: Value, k: Commitments)
    ensures DistinctKeys(Statement(schema, ref, k).entries)
  {
    hide DistinctKeys, Js, Stands;
    StatementFront(schema, ref, k);
    StatementBack(schema, ref, k);
    DistinctByPlace(Statement(schema, ref, k).entries, StatementPlace, 0);
  }

  lemma BreakdownFront(ref: Value, k: Commitments, input: JsString, output: JsString)
    ensures forall i | 0 <= i < 5 :: Stands(Breakdown(ref, k, input, output).entries[i], BreakdownPlace, i)
  {
    hide Js;
    FirstLetter("source_entry_ref");
    FirstLetter("inclusion_decision");
  }

  lemma BreakdownBack(ref: Value, k: Commitments, input: JsString, output: JsString)
    ensures forall i | 5 <= i < 11 :: Stands(Breakdown(ref, k, input, output).entries[i], BreakdownPlace, i)
  {
    hide Js;
    FirstLetter("exclusion_decision");
    FirstLetter("policy_evaluation");
    FirstLetter("transition_input");
    FirstLetter("transition_output");
  }

  lemma BreakdownKeys(ref: Value, k: Commitments, input: JsString, output: JsString)
    ensures DistinctKeys(Breakdown(ref, k, input, output).entries)
  {
    hide DistinctKeys, Js, Stands;
    BreakdownFront(ref, k, input, output);
    BreakdownBack(ref, k, input, output);
    DistinctByPlace(Breakdown(ref, k, input, output).entries, BreakdownPlace, 0);
  }

  lemma SeedFront(ref: Value, k: Commitments, output: JsString, inclusion: JsString, breakdown: JsString)
    ensures forall i | 0 <= i < 5 :: Stands(Seed(ref, k, output, inclusion, breakdown).entries[i], SeedPlace, i)
  {
    hide Js;
    FirstLetter("aggregate_schema");
    FirstLetter("source_entry_ref");
  }

  lemma SeedBack(ref: Value, k: Commitments, output: JsString, inclusion: JsString, breakdown: JsString)
    ensures forall i | 5 <= i < 11 :: Stands(Seed(ref, k, output, inclusion, breakdown).entries[i], SeedPlace, i)
  {
    hide Js;
    FirstLetter("semantic_result_commitment");
    FirstLetter("transition_rule_commitment");
  }

  lemma SeedKeys(ref: Value, k: Commitments, output: JsString, inclusion: JsString, breakdown: JsString)
    ensures DistinctKeys(Seed(ref, k, output, inclusion, breakdown).entries)
  {
    hide DistinctKeys, Js, Stands;
    SeedFront(ref, k, output, inclusion, breakdown);
    SeedBack(ref, k, output, inclusion, breakdown);
    DistinctByPlace(Seed(ref, k, output, inclusion, breakdown).entries, SeedPlace, 0);
  }

  lemma MemberKeys(ref: Value, k: Commitments)
    ensures DistinctKeys(Inclusion(ref, k).items[0].entries)
  {
    DistinctByPlace(Inclusion(ref, k).items[0].entries,
                    (length, first) => if length == 13 then 0 else if length == 10 then 1 else 2, 0);
  }

  lemma EncodedHasDigest(c: Context, v: Value)
    requires Encodable(FoldCanonical, v)
    ensures DigestOf(c, Some(v)).Some?
  {
    SerializeIsPrint(FoldCanonical, c.format, v);
    hide Serialize, Print, Normal, Encodable;
  }

  predicate HoldsScalar(e: Entry) { e.value.Str? || e.value.Bool? || e.value == Number(Integral(1)) }

  lemma ScalarsEncodable(entries: seq<Entry>)
    requires DistinctKeys(entries) && forall i | 0 <= i < |entries| :: HoldsScalar(entries[i])
    ensures Encodable(FoldCanonical, Obj(entries))
  {
    hide DistinctKeys;
    forall e | e in entries ensures EncodableEntry(FoldCanonical, e) {
      var i :| 0 <= i < |entries| && entries[i] == e;
    }
  }

  lemma StatementEncodable(schema: JsString, ref: JsString, k: Commitments)
    ensures Encodable(FoldCanonical, Statement(Str(schema), Str(ref), k))
  {
    hide Js, DistinctKeys, Encodable;
    StatementKeys(Str(schema), Str(ref), k);
    ScalarsEncodable(Statement(Str(schema), Str(ref), k).entries);
  }

  lemma SeedEncodable(ref: JsString, k: Commitments, output: JsString, inclusion: JsString, breakdown: JsString)
    ensures Encodable(FoldCanonical, Seed(Str(ref), k, output, inclusion, breakdown))
  {
    hide Js, DistinctKeys, Encodable;
    SeedKeys(Str(ref), k, output, inclusion, breakdown);
    ScalarsEncodable(Seed(Str(ref), k, output, inclusion, breakdown).entries);
  }

  lemma InclusionEncodable(ref: JsString, k: Commitments)
    ensures Encodable(FoldCanonical, Inclusion(Str(ref), k))
  {
    hide Js, DistinctKeys;
    var member := Inclusion(Str(ref), k).items[0];
    MemberKeys(Str(ref), k);
    ScalarsEncodable(member.entries);
  }

  lemma BreakdownEncodable(ref: JsString, k: Commitments, input: JsString, output: JsString)
    ensures Encodable(FoldCanonical, Breakdown(Str(ref), k, input, output))
  {
    hide Js, DistinctKeys;
    var entries := Breakdown(Str(ref), k, input, output).entries;
    BreakdownKeys(Str(ref), k, input, output);
    OneText(entries[8].value.entries);
    OneText(entries[9].value.entries);
    forall e | e in entries ensures EncodableEntry(FoldCanonical, e) {
      var i :| 0 <= i < |entries| && entries[i] == e;
      if i == 8 || i == 9 { } else { assert HoldsScalar(e); }
    }
  }

  lemma OneText(entries: seq<Entry>)
    requires |entries| == 1 && HoldsScalar(entries[0])
    ensures Encodable(FoldCanonical, Obj(entries))
  {
    assert DistinctKeys(entries[1..]);
  }

  // The frozen literals.

  function PolicyPlace(length: nat, first: CodeUnit): nat {
    match length
    case 6 => 0 case 14 => 1 case 9 => 2 case 20 => 3 case 23 => 4 case 16 => 6 case 21 => 8 case 22 => 9
    case _ => if first == 0x6d then 5 else 7
  }

  function ClassPlace(length: nat, first: CodeUnit): nat {
    match length
    case 6 => 0 case 13 => 1 case 8 => 2 case 20 => 3 case 25 => 5 case 19 => 6 case 26 => 8
    case _ => if first == 0x61 then 4 else 7
  }

  function RulePlace(length: nat, first: CodeUnit): nat {
    match length
    case 6 => 0 case 12 => 1 case 7 => 2 case 20 => 3 case 27 => 5 case 21 => 6 case 41 => 8
    case _ => if first == 0x61 then 4 else 7
  }

  lemma PolicyKeys()
    ensures DistinctKeys(POLICY.entries)
  {
    hide DistinctKeys, Js;
    FirstLetter("member_cardinality");
    FirstLetter("semantic_elevation");
    DistinctByPlace(POLICY.entries, PolicyPlace, 0);
  }

  lemma PolicyEncodable()
    ensures Encodable(FoldCanonical, POLICY)
  {
    hide DistinctKeys, Encodable, Js;
    PolicyKeys();
    ScalarsEncodable(POLICY.entries);
  }

  lemma ClassKeys()
    ensures DistinctKeys(CLASS.entries)
  {
    hide DistinctKeys, Js;
    FirstLetter("admission_required");
    FirstLetter("cross_class_bridge");
    DistinctByPlace(CLASS.entries, ClassPlace, 0);
  }

  lemma ClassEncodable()
    ensures Encodable(FoldCanonical, CLASS)
  {
    hide DistinctKeys, Encodable, Js;
    ClassKeys();
    ScalarsEncodable(CLASS.entries);
  }

  lemma RuleKeys()
    ensures DistinctKeys(RULE.entries)
  {
    hide DistinctKeys, Js;
    FirstLetter("aggregate_object_schema");
    FirstLetter("stronger_class_creation");
    DistinctByPlace(RULE.entries, RulePlace, 0);
  }

  lemma RuleEncodable()
    ensures Encodable(FoldCanonical, RULE)
  {
    hide DistinctKeys, Encodable, Js;
    RuleKeys();
    ScalarsEncodable(RULE.entries);
  }

  lemma FrozenLiteralsEncodable()
    ensures Encodable(FoldCanonical, POLICY) && Encodable(FoldCanonical, CLASS) && Encodable(FoldCanonical, RULE)
  {
    hide POLICY, CLASS, RULE, Encodable;
    PolicyEncodable();
    ClassEncodable();
    RuleEncodable();
  }

  // The class descriptor.

  function DescriptorPlace(length: nat, first: CodeUnit): nat {
    match length
    case 6 => 0 case 20 => 1 case 30 => 4 case 26 => 5 case 32 => 6
    case _ => if first == 0x73 then 2 else 3
  }

  lemma DescriptorKeys(schema: Value, k: Commitments)
    ensures DistinctKeys(Descriptor(schema, k).entries)
  {
    hide DistinctKeys, Js;
    FirstLetter("source_admission_state");
    FirstLetter("fold_policy_commitment");
    DistinctByPlace(Descriptor(schema, k).entries, DescriptorPlace, 0);
  }

  lemma DescriptorEncodable(schema: JsString, k: Commitments)
    ensures Encodable(FoldCanonical, Descriptor(Str(schema), k))
  {
    hide Js, DistinctKeys, Encodable;
    DescriptorKeys(Str(schema), k);
    ScalarsEncodable(Descriptor(Str(schema), k).entries);
  }
}

/** Acceptance: exactly the reconstructed aggregate. */
module FoldAcceptance {
  import opened Common
  import opened JsonValue
  import opened JsonEncoder
  import opened JsonCanonical
  import opened JsonTheorems
  import opened ObjectA
  import opened FoldValues
  import opened SingletonFold
  import opened BuiltObjects
  import opened FoldOutcomes

  predicate Passes(check: Option<bool>) { check == Some(true) }

  predicate FieldMatches(c: Context, x: Vector, e: Expected, name: FieldName) {
    Passes(CompareField(c, x, e, Candidate(x), name))
  }

  /** The two claims of the stage input. */
  predicate ClaimsMatch(c: Context, x: Vector, e: Expected) {
    && Passes(EqualCanonical(c, Field(x.stage, Js(CLAIMED_STATEMENT)), Some(e.inputStatement)))
    && Field(x.stage, Js(CLAIMED_COMMITMENT)) == Some(Str(e.inputCommitment))
  }

  /** The stage agrees with the reconstruction in every field of the aggregate. */
  predicate Matches(c: Context, x: Vector, e: Expected) {
    && ClaimsMatch(c, x, e)
    && (forall name: FieldName :: FieldMatches(c, x, e, name))
    && e.ref != Str(e.aggregateId)
    && x.carriedCommitment == Some(Str(e.commitments.source))
  }

  /** Nothing is left to throw: the source entry as given can be canonicalized,
      and so can the declarations as given, as far as they are looked at. */
  predicate FactsEvaluate(c: Context, x: Vector, e: Expected) {
    Canonical(c, x.sourceEntry).Some? && (e.sameClass ==> Literals(c, x).Some?)
  }

  // The checks one by one.

  /** Checks of positions 18 to 24 that the remaining fields do not repeat. */
  predicate EarlyChecks(c: Context, x: Vector, e: Expected) {
    var candidate := Candidate(x);
    && Sole(Field(candidate, Key(CanonicalInclusionSet))).Some?
    && StrictEqual(Field(Sole(Field(candidate, Key(CanonicalInclusionSet))), Js("member_ref")), Some(e.ref))
    && !Reuses(x, e)
    && Passes(OwnCommitment(c, candidate))
    && StrictEqual(Field(candidate, Key(SemanticResultCommitment)), Some(Str(e.inputCommitment)))
  }

  /** Checks that look at the facts as given, not at their clones. */
  predicate FactChecks(c: Context, x: Vector, e: Expected) {
    && Passes(FlagCheck(c, x, e)) && Passes(AgainstFresh(c, x, x.carriedCommitment))
    && Passes(AgainstFresh(c, x, Field(Candidate(x), Key(SourceEntryContentCommitment))))
  }

  const NAMED_FIELDS: seq<FieldName> := [
    CanonicalInclusionSet, InclusionSetCommitment, SemanticStatement, TransitionResult, PreAggregationBreakdown,
    PreAggregationBreakdownCommitment, AggregateId]

  predicate AllMatch(c: Context, x: Vector, e: Expected, names: seq<FieldName>) {
    forall i | 0 <= i < |names| :: FieldMatches(c, x, e, names[i])
  }

  lemma NamedStepsPass(c: Context, x: Vector, e: Expected)
    ensures AllPass(NamedSteps(c, x, e))
       <==> EarlyChecks(c, x, e) && FactChecks(c, x, e) && ClaimsMatch(c, x, e) && AllMatch(c, x, e, NAMED_FIELDS)
  {
    hide EqualCanonical, StrictEqual, Field, CompareField, OwnCommitment, Sole, Key, Js, Candidate, AllPass, AllMatch;
    hide FlagCheck, AgainstFresh, Reuses;
    var s := NamedSteps(c, x, e);
    StrictlyText(Field(x.stage, Js(CLAIMED_COMMITMENT)), e.inputCommitment);
    Seventeen(s);
    SevenFields(c, x, e);
  }

  lemma Seventeen(s: seq<Step>)
    requires |s| == 17
    ensures AllPass(s) <==>
      && Passes(s[0].passes) && Passes(s[1].passes) && Passes(s[2].passes) && Passes(s[3].passes) && Passes(s[4].passes)
      && Passes(s[5].passes) && Passes(s[6].passes) && Passes(s[7].passes) && Passes(s[8].passes) && Passes(s[9].passes)
      && Passes(s[10].passes) && Passes(s[11].passes)
      && Passes(s[12].passes) && Passes(s[13].passes) && Passes(s[14].passes)
      && Passes(s[15].passes) && Passes(s[16].passes)
  {
  }

  lemma SevenFields(c: Context, x: Vector, e: Expected)
    ensures AllMatch(c, x, e, NAMED_FIELDS) <==>
      && FieldMatches(c, x, e, CanonicalInclusionSet) && FieldMatches(c, x, e, InclusionSetCommitment)
      && FieldMatches(c, x, e, SemanticStatement) && FieldMatches(c, x, e, TransitionResult)
      && FieldMatches(c, x, e, PreAggregationBreakdown) && FieldMatches(c, x, e, PreAggregationBreakdownCommitment)
      && FieldMatches(c, x, e, AggregateId)
  {
    hide FieldMatches;
    var n := NAMED_FIELDS;
    assert n[0] == CanonicalInclusionSet && n[1] == InclusionSetCommitment
           && n[2] == SemanticStatement && n[3] == TransitionResult;
    assert n[4] == PreAggregationBreakdown && n[5] == PreAggregationBreakdownCommitment;
    assert n[6] == AggregateId;
  }

  lemma StrictlyText(v: Option<Value>, s: JsString)
    ensures StrictEqual(v, Some(Str(s))) <==> v == Some(Str(s))
  {
  }

  lemma RemainingStepsPass(c: Context, x: Vector, e: Expected, remaining: seq<FieldName>)
    ensures AllPass(RemainingSteps(c, x, e, remaining)) <==> AllMatch(c, x, e, remaining)
  {
    hide CompareField, Candidate;
    var s := RemainingSteps(c, x, e, remaining);
    assert forall i | 0 <= i < |s| :: s[i].passes == Some(true) <==> FieldMatches(c, x, e, remaining[i]);
  }

  /** The frozen field list names every field but the content commitment, which
      has a check of its own. */
  lemma EveryFieldIsNamed(name: FieldName)
    ensures name in REMAINING_FIELDS <==> name != SourceEntryContentCommitment
  {
    if name != SourceEntryContentCommitment {
      var i := match name
        case Schema => 0 case ProfileVersion => 1 case AggregateId => 2
        case SourceEntryRef => 3 case SemanticStatement => 4
        case SemanticResultCommitment => 5 case CanonicalInclusionSet => 6 case InclusionSetCommitment => 7
        case FoldPolicyDeclaration => 8 case FoldPolicyCommitment => 9 case ComparabilityClassDeclaration => 10
        case ComparabilityClassCommitment => 11 case TransitionRuleDeclaration => 12 case TransitionRuleCommitment => 13
        case PreAggregationBreakdown => 14 case PreAggregationBreakdownCommitment => 15 case TransitionResult => 16
        case NoStrongerSemanticClassCreated => 17 case ProfileLocalNotes => 18;
      assert REMAINING_FIELDS[i] == name;
    }
  }

  lemma ListsCoverAllFields(c: Context, x: Vector, e: Expected)
    ensures AllMatch(c, x, e, REMAINING_FIELDS) && FieldMatches(c, x, e, SourceEntryContentCommitment)
       <==> forall name: FieldName :: FieldMatches(c, x, e, name)
    ensures AllMatch(c, x, e, REMAINING_FIELDS) ==> AllMatch(c, x, e, NAMED_FIELDS)
  {
    hide FieldMatches;
    if AllMatch(c, x, e, REMAINING_FIELDS) {
      forall name: FieldName | name != SourceEntryContentCommitment ensures FieldMatches(c, x, e, name) {
        EveryFieldIsNamed(name);
        var i :| 0 <= i < |REMAINING_FIELDS| && REMAINING_FIELDS[i] == name;
      }
    }
  }

  // The early checks follow from the fields.

  predicate IsScalar(v: Value) { !v.Arr? && !v.Obj? && v != Number(NotANumber) }

  lemma SameScalars(v: Value, w: Value)
    requires IsScalar(w) && Encodable(FoldCanonical, v)
             && Encodable(FoldCanonical, w) && SameUpToOrder(FoldCanonical, v, w)
    ensures StrictEqual(Some(v), Some(w))
  {
  }

  /** One array element with the expected member in it. */
  lemma SoleMember(v: Value, ref: Value, k: Commitments)
    requires IsScalar(ref) && Encodable(FoldCanonical, ref) && Encodable(FoldCanonical, v)
    requires SameUpToOrder(FoldCanonical, v, Inclusion(ref, k))
    ensures Sole(Some(v)).Some? && StrictEqual(Field(Sole(Some(v)), Js("member_ref")), Some(ref))
  {
    var member := Inclusion(ref, k).items[0];
    assert v.Arr? && |v.items| == 1 && SameUpToOrder(FoldCanonical, v.items[0], member);
    MemberRef(v.items[0], member, ref, Js("member_ref"));
  }

  lemma MemberRef(v: Value, w: Value, ref: Value, key: JsString)
    requires IsScalar(ref) && Encodable(FoldCanonical, ref) && Encodable(FoldCanonical, v)
    requires SameUpToOrder(FoldCanonical, v, w) && w.Obj? && |w.entries| == 3 && w.entries[1] == Entry(key, ref)
    ensures StrictEqual(Field(Some(v), key), Some(ref))
  {
    assert v.Obj? && KeySet(v.entries) == KeySet(w.entries);
    assert key in KeySet(w.entries) by { assert w.entries[1] in w.entries; }
    LookupFinds(v.entries, key);
    hide Lookup;
    var e := Entry(key, Lookup(v.entries, key).value);
    var i :| 0 <= i < |v.entries| && v.entries[i] == e;
    assert EncodableEntry(FoldCanonical, e);
    assert SameUpToOrder(FoldCanonical, v.entries[i].value, w.entries[1].value);
    SameScalars(e.value, ref);
  }

  /** The schema of the source entry, as the reconstruction sees it. */
  function ClonedSchema(x: Vector): Option<Value> { Field(CloneOf(x.sourceEntry), Js("schema")) }

  /** What the reconstruction computes. */
  lemma ReconstructionParts(c: Context, x: Vector, e: Expected)
    requires Reconstruct(c, x) == Some(e)
    ensures ClonedSchema(x).Some?
    ensures e.inputStatement == Statement(ENTRY_SCHEMA, e.ref, e.commitments)
    ensures e.outputStatement == Statement(ClonedSchema(x).value, e.ref, e.commitments)
    ensures DigestOf(c, Some(e.inputStatement)) == Some(e.inputCommitment)
    ensures DigestOf(c, Some(e.outputStatement)) == Some(e.outputCommitment)
    ensures e.inclusion == Inclusion(e.ref, e.commitments)
            && DigestOf(c, Some(e.inclusion)) == Some(e.inclusionCommitment)
    ensures DigestOf(c, CloneOf(x.sourceEntry)) == Some(e.commitments.source)
  {
    hide DigestOf, Field, Statement, Inclusion, Breakdown, Seed, SameClass, Literals, CloneOf;
  }

  lemma FlagParts(c: Context, x: Vector, e: Expected)
    requires Reconstruct(c, x) == Some(e)
    ensures e.sameClass == SameClass(c, ClonedSchema(x).value, e.commitments, e.inputCommitment, e.outputCommitment)
    ensures e.noPromotion == (e.sameClass && Literals(c, Cloned(x)) == Some(true))
  {
    hide DigestOf, Field, Statement, Inclusion, Breakdown, Seed, SameClass, Literals, CloneOf, ExpectCommitments;
  }

  // Facts as given and facts as cloned.

  /** The schema is text, or is no text, of the entry and of its clone alike. */
  lemma SchemaSurvivesCloning(x: Vector)
    ensures ClonedSchema(x) == Some(ENTRY_SCHEMA) <==> Field(x.sourceEntry, Js("schema")) == Some(ENTRY_SCHEMA)
  {
    hide Field, Js;
    FieldOfClone(x.sourceEntry, Js("schema"));
  }

  lemma AgainstFreshMeans(c: Context, x: Vector, e: Expected, v: Option<Value>)
    requires Reconstruct(c, x) == Some(e)
    ensures Passes(AgainstFresh(c, x, v)) <==> Canonical(c, x.sourceEntry).Some? && v == Some(Str(e.commitments.source))
  {
    hide Reconstruct, Canonical, Sha256Text, CloneOf;
    ReconstructionParts(c, x, e);
    if Canonical(c, x.sourceEntry).Some? { CloneKeepsText(c, x.sourceEntry); }
  }

  lemma LiteralsOfClones(c: Context, x: Vector)
    requires Literals(c, x).Some?
    ensures Literals(c, Cloned(x)) == Literals(c, x)
  {
    hide Canonical, CloneOf;
    if Canonical(c, x.policy).Some? { CloneKeepsText(c, x.policy); }
    if Canonical(c, x.comparabilityClass).Some? { CloneKeepsText(c, x.comparabilityClass); }
    if Canonical(c, x.rule).Some? { CloneKeepsText(c, x.rule); }
  }

  lemma FlagCheckMeans(c: Context, x: Vector, e: Expected)
    requires Reconstruct(c, x) == Some(e) && !Reuses(x, e)
    ensures Passes(FlagCheck(c, x, e))
       <==> (e.sameClass ==> Literals(c, x).Some?) && FieldMatches(c, x, e, NoStrongerSemanticClassCreated)
  {
    hide Reconstruct, Literals, Cloned, SameClass, Field, Candidate, Key, Reuses, StrictEqual;
    FlagParts(c, x, e);
    if Literals(c, x).Some? { LiteralsOfClones(c, x); }
  }

  lemma DigestedIsEncodable(c: Context, v: Value)
    requires DigestOf(c, Some(v)).Some? || Canonical(c, Some(v)).Some?
    ensures Encodable(FoldCanonical, v) && Canonical(c, Some(v)).Some?
  {
    SerializeIsPrint(FoldCanonical, c.format, v);
    hide Serialize, Print, Normal, Encodable;
  }

  lemma RefIsEncodable(ref: Value, k: Commitments)
    requires Encodable(FoldCanonical, Inclusion(ref, k))
    ensures Encodable(FoldCanonical, ref)
  {
    var member := Inclusion(ref, k).items[0];
    assert Encodable(FoldCanonical, member);
    assert EncodableEntry(FoldCanonical, member.entries[1]);
  }

  /** An inclusion set with the right octets holds the one right member. */
  lemma InclusionHasMember(c: Context, x: Vector, e: Expected)
    requires Reconstruct(c, x) == Some(e)
    requires FieldMatches(c, x, e, CanonicalInclusionSet) && FieldMatches(c, x, e, SourceEntryRef)
    ensures var given := Field(Candidate(x), Key(CanonicalInclusionSet));
            Sole(given).Some? && StrictEqual(Field(Sole(given), Js("member_ref")), Some(e.ref))
  {
    hide Reconstruct, Canonical, DigestOf, Field, Sole, Inclusion, SameUpToOrder, Encodable, Candidate, Js, Key;
    var given := Field(Candidate(x), Key(CanonicalInclusionSet));
    ReconstructionParts(c, x, e);
    DigestedIsEncodable(c, e.inclusion);
    RefIsEncodable(e.ref, e.commitments);
    EqualImpliesSame(c, given, e.inclusion);
    SoleMember(given.value, e.ref, e.commitments);
  }

  lemma EqualImpliesSame(c: Context, given: Option<Value>, expected: Value)
    requires Passes(EqualCanonical(c, given, Some(expected)))
    ensures given.Some? && Encodable(FoldCanonical, given.value) && SameUpToOrder(FoldCanonical, given.value, expected)
    ensures DigestOf(c, given) == DigestOf(c, Some(expected))
  {
    hide Serialize, SameUpToOrder, Encodable;
    EqualCanonicalMeansSame(c, given, Some(expected));
    DigestedIsEncodable(c, given.value);
  }

  lemma OwnCommitmentFollows(c: Context, x: Vector, e: Expected)
    requires Reconstruct(c, x) == Some(e)
    requires FieldMatches(c, x, e, SemanticStatement) && FieldMatches(c, x, e, SemanticResultCommitment)
    ensures Passes(OwnCommitment(c, Candidate(x)))
  {
    hide Reconstruct, Canonical, DigestOf, Field, SameUpToOrder, Encodable, Candidate, Js, Key;
    ReconstructionParts(c, x, e);
    EqualImpliesSame(c, Field(Candidate(x), Key(SemanticStatement)), e.outputStatement);
  }

  lemma EarlyChecksFollow(c: Context, x: Vector, e: Expected)
    requires Reconstruct(c, x) == Some(e)
    requires Matches(c, x, e) && e.inputCommitment == e.outputCommitment
    ensures EarlyChecks(c, x, e)
  {
    hide Reconstruct, ClaimsMatch, OwnCommitment, EqualCanonical, Field, Candidate, Js, Key, Sole;
    assert FieldMatches(c, x, e, CanonicalInclusionSet) && FieldMatches(c, x, e, SourceEntryRef);
    assert FieldMatches(c, x, e, SemanticStatement) && FieldMatches(c, x, e, SemanticResultCommitment);
    assert FieldMatches(c, x, e, AggregateId);
    InclusionHasMember(c, x, e);
    OwnCommitmentFollows(c, x, e);
  }

  lemma EarlyChecksGive(c: Context, x: Vector, e: Expected)
    requires EarlyChecks(c, x, e) && forall name: FieldName :: FieldMatches(c, x, e, name)
    ensures e.ref != Str(e.aggregateId) && e.inputCommitment == e.outputCommitment
  {
    hide OwnCommitment, EqualCanonical, Field, Candidate, Js, Key, Sole;
    assert FieldMatches(c, x, e, AggregateId) && FieldMatches(c, x, e, SemanticResultCommitment);
  }

  lemma FactChecksMean(c: Context, x: Vector, e: Expected)
    requires Reconstruct(c, x) == Some(e) && !Reuses(x, e)
    ensures FactChecks(c, x, e)
       <==> && FactsEvaluate(c, x, e) && x.carriedCommitment == Some(Str(e.commitments.source))
            && FieldMatches(c, x, e, NoStrongerSemanticClassCreated)
            && FieldMatches(c, x, e, SourceEntryContentCommitment)
  {
    hide Reconstruct, FlagCheck, AgainstFresh, Reuses, Canonical, Literals, Field, Candidate, Js, Key;
    var given := Field(Candidate(x), Key(SourceEntryContentCommitment));
    FlagCheckMeans(c, x, e);
    AgainstFreshMeans(c, x, e, x.carriedCommitment);
    AgainstFreshMeans(c, x, e, given);
    StrictlyText(given, e.commitments.source);
    assert FieldMatches(c, x, e, SourceEntryContentCommitment) <==> StrictEqual(given, Some(Str(e.commitments.source)));
  }

  /** Acceptance: the stage is well formed, both claims and every field of the
      aggregate agree with the reconstruction, the reconstructed id differs from
      the source reference, the carried source commitment is the recomputed one,
      the output statement has the commitment of the input statement, and nothing
      that is looked at as given throws. */
  lemma AcceptedExactly(c: Context, x: Vector)
    ensures Evaluate(c, x, REMAINING_FIELDS) == Accepted
       <==> && StageWellFormed(x.stage) && Reconstruct(c, x).Some?
            && Matches(c, x, Reconstruct(c, x).value)
            && Reconstruct(c, x).value.inputCommitment == Reconstruct(c, x).value.outputCommitment
            && FactsEvaluate(c, x, Reconstruct(c, x).value)
  {
    hide StageWellFormed, Reconstruct, Steps, First;
    if StageWellFormed(x.stage) && Reconstruct(c, x).Some? {
      var e := Reconstruct(c, x).value;
      AcceptedIffAllPass(Steps(c, x, e, REMAINING_FIELDS));
      StepsPassIffMatches(c, x, e);
    }
  }

  lemma StepsPassIffMatches(c: Context, x: Vector, e: Expected)
    requires Reconstruct(c, x) == Some(e)
    ensures AllPass(Steps(c, x, e, REMAINING_FIELDS))
       <==> Matches(c, x, e) && e.inputCommitment == e.outputCommitment && FactsEvaluate(c, x, e)
  {
    hide Reconstruct, NamedSteps, RemainingSteps, AllPass, AllMatch, EarlyChecks, FactChecks, ClaimsMatch, FieldMatches;
    hide FactsEvaluate, Reuses;
    AllPassConcat(NamedSteps(c, x, e), RemainingSteps(c, x, e, REMAINING_FIELDS));
    NamedStepsPass(c, x, e);
    RemainingStepsPass(c, x, e, REMAINING_FIELDS);
    ListsCoverAllFields(c, x, e);
    if Matches(c, x, e) && e.inputCommitment == e.outputCommitment { EarlyChecksFollow(c, x, e); }
    if EarlyChecks(c, x, e) {
      NothingReused(c, x, e);
      FactChecksMean(c, x, e);
      if forall name: FieldName :: FieldMatches(c, x, e, name) { EarlyChecksGive(c, x, e); }
    }
  }

  lemma NothingReused(c: Context, x: Vector, e: Expected)
    requires EarlyChecks(c, x, e)
    ensures !Reuses(x, e)
  {
    hide Reuses, OwnCommitment, Sole, Field, StrictEqual;
  }

  lemma AllPassConcat(a: seq<Step>, b: seq<Step>)
    ensures AllPass(a + b) <==> AllPass(a) && AllPass(b)
  {
    assert forall i | 0 <= i < |b| :: b[i] == (a + b)[|a| + i];
    assert forall i | 0 <= i < |a| :: a[i] == (a + b)[i];
  }

  /** For a `chronicle_entry.v0` source the two statements are one. What remains
      is agreement, and that nothing looked at as given throws: the source entry,
      the policy, the class if the policy is the frozen one, and the rule if the
      class is the frozen one too. */
  lemma ChronicleEntryAcceptedExactly(c: Context, x: Vector)
    requires Field(x.sourceEntry, Js("schema")) == Some(ENTRY_SCHEMA)
    ensures Evaluate(c, x, REMAINING_FIELDS) == Accepted
       <==> && StageWellFormed(x.stage) && Reconstruct(c, x).Some? && Matches(c, x, Reconstruct(c, x).value)
            && Canonical(c, x.sourceEntry).Some? && Literals(c, x).Some?
  {
    hide StageWellFormed, Evaluate, Matches, Reconstruct, DigestOf, Canonical, Literals, ClonedSchema, Js;
    AcceptedExactly(c, x);
    SchemaSurvivesCloning(x);
    if Reconstruct(c, x).Some? {
      ReconstructionParts(c, x, Reconstruct(c, x).value);
      ChronicleEntryIsSameClass(c, x, Reconstruct(c, x).value);
    }
  }

  lemma ChronicleEntryIsSameClass(c: Context, x: Vector, e: Expected)
    requires Field(x.sourceEntry, Js("schema")) == Some(ENTRY_SCHEMA) && Reconstruct(c, x) == Some(e)
    ensures e.sameClass
  {
    hide Reconstruct, Canonical, ClonedSchema, Statement, Descriptor, Js;
    SchemaSurvivesCloning(x);
    ReconstructionParts(c, x, e);
    FlagParts(c, x, e);
    var d := Descriptor(ENTRY_SCHEMA, e.commitments);
    DescriptorEncodable(ENTRY_SCHEMA.s, e.commitments);
    EncodedHasDigest(c, d);
  }

  /** The octets of the two statements, as they are hashed. */
  function StatementOctets(c: Context, e: Expected): (Bytes, Bytes)
    requires Canonical(c, Some(e.inputStatement)).Some? && Canonical(c, Some(e.outputStatement)).Some?
  {
    (Utf8.Encode(Canonical(c, Some(e.inputStatement)).value), Utf8.Encode(Canonical(c, Some(e.outputStatement)).value))
  }

  /** No check compares the schema of the source entry, and yet an accepted
      vector has the right one, or its two statements collide under the hash. */
  lemma AcceptedSchemaOrCollision(c: Context, x: Vector, e: Expected)
    requires Reconstruct(c, x) == Some(e) && Evaluate(c, x, REMAINING_FIELDS) == Accepted
    ensures Canonical(c, Some(e.inputStatement)).Some? && Canonical(c, Some(e.outputStatement)).Some?
    ensures Field(x.sourceEntry, Js("schema")) == Some(ENTRY_SCHEMA) || IsCollision(c.sha256, StatementOctets(c, e))
  {
    hide StageWellFormed, Evaluate, Matches, Reconstruct, Canonical, Statement, ClonedSchema, FactsEvaluate, Js;
    AcceptedExactly(c, x);
    SchemaSurvivesCloning(x);
    ReconstructionParts(c, x, e);
    SameDigestOrCollision(c, e.inputStatement, e.outputStatement);
    if EqualCanonical(c, Some(e.inputStatement), Some(e.outputStatement)) == Some(true) {
      EqualImpliesSame(c, Some(e.inputStatement), e.outputStatement);
      SameStatements(ClonedSchema(x).value, e.ref, e.commitments);
    }
  }

  lemma SameDigestOrCollision(c: Context, a: Value, b: Value)
    requires DigestOf(c, Some(a)).Some? && DigestOf(c, Some(a)) == DigestOf(c, Some(b))
    ensures Canonical(c, Some(a)).Some? && Canonical(c, Some(b)).Some?
    ensures EqualCanonical(c, Some(a), Some(b)) == Some(true)
         || IsCollision(c.sha256, (Utf8.Encode(Canonical(c, Some(a)).value), Utf8.Encode(Canonical(c, Some(b)).value)))
  {
    hide Canonical, Utf8.Encode, Js;
    var s, t := Utf8.Encode(Canonical(c, Some(a)).value), Utf8.Encode(Canonical(c, Some(b)).value);
    assert OracleCommitment.Hex(c.sha256(s)) == DigestOf(c, Some(a)).value[7..];
    assert OracleCommitment.Hex(c.sha256(t)) == DigestOf(c, Some(b)).value[7..];
    OracleCommitment.HexInjective(c.sha256(s), c.sha256(t));
  }

  lemma SameStatements(schema: Value, ref: Value, k: Commitments)
    requires SameUpToOrder(FoldCanonical, Statement(ENTRY_SCHEMA, ref, k), Statement(schema, ref, k))
    ensures schema == ENTRY_SCHEMA
  {
    hide Js;
    var a, b := Statement(ENTRY_SCHEMA, ref, k), Statement(schema, ref, k);
    assert a.entries[1].key == b.entries[1].key && SameUpToOrder(FoldCanonical, a.entries[1].value, b.entries[1].value);
    TextIsItself(Js("chronicle_entry.v0"), schema);
  }

  lemma TextIsItself(s: JsString, v: Value)
    requires SameUpToOrder(FoldCanonical, Str(s), v)
    ensures v == Str(s)
  {
  }

  /** `===` never holds between structured values: vectors with structured notes,
      or with a structured entry id, are never accepted. */
  lemma AcceptedIsScalar(c: Context, x: Vector, e: Expected)
    requires Reconstruct(c, x) == Some(e) && Evaluate(c, x, REMAINING_FIELDS) == Accepted
    ensures IsScalar(e.ref) && (x.notes.Some? ==> IsScalar(x.notes.value))
  {
    hide StageWellFormed, Evaluate, ClaimsMatch, Reconstruct, EqualCanonical, Field, FactsEvaluate, Js, Key;
    AcceptedExactly(c, x);
    assert FieldMatches(c, x, e, SourceEntryRef) && FieldMatches(c, x, e, ProfileLocalNotes);
  }
}
