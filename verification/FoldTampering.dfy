/** What becomes of a stage that is right but for one thing. */
module FoldTampering {
  import opened Common
  import opened JsonValue
  import opened ObjectA
  import opened FoldValues
  import opened SingletonFold
  import opened FoldOutcomes
  import opened FoldAcceptance

  // Early returns.

  lemma {:induction false} FirstSkips(a: seq<Step>, b: seq<Step>)
    requires AllPass(a)
    ensures First(a + b) == First(b)
  {
    if a == [] {
      assert a + b == b;
    } else {
      assert (a + b)[1..] == a[1..] + b && (a + b)[0] == a[0];
      assert forall i | 0 <= i < |a[1..]| :: a[1..][i] == a[i + 1];
      FirstSkips(a[1..], b);
    }
  }

  /** The first check that fails decides, whatever stands behind it. */
  lemma FirstFails(steps: seq<Step>, k: nat)
    requires k < |steps| && FailsFirst(steps, k)
    ensures First(steps) == Rejected(steps[k].code, steps[k].position)
  {
    FirstSkips(steps[..k], steps[k..]);
    assert steps == steps[..k] + steps[k..];
  }

  // Everything in order but for one field.

  /** Beside the fields: claims, carried commitment, id and statements are in order, and nothing throws. */
  predicate Otherwise(c: Context, x: Vector, e: Expected) {
    && StageWellFormed(x.stage) && Reconstruct(c, x) == Some(e) && ClaimsMatch(c, x, e)
    && x.carriedCommitment == Some(Str(e.commitments.source)) && FactsEvaluate(c, x, e)
    && e.inputCommitment == e.outputCommitment && e.ref != Str(e.aggregateId)
  }

  /** Of all fields just this one differs from the reconstruction. */
  predicate OnlyDiffers(c: Context, x: Vector, e: Expected, name: FieldName) {
    && CompareField(c, x, e, Candidate(x), name) == Some(false)
    && forall other: FieldName | other != name :: FieldMatches(c, x, e, other)
  }

  /** The one member that the candidate's inclusion set names. */
  function NamedMember(x: Vector): Option<Value> {
    Field(Sole(Field(Candidate(x), Key(CanonicalInclusionSet))), Js("member_ref"))
  }

  /** How a difference in one field is reported. */
  function ReportOf(x: Vector, e: Expected, name: FieldName): Outcome {
    match name
    case CanonicalInclusionSet =>
      if Sole(Field(Candidate(x), Key(CanonicalInclusionSet))).None? then Rejected("singleton_policy_ineligible", 18)
      else if !StrictEqual(NamedMember(x), Some(e.ref)) then Rejected("singleton_class_ineligible", 19)
      else Rejected("inclusion_set_mismatch", 21)
    case InclusionSetCommitment => Rejected("inclusion_set_commitment_mismatch", 21)
    case AggregateId =>
      if Reuses(x, e) then Rejected("forbidden_source_identity_reuse", 22) else Rejected("aggregate_id_mismatch", 27)
    case SemanticStatement => Rejected("semantic_result_commitment_mismatch", 23)
    case SemanticResultCommitment => Rejected("semantic_result_commitment_mismatch", 23)
    case NoStrongerSemanticClassCreated => Rejected("no_elevation_invariant_mismatch", 24)
    case TransitionResult => Rejected("transition_result_mismatch", 25)
    case PreAggregationBreakdown => Rejected("breakdown_mismatch", 26)
    case PreAggregationBreakdownCommitment => Rejected("breakdown_commitment_mismatch", 26)
    case SourceEntryContentCommitment => Rejected("source_entry_content_commitment_mismatch", 28)
    case SourceEntryRef =>
      if IsScalar(e.ref) then Rejected("complete_aggregate_validation_mismatch", 28)
      else Rejected("singleton_class_ineligible", 19)
    case _ => Rejected("complete_aggregate_validation_mismatch", 28)
  }

  /** Which fields can make named check `i` fail. */
  function Touches(x: Vector, e: Expected, i: nat): set<FieldName> {
    match i
    case 0 => {CanonicalInclusionSet}
    case 1 => {CanonicalInclusionSet, SourceEntryRef}
    case 4 => {CanonicalInclusionSet}
    case 5 => {InclusionSetCommitment}
    case 6 => {AggregateId}
    case 7 => {SemanticStatement}
    case 8 => {SemanticStatement, SemanticResultCommitment}
    case 9 => {SemanticResultCommitment}
    case 10 => if Reuses(x, e) then {NoStrongerSemanticClassCreated, AggregateId} else {NoStrongerSemanticClassCreated}
    case 11 => {TransitionResult}
    case 12 => {PreAggregationBreakdown}
    case 13 => {PreAggregationBreakdownCommitment}
    case 14 => {AggregateId}
    case 16 => {SourceEntryContentCommitment}
    case _ => {}
  }

  predicate NamedPasses(c: Context, x: Vector, e: Expected, i: nat)
    requires i < 17
  {
    NamedSteps(c, x, e)[i].passes == Some(true)
  }

  /** A named check that does not touch the field passes. */
  lemma UntouchedPasses(c: Context, x: Vector, e: Expected, name: FieldName, i: nat)
    requires Otherwise(c, x, e) && OnlyDiffers(c, x, e, name) && i < 17 && name !in Touches(x, e, i)
    ensures NamedPasses(c, x, e, i)
  {
    hide NamedPasses, Otherwise, OnlyDiffers;
    if i < 4 { EarlyPasses(c, x, e, name, i); }
    else if i in {6, 8, 9, 10, 15, 16} { OtherPasses(c, x, e, name, i); }
    else { ComparedPasses(c, x, e, name, i); }
  }

  /** The field that named check `i` compares. */
  function ComparedField(i: nat): Option<FieldName> {
    match i
    case 4 => Some(CanonicalInclusionSet)
    case 5 => Some(InclusionSetCommitment)
    case 7 => Some(SemanticStatement)
    case 11 => Some(TransitionResult)
    case 12 => Some(PreAggregationBreakdown)
    case 13 => Some(PreAggregationBreakdownCommitment)
    case 14 => Some(AggregateId)
    case _ => None
  }

  lemma ComparedStep(c: Context, x: Vector, e: Expected, i: nat)
    requires i < 17 && ComparedField(i).Some?
    ensures NamedSteps(c, x, e)[i].passes == CompareField(c, x, e, Candidate(x), ComparedField(i).value)
  {
    hide EqualCanonical, StrictEqual, Field, CompareField, OwnCommitment, Sole, Key, Js, Candidate;
    hide FlagCheck, AgainstFresh, Reuses;
  }

  lemma ComparedPasses(c: Context, x: Vector, e: Expected, name: FieldName, i: nat)
    requires OnlyDiffers(c, x, e, name) && i < 17 && ComparedField(i).Some? && name !in Touches(x, e, i)
    ensures NamedPasses(c, x, e, i)
  {
    hide NamedSteps, CompareField, Reuses, Candidate;
    ComparedStep(c, x, e, i);
    assert name != ComparedField(i).value;
    assert FieldMatches(c, x, e, ComparedField(i).value);
  }

  lemma OtherPasses(c: Context, x: Vector, e: Expected, name: FieldName, i: nat)
    requires Otherwise(c, x, e) && OnlyDiffers(c, x, e, name)
    requires i in {6, 8, 9, 10, 15, 16} && name !in Touches(x, e, i)
    ensures NamedPasses(c, x, e, i)
  {
    hide EqualCanonical, StrictEqual, Field, CompareField, OwnCommitment, Sole, Key, Js, Candidate;
    hide FlagCheck, AgainstFresh, StageWellFormed, Reconstruct, FactsEvaluate, Reuses;
    if i == 8 { OwnCommitmentFollows(c, x, e); }
    else if i == 9 { ResultPasses(c, x, e, name); }
    else if i == 6 { IdPasses(c, x, e, name); }
    else if i == 10 { FlagPasses(c, x, e, name); }
    else { FreshPasses(c, x, e, name); }
  }

  lemma EarlyPasses(c: Context, x: Vector, e: Expected, name: FieldName, i: nat)
    requires Otherwise(c, x, e) && OnlyDiffers(c, x, e, name) && i < 4 && name !in Touches(x, e, i)
    ensures NamedPasses(c, x, e, i)
  {
    hide NamedPasses, StageWellFormed, Reconstruct, FactsEvaluate, ClaimsMatch, FieldMatches, Js, Key, Candidate, Field;
    hide Sole, StrictEqual, CompareField;
    if i == 0 {
      SetIsSole(c, x, e);
      SoleStep(c, x, e);
    } else if i == 1 {
      InclusionHasMember(c, x, e);
      MemberStep(c, x, e);
    } else {
      ClaimsPass(c, x, e);
    }
  }

  lemma ClaimsPass(c: Context, x: Vector, e: Expected)
    requires ClaimsMatch(c, x, e)
    ensures NamedPasses(c, x, e, 2) && NamedPasses(c, x, e, 3)
  {
    hide EqualCanonical, Field, CompareField, OwnCommitment, Sole, Key, Js, Candidate;
    hide FlagCheck, AgainstFresh, Reuses;
  }

  lemma SoleStep(c: Context, x: Vector, e: Expected)
    requires Sole(Field(Candidate(x), Key(CanonicalInclusionSet))).Some?
    ensures NamedPasses(c, x, e, 0)
  {
    hide EqualCanonical, StrictEqual, Field, CompareField, OwnCommitment, Sole, Key, Js, Candidate;
    hide FlagCheck, AgainstFresh, Reuses;
  }

  lemma MemberStep(c: Context, x: Vector, e: Expected)
    requires StrictEqual(NamedMember(x), Some(e.ref))
    ensures NamedPasses(c, x, e, 1)
  {
    hide EqualCanonical, StrictEqual, Field, CompareField, OwnCommitment, Sole, Key, Js, Candidate;
    hide FlagCheck, AgainstFresh, Reuses;
  }

  /** An inclusion set with the right octets has one element, whatever the reference is. */
  lemma SetIsSole(c: Context, x: Vector, e: Expected)
    requires Reconstruct(c, x) == Some(e) && FieldMatches(c, x, e, CanonicalInclusionSet)
    ensures Sole(Field(Candidate(x), Key(CanonicalInclusionSet))).Some?
  {
    hide Reconstruct, Canonical, DigestOf, Field, Candidate, Js, Key;
    ReconstructionParts(c, x, e);
    EqualImpliesSame(c, Field(Candidate(x), Key(CanonicalInclusionSet)), e.inclusion);
  }

  lemma ResultPasses(c: Context, x: Vector, e: Expected, name: FieldName)
    requires Otherwise(c, x, e) && FieldMatches(c, x, e, SemanticResultCommitment)
    ensures StrictEqual(Field(Candidate(x), Key(SemanticResultCommitment)), Some(Str(e.inputCommitment)))
  {
    hide StageWellFormed, Reconstruct, FactsEvaluate, Field, Key, ClaimsMatch, Candidate;
  }

  lemma IdPasses(c: Context, x: Vector, e: Expected, name: FieldName)
    requires Otherwise(c, x, e) && FieldMatches(c, x, e, AggregateId)
    ensures !Reuses(x, e)
  {
    hide StageWellFormed, Reconstruct, FactsEvaluate, Field, Key, ClaimsMatch, Candidate;
    StrictlyText(Field(Candidate(x), Key(AggregateId)), e.aggregateId);
  }

  lemma FlagPasses(c: Context, x: Vector, e: Expected, name: FieldName)
    requires Otherwise(c, x, e) && OnlyDiffers(c, x, e, name) && name !in Touches(x, e, 10)
    ensures FlagCheck(c, x, e) == Some(true)
  {
    hide StageWellFormed, Reconstruct, Field, Key, ClaimsMatch, Candidate, FlagCheck, Canonical, Literals, CompareField;
    hide Reuses;
    if name != AggregateId { IdPasses(c, x, e, name); }
    FlagCheckMeans(c, x, e);
  }

  lemma FreshPasses(c: Context, x: Vector, e: Expected, name: FieldName)
    requires Otherwise(c, x, e)
    ensures AgainstFresh(c, x, x.carriedCommitment) == Some(true)
    ensures FieldMatches(c, x, e, SourceEntryContentCommitment) ==>
              AgainstFresh(c, x, Field(Candidate(x), Key(SourceEntryContentCommitment))) == Some(true)
  {
    hide StageWellFormed, Reconstruct, Field, Key, ClaimsMatch, Candidate, AgainstFresh, Canonical, Literals;
    var given := Field(Candidate(x), Key(SourceEntryContentCommitment));
    AgainstFreshMeans(c, x, e, x.carriedCommitment);
    AgainstFreshMeans(c, x, e, given);
    StrictlyText(given, e.commitments.source);
  }

  // The check that fails.

  /** How a named check reports that it failed. */
  function CheckReport(k: nat): Outcome
    requires k < 17
  {
    match k
    case 0 => Rejected("singleton_policy_ineligible", 18)
    case 1 => Rejected("singleton_class_ineligible", 19)
    case 2 => Rejected("semantic_statement_mismatch", 20)
    case 3 => Rejected("semantic_result_commitment_mismatch", 20)
    case 4 => Rejected("inclusion_set_mismatch", 21)
    case 5 => Rejected("inclusion_set_commitment_mismatch", 21)
    case 6 => Rejected("forbidden_source_identity_reuse", 22)
    case 10 => Rejected("no_elevation_invariant_mismatch", 24)
    case 11 => Rejected("transition_result_mismatch", 25)
    case 12 => Rejected("breakdown_mismatch", 26)
    case 13 => Rejected("breakdown_commitment_mismatch", 26)
    case 14 => Rejected("aggregate_id_mismatch", 27)
    case 15 => Rejected("source_entry_content_commitment_mismatch", 28)
    case 16 => Rejected("source_entry_content_commitment_mismatch", 28)
    case _ => Rejected("semantic_result_commitment_mismatch", 23)
  }

  lemma StepReports(c: Context, x: Vector, e: Expected, k: nat)
    requires k < 17
    ensures var step := NamedSteps(c, x, e)[k]; Rejected(step.code, step.position) == CheckReport(k)
  {
    hide EqualCanonical, StrictEqual, Field, CompareField, OwnCommitment, Sole, Key, Js, Candidate;
    hide FlagCheck, AgainstFresh, Reuses;
  }

  predicate NamedFails(c: Context, x: Vector, e: Expected, k: nat)
    requires k < 17
  {
    NamedSteps(c, x, e)[k].passes == Some(false)
  }

  lemma ReportedBy(c: Context, x: Vector, e: Expected, k: nat)
    requires StageWellFormed(x.stage) && Reconstruct(c, x) == Some(e) && k < 17
    requires NamedFails(c, x, e, k) && forall i | 0 <= i < k :: NamedPasses(c, x, e, i)
    ensures Evaluate(c, x, REMAINING_FIELDS) == CheckReport(k)
  {
    hide StageWellFormed, Reconstruct, NamedSteps, First, CheckReport;
    StepReports(c, x, e, k);
    var named, steps := NamedSteps(c, x, e), Steps(c, x, e, REMAINING_FIELDS);
    assert forall i | 0 <= i < 17 :: steps[i] == named[i];
    assert forall i | 0 <= i < k :: NamedPasses(c, x, e, i) && steps[..k][i] == named[i];
    FirstFails(steps, k);
  }

  lemma ComparedFails(c: Context, x: Vector, e: Expected, i: nat)
    requires i < 17 && ComparedField(i).Some?
    requires CompareField(c, x, e, Candidate(x), ComparedField(i).value) == Some(false)
    ensures NamedFails(c, x, e, i)
  {
    hide NamedSteps, CompareField, Candidate, ComparedField;
    ComparedStep(c, x, e, i);
  }

  lemma OwnFails(c: Context, x: Vector, e: Expected)
    requires Otherwise(c, x, e) && OnlyDiffers(c, x, e, SemanticResultCommitment)
    ensures OwnCommitment(c, Candidate(x)) == Some(false)
  {
    hide StageWellFormed, Reconstruct, EqualCanonical, DigestOf, Field, Candidate, Js, Key, ClaimsMatch, FactsEvaluate;
    assert FieldMatches(c, x, e, SemanticStatement);
    ReconstructionParts(c, x, e);
    EqualImpliesSame(c, Field(Candidate(x), Key(SemanticStatement)), e.outputStatement);
  }

  lemma FlagFails(c: Context, x: Vector, e: Expected)
    requires Otherwise(c, x, e) && OnlyDiffers(c, x, e, NoStrongerSemanticClassCreated)
    ensures FlagCheck(c, x, e) == Some(false)
  {
    hide StageWellFormed, Reconstruct, Field, Key, ClaimsMatch, Candidate, Canonical, Literals, Reuses, StrictEqual;
    IdPasses(c, x, e, AggregateId);
    FlagCheckMeans(c, x, e);
  }

  lemma FreshFails(c: Context, x: Vector, e: Expected)
    requires Otherwise(c, x, e) && OnlyDiffers(c, x, e, SourceEntryContentCommitment)
    ensures AgainstFresh(c, x, Field(Candidate(x), Key(SourceEntryContentCommitment))) == Some(false)
  {
    hide StageWellFormed, Reconstruct, Field, Key, ClaimsMatch, Candidate, Canonical, Literals, Sha256Text;
    var given := Field(Candidate(x), Key(SourceEntryContentCommitment));
    AgainstFreshMeans(c, x, e, given);
    StrictlyText(given, e.commitments.source);
  }

  /** The checks that compare no single field, when the field they turn on differs. */
  lemma OtherFails(c: Context, x: Vector, e: Expected, k: nat)
    requires k in {0, 1, 6, 8, 10, 16}
    requires k == 0 ==> Sole(Field(Candidate(x), Key(CanonicalInclusionSet))).None?
    requires k == 1 ==> !StrictEqual(NamedMember(x), Some(e.ref))
    requires k == 6 ==> Reuses(x, e)
    requires k == 8 ==> OwnCommitment(c, Candidate(x)) == Some(false)
    requires k == 10 ==> FlagCheck(c, x, e) == Some(false)
    requires k == 16 ==> AgainstFresh(c, x, Field(Candidate(x), Key(SourceEntryContentCommitment))) == Some(false)
    ensures NamedFails(c, x, e, k)
  {
    hide EqualCanonical, StrictEqual, Field, CompareField, OwnCommitment, Sole, Key, Js, Candidate;
    hide FlagCheck, AgainstFresh, Reuses;
  }

  /** A structured reference is not the same as anything. */
  lemma StructuredRef(c: Context, x: Vector, e: Expected)
    requires Reconstruct(c, x) == Some(e) && !IsScalar(e.ref)
    ensures !StrictEqual(NamedMember(x), Some(e.ref))
  {
    hide Reconstruct, Field, Sole, Key, Js, Candidate;
  }

  // The list of remaining fields.

  lemma {:induction false} RemainingFails(c: Context, x: Vector, e: Expected, name: FieldName, names: seq<FieldName>)
    requires OnlyDiffers(c, x, e, name) && name in names
    ensures First(RemainingSteps(c, x, e, names)) == Rejected("complete_aggregate_validation_mismatch", 28)
  {
    hide CompareField, Candidate;
    var steps := RemainingSteps(c, x, e, names);
    if names[0] != name {
      assert FieldMatches(c, x, e, names[0]);
      RemainingFails(c, x, e, name, names[1..]);
      assert steps[1..] == RemainingSteps(c, x, e, names[1..]);
    }
  }

  /** No named check touches the field, but the list names it. */
  lemma ReportedLast(c: Context, x: Vector, e: Expected, name: FieldName)
    requires Otherwise(c, x, e) && OnlyDiffers(c, x, e, name)
    requires name != SourceEntryContentCommitment && forall i | 0 <= i < 17 :: NamedPasses(c, x, e, i)
    ensures Evaluate(c, x, REMAINING_FIELDS) == Rejected("complete_aggregate_validation_mismatch", 28)
  {
    hide StageWellFormed, Reconstruct, NamedSteps, RemainingSteps, First, ClaimsMatch, FactsEvaluate, OnlyDiffers;
    var named := NamedSteps(c, x, e);
    forall i | 0 <= i < |named| ensures named[i].passes == Some(true) { assert NamedPasses(c, x, e, i); }
    EveryFieldIsNamed(name);
    RemainingFails(c, x, e, name, REMAINING_FIELDS);
    FirstSkips(named, RemainingSteps(c, x, e, REMAINING_FIELDS));
  }

  // The report.

  /** All named checks below `k` leave the field alone. */
  predicate UntouchedBelow(x: Vector, e: Expected, name: FieldName, k: nat) {
    forall i | 0 <= i < k :: name !in Touches(x, e, i)
  }

  lemma PassesBelow(c: Context, x: Vector, e: Expected, name: FieldName, k: nat)
    requires Otherwise(c, x, e) && OnlyDiffers(c, x, e, name) && k <= 17 && UntouchedBelow(x, e, name, k)
    ensures forall i | 0 <= i < k :: NamedPasses(c, x, e, i)
  {
    hide Otherwise, OnlyDiffers, NamedPasses, Touches;
    forall i | 0 <= i < k ensures NamedPasses(c, x, e, i) { UntouchedPasses(c, x, e, name, i); }
  }

  predicate IsPlainCheck(k: nat) { k in {5, 7, 11, 12, 13} }

  lemma NothingBelowPart(x: Vector, e: Expected, k: nat)
    requires IsPlainCheck(k)
    ensures k < 17 && ComparedField(k).Some? && UntouchedBelow(x, e, ComparedField(k).value, k)
  {
    hide Reuses;
  }

  lemma ItDiffers(c: Context, x: Vector, e: Expected, name: FieldName)
    requires OnlyDiffers(c, x, e, name)
    ensures CompareField(c, x, e, Candidate(x), name) == Some(false)
  {
    hide CompareField, Candidate;
  }

  lemma PlainReport(x: Vector, e: Expected, k: nat)
    requires IsPlainCheck(k)
    ensures k < 17 && ComparedField(k).Some? && CheckReport(k) == ReportOf(x, e, ComparedField(k).value)
  {
    hide ReportOf, CheckReport, Reuses;
    if k < 8 { PlainReportEarly(x, e, k); }
    else if k < 12 { PlainReportTransition(x, e); }
    else { PlainReportLate(x, e, k); }
  }

  lemma PlainReportEarly(x: Vector, e: Expected, k: nat)
    requires k in {5, 7}
    ensures CheckReport(k) == ReportOf(x, e, ComparedField(k).value)
  {
    hide Reuses;
  }

  lemma PlainReportTransition(x: Vector, e: Expected)
    ensures CheckReport(11) == ReportOf(x, e, ComparedField(11).value)
  {
    hide Reuses;
  }

  lemma PlainReportLate(x: Vector, e: Expected, k: nat)
    requires k in {12, 13}
    ensures CheckReport(k) == ReportOf(x, e, ComparedField(k).value)
  {
    hide Reuses;
  }

  lemma PartReported(c: Context, x: Vector, e: Expected, name: FieldName, k: nat)
    requires Otherwise(c, x, e) && OnlyDiffers(c, x, e, name)
    requires IsPlainCheck(k) && ComparedField(k) == Some(name)
    ensures Evaluate(c, x, REMAINING_FIELDS) == ReportOf(x, e, name)
  {
    hide Evaluate, NamedPasses, NamedFails, CompareField, StageWellFormed, Reconstruct, ClaimsMatch, FactsEvaluate;
    hide UntouchedBelow, Candidate, ReportOf, CheckReport, ComparedField, IsPlainCheck, OnlyDiffers;
    PlainReport(x, e, k);
    NothingBelowPart(x, e, k);
    ItDiffers(c, x, e, name);
    PassesBelow(c, x, e, name, k);
    ComparedFails(c, x, e, k);
    ReportedBy(c, x, e, k);
  }

  lemma SetReported(c: Context, x: Vector, e: Expected)
    requires Otherwise(c, x, e) && OnlyDiffers(c, x, e, CanonicalInclusionSet)
    ensures Evaluate(c, x, REMAINING_FIELDS) == ReportOf(x, e, CanonicalInclusionSet)
  {
    hide Evaluate, NamedFails, CompareField, Reuses, StageWellFormed, Reconstruct, ClaimsMatch, FactsEvaluate;
    hide NamedPasses, Sole, Field, Key, Js, Candidate, StrictEqual, NamedMember;
    var sole := Sole(Field(Candidate(x), Key(CanonicalInclusionSet))).Some?;
    var member := StrictEqual(NamedMember(x), Some(e.ref));
    if sole { SoleStep(c, x, e); }
    if member { MemberStep(c, x, e); }
    if !sole {
      OtherFails(c, x, e, 0);
      ReportedBy(c, x, e, 0);
    } else if !member {
      OtherFails(c, x, e, 1);
      ReportedBy(c, x, e, 1);
    } else {
      ComparedFails(c, x, e, 4);
      UntouchedPasses(c, x, e, CanonicalInclusionSet, 2);
      UntouchedPasses(c, x, e, CanonicalInclusionSet, 3);
      ReportedBy(c, x, e, 4);
    }
  }

  lemma IdStep(c: Context, x: Vector, e: Expected)
    requires !Reuses(x, e)
    ensures NamedPasses(c, x, e, 6)
  {
    hide EqualCanonical, StrictEqual, Field, CompareField, OwnCommitment, Sole, Key, Js, Candidate;
    hide FlagCheck, AgainstFresh, Reuses;
  }

  lemma IdReported(c: Context, x: Vector, e: Expected)
    requires Otherwise(c, x, e) && OnlyDiffers(c, x, e, AggregateId)
    ensures Evaluate(c, x, REMAINING_FIELDS) == ReportOf(x, e, AggregateId)
  {
    hide Evaluate, NamedPasses, NamedFails, CompareField, Reuses, StageWellFormed, Reconstruct, ClaimsMatch;
    hide FactsEvaluate;
    PassesBelow(c, x, e, AggregateId, 6);
    if Reuses(x, e) {
      OtherFails(c, x, e, 6);
      ReportedBy(c, x, e, 6);
    } else {
      IdStep(c, x, e);
      forall i | 7 <= i < 14 ensures NamedPasses(c, x, e, i) { UntouchedPasses(c, x, e, AggregateId, i); }
      ComparedFails(c, x, e, 14);
      ReportedBy(c, x, e, 14);
    }
  }

  /** Fields that a check of their own turns on. */
  function OwnCheck(name: FieldName): nat {
    if name == SemanticResultCommitment then 8 else if name == SourceEntryContentCommitment then 16 else 10
  }

  predicate HasOwnCheck(name: FieldName) {
    name in {SemanticResultCommitment, NoStrongerSemanticClassCreated, SourceEntryContentCommitment}
  }

  lemma NothingBelowOwnCheck(x: Vector, e: Expected, name: FieldName)
    requires HasOwnCheck(name)
    ensures OwnCheck(name) < 17 && UntouchedBelow(x, e, name, OwnCheck(name))
  {
    hide Reuses;
  }

  lemma OwnCheckFails(c: Context, x: Vector, e: Expected, name: FieldName)
    requires Otherwise(c, x, e) && OnlyDiffers(c, x, e, name) && HasOwnCheck(name)
    ensures OwnCheck(name) < 17 && NamedFails(c, x, e, OwnCheck(name))
    ensures CheckReport(OwnCheck(name)) == ReportOf(x, e, name)
  {
    hide NamedFails, Otherwise, OnlyDiffers, OwnCommitment, FlagCheck, AgainstFresh, Field, Key, Candidate, Reuses;
    if name == SemanticResultCommitment { OwnFails(c, x, e); }
    if name == NoStrongerSemanticClassCreated { FlagFails(c, x, e); }
    if name == SourceEntryContentCommitment { FreshFails(c, x, e); }
    OtherFails(c, x, e, OwnCheck(name));
  }

  lemma OwnCheckReported(c: Context, x: Vector, e: Expected, name: FieldName)
    requires Otherwise(c, x, e) && OnlyDiffers(c, x, e, name) && HasOwnCheck(name)
    ensures Evaluate(c, x, REMAINING_FIELDS) == ReportOf(x, e, name)
  {
    hide Evaluate, NamedPasses, NamedFails, OnlyDiffers, StageWellFormed, Reconstruct, ClaimsMatch, FactsEvaluate;
    hide ReportOf, CheckReport, UntouchedBelow, OwnCheck, HasOwnCheck;
    NothingBelowOwnCheck(x, e, name);
    OwnCheckFails(c, x, e, name);
    PassesBelow(c, x, e, name, OwnCheck(name));
    ReportedBy(c, x, e, OwnCheck(name));
  }

  lemma RefReported(c: Context, x: Vector, e: Expected)
    requires Otherwise(c, x, e) && OnlyDiffers(c, x, e, SourceEntryRef)
    ensures Evaluate(c, x, REMAINING_FIELDS) == ReportOf(x, e, SourceEntryRef)
  {
    hide Evaluate, Otherwise, OnlyDiffers, Reuses;
    if IsScalar(e.ref) { ScalarRefReported(c, x, e); } else { StructuredRefReported(c, x, e); }
  }

  lemma StructuredRefReported(c: Context, x: Vector, e: Expected)
    requires Otherwise(c, x, e) && OnlyDiffers(c, x, e, SourceEntryRef) && !IsScalar(e.ref)
    ensures Evaluate(c, x, REMAINING_FIELDS) == Rejected("singleton_class_ineligible", 19)
  {
    hide Evaluate, NamedPasses, NamedFails, OnlyDiffers, StageWellFormed, Reconstruct, ClaimsMatch, FactsEvaluate;
    hide StrictEqual, NamedMember, IsScalar, Field, Key, Js, Candidate, Sole;
    UntouchedPasses(c, x, e, SourceEntryRef, 0);
    StructuredRef(c, x, e);
    OtherFails(c, x, e, 1);
    ReportedBy(c, x, e, 1);
  }

  lemma ScalarRefReported(c: Context, x: Vector, e: Expected)
    requires Otherwise(c, x, e) && OnlyDiffers(c, x, e, SourceEntryRef) && IsScalar(e.ref)
    ensures Evaluate(c, x, REMAINING_FIELDS) == Rejected("complete_aggregate_validation_mismatch", 28)
  {
    hide Evaluate, NamedPasses, StageWellFormed, ClaimsMatch, FactsEvaluate, StrictEqual, NamedMember, IsScalar;
    hide Reconstruct, CompareField, Candidate;
    MemberOfScalar(c, x, e);
    MemberStep(c, x, e);
    UntouchedPasses(c, x, e, SourceEntryRef, 0);
    hide OnlyDiffers, Otherwise;
    forall i | 2 <= i < 17 ensures NamedPasses(c, x, e, i) { UntouchedPasses(c, x, e, SourceEntryRef, i); }
    ReportedLast(c, x, e, SourceEntryRef);
  }

  /** A scalar reference stands in an inclusion set with the right octets. */
  lemma MemberOfScalar(c: Context, x: Vector, e: Expected)
    requires Reconstruct(c, x) == Some(e) && FieldMatches(c, x, e, CanonicalInclusionSet) && IsScalar(e.ref)
    ensures StrictEqual(NamedMember(x), Some(e.ref))
  {
    hide Reconstruct, Canonical, DigestOf, Field, Sole, Inclusion, Candidate, Js, Key;
    var given := Field(Candidate(x), Key(CanonicalInclusionSet));
    ReconstructionParts(c, x, e);
    DigestedIsEncodable(c, e.inclusion);
    RefIsEncodable(e.ref, e.commitments);
    EqualImpliesSame(c, given, e.inclusion);
    SoleMember(given.value, e.ref, e.commitments);
  }

  /** Every difference is found and reported: a stage that agrees with the
      reconstruction but for one field is rejected at the position of that field,
      with its code, whatever stands in the field instead. */
  lemma DifferenceIsReported(c: Context, x: Vector, e: Expected, name: FieldName)
    requires Otherwise(c, x, e) && OnlyDiffers(c, x, e, name)
    ensures Evaluate(c, x, REMAINING_FIELDS) == ReportOf(x, e, name)
  {
    hide Evaluate, Otherwise, OnlyDiffers, NamedPasses;
    match name
    case CanonicalInclusionSet => SetReported(c, x, e);
    case AggregateId => IdReported(c, x, e);
    case SourceEntryRef => RefReported(c, x, e);
    case InclusionSetCommitment => PartReported(c, x, e, name, 5);
    case SemanticStatement => PartReported(c, x, e, name, 7);
    case TransitionResult => PartReported(c, x, e, name, 11);
    case PreAggregationBreakdown => PartReported(c, x, e, name, 12);
    case PreAggregationBreakdownCommitment => PartReported(c, x, e, name, 13);
    case SemanticResultCommitment => OwnCheckReported(c, x, e, name);
    case NoStrongerSemanticClassCreated => OwnCheckReported(c, x, e, name);
    case SourceEntryContentCommitment => OwnCheckReported(c, x, e, name);
    case _ =>
      assert UntouchedBelow(x, e, name, 17);
      PassesBelow(c, x, e, name, 17);
      ReportedLast(c, x, e, name);
  }

  /** A well-formed stage whose inclusion set and reference agree, but whose claims
      do not, is rejected at position 20: for the statement, or else for the commitment. */
  lemma FalseClaimIsReported(c: Context, x: Vector, e: Expected)
    requires StageWellFormed(x.stage) && Reconstruct(c, x) == Some(e)
    requires FieldMatches(c, x, e, CanonicalInclusionSet) && FieldMatches(c, x, e, SourceEntryRef)
    requires var claimed := EqualCanonical(c, Field(x.stage, Js(CLAIMED_STATEMENT)), Some(e.inputStatement));
             claimed == Some(false)
             || (claimed == Some(true) && Field(x.stage, Js(CLAIMED_COMMITMENT)) != Some(Str(e.inputCommitment)))
    ensures Evaluate(c, x, REMAINING_FIELDS)
         == if EqualCanonical(c, Field(x.stage, Js(CLAIMED_STATEMENT)), Some(e.inputStatement)) == Some(false)
            then Rejected("semantic_statement_mismatch", 20) else Rejected("semantic_result_commitment_mismatch", 20)
  {
    hide Evaluate, NamedPasses, NamedFails, StageWellFormed, Reconstruct, EqualCanonical, Field, Js, Key, Sole;
    hide Candidate, CompareField, StrictEqual, NamedMember;
    assert StrictEqual(NamedMember(x), Some(e.ref)) && Sole(Field(Candidate(x), Key(CanonicalInclusionSet))).Some? by {
      InclusionHasMember(c, x, e);
      MemberNamed(x);
    }
    SoleStep(c, x, e);
    MemberStep(c, x, e);
    ClaimSteps(c, x, e);
    if EqualCanonical(c, Field(x.stage, Js(CLAIMED_STATEMENT)), Some(e.inputStatement)) == Some(false) {
      ReportedBy(c, x, e, 2);
    } else {
      ReportedBy(c, x, e, 3);
    }
  }

  lemma MemberNamed(x: Vector)
    ensures NamedMember(x) == Field(Sole(Field(Candidate(x), Key(CanonicalInclusionSet))), Js("member_ref"))
  {
  }

  lemma ClaimSteps(c: Context, x: Vector, e: Expected)
    ensures var claimed := EqualCanonical(c, Field(x.stage, Js(CLAIMED_STATEMENT)), Some(e.inputStatement));
            (claimed == Some(false) ==> NamedFails(c, x, e, 2)) && (claimed == Some(true) ==> NamedPasses(c, x, e, 2))
    ensures Field(x.stage, Js(CLAIMED_COMMITMENT)) != Some(Str(e.inputCommitment)) ==> NamedFails(c, x, e, 3)
  {
    hide EqualCanonical, StrictEqual, Field, CompareField, OwnCommitment, Sole, Key, Js, Candidate;
    hide FlagCheck, AgainstFresh, Reuses;
    StrictlyText(Field(x.stage, Js(CLAIMED_COMMITMENT)), e.inputCommitment);
  }
}
