/** The reconstruction handed back as the stage input. */
module FoldCompleteness {
  import opened Common
  import opened JsonValue
  import opened JsonEncoder
  import opened JsonCanonical
  import opened JsonTheorems
  import opened ObjectA
  import opened FoldValues
  import opened SingletonFold
  import opened BuiltObjects
  import CommitmentReading
  import opened FoldAcceptance

  const ALL_FIELDS: seq<FieldName> := [
    Schema, ProfileVersion, AggregateId, SourceEntryRef, SourceEntryContentCommitment, SemanticStatement,
    SemanticResultCommitment, CanonicalInclusionSet, InclusionSetCommitment, FoldPolicyDeclaration,
    FoldPolicyCommitment, ComparabilityClassDeclaration, ComparabilityClassCommitment, TransitionRuleDeclaration,
    TransitionRuleCommitment, PreAggregationBreakdown, PreAggregationBreakdownCommitment, TransitionResult,
    NoStrongerSemanticClassCreated, ProfileLocalNotes]

  function HonestEntries(e: Expected, x: Vector, names: seq<FieldName>): seq<Entry> {
    if names == [] then []
    else
      match ExpectedField(e, x, names[0])
      case None => HonestEntries(e, x, names[1..])
      case Some(v) => [Entry(Key(names[0]), v)] + HonestEntries(e, x, names[1..])
  }

  /** The reconstructed aggregate as JSON. */
  function HonestCandidate(e: Expected, x: Vector): Value { Obj(HonestEntries(e, x, ALL_FIELDS)) }

  function HonestStage(e: Expected, x: Vector): Value {
    Obj([At("schema", Text("recursive_singleton_fold_stage_input.v0")), At(CLAIMED_STATEMENT, e.inputStatement),
         At(CLAIMED_COMMITMENT, Str(e.inputCommitment)), At(CANDIDATE, HonestCandidate(e, x))])
  }

  /** A field name from the length and the first letter of its key. */
  function NameOf(length: nat, first: CodeUnit): FieldName {
    match length
    case 6 => Schema case 15 => ProfileVersion case 12 => AggregateId case 16 => SourceEntryRef
    case 31 => if first == 0x73 then SourceEntryContentCommitment else ComparabilityClassDeclaration
    case 18 => SemanticStatement
    case 26 => if first == 0x73 then SemanticResultCommitment else TransitionRuleCommitment
    case 23 => if first == 0x63 then CanonicalInclusionSet else FoldPolicyDeclaration
    case 24 => InclusionSetCommitment case 22 => FoldPolicyCommitment case 30 => ComparabilityClassCommitment
    case 27 => TransitionRuleDeclaration case 25 => PreAggregationBreakdown case 36 => PreAggregationBreakdownCommitment
    case 17 => TransitionResult case 34 => NoStrongerSemanticClassCreated
    case _ => ProfileLocalNotes
  }

  lemma KeyTellsName(name: FieldName)
    ensures Key(name) != [] && NameOf(|Key(name)|, Key(name)[0]) == name
  {
    if name.SourceEntryContentCommitment? || name.ComparabilityClassDeclaration? || name.SemanticResultCommitment?
      || name.TransitionRuleCommitment? || name.CanonicalInclusionSet? || name.FoldPolicyDeclaration?
    {
      LetterTellsName(name);
    } else {
      LengthTellsName(name);
    }
    hide Key, NameOf;
  }

  lemma LetterTellsName(name: FieldName)
    requires name in {SourceEntryContentCommitment, ComparabilityClassDeclaration, SemanticResultCommitment,
                      TransitionRuleCommitment, CanonicalInclusionSet, FoldPolicyDeclaration}
    ensures Key(name) != [] && NameOf(|Key(name)|, Key(name)[0]) == name
  {
  }

  lemma LengthTellsName(name: FieldName)
    requires name !in {SourceEntryContentCommitment, ComparabilityClassDeclaration, SemanticResultCommitment,
                       TransitionRuleCommitment, CanonicalInclusionSet, FoldPolicyDeclaration}
    ensures Key(name) != [] && NameOf(|Key(name)|, Key(name)[0]) == name
  {
  }

  lemma {:induction false} LookupHonest(e: Expected, x: Vector, names: seq<FieldName>, name: FieldName)
    ensures Lookup(HonestEntries(e, x, names), Key(name)) == if name in names then ExpectedField(e, x, name) else None
  {
    hide Key, ExpectedField;
    if names != [] {
      LookupHonest(e, x, names[1..], name);
      KeyTellsName(name);
      KeyTellsName(names[0]);
      assert names == [names[0]] + names[1..];
      var rest := HonestEntries(e, x, names[1..]);
      if ExpectedField(e, x, names[0]).Some? {
        assert HonestEntries(e, x, names)[1..] == rest;
      }
    }
  }

  lemma AllFieldsListed(name: FieldName)
    ensures name in ALL_FIELDS
  {
    var i := match name
      case Schema => 0 case ProfileVersion => 1 case AggregateId => 2 case SourceEntryRef => 3
      case SourceEntryContentCommitment => 4 case SemanticStatement => 5 case SemanticResultCommitment => 6
      case CanonicalInclusionSet => 7 case InclusionSetCommitment => 8 case FoldPolicyDeclaration => 9
      case FoldPolicyCommitment => 10 case ComparabilityClassDeclaration => 11 case ComparabilityClassCommitment => 12
      case TransitionRuleDeclaration => 13 case TransitionRuleCommitment => 14 case PreAggregationBreakdown => 15
      case PreAggregationBreakdownCommitment => 16 case TransitionResult => 17 case NoStrongerSemanticClassCreated => 18
      case ProfileLocalNotes => 19;
    assert ALL_FIELDS[i] == name;
  }

  lemma HonestField(e: Expected, x: Vector, name: FieldName)
    ensures Field(Some(HonestCandidate(e, x)), Key(name)) == ExpectedField(e, x, name)
  {
    hide Key, ExpectedField, Lookup, HonestEntries;
    AllFieldsListed(name);
    LookupHonest(e, x, ALL_FIELDS, name);
  }

  lemma HonestClaims(e: Expected, x: Vector)
    ensures var stage := Some(HonestStage(e, x));
            && Field(stage, Js("schema")) == Some(Text("recursive_singleton_fold_stage_input.v0"))
            && Field(stage, Js(CLAIMED_STATEMENT)) == Some(e.inputStatement)
            && Field(stage, Js(CLAIMED_COMMITMENT)) == Some(Str(e.inputCommitment))
            && Field(stage, Js(CANDIDATE)) == Some(HonestCandidate(e, x))
  {
    hide HonestCandidate;
    var s := HonestStage(e, x).entries;
    assert |Js("schema")| == 6 && |Js(CLAIMED_STATEMENT)| == 32
           && |Js(CLAIMED_COMMITMENT)| == 40 && |Js(CANDIDATE)| == 19;
    hide Js;
    LookupFourth(s);
  }

  lemma LookupFourth(s: seq<Entry>)
    requires |s| == 4 && |s[0].key| == 6 && |s[1].key| == 32 && |s[2].key| == 40 && |s[3].key| == 19
    ensures Lookup(s, s[0].key) == Some(s[0].value) && Lookup(s, s[1].key) == Some(s[1].value)
    ensures Lookup(s, s[2].key) == Some(s[2].value) && Lookup(s, s[3].key) == Some(s[3].value)
  {
    assert s[1..][1..] == s[2..] && s[2..][1..] == s[3..];
    assert Lookup(s[3..], s[3].key) == Some(s[3].value);
    assert Lookup(s[2..], s[3].key) == Some(s[3].value) && Lookup(s[2..], s[2].key) == Some(s[2].value);
    assert Lookup(s[1..], s[3].key) == Some(s[3].value) && Lookup(s[1..], s[2].key) == Some(s[2].value);
  }

  lemma DigestsLookRight(c: Context, v: Option<Value>)
    requires DigestOf(c, v).Some?
    ensures DigestLike(Some(Str(DigestOf(c, v).value)))
  {
    hide Canonical, OracleCommitment.Hex, Js;
    assert |Js("sha256:")| == 7;
    var s := DigestOf(c, v).value;
    assert s[..7] == Js("sha256:") && s[7..] == OracleCommitment.Hex(HashOf(c, v));
  }

  /** A text passes for a digest exactly when it is the text of some 32 octets. */
  lemma DigestLikeExactly(s: JsString)
    ensures DigestLike(Some(Str(s)))
       <==> exists octets: Bytes :: |octets| == 32 && s == Js("sha256:") + OracleCommitment.Hex(octets)
  {
    hide Js, OracleCommitment.Hex;
    assert |Js("sha256:")| == 7;
    if DigestLike(Some(Str(s))) {
      CommitmentReading.DigestTextsExactly(s[7..]);
      assert s == s[..7] + s[7..];
    }
    if octets: Bytes :| |octets| == 32 && s == Js("sha256:") + OracleCommitment.Hex(octets) {
      assert s[7..] == OracleCommitment.Hex(octets);
      CommitmentReading.DigestTextsExactly(s[7..]);
    }
  }

  function HashOf(c: Context, v: Option<Value>): Digest
    requires Canonical(c, v).Some?
  {
    c.sha256(Utf8.Encode(Canonical(c, v).value))
  }

  lemma HonestStageWellFormed(c: Context, x: Vector, e: Expected)
    requires Reconstruct(c, x) == Some(e)
    ensures StageWellFormed(Some(HonestStage(e, x)))
  {
    hide Reconstruct, HonestEntries, DigestOf, DigestLike, Js, Field;
    HonestClaims(e, x);
    ReconstructionParts(c, x, e);
    DigestsLookRight(c, Some(e.inputStatement));
    FourKeys(HonestStage(e, x).entries);
  }

  lemma FourKeys(s: seq<Entry>)
    requires |s| == 4
    ensures KeySet(s) == {s[3].key, s[2].key, s[1].key, s[0].key}
  {
  }

  // Every built value is encodable.

  lemma SelfEqual(c: Context, v: Value)
    requires Canonical(c, Some(v)).Some?
    ensures Passes(EqualCanonical(c, Some(v), Some(v)))
  {
  }

  lemma TransitionEncodable(c: Context)
    ensures Canonical(c, Some(TRANSITION)).Some?
  {
    assert |Js("status")| == 6 && |Js("semantic_equivalence_result")| == 27;
    assert |Js("source_identity_reuse_result")| == 28 && |Js("stronger_semantic_class_creation_result")| == 39;
    SerializeIsPrint(FoldCanonical, c.format, TRANSITION);
    hide Serialize, Print, Normal, Js;
    FourTexts(TRANSITION.entries);
  }

  lemma FourTexts(s: seq<Entry>)
    requires |s| == 4 && |s[0].key| < |s[1].key| < |s[2].key| < |s[3].key|
    requires s[0].value.Str? && s[1].value.Str? && s[2].value.Str? && s[3].value.Str?
    ensures Encodable(FoldCanonical, Obj(s))
  {
    hide DistinctKeys, Encodable;
    DistinctByLength(s);
    ScalarsEncodable(s);
  }

  /** The parts that are compared by their octets have octets. */
  lemma OctetFieldsExist(c: Context, x: Vector, e: Expected, name: FieldName)
    requires Reconstruct(c, x) == Some(e) && ComparisonOf(name) == ByCanonicalOctets
    ensures ExpectedField(e, x, name).Some? && Canonical(c, ExpectedField(e, x, name)).Some?
  {
    hide Canonical, Field, Statement, Inclusion, Breakdown, Seed, SameClass, Literals, Sha256Text, CloneOf, Js;
    TransitionEncodable(c);
    DigestedIsPresent(c, CloneOf(x.policy));
    DigestedIsPresent(c, CloneOf(x.comparabilityClass));
    DigestedIsPresent(c, CloneOf(x.rule));
  }

  lemma DigestedIsPresent(c: Context, v: Option<Value>)
    ensures Canonical(c, v).Some? ==> v.Some?
  {
  }

  lemma HonestFieldMatches(c: Context, x: Vector, e: Expected, name: FieldName)
    requires Reconstruct(c, x) == Some(e) && x.stage == Some(HonestStage(e, x))
    ensures FieldMatches(c, x, e, name)
       <==> && (name == SourceEntryRef ==> IsScalar(e.ref))
            && (name == ProfileLocalNotes && x.notes.Some? ==> IsScalar(x.notes.value))
  {
    hide Reconstruct, HonestStage, HonestCandidate, EqualCanonical, Field, Key, Js;
    HonestClaims(e, x);
    HonestField(e, x, name);
    if ComparisonOf(name) == ByCanonicalOctets {
      OctetFieldsExist(c, x, e, name);
      SelfEqual(c, ExpectedField(e, x, name).value);
    }
  }

  /** Completeness: an honest stage for a `chronicle_entry.v0` source is accepted
      exactly when entry id and notes are scalars, the id is not the source
      reference, and nothing looked at as given throws. */
  lemma HonestStageAccepted(c: Context, x: Vector, e: Expected)
    requires Field(x.sourceEntry, Js("schema")) == Some(ENTRY_SCHEMA) && Reconstruct(c, x) == Some(e)
    requires x.stage == Some(HonestStage(e, x)) && x.carriedCommitment == Some(Str(e.commitments.source))
    ensures Evaluate(c, x, REMAINING_FIELDS) == Accepted
       <==> && IsScalar(e.ref) && (x.notes.Some? ==> IsScalar(x.notes.value)) && e.ref != Str(e.aggregateId)
            && Canonical(c, x.sourceEntry).Some? && Literals(c, x).Some?
  {
    hide Reconstruct, StageWellFormed, Evaluate, HonestStage, FieldMatches, EqualCanonical, Field, Key, Js, DigestOf;
    hide ClonedSchema, Literals;
    ChronicleEntryAcceptedExactly(c, x);
    HonestStageWellFormed(c, x, e);
    HonestClaims(e, x);
    ReconstructionParts(c, x, e);
    DigestedIsEncodable(c, e.inputStatement);
    SelfEqual(c, e.inputStatement);
    forall name: FieldName
      ensures FieldMatches(c, x, e, name)
         <==> && (name == SourceEntryRef ==> IsScalar(e.ref))
              && (name == ProfileLocalNotes && x.notes.Some? ==> IsScalar(x.notes.value))
    {
      HonestFieldMatches(c, x, e, name);
    }
    assert Matches(c, x, e) ==> FieldMatches(c, x, e, SourceEntryRef) && FieldMatches(c, x, e, ProfileLocalNotes);
  }

  // Acceptance happens, whatever the host and the hash.

  /** Nothing but the clones of source entry and declarations can make the reconstruction throw. */
  lemma ReconstructionExists(c: Context, x: Vector, id: JsString)
    requires ExpectCommitments(c, Cloned(x)).Some?
    requires Field(x.sourceEntry, Js("schema")) == Some(ENTRY_SCHEMA)
    requires Field(x.sourceEntry, Js("entry_id")) == Some(Str(id))
    ensures Reconstruct(c, x).Some?
  {
    hide DigestOf, Field, Statement, Inclusion, Breakdown, Seed, SameClass, Literals, ExpectCommitments, Encodable,
         Js, CloneOf;
    var k, schema, ref := ExpectCommitments(c, Cloned(x)).value, ENTRY_SCHEMA, Str(id);
    TextFieldsSurviveCloning(x, id);
    StatementEncodable(ENTRY_SCHEMA.s, id, k);
    EncodedHasDigest(c, Statement(schema, ref, k));
    InclusionEncodable(id, k);
    EncodedHasDigest(c, Inclusion(ref, k));
    var statement := DigestOf(c, Some(Statement(schema, ref, k))).value;
    var inclusion := DigestOf(c, Some(Inclusion(ref, k))).value;
    BreakdownEncodable(id, k, statement, statement);
    EncodedHasDigest(c, Breakdown(ref, k, statement, statement));
    var breakdown := DigestOf(c, Some(Breakdown(ref, k, statement, statement))).value;
    SeedEncodable(id, k, statement, inclusion, breakdown);
    EncodedHasDigest(c, Seed(ref, k, statement, inclusion, breakdown));
  }

  lemma TextFieldsSurviveCloning(x: Vector, id: JsString)
    requires Field(x.sourceEntry, Js("schema")) == Some(ENTRY_SCHEMA)
    requires Field(x.sourceEntry, Js("entry_id")) == Some(Str(id))
    ensures Field(CloneOf(x.sourceEntry), Js("schema")) == Some(ENTRY_SCHEMA)
    ensures Field(CloneOf(x.sourceEntry), Js("entry_id")) == Some(Str(id))
  {
    hide Field, Js;
    FieldOfClone(x.sourceEntry, Js("schema"));
    FieldOfClone(x.sourceEntry, Js("entry_id"));
  }

  lemma {:induction false} HonestIgnoresStage(e: Expected, x: Vector, carried: Option<Value>, stage: Option<Value>,
                                              names: seq<FieldName>)
    ensures HonestEntries(e, x, names) == HonestEntries(e, x.(carriedCommitment := carried, stage := stage), names)
  {
    hide Key;
    if names != [] { HonestIgnoresStage(e, x, carried, stage, names[1..]); }
  }

  lemma ReconstructIgnoresStage(c: Context, x: Vector, carried: Option<Value>, stage: Option<Value>)
    ensures Reconstruct(c, x) == Reconstruct(c, x.(carriedCommitment := carried, stage := stage))
  {
    hide DigestOf, Field, Statement, Inclusion, Breakdown, Seed, SameClass, EqualCanonical, CloneOf, Js;
  }

  lemma IdIsDigest(c: Context, x: Vector, e: Expected)
    requires Reconstruct(c, x) == Some(e)
    ensures |e.aggregateId| == 71
  {
    hide Field, Statement, Inclusion, Breakdown, Seed, SameClass, Literals, ExpectCommitments, Canonical, CloneOf;
  }

  predicate IsAcceptable(c: Context, x: Vector, carried: Option<Value>, stage: Option<Value>) {
    Evaluate(c, x.(carriedCommitment := carried, stage := stage), REMAINING_FIELDS) == Accepted
  }

  /** A `chronicle_entry.v0` source whose id is a string of no digest's length,
      with scalar notes, can be folded exactly when the source entry can be
      canonicalized, the clones of the declarations can, and so can the
      declarations as given, as far as they are looked at. */
  lemma AcceptanceIsPossible(c: Context, x: Vector, id: JsString)
    requires Field(x.sourceEntry, Js("schema")) == Some(ENTRY_SCHEMA)
    requires Field(x.sourceEntry, Js("entry_id")) == Some(Str(id))
    requires |id| != 71 && (x.notes.Some? ==> IsScalar(x.notes.value))
    ensures (exists carried, stage :: IsAcceptable(c, x, carried, stage))
       <==> Canonical(c, x.sourceEntry).Some? && ExpectCommitments(c, Cloned(x)).Some? && Literals(c, x).Some?
  {
    hide ExpectCommitments, Reconstruct, Evaluate, Field, HonestEntries, Js, Cloned, Literals, Canonical;
    if carried, stage :| IsAcceptable(c, x, carried, stage) { OnlyThenPossible(c, x, carried, stage); }
    if Canonical(c, x.sourceEntry).Some? && ExpectCommitments(c, Cloned(x)).Some? && Literals(c, x).Some? {
      ReconstructionExists(c, x, id);
      var e := Reconstruct(c, x).value;
      var carried, stage := Some(Str(e.commitments.source)), Some(HonestStage(e, x));
      var y := x.(carriedCommitment := carried, stage := stage);
      ReconstructIgnoresStage(c, x, carried, stage);
      HonestIgnoresStage(e, x, carried, stage, ALL_FIELDS);
      LiteralsIgnoreStage(c, x, carried, stage);
      IdIsDigest(c, x, e);
      RefIsId(c, x, e, id);
      HonestStageAccepted(c, y, e);
      assert IsAcceptable(c, x, carried, stage);
    }
  }

  lemma OnlyThenPossible(c: Context, x: Vector, carried: Option<Value>, stage: Option<Value>)
    requires Field(x.sourceEntry, Js("schema")) == Some(ENTRY_SCHEMA) && IsAcceptable(c, x, carried, stage)
    ensures Canonical(c, x.sourceEntry).Some? && ExpectCommitments(c, Cloned(x)).Some? && Literals(c, x).Some?
  {
    hide Rebuild, Evaluate, Matches, StageWellFormed, Field, Literals, Canonical, ExpectCommitments, CloneOf, Js;
    ChronicleEntryAcceptedExactly(c, x.(carriedCommitment := carried, stage := stage));
    ReconstructIgnoresStage(c, x, carried, stage);
    LiteralsIgnoreStage(c, x, carried, stage);
  }

  lemma LiteralsIgnoreStage(c: Context, x: Vector, carried: Option<Value>, stage: Option<Value>)
    ensures Literals(c, x) == Literals(c, x.(carriedCommitment := carried, stage := stage))
  {
    hide EqualCanonical;
  }

  lemma RefIsId(c: Context, x: Vector, e: Expected, id: JsString)
    requires Reconstruct(c, x) == Some(e) && Field(x.sourceEntry, Js("entry_id")) == Some(Str(id))
    ensures e.ref == Str(id)
  {
    hide DigestOf, Field, Statement, Inclusion, Breakdown, Seed, SameClass, Literals, ExpectCommitments, Js;
    FieldOfClone(x.sourceEntry, Js("entry_id"));
  }

  // Declarations that cannot be canonicalized.

  /** The declarations as given are looked at one after the other, each only while
      all before it are the frozen ones; nothing behind the first difference
      needs to be canonicalized at all. */
  lemma LiteralsEvaluateExactly(c: Context, x: Vector)
    ensures Literals(c, x).Some?
       <==> && Canonical(c, x.policy).Some?
            && (EqualCanonical(c, x.policy, Some(POLICY)) == Some(true) ==>
                  && Canonical(c, x.comparabilityClass).Some?
                  && (EqualCanonical(c, x.comparabilityClass, Some(CLASS)) == Some(true) ==>
                        Canonical(c, x.rule).Some?))
  {
    hide Canonical, POLICY, CLASS, RULE;
    FrozenLiteralsAreCanonical(c);
  }

  lemma FrozenLiteralsAreCanonical(c: Context)
    ensures Canonical(c, Some(POLICY)).Some? && Canonical(c, Some(CLASS)).Some? && Canonical(c, Some(RULE)).Some?
  {
    hide POLICY, CLASS, RULE, Encodable, Sha256Text, Canonical;
    FrozenLiteralsEncodable();
    EncodedHasDigest(c, POLICY);
    EncodedHasDigest(c, CLASS);
    EncodedHasDigest(c, RULE);
  }

  /** An entry, and declarations whose class is a number that overflows. */
  const OVERFLOWING: Vector := Vector(
    Some(Obj([At("schema", ENTRY_SCHEMA), At("entry_id", Text("a"))])), None,
    Some(Obj([])), Some(Number(Infinite(false))), Some(Obj([])), None, None)

  lemma OverflowingFields()
    ensures Field(OVERFLOWING.sourceEntry, Js("schema")) == Some(ENTRY_SCHEMA)
    ensures Field(OVERFLOWING.sourceEntry, Js("entry_id")) == Some(Str(Js("a")))
    ensures |Js("a")| == 1
  {
    assert |Js("schema")| == 6 && |Js("entry_id")| == 8;
    hide Js, Lookup;
    LookupBoth(OVERFLOWING.sourceEntry.value.entries);
  }

  lemma LookupBoth(s: seq<Entry>)
    requires |s| == 2 && |s[0].key| != |s[1].key|
    ensures Lookup(s, s[0].key) == Some(s[0].value) && Lookup(s, s[1].key) == Some(s[1].value)
  {
    assert Lookup(s[1..], s[1].key) == Some(s[1].value);
  }

  lemma OverflowingEntryIsCanonical(c: Context)
    ensures Canonical(c, OVERFLOWING.sourceEntry).Some?
  {
    var entries := OVERFLOWING.sourceEntry.value.entries;
    assert |Js("schema")| == 6 && |Js("entry_id")| == 8;
    hide Js, Encodable, Canonical, Sha256Text, DistinctKeys;
    DistinctByLength(entries);
    ScalarsEncodable(entries);
    EncodedHasDigest(c, Obj(entries));
  }

  lemma OverflowingClones()
    ensures CloneOf(OVERFLOWING.policy) == Some(Obj([])) && CloneOf(OVERFLOWING.rule) == Some(Obj([]))
    ensures CloneOf(OVERFLOWING.comparabilityClass) == Some(Null)
  {
    hide Js, POLICY;
    assert Clone(Obj([])).entries == [];
  }

  lemma OverflowingClonesAreCanonical(c: Context)
    ensures ExpectCommitments(c, Cloned(OVERFLOWING)).Some?
  {
    hide Js, Canonical, Sha256Text, CloneOf, OVERFLOWING;
    OverflowingClones();
    OverflowingEntryIsCanonical(c);
    CloneKeepsText(c, OVERFLOWING.sourceEntry);
    EmptyAndNullAreCanonical(c);
  }

  lemma EmptyAndNullAreCanonical(c: Context)
    ensures Canonical(c, Some(Obj([]))).Some? && Canonical(c, Some(Null)).Some?
    ensures Canonical(c, Some(Number(Infinite(false)))) == None
  {
  }

  lemma PolicyIsNotEmpty(c: Context)
    ensures EqualCanonical(c, Some(Obj([])), Some(POLICY)) == Some(false)
  {
    hide Canonical, Js;
    FrozenLiteralsAreCanonical(c);
    EmptyAndNullAreCanonical(c);
    EqualCanonicalMeansSame(c, Some(Obj([])), Some(POLICY));
    assert POLICY.entries[0].key in KeySet(POLICY.entries) by { assert POLICY.entries[0] in POLICY.entries; }
  }

  /** A class declaration that cannot be canonicalized is accepted behind a policy
      that is not the frozen one, and the accepted aggregate declares null for it;
      in place of the policy it is never accepted. */
  lemma OverflowIsAccepted(c: Context)
    ensures Canonical(c, OVERFLOWING.comparabilityClass) == None
    ensures exists carried, stage :: IsAcceptable(c, OVERFLOWING, carried, stage)
    ensures forall carried, stage ::
              !IsAcceptable(c, OVERFLOWING.(policy := Some(Number(Infinite(false)))), carried, stage)
  {
    var x, y := OVERFLOWING, OVERFLOWING.(policy := Some(Number(Infinite(false))));
    OverflowingFields();
    hide Field, Js, Evaluate, IsAcceptable;
    EmptyAndNullAreCanonical(c);
    LiteralsEvaluateExactly(c, x);
    LiteralsEvaluateExactly(c, y);
    PolicyIsNotEmpty(c);
    OverflowingEntryIsCanonical(c);
    OverflowingClonesAreCanonical(c);
    AcceptanceIsPossible(c, x, Js("a"));
    AcceptanceIsPossible(c, y, Js("a"));
  }

  // The flag.

  /** All three declarations have the canonical octets of the frozen ones. */
  predicate LiteralsAreFrozen(c: Context, x: Vector) {
    && Passes(EqualCanonical(c, x.policy, Some(POLICY)))
    && Passes(EqualCanonical(c, x.comparabilityClass, Some(CLASS)))
    && Passes(EqualCanonical(c, x.rule, Some(RULE)))
  }

  lemma FlagIsLiterals(c: Context, x: Vector, e: Expected)
    requires Field(x.sourceEntry, Js("schema")) == Some(ENTRY_SCHEMA) && Reconstruct(c, x) == Some(e)
    ensures e.noPromotion == LiteralsAreFrozen(c, Cloned(x))
  {
    hide Reconstruct, EqualCanonical, Field, Js, Cloned;
    ChronicleEntryIsSameClass(c, x, e);
    FlagParts(c, x, e);
  }

  /** For a `chronicle_entry.v0` source the flag of an accepted aggregate is true
      exactly when all three declarations are the frozen ones up to key order; an
      aggregate that says false of other declarations is accepted as well. */
  lemma AcceptedFlagTellsLiterals(c: Context, x: Vector)
    requires Field(x.sourceEntry, Js("schema")) == Some(ENTRY_SCHEMA)
    requires Evaluate(c, x, REMAINING_FIELDS) == Accepted
    ensures Field(Candidate(x), Key(NoStrongerSemanticClassCreated)) == Some(Bool(LiteralsAreFrozen(c, x)))
  {
    hide Reconstruct, Evaluate, Field, Js, Key, StageWellFormed, ClaimsMatch, EqualCanonical, Cloned;
    ChronicleEntryAcceptedExactly(c, x);
    var e := Reconstruct(c, x).value;
    assert FieldMatches(c, x, e, NoStrongerSemanticClassCreated);
    FlagIsLiterals(c, x, e);
    LiteralsOfClones(c, x);
  }
}
