/** Attribution sets: what an authority or an observer may state about a case. */
module Attribution {
  import opened Common

  datatype RawItem = Text(s: JsString) | OtherItem

  datatype Raw = List(items: seq<RawItem>) | NotAList

  /** White space as `trim` and `\\s` know it. */
  predicate IsSpace(u: CodeUnit) {
    0x09 <= u <= 0x0d || u == 0x20 || u == 0xa0 || u == 0x1680 || 0x2000 <= u <= 0x200a
    || u == 0x2028 || u == 0x2029 || u == 0x202f || u == 0x205f || u == 0x3000 || u == 0xfeff
  }

  predicate IsWordUnit(u: CodeUnit) { 0x30 <= u <= 0x39 || 0x41 <= u <= 0x5a || 0x61 <= u <= 0x7a || u == 0x5f }

  /** The word `or`, in either case, at position `i`. */
  predicate WordOrAt(s: JsString, i: nat)
    requires i < |s|
  {
    && i + 1 < |s| && (s[i] == 0x6f || s[i] == 0x4f) && (s[i + 1] == 0x72 || s[i + 1] == 0x52)
    && (i == 0 || !IsWordUnit(s[i - 1])) && (i + 2 == |s| || !IsWordUnit(s[i + 2]))
  }

  /** One definite identifier: no white space, no alternatives. */
  predicate IsDefinite(s: JsString) {
    s != [] && forall i | 0 <= i < |s| :: !IsSpace(s[i]) && s[i] != 0x2f && !WordOrAt(s, i)
  }

  /** Either letter of `or` in either case. */
  predicate IsOr(w: JsString) { |w| == 2 && w[0] in {0x6f, 0x4f} && w[1] in {0x72, 0x52} }

  /** The word stands alone between what precedes it and what follows it. */
  predicate Parts(s: JsString, before: JsString, w: JsString, after: JsString) {
    && s == before + w + after
    && (before == [] || !IsWordUnit(before[|before| - 1])) && (after == [] || !IsWordUnit(after[0]))
  }

  /** An identifier is definite exactly when it is not empty, holds neither white
      space nor a slash, and does not fall apart around the word `or`. */
  lemma DefiniteExactly(s: JsString)
    ensures IsDefinite(s)
       <==> && s != [] && (forall u | u in s :: !IsSpace(u) && u != 0x2f)
            && !exists before, w, after :: IsOr(w) && Parts(s, before, w, after)
  {
    hide IsSpace, IsWordUnit;
    forall i | 0 <= i < |s| && WordOrAt(s, i)
      ensures exists before, w, after :: IsOr(w) && Parts(s, before, w, after)
    {
      assert Parts(s, s[..i], s[i..i + 2], s[i + 2..]);
    }
    if before, w, after :| IsOr(w) && Parts(s, before, w, after) { WordStands(s, before, w, after); }
    hide IsOr, Parts, WordOrAt;
    assert forall i | 0 <= i < |s| :: s[i] in s;
  }

  lemma WordStands(s: JsString, before: JsString, w: JsString, after: JsString)
    requires IsOr(w) && Parts(s, before, w, after)
    ensures |before| < |s| && WordOrAt(s, |before|)
  {
    hide IsWordUnit;
    var i := |before|;
    assert s[i] == w[0] && s[i + 1] == w[1];
    assert i > 0 ==> s[i - 1] == before[i - 1];
    assert after != [] ==> s[i + 2] == after[0];
  }

  predicate NoRepeats(items: seq<RawItem>) {
    forall i, j | 0 <= i < j < |items| :: items[i] != items[j]
  }

  predicate IsUnambiguous(raw: Raw) {
    && raw.List? && (forall item | item in raw.items :: item.Text? && IsDefinite(item.s)) && NoRepeats(raw.items)
  }

  function Texts(items: seq<RawItem>): set<JsString> { set item | item in items && item.Text? :: item.s }

  /** The number of distinct texts, as `new Set(items).size` counts them. */
  function Seen(items: seq<RawItem>): set<JsString> {
    if items == [] then {}
    else Seen(items[..|items| - 1]) + if items[|items| - 1].Text? then {items[|items| - 1].s} else {}
  }

  lemma {:induction false} SeenAt(items: seq<RawItem>, text: JsString)
    ensures text in Seen(items) <==> exists i | 0 <= i < |items| :: items[i] == Text(text)
  {
    if items != [] {
      var n := |items| - 1;
      SeenAt(items[..n], text);
      if i :| 0 <= i < n && items[i] == Text(text) { assert items[..n][i] == Text(text); }
    }
  }

  lemma SeenIsTexts(items: seq<RawItem>)
    ensures Seen(items) == Texts(items)
  {
    forall text ensures text in Seen(items) <==> text in Texts(items) {
      SeenAt(items, text);
      if text in Texts(items) { assert Text(text) in items; }
    }
  }

  lemma {:induction false} SizeShowsRepeats(items: seq<RawItem>)
    requires forall item | item in items :: item.Text?
    ensures |Seen(items)| <= |items|
    ensures |Seen(items)| == |items| <==> NoRepeats(items)
  {
    if items != [] {
      var n := |items| - 1;
      SizeShowsRepeats(items[..n]);
      SeenAt(items[..n], items[n].s);
      RepeatsExtend(items);
      hide NoRepeats;
      assert items[n] == Text(items[n].s);
      assert forall i | 0 <= i < n :: items[..n][i] == items[i];
    }
  }

  lemma RepeatsExtend(items: seq<RawItem>)
    requires items != []
    ensures NoRepeats(items)
       <==> NoRepeats(items[..|items| - 1])
            && forall i | 0 <= i < |items| - 1 :: items[i] != items[|items| - 1]
  {
    var init := items[..|items| - 1];
    if NoRepeats(items) {
      forall i, j | 0 <= i < j < |init| ensures init[i] != init[j] { assert items[i] != items[j]; }
    }
  }

  /** `parseAttributionSet`: the four tests in order, ending with the size test. */
  function Parse(raw: Raw): Option<set<JsString>> {
    if raw.NotAList? then None
    else if exists item | item in raw.items :: !item.Text? then None
    else if exists item | item in raw.items :: !IsDefinite(item.s) then None
    else if |Seen(raw.items)| != |raw.items| then None
    else Some(Seen(raw.items))
  }

  /** A statement parses exactly when it is a list of definite identifiers without
      repetition, and then to the set of its items. */
  lemma ParseExact(raw: Raw)
    ensures Parse(raw) == if IsUnambiguous(raw) then Some(Texts(raw.items)) else None
  {
    if raw.List? && forall item | item in raw.items :: item.Text? {
      SeenIsTexts(raw.items);
      SizeShowsRepeats(raw.items);
    }
  }
}

/** The two scans that provenance depends on. */
module Screening {
  import opened Common

  /** The frozen lists, and the host's `toLowerCase`. */
  datatype Screen = Screen(prohibited: seq<JsString>, tokens: seq<JsString>, lower: JsString -> JsString)

  /** `includes`: the search for a factor, from the left. */
  predicate Includes(text: JsString, token: JsString) {
    token <= text || (text != [] && Includes(text[1..], token))
  }

  ghost predicate IsFactor(token: JsString, text: JsString) {
    exists a, b :: text == a + token + b
  }

  lemma {:induction false} IncludesFactors(text: JsString, token: JsString)
    ensures Includes(text, token) <==> IsFactor(token, text)
  {
    if token <= text {
      assert text == [] + token + text[|token|..];
    } else {
      if text != [] { IncludesFactors(text[1..], token); }
      FactorLater(text, token);
      hide IsFactor;
    }
  }

  lemma FactorLater(text: JsString, token: JsString)
    requires !(token <= text)
    ensures IsFactor(token, text) <==> text != [] && IsFactor(token, text[1..])
  {
    if text != [] && IsFactor(token, text[1..]) {
      var a, b :| text[1..] == a + token + b;
      assert text == ([text[0]] + a) + token + b;
    }
    if a, b :| text == a + token + b {
      assert token <= token + b && (a == [] ==> a + token + b == token + b);
      assert text[1..] == a[1..] + token + b;
    }
  }

  predicate BearsToken(s: Screen, ref: JsString) { exists token | token in s.tokens :: Includes(ref, token) }

  /** `refsAreAnswerBearing`; an absent list bears nothing. */
  predicate AnswerBearing(s: Screen, refs: Option<seq<JsString>>) {
    refs.Some? && exists ref | ref in refs.value :: BearsToken(s, ref)
  }

  function Lowered(s: Screen, identifiers: seq<JsString>): set<JsString> { set id | id in identifiers :: s.lower(id) }

  /** `publisherIntersectsProhibited` */
  predicate Prohibited(s: Screen, identifiers: seq<JsString>) {
    exists id | id in identifiers :: s.lower(id) in Lowered(s, s.prohibited)
  }

  /** The scan finds nothing exactly when no token is a factor of any reference. */
  lemma BearsNothing(s: Screen, refs: seq<JsString>)
    ensures !AnswerBearing(s, Some(refs))
       <==> forall ref, token | ref in refs && token in s.tokens :: !IsFactor(token, ref)
  {
    forall ref, token ensures Includes(ref, token) <==> IsFactor(token, ref) { IncludesFactors(ref, token); }
    hide Includes, IsFactor;
  }

  /** Identifiers are screened by their lower-case forms alone. */
  lemma OnlyLowerCaseCounts(s: Screen, a: seq<JsString>, b: seq<JsString>)
    requires Lowered(s, a) == Lowered(s, b)
    ensures Prohibited(s, a) == Prohibited(s, b)
  {
    ProhibitedMeets(s, a);
    ProhibitedMeets(s, b);
  }

  lemma ProhibitedMeets(s: Screen, identifiers: seq<JsString>)
    ensures Prohibited(s, identifiers) <==> !(Lowered(s, identifiers) !! Lowered(s, s.prohibited))
  {
    if Prohibited(s, identifiers) {
      var id :| id in identifiers && s.lower(id) in Lowered(s, s.prohibited);
      assert s.lower(id) in Lowered(s, identifiers);
    }
    if x :| x in Lowered(s, identifiers) && x in Lowered(s, s.prohibited) {
      var id :| id in identifiers && s.lower(id) == x;
      assert s.lower(id) in Lowered(s, s.prohibited);
    }
  }
}

/** The gate ladder of the independent-grounding evaluator. */
module Grounding {
  import opened Common
  import opened Attribution
  import opened Screening
  import opened Observational

  datatype Status = Unproven | Disagreed | Proven

  datatype Reason =
    | AwaitingIndependentAuthority
    | UnprovenIndependence
    | AuthorityIncomplete
    | AuthorityAmbiguous
    | AuthorityDisagreement
    | ProblemPackageNotFaithful

  datatype OracleState = NotEvaluatedState | Absent | InvalidProvenance | ValidProvenance

  datatype Relation = NotEvaluated | IncompleteOrAmbiguous | Disagrees | Agrees

  datatype Authority = Authority(
    schemaKnown: bool,
    problemPackageDigest: string,
    cases: Option<Cases>,
    overall: Overall,
    sourceRefs: Option<seq<JsString>>)

  datatype AuthorityInput = NotArrived | NotARecord | Arrived(authority: Authority)

  datatype Observations = Observations(
    oracleBytesSha256: string,
    problemPackageDigest: string,
    freezePrecedesComparison: bool,
    freezePrecedesDisclosure: bool,
    publishers: seq<JsString>,
    sourceRefs: Option<seq<JsString>>)

  datatype Input = Input(
    faithful: bool,
    declaredInvariants: set<Id>,
    declaredCases: set<Id>,
    problemPackageDigest: string,
    observed: map<Id, Raw>,
    authority: AuthorityInput,
    authorityBytesSha256: Option<string>,
    envelopeRefs: Option<seq<JsString>>,
    screen: Screen)

  datatype Universe = Universe(
    declared: set<Id>,
    packaged: set<Id>,
    authority: Option<set<Id>>,
    comparison: Option<set<Id>>,
    missingFromAuthority: set<Id>,
    extraInAuthority: set<Id>,
    missingFromComparison: set<Id>,
    extraInComparison: set<Id>,
    closed: bool,
    closedCaseCount: Option<nat>)

  function Missing(declared: set<Id>, ids: Option<set<Id>>): set<Id> {
    if ids.Some? then declared - ids.value else declared
  }

  function Extra(declared: set<Id>, ids: Option<set<Id>>): set<Id> { if ids.Some? then ids.value - declared else {} }

  /** `closeCaseUniverse` */
  function CloseUniverse(declared: set<Id>, packaged: set<Id>, authority: Option<set<Id>>,
                         comparison: Option<set<Id>>): Universe {
    var missingA, extraA := Missing(declared, authority), Extra(declared, authority);
    var missingC, extraC := Missing(declared, comparison), Extra(declared, comparison);
    var closed := declared == packaged
               && authority.Some? && |missingA| == 0 && |extraA| == 0
               && comparison.Some? && |missingC| == 0 && |extraC| == 0;
    Universe(declared, packaged, authority, comparison, missingA, extraA, missingC, extraC, closed,
             if closed then Some(|declared|) else None)
  }

  lemma EmptyDifferences(a: set<Id>, b: set<Id>)
    ensures |a - b| == 0 && |b - a| == 0 <==> a == b
  {
    if |a - b| == 0 && |b - a| == 0 {
      forall x ensures x in a <==> x in b { assert x !in a - b && x !in b - a; }
    }
  }

  /** The universe is closed exactly when all four sets are one set. */
  lemma ClosedIffOneSet(declared: set<Id>, packaged: set<Id>, authority: Option<set<Id>>, comparison: Option<set<Id>>)
    ensures CloseUniverse(declared, packaged, authority, comparison).closed
       <==> declared == packaged && authority == Some(declared) && comparison == Some(declared)
  {
    if authority.Some? { EmptyDifferences(declared, authority.value); }
    if comparison.Some? { EmptyDifferences(declared, comparison.value); }
  }

  /** What the four difference sets hold, id by id; an absent set lacks every
      declared id and adds none. Nothing is lost in them: the sets compared can be
      told from the declared ids and the differences. */
  lemma DifferencesTell(declared: set<Id>, packaged: set<Id>, authority: Option<set<Id>>, comparison: Option<set<Id>>)
    ensures var u := CloseUniverse(declared, packaged, authority, comparison);
            && (forall id :: id in u.missingFromAuthority <==>
                  id in declared && (authority.Some? ==> id !in authority.value))
            && (forall id :: id in u.extraInAuthority <==>
                  id !in declared && authority.Some? && id in authority.value)
            && (forall id :: id in u.missingFromComparison <==>
                  id in declared && (comparison.Some? ==> id !in comparison.value))
            && (forall id :: id in u.extraInComparison <==>
                  id !in declared && comparison.Some? && id in comparison.value)
            && u.declared == declared && u.packaged == packaged
            && u.authority == authority && u.comparison == comparison
            && (authority.Some? ==> authority.value == (declared - u.missingFromAuthority) + u.extraInAuthority)
            && (comparison.Some? ==> comparison.value == (declared - u.missingFromComparison) + u.extraInComparison)
  {
  }

  /** `classifyVerifiedObservations` for an authority that has arrived. */
  function Classify(input: Input, authority: Authority, observations: Option<Observations>): OracleState {
    if observations.None? then InvalidProvenance
    else if input.authorityBytesSha256.None? then InvalidProvenance
    else
      var o := observations.value;
      if o.oracleBytesSha256 != input.authorityBytesSha256.value then InvalidProvenance
      else if o.problemPackageDigest != input.problemPackageDigest then InvalidProvenance
      else if authority.problemPackageDigest != input.problemPackageDigest then InvalidProvenance
      else if !o.freezePrecedesComparison || !o.freezePrecedesDisclosure then InvalidProvenance
      else if Prohibited(input.screen, o.publishers) then InvalidProvenance
      else if AnswerBearing(input.screen, o.sourceRefs) then InvalidProvenance
      else if AnswerBearing(input.screen, authority.sourceRefs) then InvalidProvenance
      else if AnswerBearing(input.screen, input.envelopeRefs) then InvalidProvenance
      else ValidProvenance
  }

  function Listed(refs: Option<seq<JsString>>): seq<JsString> { if refs.Some? then refs.value else [] }

  /** All references that a grounding rests on. */
  function AllRefs(input: Input, authority: Authority, o: Observations): seq<JsString> {
    Listed(o.sourceRefs) + Listed(authority.sourceRefs) + Listed(input.envelopeRefs)
  }

  /** One oracle, one problem package, and freezes before comparison and disclosure. */
  predicate Bound(input: Input, authority: Authority, o: Observations) {
    && input.authorityBytesSha256 == Some(o.oracleBytesSha256)
    && o.problemPackageDigest == authority.problemPackageDigest == input.problemPackageDigest
    && o.freezePrecedesComparison && o.freezePrecedesDisclosure
  }

  lemma ScreensTogether(input: Input, authority: Authority, o: Observations)
    ensures AnswerBearing(input.screen, Some(AllRefs(input, authority, o)))
       <==> || AnswerBearing(input.screen, o.sourceRefs) || AnswerBearing(input.screen, authority.sourceRefs)
            || AnswerBearing(input.screen, input.envelopeRefs)
  {
    hide BearsToken;
    var s, all := input.screen, AllRefs(input, authority, o);
    assert forall ref ::
        ref in all
        <==> ref in Listed(o.sourceRefs) || ref in Listed(authority.sourceRefs) || ref in Listed(input.envelopeRefs);
  }

  /** Provenance is valid exactly when the observations bind one oracle to one
      problem package in time, no answer-bearing token is a factor of any
      reference from any of the three sources, and no publisher is prohibited
      under any spelling with the same lower-case form. */
  lemma ProvenanceExactly(input: Input, authority: Authority, observations: Option<Observations>)
    ensures Classify(input, authority, observations) == ValidProvenance
       <==> && observations.Some? && Bound(input, authority, observations.value)
            && (forall ref, token
                  | ref in AllRefs(input, authority, observations.value) && token in input.screen.tokens ::
                  !IsFactor(token, ref))
            && Lowered(input.screen, observations.value.publishers) !! Lowered(input.screen, input.screen.prohibited)
  {
    hide AnswerBearing, Prohibited, IsFactor, Lowered, AllRefs;
    if observations.Some? {
      ScreensTogether(input, authority, observations.value);
      BearsNothing(input.screen, AllRefs(input, authority, observations.value));
      ProhibitedMeets(input.screen, observations.value.publishers);
    }
  }

  datatype Report = Report(
    status: Status,
    reason: Option<Reason>,
    oracleState: OracleState,
    relation: Relation,
    universe: Universe,
    declaredInvariants: set<Id>,
    syntheticTestOnly: bool,
    evidence: Option<Evidence>)

  // What the verdict must be, without loops or order of evaluation.

  // The authority's rows.

  /** The attribution sets that the authority states, case by case. */
  function Stated(a: Authority): (stated: map<Id, Raw>)
    ensures a.cases.Some? ==> stated.Keys == a.cases.value.Keys
  {
    if a.cases.None? then map[]
    else map id | id in a.cases.value :: if a.cases.value[id].CaseRow? then a.cases.value[id].derived else NotAList
  }

  function AuthorityIds(a: Authority): Option<set<Id>> { if a.cases.Some? then Some(a.cases.value.Keys) else None }

  ghost function Checked(input: Input, a: Authority): Validation {
    Expected(input.declaredInvariants, a.cases, a.overall)
  }

  function ReasonOf(refusal: Refusal): Reason {
    if refusal.Incomplete? then AuthorityIncomplete else AuthorityAmbiguous
  }

  /** Everything before the semantic comparison is in order. */
  ghost predicate Ready(input: Input, observations: Option<Observations>) {
    && input.faithful && input.authority.Arrived?
    && var a := input.authority.authority;
       && Checked(input, a).Valid? && a.schemaKnown && Classify(input, a, observations) == ValidProvenance
       && AllUnambiguous(Stated(a)) && OnlyDeclared(Stated(a), input.declaredInvariants)
       && Stated(a).Keys == input.declaredCases
  }

  predicate AllUnambiguous(cases: map<Id, Raw>) { forall id | id in cases :: IsUnambiguous(cases[id]) }

  predicate OnlyDeclared(cases: map<Id, Raw>, declared: set<Id>)
    requires AllUnambiguous(cases)
  {
    forall id | id in cases :: Texts(cases[id].items) <= declared
  }

  /** On this case the observation states the authority's set. */
  predicate AgreesOn(cases: map<Id, Raw>, observed: map<Id, Raw>, id: Id)
    requires id in cases && IsUnambiguous(cases[id])
  {
    id in observed && IsUnambiguous(observed[id]) && Texts(observed[id].items) == Texts(cases[id].items)
  }

  ghost predicate AgreesEverywhere(input: Input, observations: Option<Observations>)
    requires Ready(input, observations)
  {
    forall id | id in input.declaredCases :: AgreesOn(Stated(input.authority.authority), input.observed, id)
  }

  /** The first gate that an input that is not ready fails. */
  ghost function Obstacle(input: Input, observations: Option<Observations>): Reason
    requires !Ready(input, observations)
  {
    if !input.faithful then ProblemPackageNotFaithful
    else if input.authority.NotArrived? then AwaitingIndependentAuthority
    else if input.authority.NotARecord? then AuthorityAmbiguous
    else
      var a := input.authority.authority;
      if Checked(input, a).Invalid? then ReasonOf(Checked(input, a).refusal)
      else if !a.schemaKnown || Classify(input, a, observations) != ValidProvenance then UnprovenIndependence
      else if !AllUnambiguous(Stated(a)) then AuthorityAmbiguous
      else AuthorityIncomplete
  }

  function UnprovenReport(input: Input, reason: Reason, state: OracleState, relation: Relation,
                                    authority: Option<set<Id>>, synthetic: bool, evidence: Option<Evidence>): Report {
    Report(Unproven, Some(reason), state, relation,
           CloseUniverse(input.declaredCases, input.declaredCases, authority, None),
           input.declaredInvariants, synthetic, evidence)
  }

  /** The semantic comparison is reached: provenance is established. */
  ghost predicate Compared(input: Input, observations: Option<Observations>) {
    && input.faithful && input.authority.Arrived?
    && var a := input.authority.authority;
       Checked(input, a).Valid? && a.schemaKnown && Classify(input, a, observations) == ValidProvenance
  }

  /** The provenance state that an input that is not ready is reported with. */
  ghost function StateOf(input: Input, observations: Option<Observations>): OracleState {
    if !input.faithful || input.authority.NotARecord? then NotEvaluatedState
    else if input.authority.NotArrived? then Absent
    else
      var a := input.authority.authority;
      if Checked(input, a).Invalid? then NotEvaluatedState
      else if !a.schemaKnown then InvalidProvenance
      else Classify(input, a, observations)
  }

  ghost function EvidenceOf(input: Input): Option<Evidence> {
    if input.authority.Arrived? && Checked(input, input.authority.authority).Valid?
    then Some(Checked(input, input.authority.authority).evidence)
    else None
  }

  /** The whole report, from the two conditions and the first obstacle. */
  ghost function ExpectedReport(input: Input, observations: Option<Observations>, synthetic: bool): Report {
    if Ready(input, observations) then
      var agrees := AgreesEverywhere(input, observations);
      var ids := input.declaredCases;
      Report(if agrees then Proven else Disagreed, if agrees then None else Some(AuthorityDisagreement),
             ValidProvenance, if agrees then Agrees else Disagrees,
             CloseUniverse(ids, ids, Some(ids), Some(ids)), input.declaredInvariants, synthetic, EvidenceOf(input))
    else
      UnprovenReport(input, Obstacle(input, observations), StateOf(input, observations),
                     if Compared(input, observations) then IncompleteOrAmbiguous else NotEvaluated,
                     if input.faithful && input.authority.Arrived?
                     then AuthorityIds(input.authority.authority) else None,
                     Compared(input, observations) && synthetic, EvidenceOf(input))
  }

  /** `evaluateIndependentGroundingCoreUnchecked`. The iteration order of the two
      loops is left open, as the report does not depend on it. */
  method Evaluate(input: Input, observations: Option<Observations>, synthetic: bool) returns (r: Report)
    ensures r == ExpectedReport(input, observations, synthetic)
  {
    hide Expected, AllUnambiguous, OnlyDeclared, AgreesOn, Classify, CloseUniverse;
    var evidence: Option<Evidence> := None;
    var checked := Invalid(Ambiguous);
    if input.authority.Arrived? {
      checked := Validate(input.declaredInvariants, input.authority.authority.cases, input.authority.authority.overall);
      if checked.Valid? { evidence := Some(checked.evidence); }
    }
    if !input.faithful {
      return UnprovenReport(input, ProblemPackageNotFaithful, NotEvaluatedState, NotEvaluated, None, false, evidence);
    }
    if input.authority.NotArrived? {
      return UnprovenReport(input, AwaitingIndependentAuthority, Absent, NotEvaluated, None, false, None);
    }
    if input.authority.NotARecord? {
      return UnprovenReport(input, AuthorityAmbiguous, NotEvaluatedState, NotEvaluated, None, false, None);
    }
    var a := input.authority.authority;
    if checked.Invalid? {
      return UnprovenReport(input, ReasonOf(checked.refusal), NotEvaluatedState, NotEvaluated, AuthorityIds(a),
                            false, None);
    }
    ValidHasCases(input, a);
    var cases, authorityIds := Stated(a), a.cases.value.Keys;
    if !a.schemaKnown {
      return UnprovenReport(input, UnprovenIndependence, InvalidProvenance, NotEvaluated, Some(authorityIds),
                            false, evidence);
    }
    var state := Classify(input, a, observations);
    if state != ValidProvenance {
      return UnprovenReport(input, UnprovenIndependence, state, NotEvaluated, Some(authorityIds), false, evidence);
    }
    var parsed, ambiguous, undeclared := ParseAll(cases, input.declaredInvariants);
    if ambiguous {
      return UnprovenReport(input, AuthorityAmbiguous, ValidProvenance, IncompleteOrAmbiguous, Some(authorityIds),
                            synthetic, evidence);
    }
    if input.declaredCases != authorityIds || undeclared {
      return UnprovenReport(input, AuthorityIncomplete, ValidProvenance, IncompleteOrAmbiguous, Some(authorityIds),
                            synthetic, evidence);
    }
    var universe :=
      CloseUniverse(input.declaredCases, input.declaredCases, Some(authorityIds), Some(input.declaredCases));
    var disagrees := Compare(cases, parsed, input.observed, input.declaredCases);
    if disagrees {
      return Report(Disagreed, Some(AuthorityDisagreement), ValidProvenance, Disagrees, universe,
                    input.declaredInvariants, synthetic, evidence);
    }
    return Report(Proven, None, ValidProvenance, Agrees, universe, input.declaredInvariants, synthetic, evidence);
  }

  lemma ValidHasCases(input: Input, a: Authority)
    requires Checked(input, a).Valid?
    ensures a.cases.Some?
  {
  }

  /** The loop that parses every attribution set, up to the first ambiguous one. */
  method ParseAll(cases: map<Id, Raw>, declared: set<Id>)
    returns (parsed: map<Id, set<Id>>, ambiguous: bool, undeclared: bool)
    ensures ambiguous <==> !AllUnambiguous(cases)
    ensures !ambiguous ==> parsed.Keys == cases.Keys && forall id | id in cases :: parsed[id] == Texts(cases[id].items)
    ensures !ambiguous ==> (undeclared <==> !OnlyDeclared(cases, declared))
  {
    parsed, ambiguous, undeclared := map[], false, false;
    var rest := cases.Keys;
    while rest != {}
      invariant rest <= cases.Keys && parsed.Keys == cases.Keys - rest
      invariant forall id | id in parsed :: IsUnambiguous(cases[id]) && parsed[id] == Texts(cases[id].items)
      invariant undeclared <==> exists id | id in parsed :: !(Texts(cases[id].items) <= declared)
      decreases rest
    {
      var id :| id in rest;
      var one := Parse(cases[id]);
      ParseExact(cases[id]);
      if one.None? {
        ambiguous := true;
        return;
      }
      if !(one.value <= declared) { undeclared := true; }
      ghost var before := parsed;
      parsed := parsed[id := one.value];
      rest := rest - {id};
      assert forall x | x in parsed :: x in before || x == id;
    }
  }

  /** The loop that compares case by case, up to the first difference. */
  method Compare(ghost cases: map<Id, Raw>, parsed: map<Id, set<Id>>, observed: map<Id, Raw>, ids: set<Id>)
    returns (disagrees: bool)
    requires AllUnambiguous(cases) && ids == cases.Keys == parsed.Keys
    requires forall id | id in cases :: parsed[id] == Texts(cases[id].items)
    ensures disagrees <==> exists id | id in ids :: !AgreesOn(cases, observed, id)
  {
    var rest := ids;
    while rest != {}
      invariant rest <= ids && forall id | id in ids - rest :: AgreesOn(cases, observed, id)
      decreases rest
    {
      var id :| id in rest;
      var one := if id in observed then Parse(observed[id]) else None;
      if id in observed { ParseExact(observed[id]); }
      if one.None? || one.value != parsed[id] {
        assert !AgreesOn(cases, observed, id);
        return true;
      }
      rest := rest - {id};
    }
    return false;
  }

  /** The verdicts: proven and disagreed need every gate, and only the last
      comparison tells them apart; the universe is closed exactly then, with
      one case for each declared case. */
  lemma VerdictExactly(input: Input, observations: Option<Observations>, synthetic: bool)
    ensures var r := ExpectedReport(input, observations, synthetic);
            && (r.status == Proven <==> Ready(input, observations) && AgreesEverywhere(input, observations))
            && (r.status == Disagreed <==> Ready(input, observations) && !AgreesEverywhere(input, observations))
            && (r.universe.closed <==> r.status != Unproven)
            && (r.universe.closed ==> r.universe.closedCaseCount == Some(|input.declaredCases|))
            && (r.oracleState == ValidProvenance <==> Compared(input, observations))
            && (r.syntheticTestOnly ==> r.oracleState == ValidProvenance)
  {
    var ids := input.declaredCases;
    ClosedIffOneSet(ids, ids, Some(ids), Some(ids));
    hide AgreesEverywhere;
  }

  /** Which reason is given when, each by itself: disagreement exactly for
      disagreed reports and none exactly for proven ones, and the others by the
      first gate that is not passed. */
  lemma ReasonExactly(input: Input, observations: Option<Observations>, synthetic: bool)
    ensures var r := ExpectedReport(input, observations, synthetic);
            && (r.reason == None <==> r.status == Proven)
            && (r.reason == Some(AuthorityDisagreement) <==> r.status == Disagreed)
            && (r.reason == Some(ProblemPackageNotFaithful) <==> !input.faithful)
            && (r.reason == Some(AwaitingIndependentAuthority) <==> input.faithful && input.authority.NotArrived?)
            && (r.reason == Some(UnprovenIndependence) <==>
                  input.faithful && Believed(input) && !Compared(input, observations))
            && (r.reason == Some(AuthorityAmbiguous) <==>
                  input.faithful && (input.authority.NotARecord? || RefusedAs(input, Ambiguous)
                                     || (Compared(input, observations) && !StatesClearly(input))))
            && (r.reason == Some(AuthorityIncomplete) <==>
                  input.faithful && (RefusedAs(input, Incomplete)
                                     || (Compared(input, observations) && StatesClearly(input) && !Covers(input))))
  {
    hide AllUnambiguous, OnlyDeclared, Classify, Expected, AgreesEverywhere;
  }

  /** The authority has arrived and its observations are in order. */
  ghost predicate Believed(input: Input) {
    input.authority.Arrived? && Checked(input, input.authority.authority).Valid?
  }

  ghost predicate RefusedAs(input: Input, refusal: Refusal) {
    input.authority.Arrived? && Checked(input, input.authority.authority) == Invalid(refusal)
  }

  /** Every attribution set of the authority is unambiguous. */
  predicate StatesClearly(input: Input) {
    input.authority.Arrived? && AllUnambiguous(Stated(input.authority.authority))
  }

  /** The authority names declared invariants only, for exactly the declared cases. */
  predicate Covers(input: Input)
    requires StatesClearly(input)
  {
    && OnlyDeclared(Stated(input.authority.authority), input.declaredInvariants)
    && Stated(input.authority.authority).Keys == input.declaredCases
  }

  /** The universe in a report that is not proven or disagreed: compared with
      nothing, and with the authority's cases once the authority is looked at. */
  lemma UnprovenUniverse(input: Input, observations: Option<Observations>, synthetic: bool)
    requires !Ready(input, observations)
    ensures var u := ExpectedReport(input, observations, synthetic).universe;
            && u.missingFromComparison == input.declaredCases && u.extraInComparison == {} && u.comparison == None
            && u.authority == (if input.faithful && input.authority.Arrived?
                               then AuthorityIds(input.authority.authority) else None)
            && u.declared == u.packaged == input.declaredCases && u.closedCaseCount == None
  {
    hide Ready, Obstacle, StateOf, Compared, EvidenceOf;
  }

  /** Without verified observations no authority is believed: the report is
      unproven, whatever else the input holds. */
  lemma NothingWithoutObservations(input: Input, synthetic: bool)
    ensures ExpectedReport(input, None, synthetic).status == Unproven
    ensures ExpectedReport(input, None, synthetic).oracleState != ValidProvenance
    ensures !ExpectedReport(input, None, synthetic).syntheticTestOnly
  {
    VerdictExactly(input, None, synthetic);
  }

  /** The same authority but for what it observes: ambiguities, effects and overall notes. */
  predicate DifferInObservations(a: Authority, b: Authority) {
    && a.schemaKnown == b.schemaKnown && a.problemPackageDigest == b.problemPackageDigest
    && a.sourceRefs == b.sourceRefs
    && AuthorityIds(a) == AuthorityIds(b) && Stated(a) == Stated(b)
  }

  function WithAuthority(input: Input, a: Authority): Input { input.(authority := Arrived(a)) }

  /** Well-formed observations have no say: exchanging those of any cases, and of
      the package, for other well-formed ones changes the evidence in the report
      and nothing else. Ill-formed ones are never accepted for well-formed ones. */
  lemma MetadataIsObservational(input: Input, observations: Option<Observations>, synthetic: bool, a: Authority,
                                b: Authority)
    requires DifferInObservations(a, b) && InOrder(input.declaredInvariants, a.cases, a.overall)
    ensures var before := ExpectedReport(WithAuthority(input, a), observations, synthetic);
            var after := ExpectedReport(WithAuthority(input, b), observations, synthetic);
            if InOrder(input.declaredInvariants, b.cases, b.overall)
            then after == before.(evidence := Some(Checked(input, b).evidence))
            else after.status == Unproven && after.oracleState == NotEvaluatedState
  {
    hide InOrder, KeptAmbiguity, KeptNotes, KeptOverall, AgreesOn, IsUnambiguous;
    var x, y := WithAuthority(input, a), WithAuthority(input, b);
    assert Checked(x, a) == Checked(input, a) && Checked(y, b) == Checked(input, b);
    assert Classify(x, a, observations) == Classify(y, b, observations);
    if InOrder(input.declaredInvariants, b.cases, b.overall) {
      assert Ready(y, observations) == Ready(x, observations);
      if Ready(x, observations) {
        assert AgreesEverywhere(y, observations) == AgreesEverywhere(x, observations);
      } else {
        assert Obstacle(y, observations) == Obstacle(x, observations);
      }
    }
  }
}
