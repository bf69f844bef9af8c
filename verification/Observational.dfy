/** What an authority may report beside its attributions, and the validator that
    decides whether any of it can be believed to be well formed. */
module Observational {
  import opened Common
  import opened Attribution

  type Id = JsString

  /** An optional text field; `undefined` counts as absent. */
  datatype Note = NoNote | NoteText(note: JsString) | OtherNote

  /** A count that must be a finite non-negative integer when present. */
  datatype Readings = NoReadings | Count(n: nat) | OtherReadings

  datatype Ambiguity =
    | NoAmbiguity
    | OtherAmbiguity
    | Ambiguity(observed: Option<bool>, ids: Raw, note: Note, readings: Readings)

  datatype Effect = EffectNote(note: JsString) | OtherEffect

  datatype Effects = NoEffects | OtherEffects | EffectList(effects: seq<Effect>)

  /** One case of the authority: its attribution set and its observations. */
  datatype CaseRow = OtherRow | CaseRow(derived: Raw, ambiguity: Ambiguity, effects: Effects)

  type Cases = map<Id, CaseRow>

  /** Observations about the package as a whole. */
  datatype Overall = NoOverall | OtherOverall | Overall(answerFree: Option<bool>, notes: Note)

  // What is kept as evidence.

  datatype AmbiguityEvidence = AmbiguityEvidence(observed: bool, ids: set<Id>, note: Option<JsString>,
                                                 readings: Option<nat>)

  datatype OverallEvidence = OverallEvidence(answerFree: bool, notes: Option<JsString>)

  datatype Evidence = Evidence(
    overall: Option<OverallEvidence>,
    ambiguity: map<Id, AmbiguityEvidence>,
    undeclared: map<Id, seq<JsString>>)

  datatype Refusal = Incomplete | Ambiguous

  datatype Validation = Valid(evidence: Evidence) | Invalid(refusal: Refusal)

  // What well-formed observations are.

  predicate AreNames(ids: Raw) { ids.List? && forall item | item in ids.items :: item.Text? && item.s != [] }

  predicate RepeatsId(row: CaseRow) {
    row.CaseRow? && row.ambiguity.Ambiguity? && AreNames(row.ambiguity.ids) && !NoRepeats(row.ambiguity.ids.items)
  }

  predicate NamesUndeclared(declared: set<Id>, row: CaseRow) {
    && row.CaseRow? && row.ambiguity.Ambiguity? && AreNames(row.ambiguity.ids)
    && !(Texts(row.ambiguity.ids.items) <= declared)
  }

  predicate AmbiguityInOrder(declared: set<Id>, a: Ambiguity) {
    match a
    case NoAmbiguity => true
    case OtherAmbiguity => false
    case Ambiguity(observed, ids, note, readings) =>
      && observed.Some? && note != OtherNote && readings != OtherReadings
      && AreNames(ids) && NoRepeats(ids.items) && Texts(ids.items) <= declared
  }

  predicate EffectsInOrder(e: Effects) {
    e != OtherEffects && (e.EffectList? ==> forall effect | effect in e.effects :: effect.EffectNote?)
  }

  predicate RowInOrder(declared: set<Id>, row: CaseRow) {
    row.CaseRow? && AmbiguityInOrder(declared, row.ambiguity) && EffectsInOrder(row.effects)
  }

  predicate OverallInOrder(o: Overall) {
    match o
    case NoOverall => true
    case OtherOverall => false
    case Overall(answerFree, notes) => answerFree.Some? && notes != OtherNote
  }

  predicate InOrder(declared: set<Id>, cases: Option<Cases>, overall: Overall) {
    && cases.Some? && OverallInOrder(overall)
    && forall id | id in cases.value :: RowInOrder(declared, cases.value[id])
  }

  function TextOf(note: Note): Option<JsString> { if note.NoteText? then Some(note.note) else None }

  /** What one case contributes, once it is in order. */
  function AmbiguityOf(row: CaseRow): Option<AmbiguityEvidence> {
    if row.CaseRow? && row.ambiguity.Ambiguity? && row.ambiguity.observed.Some? && row.ambiguity.ids.List? then
      var a := row.ambiguity;
      Some(AmbiguityEvidence(a.observed.value, Texts(a.ids.items), TextOf(a.note),
                             if a.readings.Count? then Some(a.readings.n) else None))
    else None
  }

  function Notes(effects: seq<Effect>): (notes: seq<JsString>)
    requires forall effect | effect in effects :: effect.EffectNote?
    ensures |notes| == |effects|
  {
    seq(|effects|, i requires 0 <= i < |effects| => assert effects[i] in effects; effects[i].note)
  }

  function NotesOf(row: CaseRow): seq<JsString> {
    if row.CaseRow? && row.effects.EffectList? && EffectsInOrder(row.effects) then Notes(row.effects.effects) else []
  }

  function KeptOverall(o: Overall): Option<OverallEvidence>
    requires OverallInOrder(o)
  {
    if o.Overall? then Some(OverallEvidence(o.answerFree.value, TextOf(o.notes))) else None
  }

  function KeptAmbiguity(cases: Cases, ids: set<Id>): map<Id, AmbiguityEvidence>
    requires ids <= cases.Keys
  {
    map id | id in ids && AmbiguityOf(cases[id]).Some? :: AmbiguityOf(cases[id]).value
  }

  /** Cases without notes are left out. */
  function KeptNotes(cases: Cases, ids: set<Id>): map<Id, seq<JsString>>
    requires ids <= cases.Keys
  {
    map id | id in ids && NotesOf(cases[id]) != [] :: NotesOf(cases[id])
  }

  /** Refused exactly when something is out of order: as incomplete exactly when
      some undeclared id is named and no id list repeats, and else as ambiguous. */
  ghost function Expected(declared: set<Id>, cases: Option<Cases>, overall: Overall): Validation {
    if InOrder(declared, cases, overall) then
      var ids := cases.value.Keys;
      Valid(Evidence(KeptOverall(overall), KeptAmbiguity(cases.value, ids), KeptNotes(cases.value, ids)))
    else if cases.Some? && (exists id | id in cases.value :: NamesUndeclared(declared, cases.value[id]))
            && (forall id | id in cases.value :: !RepeatsId(cases.value[id]))
    then Invalid(Incomplete)
    else Invalid(Ambiguous)
  }

  /** The flags that one id list raises. */
  method ScanIds(declared: set<Id>, ids: Raw) returns (named: bool, repeats: bool, unknown: bool)
    ensures named <==> AreNames(ids)
    ensures repeats <==> AreNames(ids) && !NoRepeats(ids.items)
    ensures unknown <==> AreNames(ids) && !(Texts(ids.items) <= declared)
  {
    named, repeats, unknown := AreNames(ids), false, false;
    if named {
      SizeShowsRepeats(ids.items);
      repeats := |Seen(ids.items)| != |ids.items|;
      for i := 0 to |ids.items|
        invariant unknown <==> exists j | 0 <= j < i :: ids.items[j].s !in declared
      {
        assert ids.items[i] in ids.items;
        if ids.items[i].s !in declared { unknown := true; }
      }
      if unknown {
        var j :| 0 <= j < |ids.items| && ids.items[j].s !in declared;
        assert ids.items[j] in ids.items;
      }
    }
  }

  /** The loop over the effects of one case, up to the first that is no note. */
  method NormalizeEffects(effects: seq<Effect>) returns (ok: bool, notes: seq<JsString>)
    ensures ok <==> forall effect | effect in effects :: effect.EffectNote?
    ensures ok ==> notes == Notes(effects)
  {
    notes := [];
    for i := 0 to |effects|
      invariant |notes| == i && forall j | 0 <= j < i :: effects[j].EffectNote? && notes[j] == effects[j].note
    {
      if effects[i].OtherEffect? {
        assert effects[i] in effects;
        return false, [];
      }
      notes := notes + [effects[i].note];
    }
    return true, notes;
  }

  /** The flags that the ambiguity observation of one case raises. */
  method ScanAmbiguity(declared: set<Id>, a: Ambiguity) returns (ok: bool, repeats: bool, unknown: bool)
    ensures ok <==> AmbiguityInOrder(declared, a)
    ensures repeats <==> a.Ambiguity? && AreNames(a.ids) && !NoRepeats(a.ids.items)
    ensures unknown <==> a.Ambiguity? && AreNames(a.ids) && !(Texts(a.ids.items) <= declared)
  {
    match a
    case NoAmbiguity => return true, false, false;
    case OtherAmbiguity => return false, false, false;
    case Ambiguity(observed, ids, note, readings) =>
      var named;
      named, repeats, unknown := ScanIds(declared, ids);
      ok := observed.Some? && named && !repeats && !unknown && note != OtherNote && readings != OtherReadings;
  }

  /** One pass of the loop over the cases. */
  method ValidateRow(declared: set<Id>, row: CaseRow)
    returns (ok: bool, repeats: bool, unknown: bool, ambiguity: Option<AmbiguityEvidence>, notes: seq<JsString>)
    ensures ok <==> RowInOrder(declared, row)
    ensures repeats <==> RepeatsId(row)
    ensures unknown <==> NamesUndeclared(declared, row)
    ensures ok ==> !repeats && !unknown
    ensures ok ==> ambiguity == AmbiguityOf(row) && notes == NotesOf(row)
  {
    ok, repeats, unknown, ambiguity, notes := false, false, false, None, [];
    if row.CaseRow? {
      ok, repeats, unknown := ScanAmbiguity(declared, row.ambiguity);
      if ok { ambiguity := AmbiguityOf(row); }
      if row.effects.OtherEffects? {
        ok := false;
      } else if row.effects.EffectList? {
        var fine;
        fine, notes := NormalizeEffects(row.effects.effects);
        ok := ok && fine;
      }
    }
  }

  lemma KeptExtends(cases: Cases, ids: set<Id>, id: Id)
    requires ids <= cases.Keys && id in cases && id !in ids
    ensures KeptAmbiguity(cases, ids + {id})
         == if AmbiguityOf(cases[id]).Some? then KeptAmbiguity(cases, ids)[id := AmbiguityOf(cases[id]).value]
            else KeptAmbiguity(cases, ids)
    ensures KeptNotes(cases, ids + {id})
         == if NotesOf(cases[id]) != [] then KeptNotes(cases, ids)[id := NotesOf(cases[id])] else KeptNotes(cases, ids)
  {
    hide AmbiguityOf, NotesOf;
  }

  /** `validateAndNormalizeAuthorityObservations`. The cases are taken in any order. */
  method Validate(declared: set<Id>, cases: Option<Cases>, overall: Overall) returns (r: Validation)
    ensures r == Expected(declared, cases, overall)
    ensures r.Invalid? <==> !InOrder(declared, cases, overall)
    ensures r == Invalid(Incomplete)
       <==> && cases.Some? && (exists id | id in cases.value :: NamesUndeclared(declared, cases.value[id]))
            && (forall id | id in cases.value :: !RepeatsId(cases.value[id]))
  {
    hide RowInOrder, RepeatsId, NamesUndeclared, AmbiguityOf, NotesOf, KeptAmbiguity, KeptNotes, KeptOverall,
         OverallInOrder;
    if cases.None? { return Invalid(Ambiguous); }
    var rows := cases.value;
    var violated, duplicate, unknown := false, false, false;
    var ambiguity: map<Id, AmbiguityEvidence>, undeclared: map<Id, seq<JsString>> := map[], map[];
    var rest := rows.Keys;
    ghost var seen: set<Id> := {};
    NothingKept(rows);
    while rest != {}
      invariant seen == rows.Keys - rest && rest <= rows.Keys
      invariant violated <==> exists id | id in seen :: !RowInOrder(declared, rows[id])
      invariant duplicate <==> exists id | id in seen :: RepeatsId(rows[id])
      invariant unknown <==> exists id | id in seen :: NamesUndeclared(declared, rows[id])
      invariant !violated ==> !duplicate && !unknown
      invariant !violated ==> ambiguity == KeptAmbiguity(rows, seen) && undeclared == KeptNotes(rows, seen)
      decreases rest
    {
      var id :| id in rest;
      var ok, repeats, names, kept, notes := ValidateRow(declared, rows[id]);
      KeptExtends(rows, seen, id);
      if !ok { violated := true; }
      if repeats { duplicate := true; }
      if names { unknown := true; }
      if kept.Some? { ambiguity := ambiguity[id := kept.value]; }
      if |notes| > 0 { undeclared := undeclared[id := notes]; }
      rest, seen := rest - {id}, seen + {id};
    }
    assert seen == rows.Keys;
    if !OverallInOrder(overall) { violated := true; }
    if violated { return Invalid(if unknown && !duplicate then Incomplete else Ambiguous); }
    return Valid(Evidence(KeptOverall(overall), ambiguity, undeclared));
  }

  lemma NothingKept(cases: Cases)
    ensures KeptAmbiguity(cases, {}) == map[] && KeptNotes(cases, {}) == map[]
  {
  }

  // What a refusal as incomplete means.

  /** Every id that some well-formed list names. */
  ghost function Named(cases: Cases): set<Id> {
    set id, name | id in cases && HasNames(cases[id]) && name in Texts(cases[id].ambiguity.ids.items) :: name
  }

  predicate HasNames(row: CaseRow) { row.CaseRow? && row.ambiguity.Ambiguity? && AreNames(row.ambiguity.ids) }

  /** Only a refusal as incomplete is sensitive to the declared invariants. */
  lemma DeclaringMore(declared: set<Id>, wider: set<Id>, cases: Option<Cases>, overall: Overall)
    requires declared <= wider && Expected(declared, cases, overall) != Invalid(Incomplete)
    ensures Expected(wider, cases, overall) == Expected(declared, cases, overall)
  {
    hide OverallInOrder, EffectsInOrder, AreNames, NoRepeats, KeptAmbiguity, KeptNotes, KeptOverall;
    if cases.Some? {
      forall id | id in cases.value
        ensures RowInOrder(declared, cases.value[id]) ==> RowInOrder(wider, cases.value[id])
        ensures NamesUndeclared(wider, cases.value[id]) ==> NamesUndeclared(declared, cases.value[id])
        ensures RepeatsId(cases.value[id]) ==> !RowInOrder(wider, cases.value[id])
        ensures RowInOrder(wider, cases.value[id]) && !NamesUndeclared(declared, cases.value[id]) ==>
                  RowInOrder(declared, cases.value[id])
      {
      }
    }
  }

  /** Once every name is declared, nothing is refused as incomplete. */
  lemma DeclaringAll(declared: set<Id>, cases: Cases, overall: Overall)
    ensures Expected(declared + Named(cases), Some(cases), overall) != Invalid(Incomplete)
  {
    hide InOrder;
    forall id | id in cases ensures !NamesUndeclared(declared + Named(cases), cases[id]) {
      if HasNames(cases[id]) {
        forall name | name in Texts(cases[id].ambiguity.ids.items) ensures name in Named(cases) {
        }
      }
    }
  }

  /** Observations are refused as incomplete exactly when declaring further
      invariants would change what the validator says of them. */
  lemma IncompleteExactly(declared: set<Id>, cases: Option<Cases>, overall: Overall)
    ensures Expected(declared, cases, overall) == Invalid(Incomplete)
       <==> exists wider :: declared <= wider && Expected(wider, cases, overall) != Expected(declared, cases, overall)
  {
    hide Expected;
    if wider :| declared <= wider && Expected(wider, cases, overall) != Expected(declared, cases, overall) {
      if Expected(declared, cases, overall) != Invalid(Incomplete) { DeclaringMore(declared, wider, cases, overall); }
    }
    if Expected(declared, cases, overall) == Invalid(Incomplete) {
      IncompleteHasCases(declared, cases, overall);
      DeclaringAll(declared, cases.value, overall);
      assert declared <= declared + Named(cases.value);
    }
  }

  lemma IncompleteHasCases(declared: set<Id>, cases: Option<Cases>, overall: Overall)
    requires Expected(declared, cases, overall) == Invalid(Incomplete)
    ensures cases.Some?
  {
  }
}
