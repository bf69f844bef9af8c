/** The fold's Python generator beside its auditor: two reconstructions of one aggregate. */
module PythonFold {
  import opened Common
  import opened Utf16
  import opened JsonValue
  import opened JsonEncoder
  import opened JsonCanonical
  import opened JsonTheorems
  import opened ObjectA
  import opened FoldValues
  import opened SingletonFold
  import opened BuiltObjects
  import opened FoldAcceptance
  import opened PythonCanonical

  /** Integers as Python compares them: a Boolean is one or zero. */
  function PyInt(v: Value): Option<int> {
    match v
    case Bool(b) => Some(if b then 1 else 0)
    case Number(Integral(n)) => Some(n)
    case Number(NegativeZero) => Some(0)
    case _ => None
  }

  /** `==` between values that Python read from JSON, without floats. */
  predicate PyEqual(v: Value, w: Value)
    decreases v
  {
    if PyInt(v).Some? || PyInt(w).Some? then PyInt(v) == PyInt(w)
    else
      match (v, w)
      case (Arr(a), Arr(b)) => |a| == |b| && forall i | 0 <= i < |a| :: PyEqual(a[i], b[i])
      case (Obj(a), Obj(b)) =>
        && KeySet(a) == KeySet(b)
        && forall i, j | 0 <= i < |a| && 0 <= j < |b| && a[i].key == b[j].key :: PyEqual(a[i].value, b[j].value)
      case _ => v == w
  }

  /** A value as Python reads it: minus zero is zero. */
  function AsPython(v: Value): Value {
    match v
    case Number(NegativeZero) => Number(Integral(0))
    case Arr(items) => Arr(seq(|items|, i requires 0 <= i < |items| => AsPython(items[i])))
    case Obj(entries) =>
      Obj(seq(|entries|, i requires 0 <= i < |entries| => Entry(entries[i].key, AsPython(entries[i].value))))
    case _ => v
  }

  function AsPythonOf(v: Option<Value>): Option<Value> { if v.Some? then Some(AsPython(v.value)) else None }

  /** The facts of a vector as Python reads them. */
  function PyFacts(x: Vector): Vector {
    x.(sourceEntry := AsPythonOf(x.sourceEntry), policy := AsPythonOf(x.policy),
       comparabilityClass := AsPythonOf(x.comparabilityClass), rule := AsPythonOf(x.rule))
  }

  /** `digest` of the generator; nothing where it raises, as it does on a text
      with a lone surrogate. */
  function PyDigest(c: Context, v: Option<Value>): Option<JsString> {
    if v.None? || PythonText(v.value).None? || !WellFormed(PythonText(v.value).value) then None
    else Some(Sha256Text(c, PythonText(v.value).value))
  }

  function PyCommitments(c: Context, x: Vector): Option<Commitments> {
    var source :- PyDigest(c, x.sourceEntry);
    var policy :- PyDigest(c, x.policy);
    var comparabilityClass :- PyDigest(c, x.comparabilityClass);
    var rule :- PyDigest(c, x.rule);
    Some(Commitments(source, policy, comparabilityClass, rule))
  }

  predicate PySameClass(schema: Value, k: Commitments, input: JsString, output: JsString) {
    PythonText(Descriptor(ENTRY_SCHEMA, k)) == PythonText(Descriptor(schema, k)) && input == output
  }

  /** The declarations compared with the literals by `==`. */
  predicate PyLiterals(x: Vector) {
    && x.policy.Some? && PyEqual(x.policy.value, POLICY)
    && x.comparabilityClass.Some? && PyEqual(x.comparabilityClass.value, CLASS)
    && x.rule.Some? && PyEqual(x.rule.value, RULE)
  }

  /** `reconstruct_expected`; nothing where it raises, as it does on a missing fact. */
  function PyReconstruct(c: Context, x: Vector): Option<Expected> {
    if x.notes.None? then None else PyReconstructFrom(c, PyFacts(x))
  }

  function PyReconstructFrom(c: Context, x: Vector): Option<Expected> {
    var k :- PyCommitments(c, x);
    var ref :- Field(x.sourceEntry, Js("entry_id"));
    var schema :- Field(x.sourceEntry, Js("schema"));
    PyRebuild(c, x, k, ref, schema)
  }

  function PyRebuild(c: Context, x: Vector, k: Commitments, ref: Value, schema: Value): Option<Expected> {
    var inputStatement, outputStatement := Statement(ENTRY_SCHEMA, ref, k), Statement(schema, ref, k);
    var inputCommitment :- PyDigest(c, Some(inputStatement));
    var inclusion := Inclusion(ref, k);
    var inclusionCommitment :- PyDigest(c, Some(inclusion));
    var outputCommitment :- PyDigest(c, Some(outputStatement));
    var breakdown := Breakdown(ref, k, inputCommitment, outputCommitment);
    var breakdownCommitment :- PyDigest(c, Some(breakdown));
    var aggregateId :- PyDigest(c, Some(Seed(ref, k, outputCommitment, inclusionCommitment, breakdownCommitment)));
    var sameClass := PySameClass(schema, k, inputCommitment, outputCommitment);
    Some(Expected(ref, k, inputStatement, inputCommitment, outputStatement, outputCommitment,
                  inclusion, inclusionCommitment, breakdown, breakdownCommitment,
                  aggregateId, sameClass, sameClass && PyLiterals(x)))
  }

  // Values on which both canonicalizers agree.

  /** Both canonicalizers write the value, and write it alike. */
  predicate Shared(v: Value) { Encodable(FoldCanonical, v) && Plain(v) }

  lemma SharedDigest(c: Context, v: Value)
    requires Shared(v)
    ensures PyDigest(c, Some(v)) == DigestOf(c, Some(v)) && DigestOf(c, Some(v)).Some?
  {
    hide Serialize, PythonText, Encodable, Plain, WellFormed, Sha256Text;
    TextsAgreeExactly(c.format, v);
    CanonicalWellFormed(c, Some(v));
  }

  lemma {:induction false} SharedClone(v: Value)
    requires Shared(v)
    ensures Clone(v) == AsPython(v) && Shared(Clone(v))
    decreases v, 1
  {
    match v
    case Arr(items) =>
      var m, n := Clone(v).items, AsPython(v).items;
      forall i | 0 <= i < |items| ensures m[i] == n[i] && Shared(m[i]) { SharedClone(items[i]); }
      assert m == n;
    case Obj(entries) => SharedCloneOfObject(entries);
    case _ =>
  }

  lemma {:induction false} SharedCloneOfObject(entries: seq<Entry>)
    requires Shared(Obj(entries))
    ensures Clone(Obj(entries)) == AsPython(Obj(entries)) && Shared(Clone(Obj(entries)))
    decreases Obj(entries), 0
  {
    hide PlainString, DistinctKeys;
    var m, n := Clone(Obj(entries)).entries, AsPython(Obj(entries)).entries;
    SameKeysDistinct(entries, m);
    forall i | 0 <= i < |entries| ensures m[i] == n[i] && EncodableEntry(FoldCanonical, m[i]) && PlainEntry(m[i]) {
      assert EncodableEntry(FoldCanonical, entries[i]) && PlainEntry(entries[i]);
      SharedClone(entries[i].value);
    }
    assert m == n;
  }

  lemma SharedField(v: Value, key: JsString)
    requires Shared(v) && Field(Some(v), key).Some?
    ensures Shared(Field(Some(v), key).value)
  {
    LookupFinds(v.entries, key);
    hide Lookup, PlainString;
    var i :| 0 <= i < |v.entries| && v.entries[i] == Entry(key, Lookup(v.entries, key).value);
    assert EncodableEntry(FoldCanonical, v.entries[i]) && PlainEntry(v.entries[i]);
  }

  // Built objects are shared.

  lemma AsciiIsPlain(s: JsString)
    requires IsAscii(s)
    ensures PlainString(s)
  {
    assert forall i | 0 <= i < |s| :: s[i] in s;
  }

  lemma DigestIsPlain(c: Context, v: Option<Value>)
    requires DigestOf(c, v).Some?
    ensures Plain(Str(DigestOf(c, v).value))
  {
    hide Canonical, PlainString;
    var text := DigestOf(c, v).value;
    JsIsAscii("sha256:");
    assert IsAscii(text) by { hide Js; }
    AsciiIsPlain(text);
  }

  lemma AnyTextEncodable()
    ensures forall s: JsString :: Encodable(FoldCanonical, Str(s))
  {
  }

  predicate SharedEntry(e: Entry) { Encodable(FoldCanonical, e.value) && PlainEntry(e) }

  lemma EntriesShared(entries: seq<Entry>)
    requires DistinctKeys(entries) && forall i | 0 <= i < |entries| :: SharedEntry(entries[i])
    ensures Shared(Obj(entries))
  {
    hide DistinctKeys, PlainString;
    forall e | e in entries ensures EncodableEntry(FoldCanonical, e) {
      var i :| 0 <= i < |entries| && entries[i] == e;
      assert SharedEntry(entries[i]);
    }
    forall i | 0 <= i < |entries| ensures PlainEntry(entries[i]) { assert SharedEntry(entries[i]); }
  }

  /** ASCII text is plain and encodable. */
  lemma AsciiIsShared()
    ensures forall s: JsString :: IsAscii(s) ==> PlainString(s)
    ensures forall s: JsString :: Plain(Str(s)) <==> PlainString(s)
    ensures forall s: JsString :: Encodable(FoldCanonical, Str(s))
  {
    hide PlainString, IsAscii;
    AnyTextEncodable();
    forall s: JsString ensures IsAscii(s) ==> PlainString(s) {
      if IsAscii(s) { AsciiIsPlain(s); }
    }
  }

  predicate PlainCommitments(k: Commitments) {
    Plain(Str(k.source)) && Plain(Str(k.policy)) && Plain(Str(k.comparabilityClass)) && Plain(Str(k.rule))
  }

  lemma StatementShared(schema: Value, ref: Value, k: Commitments)
    requires Shared(schema) && Shared(ref) && PlainCommitments(k)
    ensures Shared(Statement(schema, ref, k))
  {
    hide Plain, PlainString, IsAscii, At, Text, DistinctKeys, Encodable;
    AsciiIsShared();
    StatementKeys(schema, ref, k);
    EntriesShared(Statement(schema, ref, k).entries);
  }

  lemma InclusionShared(ref: Value, k: Commitments)
    requires Shared(ref) && PlainCommitments(k)
    ensures Shared(Inclusion(ref, k))
  {
    hide Plain, PlainString, IsAscii, At, Text, DistinctKeys, Encodable;
    AsciiIsShared();
    MemberKeys(ref, k);
    EntriesShared(Inclusion(ref, k).items[0].entries);
    SingleShared(Inclusion(ref, k).items[0]);
  }

  lemma SingleShared(v: Value)
    requires Shared(v)
    ensures Shared(Arr([v]))
  {
  }

  lemma DescriptorShared(schema: Value, k: Commitments)
    requires Shared(schema) && PlainCommitments(k)
    ensures Shared(Descriptor(schema, k))
  {
    hide Plain, PlainString, IsAscii, At, Text, DistinctKeys, Encodable;
    AsciiIsShared();
    DescriptorKeys(schema, k);
    EntriesShared(Descriptor(schema, k).entries);
  }

  lemma OneShared(key: string, text: JsString)
    requires Plain(Str(text))
    ensures Shared(Obj([At(key, Str(text))]))
  {
    hide Plain, PlainString, IsAscii, At;
    AsciiIsShared();
    var entries := [At(key, Str(text))];
    assert entries[1..] == [];
    assert DistinctKeys(entries);
    EntriesShared(entries);
  }

  lemma BreakdownShared(ref: Value, k: Commitments, input: JsString, output: JsString)
    requires Shared(ref) && PlainCommitments(k) && Plain(Str(input)) && Plain(Str(output))
    ensures Shared(Breakdown(ref, k, input, output))
  {
    hide Plain, PlainString, IsAscii, At, Text, DistinctKeys, Encodable;
    AsciiIsShared();
    OneShared("semantic_result_commitment", input);
    OneShared("semantic_result_commitment", output);
    BreakdownKeys(ref, k, input, output);
    EntriesShared(Breakdown(ref, k, input, output).entries);
  }

  lemma SeedShared(ref: Value, k: Commitments, output: JsString, inclusion: JsString, breakdown: JsString)
    requires Shared(ref) && PlainCommitments(k) && Plain(Str(output)) && Plain(Str(inclusion)) && Plain(Str(breakdown))
    ensures Shared(Seed(ref, k, output, inclusion, breakdown))
  {
    hide Plain, PlainString, IsAscii, At, Text, DistinctKeys, Encodable;
    AsciiIsShared();
    SeedKeys(ref, k, output, inclusion, breakdown);
    EntriesShared(Seed(ref, k, output, inclusion, breakdown).entries);
  }

  // The two reconstructions.

  /** Facts that both programs can canonicalize alike; an entry with id and schema; notes. */
  predicate SharedFacts(x: Vector) {
    && x.sourceEntry.Some? && Shared(x.sourceEntry.value)
    && Field(x.sourceEntry, Js("entry_id")).Some? && Field(x.sourceEntry, Js("schema")).Some?
    && x.policy.Some? && Shared(x.policy.value) && x.comparabilityClass.Some? && Shared(x.comparabilityClass.value)
    && x.rule.Some? && Shared(x.rule.value)
  }

  lemma FactsReadAlike(x: Vector)
    requires SharedFacts(x)
    ensures Cloned(x) == PyFacts(x) && SharedFacts(Cloned(x))
  {
    hide Shared, Clone, AsPython, Field, Js;
    SharedClone(x.sourceEntry.value);
    SharedClone(x.policy.value);
    SharedClone(x.comparabilityClass.value);
    SharedClone(x.rule.value);
    FieldOfClone(x.sourceEntry, Js("entry_id"));
    FieldOfClone(x.sourceEntry, Js("schema"));
  }

  lemma SharedCommitments(c: Context, x: Vector)
    requires SharedFacts(x)
    ensures ExpectCommitments(c, x).Some? && PyCommitments(c, x) == ExpectCommitments(c, x)
    ensures PlainCommitments(ExpectCommitments(c, x).value)
  {
    hide Shared, DigestOf, PyDigest, Plain, Field, Js;
    SharedDigest(c, x.sourceEntry.value);
    SharedDigest(c, x.policy.value);
    SharedDigest(c, x.comparabilityClass.value);
    SharedDigest(c, x.rule.value);
    DigestIsPlain(c, x.sourceEntry);
    DigestIsPlain(c, x.policy);
    DigestIsPlain(c, x.comparabilityClass);
    DigestIsPlain(c, x.rule);
  }

  /** Digest of a shared value, and that it is plain text. */
  lemma SharedDigestPlain(c: Context, v: Value)
    requires Shared(v)
    ensures PyDigest(c, Some(v)) == DigestOf(c, Some(v)) && DigestOf(c, Some(v)).Some?
    ensures Plain(Str(DigestOf(c, Some(v)).value))
  {
    hide Shared, DigestOf, PyDigest, Plain;
    SharedDigest(c, v);
    DigestIsPlain(c, Some(v));
  }

  lemma SharedSameClass(c: Context, schema: Value, k: Commitments, input: JsString, output: JsString)
    requires Shared(schema) && PlainCommitments(k)
    ensures PySameClass(schema, k, input, output) == SameClass(c, schema, k, input, output)
  {
    hide Serialize, PythonText, Encodable, Plain, Descriptor, Text, PlainCommitments, Js;
    AsciiIsShared();
    var a, b := Descriptor(ENTRY_SCHEMA, k), Descriptor(schema, k);
    DescriptorShared(ENTRY_SCHEMA, k);
    DescriptorShared(schema, k);
    TextsAgreeExactly(c.format, a);
    TextsAgreeExactly(c.format, b);
    EqualCanonicalMeansSame(c, Some(a), Some(b));
  }

  lemma EntrySchemaShared()
    ensures Shared(ENTRY_SCHEMA)
  {
    hide Text, PlainString, Plain, Encodable, IsAscii;
    AsciiIsShared();
  }

  /** On shared facts both rebuild one aggregate, but for the flag. */
  lemma RebuildsAgree(c: Context, x: Vector, k: Commitments, ref: Value, schema: Value)
    requires Shared(ref) && Shared(schema) && PlainCommitments(k)
    ensures Rebuild(c, x, k, ref, schema).Some?
    ensures var e := Rebuild(c, x, k, ref, schema).value;
            PyRebuild(c, x, k, ref, schema) == Some(e.(noPromotion := e.sameClass && PyLiterals(x)))
  {
    hide Shared, DigestOf, PyDigest, Plain, PlainCommitments, SameClass, PySameClass, Literals, PyLiterals;
    hide Statement, Inclusion, Breakdown, Seed, Text;
    EntrySchemaShared();
    StatementShared(ENTRY_SCHEMA, ref, k);
    SharedDigestPlain(c, Statement(ENTRY_SCHEMA, ref, k));
    StatementShared(schema, ref, k);
    SharedDigestPlain(c, Statement(schema, ref, k));
    InclusionShared(ref, k);
    SharedDigestPlain(c, Inclusion(ref, k));
    var input := DigestOf(c, Some(Statement(ENTRY_SCHEMA, ref, k))).value;
    var inclusion := DigestOf(c, Some(Inclusion(ref, k))).value;
    var output := DigestOf(c, Some(Statement(schema, ref, k))).value;
    BreakdownShared(ref, k, input, output);
    SharedDigestPlain(c, Breakdown(ref, k, input, output));
    var breakdown := DigestOf(c, Some(Breakdown(ref, k, input, output))).value;
    SeedShared(ref, k, output, inclusion, breakdown);
    SharedDigestPlain(c, Seed(ref, k, output, inclusion, breakdown));
    SharedSameClass(c, schema, k, input, output);
  }

  /** On facts that both canonicalize alike, generator and auditor reconstruct the
      same aggregate in every field but the flag. The flag of the generator takes
      `==` for equality with the literals, that of the auditor equal octets. */
  lemma ReconstructionsAgree(c: Context, x: Vector)
    requires SharedFacts(x) && x.notes.Some?
    ensures Reconstruct(c, x).Some?
    ensures var e := Reconstruct(c, x).value;
            && e.noPromotion == (e.sameClass && Literals(c, PyFacts(x)) == Some(true))
            && PyReconstruct(c, x) == Some(e.(noPromotion := e.sameClass && PyLiterals(PyFacts(x))))
  {
    hide Shared, Rebuild, PyRebuild, Field, Js, Cloned, PyFacts, Literals, PyLiterals, ExpectCommitments, PyCommitments,
         PlainCommitments;
    FactsReadAlike(x);
    var y := Cloned(x);
    SharedCommitments(c, y);
    SharedField(y.sourceEntry.value, Js("entry_id"));
    SharedField(y.sourceEntry.value, Js("schema"));
    RebuildsAgree(c, y, ExpectCommitments(c, y).value,
                  Field(y.sourceEntry, Js("entry_id")).value, Field(y.sourceEntry, Js("schema")).value);
    FlagParts(c, x, Reconstruct(c, x).value);
  }

  // The flags.

  lemma {:induction false} SameIsPyEqual(v: Value, w: Value)
    requires Encodable(FoldCanonical, v) && Encodable(FoldCanonical, w) && SameUpToOrder(FoldCanonical, v, w)
    ensures PyEqual(v, w)
    decreases v
  {
    if v.Arr? && w.Arr? {
      forall i | 0 <= i < |v.items| ensures PyEqual(v.items[i], w.items[i]) { SameIsPyEqual(v.items[i], w.items[i]); }
    } else if v.Obj? && w.Obj? {
      var a, b := v.entries, w.entries;
      forall i, j | 0 <= i < |a| && 0 <= j < |b| && a[i].key == b[j].key ensures PyEqual(a[i].value, b[j].value) {
        assert EncodableEntry(FoldCanonical, a[i]) && EncodableEntry(FoldCanonical, b[j]);
        SameIsPyEqual(a[i].value, b[j].value);
      }
    }
  }

  lemma EqualOctetsArePyEqual(c: Context, v: Option<Value>, w: Value)
    requires Passes(EqualCanonical(c, v, Some(w)))
    ensures v.Some? && PyEqual(v.value, w)
  {
    hide Serialize, SameUpToOrder, Encodable, PyEqual;
    EqualImpliesSame(c, v, w);
    DigestedIsEncodable(c, w);
    SameIsPyEqual(v.value, w);
  }

  /** Whatever the auditor takes for the frozen literals, the generator does too. */
  lemma FrozenForBoth(c: Context, x: Vector)
    requires Literals(c, x) == Some(true)
    ensures PyLiterals(x)
  {
    hide EqualCanonical, PyEqual, POLICY, CLASS, RULE;
    EqualOctetsArePyEqual(c, x.policy, POLICY);
    EqualOctetsArePyEqual(c, x.comparabilityClass, CLASS);
    EqualOctetsArePyEqual(c, x.rule, RULE);
  }

  /** On facts that both canonicalize alike the two aggregates differ exactly when
      the generator takes the declarations for the literals and the auditor does
      not, and then in the flag alone. */
  lemma AggregatesDifferExactly(c: Context, x: Vector)
    requires SharedFacts(x) && x.notes.Some?
    ensures Reconstruct(c, x).Some? && PyReconstruct(c, x).Some?
    ensures var e, e' := Reconstruct(c, x).value, PyReconstruct(c, x).value;
            && e'.(noPromotion := e.noPromotion) == e
            && (e != e' <==> e.sameClass && PyLiterals(PyFacts(x)) && Literals(c, PyFacts(x)) != Some(true))
            && (e != e' ==> e'.noPromotion && !e.noPromotion)
  {
    hide Reconstruct, PyReconstruct, SharedFacts, Literals, PyLiterals, PyFacts;
    ReconstructionsAgree(c, x);
    if Literals(c, PyFacts(x)) == Some(true) { FrozenForBoth(c, PyFacts(x)); }
  }

  /** The frozen class declaration with one in place of true. */
  const ONE_FOR_TRUE: Value := Obj(CLASS.entries[4 := At("admission_required", Number(Integral(1)))])

  lemma OneForTrueParts()
    ensures ONE_FOR_TRUE.Obj? && CLASS.Obj? && |ONE_FOR_TRUE.entries| == |CLASS.entries| == 9
    ensures CLASS.entries[4] == At("admission_required", Bool(true))
    ensures ONE_FOR_TRUE.entries[4] == At("admission_required", Number(Integral(1)))
    ensures forall i | 0 <= i < 9 && i != 4 :: ONE_FOR_TRUE.entries[i] == CLASS.entries[i]
    ensures forall i | 0 <= i < 9 :: ONE_FOR_TRUE.entries[i].key == CLASS.entries[i].key
    ensures forall i | 0 <= i < 9 && i != 4 :: CLASS.entries[i].value.Str?
  {
    hide IsAscii, Js;
  }

  /** Python takes one for true, and the canonical octets do not. */
  lemma OneForTrue(c: Context)
    ensures PyEqual(ONE_FOR_TRUE, CLASS)
    ensures EqualCanonical(c, Some(ONE_FOR_TRUE), Some(CLASS)) == Some(false)
  {
    hide ONE_FOR_TRUE, CLASS, KeySet, DistinctKeys, Canonical, Sha256Text, At;
    OneForTrueParts();
    var a, b := ONE_FOR_TRUE.entries, CLASS.entries;
    ClassKeys();
    SameKeysDistinct(b, a);
    forall i, j | 0 <= i < |a| && 0 <= j < |b| && a[i].key == b[j].key ensures PyEqual(a[i].value, b[j].value) {
      DistinctPositions(b, i, j);
    }
    assert !SameUpToOrder(FoldCanonical, a[4].value, b[4].value);
    ClassEncodable();
    ScalarsEncodable(a);
    EncodedHasDigest(c, ONE_FOR_TRUE);
    EncodedHasDigest(c, CLASS);
    EqualCanonicalMeansSame(c, Some(ONE_FOR_TRUE), Some(CLASS));
  }

  /** With one for true in the class declaration the generator sees the literals
      and the auditor does not. */
  lemma FlagsCanDiffer(c: Context, x: Vector)
    requires x.policy == Some(POLICY) && x.comparabilityClass == Some(ONE_FOR_TRUE) && x.rule == Some(RULE)
    ensures PyLiterals(x) && Literals(c, x) == Some(false)
  {
    hide POLICY, CLASS, RULE, ONE_FOR_TRUE, PyEqual, Canonical, Encodable, Sha256Text;
    OneForTrue(c);
    FrozenLiteralsEncodable();
    EncodedHasDigest(c, POLICY);
    EncodedHasDigest(c, RULE);
    SelfSame(c, POLICY);
    SelfSame(c, RULE);
  }

  lemma SelfSame(c: Context, v: Value)
    requires Canonical(c, Some(v)).Some?
    ensures PyEqual(v, v) && EqualCanonical(c, Some(v), Some(v)) == Some(true)
  {
    hide Canonical, PyEqual;
    EqualOctetsArePyEqual(c, Some(v), v);
  }

  // Beyond shared facts.

  /** A value that both programs digest alike is one that they write alike, or its
      two texts collide under the hash. */
  lemma EqualDigestsAreShared(c: Context, v: Value)
    requires DigestOf(c, Some(v)).Some? && PyDigest(c, Some(v)) == DigestOf(c, Some(v))
    ensures PythonText(v).Some? && Canonical(c, Some(v)).Some?
    ensures Shared(v)
         || IsCollision(c.sha256, (Utf8.Encode(PythonText(v).value), Utf8.Encode(Canonical(c, Some(v)).value)))
  {
    hide Serialize, PythonText, Encodable, Plain, WellFormed, Utf8.Encode, Js;
    TextsAgreeExactly(c.format, v);
    CanonicalWellFormed(c, Some(v));
    var s, t := PythonText(v).value, Canonical(c, Some(v)).value;
    assert OracleCommitment.Hex(c.sha256(Utf8.Encode(s))) == Sha256Text(c, s)[7..];
    assert OracleCommitment.Hex(c.sha256(Utf8.Encode(t))) == Sha256Text(c, t)[7..];
    OracleCommitment.HexInjective(c.sha256(Utf8.Encode(s)), c.sha256(Utf8.Encode(t)));
    if Utf8.Encode(s) == Utf8.Encode(t) { Utf8.EncodeInjective(s, t); }
  }
}
