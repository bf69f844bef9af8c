/** The order of object keys, at any depth of any input, never changes the outcome. */
module FoldKeyOrder {
  import opened Common
  import opened Utf16
  import opened JsonValue
  import opened JsonEncoder
  import opened JsonTheorems
  import opened ObjectA
  import opened FoldValues
  import opened SingletonFold

  /** Both absent, or parsed JSON that differs at most in the order of entries. */
  predicate Alike(a: Option<Value>, b: Option<Value>) {
    match (a, b)
    case (None, None) => true
    case (Some(v), Some(w)) =>
      HostValue(FoldCanonical, v) && HostValue(FoldCanonical, w) && SameUpToOrder(FoldCanonical, v, w)
    case _ => false
  }

  predicate AlikeVectors(x: Vector, y: Vector) {
    && Alike(x.sourceEntry, y.sourceEntry) && Alike(x.carriedCommitment, y.carriedCommitment)
    && Alike(x.policy, y.policy) && Alike(x.comparabilityClass, y.comparabilityClass) && Alike(x.rule, y.rule)
    && Alike(x.notes, y.notes) && Alike(x.stage, y.stage)
  }

  // Given values.

  lemma AlikeCanonical(c: Context, a: Option<Value>, b: Option<Value>)
    requires Alike(a, b)
    ensures Canonical(c, a) == Canonical(c, b)
  {
    hide Serialize, HostValue, SameUpToOrder;
    if a.Some? { OrderNeverMatters(FoldCanonical, c.format, a.value, b.value); }
  }

  lemma AlikeField(a: Option<Value>, b: Option<Value>, key: JsString)
    requires Alike(a, b)
    ensures Alike(Field(a, key), Field(b, key))
  {
    if a.Some? && a.value.Obj? && b.value.Obj? {
      AlikeLookup(a.value.entries, b.value.entries, key);
    }
  }

  lemma AlikeLookup(a: seq<Entry>, b: seq<Entry>, key: JsString)
    requires Alike(Some(Obj(a)), Some(Obj(b)))
    ensures Alike(Lookup(a, key), Lookup(b, key))
  {
    assert KeySet(a) == KeySet(b);
    LookupFinds(a, key);
    LookupFinds(b, key);
    hide Lookup, KeySet;
    if key in KeySet(a) {
      var i :| 0 <= i < |a| && a[i] == Entry(key, Lookup(a, key).value);
      var j :| 0 <= j < |b| && b[j] == Entry(key, Lookup(b, key).value);
      assert a[i] in a && b[j] in b;
      assert SameUpToOrder(FoldCanonical, a[i].value, b[j].value);
    }
  }

  lemma AlikeStrictly(a: Option<Value>, b: Option<Value>, p: Option<Value>, q: Option<Value>)
    requires Alike(a, b) && Alike(p, q)
    ensures StrictEqual(a, p) == StrictEqual(b, q)
  {
  }

  lemma AlikeText(a: Option<Value>, b: Option<Value>, v: Value)
    requires Alike(a, b) && !v.Arr? && !v.Obj? && !v.BigInteger?
    ensures StrictEqual(a, Some(v)) == StrictEqual(b, Some(v))
  {
  }

  lemma AlikeSole(a: Option<Value>, b: Option<Value>)
    requires Alike(a, b)
    ensures Alike(Sole(a), Sole(b))
  {
    if a.Some? && a.value.Arr? && b.value.Arr? && |a.value.items| == 1 {
      assert a.value.items[0] in a.value.items && b.value.items[0] in b.value.items;
      assert SameUpToOrder(FoldCanonical, a.value.items[0], b.value.items[0]);
    }
  }

  lemma {:induction false} AlikeDigestLike(a: Option<Value>, b: Option<Value>)
    requires Alike(a, b)
    ensures DigestLike(a) == DigestLike(b)
    decreases if a.Some? then a.value else Null
  {
    if a.Some? && a.value.Arr? && b.value.Arr? && |a.value.items| == 1 {
      AlikeSole(a, b);
      AlikeDigestLike(Some(a.value.items[0]), Some(b.value.items[0]));
    }
  }

  lemma AlikeTruthy(a: Option<Value>, b: Option<Value>)
    requires Alike(a, b)
    ensures IsTruthy(a) == IsTruthy(b)
  {
  }

  lemma AlikeStages(a: Option<Value>, b: Option<Value>)
    requires Alike(a, b)
    ensures StageWellFormed(a) == StageWellFormed(b)
  {
    AlikeShape(a, b);
    AlikeField(a, b, Js("schema"));
    AlikeField(a, b, Js(CLAIMED_STATEMENT));
    AlikeField(a, b, Js(CLAIMED_COMMITMENT));
    AlikeField(a, b, Js(CANDIDATE));
    hide Alike, Field, StrictEqual, DigestLike, IsTruthy, KeySet, Js;
    AlikeText(Field(a, Js("schema")), Field(b, Js("schema")), Text("recursive_singleton_fold_stage_input.v0"));
    AlikeTruthy(Field(a, Js(CLAIMED_STATEMENT)), Field(b, Js(CLAIMED_STATEMENT)));
    AlikeDigestLike(Field(a, Js(CLAIMED_COMMITMENT)), Field(b, Js(CLAIMED_COMMITMENT)));
    AlikeTruthy(Field(a, Js(CANDIDATE)), Field(b, Js(CANDIDATE)));
  }

  lemma AlikeShape(a: Option<Value>, b: Option<Value>)
    requires Alike(a, b)
    ensures a.Some? == b.Some? && (a.Some? ==> a.value.Obj? == b.value.Obj?)
    ensures a.Some? && a.value.Obj? ==> KeySet(a.value.entries) == KeySet(b.value.entries)
  {
  }

  // Clones.

  lemma {:induction false} AlikeClone(v: Value, w: Value)
    requires Alike(Some(v), Some(w))
    ensures Alike(Some(Clone(v)), Some(Clone(w)))
    decreases v, 1
  {
    if v.Arr? && w.Arr? {
      var m, n := Clone(v).items, Clone(w).items;
      forall i | 0 <= i < |v.items| ensures Alike(Some(m[i]), Some(n[i])) {
        assert v.items[i] in v.items && w.items[i] in w.items;
        AlikeClone(v.items[i], w.items[i]);
      }
      ArraysAlike(m, n);
    } else if v.Obj? && w.Obj? {
      AlikeCloneOfObjects(v.entries, w.entries);
    }
  }

  lemma ArraysAlike(a: seq<Value>, b: seq<Value>)
    requires |a| == |b| && forall i | 0 <= i < |a| :: Alike(Some(a[i]), Some(b[i]))
    ensures Alike(Some(Arr(a)), Some(Arr(b)))
  {
  }

  lemma {:induction false} AlikeCloneOfObjects(a: seq<Entry>, b: seq<Entry>)
    requires Alike(Some(Obj(a)), Some(Obj(b)))
    ensures Alike(Some(Clone(Obj(a))), Some(Clone(Obj(b))))
    decreases Obj(a), 0
  {
    hide KeySet, DistinctKeys;
    var m, n := Clone(Obj(a)).entries, Clone(Obj(b)).entries;
    SameKeysDistinct(a, m);
    SameKeysDistinct(b, n);
    forall i | 0 <= i < |a| ensures HostValue(FoldCanonical, m[i].value) {
      assert a[i] in a;
      HostClone(a[i].value);
    }
    forall j | 0 <= j < |b| ensures HostValue(FoldCanonical, n[j].value) {
      assert b[j] in b;
      HostClone(b[j].value);
    }
    forall i, j | 0 <= i < |m| && 0 <= j < |n| && m[i].key == n[j].key
      ensures SameUpToOrder(FoldCanonical, m[i].value, n[j].value)
    {
      assert a[i] in a && b[j] in b;
      assert SameUpToOrder(FoldCanonical, a[i].value, b[j].value);
      AlikeClone(a[i].value, b[j].value);
    }
  }

  lemma {:induction false} HostClone(v: Value)
    requires HostValue(FoldCanonical, v)
    ensures HostValue(FoldCanonical, Clone(v))
    decreases v
  {
    match v
    case Arr(items) =>
      forall i | 0 <= i < |items| ensures HostValue(FoldCanonical, Clone(items[i])) {
        assert items[i] in items;
        HostClone(items[i]);
      }
    case Obj(entries) =>
      SameKeysDistinct(entries, Clone(v).entries);
      forall i | 0 <= i < |entries| ensures HostValue(FoldCanonical, Clone(entries[i].value)) {
        assert entries[i] in entries;
        HostClone(entries[i].value);
      }
    case _ =>
  }

  lemma AlikeCloneOf(a: Option<Value>, b: Option<Value>)
    requires Alike(a, b)
    ensures Alike(CloneOf(a), CloneOf(b))
  {
    hide HostValue, SameUpToOrder, Clone;
    if a.Some? { AlikeClone(a.value, b.value); }
  }

  lemma AlikeClonedVectors(x: Vector, y: Vector)
    requires AlikeVectors(x, y)
    ensures AlikeVectors(Cloned(x), Cloned(y))
  {
    hide Alike, CloneOf;
    AlikeCloneOf(x.sourceEntry, y.sourceEntry);
    AlikeCloneOf(x.policy, y.policy);
    AlikeCloneOf(x.comparabilityClass, y.comparabilityClass);
    AlikeCloneOf(x.rule, y.rule);
  }

  // Built values: the same keys in the same places, values with equal texts.

  predicate SameText(c: Context, v: Value, w: Value) {
    Serialize(FoldCanonical, c.format, v) == Serialize(FoldCanonical, c.format, w)
  }

  predicate SameEntryText(c: Context, e: Entry, e': Entry) { e.key == e'.key && SameText(c, e.value, e'.value) }

  predicate Parallel(c: Context, a: seq<Entry>, b: seq<Entry>) {
    |a| == |b| && forall i | 0 <= i < |a| :: SameEntryText(c, a[i], b[i])
  }

  lemma ConsParallel(c: Context, e: Entry, e': Entry, a: seq<Entry>, b: seq<Entry>)
    requires Parallel(c, a, b) && SameEntryText(c, e, e')
    ensures Parallel(c, [e] + a, [e'] + b)
  {
    hide SameEntryText;
  }

  lemma {:induction false} InsertParallel(c: Context, e: Entry, e': Entry, a: seq<Entry>, b: seq<Entry>)
    requires Parallel(c, a, b) && SameEntryText(c, e, e')
    ensures Parallel(c, Insert(e, a), Insert(e', b))
  {
    hide SameText, LexLess;
    ConsParallel(c, e, e', a, b);
    if a != [] {
      assert SameEntryText(c, a[0], b[0]);
      if LexLess(a[0].key, e.key) {
        InsertParallel(c, e, e', a[1..], b[1..]);
        ConsParallel(c, a[0], b[0], Insert(e, a[1..]), Insert(e', b[1..]));
      }
    }
    hide Parallel;
  }

  lemma {:induction false} SortParallel(c: Context, a: seq<Entry>, b: seq<Entry>)
    requires Parallel(c, a, b)
    ensures Parallel(c, Sort(a), Sort(b))
  {
    hide SameText, Insert;
    if a != [] {
      assert SameEntryText(c, a[0], b[0]);
      SortParallel(c, a[1..], b[1..]);
      InsertParallel(c, a[0], b[0], Sort(a[1..]), Sort(b[1..]));
    }
  }

  lemma {:induction false} KeyErrorParallel(c: Context, a: seq<Entry>, b: seq<Entry>, seen: set<JsString>)
    requires Parallel(c, a, b)
    ensures KeyError(FoldCanonical, a, seen) == KeyError(FoldCanonical, b, seen)
  {
    hide SameText;
    if a != [] {
      assert SameEntryText(c, a[0], b[0]);
      KeyErrorParallel(c, a[1..], b[1..], seen + {a[0].key});
    }
  }

  lemma SameObjectTexts(c: Context, a: seq<Entry>, b: seq<Entry>)
    requires Parallel(c, a, b)
    ensures SameText(c, Obj(a), Obj(b))
  {
    var m, n := Sort(a), Sort(b);
    SortParallel(c, a, b);
    KeyErrorParallel(c, a, b, {});
    SameElements(m, a);
    SameElements(n, b);
    hide Serialize, Sort, KeyError;
    assert forall i | 0 <= i < |m| :: SameEntryText(c, m[i], n[i]);
    EntriesAgree(FoldCanonical, c.format, Obj(a), m, Obj(b), n);
    SerializeObject(FoldCanonical, c.format, Obj(a), m);
    SerializeObject(FoldCanonical, c.format, Obj(b), n);
    hide SerializeEntries, Braced;
  }

  lemma SameArrayTexts(c: Context, v: Value, w: Value)
    requires SameText(c, v, w)
    ensures SameText(c, Arr([v]), Arr([w]))
  {
    assert SerializeItems(FoldCanonical, c.format, [v]) == SerializeItems(FoldCanonical, c.format, [w]);
  }

  lemma AlikeSameText(c: Context, v: Value, w: Value)
    requires Alike(Some(v), Some(w))
    ensures SameText(c, v, w)
  {
    hide Serialize, HostValue, SameUpToOrder;
    OrderNeverMatters(FoldCanonical, c.format, v, w);
  }

  lemma SameTextSameDigest(c: Context, v: Value, w: Value)
    requires SameText(c, v, w)
    ensures Canonical(c, Some(v)) == Canonical(c, Some(w)) && DigestOf(c, Some(v)) == DigestOf(c, Some(w))
  {
    hide Serialize, Sha256Text;
  }

  lemma OneDifference(c: Context, a: seq<Entry>, b: seq<Entry>, k: nat)
    requires k < |a| == |b| && a[..k] == b[..k] && a[k + 1..] == b[k + 1..]
    requires SameEntryText(c, a[k], b[k])
    ensures SameText(c, Obj(a), Obj(b))
  {
    forall i | 0 <= i < |a| ensures SameEntryText(c, a[i], b[i]) {
      if i < k {
        assert a[i] == a[..k][i] == b[..k][i];
      } else if i > k {
        assert a[i] == a[k + 1..][i - k - 1] == b[k + 1..][i - k - 1];
      }
    }
    hide SameEntryText;
    SameObjectTexts(c, a, b);
  }

  lemma StatementSchemaTexts(c: Context, schema: Value, schema': Value, ref: Value, k: Commitments)
    requires SameText(c, schema, schema')
    ensures SameText(c, Statement(schema, ref, k), Statement(schema', ref, k))
  {
    hide Js, Serialize;
    OneDifference(c, Statement(schema, ref, k).entries, Statement(schema', ref, k).entries, 1);
  }

  lemma StatementRefTexts(c: Context, schema: Value, ref: Value, ref': Value, k: Commitments)
    requires SameText(c, ref, ref')
    ensures SameText(c, Statement(schema, ref, k), Statement(schema, ref', k))
  {
    hide Js, Serialize;
    OneDifference(c, Statement(schema, ref, k).entries, Statement(schema, ref', k).entries, 2);
  }

  lemma StatementTexts(c: Context, schema: Value, schema': Value, ref: Value, ref': Value, k: Commitments)
    requires SameText(c, schema, schema') && SameText(c, ref, ref')
    ensures SameText(c, Statement(schema, ref, k), Statement(schema', ref', k))
  {
    hide Statement, Serialize;
    StatementSchemaTexts(c, schema, schema', ref, k);
    StatementRefTexts(c, schema', ref, ref', k);
  }

  lemma InclusionTexts(c: Context, ref: Value, ref': Value, k: Commitments)
    requires SameText(c, ref, ref')
    ensures SameText(c, Inclusion(ref, k), Inclusion(ref', k))
  {
    hide Serialize, Js;
    var m, n := Inclusion(ref, k).items[0], Inclusion(ref', k).items[0];
    SameObjectTexts(c, m.entries, n.entries);
    SameArrayTexts(c, m, n);
  }

  lemma DescriptorTexts(c: Context, schema: Value, schema': Value, k: Commitments)
    requires SameText(c, schema, schema')
    ensures SameText(c, Descriptor(schema, k), Descriptor(schema', k))
  {
    hide Js, Serialize;
    OneDifference(c, Descriptor(schema, k).entries, Descriptor(schema', k).entries, 1);
  }

  lemma BreakdownTexts(c: Context, ref: Value, ref': Value, k: Commitments, input: JsString, output: JsString)
    requires SameText(c, ref, ref')
    ensures SameText(c, Breakdown(ref, k, input, output), Breakdown(ref', k, input, output))
  {
    hide Js, Serialize;
    OneDifference(c, Breakdown(ref, k, input, output).entries, Breakdown(ref', k, input, output).entries, 1);
  }

  lemma SeedTexts(c: Context, ref: Value, ref': Value, k: Commitments, output: JsString, inclusion: JsString,
                  breakdown: JsString)
    requires SameText(c, ref, ref')
    ensures SameText(c, Seed(ref, k, output, inclusion, breakdown), Seed(ref', k, output, inclusion, breakdown))
  {
    hide Js, Serialize;
    OneDifference(c, Seed(ref, k, output, inclusion, breakdown).entries,
                  Seed(ref', k, output, inclusion, breakdown).entries, 3);
  }

  /** Two reconstructions that no comparison tells apart. */
  predicate AlikeExpected(c: Context, e: Expected, e': Expected) {
    && Alike(Some(e.ref), Some(e'.ref)) && e.commitments == e'.commitments
    && SameText(c, e.inputStatement, e'.inputStatement) && e.inputCommitment == e'.inputCommitment
    && SameText(c, e.outputStatement, e'.outputStatement) && e.outputCommitment == e'.outputCommitment
    && SameText(c, e.inclusion, e'.inclusion) && e.inclusionCommitment == e'.inclusionCommitment
    && SameText(c, e.breakdown, e'.breakdown) && e.breakdownCommitment == e'.breakdownCommitment
    && e.aggregateId == e'.aggregateId && e.sameClass == e'.sameClass && e.noPromotion == e'.noPromotion
  }

  lemma AlikeCommitments(c: Context, x: Vector, y: Vector)
    requires AlikeVectors(x, y)
    ensures ExpectCommitments(c, x) == ExpectCommitments(c, y)
  {
    hide Canonical, Alike, Sha256Text;
    AlikeCanonical(c, x.sourceEntry, y.sourceEntry);
    AlikeCanonical(c, x.policy, y.policy);
    AlikeCanonical(c, x.comparabilityClass, y.comparabilityClass);
    AlikeCanonical(c, x.rule, y.rule);
  }

  lemma AlikeSameClass(c: Context, schema: Value, schema': Value, k: Commitments, input: JsString, output: JsString)
    requires SameText(c, schema, schema')
    ensures SameClass(c, schema, k, input, output) == SameClass(c, schema', k, input, output)
  {
    hide Canonical, Descriptor, SameText;
    DescriptorTexts(c, schema, schema', k);
    SameTextSameDigest(c, Descriptor(schema, k), Descriptor(schema', k));
  }

  lemma AlikeLiterals(c: Context, x: Vector, y: Vector)
    requires AlikeVectors(x, y)
    ensures Literals(c, x) == Literals(c, y)
  {
    hide Canonical, Alike;
    AlikeCanonical(c, x.policy, y.policy);
    AlikeCanonical(c, x.comparabilityClass, y.comparabilityClass);
    AlikeCanonical(c, x.rule, y.rule);
  }

  lemma AlikeRebuild(c: Context, x: Vector, y: Vector, k: Commitments, ref: Value, ref': Value, schema: Value,
                     schema': Value)
    requires AlikeVectors(x, y) && Alike(Some(ref), Some(ref')) && Alike(Some(schema), Some(schema'))
    ensures var e, e' := Rebuild(c, x, k, ref, schema), Rebuild(c, y, k, ref', schema');
            e.Some? == e'.Some? && (e.Some? ==> AlikeExpected(c, e.value, e'.value))
  {
    hide Alike, AlikeVectors, SameText, DigestOf, Statement, Inclusion, Breakdown, Seed, SameClass, Literals;
    AlikeSameText(c, ref, ref');
    AlikeSameText(c, schema, schema');
    StatementTexts(c, ENTRY_SCHEMA, ENTRY_SCHEMA, ref, ref', k) by { SameTextReflexive(c, ENTRY_SCHEMA); }
    StatementTexts(c, schema, schema', ref, ref', k);
    InclusionTexts(c, ref, ref', k);
    SameTextSameDigest(c, Statement(ENTRY_SCHEMA, ref, k), Statement(ENTRY_SCHEMA, ref', k));
    SameTextSameDigest(c, Statement(schema, ref, k), Statement(schema', ref', k));
    SameTextSameDigest(c, Inclusion(ref, k), Inclusion(ref', k));
    var input := DigestOf(c, Some(Statement(ENTRY_SCHEMA, ref, k)));
    var inclusion := DigestOf(c, Some(Inclusion(ref, k)));
    var output := DigestOf(c, Some(Statement(schema, ref, k)));
    if input.Some? && inclusion.Some? && output.Some? {
      BreakdownTexts(c, ref, ref', k, input.value, output.value);
      SameTextSameDigest(c, Breakdown(ref, k, input.value, output.value),
                         Breakdown(ref', k, input.value, output.value));
      AlikeSameClass(c, schema, schema', k, input.value, output.value);
      AlikeLiterals(c, x, y);
      var breakdown := DigestOf(c, Some(Breakdown(ref, k, input.value, output.value)));
      if breakdown.Some? {
        SeedTexts(c, ref, ref', k, output.value, inclusion.value, breakdown.value);
        SameTextSameDigest(c, Seed(ref, k, output.value, inclusion.value, breakdown.value),
                           Seed(ref', k, output.value, inclusion.value, breakdown.value));
      }
    }
  }

  lemma SameTextReflexive(c: Context, v: Value)
    ensures SameText(c, v, v)
  {
  }

  lemma AlikeReconstructFrom(c: Context, x: Vector, y: Vector)
    requires AlikeVectors(x, y)
    ensures ReconstructFrom(c, x).Some? == ReconstructFrom(c, y).Some?
    ensures ReconstructFrom(c, x).Some? ==> AlikeExpected(c, ReconstructFrom(c, x).value, ReconstructFrom(c, y).value)
  {
    hide Field, ExpectCommitments, Rebuild, AlikeExpected, HostValue, SameUpToOrder, Js;
    AlikeCommitments(c, x, y);
    var id, schema := Js("entry_id"), Js("schema");
    AlikeField(x.sourceEntry, y.sourceEntry, id);
    AlikeField(x.sourceEntry, y.sourceEntry, schema);
    if ReconstructFrom(c, x).Some? || ReconstructFrom(c, y).Some? {
      AlikeRebuild(c, x, y, ExpectCommitments(c, x).value,
                   Field(x.sourceEntry, id).value, Field(y.sourceEntry, id).value,
                   Field(x.sourceEntry, schema).value, Field(y.sourceEntry, schema).value);
    }
  }

  lemma AlikeReconstruct(c: Context, x: Vector, y: Vector)
    requires AlikeVectors(x, y)
    ensures Reconstruct(c, x).Some? == Reconstruct(c, y).Some?
    ensures Reconstruct(c, x).Some? ==> AlikeExpected(c, Reconstruct(c, x).value, Reconstruct(c, y).value)
  {
    hide ReconstructFrom, Cloned, AlikeVectors, AlikeExpected;
    AlikeClonedVectors(x, y);
    AlikeReconstructFrom(c, Cloned(x), Cloned(y));
  }

  // The checks.

  predicate Corresponds(c: Context, how: Comparison, a: Option<Value>, b: Option<Value>) {
    if how == ByCanonicalOctets then Canonical(c, a) == Canonical(c, b) else Alike(a, b)
  }

  lemma ExpectedFieldCorresponds(c: Context, x: Vector, y: Vector, e: Expected, e': Expected, name: FieldName)
    requires AlikeVectors(x, y) && AlikeExpected(c, e, e')
    ensures Corresponds(c, ComparisonOf(name), ExpectedField(e, x, name), ExpectedField(e', y, name))
  {
    hide Serialize, Js, CloneOf;
    AlikeClonedVectors(x, y);
    AlikeCanonical(c, CloneOf(x.policy), CloneOf(y.policy));
    AlikeCanonical(c, CloneOf(x.comparabilityClass), CloneOf(y.comparabilityClass));
    AlikeCanonical(c, CloneOf(x.rule), CloneOf(y.rule));
  }

  lemma CompareAlike(c: Context, how: Comparison, a: Option<Value>, b: Option<Value>, p: Option<Value>,
                     q: Option<Value>)
    requires Alike(a, b) && Corresponds(c, how, p, q)
    ensures Compare(c, how, a, p) == Compare(c, how, b, q)
  {
    hide Canonical, Alike, StrictEqual;
    AlikeCanonical(c, a, b);
    if how != ByCanonicalOctets { AlikeStrictly(a, b, p, q); }
  }

  lemma CompareFieldAlike(c: Context, x: Vector, y: Vector, e: Expected, e': Expected, name: FieldName)
    requires AlikeVectors(x, y) && AlikeExpected(c, e, e')
    ensures CompareField(c, x, e, Candidate(x), name) == CompareField(c, y, e', Candidate(y), name)
  {
    hide AlikeExpected, Alike, Field, Compare, ComparisonOf, ExpectedField, Corresponds, Key, Js;
    AlikeField(x.stage, y.stage, Js(CANDIDATE));
    AlikeField(Candidate(x), Candidate(y), Key(name));
    ExpectedFieldCorresponds(c, x, y, e, e', name);
    CompareAlike(c, ComparisonOf(name), Field(Candidate(x), Key(name)), Field(Candidate(y), Key(name)),
                 ExpectedField(e, x, name), ExpectedField(e', y, name));
  }

  lemma OwnCommitmentAlike(c: Context, a: Option<Value>, b: Option<Value>)
    requires Alike(a, b)
    ensures OwnCommitment(c, a) == OwnCommitment(c, b)
  {
    hide Alike, Canonical, StrictEqual, Field, Sha256Text;
    var statement, claim := Key(SemanticStatement), Key(SemanticResultCommitment);
    AlikeField(a, b, statement);
    AlikeField(a, b, claim);
    AlikeCanonical(c, Field(a, statement), Field(b, statement));
    var own := DigestOf(c, Field(a, statement));
    if own.Some? { AlikeText(Field(a, claim), Field(b, claim), Str(own.value)); }
  }

  /** Checks 18, 19, 22 and 24, and those that compare one given text with one built text. */
  lemma ScalarChecksAlike(c: Context, x: Vector, y: Vector, e: Expected, e': Expected)
    requires AlikeVectors(x, y) && AlikeExpected(c, e, e')
    ensures var p, q := Candidate(x), Candidate(y);
            var f, g := Field(p, Key(CanonicalInclusionSet)), Field(q, Key(CanonicalInclusionSet));
            && Sole(f).Some? == Sole(g).Some?
            && StrictEqual(Field(Sole(f), Js("member_ref")), Some(e.ref))
              == StrictEqual(Field(Sole(g), Js("member_ref")), Some(e'.ref))
            && Reuses(x, e) == Reuses(y, e')
  {
    hide SameText, StrictEqual, Field, HostValue, SameUpToOrder, Key, Js, Sole;
    var p, q, key, member := Candidate(x), Candidate(y), Key(CanonicalInclusionSet), Js("member_ref");
    AlikeField(x.stage, y.stage, Js(CANDIDATE));
    AlikeField(p, q, key);
    AlikeField(p, q, Key(AggregateId));
    AlikeSole(Field(p, key), Field(q, key));
    AlikeField(Sole(Field(p, key)), Sole(Field(q, key)), member);
    AlikeStrictly(Field(Sole(Field(p, key)), member), Field(Sole(Field(q, key)), member), Some(e.ref), Some(e'.ref));
    AlikeStrictly(Field(p, Key(AggregateId)), Field(q, Key(AggregateId)), Some(e.ref), Some(e'.ref));
  }

  lemma TextChecksAlike(c: Context, x: Vector, y: Vector, e: Expected, e': Expected)
    requires AlikeVectors(x, y) && AlikeExpected(c, e, e')
    ensures EqualCanonical(c, Field(x.stage, Js(CLAIMED_STATEMENT)), Some(e.inputStatement))
         == EqualCanonical(c, Field(y.stage, Js(CLAIMED_STATEMENT)), Some(e'.inputStatement))
    ensures StrictEqual(Field(x.stage, Js(CLAIMED_COMMITMENT)), Some(Str(e.inputCommitment)))
         == StrictEqual(Field(y.stage, Js(CLAIMED_COMMITMENT)), Some(Str(e'.inputCommitment)))
  {
    hide SameText, StrictEqual, Field, Alike, Js, Canonical;
    AlikeField(x.stage, y.stage, Js(CLAIMED_STATEMENT));
    AlikeField(x.stage, y.stage, Js(CLAIMED_COMMITMENT));
    AlikeCanonical(c, Field(x.stage, Js(CLAIMED_STATEMENT)), Field(y.stage, Js(CLAIMED_STATEMENT)));
    SameTextSameDigest(c, e.inputStatement, e'.inputStatement);
    AlikeText(Field(x.stage, Js(CLAIMED_COMMITMENT)), Field(y.stage, Js(CLAIMED_COMMITMENT)), Str(e.inputCommitment));
  }

  lemma CandidateChecksAlike(c: Context, x: Vector, y: Vector, e: Expected, e': Expected)
    requires AlikeVectors(x, y) && AlikeExpected(c, e, e')
    ensures var p, q := Candidate(x), Candidate(y);
            && OwnCommitment(c, p) == OwnCommitment(c, q)
            && StrictEqual(Field(p, Key(SemanticResultCommitment)), Some(Str(e.inputCommitment)))
            == StrictEqual(Field(q, Key(SemanticResultCommitment)), Some(Str(e'.inputCommitment)))
  {
    hide SameText, StrictEqual, Field, Alike, Js, Key, OwnCommitment;
    var p, q := Candidate(x), Candidate(y);
    AlikeField(x.stage, y.stage, Js(CANDIDATE));
    AlikeField(p, q, Key(SemanticResultCommitment));
    OwnCommitmentAlike(c, p, q);
    AlikeText(Field(p, Key(SemanticResultCommitment)), Field(q, Key(SemanticResultCommitment)), Str(e.inputCommitment));
  }

  lemma FlagCheckAlike(c: Context, x: Vector, y: Vector, e: Expected, e': Expected)
    requires AlikeVectors(x, y) && AlikeExpected(c, e, e') && Reuses(x, e) == Reuses(y, e')
    ensures FlagCheck(c, x, e) == FlagCheck(c, y, e')
  {
    hide SameText, StrictEqual, Field, Alike, Js, Key, Literals, Reuses;
    var flag := Key(NoStrongerSemanticClassCreated);
    AlikeLiterals(c, x, y);
    AlikeField(x.stage, y.stage, Js(CANDIDATE));
    AlikeField(Candidate(x), Candidate(y), flag);
    AlikeText(Field(Candidate(x), flag), Field(Candidate(y), flag), Bool(true));
    AlikeText(Field(Candidate(x), flag), Field(Candidate(y), flag), Bool(false));
  }

  lemma AgainstFreshAlike(c: Context, x: Vector, y: Vector, a: Option<Value>, b: Option<Value>)
    requires AlikeVectors(x, y) && Alike(a, b)
    ensures AgainstFresh(c, x, a) == AgainstFresh(c, y, b)
  {
    hide StrictEqual, Alike, Canonical, Sha256Text;
    AlikeCanonical(c, x.sourceEntry, y.sourceEntry);
    var recomputed := DigestOf(c, x.sourceEntry);
    if recomputed.Some? { AlikeText(a, b, Str(recomputed.value)); }
  }

  lemma FreshChecksAlike(c: Context, x: Vector, y: Vector)
    requires AlikeVectors(x, y)
    ensures AgainstFresh(c, x, x.carriedCommitment) == AgainstFresh(c, y, y.carriedCommitment)
    ensures AgainstFresh(c, x, Field(Candidate(x), Key(SourceEntryContentCommitment)))
         == AgainstFresh(c, y, Field(Candidate(y), Key(SourceEntryContentCommitment)))
  {
    hide Alike, AgainstFresh, Field, Js, Key;
    AgainstFreshAlike(c, x, y, x.carriedCommitment, y.carriedCommitment);
    AlikeField(x.stage, y.stage, Js(CANDIDATE));
    var key := Key(SourceEntryContentCommitment);
    AlikeField(Candidate(x), Candidate(y), key);
    AgainstFreshAlike(c, x, y, Field(Candidate(x), key), Field(Candidate(y), key));
  }

  lemma NamedStepsAlike(c: Context, x: Vector, y: Vector, e: Expected, e': Expected)
    requires AlikeVectors(x, y) && AlikeExpected(c, e, e')
    ensures NamedSteps(c, x, e) == NamedSteps(c, y, e')
  {
    hide AlikeVectors, SameText, StrictEqual, Field, Alike, Js, Key, OwnCommitment, EqualCanonical, CompareField;
    hide Candidate, Sole, FlagCheck, AgainstFresh, Reuses;
    ScalarChecksAlike(c, x, y, e, e');
    TextChecksAlike(c, x, y, e, e');
    CandidateChecksAlike(c, x, y, e, e');
    FlagCheckAlike(c, x, y, e, e');
    FreshChecksAlike(c, x, y);
    CompareFieldAlike(c, x, y, e, e', CanonicalInclusionSet);
    CompareFieldAlike(c, x, y, e, e', InclusionSetCommitment);
    CompareFieldAlike(c, x, y, e, e', SemanticStatement);
    CompareFieldAlike(c, x, y, e, e', TransitionResult);
    CompareFieldAlike(c, x, y, e, e', PreAggregationBreakdown);
    CompareFieldAlike(c, x, y, e, e', PreAggregationBreakdownCommitment);
    CompareFieldAlike(c, x, y, e, e', AggregateId);
  }

  lemma RemainingStepsAlike(c: Context, x: Vector, y: Vector, e: Expected, e': Expected, remaining: seq<FieldName>)
    requires AlikeVectors(x, y) && AlikeExpected(c, e, e')
    ensures RemainingSteps(c, x, e, remaining) == RemainingSteps(c, y, e', remaining)
  {
    hide AlikeVectors, AlikeExpected, CompareField, Candidate;
    forall i | 0 <= i < |remaining|
      ensures RemainingSteps(c, x, e, remaining)[i] == RemainingSteps(c, y, e', remaining)[i]
    {
      CompareFieldAlike(c, x, y, e, e', remaining[i]);
    }
  }

  /** Reordering the keys of any object in any input, at any depth, leaves the
      outcome as it is: the same acceptance, the same code and position of a
      rejection, the same refusal to evaluate. */
  lemma KeyOrderNeverMatters(c: Context, x: Vector, y: Vector, remaining: seq<FieldName>)
    requires AlikeVectors(x, y)
    ensures Evaluate(c, x, remaining) == Evaluate(c, y, remaining)
  {
    hide Alike, StageWellFormed, Reconstruct, NamedSteps, RemainingSteps, First, AlikeExpected;
    AlikeStages(x.stage, y.stage);
    AlikeReconstruct(c, x, y);
    if Reconstruct(c, x).Some? {
      NamedStepsAlike(c, x, y, Reconstruct(c, x).value, Reconstruct(c, y).value);
      RemainingStepsAlike(c, x, y, Reconstruct(c, x).value, Reconstruct(c, y).value, remaining);
    }
  }
}
