/** What an accepted Object A holds, read back by its keys. */
module ObjectAContents {
  import opened Common
  import opened JsonValue
  import opened JsonNumbers
  import opened JsonEncoder
  import opened JsonCanonical
  import opened JsonTheorems
  import opened EncodedBytes
  import opened CanonicalAcceptor
  import opened ObjectA
  import opened FoldValues

  // Fields of values that are the same up to the order of entries.

  lemma SameFields(d: Dialect, v: Value, w: Value, key: JsString)
    requires v.Obj? && w.Obj? && SameUpToOrder(d, v, w)
    ensures Field(Some(v), key).Some? <==> Field(Some(w), key).Some?
    ensures Field(Some(v), key).Some? ==> SameUpToOrder(d, Field(Some(v), key).value, Field(Some(w), key).value)
  {
    hide Lookup;
    LookupFinds(v.entries, key);
    LookupFinds(w.entries, key);
    if Field(Some(v), key).Some? {
      var i :| 0 <= i < |v.entries| && v.entries[i] == Entry(key, Lookup(v.entries, key).value);
      var j :| 0 <= j < |w.entries| && w.entries[j] == Entry(key, Lookup(w.entries, key).value);
      assert SameUpToOrder(d, v.entries[i].value, w.entries[j].value);
    }
  }

  // What stands where.

  /** An object with these fields, all text, and no others. */
  predicate HoldsInvariant(v: Option<Value>, row: Invariant) {
    && v.Some? && v.value.Obj?
    && KeySet(v.value.entries) == {Js("invariant_id"), Js("normative_definition"), Js("normative_definition_identity")}
    && Field(v, Js("invariant_id")) == Some(Str(row.invariantId))
    && Field(v, Js("normative_definition")) == Some(Str(row.definition))
    && Field(v, Js("normative_definition_identity")) == Some(Str(row.identity))
  }

  /** An object with the mutant's id, its baseline and its mutated fields, and no others. */
  predicate HoldsCase(v: Option<Value>, row: Case) {
    && v.Some? && v.value.Obj? && KeySet(v.value.entries) == {Js("mutant_id"), Js("baseline"), Js("mutated")}
    && Field(v, Js("mutant_id")) == Some(Str(row.mutantId))
    && SameAs(Field(v, Js("baseline")), Obj(row.baseline))
    && SameAs(Field(v, Js("mutated")), Obj(row.mutated))
  }

  /** The value, up to the order of entries. */
  predicate SameAs(v: Option<Value>, w: Value) { v.Some? && SameUpToOrder(EncoderV0, v.value, w) }

  function InvariantIds(a: Artifact): set<JsString> { set i | 0 <= i < |a.invariants| :: a.invariants[i].0 }

  function CaseIds(a: Artifact): set<JsString> { set i | 0 <= i < |a.cases| :: a.cases[i].0 }

  /** Exactly the invariants of the artifact, each under its own id. */
  predicate HoldsInvariants(v: Option<Value>, a: Artifact) {
    && v.Some? && v.value.Obj? && KeySet(v.value.entries) == InvariantIds(a)
    && forall i | 0 <= i < |a.invariants| :: HoldsInvariant(Field(v, a.invariants[i].0), a.invariants[i].1)
  }

  /** Exactly the cases of the artifact, each under its own id. */
  predicate HoldsCases(v: Option<Value>, a: Artifact) {
    && v.Some? && v.value.Obj? && KeySet(v.value.entries) == CaseIds(a)
    && forall i | 0 <= i < |a.cases| :: HoldsCase(Field(v, a.cases[i].0), a.cases[i].1)
  }

  /** The five fields of Object A, each with what the artifact has of it. */
  predicate HoldsArtifact(v: Value, a: Artifact) {
    && v.Obj?
    && KeySet(v.entries)
       == {Js("schema"), Js("instance_id"), Js("evaluation_instruction"), Js("invariants"), Js("cases")}
    && Field(Some(v), Js("schema")) == Some(Str(Js("tsei-invariant-discrimination-v1.blind-problem.v1")))
    && Field(Some(v), Js("instance_id")) == Some(Str(a.instanceId))
    && Field(Some(v), Js("evaluation_instruction")) == Some(Str(Js(EVALUATION_INSTRUCTION)))
    && HoldsInvariants(Field(Some(v), Js("invariants")), a)
    && HoldsCases(Field(Some(v), Js("cases")), a)
  }

  // Any value that is Object A up to the order of entries.

  lemma TextField(v: Value, w: Value, key: JsString, text: JsString)
    requires v.Obj? && w.Obj? && SameUpToOrder(EncoderV0, v, w) && Field(Some(w), key) == Some(Str(text))
    ensures Field(Some(v), key) == Some(Str(text))
  {
    hide Field;
    SameFields(EncoderV0, v, w, key);
  }

  lemma SameObject(v: Value, w: Value)
    requires SameUpToOrder(EncoderV0, v, w) && w.Obj?
    ensures v.Obj? && KeySet(v.entries) == KeySet(w.entries)
  {
  }

  lemma InvariantHolds(v: Value, row: Invariant)
    requires SameUpToOrder(EncoderV0, v, InvariantValue(row))
    ensures HoldsInvariant(Some(v), row)
  {
    var w := InvariantValue(row);
    var entries := w.entries;
    assert |Js("invariant_id")| == 12 && |Js("normative_definition")| == 20
        && |Js("normative_definition_identity")| == 29;
    hide Js, SameUpToOrder, Lookup, KeySet;
    SameObject(v, w);
    DistinctByLength(entries);
    LookupAt(entries, 0);
    LookupAt(entries, 1);
    LookupAt(entries, 2);
    TextField(v, w, Js("invariant_id"), row.invariantId);
    TextField(v, w, Js("normative_definition"), row.definition);
    TextField(v, w, Js("normative_definition_identity"), row.identity);
    ThreeKeys(entries);
  }

  lemma ThreeKeys(entries: seq<Entry>)
    requires |entries| == 3
    ensures KeySet(entries) == {entries[0].key, entries[1].key, entries[2].key}
  {
    forall key ensures key in KeySet(entries) <==> key in {entries[0].key, entries[1].key, entries[2].key} {
      KeySetMember(entries, key);
      assert entries[0] in entries && entries[1] in entries && entries[2] in entries;
    }
  }

  lemma CaseHolds(v: Value, row: Case)
    requires SameUpToOrder(EncoderV0, v, CaseValue(row))
    ensures HoldsCase(Some(v), row)
  {
    var w := CaseValue(row);
    var entries := w.entries;
    assert |Js("mutant_id")| == 9 && |Js("baseline")| == 8 && |Js("mutated")| == 7;
    hide Js, SameUpToOrder, Lookup, KeySet;
    SameObject(v, w);
    DistinctByLength(entries);
    LookupAt(entries, 0);
    LookupAt(entries, 1);
    LookupAt(entries, 2);
    TextField(v, w, Js("mutant_id"), row.mutantId);
    SameFields(EncoderV0, v, w, Js("baseline"));
    SameFields(EncoderV0, v, w, Js("mutated"));
    ThreeKeys(entries);
  }

  lemma InvariantsHold(v: Value, a: Artifact)
    requires SameUpToOrder(EncoderV0, v, InvariantsValue(a)) && DistinctKeys(InvariantsValue(a).entries)
    ensures HoldsInvariants(Some(v), a)
  {
    var w := InvariantsValue(a);
    hide SameUpToOrder, Lookup, KeySet, InvariantValue, HoldsInvariant, DistinctKeys;
    SameObject(v, w);
    forall key ensures key in KeySet(w.entries) <==> key in InvariantIds(a) {
      KeySetMember(w.entries, key);
      if key in InvariantIds(a) {
        var i :| 0 <= i < |a.invariants| && a.invariants[i].0 == key;
        assert w.entries[i] in w.entries;
      }
    }
    forall i | 0 <= i < |a.invariants| ensures HoldsInvariant(Field(Some(v), a.invariants[i].0), a.invariants[i].1) {
      LookupAt(w.entries, i);
      SameFields(EncoderV0, v, w, a.invariants[i].0);
      InvariantHolds(Field(Some(v), a.invariants[i].0).value, a.invariants[i].1);
    }
  }

  lemma CasesHold(v: Value, a: Artifact)
    requires SameUpToOrder(EncoderV0, v, CasesValue(a)) && DistinctKeys(CasesValue(a).entries)
    ensures HoldsCases(Some(v), a)
  {
    var w := CasesValue(a);
    hide SameUpToOrder, Lookup, KeySet, CaseValue, HoldsCase, DistinctKeys;
    SameObject(v, w);
    forall key ensures key in KeySet(w.entries) <==> key in CaseIds(a) {
      KeySetMember(w.entries, key);
      if key in CaseIds(a) {
        var i :| 0 <= i < |a.cases| && a.cases[i].0 == key;
        assert w.entries[i] in w.entries;
      }
    }
    forall i | 0 <= i < |a.cases| ensures HoldsCase(Field(Some(v), a.cases[i].0), a.cases[i].1) {
      LookupAt(w.entries, i);
      SameFields(EncoderV0, v, w, a.cases[i].0);
      CaseHolds(Field(Some(v), a.cases[i].0).value, a.cases[i].1);
    }
  }

  lemma ArtifactHolds(v: Value, a: Artifact)
    requires SameUpToOrder(EncoderV0, v, ObjectAValue(a))
    requires DistinctKeys(InvariantsValue(a).entries) && DistinctKeys(CasesValue(a).entries)
    ensures HoldsArtifact(v, a)
  {
    var w := ObjectAValue(a);
    ObjectAKeys(a);
    var entries := w.entries;
    hide Js, SameUpToOrder, Lookup, KeySet, InvariantsValue, CasesValue, HoldsInvariants, HoldsCases, DistinctKeys;
    SameObject(v, w);
    LookupAt(entries, 0);
    LookupAt(entries, 1);
    LookupAt(entries, 2);
    LookupAt(entries, 3);
    LookupAt(entries, 4);
    TextField(v, w, Js("schema"), entries[0].value.s);
    TextField(v, w, Js("instance_id"), a.instanceId);
    TextField(v, w, Js("evaluation_instruction"), entries[2].value.s);
    SameFields(EncoderV0, v, w, Js("invariants"));
    SameFields(EncoderV0, v, w, Js("cases"));
    InvariantsHold(Field(Some(v), Js("invariants")).value, a);
    CasesHold(Field(Some(v), Js("cases")).value, a);
  }

  // Accepted octets.

  lemma EncodedAlike(f: NumberFormat, v: Value, w: Value, bytes: Bytes)
    requires Faithful(f) && EncodeBytes(f, v) == Ok(bytes) && EncodeBytes(f, w) == Ok(bytes)
    ensures SameUpToOrder(EncoderV0, v, w)
  {
    hide SameUpToOrder, Faithful;
    EncodingBinds(f, v, w);
  }

  /** The value parsed from accepted octets holds what the intended artifact holds:
      its instance id, and exactly its invariants and its cases, each row under
      its own id with its own fields, beside the two constants. */
  lemma AcceptedHoldsArtifact(f: NumberFormat, a: Artifact, bytes: Bytes)
    requires Faithful(f) && Accepted(f, a) && AcceptObjectA(f, bytes, Some(a)).Ok?
    ensures Verdict(f, "object_a_bytes", bytes).Ok?
    ensures HoldsArtifact(Verdict(f, "object_a_bytes", bytes).value, a)
  {
    hide ObjectAValue, IntendedValue, InvariantsValue, CasesValue, Serialize, Encodable, Verdict, Faithful, Normal;
    hide Print, KeySet, SameUpToOrder, HoldsArtifact, DistinctKeys;
    OneObjectAPerArtifact(f, a, bytes);
    SerializeIsPrint(EncoderV0, f, IntendedValue(a));
    IntendedParts(a);
    PartsDistinct(a);
    AcceptsExactlyTheImage(f, "object_a_bytes", bytes);
    EncodedAlike(f, Verdict(f, "object_a_bytes", bytes).value, ObjectAValue(a), bytes);
    ArtifactHolds(Verdict(f, "object_a_bytes", bytes).value, a);
  }

  /** The intended artifact's own octets hold the same three parts. */
  lemma IntendedHoldsArtifact(f: NumberFormat, a: Artifact, bytes: Bytes)
    requires Faithful(f) && EncodeBytes(f, IntendedValue(a)) == Ok(bytes)
    ensures Verdict(f, "intended_bytes", bytes).Ok?
    ensures HoldsIntended(Verdict(f, "intended_bytes", bytes).value, a)
  {
    hide IntendedValue, InvariantsValue, CasesValue, Serialize, Encodable, Verdict, Faithful, Normal, Print;
    hide KeySet, SameUpToOrder, HoldsIntended, DistinctKeys;
    SerializeIsPrint(EncoderV0, f, IntendedValue(a));
    IntendedParts(a);
    PartsDistinct(a);
    AcceptsExactlyTheImage(f, "intended_bytes", bytes);
    EncodedAlike(f, Verdict(f, "intended_bytes", bytes).value, IntendedValue(a), bytes);
    IntendedHolds(Verdict(f, "intended_bytes", bytes).value, a);
  }

  /** Schema, frozen digests, instance id, invariants and cases of the artifact. */
  predicate HoldsIntended(v: Value, a: Artifact) {
    && v.Obj?
    && Field(Some(v), Js("schema")) == Some(Str(Js("tsei-invariant-discrimination-v1.intended-faithfulness.v1")))
    && Field(Some(v), Js("instance_id")) == Some(Str(a.instanceId))
    && Field(Some(v), Js("protocol_sha256")) == Some(Str(Js(PROTOCOL_SHA256)))
    && Field(Some(v), Js("provider_policy_sha256")) == Some(Str(Js(PROVIDER_POLICY_SHA256)))
    && HoldsInvariants(Field(Some(v), Js("invariants")), a)
    && HoldsCases(Field(Some(v), Js("cases")), a)
  }

  lemma IntendedHolds(v: Value, a: Artifact)
    requires SameUpToOrder(EncoderV0, v, IntendedValue(a)) && Encodable(EncoderV0, IntendedValue(a))
    requires DistinctKeys(InvariantsValue(a).entries) && DistinctKeys(CasesValue(a).entries)
    ensures HoldsIntended(v, a)
  {
    var w := IntendedValue(a);
    var entries := w.entries;
    assert DistinctKeys(entries);
    hide Js, SameUpToOrder, Lookup, KeySet, InvariantsValue, CasesValue, HoldsInvariants, HoldsCases, DistinctKeys;
    hide Encodable;
    SameObject(v, w);
    LookupAt(entries, 0);
    LookupAt(entries, 1);
    LookupAt(entries, 2);
    LookupAt(entries, 3);
    LookupAt(entries, 4);
    LookupAt(entries, 5);
    TextField(v, w, Js("schema"), entries[0].value.s);
    TextField(v, w, Js("instance_id"), a.instanceId);
    TextField(v, w, Js("protocol_sha256"), entries[2].value.s);
    TextField(v, w, Js("provider_policy_sha256"), entries[3].value.s);
    SameFields(EncoderV0, v, w, Js("invariants"));
    SameFields(EncoderV0, v, w, Js("cases"));
    InvariantsHold(Field(Some(v), Js("invariants")).value, a);
    CasesHold(Field(Some(v), Js("cases")).value, a);
  }

  lemma PartsDistinct(a: Artifact)
    requires Encodable(EncoderV0, InvariantsValue(a)) && Encodable(EncoderV0, CasesValue(a))
    ensures DistinctKeys(InvariantsValue(a).entries) && DistinctKeys(CasesValue(a).entries)
  {
  }
}
