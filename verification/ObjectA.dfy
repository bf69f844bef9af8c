/** Object A: derived from an accepted intended artifact and accepted as one
    exact byte string. */
module ObjectA {
  import opened Common
  import opened Utf16
  import opened JsonValue
  import opened JsonNumbers
  import opened JsonEncoder
  import opened JsonCanonical
  import opened JsonTheorems
  import opened EncodedBytes
  import opened CanonicalAcceptor

  /** An ASCII literal as code units. */
  function Js(s: string): (r: JsString)
    ensures |r| == |s| && WellFormed(r)
  {
    var r := seq(|s|, i requires 0 <= i < |s| => var u: CodeUnit := (s[i] as int) % 0x80; u);
    r
  }

  predicate IsAscii(s: JsString) { forall u | u in s :: u < 0x80 }

  lemma JsIsAscii(s: string)
    ensures IsAscii(Js(s))
  {
  }

  datatype Invariant = Invariant(invariantId: JsString, definition: JsString, identity: JsString)

  /** `baseline` and `mutated` are the fields of the concrete values. */
  datatype Case = Case(mutantId: JsString, baseline: seq<Entry>, mutated: seq<Entry>)

  datatype Artifact = Artifact(
    instanceId: JsString,
    invariants: seq<(JsString, Invariant)>,
    cases: seq<(JsString, Case)>)

  const INTENDED_SCHEMA := "tsei-invariant-discrimination-v1.intended-faithfulness.v1"
  const BLIND_PROBLEM_SCHEMA := "tsei-invariant-discrimination-v1.blind-problem.v1"
  const PROTOCOL_SHA256 := "3150b5ae09d9b14d706cb64473de63917804e002bd79b5f60473927460b454d0"
  const PROVIDER_POLICY_SHA256 := "744d024586c983f8bb6c1dd10209aeb0354b65a5121af0ef6580ea2fd8aa8e56"
  const EVALUATION_INSTRUCTION := 
    "For each case, determine the exact set of declared invariants violated by the mutated value, "
    + "using only the invariant definitions and case data contained in Object A."

  function InvariantValue(row: Invariant): Value {
    Obj([Entry(Js("invariant_id"), Str(row.invariantId)),
         Entry(Js("normative_definition"), Str(row.definition)),
         Entry(Js("normative_definition_identity"), Str(row.identity))])
  }

  function CaseValue(row: Case): Value {
    Obj([Entry(Js("mutant_id"), Str(row.mutantId)),
         Entry(Js("baseline"), Obj(row.baseline)),
         Entry(Js("mutated"), Obj(row.mutated))])
  }

  function InvariantsValue(a: Artifact): Value {
    Obj(seq(|a.invariants|, i requires 0 <= i < |a.invariants| =>
          Entry(a.invariants[i].0, InvariantValue(a.invariants[i].1))))
  }

  function CasesValue(a: Artifact): Value {
    Obj(seq(|a.cases|, i requires 0 <= i < |a.cases| => Entry(a.cases[i].0, CaseValue(a.cases[i].1))))
  }

  /** The intended-faithfulness artifact as it is encoded. */
  function IntendedValue(a: Artifact): Value {
    Obj([Entry(Js("schema"), Str(Js(INTENDED_SCHEMA))),
         Entry(Js("instance_id"), Str(a.instanceId)),
         Entry(Js("protocol_sha256"), Str(Js(PROTOCOL_SHA256))),
         Entry(Js("provider_policy_sha256"), Str(Js(PROVIDER_POLICY_SHA256))),
         Entry(Js("invariants"), InvariantsValue(a)),
         Entry(Js("cases"), CasesValue(a))])
  }

  /** The artifact that `materializeObjectAV1` builds. */
  function ObjectAValue(a: Artifact): (v: Value)
    ensures v.Obj?
  {
    Obj([Entry(Js("schema"), Str(Js(BLIND_PROBLEM_SCHEMA))),
         Entry(Js("instance_id"), Str(a.instanceId)),
         Entry(Js("evaluation_instruction"), Str(Js(EVALUATION_INSTRUCTION))),
         Entry(Js("invariants"), InvariantsValue(a)),
         Entry(Js("cases"), CasesValue(a))])
  }

  const OBJECT_A_KEYS: set<JsString> :=
    {Js("schema"), Js("instance_id"), Js("evaluation_instruction"), Js("invariants"), Js("cases")}

  /** `acceptIntendedFaithfulnessV1FromBytes` accepts nothing it cannot re-encode. */
  predicate Accepted(f: NumberFormat, a: Artifact) { EncodeBytes(f, IntendedValue(a)).Ok? }

  /** `acceptObjectAV1FromBytes`, given the intended artifact or its absence:
      the accepted octets, or the reasons for refusal. */
  function AcceptObjectA(f: NumberFormat, bytes: Bytes, intended: Option<Artifact>): Result<Bytes, Reasons> {
    if intended.None? then Err(["intended_not_accepted"])
    else
      match Verdict(f, "object_a_bytes", bytes)
      case Err(reasons) => Err(reasons)
      case Ok(parsed) =>
        if !parsed.Obj? || KeySet(parsed.entries) != OBJECT_A_KEYS then Err(["object_a_shape_mismatch"])
        else
          match EncodeBytes(f, ObjectAValue(intended.value))
          case Err(_) => Err(["malformed_object_a_input"])
          case Ok(materialized) => if materialized != bytes then Err(["object_a_not_faithful"]) else Ok(materialized)
  }

  lemma IntendedParts(a: Artifact)
    requires Encodable(EncoderV0, IntendedValue(a))
    ensures WellFormed(a.instanceId) && Encodable(EncoderV0, InvariantsValue(a)) && Encodable(EncoderV0, CasesValue(a))
  {
    var entries := IntendedValue(a).entries;
    hide InvariantsValue, CasesValue;
    assert EncodableEntry(EncoderV0, entries[1]) && EncodableEntry(EncoderV0, entries[4])
           && EncodableEntry(EncoderV0, entries[5]);
    assert Encodable(EncoderV0, Str(a.instanceId));
  }

  lemma ObjectAFromParts(a: Artifact)
    requires WellFormed(a.instanceId) && Encodable(EncoderV0, InvariantsValue(a)) && Encodable(EncoderV0, CasesValue(a))
    ensures Encodable(EncoderV0, ObjectAValue(a))
    ensures KeySet(ObjectAValue(a).entries) == OBJECT_A_KEYS
  {
    hide InvariantsValue, CasesValue, WellFormed, DistinctKeys;
    ObjectAKeys(a);
    var entries := ObjectAValue(a).entries;
    forall e | e in entries ensures EncodableEntry(EncoderV0, e) {
      assert e == entries[0] || e == entries[1] || e == entries[2] || e == entries[3] || e == entries[4];
    }
  }

  lemma ObjectAKeys(a: Artifact)
    ensures DistinctKeys(ObjectAValue(a).entries) && KeySet(ObjectAValue(a).entries) == OBJECT_A_KEYS
  {
    hide InvariantsValue, CasesValue, DistinctKeys;
    var entries := ObjectAValue(a).entries;
    assert entries[0].key == Js("schema") && entries[1].key == Js("instance_id")
           && entries[2].key == Js("evaluation_instruction")
        && entries[3].key == Js("invariants") && entries[4].key == Js("cases");
    DistinctByLength(entries);
  }

  lemma {:induction false} DistinctByLength(entries: seq<Entry>)
    requires forall i, j | 0 <= i < j < |entries| :: |entries[i].key| != |entries[j].key|
    ensures DistinctKeys(entries)
  {
    if entries != [] { DistinctByLength(entries[1..]); }
  }

  lemma NormalKeepsKeys(d: Dialect, entries: seq<Entry>)
    ensures KeySet(Normal(d, Obj(entries)).entries) == KeySet(entries)
  {
    var n := Normal(d, Obj(entries)).entries;
    NormalEntries(d, entries);
    hide Normal;
    KeySetOfSorted(entries);
    forall key ensures key in KeySet(n) <==> key in KeySet(Sort(entries)) {
      KeySetMember(n, key);
      KeySetMember(Sort(entries), key);
    }
  }

  /** Every accepted intended artifact has one Object A, and the acceptor admits
      that byte string and no other. */
  lemma OneObjectAPerArtifact(f: NumberFormat, a: Artifact, bytes: Bytes)
    requires Faithful(f) && Accepted(f, a)
    ensures EncodeBytes(f, ObjectAValue(a)).Ok?
    ensures AcceptObjectA(f, bytes, Some(a)).Ok? <==> EncodeBytes(f, ObjectAValue(a)) == Ok(bytes)
  {
    hide ObjectAValue, IntendedValue, Serialize, Encodable, Verdict, Faithful, Normal, Print, KeySet;
    var v := ObjectAValue(a);
    SerializeIsPrint(EncoderV0, f, IntendedValue(a));
    IntendedParts(a);
    ObjectAFromParts(a);
    SerializeIsPrint(EncoderV0, f, v);
    AcceptsExactlyTheImage(f, "object_a_bytes", bytes);
    NormalKeepsKeys(EncoderV0, v.entries);
    NormalIsObject(EncoderV0, v);
  }

  lemma NormalIsObject(d: Dialect, v: Value)
    requires v.Obj?
    ensures Normal(d, v).Obj?
  {
  }
}
