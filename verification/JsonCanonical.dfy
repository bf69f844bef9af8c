/** What the encoder's output means: its domain, the round trip through the
    parser, and equality of texts. */
module JsonCanonical {
  import opened Common
  import opened Utf16
  import opened JsonValue
  import opened JsonNumbers
  import opened JsonEncoder

  predicate IsNumeric(v: Value) { v.Number? || v.BigInteger? }

  /** One representative for each numeric value. The fold canonicalizer writes both zeros alike. */
  function NormalNumber(d: Dialect, v: Value): F64
    requires IsNumeric(v)
  {
    match v
    case BigInteger(n) => Integral(n)
    case Number(NegativeZero) => if d.FoldCanonical? then Integral(0) else NegativeZero
    case Number(f) => f
  }

  /** The value with all entries in key order and all numbers in normal form. */
  function Normal(d: Dialect, v: Value): (n: Value)
    decreases v
  {
    match v
    case Number(_) => Number(NormalNumber(d, v))
    case BigInteger(_) => Number(NormalNumber(d, v))
    case Arr(items) => Arr(seq(|items|, i requires 0 <= i < |items| => Normal(d, items[i])))
    case Obj(entries) =>
      var sorted := Sort(entries);
      SameElements(sorted, entries);
      Obj(seq(|sorted|, i requires 0 <= i < |sorted| =>
            assert sorted[i] in entries; Entry(sorted[i].key, Normal(d, sorted[i].value))))
    case _ => v
  }

  /** The domain of the encoder, without any mention of the order of entries. */
  predicate Encodable(d: Dialect, v: Value) {
    match v
    case Null => true
    case Bool(_) => true
    case Str(s) => d.FoldCanonical? || WellFormed(s)
    case Number(NegativeZero) => d.FoldCanonical?
    case Number(Integral(n)) => -MAX_SAFE_INTEGER <= n <= MAX_SAFE_INTEGER
    case Number(Fraction(_)) => d.EncoderV0?
    case Number(_) => false
    case BigInteger(n) => d.EncoderV0? && -MAX_SAFE_INTEGER <= n <= MAX_SAFE_INTEGER
    case Arr(items) => forall i | 0 <= i < |items| :: Encodable(d, items[i])
    case Obj(entries) =>
      && DistinctKeys(entries)
      && (forall e | e in entries :: EncodableEntry(d, e))
  }

  predicate EncodableEntry(d: Dialect, e: Entry) {
    (d.EncoderV0? ==> WellFormed(e.key)) && Encodable(d, e.value)
  }

  /** Serialization without sorting and without checks. */
  function Print(d: Dialect, f: NumberFormat, v: Value): JsString
    decreases v, 0
  {
    match v
    case Null => NULL_TEXT
    case Bool(b) => if b then TRUE_TEXT else FALSE_TEXT
    case Str(s) => Quoted(d, s)
    case Number(Integral(n)) => Decimal(n)
    case Number(Fraction(bits)) => f.render(bits)
    case Number(_) => []
    case BigInteger(n) => Decimal(n)
    case Arr(items) => [0x5b] + PrintItems(d, f, items) + [0x5d]
    case Obj(entries) => [0x7b] + PrintEntries(d, f, entries) + [0x7d]
  }

  function PrintItems(d: Dialect, f: NumberFormat, items: seq<Value>): JsString
    decreases items, 0
  {
    if items == [] then []
    else Print(d, f, items[0]) + if |items| == 1 then [] else [COMMA] + PrintItems(d, f, items[1..])
  }

  function PrintEntry(d: Dialect, f: NumberFormat, e: Entry): JsString
    decreases e, 0
  {
    Quoted(d, e.key) + [COLON] + Print(d, f, e.value)
  }

  function PrintEntries(d: Dialect, f: NumberFormat, entries: seq<Entry>): JsString
    decreases entries, 0
  {
    if entries == [] then []
    else PrintEntry(d, f, entries[0]) + if |entries| == 1 then [] else [COMMA] + PrintEntries(d, f, entries[1..])
  }

  lemma {:induction false} KeyErrorExact(d: Dialect, entries: seq<Entry>, seen: set<JsString>)
    ensures KeyError(d, entries, seen) == None
       <==> && DistinctKeys(entries)
            && forall e | e in entries :: e.key !in seen && (d.EncoderV0? ==> WellFormed(e.key))
  {
    if entries != [] {
      KeyErrorExact(d, entries[1..], seen + {entries[0].key});
      assert entries == [entries[0]] + entries[1..];
      hide WellFormed;
    }
  }

  /** The encoder succeeds exactly on its domain, and then writes the normal form. */
  lemma {:induction false} SerializeIsPrint(d: Dialect, f: NumberFormat, v: Value)
    ensures Serialize(d, f, v).Ok? <==> Encodable(d, v)
    ensures Encodable(d, v) ==> Serialize(d, f, v).value == Print(d, f, Normal(d, v))
    decreases v, 2
  {
    match v
    case Arr(items) => SerializeItemsIsPrint(d, f, items, Normal(d, v).items);
    case Obj(entries) => ObjectIsPrint(d, f, v, entries);
    case _ => ScalarIsPrint(d, f, v);
  }

  lemma {:induction false} ObjectIsPrint(d: Dialect, f: NumberFormat, v: Value, entries: seq<Entry>)
    requires v == Obj(entries)
    ensures Serialize(d, f, v).Ok? <==> Encodable(d, v)
    ensures Encodable(d, v) ==> Serialize(d, f, v).value == Print(d, f, Normal(d, v))
    decreases v, 1
  {
    hide WellFormed, DistinctKeys, LexLess, Insert;
    KeyErrorExact(d, entries, {});
    SameElements(Sort(entries), entries);
    SerializeEntriesIsPrint(d, f, v, Sort(entries), Normal(d, v).entries);
  }

  lemma ScalarIsPrint(d: Dialect, f: NumberFormat, v: Value)
    requires !v.Arr? && !v.Obj?
    ensures Serialize(d, f, v).Ok? <==> Encodable(d, v)
    ensures Encodable(d, v) ==> Serialize(d, f, v).value == Print(d, f, Normal(d, v))
  {
    hide WellFormed, Decimal;
  }

  lemma {:induction false} SerializeItemsIsPrint(d: Dialect, f: NumberFormat, items: seq<Value>, normal: seq<Value>)
    requires |normal| == |items| && forall i | 0 <= i < |items| :: normal[i] == Normal(d, items[i])
    ensures SerializeItems(d, f, items).Ok? <==> forall i | 0 <= i < |items| :: Encodable(d, items[i])
    ensures SerializeItems(d, f, items).Ok? ==> SerializeItems(d, f, items).value == PrintItems(d, f, normal)
    decreases items, 0
  {
    hide Serialize, Print, Encodable, Normal;
    if items != [] {
      SerializeIsPrint(d, f, items[0]);
      SerializeItemsIsPrint(d, f, items[1..], normal[1..]);
      HeadAndTail(d, items);
    }
  }

  lemma HeadAndTail(d: Dialect, items: seq<Value>)
    requires items != []
    ensures (forall i | 0 <= i < |items| :: Encodable(d, items[i]))
       <==> Encodable(d, items[0]) && forall i | 0 <= i < |items[1..]| :: Encodable(d, items[1..][i])
  {
    hide Encodable;
    assert forall i | 0 < i < |items| :: items[i] == items[1..][i - 1];
  }

  lemma {:induction false} SerializeEntryIsPrint(d: Dialect, f: NumberFormat, e: Entry, normal: Entry)
    requires normal == Entry(e.key, Normal(d, e.value))
    ensures SerializeEntry(d, f, e).Ok? <==> EncodableEntry(d, e)
    ensures SerializeEntry(d, f, e).Ok? ==> SerializeEntry(d, f, e).value == PrintEntry(d, f, normal)
    decreases e.value, 3
  {
    SerializeIsPrint(d, f, e.value);
    hide Serialize, Print, Encodable, Normal, WellFormed;
  }

  lemma {:induction false} SerializeEntriesIsPrint(d: Dialect, f: NumberFormat, owner: Value, entries: seq<Entry>,
                                                   normal: seq<Entry>)
    requires owner.Obj? && forall e | e in entries :: e in owner.entries
    requires |normal| == |entries|
    requires forall i | 0 <= i < |entries| :: normal[i] == Entry(entries[i].key, Normal(d, entries[i].value))
    ensures SerializeEntries(d, f, owner, entries).Ok?
       <==> forall e | e in entries :: EncodableEntry(d, e)
    ensures SerializeEntries(d, f, owner, entries).Ok?
        ==> SerializeEntries(d, f, owner, entries).value == PrintEntries(d, f, normal)
    decreases owner, 0, |entries|
  {
    if entries != [] {
      assert entries[0] in owner.entries;
      SerializeEntryIsPrint(d, f, entries[0], normal[0]);
      hide SerializeEntry, PrintEntry, EncodableEntry, Normal;
      SerializeEntriesIsPrint(d, f, owner, entries[1..], normal[1..]);
      assert entries == [entries[0]] + entries[1..];
    }
  }
}
