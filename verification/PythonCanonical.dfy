/** The canonicalizer of the fold's Python generator beside the one of its
    auditor, and exactly when their texts agree. */
module PythonCanonical {
  import opened Common
  import opened Utf16
  import opened JsonValue
  import opened JsonNumbers
  import opened JsonEncoder
  import opened JsonCanonical
  import opened JsonTheorems

  /** `canonical` of the generator, on numbers that Python reads as integers;
      nothing where it raises: on other numbers, and on keys with a lone
      surrogate, which have no UTF-16BE octets to sort by. Strings are escaped
      as the encoder escapes them, but surrogates are not looked at. */
  function PythonText(v: Value): Option<JsString>
    decreases v, 1
  {
    match v
    case Null => Some(NULL_TEXT)
    case Bool(b) => Some(if b then TRUE_TEXT else FALSE_TEXT)
    case Str(s) => Some(Quoted(EncoderV0, s))
    case Number(Integral(n)) => Some(Decimal(n))
    case Number(NegativeZero) => Some(Decimal(0))
    case Arr(items) =>
      (match PythonItems(items)
       case None => None
       case Some(text) => Some([0x5b] + text + [0x5d]))
    case Obj(entries) =>
      if exists e | e in entries :: !WellFormed(e.key) then None
      else
        (SameElements(Sort(entries), entries);
         match PythonEntries(v, Sort(entries))
         case None => None
         case Some(text) => Some([0x7b] + text + [0x7d]))
    case _ => None
  }

  function PythonItems(items: seq<Value>): Option<JsString>
    decreases items, 0
  {
    if items == [] then Some([])
    else
      match (PythonText(items[0]), PythonItems(items[1..]))
      case (Some(head), Some(tail)) => Some(head + if |items| == 1 then [] else [COMMA] + tail)
      case _ => None
  }

  function PythonEntries(ghost owner: Value, entries: seq<Entry>): Option<JsString>
    requires owner.Obj? && forall e | e in entries :: e in owner.entries
    decreases owner, 0, |entries|
  {
    if entries == [] then Some([])
    else
      assert entries[0] in owner.entries;
      match (PythonText(entries[0].value), PythonEntries(owner, entries[1..]))
      case (Some(value), Some(tail)) =>
        Some(Quoted(EncoderV0, entries[0].key) + [COLON] + value + if |entries| == 1 then [] else [COMMA] + tail)
      case _ => None
  }

  /** Unicode scalar values without the two separators that JavaScript escapes. */
  predicate PlainString(s: JsString) { WellFormed(s) && 0x2028 !in s && 0x2029 !in s }

  predicate PlainEntry(e: Entry) { PlainString(e.key) && Plain(e.value) }

  /** Every string and every key, at any depth, is plain. */
  predicate Plain(v: Value) {
    match v
    case Str(s) => PlainString(s)
    case Arr(items) => forall i | 0 <= i < |items| :: Plain(items[i])
    case Obj(entries) => forall i | 0 <= i < |entries| :: PlainEntry(entries[i])
    case _ => true
  }

  // Both texts are prints of the normal form, with different escapes.

  lemma {:induction false} PythonIsPrint(f: NumberFormat, v: Value)
    requires Encodable(FoldCanonical, v)
    ensures PythonText(v).Some? ==> PythonText(v).value == Print(EncoderV0, f, Normal(FoldCanonical, v))
    ensures Plain(v) ==> PythonText(v).Some?
    decreases v, 2
  {
    match v
    case Arr(items) => PythonItemsIsPrint(f, items, Normal(FoldCanonical, v).items);
    case Obj(entries) => PythonObjectIsPrint(f, v, entries);
    case _ =>
  }

  lemma {:induction false} PythonObjectIsPrint(f: NumberFormat, v: Value, entries: seq<Entry>)
    requires v == Obj(entries) && Encodable(FoldCanonical, v)
    ensures PythonText(v).Some? ==> PythonText(v).value == Print(EncoderV0, f, Normal(FoldCanonical, v))
    ensures Plain(v) ==> PythonText(v).Some?
    decreases v, 1
  {
    hide WellFormed, DistinctKeys, Sort;
    var sorted, normal := Sort(entries), Normal(FoldCanonical, v).entries;
    SameElements(sorted, entries);
    forall i | 0 <= i < |sorted|
      ensures Encodable(FoldCanonical, sorted[i].value)
              && normal[i] == Entry(sorted[i].key, Normal(FoldCanonical, sorted[i].value))
      ensures Plain(v) ==> PlainEntry(sorted[i])
    {
      assert sorted[i] in entries;
      assert EncodableEntry(FoldCanonical, sorted[i]);
    }
    PythonEntriesIsPrint(f, v, sorted, normal);
    assert Plain(v) ==> forall e | e in entries :: PlainEntry(e);
    hide PythonEntries, Normal, Encodable;
  }

  lemma {:induction false} PythonItemsIsPrint(f: NumberFormat, items: seq<Value>, normal: seq<Value>)
    requires |normal| == |items|
    requires forall i | 0 <= i < |items| ::
               Encodable(FoldCanonical, items[i]) && normal[i] == Normal(FoldCanonical, items[i])
    ensures PythonItems(items).Some? ==> PythonItems(items).value == PrintItems(EncoderV0, f, normal)
    ensures (forall i | 0 <= i < |items| :: Plain(items[i])) ==> PythonItems(items).Some?
    decreases items, 0
  {
    hide PythonText, Print, Encodable, Normal, Plain;
    if items != [] {
      PythonIsPrint(f, items[0]);
      PythonItemsIsPrint(f, items[1..], normal[1..]);
    }
  }

  lemma {:induction false} PythonEntriesIsPrint(f: NumberFormat, owner: Value, entries: seq<Entry>, normal: seq<Entry>)
    requires owner.Obj? && forall e | e in entries :: e in owner.entries
    requires |normal| == |entries|
    requires forall i | 0 <= i < |entries| ::
               Encodable(FoldCanonical, entries[i].value)
               && normal[i] == Entry(entries[i].key, Normal(FoldCanonical, entries[i].value))
    ensures PythonEntries(owner, entries).Some? ==>
              PythonEntries(owner, entries).value == PrintEntries(EncoderV0, f, normal)
    ensures (forall i | 0 <= i < |entries| :: PlainEntry(entries[i])) ==> PythonEntries(owner, entries).Some?
    decreases owner, 0, |entries|
  {
    hide PythonText, Print, Encodable, Normal, Plain, Quoted, PlainString;
    if entries != [] {
      assert entries[0] in owner.entries;
      PythonIsPrint(f, entries[0].value);
      PythonEntriesIsPrint(f, owner, entries[1..], normal[1..]);
    }
  }

  // The auditor's escapes only lengthen a text, and only where it is not plain.

  lemma {:induction false} EscapeLengthens(s: JsString)
    ensures |Escape(EncoderV0, s)| <= |Escape(FoldCanonical, s)|
    ensures |Escape(EncoderV0, s)| == |Escape(FoldCanonical, s)| <==> PlainString(s)
    ensures PlainString(s) ==> Escape(EncoderV0, s) == Escape(FoldCanonical, s)
    decreases |s|
  {
    hide PlainString;
    if s == [] {
      PlainParts(s);
    } else if StartsWithPair(s) {
      PlainParts(s);
      EscapeLengthens(s[2..]);
    } else {
      PlainParts(s);
      EscapeLengthens(s[1..]);
    }
  }

  lemma PlainParts(s: JsString)
    ensures s == [] ==> PlainString(s)
    ensures StartsWithPair(s) ==> (PlainString(s) <==> PlainString(s[2..]))
    ensures s != [] && !StartsWithPair(s) ==>
              (PlainString(s) <==> !IsSurrogate(s[0]) && s[0] != 0x2028 && s[0] != 0x2029 && PlainString(s[1..]))
  {
    if StartsWithPair(s) {
      assert s == [s[0], s[1]] + s[2..];
      if PlainString(s) { Utf8.DropKeepsWellFormed(s, 2); }
      if PlainString(s[2..]) { WellFormedConcat([s[0], s[1]], s[2..]); }
    } else if s != [] {
      assert s == [s[0]] + s[1..];
      if PlainString(s) {
        assert !LoneAt(s, 0);
        Utf8.DropKeepsWellFormed(s, 1);
      }
      if !IsSurrogate(s[0]) && PlainString(s[1..]) { WellFormedConcat([s[0]], s[1..]); }
    }
  }

  ghost predicate Lengthens(plain: bool, a: JsString, b: JsString) {
    |a| <= |b| && (|a| == |b| <==> plain) && (plain ==> a == b)
  }

  lemma {:induction false} PrintLengthens(f: NumberFormat, v: Value)
    ensures Lengthens(Plain(v), Print(EncoderV0, f, v), Print(FoldCanonical, f, v))
    decreases v, 1
  {
    match v
    case Str(s) => EscapeLengthens(s);
    case Arr(items) => ItemsLengthen(f, items);
    case Obj(entries) => EntriesLengthen(f, entries);
    case _ =>
  }

  lemma {:induction false} ItemsLengthen(f: NumberFormat, items: seq<Value>)
    ensures Lengthens(forall i | 0 <= i < |items| :: Plain(items[i]),
                      PrintItems(EncoderV0, f, items), PrintItems(FoldCanonical, f, items))
    decreases items, 0
  {
    if items != [] {
      hide Print, Plain, Lengthens;
      PrintLengthens(f, items[0]);
      ItemsLengthen(f, items[1..]);
    }
  }

  lemma {:induction false} EntriesLengthen(f: NumberFormat, entries: seq<Entry>)
    ensures Lengthens(forall i | 0 <= i < |entries| :: PlainEntry(entries[i]),
                      PrintEntries(EncoderV0, f, entries), PrintEntries(FoldCanonical, f, entries))
    decreases entries, 0
  {
    if entries != [] {
      EscapeLengthens(entries[0].key);
      PrintLengthens(f, entries[0].value);
      EntriesLengthen(f, entries[1..]);
    }
  }

  lemma {:induction false} NormalKeepsPlain(v: Value)
    ensures Plain(Normal(FoldCanonical, v)) <==> Plain(v)
    decreases v
  {
    match v
    case Arr(items) =>
      var n := Normal(FoldCanonical, v).items;
      forall i | 0 <= i < |items| ensures Plain(n[i]) <==> Plain(items[i]) { NormalKeepsPlain(items[i]); }
    case Obj(entries) =>
      var sorted, n := Sort(entries), Normal(FoldCanonical, v).entries;
      SameElements(sorted, entries);
      forall i | 0 <= i < |sorted| ensures PlainEntry(n[i]) <==> PlainEntry(sorted[i]) {
        assert sorted[i] in entries;
        NormalKeepsPlain(sorted[i].value);
      }
      EntriesPlainTogether(entries, sorted, n);
    case _ =>
  }

  lemma EntriesPlainTogether(entries: seq<Entry>, sorted: seq<Entry>, normal: seq<Entry>)
    requires |normal| == |sorted| && (forall e :: e in sorted <==> e in entries)
    requires forall i | 0 <= i < |sorted| :: PlainEntry(normal[i]) <==> PlainEntry(sorted[i])
    ensures Plain(Obj(normal)) <==> Plain(Obj(entries))
  {
    hide PlainEntry;
    if Plain(Obj(normal)) {
      forall i | 0 <= i < |entries| ensures PlainEntry(entries[i]) {
        assert entries[i] in sorted;
        var k :| 0 <= k < |sorted| && sorted[k] == entries[i];
        assert PlainEntry(normal[k]);
      }
    }
    if Plain(Obj(entries)) {
      forall k | 0 <= k < |sorted| ensures PlainEntry(normal[k]) {
        assert sorted[k] in entries;
        var i :| 0 <= i < |entries| && entries[i] == sorted[k];
        assert PlainEntry(entries[i]);
      }
    }
  }

  /** The two canonicalizers of the fold agree on a value exactly when the auditor
      accepts it and no string or key in it, at any depth, has a lone surrogate
      or one of the separators U+2028 and U+2029. */
  lemma TextsAgreeExactly(f: NumberFormat, v: Value)
    ensures Serialize(FoldCanonical, f, v).Ok? && PythonText(v) == Some(Serialize(FoldCanonical, f, v).value)
       <==> Encodable(FoldCanonical, v) && Plain(v)
  {
    hide Serialize, PythonText, Encodable, Plain, Print, Normal;
    SerializeIsPrint(FoldCanonical, f, v);
    if Encodable(FoldCanonical, v) {
      PythonIsPrint(f, v);
      PrintLengthens(f, Normal(FoldCanonical, v));
      NormalKeepsPlain(v);
    }
  }

  /** One line separator is enough: both canonicalizers write it, differently. */
  lemma SeparatorsDisagree(f: NumberFormat)
    ensures var v := Str([0x2028]);
            PythonText(v).Some? && Serialize(FoldCanonical, f, v).Ok?
            && PythonText(v).value != Serialize(FoldCanonical, f, v).value
  {
    assert 0x2028 in [0x2028];
    TextsAgreeExactly(f, Str([0x2028]));
  }
}
