/** The main results about the encoder: round trip, canonicality, and the
    shape of its text. */
module JsonTheorems {
  import opened Common
  import opened Utf16
  import Utf8
  import opened JsonValue
  import opened JsonNumbers
  import opened JsonEncoder
  import opened JsonParser
  import opened JsonCanonical
  import opened JsonRoundTrip

  /** The text of a value in the encoder's domain, followed by anything that does
      not continue a number, parses to the normal form of the value, which is the
      value up to the order of entries, and leaves the continuation untouched. */
  lemma SerializeRoundTrip(d: Dialect, f: NumberFormat, v: Value, rest: JsString)
    requires Suits(d, f) && Serialize(d, f, v).Ok?
    requires rest != [] ==> !IsNumberUnit(rest[0])
    ensures ParseValue(f, Serialize(d, f, v).value + rest) == Some((Normal(d, v), rest))
    ensures SameUpToOrder(d, v, Normal(d, v))
  {
    hide SameUpToOrder, Serialize, Print, Normal, IsNormal, Encodable, ParseValue, Faithful;
    SerializeIsPrint(d, f, v);
    NormalIsNormal(d, v);
    ReadPrinted(d, f, Normal(d, v), rest);
    NormalIsSame(d, v);
  }

  /** Equality up to the order of object entries at every depth, with numbers
      compared by value. */
  predicate SameUpToOrder(d: Dialect, v: Value, w: Value)
    decreases v
  {
    if IsNumeric(v) || IsNumeric(w) then IsNumeric(v) && IsNumeric(w) && NormalNumber(d, v) == NormalNumber(d, w)
    else
      match (v, w)
      case (Arr(a), Arr(b)) => |a| == |b| && forall i | 0 <= i < |a| :: SameUpToOrder(d, a[i], b[i])
      case (Obj(a), Obj(b)) =>
        && KeySet(a) == KeySet(b)
        && forall i, j | 0 <= i < |a| && 0 <= j < |b| && a[i].key == b[j].key ::
          SameUpToOrder(d, a[i].value, b[j].value)
      case _ => v == w
  }

  function KeySet(entries: seq<Entry>): set<JsString> { set e | e in entries :: e.key }

  lemma KeySetMember(entries: seq<Entry>, key: JsString)
    ensures key in KeySet(entries) <==> exists i | 0 <= i < |entries| :: entries[i].key == key
  {
    if key in KeySet(entries) {
      var e :| e in entries && e.key == key;
      var i :| 0 <= i < |entries| && entries[i] == e;
    }
  }

  lemma {:induction false} DistinctPositions(entries: seq<Entry>, i: nat, j: nat)
    requires DistinctKeys(entries) && i < |entries| && j < |entries| && entries[i].key == entries[j].key
    ensures i == j
  {
    assert i > 0 ==> entries[1..][i - 1] in entries[1..];
    assert j > 0 ==> entries[1..][j - 1] in entries[1..];
    if i > 0 && j > 0 { DistinctPositions(entries[1..], i - 1, j - 1); }
  }

  /** An entry of the normal form is the normal form of an entry. */
  lemma NormalEntryFrom(d: Dialect, entries: seq<Entry>, e: Entry)
    ensures e in Normal(d, Obj(entries)).entries
       <==> exists i | 0 <= i < |entries| :: e == Entry(entries[i].key, Normal(d, entries[i].value))
  {
    var sorted, n := Sort(entries), Normal(d, Obj(entries)).entries;
    SameElements(sorted, entries);
    if e in n {
      var k :| 0 <= k < |n| && n[k] == e;
      assert sorted[k] in entries;
    }
    if i :| 0 <= i < |entries| && e == Entry(entries[i].key, Normal(d, entries[i].value)) {
      assert entries[i] in sorted;
      var k :| 0 <= k < |sorted| && sorted[k] == entries[i];
      assert n[k] == e;
    }
  }

  /** Two values of the domain have the same normal form exactly when they are
      the same up to the order of entries. */
  lemma {:induction false} SameIffNormal(d: Dialect, v: Value, w: Value)
    requires Encodable(d, v) && Encodable(d, w)
    ensures SameUpToOrder(d, v, w) <==> Normal(d, v) == Normal(d, w)
    decreases v, 1
  {
    if v.Arr? && w.Arr? {
      var a, b := v.items, w.items;
      forall i | 0 <= i < |a| && |a| == |b|
        ensures SameUpToOrder(d, a[i], b[i]) <==> Normal(d, a[i]) == Normal(d, b[i])
      {
        SameIffNormal(d, a[i], b[i]);
      }
      SameArrays(d, a, b);
    } else if v.Obj? && w.Obj? {
      ObjectsSameIffNormal(d, v, w);
    }
  }

  lemma {:induction false} ObjectsSameIffNormal(d: Dialect, v: Value, w: Value)
    requires v.Obj? && w.Obj? && Encodable(d, v) && Encodable(d, w)
    ensures SameUpToOrder(d, v, w) <==> Normal(d, v) == Normal(d, w)
    decreases v, 0
  {
    var a, b := v.entries, w.entries;
    hide Normal, SameUpToOrder;
    forall i, j | 0 <= i < |a| && 0 <= j < |b|
      ensures SameUpToOrder(d, a[i].value, b[j].value) <==> Normal(d, a[i].value) == Normal(d, b[j].value)
    {
      assert EncodableEntry(d, a[i]) && EncodableEntry(d, b[j]);
      SameIffNormal(d, a[i].value, b[j].value);
    }
    if SameUpToOrder(d, v, w) { SameObjects(d, a, b); }
    if Normal(d, v) == Normal(d, w) { ObjectsSame(d, a, b); }
  }

  lemma SameArrays(d: Dialect, a: seq<Value>, b: seq<Value>)
    requires forall i | 0 <= i < |a| && |a| == |b| ::
               SameUpToOrder(d, a[i], b[i]) <==> Normal(d, a[i]) == Normal(d, b[i])
    ensures SameUpToOrder(d, Arr(a), Arr(b)) <==> Normal(d, Arr(a)) == Normal(d, Arr(b))
  {
    var m, n := Normal(d, Arr(a)).items, Normal(d, Arr(b)).items;
    if m == n {
      forall i | 0 <= i < |a| ensures SameUpToOrder(d, a[i], b[i]) { assert m[i] == n[i]; }
    }
  }

  predicate AgreeOnValues(d: Dialect, a: seq<Entry>, b: seq<Entry>) {
    forall i, j | 0 <= i < |a| && 0 <= j < |b| && a[i].key == b[j].key :: Normal(d, a[i].value) == Normal(d, b[j].value)
  }

  lemma SameObjects(d: Dialect, a: seq<Entry>, b: seq<Entry>)
    requires Encodable(d, Obj(a)) && Encodable(d, Obj(b)) && SameUpToOrder(d, Obj(a), Obj(b))
    requires forall i, j | 0 <= i < |a| && 0 <= j < |b| ::
               SameUpToOrder(d, a[i].value, b[j].value) <==> Normal(d, a[i].value) == Normal(d, b[j].value)
    ensures Normal(d, Obj(a)) == Normal(d, Obj(b))
  {
    assert AgreeOnValues(d, a, b) && AgreeOnValues(d, b, a) && KeySet(a) == KeySet(b);
    hide SameUpToOrder, KeySet;
    NormalIsNormal(d, Obj(a));
    NormalIsNormal(d, Obj(b));
    var m, n := Normal(d, Obj(a)).entries, Normal(d, Obj(b)).entries;
    assert Ascending(m) && Ascending(n);
    hide Encodable, IsNormal;
    forall e ensures e in m <==> e in n {
      if e in m { EntryMoves(d, a, b, e); }
      if e in n { EntryMoves(d, b, a, e); }
    }
    AscendingUnique(m, n);
  }

  lemma EntryMoves(d: Dialect, a: seq<Entry>, b: seq<Entry>, e: Entry)
    requires KeySet(a) == KeySet(b) && AgreeOnValues(d, a, b) && e in Normal(d, Obj(a)).entries
    ensures e in Normal(d, Obj(b)).entries
  {
    NormalEntryFrom(d, a, e);
    NormalEntryFrom(d, b, e);
    KeySetMember(a, e.key);
    KeySetMember(b, e.key);
    hide Normal, KeySet;
    var i :| 0 <= i < |a| && e == Entry(a[i].key, Normal(d, a[i].value));
    var j :| 0 <= j < |b| && b[j].key == e.key;
  }

  lemma ObjectsSame(d: Dialect, a: seq<Entry>, b: seq<Entry>)
    requires Normal(d, Obj(a)) == Normal(d, Obj(b)) && DistinctKeys(a) && DistinctKeys(b)
    requires forall i, j | 0 <= i < |a| && 0 <= j < |b| ::
               SameUpToOrder(d, a[i].value, b[j].value) <==> Normal(d, a[i].value) == Normal(d, b[j].value)
    ensures SameUpToOrder(d, Obj(a), Obj(b))
  {
    hide Normal, DistinctKeys, KeySet;
    forall i, j | 0 <= i < |a| && 0 <= j < |b| && a[i].key == b[j].key
      ensures SameUpToOrder(d, a[i].value, b[j].value)
    {
      ValueMoves(d, a, b, i, j);
    }
    forall key ensures key in KeySet(a) <==> key in KeySet(b) {
      if key in KeySet(a) { KeyMoves(d, a, b, key); }
      if key in KeySet(b) { KeyMoves(d, b, a, key); }
    }
    assert KeySet(a) == KeySet(b);
  }

  lemma ValueMoves(d: Dialect, a: seq<Entry>, b: seq<Entry>, i: nat, j: nat)
    requires Normal(d, Obj(a)) == Normal(d, Obj(b)) && DistinctKeys(b)
    requires i < |a| && j < |b| && a[i].key == b[j].key
    ensures Normal(d, a[i].value) == Normal(d, b[j].value)
  {
    hide Normal, DistinctKeys;
    var e := Entry(a[i].key, Normal(d, a[i].value));
    NormalEntryFrom(d, a, e);
    NormalEntryFrom(d, b, e);
    var k :| 0 <= k < |b| && e == Entry(b[k].key, Normal(d, b[k].value));
    DistinctPositions(b, j, k);
  }

  lemma KeyMoves(d: Dialect, a: seq<Entry>, b: seq<Entry>, key: JsString)
    requires Normal(d, Obj(a)) == Normal(d, Obj(b)) && key in KeySet(a)
    ensures key in KeySet(b)
  {
    hide Normal, KeySet;
    KeySetMember(a, key);
    KeySetMember(b, key);
    var i :| 0 <= i < |a| && a[i].key == key;
    var e := Entry(key, Normal(d, a[i].value));
    NormalEntryFrom(d, a, e);
    NormalEntryFrom(d, b, e);
  }

  /** Normal values are their own normal form. */
  lemma {:induction false} NormalOfNormal(d: Dialect, v: Value)
    requires IsNormal(d, v)
    ensures Encodable(d, v) && Normal(d, v) == v
  {
    match v
    case Arr(items) =>
      forall i | 0 <= i < |items| ensures Encodable(d, items[i]) && Normal(d, items[i]) == items[i] {
        NormalOfNormal(d, items[i]);
      }
      assert Normal(d, v).items == items;
    case Obj(entries) =>
      forall e | e in entries ensures EncodableEntry(d, e) && Normal(d, e.value) == e.value {
        NormalOfNormal(d, e.value);
      }
      hide Normal, Encodable;
      NormalObject(d, entries);
    case _ =>
  }

  lemma NormalObject(d: Dialect, entries: seq<Entry>)
    requires Ascending(entries) && forall e | e in entries :: EncodableEntry(d, e) && Normal(d, e.value) == e.value
    ensures Encodable(d, Obj(entries)) && Normal(d, Obj(entries)) == Obj(entries)
  {
    SortOfAscending(entries);
    AscendingDistinct(entries);
    NormalEntries(d, entries);
    hide EncodableEntry, Ascending, DistinctKeys, Sort, Normal;
    var n := Normal(d, Obj(entries));
    forall i | 0 <= i < |entries| ensures n.entries[i] == entries[i] { assert entries[i] in entries; }
    assert n.entries == entries;
  }

  lemma NormalEntries(d: Dialect, entries: seq<Entry>)
    ensures var n := Normal(d, Obj(entries)); n.Obj? && |n.entries| == |entries|
    ensures forall i | 0 <= i < |entries| ::
              Normal(d, Obj(entries)).entries[i] == Entry(Sort(entries)[i].key, Normal(d, Sort(entries)[i].value))
  {
    hide Sort, Insert, NormalNumber;
    SameElements(Sort(entries), entries);
  }

  /** Normalizing only reorders entries and rewrites numbers of equal value. */
  lemma NormalIsSame(d: Dialect, v: Value)
    requires Encodable(d, v)
    ensures SameUpToOrder(d, v, Normal(d, v))
  {
    hide *;
    NormalIsNormal(d, v);
    NormalOfNormal(d, Normal(d, v));
    SameIffNormal(d, v, Normal(d, v));
  }

  /** Canonicality: two values serialize to the same text exactly when they are
      the same up to the order of entries. */
  lemma EqualTextsIffSame(d: Dialect, f: NumberFormat, v: Value, w: Value)
    requires Suits(d, f) && Serialize(d, f, v).Ok? && Serialize(d, f, w).Ok?
    ensures Serialize(d, f, v) == Serialize(d, f, w) <==> SameUpToOrder(d, v, w)
  {
    hide *;
    SerializeIsPrint(d, f, v);
    SerializeIsPrint(d, f, w);
    SameIffNormal(d, v, w);
    SerializeRoundTrip(d, f, v, []);
    SerializeRoundTrip(d, f, w, []);
  }

  /** What a host can hand over: no object repeats a key, and the fold
      canonicalizer, which works on parsed JSON, sees no big integers. */
  predicate HostValue(d: Dialect, v: Value) {
    match v
    case BigInteger(_) => d.EncoderV0?
    case Arr(items) => forall item | item in items :: HostValue(d, item)
    case Obj(entries) => DistinctKeys(entries) && forall e | e in entries :: HostValue(d, e.value)
    case _ => true
  }

  /** The order of entries never matters, at any depth: neither for the text nor
      for whether, or with which category, serialization fails. */
  lemma {:induction false} OrderNeverMatters(d: Dialect, f: NumberFormat, v: Value, w: Value)
    requires HostValue(d, v) && HostValue(d, w) && SameUpToOrder(d, v, w)
    ensures Serialize(d, f, v) == Serialize(d, f, w)
    decreases v, 1
  {
    if v.Arr? && w.Arr? {
      forall i | 0 <= i < |v.items| ensures Serialize(d, f, v.items[i]) == Serialize(d, f, w.items[i]) {
        OrderNeverMatters(d, f, v.items[i], w.items[i]);
      }
      ItemsAgree(d, f, v.items, w.items);
    } else if v.Obj? && w.Obj? {
      EntryOrderNeverMatters(d, f, v, w);
    }
  }

  lemma {:induction false} EntryOrderNeverMatters(d: Dialect, f: NumberFormat, v: Value, w: Value)
    requires v.Obj? && w.Obj? && HostValue(d, v) && HostValue(d, w) && SameUpToOrder(d, v, w)
    ensures Serialize(d, f, v) == Serialize(d, f, w)
    decreases v, 0
  {
    hide Serialize, KeyError, WellFormed, Sort, Braced, SerializeEntries;
    var a, b := Sort(v.entries), Sort(w.entries);
    KeyErrorFromKeys(d, v.entries, {});
    KeyErrorFromKeys(d, w.entries, {});
    SameKeysWellFormed(v.entries, w.entries);
    SortedKeysAgree(v.entries, w.entries);
    SameElements(a, v.entries);
    SameElements(b, w.entries);
    forall i | 0 <= i < |a| ensures Serialize(d, f, a[i].value) == Serialize(d, f, b[i].value) {
      assert a[i] in v.entries && b[i] in w.entries;
      OrderNeverMatters(d, f, a[i].value, b[i].value);
    }
    EntriesAgree(d, f, v, a, w, b);
    SerializeObject(d, f, v, a);
    SerializeObject(d, f, w, b);
  }

  function Braced(error: Option<Category>, body: Result<JsString, Category>): Result<JsString, Category> {
    match (error, body)
    case (Some(e), _) => Err(e)
    case (None, Err(e)) => Err(e)
    case (None, Ok(text)) => Ok([0x7b] + text + [0x7d])
  }

  lemma SerializeObject(d: Dialect, f: NumberFormat, v: Value, sorted: seq<Entry>)
    requires v.Obj? && sorted == Sort(v.entries) && forall e | e in sorted :: e in v.entries
    ensures Serialize(d, f, v) == Braced(KeyError(d, v.entries, {}), SerializeEntries(d, f, v, sorted))
  {
    hide KeyError, SerializeEntries, Sort;
  }

  lemma {:induction false} ItemsAgree(d: Dialect, f: NumberFormat, a: seq<Value>, b: seq<Value>)
    requires |a| == |b| && forall i | 0 <= i < |a| :: Serialize(d, f, a[i]) == Serialize(d, f, b[i])
    ensures SerializeItems(d, f, a) == SerializeItems(d, f, b)
  {
    hide Serialize;
    if a != [] { ItemsAgree(d, f, a[1..], b[1..]); }
  }

  lemma {:induction false} EntriesAgree(d: Dialect, f: NumberFormat, v: Value, a: seq<Entry>, w: Value, b: seq<Entry>)
    requires v.Obj? && (forall e | e in a :: e in v.entries) && w.Obj? && (forall e | e in b :: e in w.entries)
    requires |a| == |b| && forall i | 0 <= i < |a| :: a[i].key == b[i].key
    requires forall i | 0 <= i < |a| :: Serialize(d, f, a[i].value) == Serialize(d, f, b[i].value)
    ensures SerializeEntries(d, f, v, a) == SerializeEntries(d, f, w, b)
    decreases |a|
  {
    hide Serialize;
    if a != [] { EntriesAgree(d, f, v, a[1..], w, b[1..]); }
  }

  /** With distinct keys the only complaint is about a lone surrogate in some key. */
  lemma {:induction false} KeyErrorFromKeys(d: Dialect, entries: seq<Entry>, seen: set<JsString>)
    requires DistinctKeys(entries) && forall e | e in entries :: e.key !in seen
    ensures KeyError(d, entries, seen)
         == if d.EncoderV0? && exists e | e in entries :: !WellFormed(e.key) then Some(Scalar(NonScalarKey)) else None
  {
    hide WellFormed;
    if entries != [] {
      KeyErrorFromKeys(d, entries[1..], seen + {entries[0].key});
      assert entries == [entries[0]] + entries[1..];
    }
  }

  lemma SameKeysWellFormed(a: seq<Entry>, b: seq<Entry>)
    requires KeySet(a) == KeySet(b)
    ensures (exists e | e in a :: !WellFormed(e.key)) <==> (exists e | e in b :: !WellFormed(e.key))
  {
    hide WellFormed;
    if e :| e in a && !WellFormed(e.key) { assert e.key in KeySet(a); }
    if e :| e in b && !WellFormed(e.key) { assert e.key in KeySet(b); }
  }

  function KeysOnly(entries: seq<Entry>): (r: seq<Entry>)
    ensures |r| == |entries| && forall i | 0 <= i < |r| :: r[i] == Entry(entries[i].key, Null)
  {
    seq(|entries|, i requires 0 <= i < |entries| => Entry(entries[i].key, Null))
  }

  lemma KeysOnlyMember(entries: seq<Entry>, e: Entry)
    ensures e in KeysOnly(entries) <==> e.value == Null && e.key in KeySet(entries)
  {
    KeySetMember(entries, e.key);
    hide KeySet;
    if e.value == Null && e.key in KeySet(entries) {
      var i :| 0 <= i < |entries| && entries[i].key == e.key;
      assert KeysOnly(entries)[i] == e;
    }
  }

  lemma KeySetOfSorted(entries: seq<Entry>)
    ensures KeySet(Sort(entries)) == KeySet(entries)
  {
    SameElements(Sort(entries), entries);
  }

  /** Sorting puts the same keys into the same places. */
  lemma SortedKeysAgree(a: seq<Entry>, b: seq<Entry>)
    requires DistinctKeys(a) && DistinctKeys(b) && KeySet(a) == KeySet(b)
    ensures |a| == |b| && forall i | 0 <= i < |a| :: Sort(a)[i].key == Sort(b)[i].key
  {
    hide Insert, KeySet;
    var m, n := KeysOnly(Sort(a)), KeysOnly(Sort(b));
    SortAscending(a);
    SortAscending(b);
    AscendingByKeys(Sort(a), m);
    AscendingByKeys(Sort(b), n);
    KeySetOfSorted(a);
    KeySetOfSorted(b);
    hide Sort, KeysOnly;
    forall e ensures e in m <==> e in n {
      KeysOnlyMember(Sort(a), e);
      KeysOnlyMember(Sort(b), e);
    }
    AscendingUnique(m, n);
    forall i | 0 <= i < |a| ensures Sort(a)[i].key == Sort(b)[i].key { assert m[i] == n[i]; }
  }

  // The text itself.

  predicate NoControls(s: JsString) { forall u | u in s :: u >= 0x20 }

  lemma {:induction false} EscapeShape(d: Dialect, s: JsString)
    requires d.EncoderV0? ==> WellFormed(s)
    ensures NoControls(Escape(d, s)) && WellFormed(Escape(d, s))
    decreases |s|
  {
    if s != [] {
      assert d.EncoderV0? ==> !LoneAt(s, 0);
      if StartsWithPair(s) {
        if d.EncoderV0? { Utf8.DropKeepsWellFormed(s, 2); }
        EscapeShape(d, s[2..]);
        WellFormedConcat([s[0], s[1]], Escape(d, s[2..]));
      } else {
        if d.EncoderV0? { Utf8.DropKeepsWellFormed(s, 1); }
        EscapeShape(d, s[1..]);
        EscapeUnitShape(d, s[0]);
        WellFormedConcat(EscapeUnit(d, s[0]), Escape(d, s[1..]));
      }
    }
  }

  lemma EscapeUnitShape(d: Dialect, u: CodeUnit)
    requires d.EncoderV0? ==> !IsSurrogate(u)
    ensures NoControls(EscapeUnit(d, u)) && WellFormed(EscapeUnit(d, u))
  {
    forall i | 0 <= i < |EscapeUnit(d, u)| ensures !IsSurrogate(EscapeUnit(d, u)[i]) && EscapeUnit(d, u)[i] >= 0x20 {
    }
  }
}
