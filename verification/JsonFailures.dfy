/** What a refusal to serialize names is there. */
module JsonFailures {
  import opened Common
  import opened Utf16
  import opened JsonValue
  import opened JsonNumbers
  import opened JsonEncoder
  import opened JsonCanonical

  predicate IsSafe(n: int) { -MAX_SAFE_INTEGER <= n <= MAX_SAFE_INTEGER }

  /** A number that this dialect refuses, and as what. */
  predicate IsNumberCause(d: Dialect, n: F64, e: Category) {
    match n
    case NotANumber => e == if d.EncoderV0? then NonFiniteNumber else UnsupportedHostValue
    case Infinite(_) => e == if d.EncoderV0? then NonFiniteNumber else UnsupportedHostValue
    case NegativeZero => d.EncoderV0? && e == NegativeZeroNumber
    case Integral(i) => !IsSafe(i) && e == if d.EncoderV0? then IntegerOutOfRange else UnsupportedHostValue
    case Fraction(_) => d.FoldCanonical? && e == UnsupportedHostValue
  }

  predicate HasBadKey(entries: seq<Entry>) { exists entry | entry in entries :: !WellFormed(entry.key) }

  /** The value itself, apart from what it contains, is refused so. */
  predicate IsCause(d: Dialect, v: Value, e: Category) {
    match v
    case Str(s) => d.EncoderV0? && !WellFormed(s) && e == Scalar(NonScalarString)
    case Number(n) => IsNumberCause(d, n, e)
    case BigInteger(n) =>
      if d.EncoderV0? then !IsSafe(n) && e == IntegerOutOfRange else e == UnsupportedHostValue
    case Obj(entries) =>
      || (e == UnsupportedHostValue && !DistinctKeys(entries))
      || (e == Scalar(NonScalarKey) && d.EncoderV0? && HasBadKey(entries))
    case _ => false
  }

  /** The value or something in it is refused so. */
  predicate HasCause(d: Dialect, v: Value, e: Category) {
    || IsCause(d, v, e)
    || match v
       case Arr(items) => exists i | 0 <= i < |items| :: HasCause(d, items[i], e)
       case Obj(entries) => exists entry | entry in entries :: HasCause(d, entry.value, e)
       case _ => false
  }

  lemma {:induction false} KeyErrorNames(d: Dialect, entries: seq<Entry>, seen: set<JsString>)
    requires KeyError(d, entries, seen).Some?
    ensures var e := KeyError(d, entries, seen).value;
            || (e == Scalar(NonScalarKey) && d.EncoderV0? && HasBadKey(entries))
            || (e == UnsupportedHostValue
                && (!DistinctKeys(entries) || exists entry | entry in entries :: entry.key in seen))
  {
    hide WellFormed;
    var rest, wider := entries[1..], seen + {entries[0].key};
    assert entries[0] in entries && forall entry | entry in rest :: entry in entries;
    if KeyError(d, entries, seen) == KeyError(d, rest, wider) {
      KeyErrorNames(d, rest, wider);
      if entry :| entry in rest && entry.key in wider && entry.key !in seen { assert entry.key == entries[0].key; }
    }
  }

  lemma ScalarNames(d: Dialect, f: NumberFormat, v: Value)
    requires !v.Arr? && !v.Obj? && Serialize(d, f, v).Err?
    ensures HasCause(d, v, Serialize(d, f, v).error)
  {
    hide WellFormed, Decimal;
  }

  /** A refusal names something that is there: the category given is that of a
      number, a string, a key or an object in the value. */
  lemma {:induction false} FailureNamesCause(d: Dialect, f: NumberFormat, v: Value)
    requires Serialize(d, f, v).Err?
    ensures HasCause(d, v, Serialize(d, f, v).error)
    decreases v, 2
  {
    match v
    case Arr(items) => ItemsName(d, f, items);
    case Obj(entries) => ObjectNames(d, f, v);
    case _ => ScalarNames(d, f, v);
  }

  lemma {:induction false} ItemsName(d: Dialect, f: NumberFormat, items: seq<Value>)
    requires SerializeItems(d, f, items).Err?
    ensures exists i | 0 <= i < |items| :: HasCause(d, items[i], SerializeItems(d, f, items).error)
    decreases items, 0
  {
    hide Serialize, HasCause;
    if Serialize(d, f, items[0]).Err? {
      FailureNamesCause(d, f, items[0]);
    } else {
      ItemsName(d, f, items[1..]);
      var i :| 0 <= i < |items[1..]| && HasCause(d, items[1..][i], SerializeItems(d, f, items[1..]).error);
      assert items[1..][i] == items[i + 1];
    }
  }

  lemma {:induction false} ObjectNames(d: Dialect, f: NumberFormat, v: Value)
    requires v.Obj? && Serialize(d, f, v).Err?
    ensures HasCause(d, v, Serialize(d, f, v).error)
    decreases v, 1
  {
    hide SerializeEntries, KeyError, HasBadKey, DistinctKeys;
    if KeyError(d, v.entries, {}).Some? {
      KeyErrorNames(d, v.entries, {});
    } else {
      SameElements(Sort(v.entries), v.entries);
      EntriesName(d, f, v, Sort(v.entries));
    }
  }

  lemma {:induction false} EntriesName(d: Dialect, f: NumberFormat, owner: Value, entries: seq<Entry>)
    requires owner.Obj? && forall entry | entry in entries :: entry in owner.entries
    requires SerializeEntries(d, f, owner, entries).Err? && KeyError(d, owner.entries, {}) == None
    ensures exists entry | entry in owner.entries ::
              HasCause(d, entry.value, SerializeEntries(d, f, owner, entries).error)
    decreases owner, 0, |entries|
  {
    hide Serialize, HasCause, KeyError, WellFormed;
    assert entries[0] in owner.entries;
    if SerializeEntry(d, f, entries[0]).Err? {
      KeysAreWellFormed(d, owner.entries, entries[0]);
      FailureNamesCause(d, f, entries[0].value);
    } else {
      EntriesName(d, f, owner, entries[1..]);
    }
  }

  lemma KeysAreWellFormed(d: Dialect, entries: seq<Entry>, entry: Entry)
    requires KeyError(d, entries, {}) == None && entry in entries
    ensures d.EncoderV0? ==> WellFormed(entry.key)
  {
    KeyErrorExact(d, entries, {});
    hide KeyError, WellFormed;
  }

  /** And something is there exactly when serialization is refused. */
  lemma RefusedIffCause(d: Dialect, f: NumberFormat, v: Value)
    ensures Serialize(d, f, v).Err? <==> exists e :: HasCause(d, v, e)
  {
    hide IsCause, Serialize, Encodable;
    SerializeIsPrint(d, f, v);
    if Serialize(d, f, v).Err? {
      FailureNamesCause(d, f, v);
      assert HasCause(d, v, Serialize(d, f, v).error);
    } else if e :| HasCause(d, v, e) {
      NoCauseInDomain(d, v, e);
    }
  }

  lemma {:induction false} NoCauseInDomain(d: Dialect, v: Value, e: Category)
    requires Encodable(d, v)
    ensures !HasCause(d, v, e)
    decreases v
  {
    hide WellFormed, DistinctKeys;
    match v
    case Arr(items) =>
      forall i | 0 <= i < |items| ensures !HasCause(d, items[i], e) { NoCauseInDomain(d, items[i], e); }
    case Obj(entries) =>
      forall entry | entry in entries ensures !HasCause(d, entry.value, e) && (d.EncoderV0? ==> WellFormed(entry.key)) {
        assert EncodableEntry(d, entry);
        NoCauseInDomain(d, entry.value, e);
      }
    case _ =>
  }
}
