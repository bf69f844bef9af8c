/** The parser recovers every normal value from its text. */
module JsonRoundTrip {
  import opened Common
  import opened Utf16
  import opened JsonValue
  import opened JsonNumbers
  import opened JsonEncoder
  import opened JsonParser
  import opened JsonCanonical

  // Strings: section 7 of RFC 8259.

  lemma HexDigitsOfUnit(u: CodeUnit)
    ensures u == u / 4096 * 4096 + u / 256 % 16 * 256 + u / 16 % 16 * 16 + u % 16
    ensures u / 4096 < 16
  {
    assert u / 16 / 16 == u / 256 && u / 256 / 16 == u / 4096;
  }

  lemma ReadUnicodeEscape(u: CodeUnit, rest: JsString)
    ensures ParseUnit(UnicodeEscape(u) + rest) == Some((u, rest))
  {
    HexDigitsOfUnit(u);
    var s := UnicodeEscape(u) + rest;
    var a, b, c, e := u / 4096, u / 256 % 16, u / 16 % 16, u % 16;
    assert HexValue(HexUnit(a)) == Some(a) && HexValue(HexUnit(b)) == Some(b)
        && HexValue(HexUnit(c)) == Some(c) && HexValue(HexUnit(e)) == Some(e);
    hide HexValue, HexUnit;
    assert s[0] == BACKSLASH && s[1] == 0x75 && s[6..] == rest;
    assert s[2..][0] == HexUnit(a) && s[2..][1] == HexUnit(b) && s[2..][2] == HexUnit(c) && s[2..][3] == HexUnit(e);
    assert ReadHex(s[2..]) == Some(u);
  }

  /** Every escape reads back as the unit it stands for. */
  lemma ReadEscapedUnit(d: Dialect, u: CodeUnit, rest: JsString)
    ensures ParseUnit(EscapeUnit(d, u) + rest) == Some((u, rest))
  {
    var s := EscapeUnit(d, u) + rest;
    if EscapeUnit(d, u) == UnicodeEscape(u) {
      ReadUnicodeEscape(u, rest);
    } else if |EscapeUnit(d, u)| == 2 {
      assert s[2..] == rest;
    } else {
      assert s[1..] == rest;
    }
  }

  predicate EscapesSafely(d: Dialect, u: CodeUnit) {
    EscapeUnit(d, u) != [] && EscapeUnit(d, u)[0] != QUOTE
  }

  lemma EscapeNeverStartsWithQuote(d: Dialect, u: CodeUnit)
    ensures EscapesSafely(d, u)
  {
  }

  /** A string literal reads back as the string, whatever follows it. */
  lemma {:induction false} ReadEscaped(d: Dialect, s: JsString, rest: JsString)
    ensures ParseString(Escape(d, s) + [QUOTE] + rest) == Some((s, rest))
    decreases |s|
  {
    if s == [] {
      assert Escape(d, s) + [QUOTE] + rest == [QUOTE] + rest;
    } else if StartsWithPair(s) {
      ReadEscaped(d, s[2..], rest);
      ReadPair(d, s, rest);
    } else {
      ReadEscaped(d, s[1..], rest);
      ReadSingle(d, s, rest);
    }
  }

  lemma ReadPair(d: Dialect, s: JsString, rest: JsString)
    requires StartsWithPair(s) && ParseString(Escape(d, s[2..]) + [QUOTE] + rest) == Some((s[2..], rest))
    ensures ParseString(Escape(d, s) + [QUOTE] + rest) == Some((s, rest))
  {
    var tail := Escape(d, s[2..]) + [QUOTE] + rest;
    assert Escape(d, s) + [QUOTE] + rest == [s[0]] + ([s[1]] + tail);
    hide Escape;
    ReadPlain(s[1], tail, s[2..], rest);
    assert [s[1]] + s[2..] == s[1..];
    ReadPlain(s[0], [s[1]] + tail, s[1..], rest);
    assert [s[0]] + s[1..] == s;
  }

  lemma ReadPlain(u: CodeUnit, text: JsString, s: JsString, rest: JsString)
    requires u > 0x5c && ParseString(text) == Some((s, rest))
    ensures ParseString([u] + text) == Some(([u] + s, rest))
  {
    assert ([u] + text)[1..] == text;
  }

  lemma ReadSingle(d: Dialect, s: JsString, rest: JsString)
    requires s != [] && !StartsWithPair(s) && ParseString(Escape(d, s[1..]) + [QUOTE] + rest) == Some((s[1..], rest))
    ensures ParseString(Escape(d, s) + [QUOTE] + rest) == Some((s, rest))
  {
    hide EscapeUnit, ParseUnit, ReadHex, ShortEscape;
    var tail := Escape(d, s[1..]) + [QUOTE] + rest;
    assert Escape(d, s) + [QUOTE] + rest == EscapeUnit(d, s[0]) + tail;
    ReadEscapedUnit(d, s[0], tail);
    EscapeNeverStartsWithQuote(d, s[0]);
    assert [s[0]] + s[1..] == s;
    hide Escape;
  }

  // Numbers.

  lemma {:induction false} RunOfToken(token: JsString, rest: JsString)
    requires forall u | u in token :: IsNumberUnit(u)
    requires rest != [] ==> !IsNumberUnit(rest[0])
    ensures NumberRun(token + rest) == |token|
  {
    if token == [] {
      assert token + rest == rest;
    } else {
      RunOfToken(token[1..], rest);
      assert (token + rest)[1..] == token[1..] + rest;
    }
  }

  /** What no value text starts with is left alone by the white-space skip. */
  predicate StartsValue(s: JsString) {
    s != [] && (s[0] in {0x6e, 0x74, 0x66, QUOTE, 0x5b, 0x7b, 0x2d} || IsDigit(s[0]))
  }

  lemma ReadToken(f: NumberFormat, token: JsString, n: F64, rest: JsString)
    requires IsNumberToken(token) && ReadNumber(f, token) == Some(n)
    requires rest != [] ==> !IsNumberUnit(rest[0])
    ensures ParseValue(f, token + rest) == Some((Number(n), rest))
  {
    var s := token + rest;
    RunOfToken(token, rest);
    assert s[0] == token[0] && s[..|token|] == token && s[|token|..] == rest;
    assert SkipSpace(s) == s;
    hide ReadNumber, IsNumberToken;
  }

  // Normal values.

  /** Values in the image of `Normal` on the encoder's domain. */
  predicate IsNormal(d: Dialect, v: Value) {
    match v
    case Null => true
    case Bool(_) => true
    case Str(s) => d.EncoderV0? ==> WellFormed(s)
    case Number(Integral(n)) => -MAX_SAFE_INTEGER <= n <= MAX_SAFE_INTEGER
    case Number(Fraction(_)) => d.EncoderV0?
    case Number(_) => false
    case BigInteger(_) => false
    case Arr(items) => forall item | item in items :: IsNormal(d, item)
    case Obj(entries) =>
      && Ascending(entries)
      && (forall e | e in entries :: d.EncoderV0? ==> WellFormed(e.key))
      && (forall e | e in entries :: IsNormal(d, e.value))
  }

  lemma {:induction false} NormalIsNormal(d: Dialect, v: Value)
    requires Encodable(d, v)
    ensures IsNormal(d, Normal(d, v))
    decreases v, 1
  {
    match v
    case Arr(items) =>
      var n := Normal(d, v).items;
      forall item | item in n ensures IsNormal(d, item) {
        var i :| 0 <= i < |n| && n[i] == item;
        NormalIsNormal(d, items[i]);
      }
    case Obj(entries) => NormalObjectIsNormal(d, entries);
    case _ =>
  }

  lemma {:induction false} NormalObjectIsNormal(d: Dialect, entries: seq<Entry>)
    requires Encodable(d, Obj(entries))
    ensures IsNormal(d, Normal(d, Obj(entries)))
    decreases Obj(entries), 0
  {
    hide WellFormed, Sort, DistinctKeys;
    var sorted, n := Sort(entries), Normal(d, Obj(entries)).entries;
    SameElements(sorted, entries);
    SortAscending(entries);
    AscendingByKeys(sorted, n);
    forall e | e in n ensures (d.EncoderV0? ==> WellFormed(e.key)) && IsNormal(d, e.value) {
      var i :| 0 <= i < |n| && n[i] == e;
      assert sorted[i] in entries && EncodableEntry(d, sorted[i]);
      NormalIsNormal(d, sorted[i].value);
    }
    hide Ascending;
  }

  lemma {:induction false} AscendingByKeys(a: seq<Entry>, b: seq<Entry>)
    requires Ascending(a) && |a| == |b| && forall i | 0 <= i < |a| :: a[i].key == b[i].key
    ensures Ascending(b)
  {
    if a != [] {
      AscendingByKeys(a[1..], b[1..]);
      forall e | e in b[1..] ensures LexLess(b[0].key, e.key) {
        var i :| 0 <= i < |b[1..]| && b[1..][i] == e;
        assert a[1..][i] in a[1..];
      }
    }
  }

  lemma PrintStartsValue(d: Dialect, f: NumberFormat, v: Value)
    requires IsNormal(d, v) && Suits(d, f)
    ensures StartsValue(Print(d, f, v))
  {
    match v
    case Number(Integral(n)) => DecimalIsToken(n);
    case Number(Fraction(bits)) => assert IsNumberToken(f.render(bits));
    case _ =>
  }

  lemma ReadString(d: Dialect, f: NumberFormat, s: JsString, rest: JsString)
    ensures ParseValue(f, Quoted(d, s) + rest) == Some((Str(s), rest))
  {
    hide Escape, ParseString, ParseUnit;
    var text := Quoted(d, s) + rest;
    ReadEscaped(d, s, rest);
    assert text[0] == QUOTE && text[1..] == Escape(d, s) + [QUOTE] + rest;
    assert SkipSpace(text) == text;
  }

  lemma ReadScalar(d: Dialect, f: NumberFormat, v: Value, rest: JsString)
    requires IsNormal(d, v) && Suits(d, f) && !v.Arr? && !v.Obj?
    requires rest != [] ==> !IsNumberUnit(rest[0])
    ensures ParseValue(f, Print(d, f, v) + rest) == Some((v, rest))
  {
    hide ParseValue, Quoted, Decimal, ReadNumber, IsNumberToken, IsPlainInteger;
    match v
    case Str(s) => ReadString(d, f, s, rest);
    case Number(Integral(n)) =>
      DecimalIsToken(n);
      ReadNumberOfDecimal(f, n);
      ReadToken(f, Decimal(n), Integral(n), rest);
    case Number(Fraction(bits)) => ReadFraction(f, bits, rest);
    case Null => ReadWord(f, NULL_TEXT, rest);
    case Bool(b) => ReadWord(f, if b then TRUE_TEXT else FALSE_TEXT, rest);
  }

  lemma ReadFraction(f: NumberFormat, bits: FractionBits, rest: JsString)
    requires Faithful(f) && (rest != [] ==> !IsNumberUnit(rest[0]))
    ensures ParseValue(f, f.render(bits) + rest) == Some((Number(Fraction(bits)), rest))
  {
    assert IsNumberToken(f.render(bits)) && !IsPlainInteger(f.render(bits))
           && f.read(f.render(bits)) == Some(Fraction(bits));
    ReadToken(f, f.render(bits), Fraction(bits), rest);
  }

  lemma ReadWord(f: NumberFormat, word: JsString, rest: JsString)
    requires word in {NULL_TEXT, TRUE_TEXT, FALSE_TEXT}
    ensures ParseValue(f, word + rest)
         == Some((if word == NULL_TEXT then Null else Bool(word == TRUE_TEXT), rest))
  {
    var s := word + rest;
    assert SkipSpace(s) == s && s[|word|..] == rest;
    assert s[0] == word[0] && (word == NULL_TEXT ==> NULL_TEXT <= s) && (word == TRUE_TEXT ==> TRUE_TEXT <= s)
        && (word == FALSE_TEXT ==> FALSE_TEXT <= s);
  }

  function Then(u: CodeUnit, rest: JsString): JsString { [u] + rest }

  /** Array elements and the closing bracket, then the rest of the text. */
  function ItemsText(d: Dialect, f: NumberFormat, items: seq<Value>, rest: JsString): JsString {
    PrintItems(d, f, items) + [0x5d] + rest
  }

  /** Object entries and the closing brace, then the rest of the text. */
  function EntriesText(d: Dialect, f: NumberFormat, entries: seq<Entry>, rest: JsString): JsString {
    PrintEntries(d, f, entries) + [0x7d] + rest
  }

  lemma ThenParts(u: CodeUnit, rest: JsString)
    ensures Then(u, rest) != [] && Then(u, rest)[0] == u && Then(u, rest)[1..] == rest
    ensures !IsSpace(u) ==> SkipSpace(Then(u, rest)) == Then(u, rest)
  {
  }

  lemma ItemsTextParts(d: Dialect, f: NumberFormat, items: seq<Value>, rest: JsString)
    requires items != []
    ensures ItemsText(d, f, items, rest)
         == Print(d, f, items[0])
            + if |items| == 1 then Then(0x5d, rest) else Then(COMMA, ItemsText(d, f, items[1..], rest))
  {
    hide Print;
  }

  lemma EntriesTextParts(d: Dialect, f: NumberFormat, entries: seq<Entry>, rest: JsString)
    requires entries != []
    ensures EntriesText(d, f, entries, rest)
         == PrintEntry(d, f, entries[0])
            + if |entries| == 1 then Then(0x7d, rest) else Then(COMMA, EntriesText(d, f, entries[1..], rest))
  {
    hide PrintEntry;
  }

  /** The round trip: a normal value reads back from its text, and whatever
      follows it is left untouched. */
  lemma {:induction false} ReadPrinted(d: Dialect, f: NumberFormat, v: Value, rest: JsString)
    requires IsNormal(d, v) && Suits(d, f)
    requires rest != [] ==> !IsNumberUnit(rest[0])
    ensures ParseValue(f, Print(d, f, v) + rest) == Some((v, rest))
    decreases v, 2
  {
    match v
    case Arr(items) =>
      if items != [] {
        ReadItems(d, f, items, rest);
        assert IsNormal(d, items[0]);
        PrintStartsValue(d, f, items[0]);
      }
      ReadArray(d, f, items, rest);
    case Obj(entries) =>
      if entries != [] {
        ReadEntries(d, f, entries, [], rest);
        assert [] + entries == entries;
      }
      ReadObject(d, f, entries, rest);
    case _ => ReadScalar(d, f, v, rest);
  }

  lemma ReadArray(d: Dialect, f: NumberFormat, items: seq<Value>, rest: JsString)
    requires items != [] ==> StartsValue(Print(d, f, items[0]))
    requires items != [] ==> ParseItems(f, ItemsText(d, f, items, rest)) == Some((items, rest))
    ensures ParseValue(f, Print(d, f, Arr(items)) + rest) == Some((Arr(items), rest))
  {
    hide ParseValue, ParseItems;
    var inner := ItemsText(d, f, items, rest);
    assert Print(d, f, Arr(items)) + rest == Then(0x5b, inner);
    if items == [] {
      assert inner == Then(0x5d, rest);
      ReadEmpty(f, 0x5b, rest);
    } else {
      assert inner[0] == Print(d, f, items[0])[0];
      OpenArray(f, inner);
    }
  }

  lemma ReadObject(d: Dialect, f: NumberFormat, entries: seq<Entry>, rest: JsString)
    requires entries != [] ==> ParseMembers(f, EntriesText(d, f, entries, rest), []) == Some((entries, rest))
    ensures ParseValue(f, Print(d, f, Obj(entries)) + rest) == Some((Obj(entries), rest))
  {
    hide ParseValue, ParseMembers;
    var inner := EntriesText(d, f, entries, rest);
    assert Print(d, f, Obj(entries)) + rest == Then(0x7b, inner);
    if entries == [] {
      assert inner == Then(0x7d, rest);
      ReadEmpty(f, 0x7b, rest);
    } else {
      assert inner[0] == PrintEntry(d, f, entries[0])[0] == QUOTE;
      OpenObject(f, inner);
    }
  }

  lemma ReadEmpty(f: NumberFormat, open: CodeUnit, rest: JsString)
    requires open == 0x5b || open == 0x7b
    ensures ParseValue(f, Then(open, Then(open + 2, rest))) == Some((if open == 0x5b then Arr([]) else Obj([]), rest))
  {
    ThenParts(open, Then(open + 2, rest));
    ThenParts(open + 2, rest);
    hide Then;
  }

  lemma OpenArray(f: NumberFormat, inner: JsString)
    requires StartsValue(inner) && ParseItems(f, inner).Some?
    ensures var r := ParseItems(f, inner).value; ParseValue(f, Then(0x5b, inner)) == Some((Arr(r.0), r.1))
  {
    ThenParts(0x5b, inner);
    hide ParseItems, Then;
    assert SkipSpace(inner) == inner;
  }

  lemma OpenObject(f: NumberFormat, inner: JsString)
    requires inner != [] && inner[0] == QUOTE && ParseMembers(f, inner, []).Some?
    ensures var r := ParseMembers(f, inner, []).value; ParseValue(f, Then(0x7b, inner)) == Some((Obj(r.0), r.1))
  {
    ThenParts(0x7b, inner);
    hide ParseMembers, Then;
    assert SkipSpace(inner) == inner;
  }

  lemma {:induction false} ReadItems(d: Dialect, f: NumberFormat, items: seq<Value>, rest: JsString)
    requires items != [] && (forall item | item in items :: IsNormal(d, item)) && Suits(d, f)
    ensures ParseItems(f, ItemsText(d, f, items, rest)) == Some((items, rest))
    decreases items, 0
  {
    assert IsNormal(d, items[0]);
    hide Faithful, Print, ItemsText, ParseItems, ParseValue;
    if |items| == 1 {
      ThenParts(0x5d, rest);
      ReadPrinted(d, f, items[0], Then(0x5d, rest));
      LastItem(d, f, items, rest);
    } else {
      ThenParts(COMMA, ItemsText(d, f, items[1..], rest));
      ReadPrinted(d, f, items[0], Then(COMMA, ItemsText(d, f, items[1..], rest)));
      ReadItems(d, f, items[1..], rest);
      NextItem(d, f, items, rest);
    }
  }

  lemma LastItem(d: Dialect, f: NumberFormat, items: seq<Value>, rest: JsString)
    requires |items| == 1
    requires ParseValue(f, Print(d, f, items[0]) + Then(0x5d, rest)) == Some((items[0], Then(0x5d, rest)))
    ensures ParseItems(f, ItemsText(d, f, items, rest)) == Some((items, rest))
  {
    ItemsTextParts(d, f, items, rest);
    ThenParts(0x5d, rest);
    hide ParseValue, Then, ItemsText, Print;
    assert items == [items[0]];
  }

  lemma NextItem(d: Dialect, f: NumberFormat, items: seq<Value>, rest: JsString)
    requires |items| > 1
    requires var after := Then(COMMA, ItemsText(d, f, items[1..], rest));
             ParseValue(f, Print(d, f, items[0]) + after) == Some((items[0], after))
    requires ParseItems(f, ItemsText(d, f, items[1..], rest)) == Some((items[1..], rest))
    ensures ParseItems(f, ItemsText(d, f, items, rest)) == Some((items, rest))
  {
    ItemsTextParts(d, f, items, rest);
    ThenParts(COMMA, ItemsText(d, f, items[1..], rest));
    hide ParseValue, Then, ItemsText, Print;
    assert items == [items[0]] + items[1..];
  }

  lemma {:induction false} PutNew(entries: seq<Entry>, e: Entry)
    requires forall x | x in entries :: x.key != e.key
    ensures Put(entries, e.key, e.value) == entries + [e]
  {
    if entries != [] {
      PutNew(entries[1..], e);
      assert entries == [entries[0]] + entries[1..];
    }
  }

  predicate KeysApart(earlier: seq<Entry>, entries: seq<Entry>) {
    forall e, x | e in entries && x in earlier :: x.key != e.key
  }

  lemma NextKeyIsNew(entries: seq<Entry>, earlier: seq<Entry>)
    requires entries != [] && Ascending(entries) && KeysApart(earlier, entries)
    ensures Put(earlier, entries[0].key, entries[0].value) == earlier + [entries[0]]
    ensures KeysApart(earlier + [entries[0]], entries[1..])
  {
    LexIrreflexive(entries[0].key);
    assert entries[0] in entries;
    PutNew(earlier, entries[0]);
  }

  lemma {:induction false} ReadEntries(d: Dialect, f: NumberFormat, entries: seq<Entry>, earlier: seq<Entry>,
                                       rest: JsString)
    requires entries != [] && Suits(d, f) && Ascending(entries)
    requires forall e | e in entries :: IsNormal(d, e.value)
    requires KeysApart(earlier, entries)
    ensures ParseMembers(f, EntriesText(d, f, entries, rest), earlier) == Some((earlier + entries, rest))
    decreases entries, 0
  {
    hide Faithful, IsNormal, KeysApart, EntriesText, ParseMembers, ReadsEntry, LexLess;
    var e := entries[0];
    NextKeyIsNew(entries, earlier);
    hide Put;
    if |entries| == 1 {
      ThenParts(0x7d, rest);
      ReadEntry(d, f, e, Then(0x7d, rest));
      LastEntry(d, f, entries, rest, earlier);
      assert entries == [e];
    } else {
      ThenParts(COMMA, EntriesText(d, f, entries[1..], rest));
      ReadEntry(d, f, e, Then(COMMA, EntriesText(d, f, entries[1..], rest)));
      NextEntry(d, f, entries, rest, earlier);
      ReadEntries(d, f, entries[1..], earlier + [e], rest);
      assert earlier + [e] + entries[1..] == earlier + entries;
    }
  }

  /** Reading `"key":value` from the front of `s`, up to `after`. */
  predicate ReadsEntry(f: NumberFormat, s: JsString, e: Entry, after: JsString) {
    && s != [] && s[0] == QUOTE
    && match ParseString(s[1..])
       case None => false
       case Some((key, rest)) =>
         && key == e.key && rest != [] && rest[0] == COLON
         && ParseValue(f, rest[1..]) == Some((e.value, after))
  }

  lemma ReadEntry(d: Dialect, f: NumberFormat, e: Entry, after: JsString)
    requires IsNormal(d, e.value) && Suits(d, f)
    requires after != [] ==> !IsNumberUnit(after[0])
    ensures ReadsEntry(f, PrintEntry(d, f, e) + after, e, after)
    decreases e.value, 3
  {
    ReadPrinted(d, f, e.value, after);
    ReadKey(d, f, e, after);
  }

  lemma ReadKey(d: Dialect, f: NumberFormat, e: Entry, after: JsString)
    requires ParseValue(f, Print(d, f, e.value) + after) == Some((e.value, after))
    ensures ReadsEntry(f, PrintEntry(d, f, e) + after, e, after)
  {
    hide Print, Escape, ParseString, ParseValue;
    var s, value := PrintEntry(d, f, e) + after, Then(COLON, Print(d, f, e.value) + after);
    assert s[1..] == Escape(d, e.key) + [QUOTE] + value;
    ReadEscaped(d, e.key, value);
    ThenParts(COLON, Print(d, f, e.value) + after);
  }

  lemma LastEntry(d: Dialect, f: NumberFormat, entries: seq<Entry>, rest: JsString, earlier: seq<Entry>)
    requires |entries| == 1
    requires ReadsEntry(f, PrintEntry(d, f, entries[0]) + Then(0x7d, rest), entries[0], Then(0x7d, rest))
    ensures ParseMembers(f, EntriesText(d, f, entries, rest), earlier)
         == Some((Put(earlier, entries[0].key, entries[0].value), rest))
  {
    EntriesTextParts(d, f, entries, rest);
    ThenParts(0x7d, rest);
    hide ParseValue, ParseString, Put, Then, EntriesText, PrintEntry;
    var s := EntriesText(d, f, entries, rest);
    var after := ParseString(s[1..]).value.1;
    assert SkipSpace(s) == s && SkipSpace(after) == after;
  }

  lemma NextEntry(d: Dialect, f: NumberFormat, entries: seq<Entry>, rest: JsString, earlier: seq<Entry>)
    requires |entries| > 1
    requires var after := Then(COMMA, EntriesText(d, f, entries[1..], rest));
             ReadsEntry(f, PrintEntry(d, f, entries[0]) + after, entries[0], after)
    ensures ParseMembers(f, EntriesText(d, f, entries, rest), earlier)
         == ParseMembers(f, EntriesText(d, f, entries[1..], rest), Put(earlier, entries[0].key, entries[0].value))
  {
    EntriesTextParts(d, f, entries, rest);
    ThenParts(COMMA, EntriesText(d, f, entries[1..], rest));
    hide ParseValue, ParseString, Put, Then, EntriesText, PrintEntry;
    var s := EntriesText(d, f, entries, rest);
    var after := ParseString(s[1..]).value.1;
    assert SkipSpace(s) == s && SkipSpace(after) == after;
  }
}
