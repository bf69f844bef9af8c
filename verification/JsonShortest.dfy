/** The text of a string is the shortest of all literals that read as it, and the
    only one of its length with lower-case digits. */
module JsonShortest {
  import opened Common
  import opened Utf16
  import opened JsonEncoder
  import opened JsonParser
  import opened JsonRoundTrip
  import opened JsonTheorems

  /** Literals that the fold canonicalizer could write: it leaves no lone surrogate
      and no line separator as it is. The encoder may write any. */
  predicate Writable(d: Dialect, t: JsString) {
    d.FoldCanonical? ==> WellFormed(t) && 0x2028 !in t && 0x2029 !in t
  }

  predicate IsUpperHex(u: CodeUnit) { 0x41 <= u <= 0x46 }

  /** No upper-case digit in a hexadecimal escape at the start. */
  predicate LowerStart(t: JsString) {
    |t| >= 6 && t[0] == BACKSLASH && t[1] == 0x75 ==>
      !IsUpperHex(t[2]) && !IsUpperHex(t[3]) && !IsUpperHex(t[4]) && !IsUpperHex(t[5])
  }

  /** No upper-case digit in any hexadecimal escape up to the closing quote. */
  predicate LowerDigits(t: JsString)
    decreases |t|
  {
    t == [] || t[0] == QUOTE || ParseUnit(t).None? || (LowerStart(t) && LowerDigits(ParseUnit(t).value.1))
  }

  // One unit.

  lemma LowerHexIsHexUnit(u: CodeUnit)
    requires HexValue(u).Some?
    ensures HexValue(u).value < 16
    ensures !IsUpperHex(u) ==> u == HexUnit(HexValue(u).value)
  {
  }

  lemma HexEscapeRead(t: JsString)
    requires |t| >= 6 && t[0] == BACKSLASH && t[1] == 0x75 && ReadHex(t[2..]).Some? && LowerStart(t)
    ensures UnicodeEscape(ReadHex(t[2..]).value) == t[..6]
  {
    var s, u := t[2..], ReadHex(t[2..]).value;
    assert s[0] == t[2] && s[1] == t[3] && s[2] == t[4] && s[3] == t[5];
    forall i | 0 <= i < 4 ensures HexValue(s[i]).Some? {
    }
    LowerHexIsHexUnit(s[0]);
    LowerHexIsHexUnit(s[1]);
    LowerHexIsHexUnit(s[2]);
    LowerHexIsHexUnit(s[3]);
    Nibbles(HexValue(s[0]).value, HexValue(s[1]).value, HexValue(s[2]).value, HexValue(s[3]).value, u);
    hide HexValue, HexUnit, ReadHex;
  }

  lemma Nibbles(a: nat, b: nat, c: nat, e: nat, u: nat)
    requires a < 16 && b < 16 && c < 16 && e < 16 && u == a * 4096 + b * 256 + c * 16 + e
    ensures u / 4096 == a && u / 256 % 16 == b && u / 16 % 16 == c && u % 16 == e
  {
    assert u / 256 == a * 16 + b && u / 16 == a * 256 + b * 16 + c;
  }

  /** What is read as one unit is at least as long as its escape, and is the escape
      when it is no longer and its digits are in lower case. */
  lemma UnitIsShortest(d: Dialect, t: JsString)
    requires ParseUnit(t).Some?
    requires d.FoldCanonical? && t[0] != BACKSLASH ==> !IsSurrogate(t[0]) && t[0] != 0x2028 && t[0] != 0x2029
    ensures var (u, rest) := ParseUnit(t).value;
            && |EscapeUnit(d, u)| + |rest| <= |t|
            && (|EscapeUnit(d, u)| + |rest| == |t| && LowerStart(t) ==> t == EscapeUnit(d, u) + rest)
  {
    var (u, rest) := ParseUnit(t).value;
    if t[0] == BACKSLASH && t[1] == 0x75 {
      if |EscapeUnit(d, u)| == 6 && LowerStart(t) {
        assert EscapeUnit(d, u) == UnicodeEscape(u);
        HexEscapeRead(t);
        assert t == t[..6] + t[6..];
      }
    } else if t[0] == BACKSLASH {
      assert t == [t[0], t[1]] + t[2..];
    } else {
      assert t == [t[0]] + t[1..];
    }
  }

  // Whole strings.

  lemma EscapeStep(d: Dialect, s: JsString)
    requires s != []
    ensures Escape(d, s)
         == if StartsWithPair(s) then [s[0], s[1]] + Escape(d, s[2..]) else EscapeUnit(d, s[0]) + Escape(d, s[1..])
  {
    hide EscapeUnit;
  }

  lemma UnitLength(d: Dialect, u: CodeUnit)
    ensures |EscapeUnit(d, u)| >= 1
    ensures |EscapeUnit(d, u)| == 1 ==> EscapeUnit(d, u) == [u]
  {
  }

  /** One unit at a time the text only grows, and it is put together so unless it is shorter. */
  lemma EscapeByUnits(d: Dialect, s: JsString)
    requires s != []
    ensures |Escape(d, s)| <= |EscapeUnit(d, s[0])| + |Escape(d, s[1..])|
    ensures |Escape(d, s)| == |EscapeUnit(d, s[0])| + |Escape(d, s[1..])| ==>
              Escape(d, s) == EscapeUnit(d, s[0]) + Escape(d, s[1..])
  {
    hide Escape, EscapeUnit;
    EscapeStep(d, s);
    if StartsWithPair(s) {
      assert !StartsWithPair(s[1..]) && s[1..][1..] == s[2..] && s[1..][0] == s[1];
      EscapeStep(d, s[1..]);
      UnitLength(d, s[0]);
      UnitLength(d, s[1]);
      TwoUnits(s[0], s[1], EscapeUnit(d, s[0]), EscapeUnit(d, s[1]), Escape(d, s[2..]));
    }
  }

  lemma TwoUnits(u: CodeUnit, w: CodeUnit, a: JsString, b: JsString, rest: JsString)
    requires |a| >= 1 && |b| >= 1 && (|a| == 1 ==> a == [u]) && (|b| == 1 ==> b == [w])
    ensures |[u, w] + rest| <= |a| + |b + rest|
    ensures |[u, w] + rest| == |a| + |b + rest| ==> [u, w] + rest == a + (b + rest)
  {
  }

  function Written(d: Dialect, s: JsString, rest: JsString): JsString { Escape(d, s) + [QUOTE] + rest }

  /** A surrogate that stands as it is in a writable literal starts a pair. */
  lemma PairInLiteral(t: JsString)
    requires WellFormed(t) && t != [] && IsSurrogate(t[0])
    ensures StartsWithPair(t) && WellFormed(t[2..])
    ensures ParseUnit(t) == Some((t[0], t[1..])) && ParseUnit(t[1..]) == Some((t[1], t[2..]))
  {
    assert !LoneAt(t, 0);
    Utf8.DropKeepsWellFormed(t, 2);
    assert t[1..][1..] == t[2..];
  }

  lemma WritableRest(d: Dialect, t: JsString)
    requires Writable(d, t) && ParseUnit(t).Some? && !(d.FoldCanonical? && IsSurrogate(t[0]))
    ensures Writable(d, ParseUnit(t).value.1)
  {
    if d.FoldCanonical? {
      var n := |t| - |ParseUnit(t).value.1|;
      assert ParseUnit(t).value.1 == t[n..];
      if n == 6 { LastDigitIsAscii(t); }
      Utf8.DropKeepsWellFormed(t, n);
    }
  }

  lemma LastDigitIsAscii(t: JsString)
    requires |t| >= 6 && ReadHex(t[2..]).Some?
    ensures t[5] < 0x80
  {
    assert t[2..][3] == t[5];
  }

  /** Of all literals that read as a string the encoder writes the shortest, and of
      the shortest the one with lower-case digits. The fold canonicalizer does so
      among the literals it could write. */
  lemma {:induction false} WrittenIsShortest(d: Dialect, s: JsString, t: JsString, rest: JsString)
    requires Writable(d, t) && ParseString(t) == Some((s, rest))
    ensures |Written(d, s, rest)| <= |t|
    ensures |Written(d, s, rest)| == |t| && LowerDigits(t) ==> t == Written(d, s, rest)
    decreases |t|
  {
    if t[0] == QUOTE {
      assert t == [QUOTE] + t[1..];
    } else if d.FoldCanonical? && IsSurrogate(t[0]) {
      PairInLiteral(t);
      assert s == [t[0], t[1]] + s[2..] && ParseString(t[2..]) == Some((s[2..], rest)) by { PairParsed(s, t, rest); }
      WrittenIsShortest(d, s[2..], t[2..], rest);
      PairWritten(d, s, t, rest);
    } else {
      var (u, after) := ParseUnit(t).value;
      assert ParseString(after) == Some((s[1..], rest)) && s[0] == u;
      WritableRest(d, t);
      WrittenIsShortest(d, s[1..], after, rest);
      UnitIsShortest(d, t);
      UnitWritten(d, s, t, after, rest);
    }
  }

  lemma PairParsed(s: JsString, t: JsString, rest: JsString)
    requires ParseString(t) == Some((s, rest)) && StartsWithPair(t)
    requires ParseUnit(t) == Some((t[0], t[1..])) && ParseUnit(t[1..]) == Some((t[1], t[2..]))
    ensures |s| >= 2 && s == [t[0], t[1]] + s[2..] && ParseString(t[2..]) == Some((s[2..], rest))
  {
    hide ParseUnit;
    assert ParseString(t[1..]) == Some((s[1..], rest));
    assert s[1..][1..] == s[2..];
  }

  lemma PairWritten(d: Dialect, s: JsString, t: JsString, rest: JsString)
    requires StartsWithPair(t) && |s| >= 2 && s == [t[0], t[1]] + s[2..]
    requires ParseUnit(t) == Some((t[0], t[1..])) && ParseUnit(t[1..]) == Some((t[1], t[2..]))
    requires |Written(d, s[2..], rest)| <= |t[2..]|
    requires |Written(d, s[2..], rest)| == |t[2..]| && LowerDigits(t[2..]) ==> t[2..] == Written(d, s[2..], rest)
    ensures |Written(d, s, rest)| <= |t|
    ensures |Written(d, s, rest)| == |t| && LowerDigits(t) ==> t == Written(d, s, rest)
  {
    EscapeStep(d, s);
    hide ParseUnit, Escape;
    Joined([s[0], s[1]], Escape(d, s[2..]), [QUOTE], rest);
    if LowerDigits(t) { assert LowerDigits(t[1..]) && LowerDigits(t[2..]); }
    assert t == [t[0], t[1]] + t[2..];
  }

  lemma UnitWritten(d: Dialect, s: JsString, t: JsString, after: JsString, rest: JsString)
    requires s != [] && t != [] && t[0] != QUOTE && ParseUnit(t) == Some((s[0], after))
    requires |EscapeUnit(d, s[0])| + |after| <= |t|
    requires |EscapeUnit(d, s[0])| + |after| == |t| && LowerStart(t) ==> t == EscapeUnit(d, s[0]) + after
    requires |Written(d, s[1..], rest)| <= |after|
    requires |Written(d, s[1..], rest)| == |after| && LowerDigits(after) ==> after == Written(d, s[1..], rest)
    ensures |Written(d, s, rest)| <= |t|
    ensures |Written(d, s, rest)| == |t| && LowerDigits(t) ==> t == Written(d, s, rest)
  {
    hide ParseUnit, Escape, EscapeUnit, LowerStart;
    EscapeByUnits(d, s);
    var unit, tail := EscapeUnit(d, s[0]), Escape(d, s[1..]);
    assert |Written(d, s, rest)| <= |unit| + |Written(d, s[1..], rest)|;
    if |Written(d, s, rest)| == |t| && LowerDigits(t) {
      assert LowerStart(t) && LowerDigits(after);
      Joined(unit, tail, [QUOTE], rest);
    }
  }

  lemma Joined(a: JsString, b: JsString, c: JsString, e: JsString)
    ensures (a + b) + c + e == a + (b + c + e)
  {
  }

  /** What is written is such a literal: its digits are in lower case. */
  lemma {:induction false} WrittenIsLower(d: Dialect, s: JsString, rest: JsString)
    ensures LowerDigits(Written(d, s, rest))
    decreases |s|
  {
    hide Escape, EscapeUnit, ParseUnit, LowerDigits;
    if s == [] {
      QuoteIsLower(d, s, rest);
    } else if StartsWithPair(s) {
      WrittenIsLower(d, s[2..], rest);
      EscapeStep(d, s);
      Joined([s[0], s[1]], Escape(d, s[2..]), [QUOTE], rest);
      PairIsLower(s[0], s[1], Written(d, s[2..], rest));
    } else {
      WrittenIsLower(d, s[1..], rest);
      EscapeStep(d, s);
      Joined(EscapeUnit(d, s[0]), Escape(d, s[1..]), [QUOTE], rest);
      UnitIsLower(d, s[0], Written(d, s[1..], rest));
    }
  }

  lemma QuoteIsLower(d: Dialect, s: JsString, rest: JsString)
    requires s == []
    ensures LowerDigits(Written(d, s, rest))
  {
    assert Written(d, s, rest)[0] == QUOTE;
    hide ParseUnit;
  }

  lemma PairIsLower(u: CodeUnit, w: CodeUnit, t: JsString)
    requires u > 0x5c && w > 0x5c && LowerDigits(t)
    ensures LowerDigits([u, w] + t)
  {
    var s := [w] + t;
    assert s[1..] == t && ([u, w] + t)[1..] == s;
    assert LowerDigits(s);
  }

  lemma UnitIsLower(d: Dialect, u: CodeUnit, t: JsString)
    requires LowerDigits(t)
    ensures LowerDigits(EscapeUnit(d, u) + t)
  {
    ReadEscapedUnit(d, u, t);
    EscapeStartsLower(d, u, t);
    hide EscapeUnit, ParseUnit, LowerStart;
  }

  lemma EscapeStartsLower(d: Dialect, u: CodeUnit, t: JsString)
    ensures LowerStart(EscapeUnit(d, u) + t)
  {
    if |EscapeUnit(d, u)| == 6 {
      assert (EscapeUnit(d, u) + t)[..6] == UnicodeEscape(u);
    }
  }

  lemma {:induction false} WrittenIsWritable(s: JsString)
    ensures Writable(FoldCanonical, Written(FoldCanonical, s, []))
  {
    EscapeShape(FoldCanonical, s);
    SeparatorsEscaped(s);
    var text := Escape(FoldCanonical, s);
    hide Escape;
    assert WellFormed([QUOTE]);
    WellFormedConcat(text, [QUOTE]);
    assert text + [QUOTE] + [] == text + [QUOTE];
  }

  lemma {:induction false} SeparatorsEscaped(s: JsString)
    ensures 0x2028 !in Escape(FoldCanonical, s) && 0x2029 !in Escape(FoldCanonical, s)
    decreases |s|
  {
    if s != [] {
      EscapeStep(FoldCanonical, s);
      hide Escape;
      if StartsWithPair(s) {
        SeparatorsEscaped(s[2..]);
      } else {
        SeparatorsEscaped(s[1..]);
      }
    }
  }
}

/** The text of a value holds no white space between its tokens. */
module JsonCompact {
  import opened Common
  import opened Utf16
  import opened JsonValue
  import opened JsonNumbers
  import opened JsonEncoder
  import opened JsonParser
  import opened JsonCanonical
  import opened JsonRoundTrip
  import opened JsonShortest
  import opened ObjectA

  /** Reads a text unit by unit, knowing only whether it is inside a string literal:
      where the text ends, or nothing for white space outside a literal. */
  function Scan(t: JsString, inside: bool): Option<bool>
    decreases |t|
  {
    if t == [] then Some(inside)
    else if inside && t[0] == BACKSLASH then if |t| == 1 then None else Scan(t[2..], true)
    else if inside then Scan(t[1..], t[0] != QUOTE)
    else if IsSpace(t[0]) then None
    else Scan(t[1..], t[0] == QUOTE)
  }

  lemma {:induction false} ScanConcat(a: JsString, b: JsString, inside: bool)
    requires Scan(a, inside).Some?
    ensures Scan(a + b, inside) == Scan(b, Scan(a, inside).value)
    decreases |a|
  {
    if a == [] {
      assert a + b == b;
    } else if inside && a[0] == BACKSLASH {
      ScanConcat(a[2..], b, true);
      assert (a + b)[2..] == a[2..] + b;
    } else {
      ScanConcat(a[1..], b, if inside then a[0] != QUOTE else a[0] == QUOTE);
      assert (a + b)[1..] == a[1..] + b;
    }
  }

  /** From outside a literal to outside a literal. */
  predicate Compact(t: JsString) { Scan(t, false) == Some(false) }

  lemma CompactConcat(a: JsString, b: JsString)
    requires Compact(a) && Compact(b)
    ensures Compact(a + b)
  {
    ScanConcat(a, b, false);
  }

  lemma CompactUnit(u: CodeUnit)
    requires !IsSpace(u) && u != QUOTE
    ensures Compact([u])
  {
  }

  lemma {:induction false} CompactToken(t: JsString)
    requires forall u | u in t :: !IsSpace(u) && u != QUOTE
    ensures Compact(t)
  {
    if t != [] {
      CompactToken(t[1..]);
      CompactUnit(t[0]);
      CompactConcat([t[0]], t[1..]);
      assert t == [t[0]] + t[1..];
    }
  }

  lemma {:induction false} EscapeStaysInside(d: Dialect, s: JsString)
    ensures Scan(Escape(d, s), true) == Some(true)
    decreases |s|
  {
    hide Escape, EscapeUnit, Scan;
    if s == [] {
      EmptyScan(d, s);
    } else {
      EscapeStep(d, s);
      if StartsWithPair(s) {
        EscapeStaysInside(d, s[2..]);
        PairStaysInside(s[0], s[1]);
        ScanConcat([s[0], s[1]], Escape(d, s[2..]), true);
      } else {
        EscapeStaysInside(d, s[1..]);
        UnitStaysInside(d, s[0]);
        ScanConcat(EscapeUnit(d, s[0]), Escape(d, s[1..]), true);
      }
    }
  }

  lemma EmptyScan(d: Dialect, s: JsString)
    requires s == []
    ensures Scan(Escape(d, s), true) == Some(true)
  {
  }

  lemma PairStaysInside(u: CodeUnit, w: CodeUnit)
    requires u != QUOTE && u != BACKSLASH && w != QUOTE && w != BACKSLASH
    ensures Scan([u, w], true) == Some(true)
  {
    assert [u, w][1..] == [w] && [w][1..] == [];
    assert Scan([w], true) == Some(true);
  }

  lemma UnitStaysInside(d: Dialect, u: CodeUnit)
    ensures Scan(EscapeUnit(d, u), true) == Some(true)
  {
    if |EscapeUnit(d, u)| == 6 {
      var t := UnicodeEscape(u);
      var digits := t[2..];
      assert digits == [t[2], t[3], t[4], t[5]];
      PairStaysInside(t[4], t[5]);
      PairStaysInside(t[2], t[3]);
      ScanConcat([t[2], t[3]], [t[4], t[5]], true);
      assert digits == [t[2], t[3]] + [t[4], t[5]];
      hide UnicodeEscape;
      assert Scan(t, true) == Scan(digits, true);
    } else if |EscapeUnit(d, u)| == 2 {
      assert EscapeUnit(d, u)[2..] == [];
    }
  }

  lemma CompactQuoted(d: Dialect, s: JsString)
    ensures Compact(Quoted(d, s))
  {
    EscapeStaysInside(d, s);
    assert [QUOTE][1..] == [] && QUOTE != BACKSLASH && !IsSpace(QUOTE);
    assert Scan([], false) == Some(false) && Scan([], true) == Some(true);
    assert Scan([QUOTE], true) == Some(false) && Scan([QUOTE], false) == Some(true);
    hide Escape, Scan;
    ScanConcat([QUOTE], Escape(d, s), false);
    ScanConcat([QUOTE] + Escape(d, s), [QUOTE], false);
  }

  lemma CompactWord(t: JsString)
    requires t in {NULL_TEXT, TRUE_TEXT, FALSE_TEXT}
    ensures Compact(t)
  {
    CompactToken(t);
  }

  lemma CompactNumber(t: JsString)
    requires IsNumberToken(t)
    ensures Compact(t)
  {
    CompactToken(t);
  }

  lemma CompactWrapped(open: CodeUnit, body: JsString, close: CodeUnit)
    requires Compact(body) && open in {0x5b, 0x7b} && close in {0x5d, 0x7d}
    ensures Compact([open] + body + [close])
  {
    CompactUnit(open);
    CompactUnit(close);
    hide Compact;
    CompactConcat([open], body);
    CompactConcat([open] + body, [close]);
  }

  lemma CompactJoined(head: JsString, separator: CodeUnit, tail: JsString)
    requires Compact(head) && Compact(tail) && separator in {COMMA, COLON}
    ensures Compact(head + ([separator] + tail))
  {
    CompactUnit(separator);
    hide Compact;
    CompactConcat([separator], tail);
    CompactConcat(head, [separator] + tail);
  }

  /** White space stands in the text of a value only where it stands in a string. */
  lemma {:induction false} PrintCompact(d: Dialect, f: NumberFormat, v: Value)
    requires IsNormal(d, v) && Suits(d, f)
    ensures Compact(Print(d, f, v))
    decreases v, 1
  {
    hide Compact;
    match v
    case Str(s) => CompactQuoted(d, s);
    case Number(Integral(n)) =>
      DecimalIsToken(n);
      CompactNumber(Decimal(n));
    case Number(Fraction(bits)) =>
      assert IsNumberToken(f.render(bits));
      CompactNumber(f.render(bits));
    case Arr(items) =>
      PrintItemsCompact(d, f, items);
      CompactWrapped(0x5b, PrintItems(d, f, items), 0x5d);
    case Obj(entries) =>
      PrintEntriesCompact(d, f, entries);
      CompactWrapped(0x7b, PrintEntries(d, f, entries), 0x7d);
    case _ => CompactWord(Print(d, f, v));
  }

  lemma {:induction false} PrintItemsCompact(d: Dialect, f: NumberFormat, items: seq<Value>)
    requires Suits(d, f) && forall item | item in items :: IsNormal(d, item)
    ensures Compact(PrintItems(d, f, items))
    decreases items, 0
  {
    hide Print, IsNormal, Suits;
    assert Compact([]);
    if items != [] {
      PrintCompact(d, f, items[0]);
      if |items| > 1 {
        PrintItemsCompact(d, f, items[1..]);
        CompactJoined(Print(d, f, items[0]), COMMA, PrintItems(d, f, items[1..]));
      } else {
        assert PrintItems(d, f, items) == Print(d, f, items[0]);
      }
    }
  }

  lemma {:induction false} PrintEntriesCompact(d: Dialect, f: NumberFormat, entries: seq<Entry>)
    requires Suits(d, f) && forall e | e in entries :: IsNormal(d, e.value)
    ensures Compact(PrintEntries(d, f, entries))
    decreases entries, 0
  {
    hide Print, IsNormal, Suits, PrintEntry;
    assert Compact([]);
    if entries != [] {
      PrintEntryCompact(d, f, entries[0]);
      if |entries| > 1 {
        PrintEntriesCompact(d, f, entries[1..]);
        CompactJoined(PrintEntry(d, f, entries[0]), COMMA, PrintEntries(d, f, entries[1..]));
      } else {
        assert PrintEntries(d, f, entries) == PrintEntry(d, f, entries[0]);
      }
    }
  }

  lemma {:induction false} PrintEntryCompact(d: Dialect, f: NumberFormat, e: Entry)
    requires Suits(d, f) && IsNormal(d, e.value)
    ensures Compact(PrintEntry(d, f, e))
    decreases e, 0
  {
    hide Print, IsNormal, Suits, Quoted;
    PrintCompact(d, f, e.value);
    CompactQuoted(d, e.key);
    CompactJoined(Quoted(d, e.key), COLON, Print(d, f, e.value));
    assert Quoted(d, e.key) + ([COLON] + Print(d, f, e.value)) == Quoted(d, e.key) + [COLON] + Print(d, f, e.value);
  }

  lemma WordTexts()
    ensures Js("null") == NULL_TEXT && Js("true") == TRUE_TEXT && Js("false") == FALSE_TEXT
  {
    var n, t, f := Js("null"), Js("true"), Js("false");
    assert n[0] == 0x6e && n[1] == 0x75 && n[2] == 0x6c && n[3] == 0x6c;
    assert t[0] == 0x74 && t[1] == 0x72 && t[2] == 0x75 && t[3] == 0x65;
    assert f[0] == 0x66 && f[1] == 0x61 && f[2] == 0x6c && f[3] == 0x73 && f[4] == 0x65;
    hide Js;
    assert n == [n[0], n[1], n[2], n[3]] && t == [t[0], t[1], t[2], t[3]] && f == [f[0], f[1], f[2], f[3], f[4]];
  }

  /** The three words are written and read under their names. */
  lemma WordsByName(d: Dialect, f: NumberFormat)
    ensures Serialize(d, f, Null) == Ok(Js("null"))
    ensures Serialize(d, f, Bool(true)) == Ok(Js("true")) && Serialize(d, f, Bool(false)) == Ok(Js("false"))
    ensures Parse(f, Js("null")) == Some(Null)
    ensures Parse(f, Js("true")) == Some(Bool(true)) && Parse(f, Js("false")) == Some(Bool(false))
  {
    WordTexts();
    hide Js, ParseValue;
    ReadWord(f, NULL_TEXT, []);
    ReadWord(f, TRUE_TEXT, []);
    ReadWord(f, FALSE_TEXT, []);
    assert NULL_TEXT + [] == NULL_TEXT && TRUE_TEXT + [] == TRUE_TEXT && FALSE_TEXT + [] == FALSE_TEXT;
  }

  /** So in whatever is serialized. */
  lemma SerializedIsCompact(d: Dialect, f: NumberFormat, v: Value)
    requires Serialize(d, f, v).Ok? && Suits(d, f)
    ensures Compact(Serialize(d, f, v).value)
  {
    hide Serialize, Print, Normal, Encodable, Compact;
    SerializeIsPrint(d, f, v);
    NormalIsNormal(d, v);
    PrintCompact(d, f, Normal(d, v));
  }
}
