/** Decimal numerals and the renderer of fractions, which stays abstract. */
module JsonNumbers {
  import opened Common
  import opened JsonValue

  predicate IsDigit(u: CodeUnit) { 0x30 <= u <= 0x39 }

  /** Digits, minus, plus, point and the two exponent letters. */
  predicate IsNumberUnit(u: CodeUnit) {
    IsDigit(u) || u == 0x2d || u == 0x2b || u == 0x2e || u == 0x45 || u == 0x65
  }

  predicate AllDigits(s: JsString) { forall u | u in s :: IsDigit(u) }

  /** A digit string without a redundant leading zero. */
  predicate IsNatural(s: JsString) { s != [] && AllDigits(s) && (|s| == 1 || s[0] != 0x30) }

  function Digits(n: nat): (s: JsString)
    ensures IsNatural(s)
    ensures s[0] == 0x30 <==> n == 0
  {
    if n < 10 then [0x30 + n] else Digits(n / 10) + [0x30 + n % 10]
  }

  function ReadDigits(s: JsString): (n: nat)
    requires AllDigits(s)
  {
    if s == [] then 0
    else
      assert s[|s| - 1] in s;
      ReadDigits(s[..|s| - 1]) * 10 + (s[|s| - 1] - 0x30)
  }

  lemma {:induction false} ReadDigitsOfDigits(n: nat)
    ensures ReadDigits(Digits(n)) == n
  {
    if n >= 10 {
      ReadDigitsOfDigits(n / 10);
      assert Digits(n)[..|Digits(n)| - 1] == Digits(n / 10);
    }
  }

  function Decimal(n: int): JsString {
    if n < 0 then [0x2d] + Digits(-n) else Digits(n)
  }

  /** How fractions are written, and how every token that is no safe plain
      integer is read. Both are left to the host's number conversions. */
  datatype NumberFormat = NumberFormat(render: FractionBits -> JsString, read: JsString -> Option<F64>)

  predicate IsPlainInteger(s: JsString) {
    IsNatural(s) || (s != [] && s[0] == 0x2d && IsNatural(s[1..]))
  }

  /** A token that starts like a number and holds only number characters. */
  predicate IsNumberToken(s: JsString) {
    s != [] && (s[0] == 0x2d || IsDigit(s[0])) && forall u | u in s :: IsNumberUnit(u)
  }

  /** The host reads back the fraction it wrote, and writes no fraction as an integer. */
  ghost predicate Faithful(f: NumberFormat) {
    forall bits: FractionBits ::
      && IsNumberToken(f.render(bits)) && !IsPlainInteger(f.render(bits))
      && f.read(f.render(bits)) == Some(Fraction(bits))
  }

  /** Such formats exist: one writes the bit pattern after a decimal point. */
  lemma FaithfulFormatExists()
    ensures exists f :: Faithful(f)
  {
    var f := NumberFormat(
      bits => [0x30, 0x2e] + Digits(bits),
      s =>
        if |s| > 2 && AllDigits(s[2..]) && IsFractionBits(ReadDigits(s[2..]))
        then Some(Fraction(ReadDigits(s[2..]))) else None);
    forall bits: FractionBits
      ensures IsNumberToken(f.render(bits)) && !IsPlainInteger(f.render(bits))
              && f.read(f.render(bits)) == Some(Fraction(bits))
    {
      var s := f.render(bits);
      assert s[2..] == Digits(bits);
      ReadDigitsOfDigits(bits);
      assert s[1] == 0x2e;
      assert !IsDigit(s[1]) && s[1] in s;
    }
    assert Faithful(f);
  }

  /** `JSON.parse` on one number token. */
  function ReadNumber(f: NumberFormat, token: JsString): Option<F64> {
    if IsNatural(token) then
      var n := ReadDigits(token);
      if n <= MAX_SAFE_INTEGER then Some(Integral(n)) else f.read(token)
    else if IsPlainInteger(token) then
      var n: int := ReadDigits(token[1..]);
      if n == 0 then Some(NegativeZero) else if n <= MAX_SAFE_INTEGER then Some(Integral(-n)) else f.read(token)
    else f.read(token)
  }

  lemma DecimalIsToken(n: int)
    ensures IsNumberToken(Decimal(n)) && IsPlainInteger(Decimal(n))
  {
    assert n < 0 ==> Decimal(n)[1..] == Digits(-n);
    assert n >= 0 ==> Decimal(n)[0] in Digits(n);
  }

  lemma ReadNumberOfDecimal(f: NumberFormat, n: int)
    requires -MAX_SAFE_INTEGER <= n <= MAX_SAFE_INTEGER
    ensures ReadNumber(f, Decimal(n)) == Some(Integral(n))
  {
    if n < 0 {
      ReadDigitsOfDigits(-n);
      assert Decimal(n)[1..] == Digits(-n);
      assert Decimal(n)[0] in Decimal(n) && !IsDigit(Decimal(n)[0]);
    } else {
      ReadDigitsOfDigits(n);
    }
  }
}

/** `escapeString`, `renderNumber`, `serializeAbstract`, and the canonicalizer of
    the fold auditor, which differs in its escapes, its numbers and its errors. */
module JsonEncoder {
  import opened Common
  import opened Utf16
  import opened JsonValue
  import opened JsonNumbers

  datatype Dialect = EncoderV0 | FoldCanonical

  /** What a dialect asks of the host: the fold canonicalizer writes no fractions. */
  ghost predicate Suits(d: Dialect, f: NumberFormat) { d.EncoderV0? ==> Faithful(f) }

  datatype Category =
    | IntegerOutOfRange
    | NegativeZeroNumber
    | NonFiniteNumber
    | Scalar(kind: ScalarCategory)
    | UnsupportedHostValue
    | CyclicHostValue

  const QUOTE: CodeUnit := 0x22
  const BACKSLASH: CodeUnit := 0x5c
  const COMMA: CodeUnit := 0x2c
  const COLON: CodeUnit := 0x3a
  const NULL_TEXT: JsString := [0x6e, 0x75, 0x6c, 0x6c]
  const TRUE_TEXT: JsString := [0x74, 0x72, 0x75, 0x65]
  const FALSE_TEXT: JsString := [0x66, 0x61, 0x6c, 0x73, 0x65]

  function UnicodeEscape(u: CodeUnit): JsString {
    [BACKSLASH, 0x75, HexUnit(u / 4096), HexUnit(u / 256 % 16), HexUnit(u / 16 % 16), HexUnit(u % 16)]
  }

  /** The escape of one unit that belongs to no surrogate pair. */
  function EscapeUnit(d: Dialect, u: CodeUnit): JsString {
    if u == QUOTE then [BACKSLASH, QUOTE]
    else if u == BACKSLASH then [BACKSLASH, BACKSLASH]
    else if u == 0x08 then [BACKSLASH, 0x62]
    else if u == 0x0c then [BACKSLASH, 0x66]
    else if u == 0x0a then [BACKSLASH, 0x6e]
    else if u == 0x0d then [BACKSLASH, 0x72]
    else if u == 0x09 then [BACKSLASH, 0x74]
    else if u <= 0x1f then UnicodeEscape(u)
    else if d.FoldCanonical? && (IsSurrogate(u) || u == 0x2028 || u == 0x2029) then UnicodeEscape(u)
    else [u]
  }

  function Escape(d: Dialect, s: JsString): JsString {
    if s == [] then []
    else if StartsWithPair(s) then [s[0], s[1]] + Escape(d, s[2..])
    else EscapeUnit(d, s[0]) + Escape(d, s[1..])
  }

  function Quoted(d: Dialect, s: JsString): JsString { [QUOTE] + Escape(d, s) + [QUOTE] }

  /** The encoder refuses lone surrogates; the fold canonicalizer escapes them. */
  function QuoteChecked(d: Dialect, s: JsString, key: bool): Result<JsString, Category> {
    if d.EncoderV0? && !WellFormed(s) then Err(Scalar(if key then NonScalarKey else NonScalarString))
    else Ok(Quoted(d, s))
  }

  /** `escapeString` as written: a scan for lone surrogates, then one pass that
      copies surrogate pairs and escapes every other unit. */
  method EscapeString(value: JsString, key: bool) returns (r: Result<JsString, Category>)
    ensures r == QuoteChecked(EncoderV0, value, key)
  {
    var invalid := ScalarError(value, key);
    if invalid.Some? { return Err(Scalar(invalid.value)); }
    var out, index := [QUOTE], 0;
    ghost var goal := [QUOTE] + Escape(EncoderV0, value);
    hide Escape, UnicodeEscape, WellFormed;
    assert value[0..] == value;
    while index < |value|
      invariant 0 <= index <= |value| && (index > 0 ==> !IsHigh(value[index - 1]))
      invariant out + Escape(EncoderV0, value[index..]) == goal
    {
      var unit := value[index];
      NotLone(value, index);
      ghost var rest := value[index..];
      var piece;
      if IsHigh(unit) {
        piece := [unit, value[index + 1]];
        index := index + 1;
        EscapePair(rest);
        assert rest[2..] == value[index + 1..];
      } else {
        if unit == 0x22 { piece := [BACKSLASH, QUOTE]; }
        else if unit == 0x5c { piece := [BACKSLASH, BACKSLASH]; }
        else if unit == 0x08 { piece := [BACKSLASH, 0x62]; }
        else if unit == 0x0c { piece := [BACKSLASH, 0x66]; }
        else if unit == 0x0a { piece := [BACKSLASH, 0x6e]; }
        else if unit == 0x0d { piece := [BACKSLASH, 0x72]; }
        else if unit == 0x09 { piece := [BACKSLASH, 0x74]; }
        else if unit <= 0x1f { piece := UnicodeEscape(unit); }
        else { piece := [unit]; }
        EscapeOne(rest, piece);
        assert rest[1..] == value[index + 1..];
      }
      Regroup(out, piece, Escape(EncoderV0, value[index + 1..]));
      out := out + piece;
      index := index + 1;
    }
    EscapeNone(value[index..]);
    assert out + [] == out;
    return Ok(out + [QUOTE]);
  }

  lemma NotLone(s: JsString, i: nat)
    requires WellFormed(s) && i < |s|
    ensures !LoneAt(s, i)
  {
  }

  lemma EscapeNone(s: JsString)
    requires s == []
    ensures Escape(EncoderV0, s) == []
  {
  }

  lemma EscapePair(s: JsString)
    requires StartsWithPair(s)
    ensures Escape(EncoderV0, s) == [s[0], s[1]] + Escape(EncoderV0, s[2..])
  {
  }

  lemma EscapeOne(s: JsString, piece: JsString)
    requires s != [] && !StartsWithPair(s) && piece == EscapeUnit(EncoderV0, s[0])
    ensures Escape(EncoderV0, s) == piece + Escape(EncoderV0, s[1..])
  {
  }

  lemma Regroup(a: JsString, b: JsString, c: JsString)
    ensures a + (b + c) == (a + b) + c
  {
  }

  /** `renderNumber`. The category for inexact integers needs an integer within
      the safe range that binary64 cannot hold, and there is none. */
  function RenderNumber(d: Dialect, f: NumberFormat, v: Value): Result<JsString, Category>
    requires v.Number? || v.BigInteger?
  {
    match (d, v)
    case (EncoderV0, BigInteger(n)) =>
      if n < -MAX_SAFE_INTEGER || n > MAX_SAFE_INTEGER then Err(IntegerOutOfRange) else Ok(Decimal(n))
    case (EncoderV0, Number(NotANumber)) => Err(NonFiniteNumber)
    case (EncoderV0, Number(Infinite(_))) => Err(NonFiniteNumber)
    case (EncoderV0, Number(NegativeZero)) => Err(NegativeZeroNumber)
    case (EncoderV0, Number(Integral(n))) =>
      if n < -MAX_SAFE_INTEGER || n > MAX_SAFE_INTEGER then Err(IntegerOutOfRange) else Ok(Decimal(n))
    case (EncoderV0, Number(Fraction(bits))) => Ok(f.render(bits))
    case (FoldCanonical, Number(NegativeZero)) => Ok(Decimal(0))
    case (FoldCanonical, Number(Integral(n))) =>
      if n < -MAX_SAFE_INTEGER || n > MAX_SAFE_INTEGER then Err(UnsupportedHostValue) else Ok(Decimal(n))
    case (FoldCanonical, _) => Err(UnsupportedHostValue)
  }

  /** The key checks that precede sorting: lone surrogates and repeated keys, in entry order. */
  function KeyError(d: Dialect, entries: seq<Entry>, seen: set<JsString>): Option<Category> {
    if entries == [] then None
    else if d.EncoderV0? && !WellFormed(entries[0].key) then Some(Scalar(NonScalarKey))
    else if entries[0].key in seen then Some(UnsupportedHostValue)
    else KeyError(d, entries[1..], seen + {entries[0].key})
  }

  /** `serializeAbstract` */
  function Serialize(d: Dialect, f: NumberFormat, v: Value): Result<JsString, Category>
    decreases v, 1
  {
    match v
    case Null => Ok(NULL_TEXT)
    case Bool(b) => Ok(if b then TRUE_TEXT else FALSE_TEXT)
    case Str(s) => QuoteChecked(d, s, false)
    case Number(_) => RenderNumber(d, f, v)
    case BigInteger(_) => RenderNumber(d, f, v)
    case Arr(items) =>
      (match SerializeItems(d, f, items)
       case Err(e) => Err(e)
       case Ok(text) => Ok([0x5b] + text + [0x5d]))
    case Obj(entries) =>
      (match KeyError(d, entries, {})
       case Some(e) => Err(e)
       case None =>
         SameElements(Sort(entries), entries);
         match SerializeEntries(d, f, v, Sort(entries))
         case Err(e) => Err(e)
         case Ok(text) => Ok([0x7b] + text + [0x7d]))
  }

  function SerializeItems(d: Dialect, f: NumberFormat, items: seq<Value>): Result<JsString, Category>
    decreases items, 0
  {
    if items == [] then Ok([])
    else
      match Serialize(d, f, items[0])
      case Err(e) => Err(e)
      case Ok(head) =>
        if |items| == 1 then Ok(head)
        else
          match SerializeItems(d, f, items[1..])
          case Err(e) => Err(e)
          case Ok(tail) => Ok(head + [COMMA] + tail)
  }

  function SerializeEntry(d: Dialect, f: NumberFormat, e: Entry): Result<JsString, Category>
    decreases e.value, 2
  {
    match QuoteChecked(d, e.key, true)
    case Err(error) => Err(error)
    case Ok(key) =>
      match Serialize(d, f, e.value)
      case Err(error) => Err(error)
      case Ok(value) => Ok(key + [COLON] + value)
  }

  function SerializeEntries(d: Dialect, f: NumberFormat, ghost owner: Value, entries: seq<Entry>)
    : Result<JsString, Category>
    requires owner.Obj? && forall e | e in entries :: e in owner.entries
    decreases owner, 0, |entries|
  {
    if entries == [] then Ok([])
    else
      assert entries[0] in owner.entries;
      match SerializeEntry(d, f, entries[0])
      case Err(e) => Err(e)
      case Ok(head) =>
        if |entries| == 1 then Ok(head)
        else
          match SerializeEntries(d, f, owner, entries[1..])
          case Err(e) => Err(e)
          case Ok(tail) => Ok(head + [COMMA] + tail)
  }
}
