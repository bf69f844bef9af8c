/** The encoder's octets and the acceptors that admit octets only when they
    re-encode to themselves. */
module EncodedBytes {
  import opened Common
  import opened Utf16
  import opened JsonValue
  import opened JsonNumbers
  import opened JsonEncoder
  import opened JsonCanonical
  import opened JsonRoundTrip
  import opened JsonTheorems

  const LF: Byte := 0x0a

  /** `encodeAbstract`: the text and one line feed, in UTF-8. */
  function EncodeBytes(f: NumberFormat, v: Value): Result<Bytes, Category> {
    match Serialize(EncoderV0, f, v)
    case Err(e) => Err(e)
    case Ok(text) => Ok(Utf8.Encode(text + [LF]))
  }

  /** A text with no control characters that denotes Unicode scalar values. */
  predicate Clean(s: JsString) { NoControls(s) && WellFormed(s) }

  lemma CleanConcat(a: JsString, b: JsString)
    requires Clean(a) && Clean(b)
    ensures Clean(a + b)
  {
    WellFormedConcat(a, b);
  }

  lemma CleanUnit(u: CodeUnit)
    requires u >= 0x20 && !IsSurrogate(u)
    ensures Clean([u])
  {
  }

  lemma CleanQuoted(d: Dialect, s: JsString)
    requires d.EncoderV0? ==> WellFormed(s)
    ensures Clean(Quoted(d, s))
  {
    EscapeShape(d, s);
    CleanUnit(QUOTE);
    hide Clean;
    assert Clean(Escape(d, s)) by { CleanParts(Escape(d, s)); }
    CleanConcat([QUOTE], Escape(d, s));
    CleanConcat([QUOTE] + Escape(d, s), [QUOTE]);
  }

  lemma CleanParts(s: JsString)
    requires NoControls(s) && WellFormed(s)
    ensures Clean(s)
  {
  }

  lemma CleanToken(token: JsString)
    requires IsNumberToken(token)
    ensures Clean(token)
  {
    forall i | 0 <= i < |token| ensures !LoneAt(token, i) { assert token[i] in token; }
  }

  lemma CleanWrapped(open: CodeUnit, body: JsString, close: CodeUnit)
    requires Clean(body) && open >= 0x20 && close >= 0x20 && !IsSurrogate(open) && !IsSurrogate(close)
    ensures Clean([open] + body + [close])
  {
    CleanUnit(open);
    CleanUnit(close);
    CleanConcat([open], body);
    CleanConcat([open] + body, [close]);
  }

  /** Serialized text is clean: controls are escaped and no surrogate is alone. */
  lemma {:induction false} PrintClean(d: Dialect, f: NumberFormat, v: Value)
    requires IsNormal(d, v) && Suits(d, f)
    ensures Clean(Print(d, f, v))
    decreases v, 1
  {
    hide Clean;
    match v
    case Str(s) => CleanQuoted(d, s);
    case Number(Integral(n)) =>
      DecimalIsToken(n);
      CleanToken(Decimal(n));
    case Number(Fraction(bits)) =>
      assert IsNumberToken(f.render(bits));
      CleanToken(f.render(bits));
    case Arr(items) =>
      PrintItemsClean(d, f, items);
      CleanWrapped(0x5b, PrintItems(d, f, items), 0x5d);
    case Obj(entries) =>
      PrintEntriesClean(d, f, entries);
      CleanWrapped(0x7b, PrintEntries(d, f, entries), 0x7d);
    case _ => CleanWord(Print(d, f, v));
  }

  lemma CleanWord(s: JsString)
    requires s in {NULL_TEXT, TRUE_TEXT, FALSE_TEXT}
    ensures Clean(s)
  {
  }

  lemma CleanJoined(head: JsString, separator: CodeUnit, tail: JsString)
    requires Clean(head) && Clean(tail) && separator >= 0x20 && !IsSurrogate(separator)
    ensures Clean(head + ([separator] + tail))
  {
    CleanUnit(separator);
    CleanConcat([separator], tail);
    CleanConcat(head, [separator] + tail);
  }

  lemma {:induction false} PrintItemsClean(d: Dialect, f: NumberFormat, items: seq<Value>)
    requires (forall item | item in items :: IsNormal(d, item)) && Suits(d, f)
    ensures Clean(PrintItems(d, f, items))
    decreases items, 0
  {
    hide Faithful, IsNormal, Print;
    if items != [] {
      PrintClean(d, f, items[0]);
      PrintItemsClean(d, f, items[1..]);
      CleanJoined(Print(d, f, items[0]), COMMA, PrintItems(d, f, items[1..]));
      assert Print(d, f, items[0]) + [] == Print(d, f, items[0]);
    }
  }

  lemma {:induction false} PrintEntriesClean(d: Dialect, f: NumberFormat, entries: seq<Entry>)
    requires (forall e | e in entries :: (d.EncoderV0? ==> WellFormed(e.key)) && IsNormal(d, e.value)) && Suits(d, f)
    ensures Clean(PrintEntries(d, f, entries))
    decreases entries, 0
  {
    hide Faithful, IsNormal, PrintEntry;
    if entries != [] {
      assert entries[0] in entries;
      PrintEntryClean(d, f, entries[0]);
      PrintEntriesClean(d, f, entries[1..]);
      CleanJoined(PrintEntry(d, f, entries[0]), COMMA, PrintEntries(d, f, entries[1..]));
      assert PrintEntry(d, f, entries[0]) + [] == PrintEntry(d, f, entries[0]);
    }
  }

  lemma {:induction false} PrintEntryClean(d: Dialect, f: NumberFormat, e: Entry)
    requires (d.EncoderV0? ==> WellFormed(e.key)) && IsNormal(d, e.value) && Suits(d, f)
    ensures Clean(PrintEntry(d, f, e))
    decreases e, 0
  {
    hide Faithful, IsNormal, Print, Clean, Quoted;
    CleanQuoted(d, e.key);
    PrintClean(d, f, e.value);
    CleanJoined(Quoted(d, e.key), COLON, Print(d, f, e.value));
    assert Quoted(d, e.key) + [COLON] + Print(d, f, e.value)
        == Quoted(d, e.key) + ([COLON] + Print(d, f, e.value));
  }
}

/** `parseCanonicalBytes` and `parseCanonical`, which differ in the name they give in
    their reasons, and the Object A acceptor built on them. */
module CanonicalAcceptor {
  import opened Common
  import opened Utf16
  import opened JsonValue
  import opened JsonNumbers
  import opened JsonEncoder
  import opened JsonParser
  import opened JsonCanonical
  import opened JsonRoundTrip
  import opened JsonTheorems
  import opened EncodedBytes

  type Reasons = seq<string>

  predicate StartsWithBom(bytes: Bytes) {
    |bytes| >= 3 && bytes[0] == 0xef && bytes[1] == 0xbb && bytes[2] == 0xbf
  }

  predicate EndsWithLineFeed(bytes: Bytes) { bytes != [] && bytes[|bytes| - 1] == LF }

  /** One line feed, at the end; no carriage return, NUL or byte order mark. */
  predicate WellFramed(bytes: Bytes) {
    && EndsWithLineFeed(bytes) && LF !in bytes[..|bytes| - 1]
    && 0 !in bytes && 0x0d !in bytes && !StartsWithBom(bytes)
  }

  function LineFeeds(bytes: Bytes): nat {
    if bytes == [] then 0 else LineFeeds(bytes[..|bytes| - 1]) + if bytes[|bytes| - 1] == LF then 1 else 0
  }

  /** One complaint for every NUL and every carriage return, in order. */
  function ByteReasons(subject: string, bytes: Bytes): Reasons {
    if bytes == [] then []
    else
      var b := bytes[|bytes| - 1];
      ByteReasons(subject, bytes[..|bytes| - 1])
      + (if b == 0 then [subject + "_nul"] else []) + (if b == 0x0d then [subject + "_cr"] else [])
  }

  function FramingReasons(subject: string, bytes: Bytes): Reasons {
    (if bytes == [] then [subject + "_empty"] else [])
    + (if StartsWithBom(bytes) then [subject + "_bom"] else [])
    + ByteReasons(subject, bytes)
    + (if EndsWithLineFeed(bytes) then [] else [subject + "_missing_lf"])
    + (if LineFeeds(bytes) == 1 then [] else [subject + "_wrong_lf_count"])
  }

  /** The distinct reasons in order of first appearance. */
  function Unique(reasons: Reasons): Reasons {
    if reasons == [] then []
    else
      var last := reasons[|reasons| - 1];
      var earlier := Unique(reasons[..|reasons| - 1]);
      if last in earlier then earlier else earlier + [last]
  }

  /** Where an element first appears. */
  function FirstIndex(reasons: Reasons, reason: string): (k: nat)
    requires reason in reasons
    ensures k < |reasons| && reasons[k] == reason && reason !in reasons[..k]
  {
    var init := reasons[..|reasons| - 1];
    if reason in init then
      var k := FirstIndex(init, reason);
      assert reasons[..k] == init[..k];
      k
    else |reasons| - 1
  }

  /** `unique` repeats nothing, drops nothing, invents nothing, and keeps the order
      of first appearances. */
  lemma {:induction false} UniqueExactly(reasons: Reasons)
    ensures forall reason :: reason in Unique(reasons) <==> reason in reasons
    ensures forall i, j | 0 <= i < j < |Unique(reasons)| ::
              FirstIndex(reasons, Unique(reasons)[i]) < FirstIndex(reasons, Unique(reasons)[j])
    ensures forall i, j | 0 <= i < j < |Unique(reasons)| :: Unique(reasons)[i] != Unique(reasons)[j]
  {
    if reasons != [] {
      var init, last := reasons[..|reasons| - 1], reasons[|reasons| - 1];
      UniqueExactly(init);
      assert reasons == init + [last];
      var earlier, all := Unique(init), Unique(reasons);
      forall i, j | 0 <= i < j < |all| ensures FirstIndex(reasons, all[i]) < FirstIndex(reasons, all[j]) {
        assert all[i] == earlier[i] && all[i] in init;
        if j < |earlier| { assert all[j] == earlier[j] && all[j] in init; }
      }
    }
  }

  lemma {:induction false} NoByteReasons(subject: string, bytes: Bytes)
    ensures ByteReasons(subject, bytes) == [] <==> 0 !in bytes && 0x0d !in bytes
  {
    if bytes != [] {
      NoByteReasons(subject, bytes[..|bytes| - 1]);
      assert bytes == bytes[..|bytes| - 1] + [bytes[|bytes| - 1]];
    }
  }

  lemma {:induction false} NoLineFeeds(bytes: Bytes)
    ensures LineFeeds(bytes) == 0 <==> LF !in bytes
  {
    if bytes != [] {
      NoLineFeeds(bytes[..|bytes| - 1]);
      assert bytes == bytes[..|bytes| - 1] + [bytes[|bytes| - 1]];
    }
  }

  lemma {:induction false} LineFeedsCount(bytes: Bytes)
    ensures LineFeeds(bytes) == multiset(bytes)[LF]
  {
    if bytes != [] {
      LineFeedsCount(bytes[..|bytes| - 1]);
      assert bytes == bytes[..|bytes| - 1] + [bytes[|bytes| - 1]];
    }
  }

  lemma OtherSuffix(subject: string, a: string, b: string)
    requires a != b
    ensures subject + a != subject + b
  {
    assert (subject + a)[|subject|..] == a && (subject + b)[|subject|..] == b;
  }

  lemma {:induction false} ByteReasonsMean(subject: string, bytes: Bytes)
    ensures subject + "_nul" in ByteReasons(subject, bytes) <==> 0 in bytes
    ensures subject + "_cr" in ByteReasons(subject, bytes) <==> 0x0d in bytes
    ensures forall reason | reason in ByteReasons(subject, bytes) :: reason in {subject + "_nul", subject + "_cr"}
  {
    OtherSuffix(subject, "_nul", "_cr");
    if bytes != [] {
      ByteReasonsMean(subject, bytes[..|bytes| - 1]);
      LastOctet(bytes, 0);
      LastOctet(bytes, 0x0d);
    }
  }

  lemma LastOctet(bytes: Bytes, b: Byte)
    requires bytes != []
    ensures b in bytes <==> b in bytes[..|bytes| - 1] || b == bytes[|bytes| - 1]
  {
    assert bytes == bytes[..|bytes| - 1] + [bytes[|bytes| - 1]];
  }

  /** Each complaint about the framing names what is wrong: no octets, a byte order
      mark, a NUL, a carriage return, no line feed at the end, or not one line feed. */
  lemma FramingReasonsMean(subject: string, bytes: Bytes)
    ensures var reasons := FramingReasons(subject, bytes);
            && (subject + "_empty" in reasons <==> bytes == [])
            && (subject + "_bom" in reasons <==> [0xef, 0xbb, 0xbf] <= bytes)
            && (subject + "_nul" in reasons <==> 0 in bytes)
            && (subject + "_cr" in reasons <==> 0x0d in bytes)
            && (subject + "_missing_lf" in reasons <==> !EndsWithLineFeed(bytes))
            && (subject + "_wrong_lf_count" in reasons <==> multiset(bytes)[LF] != 1)
  {
    ByteReasonsMean(subject, bytes);
    LineFeedsCount(bytes);
    hide ByteReasons, LineFeeds, EndsWithLineFeed;
    assert StartsWithBom(bytes) <==> [0xef, 0xbb, 0xbf] <= bytes;
    hide StartsWithBom;
    var names := [subject + "_empty", subject + "_bom", subject + "_nul", subject + "_cr",
                  subject + "_missing_lf", subject + "_wrong_lf_count"];
    SuffixesDiffer(subject);
    assert names[0] != names[1] && names[0] != names[2] && names[0] != names[3] && names[0] != names[4];
    assert names[0] != names[5] && names[1] != names[2] && names[1] != names[3] && names[1] != names[4];
    assert names[1] != names[5] && names[2] != names[3] && names[2] != names[4] && names[2] != names[5];
    assert names[3] != names[4] && names[3] != names[5] && names[4] != names[5];
  }

  lemma SuffixesDiffer(subject: string)
    ensures var names := [subject + "_empty", subject + "_bom", subject + "_nul", subject + "_cr",
                          subject + "_missing_lf", subject + "_wrong_lf_count"];
            forall i, j | 0 <= i < j < 6 :: names[i] != names[j]
  {
    var suffixes := ["_empty", "_bom", "_nul", "_cr", "_missing_lf", "_wrong_lf_count"];
    assert |suffixes[0]| == 6 && |suffixes[1]| == |suffixes[2]| == 4 && |suffixes[3]| == 3
        && |suffixes[4]| == 11 && |suffixes[5]| == 15 && suffixes[1][1] != suffixes[2][1];
    forall i, j | 0 <= i < j < 6 ensures suffixes[i] != suffixes[j] {
    }
    forall i, j | 0 <= i < j < 6 ensures subject + suffixes[i] != subject + suffixes[j] {
      OtherSuffix(subject, suffixes[i], suffixes[j]);
    }
  }

  lemma NoFramingReasons(subject: string, bytes: Bytes)
    ensures FramingReasons(subject, bytes) == [] <==> WellFramed(bytes)
  {
    NoByteReasons(subject, bytes);
    if bytes != [] { NoLineFeeds(bytes[..|bytes| - 1]); }
    hide ByteReasons;
  }

  /** The value the octets stand for, before they are compared with its encoding. */
  function ParseBytes(f: NumberFormat, bytes: Bytes): Option<Value> {
    var text := Utf8.Decode(bytes);
    Parse(f, if text == [] then text else text[..|text| - 1])
  }

  /** The acceptor's answer, case by case. */
  function Verdict(f: NumberFormat, subject: string, bytes: Bytes): Result<Value, Reasons> {
    if FramingReasons(subject, bytes) != [] then Err(Unique(FramingReasons(subject, bytes)))
    else
      match ParseBytes(f, bytes)
      case None => Err([subject + "_invalid_json"])
      case Some(v) => if EncodeBytes(f, v) == Ok(bytes) then Ok(v) else Err([subject + "_non_canonical"])
  }

  method ParseCanonical(f: NumberFormat, bytes: Bytes, subject: string) returns (r: Result<Value, Reasons>)
    ensures r == Verdict(f, subject, bytes)
  {
    hide Unique, ParseBytes, EncodeBytes, WellFramed;
    var reasons := [];
    if |bytes| == 0 { reasons := reasons + [subject + "_empty"]; }
    if |bytes| >= 3 && bytes[0] == 0xef && bytes[1] == 0xbb && bytes[2] == 0xbf {
      reasons := reasons + [subject + "_bom"];
    }
    ghost var before := reasons;
    var lf := 0;
    for i := 0 to |bytes|
      invariant reasons == before + ByteReasons(subject, bytes[..i])
      invariant lf == LineFeeds(bytes[..i])
    {
      assert bytes[..i + 1][..i] == bytes[..i];
      if bytes[i] == 0 { reasons := reasons + [subject + "_nul"]; }
      if bytes[i] == 0x0d { reasons := reasons + [subject + "_cr"]; }
      if bytes[i] == LF { lf := lf + 1; }
    }
    assert bytes[..|bytes|] == bytes;
    if |bytes| == 0 || bytes[|bytes| - 1] != LF { reasons := reasons + [subject + "_missing_lf"]; }
    if lf != 1 { reasons := reasons + [subject + "_wrong_lf_count"]; }
    assert reasons == FramingReasons(subject, bytes);
    if |reasons| > 0 { return Err(Unique(reasons)); }
    var value := ParseBytes(f, bytes);
    if value.None? { return Err([subject + "_invalid_json"]); }
    var encoded := EncodeBytes(f, value.value);
    if encoded != Ok(bytes) { return Err([subject + "_non_canonical"]); }
    return Ok(value.value);
  }

  /** Every encoding is framed by exactly one line feed at its end. */
  lemma EncodingsWellFramed(f: NumberFormat, v: Value, bytes: Bytes)
    requires Faithful(f) && EncodeBytes(f, v) == Ok(bytes)
    ensures WellFramed(bytes)
  {
    hide Serialize, Print, Normal, IsNormal, Encodable, Faithful, StartsValue, Utf8.Encode;
    var text := Serialize(EncoderV0, f, v).value;
    SerializeIsPrint(EncoderV0, f, v);
    NormalIsNormal(EncoderV0, v);
    PrintClean(EncoderV0, f, Normal(EncoderV0, v));
    PrintStartsValue(EncoderV0, f, Normal(EncoderV0, v));
    Utf8.EncodeAppendAscii(text, LF);
    Utf8.AsciiOctets(text);
    FirstOctet(text);
    assert bytes[..|bytes| - 1] == Utf8.Encode(text);
    hide WellFormed;
  }

  lemma FirstOctet(text: JsString)
    requires StartsValue(text)
    ensures Utf8.Encode(text) != [] && Utf8.Encode(text)[0] < 0x80
  {
  }

  /** Encoding, then decoding and dropping the line feed, gives the text back. */
  lemma DecodeEncoding(f: NumberFormat, v: Value, bytes: Bytes)
    requires Faithful(f) && EncodeBytes(f, v) == Ok(bytes)
    ensures ParseBytes(f, bytes) == Some(Normal(EncoderV0, v))
  {
    var text := Serialize(EncoderV0, f, v).value;
    SerializeIsPrint(EncoderV0, f, v);
    NormalIsNormal(EncoderV0, v);
    PrintClean(EncoderV0, f, Normal(EncoderV0, v));
    SerializeRoundTrip(EncoderV0, f, v, []);
    hide Serialize, Print, Normal, IsNormal, Faithful;
    WellFormedConcat(text, [LF]);
    Utf8.DecodeEncode(text + [LF]);
    hide Utf8.Encode, Utf8.Decode, WellFormed, ParseValue;
    assert (text + [LF])[..|text|] == text && text + [] == text;
  }

  /** The acceptor accepts exactly the encoder's image: the encoding of a value
      is accepted and yields that value in normal form, and whatever is accepted
      is the encoding of the value returned. */
  lemma AcceptsExactlyTheImage(f: NumberFormat, subject: string, bytes: Bytes)
    requires Faithful(f)
    ensures forall v :: EncodeBytes(f, v) == Ok(bytes) ==> Verdict(f, subject, bytes) == Ok(Normal(EncoderV0, v))
    ensures Verdict(f, subject, bytes).Ok? ==> EncodeBytes(f, Verdict(f, subject, bytes).value) == Ok(bytes)
  {
    hide Faithful;
    forall v | EncodeBytes(f, v) == Ok(bytes) ensures Verdict(f, subject, bytes) == Ok(Normal(EncoderV0, v)) {
      EncodingsWellFramed(f, v, bytes);
      NoFramingReasons(subject, bytes);
      DecodeEncoding(f, v, bytes);
      EncodeNormal(f, v);
    }
  }

  lemma EncodeNormal(f: NumberFormat, v: Value)
    requires EncodeBytes(f, v).Ok?
    ensures EncodeBytes(f, Normal(EncoderV0, v)) == EncodeBytes(f, v)
  {
    var n := Normal(EncoderV0, v);
    SerializeIsPrint(EncoderV0, f, v);
    NormalIsNormal(EncoderV0, v);
    NormalOfNormal(EncoderV0, n);
    SerializeIsPrint(EncoderV0, f, n);
    hide Serialize, Print, Normal, IsNormal;
  }

  /** Two values with the same octets are the same up to the order of entries. */
  lemma EncodingBinds(f: NumberFormat, v: Value, w: Value)
    requires Faithful(f) && EncodeBytes(f, v).Ok? && EncodeBytes(f, w).Ok?
    ensures EncodeBytes(f, v) == EncodeBytes(f, w) <==> SameUpToOrder(EncoderV0, v, w)
  {
    SerializeIsPrint(EncoderV0, f, v);
    SerializeIsPrint(EncoderV0, f, w);
    EqualTextsIffSame(EncoderV0, f, v, w);
    hide Serialize, SameUpToOrder, Faithful, Normal, Print, Encodable, Verdict;
    if EncodeBytes(f, v) == EncodeBytes(f, w) {
      DecodeEncoding(f, v, EncodeBytes(f, v).value);
      DecodeEncoding(f, w, EncodeBytes(f, w).value);
      EncodeBytesText(f, v, w);
    }
  }

  lemma EncodeBytesText(f: NumberFormat, v: Value, w: Value)
    requires EncodeBytes(f, v).Ok? && EncodeBytes(f, w).Ok? && Normal(EncoderV0, v) == Normal(EncoderV0, w)
    ensures Serialize(EncoderV0, f, v) == Serialize(EncoderV0, f, w)
  {
    SerializeIsPrint(EncoderV0, f, v);
    SerializeIsPrint(EncoderV0, f, w);
    hide Serialize, Print, Normal;
  }
}
