/** `JSON.parse` on UTF-16 text (RFC 8259). */
module JsonParser {
  import opened Common
  import opened JsonValue
  import opened JsonNumbers
  import opened JsonEncoder

  type Parsed<T> = Option<(T, JsString)>

  predicate IsSpace(u: CodeUnit) { u == 0x20 || u == 0x09 || u == 0x0a || u == 0x0d }

  function SkipSpace(s: JsString): (r: JsString)
    ensures |r| <= |s|
  {
    if s != [] && IsSpace(s[0]) then SkipSpace(s[1..]) else s
  }

  function HexValue(u: CodeUnit): Option<nat> {
    if 0x30 <= u <= 0x39 then Some(u - 0x30)
    else if 0x61 <= u <= 0x66 then Some(u - 0x61 + 10)
    else if 0x41 <= u <= 0x46 then Some(u - 0x41 + 10)
    else None
  }

  /** The four hexadecimal digits after a backslash and `u`. */
  function ReadHex(s: JsString): (u: Option<CodeUnit>)
  {
    if |s| < 4 then None
    else
      match (HexValue(s[0]), HexValue(s[1]), HexValue(s[2]), HexValue(s[3]))
      case (Some(a), Some(b), Some(c), Some(d)) =>
        var n := a * 4096 + b * 256 + c * 16 + d;
        if n < 0x1_0000 then Some(n) else None
      case _ => None
  }

  /** The unit a one-letter escape stands for. */
  function ShortEscape(letter: CodeUnit): Option<CodeUnit> {
    if letter == QUOTE || letter == BACKSLASH || letter == 0x2f then Some(letter)
    else if letter == 0x62 then Some(0x08)
    else if letter == 0x66 then Some(0x0c)
    else if letter == 0x6e then Some(0x0a)
    else if letter == 0x72 then Some(0x0d)
    else if letter == 0x74 then Some(0x09)
    else None
  }

  /** One character of a string literal, and what follows it. */
  function ParseUnit(s: JsString): (r: Parsed<CodeUnit>)
    ensures r.Some? ==> |r.value.1| < |s|
  {
    if s == [] || s[0] == QUOTE || s[0] < 0x20 then None
    else if s[0] != BACKSLASH then Some((s[0], s[1..]))
    else if |s| == 1 then None
    else if s[1] == 0x75 then
      match ReadHex(s[2..])
      case Some(u) => Some((u, s[6..]))
      case None => None
    else
      match ShortEscape(s[1])
      case Some(u) => Some((u, s[2..]))
      case None => None
  }

  /** The rest of a string literal after its opening quote. */
  function ParseString(s: JsString): (r: Parsed<JsString>)
    ensures r.Some? ==> |r.value.1| < |s|
    decreases |s|
  {
    if s != [] && s[0] == QUOTE then Some(([], s[1..]))
    else
      match ParseUnit(s)
      case None => None
      case Some((u, rest)) =>
        match ParseString(rest)
        case None => None
        case Some((tail, after)) => Some(([u] + tail, after))
  }

  function NumberRun(s: JsString): (n: nat)
    ensures n <= |s|
  {
    if s != [] && IsNumberUnit(s[0]) then 1 + NumberRun(s[1..]) else 0
  }

  /** A repeated key keeps its place and takes the later value. */
  function Put(entries: seq<Entry>, key: JsString, value: Value): seq<Entry> {
    if entries == [] then [Entry(key, value)]
    else if entries[0].key == key then [Entry(key, value)] + entries[1..]
    else [entries[0]] + Put(entries[1..], key, value)
  }

  function ParseValue(f: NumberFormat, s: JsString): (r: Parsed<Value>)
    ensures r.Some? ==> |r.value.1| < |s|
    decreases |s|, 1
  {
    var t := SkipSpace(s);
    if t == [] then None
    else if NULL_TEXT <= t then Some((Null, t[4..]))
    else if TRUE_TEXT <= t then Some((Bool(true), t[4..]))
    else if FALSE_TEXT <= t then Some((Bool(false), t[5..]))
    else if t[0] == QUOTE then
      match ParseString(t[1..])
      case None => None
      case Some((text, rest)) => Some((Str(text), rest))
    else if t[0] == 0x5b then
      var u := SkipSpace(t[1..]);
      if u != [] && u[0] == 0x5d then Some((Arr([]), u[1..]))
      else
        match ParseItems(f, u)
        case None => None
        case Some((items, rest)) => Some((Arr(items), rest))
    else if t[0] == 0x7b then
      var u := SkipSpace(t[1..]);
      if u != [] && u[0] == 0x7d then Some((Obj([]), u[1..]))
      else
        match ParseMembers(f, u, [])
        case None => None
        case Some((entries, rest)) => Some((Obj(entries), rest))
    else if t[0] == 0x2d || IsDigit(t[0]) then
      match ReadNumber(f, t[..NumberRun(t)])
      case None => None
      case Some(n) => Some((Number(n), t[NumberRun(t)..]))
    else None
  }

  function ParseItems(f: NumberFormat, s: JsString): (r: Parsed<seq<Value>>)
    ensures r.Some? ==> |r.value.1| < |s|
    decreases |s|, 2
  {
    match ParseValue(f, s)
    case None => None
    case Some((item, rest)) =>
      var t := SkipSpace(rest);
      if t != [] && t[0] == COMMA then
        match ParseItems(f, t[1..])
        case None => None
        case Some((items, after)) => Some(([item] + items, after))
      else if t != [] && t[0] == 0x5d then Some(([item], t[1..]))
      else None
  }

  function ParseMembers(f: NumberFormat, s: JsString, earlier: seq<Entry>): (r: Parsed<seq<Entry>>)
    ensures r.Some? ==> |r.value.1| < |s|
    decreases |s|, 2
  {
    var t := SkipSpace(s);
    if t == [] || t[0] != QUOTE then None
    else
      match ParseString(t[1..])
      case None => None
      case Some((key, rest)) =>
        var u := SkipSpace(rest);
        if u == [] || u[0] != COLON then None
        else
          match ParseValue(f, u[1..])
          case None => None
          case Some((value, rest')) =>
            var entries, w := Put(earlier, key, value), SkipSpace(rest');
            if w != [] && w[0] == COMMA then ParseMembers(f, w[1..], entries)
            else if w != [] && w[0] == 0x7d then Some((entries, w[1..]))
            else None
  }

  /** The whole text must be one value between white space. */
  function Parse(f: NumberFormat, s: JsString): Option<Value> {
    match ParseValue(f, s)
    case None => None
    case Some((v, rest)) => if SkipSpace(rest) == [] then Some(v) else None
  }
}
