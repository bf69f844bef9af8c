/** Surrogates, the lone-surrogate scan and the key order of the encoder. */
module Utf16 {
  import opened Common

  predicate IsHigh(u: CodeUnit) { 0xd800 <= u <= 0xdbff }

  predicate IsLow(u: CodeUnit) { 0xdc00 <= u <= 0xdfff }

  predicate IsSurrogate(u: CodeUnit) { IsHigh(u) || IsLow(u) }

  predicate StartsWithPair(s: JsString) { |s| >= 2 && IsHigh(s[0]) && IsLow(s[1]) }

  /** Whether the unit at `i` is half of no surrogate pair. */
  predicate LoneAt(s: JsString, i: nat)
    requires i < |s|
  {
    || (IsHigh(s[i]) && !(i + 1 < |s| && IsLow(s[i + 1])))
    || (IsLow(s[i]) && !(i > 0 && IsHigh(s[i - 1])))
  }

  /** The string denotes a sequence of Unicode scalar values. */
  predicate WellFormed(s: JsString) {
    forall i | 0 <= i < |s| :: !LoneAt(s, i)
  }

  lemma WellFormedConcat(a: JsString, b: JsString)
    requires WellFormed(a) && WellFormed(b)
    ensures WellFormed(a + b)
  {
    forall i | 0 <= i < |a + b| ensures !LoneAt(a + b, i) {
      if i < |a| { assert !LoneAt(a, i); } else { assert !LoneAt(b, i - |a|); }
    }
  }

  datatype ScalarCategory = NonScalarKey | NonScalarString

  /** `scalarError`: complains exactly about strings with a lone surrogate. */
  method ScalarError(value: JsString, key: bool) returns (error: Option<ScalarCategory>)
    ensures error.None? <==> WellFormed(value)
    ensures error.Some? ==> error.value == if key then NonScalarKey else NonScalarString
  {
    var category := if key then NonScalarKey else NonScalarString;
    var index := 0;
    while index < |value|
      invariant 0 <= index <= |value|
      invariant forall i | 0 <= i < index :: !LoneAt(value, i)
      invariant index > 0 ==> !IsHigh(value[index - 1])
    {
      var unit := value[index];
      if IsHigh(unit) {
        if index + 1 >= |value| {
          assert LoneAt(value, index);
          return Some(category);
        }
        var low := value[index + 1];
        if low < 0xdc00 || low > 0xdfff {
          assert LoneAt(value, index);
          return Some(category);
        }
        index := index + 1;
      } else if IsLow(unit) {
        assert LoneAt(value, index);
        return Some(category);
      }
      index := index + 1;
    }
    return None;
  }

  /** Lexicographic order on numbers; a proper prefix comes first. */
  predicate LexLess(a: seq<int>, b: seq<int>) {
    b != [] && (a == [] || a[0] < b[0] || (a[0] == b[0] && LexLess(a[1..], b[1..])))
  }

  /** The first difference decides, the smaller number coming first; without one
      the shorter of the two comes first. */
  lemma {:induction false} LexExactly(a: seq<int>, b: seq<int>)
    ensures LexLess(a, b)
       <==> || (|a| < |b| && a == b[..|a|])
            || exists i | 0 <= i < |a| && i < |b| :: a[..i] == b[..i] && a[i] < b[i]
  {
    if a != [] && b != [] {
      if a[0] == b[0] {
        LexExactly(a[1..], b[1..]);
        if |a| < |b| { HeadsAndTails(a, b, |a|); }
        forall i | 0 <= i < |a| && i < |b| && i > 0 ensures a[..i] == b[..i] <==> a[1..][..i - 1] == b[1..][..i - 1] {
          HeadsAndTails(a, b, i);
        }
        if i :| 0 <= i < |a[1..]| && i < |b[1..]| && a[1..][..i] == b[1..][..i] && a[1..][i] < b[1..][i] {
          assert a[..i + 1] == b[..i + 1] && a[i + 1] < b[i + 1];
        }
        if i :| 0 <= i < |a| && i < |b| && a[..i] == b[..i] && a[i] < b[i] {
          assert i > 0 && a[1..][i - 1] < b[1..][i - 1];
        }
      } else {
        assert a[..0] == b[..0];
        forall i | 0 < i <= |a| && i <= |b| ensures a[..i] != b[..i] { assert a[..i][0] != b[..i][0]; }
      }
    } else if a == [] && b != [] {
      assert a == b[..0];
    }
  }

  lemma HeadsAndTails(a: seq<int>, b: seq<int>, i: nat)
    requires 0 < i <= |a| && i <= |b| && a[0] == b[0]
    ensures a[..i] == b[..i] <==> a[1..][..i - 1] == b[1..][..i - 1]
  {
    assert a[..i] == [a[0]] + a[1..][..i - 1] && b[..i] == [b[0]] + b[1..][..i - 1];
  }

  lemma {:induction false} LexIrreflexive(a: seq<int>)
    ensures !LexLess(a, a)
  {
    if a != [] { LexIrreflexive(a[1..]); }
  }

  lemma {:induction false} LexTransitive(a: seq<int>, b: seq<int>, c: seq<int>)
    requires LexLess(a, b) && LexLess(b, c)
    ensures LexLess(a, c)
  {
    if a != [] && a[0] == b[0] == c[0] { LexTransitive(a[1..], b[1..], c[1..]); }
  }

  lemma {:induction false} LexTotal(a: seq<int>, b: seq<int>)
    ensures LexLess(a, b) || LexLess(b, a) || a == b
  {
    if a != [] && b != [] && a[0] == b[0] {
      LexTotal(a[1..], b[1..]);
      assert a == [a[0]] + a[1..] && b == [b[0]] + b[1..];
    }
  }

  /** The order is strict and total: exactly one of the three cases holds. */
  lemma LexTrichotomy(a: seq<int>, b: seq<int>)
    ensures LexLess(a, b) <==> !LexLess(b, a) && a != b
  {
    LexTotal(a, b);
    LexIrreflexive(a);
    if LexLess(a, b) && LexLess(b, a) { LexTransitive(a, b, a); }
  }

  lemma {:induction false} LexSkipsCommonPrefix(a: seq<int>, b: seq<int>, k: nat)
    requires k <= |a| && k <= |b| && a[..k] == b[..k]
    ensures LexLess(a, b) <==> LexLess(a[k..], b[k..])
    decreases k
  {
    if k > 0 {
      assert a[0] == a[..k][0] == b[..k][0] == b[0];
      assert a[1..][..k - 1] == a[..k][1..] == b[..k][1..] == b[1..][..k - 1];
      LexSkipsCommonPrefix(a[1..], b[1..], k - 1);
      assert a[1..][k - 1..] == a[k..] && b[1..][k - 1..] == b[k..];
    } else {
      assert a[0..] == a && b[0..] == b;
    }
  }

  /** `compareUtf16`: the sign of the result is the order of the two strings. */
  method CompareUtf16(left: JsString, right: JsString) returns (order: int)
    ensures order < 0 <==> LexLess(left, right)
    ensures order > 0 <==> LexLess(right, left)
    ensures order == 0 <==> left == right
  {
    LexTrichotomy(left, right);
    LexTrichotomy(right, left);
    var shared := if |left| < |right| then |left| else |right|;
    for index := 0 to shared
      invariant left[..index] == right[..index]
    {
      var a, b := left[index], right[index];
      LexSkipsCommonPrefix(left, right, index);
      LexSkipsCommonPrefix(right, left, index);
      if a != b { return if a < b then -1 else 1; }
    }
    LexSkipsCommonPrefix(left, right, shared);
    LexSkipsCommonPrefix(right, left, shared);
    return |left| - |right|;
  }

  /** The UTF-16BE octets that both fold canonicalizers compare. */
  function Utf16BigEndian(s: JsString): Bytes {
    if s == [] then [] else [s[0] / 256, s[0] % 256] + Utf16BigEndian(s[1..])
  }

  /** Comparing UTF-16BE octets and comparing code units order all strings alike. */
  lemma {:induction false} KeyOrdersCoincide(a: JsString, b: JsString)
    ensures LexLess(Utf16BigEndian(a), Utf16BigEndian(b)) <==> LexLess(a, b)
  {
    var x, y := Utf16BigEndian(a), Utf16BigEndian(b);
    if a != [] && b != [] {
      assert x == [a[0] / 256] + ([a[0] % 256] + Utf16BigEndian(a[1..]));
      assert y == [b[0] / 256] + ([b[0] % 256] + Utf16BigEndian(b[1..]));
      KeyOrdersCoincide(a[1..], b[1..]);
      LexHead(x, y);
      LexHead(x[1..], y[1..]);
      assert x[1..][1..] == Utf16BigEndian(a[1..]) && y[1..][1..] == Utf16BigEndian(b[1..]);
    }
  }

  lemma LexHead(a: seq<int>, b: seq<int>)
    requires a != [] && b != []
    ensures LexLess(a, b) <==> a[0] < b[0] || (a[0] == b[0] && LexLess(a[1..], b[1..]))
  {
  }
}

/** `Buffer.from(text, "utf8")` and `bytes.toString("utf8")`. */
module Utf8 {
  import opened Common
  import opened Utf16

  const REPLACEMENT: CodeUnit := 0xfffd

  function CodePoint(high: CodeUnit, low: CodeUnit): (c: nat)
    requires IsHigh(high) && IsLow(low)
    ensures 0x1_0000 <= c < 0x11_0000
  {
    0x1_0000 + (high - 0xd800) * 1024 + (low - 0xdc00)
  }

  function EncodeUnit(u: CodeUnit): (b: Bytes)
    ensures b != []
  {
    if u < 0x80 then [u]
    else if u < 0x800 then [0xc0 + u / 64, 0x80 + u % 64]
    else
      var v := if IsSurrogate(u) then REPLACEMENT else u;
      [0xe0 + v / 4096, 0x80 + v / 64 % 64, 0x80 + v % 64]
  }

  function EncodePair(high: CodeUnit, low: CodeUnit): (b: Bytes)
    requires IsHigh(high) && IsLow(low)
    ensures |b| == 4
  {
    var c := CodePoint(high, low);
    [0xf0 + c / 26_2144, 0x80 + c / 4096 % 64, 0x80 + c / 64 % 64, 0x80 + c % 64]
  }

  function Encode(s: JsString): Bytes {
    if s == [] then []
    else if StartsWithPair(s) then EncodePair(s[0], s[1]) + Encode(s[2..])
    else EncodeUnit(s[0]) + Encode(s[1..])
  }

  predicate IsContinuation(b: Byte) { 0x80 <= b <= 0xbf }

  function Payload(b: Byte): int { b - 0x80 }

  /** The units decoded first and the number of octets they take. A malformed
      sequence yields one replacement character for its longest valid start. */
  function DecodeFirst(b: Bytes): (r: (JsString, nat))
    requires b != []
    ensures 0 < r.1 <= |b| && 1 <= |r.0| <= 2
  {
    var lead: int := b[0];
    if lead < 0x80 then ([lead], 1)
    else if 0xc2 <= lead <= 0xdf then
      if |b| < 2 || !IsContinuation(b[1]) then ([REPLACEMENT], 1)
      else ([(lead - 0xc0) * 64 + Payload(b[1])], 2)
    else if 0xe0 <= lead <= 0xef then
      var least, most := if lead == 0xe0 then 0xa0 else 0x80, if lead == 0xed then 0x9f else 0xbf;
      if |b| < 2 || !(least <= b[1] <= most) then ([REPLACEMENT], 1)
      else if |b| < 3 || !IsContinuation(b[2]) then ([REPLACEMENT], 2)
      else ([(lead - 0xe0) * 4096 + Payload(b[1]) * 64 + Payload(b[2])], 3)
    else if 0xf0 <= lead <= 0xf4 then
      var least, most := if lead == 0xf0 then 0x90 else 0x80, if lead == 0xf4 then 0x8f else 0xbf;
      if |b| < 2 || !(least <= b[1] <= most) then ([REPLACEMENT], 1)
      else if |b| < 3 || !IsContinuation(b[2]) then ([REPLACEMENT], 2)
      else if |b| < 4 || !IsContinuation(b[3]) then ([REPLACEMENT], 3)
      else
        var c := (lead - 0xf0) * 26_2144 + Payload(b[1]) * 4096 + Payload(b[2]) * 64 + Payload(b[3]);
        ([0xd800 + (c - 0x1_0000) / 1024, 0xdc00 + (c - 0x1_0000) % 1024], 4)
    else ([REPLACEMENT], 1)
  }

  function Decode(b: Bytes): JsString {
    if b == [] then [] else DecodeFirst(b).0 + Decode(b[DecodeFirst(b).1..])
  }

  lemma DecodeUnit(u: CodeUnit, rest: Bytes)
    requires !IsSurrogate(u)
    ensures DecodeFirst(EncodeUnit(u) + rest) == ([u], |EncodeUnit(u)|)
  {
    if u >= 0x800 {
      assert u == u / 4096 * 4096 + u / 64 % 64 * 64 + u % 64;
    }
  }

  lemma DecodePair(high: CodeUnit, low: CodeUnit, rest: Bytes)
    requires IsHigh(high) && IsLow(low)
    ensures DecodeFirst(EncodePair(high, low) + rest) == ([high, low], 4)
  {
    var c := CodePoint(high, low);
    SixBitDigits(c);
    assert (c - 0x1_0000) / 1024 == high - 0xd800 && (c - 0x1_0000) % 1024 == low - 0xdc00;
    hide CodePoint;
    var b := EncodePair(high, low) + rest;
    assert b[0] == 0xf0 + c / 26_2144 && b[1] == 0x80 + c / 4096 % 64
           && b[2] == 0x80 + c / 64 % 64 && b[3] == 0x80 + c % 64;
  }

  lemma SixBitDigits(c: nat)
    requires 0x1_0000 <= c < 0x11_0000
    ensures c == c / 26_2144 * 26_2144 + c / 4096 % 64 * 4096 + c / 64 % 64 * 64 + c % 64
    ensures c / 26_2144 <= 4
    ensures c / 26_2144 == 0 ==> c / 4096 % 64 >= 0x10
    ensures c / 26_2144 == 4 ==> c / 4096 % 64 < 0x10
  {
    assert c / 64 / 64 == c / 4096 && c / 4096 / 64 == c / 26_2144;
  }

  /** Decoding recovers every well-formed string from its octets. */
  lemma {:induction false} DecodeEncode(s: JsString)
    requires WellFormed(s)
    ensures Decode(Encode(s)) == s
    decreases |s|
  {
    if s != [] {
      assert !LoneAt(s, 0);
      if StartsWithPair(s) {
        var head, rest := EncodePair(s[0], s[1]), Encode(s[2..]);
        DropKeepsWellFormed(s, 2);
        DecodeEncode(s[2..]);
        DecodePair(s[0], s[1], rest);
        assert (head + rest)[4..] == rest;
        assert s == [s[0], s[1]] + s[2..];
      } else {
        var head, rest := EncodeUnit(s[0]), Encode(s[1..]);
        DropKeepsWellFormed(s, 1);
        DecodeEncode(s[1..]);
        DecodeUnit(s[0], rest);
        assert (head + rest)[|head|..] == rest;
        assert s == [s[0]] + s[1..];
      }
    }
  }

  lemma DropKeepsWellFormed(s: JsString, n: nat)
    requires WellFormed(s) && 0 < n <= |s| && !IsHigh(s[n - 1])
    ensures WellFormed(s[n..])
  {
    forall i | 0 <= i < |s[n..]| ensures !LoneAt(s[n..], i) { assert !LoneAt(s, i + n); }
  }

  /** Well-formed strings with the same octets are the same string. */
  lemma EncodeInjective(s: JsString, t: JsString)
    requires WellFormed(s) && WellFormed(t) && Encode(s) == Encode(t)
    ensures s == t
  {
    DecodeEncode(s);
    DecodeEncode(t);
  }

  /** Octets below 0x80 appear for ASCII units only, each for itself. */
  lemma {:induction false} AsciiOctets(s: JsString)
    ensures forall b | b in Encode(s) && b < 0x80 :: b in s
    decreases |s|
  {
    if s != [] {
      if StartsWithPair(s) {
        AsciiOctets(s[2..]);
      } else {
        AsciiOctets(s[1..]);
      }
    }
  }

  lemma {:induction false} EncodeAppendAscii(s: JsString, u: CodeUnit)
    requires u < 0x80
    ensures Encode(s + [u]) == Encode(s) + [u]
    decreases |s|
  {
    if s != [] {
      var t := s + [u];
      if StartsWithPair(s) {
        EncodeAppendAscii(s[2..], u);
        assert t[2..] == s[2..] + [u];
      } else {
        EncodeAppendAscii(s[1..], u);
        assert t[1..] == s[1..] + [u];
        assert StartsWithPair(t) ==> |s| >= 2 && StartsWithPair(s);
      }
    }
  }
}
