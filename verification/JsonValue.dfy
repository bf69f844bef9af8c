/** The value domain of the encoder and the order of object keys. */
module JsonValue {
  import opened Common
  import opened Utf16

  const MANTISSA: nat := 0x10_0000_0000_0000

  /** The binary64 bit patterns of finite numbers that are no integers: below one
      and not zero, or with a bit set behind the point. */
  predicate IsFractionBits(bits: nat) {
    var exponent, mantissa := bits / MANTISSA % 0x800, bits % MANTISSA;
    && bits < 0x1_0000_0000_0000_0000
    && if exponent < 1023 then exponent != 0 || mantissa != 0
       else exponent < 1075 && mantissa % Pow2(1075 - exponent) != 0
  }

  const ONE_HALF: nat := 0x3fe0_0000_0000_0000

  type FractionBits = bits: nat | IsFractionBits(bits) witness ONE_HALF

  /** A binary64 number, told apart as far as serialization tells it apart. A
      fraction is known by its bit pattern. */
  datatype F64 = NotANumber | Infinite(negative: bool) | NegativeZero | Integral(n: int) | Fraction(bits: FractionBits)

  datatype Value =
    | Null
    | Bool(b: bool)
    | Str(s: JsString)
    | Number(f: F64)
    | BigInteger(n: int)
    | Arr(items: seq<Value>)
    | Obj(entries: seq<Entry>)

  datatype Entry = Entry(key: JsString, value: Value)

  predicate DistinctKeys(entries: seq<Entry>) {
    entries == [] || ((forall e | e in entries[1..] :: e.key != entries[0].key) && DistinctKeys(entries[1..]))
  }

  /** Keys in strictly increasing UTF-16 order. */
  predicate Ascending(entries: seq<Entry>) {
    entries == [] || ((forall e | e in entries[1..] :: LexLess(entries[0].key, e.key)) && Ascending(entries[1..]))
  }

  function Insert(e: Entry, entries: seq<Entry>): (r: seq<Entry>)
    ensures multiset(r) == multiset([e] + entries)
  {
    if entries == [] then [e]
    else if LexLess(entries[0].key, e.key) then
      var tail := Insert(e, entries[1..]);
      assert entries == [entries[0]] + entries[1..];
      [entries[0]] + tail
    else [e] + entries
  }

  /** The entries in ascending key order. */
  function Sort(entries: seq<Entry>): (r: seq<Entry>)
    ensures multiset(r) == multiset(entries)
    ensures |r| == |entries|
  {
    if entries == [] then []
    else
      assert entries == [entries[0]] + entries[1..];
      var r := Insert(entries[0], Sort(entries[1..]));
      assert |r| == |multiset(r)| == |multiset(entries)| == |entries|;
      r
  }

  lemma SameElements(a: seq<Entry>, b: seq<Entry>)
    requires multiset(a) == multiset(b)
    ensures forall e :: e in a <==> e in b
  {
    forall e ensures e in a <==> e in b {
      assert e in a <==> e in multiset(a);
      assert e in b <==> e in multiset(b);
    }
  }

  lemma {:induction false} InsertAscending(e: Entry, entries: seq<Entry>)
    requires Ascending(entries) && forall x | x in entries :: x.key != e.key
    ensures Ascending(Insert(e, entries))
  {
    if entries != [] {
      var head, tail := entries[0], entries[1..];
      LexTrichotomy(head.key, e.key);
      if LexLess(head.key, e.key) {
        InsertAscending(e, tail);
        SameElements(Insert(e, tail), [e] + tail);
        assert Insert(e, entries)[1..] == Insert(e, tail);
      } else {
        forall x | x in entries ensures LexLess(e.key, x.key) {
          if x in tail { LexTransitive(e.key, head.key, x.key); }
        }
        assert ([e] + entries)[1..] == entries;
      }
    }
  }

  /** Sorting entries with distinct keys puts them in ascending order. */
  lemma {:induction false} SortAscending(entries: seq<Entry>)
    requires DistinctKeys(entries)
    ensures Ascending(Sort(entries))
  {
    if entries != [] {
      SortAscending(entries[1..]);
      SameElements(Sort(entries[1..]), entries[1..]);
      InsertAscending(entries[0], Sort(entries[1..]));
    }
  }

  lemma HeadNotInTail(entries: seq<Entry>)
    requires Ascending(entries) && entries != []
    ensures entries[0] !in entries[1..]
  {
    LexIrreflexive(entries[0].key);
  }

  /** Two ascending lists of the same entries are the same list, so every
      sorting procedure agrees with `Sort` on distinct keys. */
  lemma {:induction false} AscendingUnique(a: seq<Entry>, b: seq<Entry>)
    requires Ascending(a) && Ascending(b) && forall e :: e in a <==> e in b
    ensures a == b
    decreases |a|
  {
    assert (a != [] ==> a[0] in b) && (b != [] ==> b[0] in a);
    if a != [] {
      var x, y := a[0], b[0];
      HeadNotInTail(a);
      HeadNotInTail(b);
      LexTrichotomy(x.key, y.key);
      assert x == y;
      assert a == [x] + a[1..] && b == [x] + b[1..];
      forall e ensures e in a[1..] <==> e in b[1..] {
        assert e in a[1..] <==> e in a && e != x;
        assert e in b[1..] <==> e in b && e != x;
      }
      AscendingUnique(a[1..], b[1..]);
    }
  }

  lemma SortUnique(a: seq<Entry>, b: seq<Entry>)
    requires DistinctKeys(a) && DistinctKeys(b) && forall e :: e in a <==> e in b
    ensures Sort(a) == Sort(b)
  {
    SortAscending(a);
    SortAscending(b);
    SameElements(Sort(a), a);
    SameElements(Sort(b), b);
    AscendingUnique(Sort(a), Sort(b));
  }

  lemma {:induction false} SortOfAscending(entries: seq<Entry>)
    requires Ascending(entries)
    ensures Sort(entries) == entries
  {
    if entries != [] {
      var head, tail := entries[0], entries[1..];
      SortOfAscending(tail);
      if tail != [] { LexTrichotomy(head.key, tail[0].key); }
      assert entries == [head] + tail;
    }
  }

  lemma {:induction false} AscendingDistinct(entries: seq<Entry>)
    requires Ascending(entries)
    ensures DistinctKeys(entries)
  {
    if entries != [] {
      AscendingDistinct(entries[1..]);
      LexIrreflexive(entries[0].key);
    }
  }

  /** Keys in strictly increasing order of their UTF-16BE octets. */
  predicate AscendingOctets(entries: seq<Entry>) {
    entries == [] ||
    ((forall e | e in entries[1..] :: LexLess(Utf16BigEndian(entries[0].key), Utf16BigEndian(e.key)))
     && AscendingOctets(entries[1..]))
  }

  lemma {:induction false} OctetOrderIsUnitOrder(entries: seq<Entry>)
    ensures AscendingOctets(entries) <==> Ascending(entries)
  {
    if entries != [] {
      OctetOrderIsUnitOrder(entries[1..]);
      forall e: Entry
        ensures LexLess(Utf16BigEndian(entries[0].key), Utf16BigEndian(e.key)) <==> LexLess(entries[0].key, e.key)
      {
        KeyOrdersCoincide(entries[0].key, e.key);
      }
      hide LexLess, Utf16BigEndian;
    }
  }

  /** Sorting by UTF-16BE octets, as both fold canonicalizers do, and sorting by
      code units, as the encoder does, give one list for every set of entries. */
  lemma SortsCoincide(entries: seq<Entry>, byOctets: seq<Entry>)
    requires DistinctKeys(entries) && AscendingOctets(byOctets) && forall e :: e in byOctets <==> e in entries
    ensures byOctets == Sort(entries)
  {
    OctetOrderIsUnitOrder(byOctets);
    AscendingDistinct(byOctets);
    SortUnique(byOctets, entries);
    SortOfAscending(byOctets);
  }
}
