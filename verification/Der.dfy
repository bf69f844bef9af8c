/** Definite-length DER headers (sections 8.1.3 and 10.1 of X.690) with one
    tag octet, and the reader of the certificate parser. */
module DerEncoding {
  import opened Common

  /** Value of a big-endian octet string. */
  function FromBigEndian(octets: Bytes): nat {
    if octets == [] then 0 else FromBigEndian(octets[..|octets| - 1]) * 256 + octets[|octets| - 1]
  }

  /** Shortest big-endian octet string of a number; zero has none. */
  function ToBigEndian(n: nat): (octets: Bytes)
    ensures FromBigEndian(octets) == n
    ensures octets != [] ==> octets[0] != 0
    ensures octets == [] <==> n == 0
  {
    if n == 0 then [] else
      var high := ToBigEndian(n / 256);
      assert (high + [n % 256])[..|high|] == high;
      high + [n % 256]
  }

  /** A big-endian string without a leading zero is the shortest one. */
  lemma {:induction false} ShortestIsUnique(octets: Bytes)
    requires octets != [] ==> octets[0] != 0
    ensures ToBigEndian(FromBigEndian(octets)) == octets
    ensures octets != [] ==> FromBigEndian(octets) > 0
  {
    if octets != [] {
      var high := octets[..|octets| - 1];
      ShortestIsUnique(high);
      assert octets == high + [octets[|octets| - 1]];
    }
  }

  const CONTENT_LIMIT: nat := 0x1_0000_0000

  /** The length octets: the short form below 128, else the shortest long form. */
  function EncodeLength(n: nat): Bytes
    requires n < CONTENT_LIMIT
  {
    if n < 0x80 then [n]
    else
      FourOctets(n);
      [0x80 + |ToBigEndian(n)|] + ToBigEndian(n)
  }

  lemma FourOctets(n: nat)
    ensures n < CONTENT_LIMIT <==> |ToBigEndian(n)| <= 4
  {
    assert |ToBigEndian(n / 0x1_000000)| <= 1 <==> n / 0x1_000000 < 256;
    OneMoreOctet(n / 0x1_0000);
    OneMoreOctet(n / 0x100);
    OneMoreOctet(n);
    assert n / 0x100 / 256 == n / 0x1_0000 && n / 0x1_0000 / 256 == n / 0x1_000000;
  }

  lemma OneMoreOctet(n: nat)
    ensures n >= 256 ==> |ToBigEndian(n)| == 1 + |ToBigEndian(n / 256)|
    ensures n < 256 ==> |ToBigEndian(n)| <= 1
  {
  }

  function Encode(tag: Byte, content: Bytes): Bytes
    requires |content| < CONTENT_LIMIT
  {
    [tag] + EncodeLength(|content|) + content
  }
}

module DerReader {
  import opened Common
  import opened DerEncoding

  datatype DerValue = DerValue(tag: Byte, contentStart: nat, end: nat, next: nat)

  /** `v` describes one encoded value of `bytes` that starts at `offset` and stays below `limit`. */
  predicate Encodes(bytes: Bytes, offset: int, limit: nat, v: DerValue)
    requires limit <= |bytes|
  {
    && 0 <= offset < v.contentStart <= v.end == v.next <= limit
    && v.end <= MAX_SAFE_INTEGER
    && v.end - v.contentStart < CONTENT_LIMIT
    && bytes[offset..v.end] == Encode(v.tag, bytes[v.contentStart..v.end])
  }

  /** What the header octets say about the value they start. */
  predicate HeaderSays(bytes: Bytes, offset: nat, v: DerValue)
    requires offset + 2 <= |bytes|
  {
    && v.tag == bytes[offset] && v.contentStart <= v.end <= |bytes|
    && var first, length := bytes[offset + 1], v.end - v.contentStart;
       if first < 0x80 then v.contentStart == offset + 2 && length == first
       else
         && 0x80 < first <= 0x84 && v.contentStart == offset + 2 + (first - 0x80)
         && bytes[offset + 2] != 0 && length >= 0x80
         && length == FromBigEndian(bytes[offset + 2..v.contentStart])
  }

  /** An encoded value has the header that announces it. */
  lemma HeaderOctets(bytes: Bytes, offset: int, limit: nat, v: DerValue)
    requires limit <= |bytes| && Encodes(bytes, offset, limit, v)
    ensures 0 <= offset && offset + 2 <= v.contentStart && HeaderSays(bytes, offset, v)
    ensures v.end == v.next <= limit && v.end <= MAX_SAFE_INTEGER
  {
    hide EncodeLength, ToBigEndian, FromBigEndian;
    var n := v.end - v.contentStart;
    HeaderIsPrefix(bytes, offset, v);
    LengthOctets(n);
    hide Encodes, Encode;
    var header := bytes[offset..v.contentStart];
    assert bytes[offset] == header[0] && bytes[offset + 1] == header[1];
    if n >= 0x80 {
      assert bytes[offset + 2..v.contentStart] == header[2..];
      assert header[2..] == ToBigEndian(n);
      assert bytes[offset + 2] == header[2];
    }
  }

  lemma HeaderIsPrefix(bytes: Bytes, offset: nat, v: DerValue)
    requires offset <= v.contentStart <= v.end <= |bytes| && v.end - v.contentStart < CONTENT_LIMIT
    requires bytes[offset..v.end] == Encode(v.tag, bytes[v.contentStart..v.end])
    ensures bytes[offset..v.contentStart] == [v.tag] + EncodeLength(v.end - v.contentStart)
  {
    hide EncodeLength;
    var content := bytes[v.contentStart..v.end];
    Rejoin(bytes, offset, v.contentStart, v.end);
    SameTails(bytes[offset..v.contentStart], [v.tag] + EncodeLength(|content|), content);
  }

  lemma SameTails(a: Bytes, b: Bytes, tail: Bytes)
    requires a + tail == b + tail
    ensures a == b
  {
    assert |a| + |tail| == |a + tail| == |b + tail| == |b| + |tail|;
    assert a == (a + tail)[..|a|] && b == (b + tail)[..|b|];
  }

  lemma LengthOctets(n: nat)
    requires n < CONTENT_LIMIT
    ensures n < 0x80 ==> EncodeLength(n) == [n]
    ensures n >= 0x80 ==>
              var octets := ToBigEndian(n);
              && 1 <= |octets| <= 4 && octets[0] != 0 && FromBigEndian(octets) == n
              && EncodeLength(n) == [0x80 + |octets|] + octets
  {
    hide FromBigEndian, ToBigEndian;
    FourOctets(n);
  }

  /** Conversely, the announced octets are the encoding. */
  lemma HeaderSuffices(bytes: Bytes, offset: nat, limit: nat, v: DerValue)
    requires offset + 2 <= limit <= |bytes|
    requires v.end == v.next <= limit && v.end <= MAX_SAFE_INTEGER && HeaderSays(bytes, offset, v)
    ensures Encodes(bytes, offset, limit, v)
  {
    hide EncodeLength, FromBigEndian;
    if bytes[offset + 1] < 0x80 { ShortHeader(bytes, offset, v); } else { LongHeader(bytes, offset, v); }
    Rejoin(bytes, offset, v.contentStart, v.end);
  }

  lemma Rejoin(bytes: Bytes, i: nat, j: nat, k: nat)
    requires i <= j <= k <= |bytes|
    ensures bytes[i..j] + bytes[j..k] == bytes[i..k]
  {
  }

  lemma ShortHeader(bytes: Bytes, offset: nat, v: DerValue)
    requires offset + 2 <= |bytes| && HeaderSays(bytes, offset, v) && bytes[offset + 1] < 0x80
    ensures v.end - v.contentStart < CONTENT_LIMIT
    ensures bytes[offset..v.contentStart] == [v.tag] + EncodeLength(v.end - v.contentStart)
  {
    hide ToBigEndian, FromBigEndian;
    assert bytes[offset..v.contentStart] == [v.tag] + [v.end - v.contentStart];
  }

  lemma LongHeader(bytes: Bytes, offset: nat, v: DerValue)
    requires offset + 2 <= |bytes| && HeaderSays(bytes, offset, v) && bytes[offset + 1] >= 0x80
    ensures v.end - v.contentStart < CONTENT_LIMIT
    ensures bytes[offset..v.contentStart] == [v.tag] + EncodeLength(v.end - v.contentStart)
  {
    var octets := bytes[offset + 2..v.contentStart];
    LongLength(octets);
    hide EncodeLength, FromBigEndian;
    assert bytes[offset..v.contentStart] == [v.tag] + ([bytes[offset + 1]] + octets);
  }

  lemma LongLength(octets: Bytes)
    requires 1 <= |octets| <= 4 && octets[0] != 0 && FromBigEndian(octets) >= 0x80
    ensures FromBigEndian(octets) < CONTENT_LIMIT
    ensures EncodeLength(FromBigEndian(octets)) == [0x80 + |octets|] + octets
  {
    ShortestIsUnique(octets);
    FourOctets(FromBigEndian(octets));
  }

  /** At most one encoded value starts at an offset. */
  lemma AtMostOneValue(bytes: Bytes, offset: int, limit: nat, v: DerValue, w: DerValue)
    requires limit <= |bytes| && Encodes(bytes, offset, limit, v) && Encodes(bytes, offset, limit, w)
    ensures v == w
  {
    HeaderOctets(bytes, offset, limit, v);
    HeaderOctets(bytes, offset, limit, w);
  }

  /** `readDerValue`: returns the value encoded at `offset`, and nothing where
      no value is encoded. */
  method ReadDerValue(bytes: Bytes, offset: int, limit: nat) returns (r: Option<DerValue>)
    requires limit <= |bytes|
    ensures r.Some? ==> Encodes(bytes, offset, limit, r.value)
    ensures r.None? ==> forall v :: !Encodes(bytes, offset, limit, v)
  {
    hide Encodes, Encode, EncodeLength, ToBigEndian;
    forall v | Encodes(bytes, offset, limit, v)
      ensures 0 <= offset && offset + 2 <= v.end == v.next <= limit
              && v.end <= MAX_SAFE_INTEGER && HeaderSays(bytes, offset, v)
    {
      HeaderOctets(bytes, offset, limit, v);
    }
    if offset < 0 || offset + 2 > limit { return None; }
    var tag, firstLength := bytes[offset], bytes[offset + 1];
    var length: nat, contentStart: nat := 0, offset + 2;
    if firstLength < 0x80 {
      length := firstLength;
    } else {
      var count := firstLength - 0x80;
      if count == 0 || count > 4 || contentStart + count > limit { return None; }
      if bytes[contentStart] == 0 { return None; }
      for i := 0 to count
        invariant length == FromBigEndian(bytes[contentStart..contentStart + i])
      {
        assert bytes[contentStart..contentStart + i + 1][..i] == bytes[contentStart..contentStart + i];
        length := length * 256 + bytes[contentStart + i];
      }
      contentStart := contentStart + count;
      if length < 0x80 { return None; }
    }
    var end := contentStart + length;
    if end > MAX_SAFE_INTEGER || end > limit { return None; }
    var v := DerValue(tag, contentStart, end, end);
    HeaderSuffices(bytes, offset, limit, v);
    return Some(v);
  }

  /** `children` are encoded back to back from `start` up to `stop`. */
  predicate Tiles(bytes: Bytes, start: nat, stop: nat, limit: nat, children: seq<DerValue>)
    requires limit <= |bytes|
    decreases |children|
  {
    if children == [] then start == stop
    else Encodes(bytes, start, limit, children[0]) && Tiles(bytes, children[0].next, stop, limit, children[1..])
  }

  lemma {:induction false} TilesAppend(bytes: Bytes, start: nat, stop: nat, limit: nat, children: seq<DerValue>,
                                       v: DerValue)
    requires limit <= |bytes| && Tiles(bytes, start, stop, limit, children) && Encodes(bytes, stop, limit, v)
    ensures Tiles(bytes, start, v.next, limit, children + [v])
    decreases |children|
  {
    hide Encodes;
    if children != [] {
      TilesAppend(bytes, children[0].next, stop, limit, children[1..], v);
      assert (children + [v])[1..] == children[1..] + [v];
    }
  }

  /** No stretch is tiled in two ways. */
  lemma {:induction false} TilingUnique(bytes: Bytes, start: nat, stop: nat, limit: nat, a: seq<DerValue>,
                                        b: seq<DerValue>)
    requires limit <= |bytes| && Tiles(bytes, start, stop, limit, a) && Tiles(bytes, start, stop, limit, b)
    ensures a == b
    decreases |a|
  {
    if a != [] && b != [] {
      AtMostOneValue(bytes, start, limit, a[0], b[0]);
      TilingUnique(bytes, a[0].next, stop, limit, a[1..], b[1..]);
    } else if a != [] {
      TilesForward(bytes, a[0].next, stop, limit, a[1..]);
    } else if b != [] {
      TilesForward(bytes, b[0].next, stop, limit, b[1..]);
    }
  }

  lemma {:induction false} TilesForward(bytes: Bytes, start: nat, stop: nat, limit: nat, children: seq<DerValue>)
    requires limit <= |bytes| && Tiles(bytes, start, stop, limit, children)
    ensures start <= stop && (children != [] ==> start < stop)
    decreases |children|
  {
    if children != [] { TilesForward(bytes, children[0].next, stop, limit, children[1..]); }
  }

  /** A tiling that starts with `first` goes on from where `first` stops. */
  lemma {:induction false} TilingExtends(bytes: Bytes, start: nat, mid: nat, stop: nat, limit: nat,
                                         first: seq<DerValue>, all: seq<DerValue>)
    requires limit <= |bytes| && Tiles(bytes, start, mid, limit, first) && Tiles(bytes, start, stop, limit, all)
    requires mid <= stop
    ensures |first| <= |all| && Tiles(bytes, mid, stop, limit, all[|first|..])
    decreases |first|
  {
    if first == [] {
      assert all[0..] == all;
    } else {
      TilesForward(bytes, first[0].next, mid, limit, first[1..]);
      AtMostOneValue(bytes, start, limit, first[0], all[0]);
      TilingExtends(bytes, first[0].next, mid, stop, limit, first[1..], all[1..]);
      assert all[1..][|first| - 1..] == all[|first|..];
    }
  }

  /** `directDerChildren`: the one tiling of the content, if there is one. */
  method DirectDerChildren(bytes: Bytes, value: DerValue) returns (r: Option<seq<DerValue>>)
    requires value.contentStart <= value.end <= |bytes|
    ensures r.Some? ==> Tiles(bytes, value.contentStart, value.end, value.end, r.value)
    ensures r.None? ==> forall all :: !Tiles(bytes, value.contentStart, value.end, value.end, all)
  {
    var children, offset: nat := [], value.contentStart;
    while offset < value.end
      invariant offset <= value.end
      invariant Tiles(bytes, value.contentStart, offset, value.end, children)
    {
      var child := ReadDerValue(bytes, offset, value.end);
      if child.None? {
        forall all | Tiles(bytes, value.contentStart, value.end, value.end, all) ensures false {
          TilingExtends(bytes, value.contentStart, offset, value.end, value.end, children, all);
        }
        return None;
      }
      TilesAppend(bytes, value.contentStart, offset, value.end, children, child.value);
      children := children + [child.value];
      offset := child.value.next;
    }
    return if offset == value.end then Some(children) else None;
  }

  // Encoding a list of values and reading it back.

  datatype Item = Item(tag: Byte, content: Bytes)

  predicate Encodable(items: seq<Item>) {
    forall item | item in items :: |item.content| < CONTENT_LIMIT
  }

  function EncodeAll(items: seq<Item>): Bytes
    requires Encodable(items)
  {
    if items == [] then [] else Encode(items[0].tag, items[0].content) + EncodeAll(items[1..])
  }

  /** Where the encodings of `items` lie when the first one starts at `start`. */
  function Layout(start: nat, items: seq<Item>): (values: seq<DerValue>)
    requires Encodable(items)
    ensures |values| == |items|
    decreases |items|
  {
    if items == [] then []
    else
      var end := start + |Encode(items[0].tag, items[0].content)|;
      [DerValue(items[0].tag, end - |items[0].content|, end, end)] + Layout(end, items[1..])
  }

  function ItemsOf(bytes: Bytes, children: seq<DerValue>): (items: seq<Item>)
    requires forall v | v in children :: v.contentStart <= v.end <= |bytes|
    ensures |items| == |children|
    ensures forall i | 0 <= i < |children| ::
              items[i] == Item(children[i].tag, bytes[children[i].contentStart..children[i].end])
  {
    seq(|children|, i requires 0 <= i < |children| =>
        Item(children[i].tag, bytes[children[i].contentStart..children[i].end]))
  }

  /** Encodings laid end to end are read back as the values they encode. */
  lemma {:induction false} EncodingsTile(bytes: Bytes, start: nat, stop: nat, limit: nat, items: seq<Item>)
    requires start <= stop <= limit <= |bytes| && limit <= MAX_SAFE_INTEGER
    requires Encodable(items) && bytes[start..stop] == EncodeAll(items)
    ensures Tiles(bytes, start, stop, limit, Layout(start, items))
    decreases |items|
  {
    hide Encode, Encodes, EncodeAll;
    if items == [] {
      NothingToEncode(items);
    } else {
      var mid := start + |Encode(items[0].tag, items[0].content)|;
      HeadAndRest(bytes, start, stop, items);
      EncodingInPlace(bytes, start, mid, limit, items[0]);
      EncodingsTile(bytes, mid, stop, limit, items[1..]);
      var all := Layout(start, items);
      assert all[1..] == Layout(mid, items[1..]) && all[0].next == mid;
    }
  }

  lemma NothingToEncode(items: seq<Item>)
    requires items == []
    ensures Encodable(items) && EncodeAll(items) == []
  {
  }

  lemma HeadAndRest(bytes: Bytes, start: nat, stop: nat, items: seq<Item>)
    requires start <= stop <= |bytes| && items != [] && Encodable(items) && bytes[start..stop] == EncodeAll(items)
    ensures var mid := start + |Encode(items[0].tag, items[0].content)|;
            && mid <= stop && bytes[start..mid] == Encode(items[0].tag, items[0].content)
            && bytes[mid..stop] == EncodeAll(items[1..])
  {
    hide Encode;
    var head, rest := Encode(items[0].tag, items[0].content), EncodeAll(items[1..]);
    var whole := bytes[start..stop];
    assert whole == head + rest;
    assert bytes[start..start + |head|] == whole[..|head|] && bytes[start + |head|..stop] == whole[|head|..];
  }

  lemma EncodingInPlace(bytes: Bytes, start: nat, end: nat, limit: nat, item: Item)
    requires |item.content| < CONTENT_LIMIT && start <= end <= limit <= |bytes| && limit <= MAX_SAFE_INTEGER
    requires bytes[start..end] == Encode(item.tag, item.content)
    ensures end - start > |item.content|
    ensures Encodes(bytes, start, limit, DerValue(item.tag, end - |item.content|, end, end))
  {
    hide EncodeLength;
    var content := item.content;
    assert |EncodeLength(|content|)| >= 1 by { LengthOctets(|content|); }
    EndsWith(bytes, start, end, [item.tag] + EncodeLength(|content|), content);
  }

  lemma EndsWith(bytes: Bytes, start: nat, end: nat, head: Bytes, tail: Bytes)
    requires start <= end <= |bytes| && bytes[start..end] == head + tail
    ensures end - start == |head| + |tail| && bytes[end - |tail|..end] == tail
  {
    assert bytes[end - |tail|..end] == bytes[start..end][|head|..];
  }

  /** Every tiling re-encodes to exactly the octets it covers: children are
      contiguous, and nothing of the parent's content is left over. */
  lemma {:induction false} TilingReEncodes(bytes: Bytes, start: nat, stop: nat, limit: nat, children: seq<DerValue>)
    requires limit <= |bytes| && Tiles(bytes, start, stop, limit, children) && stop <= limit
    ensures forall v | v in children :: v.contentStart <= v.end <= |bytes| && v.end - v.contentStart < CONTENT_LIMIT
    ensures Encodable(ItemsOf(bytes, children))
    ensures start <= stop && bytes[start..stop] == EncodeAll(ItemsOf(bytes, children))
    decreases |children|
  {
    if children != [] {
      hide Encodes, Encode, EncodeAll;
      var v := children[0];
      TilingReEncodes(bytes, v.next, stop, limit, children[1..]);
      assert Encodes(bytes, start, limit, v);
      ValueReEncodes(bytes, start, limit, v);
      Prepend(bytes, v, children, children[1..]);
      Rejoin(bytes, start, v.next, stop);
    }
  }

  lemma ValueReEncodes(bytes: Bytes, start: nat, limit: nat, v: DerValue)
    requires limit <= |bytes| && Encodes(bytes, start, limit, v)
    ensures start < v.contentStart <= v.end == v.next <= |bytes| && v.end - v.contentStart < CONTENT_LIMIT
    ensures bytes[start..v.next] == Encode(v.tag, bytes[v.contentStart..v.end])
  {
  }

  lemma Prepend(bytes: Bytes, v: DerValue, all: seq<DerValue>, rest: seq<DerValue>)
    requires all == [v] + rest && v.contentStart <= v.end <= |bytes| && v.end - v.contentStart < CONTENT_LIMIT
    requires forall w | w in rest :: w.contentStart <= w.end <= |bytes| && w.end - w.contentStart < CONTENT_LIMIT
    ensures forall w | w in all :: w.contentStart <= w.end <= |bytes| && w.end - w.contentStart < CONTENT_LIMIT
    ensures Encodable(ItemsOf(bytes, all))
    ensures EncodeAll(ItemsOf(bytes, all)) == Encode(v.tag, bytes[v.contentStart..v.end])
              + EncodeAll(ItemsOf(bytes, rest))
  {
    hide Encode;
    var items := ItemsOf(bytes, all);
    assert items[1..] == ItemsOf(bytes, rest);
  }
}
