/** CBOR data items as trees, their canonical bytes, and the reference parser that both
    parsers of the repository are measured against. */
module CborValue {
  import opened Bytes
  import opened CborHead

  /** A map keeps its keys and values alternately in one list. A float keeps its raw bits:
      `info` is 25, 26 or 27 for half, single and double precision. */
  datatype Value =
    | UInt(n: u64)
    | NegInt(n: u64)          // the integer -1 - n
    | ByteString(bytes: seq<byte>)
    | TextString(text: seq<byte>)
    | Array(items: seq<Value>)
    | Map(keysAndValues: seq<Value>)
    | Tag(tag: u64, content: Value)
    | Simple(simple: byte)
    | Float(info: byte, bits: u64)

  /** An item and the offset just past it. */
  datatype Item = NoItem | Item(value: Value, end: nat)
  datatype Items = NoItems | Items(values: seq<Value>, end: nat)

  /** How many arrays, maps and tags enclose the most deeply nested item. */
  function Height(v: Value): (h: nat)
    decreases v, 1
  {
    match v
    case Array(items) => 1 + HeightOfAll(items)
    case Map(items) => 1 + HeightOfAll(items)
    case Tag(_, content) => 1 + Height(content)
    case _ => 0
  }

  /** The greatest height in the list, or -1 for the empty list. */
  function HeightOfAll(vs: seq<Value>): (h: int)
    ensures h >= -1
    decreases vs, 0
  {
    if vs == [] then -1
    else
      var first, rest := Height(vs[0]), HeightOfAll(vs[1..]);
      if first > rest then first else rest
  }

  /** An item nests within a limit when the items of an array or map, or the content of a tag, nest within one
      less; an empty array or map counts as no level. */
  lemma NestingIs(v: Value, limit: int)
    ensures Height(v) <= limit <==>
            match v
            case Array(items) => limit >= 0 && forall i | 0 <= i < |items| :: Height(items[i]) <= limit - 1
            case Map(items) => limit >= 0 && forall i | 0 <= i < |items| :: Height(items[i]) <= limit - 1
            case Tag(_, content) => Height(content) <= limit - 1
            case _ => limit >= 0
  {
    match v
    case Array(items) => GreatestHeight(items, limit - 1);
    case Map(items) => GreatestHeight(items, limit - 1);
    case _ =>
  }

  lemma {:induction false} GreatestHeight(vs: seq<Value>, limit: int)
    ensures HeightOfAll(vs) <= limit <==> limit >= -1 && forall i | 0 <= i < |vs| :: Height(vs[i]) <= limit
  {
    hide Height;
    if vs != [] {
      GreatestHeight(vs[1..], limit);
      assert forall i | 1 <= i < |vs| :: vs[i] == vs[1..][i - 1];
    }
  }

  predicate IsContainer(h: Head) { h.Head? && (h.major == ARRAY || h.major == MAP || h.major == TAG) }

  /** The items an array, map or tag head announces. */
  function ChildCount(h: Head): nat
    requires IsContainer(h)
  {
    if h.major == TAG then 1 else if h.major == MAP then 2 * h.arg else h.arg
  }

  function Container(h: Head, items: seq<Value>): Value
    requires IsContainer(h) && |items| == ChildCount(h)
  {
    if h.major == ARRAY then Array(items) else if h.major == MAP then Map(items) else Tag(h.arg, items[0])
  }

  /** An integer, string, simple value or float whose head is `h` and whose payload starts at `body`. */
  function LeafAt(d: seq<byte>, h: Head, body: nat): (r: Item)
    requires body <= |d| && h.Head? && !IsContainer(h)
    ensures r.Item? ==> body <= r.end <= |d| && Height(r.value) == 0
  {
    if h.major == UINT then Item(UInt(h.arg), body)
    else if h.major == NEGINT then Item(NegInt(h.arg), body)
    else if h.major == SIMPLE then
      Item(if h.info <= 24 then Simple(h.arg % 256) else Float(h.info, h.arg), body)
    else if body + h.arg > |d| then NoItem
    else
      var payload := d[body..body + h.arg];
      Item(if h.major == BSTR then ByteString(payload) else TextString(payload), body + h.arg)
  }

  /** The item that starts at `off`. There is no nesting limit here. */
  function ParseItem(d: seq<byte>, off: nat): (r: Item)
    requires off <= |d|
    ensures r.Item? ==> off < r.end <= |d|
    decreases |d| - off, 0
  {
    var h := HeadAt(d, off);
    if h.NoHead? then NoItem
    else if !IsContainer(h) then LeafAt(d, h, off + h.size)
    else
      match ParseItems(d, off + h.size, ChildCount(h))
      case NoItems => NoItem
      case Items(vs, end) => Item(Container(h, vs), end)
  }

  /** `count` consecutive items starting at `off`. */
  function ParseItems(d: seq<byte>, off: nat, count: nat): (r: Items)
    requires off <= |d|
    ensures r.Items? ==> off + count <= r.end <= |d| && |r.values| == count
    decreases |d| - off, 1
  {
    if count == 0 then Items([], off)
    else
      match ParseItem(d, off)
      case NoItem => NoItems
      case Item(first, next) =>
        match ParseItems(d, next, count - 1)
        case NoItems => NoItems
        case Items(rest, end) => Items([first] + rest, end)
  }

  lemma ParseCons(d: seq<byte>, off: nat, count: nat, first: Value, next: nat, rest: seq<Value>, end: nat)
    requires off <= |d| && ParseItem(d, off) == Item(first, next) && count > 0
    requires ParseItems(d, next, count - 1) == Items(rest, end)
    ensures ParseItems(d, off, count) == Items([first] + rest, end)
  {
  }

  lemma ParseOne(d: seq<byte>, off: nat, v: Value, end: nat)
    requires off <= |d| && ParseItem(d, off) == Item(v, end)
    ensures ParseItems(d, off, 1) == Items([v], end)
  {
    ParseCons(d, off, 1, v, end, [], end);
    assert [v] + [] == [v];
  }

  lemma ParseLeaf(d: seq<byte>, off: nat, h: Head, v: Value, end: nat)
    requires off <= |d| && HeadAt(d, off) == h && h.Head? && !IsContainer(h)
    requires LeafAt(d, h, off + h.size) == Item(v, end)
    ensures ParseItem(d, off) == Item(v, end)
  {
  }

  lemma ParseContainer(d: seq<byte>, off: nat, h: Head, items: seq<Value>, end: nat)
    requires off <= |d| && HeadAt(d, off) == h && IsContainer(h)
    requires ParseItems(d, off + h.size, ChildCount(h)) == Items(items, end)
    ensures ParseItem(d, off) == Item(Container(h, items), end)
  {
  }

  /** A parsed item depends only on its own bytes, not on where they stand or what follows. */
  lemma {:induction false} ParseItemLocal(d: seq<byte>, off: nat, v: Value, end: nat, d': seq<byte>, off': nat)
    requires off <= |d| && ParseItem(d, off) == Item(v, end) && SameWindow(d, off, d', off', end - off)
    ensures ParseItem(d', off') == Item(v, off' + (end - off))
    decreases |d| - off, 0
  {
    hide HeadAt, LeafAt, SameWindow, ParseItems;
    var h := HeadAt(d, off);
    if IsContainer(h) {
      var Items(items, _) := ParseItems(d, off + h.size, ChildCount(h));
      SubWindow(d, off, d', off', end - off, 0, h.size);
      SubWindow(d, off, d', off', end - off, h.size, end - off - h.size);
      HeadLocal(d, off, d', off');
      ParseItemsLocal(d, off + h.size, ChildCount(h), items, end, d', off' + h.size);
      ParseContainer(d', off', h, items, off' + (end - off));
    } else {
      LeafLocal(d, off, h, v, end, d', off');
    }
  }

  lemma LeafLocal(d: seq<byte>, off: nat, h: Head, v: Value, end: nat, d': seq<byte>, off': nat)
    requires off <= |d| && HeadAt(d, off) == h && h.Head? && !IsContainer(h)
    requires LeafAt(d, h, off + h.size) == Item(v, end) && SameWindow(d, off, d', off', end - off)
    ensures ParseItem(d', off') == Item(v, off' + (end - off))
  {
    HeadLocal(d, off, d', off');
    if h.major == BSTR || h.major == TSTR {
      SameSlice(d, off + h.size, d', off' + h.size, h.arg);
    }
    ParseLeaf(d', off', h, v, off' + (end - off));
  }

  lemma {:induction false} ParseItemsLocal(
    d: seq<byte>, off: nat, count: nat, vs: seq<Value>, end: nat, d': seq<byte>, off': nat)
    requires off <= |d| && ParseItems(d, off, count) == Items(vs, end) && SameWindow(d, off, d', off', end - off)
    ensures ParseItems(d', off', count) == Items(vs, off' + (end - off))
    decreases |d| - off, 1
  {
    hide ParseItem, SameWindow;
    if count > 0 {
      var Item(first, next) := ParseItem(d, off);
      var Items(rest, _) := ParseItems(d, next, count - 1);
      SubWindow(d, off, d', off', end - off, 0, next - off);
      SubWindow(d, off, d', off', end - off, next - off, end - next);
      ParseItemLocal(d, off, first, next, d', off');
      ParseItemsLocal(d, next, count - 1, rest, end, d', off' + (next - off));
      ParseCons(d', off', count, first, off' + (next - off), rest, off' + (end - off));
    }
  }

  // ----- canonical encoding ---------------------------------------------------------------

  /** Trees the encoder can write: strings are C objects, counts fit a `size_t`, maps hold whole pairs,
      and neither the reserved simple values 24..31 nor half-precision floats occur. */
  predicate Encodable(v: Value)
    decreases v, 1
  {
    match v
    case ByteString(b) => |b| <= PTRDIFF_MAX
    case TextString(t) => |t| <= PTRDIFF_MAX
    case Array(items) => |items| <= SIZE_MAX && AllEncodable(items)
    case Map(items) => |items| % 2 == 0 && |items| <= SIZE_MAX && AllEncodable(items)
    case Tag(_, content) => Encodable(content)
    case Simple(s) => s < 24 || s >= 32
    case Float(info, bits) => 26 <= info <= 27 && bits < ArgBound(ArgBytes(info))
    case _ => true
  }

  predicate AllEncodable(vs: seq<Value>)
    decreases vs, 0
  {
    vs == [] || (Encodable(vs[0]) && AllEncodable(vs[1..]))
  }

  /** Major type 7 heads are not chosen by value: floats keep their width. */
  function FloatBytes(info: byte, bits: u64): seq<byte>
    requires 25 <= info <= 27
  {
    [32 * SIMPLE + info] + BigEndian(bits, ArgBytes(info))
  }

  function Encode(v: Value): (s: seq<byte>)
    requires Encodable(v)
    ensures |s| >= 1
    decreases v, 1
  {
    match v
    case UInt(n) => EncodeHead(UINT, n)
    case NegInt(n) => EncodeHead(NEGINT, n)
    case ByteString(b) => EncodeHead(BSTR, |b|) + b
    case TextString(t) => EncodeHead(TSTR, |t|) + t
    case Array(items) => EncodeHead(ARRAY, |items|) + EncodeAll(items)
    case Map(items) => EncodeHead(MAP, |items| / 2) + EncodeAll(items)
    case Tag(t, content) => EncodeHead(TAG, t) + Encode(content)
    case Simple(s) => EncodeHead(SIMPLE, s)
    case Float(info, bits) => FloatBytes(info, bits)
  }

  function EncodeAll(vs: seq<Value>): (s: seq<byte>)
    requires AllEncodable(vs)
    ensures |s| >= |vs|
    decreases vs, 0
  {
    if vs == [] then [] else Encode(vs[0]) + EncodeAll(vs[1..])
  }

  /** Round trip: wherever the canonical bytes of a tree stand, parsing there gives back exactly
      that tree and stops exactly past its bytes. */
  lemma {:induction false} ParseEncoded(d: seq<byte>, off: nat, v: Value)
    requires Encodable(v) && At(d, off, Encode(v))
    ensures ParseItem(d, off) == Item(v, off + |Encode(v)|)
    decreases v, 1
  {
    hide EncodeHead, HeadAt, At, LeafAt, ParseItems, ParseItem;
    match v {
      case Array(items) =>
        var h := SplitHead(d, off, ARRAY, |items|, EncodeAll(items));
        ParseAllEncoded(d, off + h.size, items);
        ParseContainer(d, off, h, items, off + h.size + |EncodeAll(items)|);
      case Map(items) =>
        var h := SplitHead(d, off, MAP, |items| / 2, EncodeAll(items));
        ParseAllEncoded(d, off + h.size, items);
        ParseContainer(d, off, h, items, off + h.size + |EncodeAll(items)|);
      case Tag(t, content) =>
        var h := SplitHead(d, off, TAG, t, Encode(content));
        ParseEncoded(d, off + h.size, content);
        ParseOne(d, off + h.size, content, off + h.size + |Encode(content)|);
        ParseContainer(d, off, h, [content], off + h.size + |Encode(content)|);
      case _ => ParseEncodedLeaf(d, off, v);
    }
  }

  lemma ParseEncodedLeaf(d: seq<byte>, off: nat, v: Value)
    requires Encodable(v) && !v.Array? && !v.Map? && !v.Tag? && At(d, off, Encode(v))
    ensures ParseItem(d, off) == Item(v, off + |Encode(v)|)
  {
    hide EncodeHead, HeadAt, At;
    match v {
      case UInt(n) => HeadRoundTrip(d, off, UINT, n);
      case NegInt(n) => HeadRoundTrip(d, off, NEGINT, n);
      case ByteString(b) =>
        var h := SplitHead(d, off, BSTR, |b|, b);
        AtSlice(d, off + h.size, b);
      case TextString(t) =>
        var h := SplitHead(d, off, TSTR, |t|, t);
        AtSlice(d, off + h.size, t);
      case Simple(s) => HeadRoundTrip(d, off, SIMPLE, s);
      case Float(info, bits) => FloatRoundTrip(d, off, info, bits);
    }
  }

  lemma FloatRoundTrip(d: seq<byte>, off: nat, info: byte, bits: u64)
    requires 25 <= info <= 27 && bits < ArgBound(ArgBytes(info))
    requires At(d, off, FloatBytes(info, bits))
    ensures HeadAt(d, off) == Head(SIMPLE, info, bits, |FloatBytes(info, bits)|)
  {
    var n := ArgBytes(info);
    assert d[off] == FloatBytes(info, bits)[0] == 32 * SIMPLE + info;
    AtConcat(d, off, [32 * SIMPLE + info], BigEndian(bits, n));
    ArgRoundTrip(d, off + 1, bits, n);
  }

  lemma {:induction false} ParseAllEncoded(d: seq<byte>, off: nat, vs: seq<Value>)
    requires AllEncodable(vs) && At(d, off, EncodeAll(vs))
    ensures ParseItems(d, off, |vs|) == Items(vs, off + |EncodeAll(vs)|)
    decreases vs, 0
  {
    hide Encode, Encodable, At, ParseItem;
    if vs != [] {
      var first, rest := Encode(vs[0]), EncodeAll(vs[1..]);
      AtConcat(d, off, first, rest);
      ParseEncoded(d, off, vs[0]);
      ParseAllEncoded(d, off + |first|, vs[1..]);
      assert vs == [vs[0]] + vs[1..];
    }
  }

  lemma SplitHead(d: seq<byte>, off: nat, major: Major, value: u64, body: seq<byte>) returns (h: Head)
    requires At(d, off, EncodeHead(major, value) + body)
    ensures h == Head(major, ShortestInfo(value), value, |EncodeHead(major, value)|)
    ensures HeadAt(d, off) == h
    ensures At(d, off + h.size, body)
  {
    h := Head(major, ShortestInfo(value), value, |EncodeHead(major, value)|);
    AtConcat(d, off, EncodeHead(major, value), body);
    HeadRoundTrip(d, off, major, value);
  }

  /** The bytes of each kind of item: its major type (section 3.1 of RFC 8949), what its argument is, and what
      follows its head. */
  lemma EncodingLiteral(v: Value)
    requires Encodable(v)
    ensures var e := Encode(v);
            var h := HeadAt(e, 0);
            && h.Head? && h.major == e[0] / 32
            && match v
               case UInt(n) => e[0] / 32 == 0 && h.arg == n && |e| == h.size
               case NegInt(n) => e[0] / 32 == 1 && h.arg == n && |e| == h.size
               case ByteString(b) => e[0] / 32 == 2 && h.arg == |b| && e[h.size..] == b
               case TextString(t) => e[0] / 32 == 3 && h.arg == |t| && e[h.size..] == t
               case Array(items) => e[0] / 32 == 4 && h.arg == |items| && e[h.size..] == EncodeAll(items)
               case Map(items) => e[0] / 32 == 5 && 2 * h.arg == |items| && e[h.size..] == EncodeAll(items)
               case Tag(t, content) => e[0] / 32 == 6 && h.arg == t && e[h.size..] == Encode(content)
               case Simple(s) => e == if s < 24 then [0xE0 + s] else [0xF8, s]
               case Float(info, bits) => if info == 26 then e[0] == 0xFA && |e| == 5 else e[0] == 0xFB && |e| == 9
  {
    hide EncodeHead, HeadAt, BigEndian;
    var e := Encode(v);
    match v {
      case UInt(n) => WholeHead(e, UINT, n, []);
      case NegInt(n) => WholeHead(e, NEGINT, n, []);
      case ByteString(b) => WholeHead(e, BSTR, |b|, b);
      case TextString(t) => WholeHead(e, TSTR, |t|, t);
      case Array(items) => WholeHead(e, ARRAY, |items|, EncodeAll(items));
      case Map(items) => WholeHead(e, MAP, |items| / 2, EncodeAll(items));
      case Tag(t, content) => WholeHead(e, TAG, t, Encode(content));
      case Simple(s) =>
        EncodeHeadLiteral(SIMPLE, s);
        WholeHead(e, SIMPLE, s, []);
      case Float(info, bits) => FloatHead(info, bits);
    }
  }

  lemma WholeHead(e: seq<byte>, major: Major, value: u64, rest: seq<byte>)
    requires e == EncodeHead(major, value) + rest
    ensures var h := HeadAt(e, 0);
            && h == Head(major, ShortestInfo(value), value, |EncodeHead(major, value)|)
            && e[0] / 32 == major && e[h.size..] == rest
  {
    hide EncodeHead, HeadAt;
    AtSlice(e, 0, e);
    AtConcat(e, 0, EncodeHead(major, value), rest);
    HeadRoundTrip(e, 0, major, value);
    HeadMajor(e);
  }

  lemma HeadMajor(e: seq<byte>)
    requires HeadAt(e, 0).Head?
    ensures |e| > 0 && HeadAt(e, 0).major == e[0] / 32
  {
  }

  lemma FloatHead(info: byte, bits: u64)
    requires Encodable(Float(info, bits))
    ensures var e := Encode(Float(info, bits));
            e[0] == 7 * 32 + info && |e| == (if info == 26 then 5 else 9) && HeadAt(e, 0).Head?
    ensures HeadAt(Encode(Float(info, bits)), 0).major == 7
  {
    hide BigEndian;
  }

  /** The canonical encoding is injective and prefix-free. */
  lemma EncodingIsPrefixFree(v: Value, w: Value)
    requires Encodable(v) && Encodable(w) && Encode(v) <= Encode(w)
    ensures v == w
  {
    ParseEncoded(Encode(w), 0, w);
    ParseEncoded(Encode(w), 0, v);
  }
}
