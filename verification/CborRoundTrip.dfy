/** Writing a whole tree call by call and reading it back item by item. */
module CborRoundTrip {
  import opened Bytes
  import opened CborHead
  import opened CborValue
  import opened CborDecoder
  import opened CborLog
  import opened CborEncoder

  /** How many containers are open at once while the tree is being written. */
  function OpenDepth(v: Value): (n: nat)
    decreases v, 1
  {
    match v
    case Array(items) => 1 + OpenDepthOfAll(items)
    case Map(items) => 1 + OpenDepthOfAll(items)
    case Tag(_, content) => OpenDepth(content)
    case _ => 0
  }

  function OpenDepthOfAll(vs: seq<Value>): (n: nat)
    decreases vs, 0
  {
    if vs == [] then 0
    else
      var first, rest := OpenDepth(vs[0]), OpenDepthOfAll(vs[1..]);
      if first > rest then first else rest
  }

  function AddItems(log: Log, vs: seq<Value>): Log
    decreases |vs|
  {
    if vs == [] then log else AddItems(AddItem(log, vs[0]), vs[1..])
  }

  lemma {:induction false} AddItemsAppend(log: Log, vs: seq<Value>, v: Value)
    ensures AddItems(log, vs + [v]) == AddItem(AddItems(log, vs), v)
    decreases |vs|
  {
    hide AddItem;
    if vs == [] {
      assert vs + [v] == [v];
      assert AddItems(log, [v]) == AddItems(AddItem(log, v), [v][1..]);
    } else {
      assert (vs + [v])[1..] == vs[1..] + [v];
      AddItemsAppend(AddItem(log, vs[0]), vs[1..], v);
    }
  }

  /** Children that do not complete the innermost container only accumulate in it. */
  lemma {:induction false} FillFrame(done: seq<Value>, outer: seq<Frame>, f: Frame, vs: seq<Value>)
    requires |f.children| + |vs| < f.count
    ensures AddItems(Log(done, outer + [f], []), vs)
         == Log(done, outer + [f.(children := f.children + vs)], [])
    decreases |vs|
  {
    if vs == [] {
      assert f.children + vs == f.children;
    } else {
      var open := outer + [f];
      assert open[..|open| - 1] == outer;
      FillFrame(done, outer, WithChild(f, vs[0]), vs[1..]);
      assert f.children + [vs[0]] + vs[1..] == f.children + vs;
    }
  }

  /** Opening a container and adding all its children is adding the container. */
  lemma ContainerThenChildren(log: Log, isMap: bool, items: seq<Value>)
    ensures var v := if isMap then Map(items) else Array(items);
            AddItems(OpenContainer(log, isMap, |items|), items) == AddItem(log, v)
  {
    if items != [] {
      hide AddItem;
      var front, last := items[..|items| - 1], items[|items| - 1];
      var f := Frame(log.pending, isMap, |items|, []);
      FillFrame(log.done, log.open, f, front);
      AddItemsAppend(OpenContainer(log, isMap, |items|), front, last);
      assert items == front + [last];
      assert [] + front == front;
      LastChild(log, Frame(log.pending, isMap, |items|, front), last);
    }
  }

  lemma LastChild(log: Log, f: Frame, last: Value)
    requires f.tags == log.pending && |f.children| + 1 == f.count
    ensures var items := f.children + [last];
            var v := if f.isMap then Map(items) else Array(items);
            AddItem(Log(log.done, log.open + [f], []), last) == AddItem(log, v)
  {
    var open := log.open + [f];
    assert open[..|open| - 1] == log.open;
  }

  /** While children are being added, exactly one more container is open. */
  lemma PartialDepth(log: Log, isMap: bool, items: seq<Value>, i: nat)
    requires i < |items|
    ensures |AddItems(OpenContainer(log, isMap, |items|), items[..i]).open| == |log.open| + 1
  {
    FillFrame(log.done, log.open, Frame(log.pending, isMap, |items|, []), items[..i]);
  }

  lemma {:induction false} PrefixOfEncoding(vs: seq<Value>, i: nat)
    requires AllEncodable(vs) && i < |vs|
    ensures AllEncodable(vs[..i]) && Encodable(vs[i])
    ensures AllEncodable(vs[..i + 1]) && EncodeAll(vs[..i + 1]) == EncodeAll(vs[..i]) + Encode(vs[i])
    ensures |EncodeAll(vs[..i + 1])| <= |EncodeAll(vs)|
    ensures OpenDepth(vs[i]) <= OpenDepthOfAll(vs)
    ensures OpenDepthOfAll(vs[..i + 1]) <= OpenDepthOfAll(vs[..i]) || OpenDepthOfAll(vs[..i + 1]) <= OpenDepth(vs[i])
    decreases |vs|
  {
    hide Encode, Encodable, OpenDepth;
    if i == 0 {
      assert vs[..1] == [vs[0]] && [vs[0]][1..] == [];
      assert EncodeAll([vs[0]]) == Encode(vs[0]) + EncodeAll([]);
    } else {
      PrefixOfEncoding(vs[1..], i - 1);
      assert vs[1..][i - 1] == vs[i];
      assert vs[..i][1..] == vs[1..][..i - 1];
      assert vs[..i + 1][1..] == vs[1..][..i];
    }
  }

  /** Emits a tree with one encoder call per node. It succeeds exactly when the bytes fit and no more
      than 16 containers are open at once, and then the log has grown by exactly this tree. */
  method WriteTree(e: Encoder, v: Value) returns (ok: bool)
    requires e.Valid() && Encodable(v)
    modifies e, e.buf
    ensures e.Valid()
    ensures ok <==> !old(e.error) && old(e.offset) + |Encode(v)| <= e.buf.Length
                    && |old(e.stack)| + OpenDepth(v) <= MAX_DEPTH
    ensures ok ==> !e.error && e.log == AddItem(old(e.log), v) && e.offset == old(e.offset) + |Encode(v)|
    ensures !ok ==> e.error
    decreases v, 1
  {
    hide AddItem, EncodeHead, LogBytes, LogOk;
    var rc;
    match v {
      case UInt(n) => rc := e.EncodeUInt(n);
      case NegInt(n) => rc := e.EncodeNegInt(n);
      case ByteString(b) => rc := e.EncodeByteString(b);
      case TextString(t) => rc := e.EncodeTextString(t);
      case Simple(s) => rc := e.EncodeSimple(s);
      case Float(info, bits) => rc := e.EncodeFloat(info, bits);
      case Array(items) =>
        ok := WriteContainer(e, false, items);
        return;
      case Map(items) =>
        ok := WriteContainer(e, true, items);
        return;
      case Tag(t, content) =>
        ghost var log := e.log;
        rc := e.EncodeTag(t);
        if rc != Done {
          return false;
        }
        ok := WriteTree(e, content);
        TagThenContent(log, t, content);
        return;
    }
    ok := rc == Done;
  }

  lemma {:induction false} WrapAppend(tags: seq<u64>, t: u64, v: Value)
    ensures Wrap(tags + [t], v) == Wrap(tags, Tag(t, v))
  {
    if tags == [] {
      assert tags + [t] == [t] && [t][1..] == [];
    } else {
      WrapAppend(tags[1..], t, v);
      assert (tags + [t])[1..] == tags[1..] + [t];
    }
  }

  lemma TagThenContent(log: Log, t: u64, content: Value)
    ensures AddItem(AddTag(log, t), content) == AddItem(log, Tag(t, content))
  {
    WrapAppend(log.pending, t, content);
  }

  method WriteContainer(e: Encoder, isMap: bool, items: seq<Value>) returns (ok: bool)
    requires e.Valid() && AllEncodable(items) && |items| <= SIZE_MAX && (isMap ==> |items| % 2 == 0)
    modifies e, e.buf
    ensures e.Valid()
    ensures var v := if isMap then Map(items) else Array(items);
            && (ok <==> !old(e.error) && old(e.offset) + |Encode(v)| <= e.buf.Length
                        && |old(e.stack)| + OpenDepth(v) <= MAX_DEPTH)
            && (ok ==> !e.error && e.log == AddItem(old(e.log), v) && e.offset == old(e.offset) + |Encode(v)|)
    ensures !ok ==> e.error
    decreases items, 0
  {
    hide AddItem, EncodeHead, LogBytes, LogOk, OpenContainer, AddItems, Encode, OpenDepth, StackOf, Bounded;
    ContainerFacts(isMap, items);
    if !e.error { StackLength(e); }
    ghost var log, depth, start := e.log, |e.stack|, e.offset;
    ghost var head := EncodeHead(if isMap then MAP else ARRAY, if isMap then |items| / 2 else |items|);
    var rc := e.EncodeContainer(isMap, if isMap then |items| / 2 else |items|);
    if rc != Done {
      return false;
    }
    ghost var begun := e.log;
    NoneAdded(begun, items);
    for i := 0 to |items|
      invariant e.Valid() && !e.error && AllEncodable(items[..i])
      invariant e.log == AddItems(begun, items[..i])
      invariant e.offset == start + |head| + |EncodeAll(items[..i])|
      invariant depth + 1 + OpenDepthOfAll(items[..i]) <= MAX_DEPTH
    {
      PrefixOfEncoding(items, i);
      PartialDepth(log, isMap, items, i);
      StackLength(e);
      ok := WriteTree(e, items[i]);
      if !ok {
        return;
      }
      AddItemsAppend(begun, items[..i], items[i]);
      assert items[..i] + [items[i]] == items[..i + 1];
    }
    assert items[..|items|] == items;
    ContainerThenChildren(log, isMap, items);
    return true;
  }

  lemma ContainerFacts(isMap: bool, items: seq<Value>)
    requires AllEncodable(items) && |items| <= SIZE_MAX && (isMap ==> |items| % 2 == 0)
    ensures var v := if isMap then Map(items) else Array(items);
            var head := EncodeHead(if isMap then MAP else ARRAY, if isMap then |items| / 2 else |items|);
            && Encodable(v) && OpenDepth(v) == 1 + OpenDepthOfAll(items)
            && |Encode(v)| == |head| + |EncodeAll(items)|
  {
  }

  lemma StackLength(e: Encoder)
    requires e.Valid() && !e.error
    ensures |e.stack| == |e.log.open|
  {
  }

  lemma NoneAdded(log: Log, items: seq<Value>)
    ensures AddItems(log, items[..0]) == log && AllEncodable(items[..0]) && EncodeAll(items[..0]) == []
  {
  }

  // ----- reading back ----------------------------------------------------------------------

  /** What one decoder step says about the parse of the whole item. */
  lemma StepOfParse(d: seq<byte>, off: nat)
    requires off <= |d| <= PTRDIFF_MAX
    ensures NextAt(d, off).Stop? ==> ParseItem(d, off).NoItem?
    ensures NextAt(d, off).Next? ==>
              var Next(item, end) := NextAt(d, off);
              match item
              case DArray(length) =>
                (match ParseItems(d, end, length)
                 case NoItems => ParseItem(d, off).NoItem?
                 case Items(vs, end') => ParseItem(d, off) == Item(Array(vs), end'))
              case DMap(pairs) =>
                (match ParseItems(d, end, 2 * pairs)
                 case NoItems => ParseItem(d, off).NoItem?
                 case Items(vs, end') => ParseItem(d, off) == Item(Map(vs), end'))
              case DTag(t) =>
                (match ParseItems(d, end, 1)
                 case NoItems => ParseItem(d, off).NoItem?
                 case Items(vs, end') => ParseItem(d, off) == Item(Tag(t, vs[0]), end'))
              case _ =>
                && ParseItem(d, off).Item? && ParseItem(d, off).end == end
                && var v := ParseItem(d, off).value;
                   !v.Array? && !v.Map? && !v.Tag? && item == DecodedLeaf(v)
  {
    hide HeadAt;
  }

  /** The value a caller rebuilds from one reported leaf. */
  function LeafValue(item: Decoded): Value
    requires !item.DArray? && !item.DMap? && !item.DTag?
  {
    match item
    case DUInt(n) => UInt(n)
    case DNegInt(arg, _) => NegInt(arg)
    case DBytes(b) => ByteString(b)
    case DText(t) => TextString(t)
    case DSimple(s) => Simple(s)
    case DFloat(info, bits) => Float(info, bits)
  }

  lemma LeafRebuilt(v: Value)
    requires !v.Array? && !v.Map? && !v.Tag?
    ensures LeafValue(DecodedLeaf(v)) == v
  {
  }

  /** Rebuilds a whole tree with one decoder call per node. */
  method ReadTree(dec: Decoder) returns (ok: bool, v: Value)
    requires dec.Valid() && !dec.error
    modifies dec
    ensures dec.Valid()
    ensures ok <==> ParseItem(dec.data, old(dec.offset)).Item?
    ensures ok ==> v == ParseItem(dec.data, old(dec.offset)).value
    ensures ok ==> dec.offset == ParseItem(dec.data, old(dec.offset)).end && !dec.error
    decreases |dec.data| - dec.offset, 0
  {
    hide NextAt, ParseItem, ParseItems, DecodedLeaf, LeafValue;
    v := Simple(0);
    StepOfParse(dec.data, dec.offset);
    ghost var whole := ParseItem(dec.data, dec.offset);
    var rc, item := dec.DecodeNext();
    if rc != Ok {
      return false, v;
    }
    match item {
      case DArray(length) =>
        var items;
        ok, items := ReadItems(dec, length);
        v := Array(items);
      case DMap(pairs) =>
        var items;
        ok, items := ReadItems(dec, 2 * pairs);
        v := Map(items);
      case DTag(t) =>
        var items;
        ok, items := ReadItems(dec, 1);
        if ok {
          v := Tag(t, items[0]);
        }
      case _ =>
        LeafRebuilt(whole.value);
        return true, LeafValue(item);
    }
  }

  method ReadItems(dec: Decoder, count: nat) returns (ok: bool, items: seq<Value>)
    requires dec.Valid() && !dec.error
    modifies dec
    ensures dec.Valid()
    ensures ok <==> ParseItems(dec.data, old(dec.offset), count).Items?
    ensures ok ==> items == ParseItems(dec.data, old(dec.offset), count).values
    ensures ok ==> dec.offset == ParseItems(dec.data, old(dec.offset), count).end && !dec.error
    decreases |dec.data| - dec.offset, 1
  {
    hide ParseItem, ParseItems;
    items := [];
    ghost var start := dec.offset;
    NoItemsYet(dec.data, start);
    for i := 0 to count
      invariant dec.Valid() && !dec.error && dec.offset >= start
      invariant |items| == i && Continues(dec.data, start, count, items, dec.offset, count - i)
    {
      ContinuesStep(dec.data, start, count, items, dec.offset, count - i);
      var v;
      ok, v := ReadTree(dec);
      if !ok {
        return;
      }
      items := items + [v];
    }
    NoItemsYet(dec.data, dec.offset);
    assert items + [] == items;
    return true, items;
  }

  /** Parsing `count` items from `start` is `raw` followed by parsing `left` items from `off`. */
  ghost predicate Continues(d: seq<byte>, start: nat, count: nat, raw: seq<Value>, off: nat, left: nat)
    requires start <= |d| && off <= |d|
  {
    match ParseItems(d, off, left)
    case NoItems => ParseItems(d, start, count).NoItems?
    case Items(vs, end) => ParseItems(d, start, count) == Items(raw + vs, end)
  }

  lemma ContinuesStep(d: seq<byte>, start: nat, count: nat, raw: seq<Value>, off: nat, left: nat)
    requires start <= |d| && off <= |d| && left > 0 && Continues(d, start, count, raw, off, left)
    ensures ParseItem(d, off).NoItem? ==> ParseItems(d, start, count).NoItems?
    ensures ParseItem(d, off).Item? ==>
              Continues(d, start, count, raw + [ParseItem(d, off).value], ParseItem(d, off).end, left - 1)
  {
    hide ParseItem;
    var first := ParseItem(d, off);
    if first.Item? {
      var rest := ParseItems(d, first.end, left - 1);
      if rest.Items? {
        ConcatAssoc(raw, [first.value], rest.values);
      }
    }
  }

  lemma NoItemsYet(d: seq<byte>, off: nat)
    requires off <= |d|
    ensures ParseItems(d, off, 0) == Items([], off)
  {
  }

  /** The whole trip: what is read back is the tree that was written, for every encodable tree. */
  method WriteThenRead(v: Value, buffer: array<byte>) returns (ok: bool, back: Value)
    requires Encodable(v) && buffer.Length <= PTRDIFF_MAX
    modifies buffer
    ensures ok <==> |Encode(v)| <= buffer.Length && OpenDepth(v) <= 16
    ensures ok ==> back == v && buffer[..|Encode(v)|] == Encode(v)
  {
    back := v;
    var e := new Encoder(buffer);
    ok := WriteTree(e, v);
    if !ok {
      return;
    }
    OneItemLog(v);
    var n := e.Length();
    var dec := new Decoder(buffer[..n]);
    AtSlice(dec.data, 0, Encode(v));
    ParseEncoded(dec.data, 0, v);
    ok, back := ReadTree(dec);
  }

  lemma OneItemLog(v: Value)
    requires Encodable(v)
    ensures LogOk(AddItem(EMPTY, v)) && LogBytes(AddItem(EMPTY, v)) == Encode(v)
  {
    AddItemBytes(EMPTY, v);
    assert LogBytes(EMPTY) == [];
  }
}
