/** The cursor decoder and its depth-bounded recursive skip. */
module CborDecoder {
  import opened Bytes
  import opened CborHead
  import opened CborValue

  const MAX_DEPTH := 16
  const INT64_MAX: int := 0x7FFF_FFFF_FFFF_FFFF
  const INT64_MIN: int := -0x8000_0000_0000_0000

  datatype Status = Ok | Invalid | Nesting | UnexpectedType | Overflow | NotFound

  /** What one call of the decoder reports. Strings are views of the input; containers report
      only their declared length and leave the cursor at their first child. A negative integer
      is reported as its raw argument and as a signed 64-bit value. */
  datatype Decoded =
    | DUInt(n: u64)
    | DNegInt(arg: u64, value: int)
    | DBytes(bytes: seq<byte>)
    | DText(text: seq<byte>)
    | DArray(length: nat)
    | DMap(pairs: nat)
    | DTag(tag: u64)
    | DSimple(simple: byte)
    | DFloat(info: byte, bits: u64)

  datatype Next = Stop | Next(item: Decoded, end: nat)

  /** The signed value reported beside a negative integer's argument: arguments that do not fit a signed
      64-bit integer all report INT64_MIN. */
  function SignedValue(arg: u64): int
  {
    if arg <= INT64_MAX then -1 - arg else INT64_MIN
  }

  function DecodedLeaf(v: Value): Decoded
    requires !v.Array? && !v.Map? && !v.Tag?
  {
    match v
    case UInt(n) => DUInt(n)
    case NegInt(n) => DNegInt(n, SignedValue(n))
    case ByteString(b) => DBytes(b)
    case TextString(t) => DText(t)
    case Simple(s) => DSimple(s)
    case Float(info, bits) => DFloat(info, bits)
  }

  /** One decoder step at `off`. A declared container length is refused when the remaining bytes
      cannot hold that many one-byte items. */
  function NextAt(d: seq<byte>, off: nat): (r: Next)
    requires off <= |d|
    ensures r.Next? ==> off < r.end <= |d|
  {
    var h := HeadAt(d, off);
    if h.NoHead? then Stop
    else
      var body := off + h.size;
      if h.major == ARRAY then (if h.arg > |d| - body then Stop else Next(DArray(h.arg), body))
      else if h.major == MAP then
        (if h.arg > SIZE_MAX / 2 || 2 * h.arg > |d| - body then Stop else Next(DMap(h.arg), body))
      else if h.major == TAG then Next(DTag(h.arg), body)
      else
        match LeafAt(d, h, body)
        case NoItem => Stop
        case Item(v, end) => Next(DecodedLeaf(v), end)
  }

  /** The major type of each kind of item (section 3.1 of RFC 8949). */
  function MajorOf(item: Decoded): nat
  {
    match item
    case DUInt(_) => 0
    case DNegInt(_, _) => 1
    case DBytes(_) => 2
    case DText(_) => 3
    case DArray(_) => 4
    case DMap(_) => 5
    case DTag(_) => 6
    case DSimple(_) => 7
    case DFloat(_, _) => 7
  }

  /** The number reported beside a negative integer's argument. */
  predicate SignedAsReported(item: Decoded)
  {
    item.DNegInt? ==>
      item.value == if item.arg < 0x8000_0000_0000_0000 then -1 - item.arg else -0x8000_0000_0000_0000
  }

  lemma NextMajor(d: seq<byte>, off: nat)
    requires off <= |d| && NextAt(d, off).Next?
    ensures off < |d| && MajorOf(NextAt(d, off).item) == d[off] / 32 && SignedAsReported(NextAt(d, off).item)
  {
    hide Word;
  }

  /** The end of the item at `off` if it is well formed and nested at most `limit` deep, else -1. */
  ghost function ItemWithin(d: seq<byte>, off: nat, limit: int): (end: int)
    requires off <= |d|
    ensures end == -1 || off < end <= |d|
  {
    var r := ParseItem(d, off);
    if r.Item? && Height(r.value) <= limit then r.end else -1
  }

  /** The end of `count` items starting at `off`, each nested at most `limit` deep, else -1. */
  ghost function ItemsWithin(d: seq<byte>, off: nat, count: nat, limit: int): (end: int)
    requires off <= |d|
    ensures end == -1 || off + count <= end <= |d|
  {
    var r := ParseItems(d, off, count);
    if r.Items? && HeightOfAll(r.values) <= limit then r.end else -1
  }

  lemma HeightOfCons(v: Value, vs: seq<Value>, limit: int)
    ensures HeightOfAll([v] + vs) <= limit <==> Height(v) <= limit && HeightOfAll(vs) <= limit
  {
    assert ([v] + vs)[1..] == vs;
  }

  /** Reading a list of items is reading the first and then the rest. */
  lemma ItemsWithinStep(d: seq<byte>, off: nat, count: nat, limit: int)
    requires off <= |d| && count > 0
    ensures ItemsWithin(d, off, count, limit)
         == if ItemWithin(d, off, limit) == -1 then -1
            else ItemsWithin(d, ItemWithin(d, off, limit), count - 1, limit)
  {
    hide Height, HeightOfAll;
    var first := ParseItem(d, off);
    if first.Item? {
      var rest := ParseItems(d, first.end, count - 1);
      if rest.Items? {
        HeightOfCons(first.value, rest.values, limit);
      }
    }
  }

  lemma ItemsWithinNone(d: seq<byte>, off: nat, limit: int)
    requires off <= |d| && limit >= -1
    ensures ItemsWithin(d, off, 0, limit) == off
  {
  }

  /** An array, map or tag fits a nesting limit when its children fit the next smaller one. */
  lemma ContainerWithin(d: seq<byte>, off: nat, h: Head, limit: nat)
    requires off <= |d| && HeadAt(d, off) == h && IsContainer(h)
    ensures ItemWithin(d, off, limit) == ItemsWithin(d, off + h.size, ChildCount(h), limit - 1)
  {
    hide HeadAt;
    var r := ParseItems(d, off + h.size, ChildCount(h));
    if r.Items? && h.major == TAG {
      assert r.values == [r.values[0]] + [];
      HeightOfCons(r.values[0], [], limit - 1);
    }
  }

  lemma LeafWithin(d: seq<byte>, off: nat, h: Head, limit: nat)
    requires off <= |d| && HeadAt(d, off) == h && h.Head? && !IsContainer(h)
    ensures ItemWithin(d, off, limit)
         == if LeafAt(d, h, off + h.size).Item? then LeafAt(d, h, off + h.size).end else -1
  {
    hide HeadAt;
  }

  /** What one decoder step says about the whole item: refusing a step refuses the item, a
      container step leaves the children to be skipped, and any other step consumes the item. */
  lemma StepOfItem(d: seq<byte>, off: nat, limit: nat)
    requires off <= |d| <= PTRDIFF_MAX
    ensures NextAt(d, off).Stop? ==> ItemWithin(d, off, limit) == -1
    ensures NextAt(d, off).Next? ==>
              var Next(item, end) := NextAt(d, off);
              ItemWithin(d, off, limit) ==
                match item
                case DArray(length) => ItemsWithin(d, end, length, limit - 1)
                case DMap(pairs) => ItemsWithin(d, end, 2 * pairs, limit - 1)
                case DTag(_) => ItemWithin(d, end, limit - 1)
                case _ => end
  {
    hide HeadAt;
    var h := HeadAt(d, off);
    if h.Head? {
      if IsContainer(h) {
        ContainerWithin(d, off, h, limit);
        if h.major == TAG {
          TagWithin(d, off + h.size, limit - 1);
        }
      } else {
        LeafWithin(d, off, h, limit);
      }
    }
  }

  lemma TagWithin(d: seq<byte>, off: nat, limit: int)
    requires off <= |d| && limit >= -1
    ensures ItemsWithin(d, off, 1, limit) == ItemWithin(d, off, limit)
  {
    ItemsWithinStep(d, off, 1, limit);
    if ItemWithin(d, off, limit) != -1 {
      ItemsWithinNone(d, ItemWithin(d, off, limit), limit);
    }
  }

  class Decoder {
    const data: seq<byte>
    var offset: nat
    var error: bool
    var errCode: Status

    predicate Valid()
      reads this
    {
      offset <= |data| <= PTRDIFF_MAX
    }

    constructor (input: seq<byte>)
      requires |input| <= PTRDIFF_MAX
      ensures data == input && offset == 0 && !error && Valid()
    {
      data, offset, error, errCode := input, 0, false, Ok;
    }

    method Fail(code: Status)
      requires Valid()
      modifies this`error, this`errCode
      ensures error && errCode == code && Valid()
    {
      error, errCode := true, code;
    }

    /** Takes the next `n` bytes, or sets the sticky error when fewer remain. */
    method Read(n: nat) returns (ok: bool)
      requires Valid() && n <= 8
      modifies this
      ensures Valid()
      ensures ok == (!old(error) && old(offset) + n <= |data|)
      ensures ok ==> offset == old(offset) + n && !error && errCode == old(errCode)
      ensures !ok ==> offset == old(offset) && error
    {
      if error {
        return false;
      }
      if offset + n > |data| {
        Fail(Invalid);
        return false;
      }
      offset := offset + n;
      ok := true;
    }

    method ReadHead() returns (rc: Status, h: Head)
      requires Valid()
      modifies this
      ensures Valid()
      ensures rc == if !old(error) && HeadAt(data, old(offset)).Head? then Ok else Invalid
      ensures rc.Ok? ==> h == HeadAt(data, old(offset)) && offset == old(offset) + h.size && !error
      ensures !rc.Ok? ==> error
    {
      h := NoHead;
      var start := offset;
      var ok := Read(1);
      if !ok {
        return Invalid, NoHead;
      }
      var major, info := data[start] / 32, data[start] % 32;
      if info <= 23 {
        return Ok, Head(major, info, info, 1);
      }
      if info > 27 {
        Fail(Invalid);
        return Invalid, NoHead;
      }
      var n := ArgBytes(info);
      ok := Read(n);
      if !ok {
        return Invalid, NoHead;
      }
      ArgInBound(data, start + 1, n);
      return Ok, Head(major, info, Word(data, start + 1, n), 1 + n);
    }

    /** Decodes one item head and, for a string, its payload. */
    method DecodeNext() returns (rc: Status, item: Decoded)
      requires Valid()
      modifies this
      ensures Valid()
      ensures rc == if !old(error) && NextAt(data, old(offset)).Next? then Ok else Invalid
      ensures rc.Ok? ==> NextAt(data, old(offset)) == Next(item, offset) && !error
      ensures rc.Ok? ==> old(offset) < |data| && MajorOf(item) == data[old(offset)] / 32 && SignedAsReported(item)
      ensures !rc.Ok? ==> error
    {
      if NextAt(data, offset).Next? {
        NextMajor(data, offset);
      }
      var h;
      item := DSimple(0);
      rc, h := ReadHead();
      if rc != Ok {
        return;
      }
      if h.major == UINT {
        item := DUInt(h.arg);
      } else if h.major == NEGINT {
        item := DNegInt(h.arg, if h.arg <= INT64_MAX then -1 - h.arg else INT64_MIN);
      } else if h.major == BSTR || h.major == TSTR {
        if h.arg > |data| - offset {
          Fail(Invalid);
          return Invalid, item;
        }
        var payload := data[offset..offset + h.arg];
        item := if h.major == BSTR then DBytes(payload) else DText(payload);
        offset := offset + h.arg;
      } else if h.major == ARRAY {
        if h.arg > |data| - offset {
          Fail(Invalid);
          return Invalid, item;
        }
        item := DArray(h.arg);
      } else if h.major == MAP {
        if h.arg > SIZE_MAX / 2 || 2 * h.arg > |data| - offset {
          Fail(Invalid);
          return Invalid, item;
        }
        item := DMap(h.arg);
      } else if h.major == TAG {
        item := DTag(h.arg);
      } else {
        item := if h.info <= 24 then DSimple(h.arg % 256) else DFloat(h.info, h.arg);
      }
    }

    /** The children of an array. */
    method SkipItems(length: nat, depth: nat) returns (rc: Status)
      requires Valid() && !error && depth <= MAX_DEPTH + 1
      modifies this
      ensures Valid()
      ensures rc.Ok? <==> ItemsWithin(data, old(offset), length, MAX_DEPTH - depth) != -1
      ensures rc.Ok? ==> offset == ItemsWithin(data, old(offset), length, MAX_DEPTH - depth) && !error
      ensures rc.Ok? || ((rc.Invalid? || rc.Nesting?) && error)
      decreases |data| - offset, 1
    {
      hide ItemWithin, ItemsWithin, ParseItem, ParseItems;
      ghost var start, limit := offset, MAX_DEPTH - depth;
      var i := 0;
      while i < length
        invariant i <= length && Valid() && offset >= start && !error
        invariant ItemsWithin(data, start, length, limit) == ItemsWithin(data, offset, length - i, limit)
      {
        ItemsWithinStep(data, offset, length - i, limit);
        rc := SkipDepth(depth);
        if rc != Ok {
          return;
        }
        i := i + 1;
      }
      ItemsWithinNone(data, offset, limit);
      return Ok;
    }

    /** The keys and values of a map. */
    method SkipPairs(pairs: nat, depth: nat) returns (rc: Status)
      requires Valid() && !error && depth <= MAX_DEPTH + 1
      modifies this
      ensures Valid()
      ensures rc.Ok? <==> ItemsWithin(data, old(offset), 2 * pairs, MAX_DEPTH - depth) != -1
      ensures rc.Ok? ==> offset == ItemsWithin(data, old(offset), 2 * pairs, MAX_DEPTH - depth) && !error
      ensures rc.Ok? || ((rc.Invalid? || rc.Nesting?) && error)
      decreases |data| - offset, 1
    {
      hide ItemWithin, ItemsWithin, ParseItem, ParseItems;
      ghost var start, limit := offset, MAX_DEPTH - depth;
      var i := 0;
      while i < pairs
        invariant i <= pairs && Valid() && offset >= start && !error
        invariant ItemsWithin(data, start, 2 * pairs, limit) == ItemsWithin(data, offset, 2 * (pairs - i), limit)
      {
        ItemsWithinStep(data, offset, 2 * (pairs - i), limit);
        rc := SkipDepth(depth);
        if rc != Ok {
          return;
        }
        ItemsWithinStep(data, offset, 2 * (pairs - i) - 1, limit);
        rc := SkipDepth(depth);
        if rc != Ok {
          return;
        }
        i := i + 1;
      }
      ItemsWithinNone(data, offset, limit);
      return Ok;
    }

    /** Skips one item of any shape, `depth` containers below the item the caller asked for. */
    method SkipDepth(depth: nat) returns (rc: Status)
      requires Valid()
      modifies this
      ensures Valid()
      ensures rc.Ok? <==> !old(error) && ItemWithin(data, old(offset), MAX_DEPTH - depth) != -1
      ensures rc.Ok? ==> offset == ItemWithin(data, old(offset), MAX_DEPTH - depth) && !error
      ensures rc.Ok? || ((rc.Invalid? || rc.Nesting?) && error)
      decreases |data| - offset, 0
    {
      hide ItemsWithin, NextAt;
      if depth > MAX_DEPTH {
        Fail(Nesting);
        return Nesting;
      }
      StepOfItem(data, offset, MAX_DEPTH - depth);
      var item;
      rc, item := DecodeNext();
      if rc != Ok {
        return;
      }
      match item {
        case DArray(length) =>
          rc := SkipItems(length, depth + 1);
        case DMap(pairs) =>
          rc := SkipPairs(pairs, depth + 1);
        case DTag(_) =>
          rc := SkipDepth(depth + 1);
        case _ =>
      }
    }

    /** Skips the next item, including nested content. */
    method Skip() returns (rc: Status)
      requires Valid()
      modifies this
      ensures Valid()
      ensures rc.Ok? <==> !old(error) && ItemWithin(data, old(offset), MAX_DEPTH) != -1
      ensures rc.Ok? ==> offset == ItemWithin(data, old(offset), MAX_DEPTH) && !error
      ensures rc.Ok? || ((rc.Invalid? || rc.Nesting?) && error)
    {
      rc := SkipDepth(0);
    }
  }
}
