/** The second, independent parser: raw heads and the encoded size of an item. A C pointer into
    the input is a pair of the whole input and an offset. */
module CborSize {
  import opened Bytes
  import opened CborHead
  import opened CborValue
  import opened CborDecoder

  const MAX_SIZE_DEPTH := 32

  lemma Word2(d: seq<byte>, off: nat)
    requires off + 2 <= |d|
    ensures Word(d, off, 2) == d[off] as int * 0x100 + d[off + 1]
  {
    assert Word(d, off, 1) == 256 * Word(d, off, 0) + d[off];
  }

  lemma Word4(d: seq<byte>, off: nat)
    requires off + 4 <= |d|
    ensures Word(d, off, 4) ==
            d[off] as int * 0x100_0000 + d[off + 1] as int * 0x1_0000 + d[off + 2] as int * 0x100 + d[off + 3]
  {
    Word2(d, off);
    assert Word(d, off, 3) == 256 * Word(d, off, 2) + d[off + 2];
  }

  lemma Word8(d: seq<byte>, off: nat)
    requires off + 8 <= |d|
    ensures Word(d, off, 8)
         == d[off] as int * 0x100_0000_0000_0000 + d[off + 1] as int * 0x1_0000_0000_0000
          + d[off + 2] as int * 0x100_0000_0000 + d[off + 3] as int * 0x1_0000_0000
          + d[off + 4] as int * 0x100_0000 + d[off + 5] as int * 0x1_0000 + d[off + 6] as int * 0x100 + d[off + 7]
  {
    Word4(d, off);
    assert Word(d, off, 5) == 256 * Word(d, off, 4) + d[off + 4];
    assert Word(d, off, 6) == 256 * Word(d, off, 5) + d[off + 5];
    assert Word(d, off, 7) == 256 * Word(d, off, 6) + d[off + 6];
  }

  /** Reads a head by hand; size 0 means there is none. */
  method DecodeHeadRaw(data: seq<byte>, off: nat) returns (size: nat, major: Major, value: u64)
    requires off <= |data|
    ensures size == 0 <==> HeadAt(data, off).NoHead?
    ensures size != 0 ==>
              HeadAt(data, off) == Head(major, data[off] % 32, value, size)
  {
    size, major, value := 0, 0, 0;
    if off == |data| {
      return;
    }
    var len := |data| - off;
    var info := data[off] % 32;
    major := data[off] / 32;
    if info <= 23 {
      size, value := 1, info;
    } else if info == 24 {
      if len < 2 { return; }
      assert Word(data, off + 1, 1) == 256 * Word(data, off + 1, 0) + data[off + 1];
      size, value := 2, data[off + 1];
    } else if info == 25 {
      if len < 3 { return; }
      Word2(data, off + 1);
      size, value := 3, data[off + 1] as int * 0x100 + data[off + 2];
    } else if info == 26 {
      if len < 5 { return; }
      Word4(data, off + 1);
      ArgInBound(data, off + 1, 4);
      size := 5;
      value := data[off + 1] as int * 0x100_0000 + data[off + 2] as int * 0x1_0000
             + data[off + 3] as int * 0x100 + data[off + 4];
    } else if info == 27 {
      if len < 9 { return; }
      Word8(data, off + 1);
      ArgInBound(data, off + 1, 8);
      size := 9;
      value := data[off + 1] as int * 0x100_0000_0000_0000 + data[off + 2] as int * 0x1_0000_0000_0000
             + data[off + 3] as int * 0x100_0000_0000 + data[off + 4] as int * 0x1_0000_0000
             + data[off + 5] as int * 0x100_0000 + data[off + 6] as int * 0x1_0000
             + data[off + 7] as int * 0x100 + data[off + 8];
    }
  }

  /** The sizes of `count` consecutive items, added to `total`; each child must start inside the buffer. */
  method ItemSizes(data: seq<byte>, start: nat, headSize: nat, count: nat, depth: nat) returns (rc: Status, total: nat)
    requires start + headSize <= |data| <= PTRDIFF_MAX && headSize > 0 && depth <= MAX_SIZE_DEPTH + 1
    ensures rc.Ok? <==> ItemsWithin(data, start + headSize, count, MAX_SIZE_DEPTH - depth) != -1
    ensures rc.Ok? ==> start + total == ItemsWithin(data, start + headSize, count, MAX_SIZE_DEPTH - depth)
    decreases |data| - start, 0
  {
    hide ItemWithin, ItemsWithin, ParseItem, ParseItems;
    ghost var limit := MAX_SIZE_DEPTH - depth;
    total := headSize;
    var i := 0;
    while i < count
      invariant i <= count && headSize <= total <= |data| - start
      invariant ItemsWithin(data, start + headSize, count, limit) == ItemsWithin(data, start + total, count - i, limit)
    {
      ItemsWithinStep(data, start + total, count - i, limit);
      if total >= |data| - start {
        NothingAtEnd(data, limit);
        return Invalid, total;
      }
      var size;
      rc, size := ItemSizeDepth(data, start + total, depth);
      if rc != Ok {
        return;
      }
      total := total + size;
      i := i + 1;
    }
    ItemsWithinNone(data, start + total, limit);
    return Ok, total;
  }

  lemma NothingAtEnd(d: seq<byte>, limit: int)
    ensures ItemWithin(d, |d|, limit) == -1
  {
  }

  /** What a head says about the whole item, for the size parser. */
  lemma SizeOfHead(d: seq<byte>, off: nat, limit: nat)
    requires off <= |d| <= PTRDIFF_MAX
    ensures HeadAt(d, off).NoHead? ==> ItemWithin(d, off, limit) == -1
    ensures HeadAt(d, off).Head? ==>
              var h := HeadAt(d, off);
              ItemWithin(d, off, limit) ==
                if h.major == ARRAY then ItemsWithin(d, off + h.size, h.arg, limit - 1)
                else if h.major == MAP then
                  if h.arg > SIZE_MAX / 2 then -1 else ItemsWithin(d, off + h.size, 2 * h.arg, limit - 1)
                else if h.major == TAG then ItemWithin(d, off + h.size, limit - 1)
                else if h.major == BSTR || h.major == TSTR then
                  if off + h.size + h.arg > |d| then -1 else off + h.size + h.arg
                else off + h.size
  {
    hide HeadAt;
    var h := HeadAt(d, off);
    if h.Head? {
      if IsContainer(h) {
        ContainerWithin(d, off, h, limit);
        if h.major == TAG {
          TagWithin(d, off + h.size, limit - 1);
        }
      } else {
        LeafWithin(d, off, h, limit);
      }
    }
  }

  /** The encoded size of the item at `off`, `depth` containers below the item asked for. */
  method ItemSizeDepth(data: seq<byte>, off: nat, depth: nat) returns (rc: Status, size: nat)
    requires off <= |data| <= PTRDIFF_MAX
    ensures rc.Ok? <==> ItemWithin(data, off, MAX_SIZE_DEPTH - depth) != -1
    ensures rc.Ok? ==> off + size == ItemWithin(data, off, MAX_SIZE_DEPTH - depth)
    decreases |data| - off, 1
  {
    hide ItemsWithin, HeadAt;
    size := 0;
    if depth > MAX_SIZE_DEPTH {
      return Nesting, 0;
    }
    var headSize, major, value := DecodeHeadRaw(data, off);
    SizeOfHead(data, off, MAX_SIZE_DEPTH - depth);
    if headSize == 0 {
      return Invalid, 0;
    }
    if major == UINT || major == NEGINT {
      return Ok, headSize;
    } else if major == BSTR || major == TSTR {
      if value > SIZE_MAX - headSize || headSize + value > |data| - off {
        return Invalid, 0;
      }
      return Ok, headSize + value;
    } else if major == TAG {
      rc, size := ItemSizeDepth(data, off + headSize, depth + 1);
      size := headSize + size;
    } else if major == ARRAY {
      rc, size := ItemSizes(data, off, headSize, value, depth + 1);
    } else if major == MAP {
      if value > SIZE_MAX / 2 {
        return Invalid, 0;
      }
      rc, size := ItemSizes(data, off, headSize, 2 * value, depth + 1);
    } else {
      var info := data[off] % 32;
      size := if info == 25 then 3 else if info == 26 then 5 else if info == 27 then 9 else headSize;
      SimpleSize(data, off);
      return Ok, size;
    }
  }

  lemma SimpleSize(d: seq<byte>, off: nat)
    requires off < |d| && HeadAt(d, off).Head?
    ensures var info := d[off] % 32;
            var size := HeadAt(d, off).size;
            size == if info == 25 then 3 else if info == 26 then 5 else if info == 27 then 9 else size
  {
  }

  method ItemSize(data: seq<byte>, off: nat) returns (rc: Status, size: nat)
    requires off <= |data| <= PTRDIFF_MAX
    ensures rc.Ok? <==> ItemWithin(data, off, MAX_SIZE_DEPTH) != -1
    ensures rc.Ok? ==> off + size == ItemWithin(data, off, MAX_SIZE_DEPTH)
  {
    rc, size := ItemSizeDepth(data, off, 0);
  }

  /** Runs both parsers on the same bytes: skip succeeds exactly when the size parser does and the
      item is nested at most 16 deep, and then both advance by the same number of bytes. */
  method CompareParsers(input: seq<byte>, off: nat) returns (skip: Status, skipped: nat, sized: Status, size: nat)
    requires off <= |input| <= PTRDIFF_MAX
    ensures sized.Ok? <==> ParseItem(input, off).Item? && Height(ParseItem(input, off).value) <= 32
    ensures skip.Ok? <==> sized.Ok? && Height(ParseItem(input, off).value) <= 16
    ensures skip.Ok? ==> skipped == size > 0
  {
    var decoder := new Decoder(input);
    decoder.offset := off;
    skip := decoder.Skip();
    skipped := if skip == Ok then decoder.offset - off else 0;
    sized, size := ItemSize(input, off);
  }
}
