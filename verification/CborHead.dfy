/** The head of a CBOR data item: major type, additional information and argument
    (section 3 of RFC 8949). */
module CborHead {
  import opened Bytes

  type Major = m: int | 0 <= m < 8

  const UINT: Major := 0
  const NEGINT: Major := 1
  const BSTR: Major := 2
  const TSTR: Major := 3
  const ARRAY: Major := 4
  const MAP: Major := 5
  const TAG: Major := 6
  const SIMPLE: Major := 7

  /** `NoHead` stands for a truncated, reserved or indefinite-length head. */
  datatype Head = NoHead | Head(major: Major, info: byte, arg: u64, size: nat)

  /** How many argument bytes follow an initial byte with this additional information. */
  function ArgBytes(info: nat): nat
    requires info <= 27
  {
    if info <= 23 then 0 else if info == 24 then 1 else if info == 25 then 2 else if info == 26 then 4 else 8
  }

  /** Arguments of `n` bytes are below this bound. */
  function ArgBound(n: nat): int
  {
    if n == 1 then 0x100 else if n == 2 then 0x1_0000 else if n == 4 then 0x1_0000_0000 else 0x1_0000_0000_0000_0000
  }

  lemma ArgInBound(d: seq<byte>, off: nat, n: nat)
    requires (n == 1 || n == 2 || n == 4 || n == 8) && off + n <= |d|
    ensures Word(d, off, n) < ArgBound(n)
  {
    WordBound(d, off, n);
    Pow256Values();
  }

  lemma ArgRoundTrip(d: seq<byte>, off: nat, v: nat, n: nat)
    requires (n == 1 || n == 2 || n == 4 || n == 8) && v < ArgBound(n) && At(d, off, BigEndian(v, n))
    ensures Word(d, off, n) == v
  {
    Pow256Values();
    BigEndianRoundTrip(d, off, v, n);
  }

  /** The head that starts at `off`, if the bytes hold a whole definite-length head there. */
  function HeadAt(d: seq<byte>, off: nat): (h: Head)
    requires off <= |d|
    ensures h.Head? ==> 1 <= h.size <= 9 && off + h.size <= |d|
  {
    if off == |d| || d[off] % 32 > 27 then NoHead
    else
      var info := d[off] % 32;
      var n := ArgBytes(info);
      if off + 1 + n > |d| then NoHead
      else if n == 0 then Head(d[off] / 32, info, info, 1)
      else
        ArgInBound(d, off + 1, n);
        Head(d[off] / 32, info, Word(d, off + 1, n), 1 + n)
  }

  /** Additional information of the preferred serialization of `value`. */
  function ShortestInfo(value: u64): (info: byte)
    ensures info <= 27
  {
    if value <= 23 then value
    else if value <= 0xFF then 24
    else if value <= 0xFFFF then 25
    else if value <= 0xFFFF_FFFF then 26
    else 27
  }

  function EncodeHead(major: Major, value: u64): (s: seq<byte>)
    ensures 1 <= |s| <= 9
  {
    var info := ShortestInfo(value);
    [32 * major + info] + BigEndian(value, ArgBytes(info))
  }

  /** Wherever an encoded head stands, decoding there gives back its major type and argument. */
  lemma HeadRoundTrip(d: seq<byte>, off: nat, major: Major, value: u64)
    requires At(d, off, EncodeHead(major, value))
    ensures HeadAt(d, off) == Head(major, ShortestInfo(value), value, |EncodeHead(major, value)|)
  {
    var h := EncodeHead(major, value);
    var info := ShortestInfo(value);
    var n := ArgBytes(info);
    assert d[off] == h[0] == 32 * major + info;
    assert d[off] / 32 == major && d[off] % 32 == info;
    if n > 0 {
      AtConcat(d, off, [32 * major + info], BigEndian(value, n));
      ArgRoundTrip(d, off + 1, value, n);
    }
  }

  /** A head byte by byte: the major type in the top three bits, then the value itself or the number of bytes
      it takes, then those bytes, the most significant first. */
  lemma EncodeHeadLiteral(major: Major, value: u64)
    ensures var b := 32 * major;
            EncodeHead(major, value) ==
              if value < 24 then [b + value]
              else if value < 0x100 then [b + 24, value]
              else if value < 0x1_0000 then [b + 25, value / 0x100, value % 0x100]
              else if value < 0x1_0000_0000 then
                [b + 26, value / 0x100_0000, value / 0x1_0000 % 0x100, value / 0x100 % 0x100, value % 0x100]
              else
                [b + 27, value / 0x100_0000_0000_0000, value / 0x1_0000_0000_0000 % 0x100,
                 value / 0x100_0000_0000 % 0x100, value / 0x1_0000_0000 % 0x100, value / 0x100_0000 % 0x100,
                 value / 0x1_0000 % 0x100, value / 0x100 % 0x100, value % 0x100]
  {
    hide BigEndian;
    if value < 24 {
      BigEndian0(value);
    } else if value < 0x100 {
      BigEndian1(value);
    } else if value < 0x1_0000 {
      BigEndian2(value);
    } else if value < 0x1_0000_0000 {
      BigEndian4(value);
    } else {
      BigEndian8(value);
    }
  }

  /** A head is read wherever its bytes are all there, in the shortest form or not, and only the additional
      information 28 to 31 is refused. */
  lemma HeadIsRead(d: seq<byte>, off: nat)
    requires off < |d|
    ensures var h, info := HeadAt(d, off), d[off] % 32;
            var n := if info < 24 then 0 else if info == 24 then 1 else if info == 25 then 2
                     else if info == 26 then 4 else 8;
            && (h.Head? <==> info < 28 && off + 1 + n <= |d|)
            && (h.Head? ==> h.major == d[off] / 32 && h.info == info && h.size == 1 + n)
            && (h.Head? ==> h.arg == if n == 0 then info else Word(d, off + 1, n))
            && (h.Head? && n == 1 ==> h.arg == d[off + 1])
  {
    hide Word;
    if off + 1 < |d| {
      WordMore(d, off + 1, 0);
    }
  }

  /** Preferred serialization: no head with the same argument is shorter. */
  lemma HeadIsShortest(d: seq<byte>, off: nat)
    requires off <= |d| && HeadAt(d, off).Head?
    ensures |EncodeHead(HeadAt(d, off).major, HeadAt(d, off).arg)| <= HeadAt(d, off).size
  {
    var n := ArgBytes(d[off] % 32);
    if n > 0 {
      ArgInBound(d, off + 1, n);
    }
  }

  /** A head depends only on its own bytes. */
  lemma HeadLocal(d: seq<byte>, off: nat, d': seq<byte>, off': nat)
    requires off <= |d| && HeadAt(d, off).Head?
    requires SameWindow(d, off, d', off', HeadAt(d, off).size)
    ensures HeadAt(d', off') == HeadAt(d, off)
  {
    var size := HeadAt(d, off).size;
    assert d'[off'] == d[off];
    WordLocal(d, off + 1, d', off' + 1, size - 1);
  }
}
