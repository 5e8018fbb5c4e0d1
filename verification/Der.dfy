/** The encoder from a raw 64-byte ECDSA signature r || s to DER. */
module Der {
  import opened Bytes

  const HALF := 32
  const MAX_DER := 72

  // ----- reading DER: an ECDSA-Sig-Value (section 2.2.3 of RFC 3279) --------------------------------

  /** Contents octets of a non-negative INTEGER in minimal form (section 8.3.2 of ITU-T X.690). */
  predicate MinimalNonNegative(d: seq<byte>, off: nat, n: nat)
    requires off + n <= |d|
  {
    n > 0 && d[off] < 0x80 && (n > 1 && d[off] == 0 ==> d[off + 1] >= 0x80)
  }

  datatype Integer = BadInteger | Integer(value: nat, end: nat)

  function ParseInteger(d: seq<byte>, off: nat): Integer
    requires off <= |d|
  {
    if off + 2 > |d| || d[off] != 0x02 || d[off + 1] >= 0x80 || off + 2 + d[off + 1] > |d| then BadInteger
    else if !MinimalNonNegative(d, off + 2, d[off + 1]) then BadInteger
    else Integer(Word(d, off + 2, d[off + 1]), off + 2 + d[off + 1])
  }

  /** A SEQUENCE of exactly two INTEGERs, with a short-form length and nothing behind it. */
  function ParseSignature(d: seq<byte>): Option<(nat, nat)>
  {
    if |d| < 2 || d[0] != 0x30 || d[1] >= 0x80 || d[1] != |d| - 2 then None
    else
      match ParseInteger(d, 2)
      case BadInteger => None
      case Integer(r, mid) =>
        if mid > |d| then None
        else
          match ParseInteger(d, mid)
          case BadInteger => None
          case Integer(s, end) => if end == |d| then Some((r, s)) else None
  }

  // ----- writing DER -------------------------------------------------------------------------------

  /** Leading zero bytes to drop from the half that starts at `at`; the last byte always stays. */
  function Leading(raw: seq<byte>, at: nat, k: nat): (n: nat)
    requires at + HALF <= |raw| && k < HALF
    ensures k <= n < HALF
    ensures n == HALF - 1 || raw[at + n] != 0
    decreases HALF - k
  {
    if k < HALF - 1 && raw[at + k] == 0 then Leading(raw, at, k + 1) else k
  }

  function Pad(raw: seq<byte>, at: nat): seq<byte>
    requires at + HALF <= |raw|
  {
    if raw[at + Leading(raw, at, 0)] >= 0x80 then [0] else []
  }

  function Contents(raw: seq<byte>, at: nat): (c: seq<byte>)
    requires at + HALF <= |raw|
    ensures 1 <= |c| <= HALF + 1
  {
    Pad(raw, at) + raw[at + Leading(raw, at, 0)..at + HALF]
  }

  function IntegerBytes(raw: seq<byte>, at: nat): (s: seq<byte>)
    requires at + HALF <= |raw|
    ensures 3 <= |s| <= HALF + 3
  {
    [0x02, |Contents(raw, at)|] + Contents(raw, at)
  }

  function SignatureBytes(raw: seq<byte>): (s: seq<byte>)
    requires |raw| == 2 * HALF
    ensures |s| <= MAX_DER
  {
    var body := IntegerBytes(raw, 0) + IntegerBytes(raw, HALF);
    [0x30, |body|] + body
  }

  method TrimZeros(raw: seq<byte>, at: nat) returns (off: nat)
    requires at + HALF <= |raw|
    ensures off == Leading(raw, at, 0)
  {
    off := 0;
    while off < HALF - 1 && raw[at + off] == 0
      invariant off < HALF && Leading(raw, at, off) == Leading(raw, at, 0)
    {
      off := off + 1;
    }
  }

  /** Writes the signature into `der` and returns its length, or returns 0 when it does not fit. The
      inner length is at most 70, so the long form of the length is never needed. */
  method SignatureToDer(raw: seq<byte>, der: array<byte>) returns (n: nat)
    requires |raw| == 64
    modifies der
    ensures n == if |SignatureBytes(raw)| > der.Length then 0 else |SignatureBytes(raw)|
    ensures n > 0 ==> der[..n] == SignatureBytes(raw) && der[n..] == old(der[n..])
    ensures n == 0 ==> der[..] == old(der[..])
    ensures der.Length >= 72 ==> n > 0
  {
    hide SignatureBytes, IntegerBytes;
    var rOff := TrimZeros(raw, 0);
    var sOff := TrimZeros(raw, HALF);
    var rPad, sPad := raw[rOff] >= 0x80, raw[HALF + sOff] >= 0x80;
    var rTotal := HALF - rOff + if rPad then 1 else 0;
    var sTotal := HALF - sOff + if sPad then 1 else 0;
    var inner := 2 + rTotal + 2 + sTotal;
    SignatureSize(raw, rTotal, sTotal);
    assert inner < 0x80;
    if 2 + inner > der.Length {
      return 0;
    }
    n := WriteSignature(raw, rOff, rPad, sOff, sPad, inner, der);
  }

  method WriteSignature(raw: seq<byte>, rOff: nat, rPad: bool, sOff: nat, sPad: bool, inner: nat, der: array<byte>)
    returns (pos: nat)
    requires |raw| == 2 * HALF && rOff < HALF && sOff < HALF
    requires rOff == Leading(raw, 0, 0) && rPad == (raw[rOff] >= 0x80)
    requires sOff == Leading(raw, HALF, 0) && sPad == (raw[HALF + sOff] >= 0x80)
    requires inner == |IntegerBytes(raw, 0)| + |IntegerBytes(raw, HALF)| < 0x80 && 2 + inner <= der.Length
    modifies der
    ensures pos == |SignatureBytes(raw)| == 2 + inner
    ensures der[..pos] == SignatureBytes(raw) && der[pos..] == old(der[pos..])
  {
    hide SignatureBytes, IntegerBytes, Leading;
    der[0], der[1] := 0x30, inner;
    var mid := WriteInteger(raw, 0, rOff, rPad, der, 2);
    ghost var first := der[..];
    assert first[2..mid] == IntegerBytes(raw, 0) && first[0] == 0x30 && first[1] == inner;
    pos := WriteInteger(raw, HALF, sOff, sPad, der, mid);
    SignatureParts(raw, first, der[..], mid, pos);
  }

  method Copy(src: seq<byte>, der: array<byte>, at: nat)
    requires at + |src| <= der.Length
    modifies der
    ensures der[..at] == old(der[..at]) && der[at..at + |src|] == src && der[at + |src|..] == old(der[at + |src|..])
  {
    forall i | 0 <= i < |src| {
      der[at + i] := src[i];
    }
  }

  method WriteInteger(raw: seq<byte>, at: nat, off: nat, pad: bool, der: array<byte>, start: nat) returns (pos: nat)
    requires at + HALF <= |raw| && off == Leading(raw, at, 0) && pad == (raw[at + off] >= 0x80)
    requires start + |IntegerBytes(raw, at)| <= der.Length
    modifies der
    ensures pos == start + |IntegerBytes(raw, at)|
    ensures der[..start] == old(der[..start]) && der[pos..] == old(der[pos..])
    ensures der[start..pos] == IntegerBytes(raw, at)
  {
    hide Leading;
    var len := HALF - off;
    var total := len + if pad then 1 else 0;
    ghost var before := der[..];
    der[start], der[start + 1] := 0x02, total;
    pos := start + 2;
    if pad {
      der[pos] := 0;
      pos := pos + 1;
    }
    ghost var head := der[..];
    assert head[start..pos] == [0x02, total] + Pad(raw, at);
    Copy(raw[at + off..at + HALF], der, pos);
    IntegerAssembled(raw, at, before, head, der[..], start, pos, pos + len);
    pos := pos + len;
  }

  lemma IntegerAssembled(
    raw: seq<byte>, at: nat, before: seq<byte>, head: seq<byte>, d: seq<byte>, start: nat, mid: nat, pos: nat)
    requires at + HALF <= |raw| && start <= mid <= pos <= |before| == |head| == |d|
    requires before[..start] == head[..start] && before[mid..] == head[mid..]
    requires head[..mid] == d[..mid] && head[pos..] == d[pos..]
    requires head[start..mid] == [0x02, |Contents(raw, at)|] + Pad(raw, at)
    requires d[mid..pos] == raw[at + Leading(raw, at, 0)..at + HALF]
    ensures d[..start] == before[..start] && d[pos..] == before[pos..] && d[start..pos] == IntegerBytes(raw, at)
  {
    hide Leading, Pad;
    assert d[..start] == d[..mid][..start] && head[..start] == head[..mid][..start];
    assert head[pos..] == head[mid..][pos - mid..] && before[pos..] == before[mid..][pos - mid..];
    assert d[start..mid] == d[..mid][start..] && head[start..mid] == head[..mid][start..];
    assert d[start..pos] == d[start..mid] + d[mid..pos];
    ConcatAssoc([0x02, |Contents(raw, at)|], Pad(raw, at), d[mid..pos]);
  }

  lemma SignatureSize(raw: seq<byte>, rTotal: nat, sTotal: nat)
    requires |raw| == 2 * HALF && rTotal == |Contents(raw, 0)| && sTotal == |Contents(raw, HALF)|
    ensures |IntegerBytes(raw, 0)| == 2 + rTotal && |IntegerBytes(raw, HALF)| == 2 + sTotal
    ensures |SignatureBytes(raw)| == 6 + rTotal + sTotal <= MAX_DER
  {
  }

  lemma SignatureParts(raw: seq<byte>, first: seq<byte>, d: seq<byte>, mid: nat, pos: nat)
    requires |raw| == 2 * HALF && |first| == |d| && mid == 2 + |IntegerBytes(raw, 0)| <= pos <= |d|
    requires pos == mid + |IntegerBytes(raw, HALF)| && first[..mid] == d[..mid]
    requires first[0] == 0x30 && first[1] == pos - 2
    requires first[2..mid] == IntegerBytes(raw, 0) && d[mid..pos] == IntegerBytes(raw, HALF)
    ensures d[..pos] == SignatureBytes(raw)
  {
    hide IntegerBytes;
    assert d[2..mid] == d[..mid][2..];
    assert first[2..mid] == first[..mid][2..];
    assert d[0] == d[..mid][0] && d[1] == d[..mid][1];
    assert d[..pos] == [d[0], d[1]] + (d[2..mid] + d[mid..pos]);
  }

  // ----- round trip --------------------------------------------------------------------------------

  lemma {:induction false} LeadingZero(d: seq<byte>, off: nat, n: nat)
    requires n > 0 && off + n <= |d| && d[off] == 0
    ensures Word(d, off, n) == Word(d, off + 1, n - 1)
    decreases n
  {
    if n > 1 {
      LeadingZero(d, off, n - 1);
    }
  }

  /** Dropping the leading zeros of a half keeps the number it stands for. */
  lemma {:induction false} TrimKeepsNumber(raw: seq<byte>, at: nat, k: nat)
    requires at + HALF <= |raw| && k < HALF
    ensures Word(raw, at + k, HALF - k) == Word(raw, at + Leading(raw, at, k), HALF - Leading(raw, at, k))
    decreases HALF - k
  {
    hide Word;
    if k < HALF - 1 && raw[at + k] == 0 {
      LeadingZero(raw, at + k, HALF - k);
      TrimKeepsNumber(raw, at, k + 1);
    }
  }

  lemma IntegerParts(raw: seq<byte>, at: nat, d: seq<byte>, off: nat, c: seq<byte>)
    requires at + HALF <= |raw| && At(d, off, IntegerBytes(raw, at)) && c == Contents(raw, at)
    ensures |IntegerBytes(raw, at)| == 2 + |c| && At(d, off + 2, c)
    ensures d[off] == 0x02 && d[off + 1] == |c|
  {
    hide Contents;
    var head := [0x02, |c|];
    AtConcat(d, off, head, c);
    assert d[off] == head[0] && d[off + 1] == head[1];
  }

  /** The contents octets of a written INTEGER: minimal, non-negative and the number of the half. */
  lemma ContentsAreNumber(raw: seq<byte>, at: nat, d: seq<byte>, off: nat, n: nat)
    requires at + HALF <= |raw| && At(d, off, Contents(raw, at)) && n == |Contents(raw, at)|
    ensures MinimalNonNegative(d, off, n) && Word(d, off, n) == Word(raw, at, HALF)
  {
    hide Word, Leading, At;
    var k, pad := Leading(raw, at, 0), Pad(raw, at);
    var trimmed := raw[at + k..at + HALF];
    var start := off + |pad|;
    AtConcat(d, off, pad, trimmed);
    TrimKeepsNumber(raw, at, 0);
    TrimmedNumber(raw, at + k, d, start, HALF - k);
    if pad != [] {
      First(d, off, pad);
      LeadingZero(d, off, n);
    }
  }

  lemma First(d: seq<byte>, off: nat, s: seq<byte>)
    requires At(d, off, s) && s != []
    ensures off < |d| && d[off] == s[0]
  {
  }

  lemma TrimmedNumber(raw: seq<byte>, at: nat, d: seq<byte>, off: nat, n: nat)
    requires 0 < n && at + n <= |raw| && At(d, off, raw[at..at + n])
    ensures off + n <= |d| && d[off] == raw[at] && Word(d, off, n) == Word(raw, at, n)
  {
    hide Word;
    forall i | at <= i < at + n ensures raw[i] == d[i - at + off] {
      assert raw[at..at + n][i - at] == raw[i];
    }
    WordLocal(raw, at, d, off, n);
  }

  /** An INTEGER written by the encoder is minimal, non-negative and reads back as the same number. */
  lemma IntegerRoundTrip(raw: seq<byte>, at: nat, d: seq<byte>, off: nat)
    requires at + HALF <= |raw| && At(d, off, IntegerBytes(raw, at))
    ensures ParseInteger(d, off) == Integer(Word(raw, at, HALF), off + |IntegerBytes(raw, at)|)
  {
    hide Word, Contents, IntegerBytes, MinimalNonNegative;
    var c := Contents(raw, at);
    IntegerParts(raw, at, d, off, c);
    ContentsAreNumber(raw, at, d, off + 2, |c|);
  }

  /** For every 64-byte r || s the encoding is at most 72 bytes long and parses back to exactly the
      integers r and s. */
  lemma SignatureRoundTrip(raw: seq<byte>)
    requires |raw| == 64
    ensures |SignatureBytes(raw)| <= 72
    ensures ParseSignature(SignatureBytes(raw)) == Some((Word(raw, 0, 32), Word(raw, 32, 32)))
    ensures var d := SignatureBytes(raw);
            && 8 <= |d| <= 72 && d[0] == 0x30 && d[1] == |d| - 2 && d[2] == 0x02
            && 6 + d[3] < |d| && d[4 + d[3]] == 0x02 && d[5 + d[3]] == |d| - 6 - d[3]
  {
    hide Word, IntegerBytes, ParseInteger, At;
    var d := SignatureBytes(raw);
    var r, s := IntegerBytes(raw, 0), IntegerBytes(raw, HALF);
    AtSlice(d, 0, d);
    AtConcat(d, 0, [0x30, |r + s|], r + s);
    AtConcat(d, 2, r, s);
    IntegerRoundTrip(raw, 0, d, 2);
    IntegerRoundTrip(raw, HALF, d, 2 + |r|);
    IntegerParts(raw, 0, d, 2, Contents(raw, 0));
    IntegerParts(raw, HALF, d, 2 + |r|, Contents(raw, HALF));
  }
}
