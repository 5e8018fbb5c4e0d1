/** Bytes, machine-word bounds and big-endian words. */
module Bytes {
  type byte = x: int | 0 <= x < 0x100
  type u16 = x: int | 0 <= x < 0x1_0000
  type u32 = x: int | 0 <= x < 0x1_0000_0000
  type u64 = x: int | 0 <= x < 0x1_0000_0000_0000_0000

  /** SIZE_MAX and UINT64_MAX of a 64-bit platform. */
  const SIZE_MAX: int := 0xFFFF_FFFF_FFFF_FFFF
  /** No C object is larger than this, so `offset + n` never wraps for a small `n`. */
  const PTRDIFF_MAX: int := 0x7FFF_FFFF_FFFF_FFFF

  datatype Option<+T> = None | Some(value: T)

  function Pow256(n: nat): (r: nat)
    ensures r >= 1
  {
    if n == 0 then 1 else 256 * Pow256(n - 1)
  }

  lemma Pow256Values()
    ensures Pow256(1) == 0x100
    ensures Pow256(2) == 0x1_0000
    ensures Pow256(4) == 0x1_0000_0000
    ensures Pow256(8) == 0x1_0000_0000_0000_0000
  {
    assert Pow256(2) == 256 * Pow256(1);
    assert Pow256(3) == 256 * Pow256(2);
    assert Pow256(4) == 256 * Pow256(3);
    assert Pow256(5) == 256 * Pow256(4);
    assert Pow256(6) == 256 * Pow256(5);
    assert Pow256(7) == 256 * Pow256(6);
  }

  /** The low `n` bytes of `v`, most significant first. */
  function BigEndian(v: nat, n: nat): (s: seq<byte>)
    ensures |s| == n
  {
    if n == 0 then [] else BigEndian(v / 256, n - 1) + [v % 256]
  }

  /** The big-endian word in the `n` bytes of `d` at `off`. */
  function Word(d: seq<byte>, off: nat, n: nat): nat
    requires off + n <= |d|
  {
    if n == 0 then 0 else 256 * Word(d, off, n - 1) + d[off + n - 1]
  }

  lemma {:induction false} WordBound(d: seq<byte>, off: nat, n: nat)
    requires off + n <= |d|
    ensures Word(d, off, n) < Pow256(n)
  {
    if n > 0 {
      WordBound(d, off, n - 1);
    }
  }

  lemma {:induction false} BigEndianRoundTrip(d: seq<byte>, off: nat, v: nat, n: nat)
    requires v < Pow256(n) && At(d, off, BigEndian(v, n))
    ensures Word(d, off, n) == v
  {
    if n > 0 {
      AtConcat(d, off, BigEndian(v / 256, n - 1), [v % 256]);
      BigEndianRoundTrip(d, off, v / 256, n - 1);
      assert [v % 256][0] == d[off + n - 1 + 0];
    }
  }

  lemma {:induction false} BigEndianInverse(d: seq<byte>, off: nat, n: nat)
    requires off + n <= |d|
    ensures At(d, off, BigEndian(Word(d, off, n), n))
  {
    if n > 0 {
      BigEndianInverse(d, off, n - 1);
      var v := Word(d, off, n);
      assert v / 256 == Word(d, off, n - 1) && v % 256 == d[off + n - 1];
      AtConcat(d, off, BigEndian(v / 256, n - 1), [v % 256]);
    }
  }

  // ----- big-endian words, byte by byte ------------------------------------------------------------

  lemma WordMore(d: seq<byte>, off: nat, n: nat)
    requires off + n < |d|
    ensures var last: int := d[off + n]; Word(d, off, n + 1) == 0x100 * Word(d, off, n) + last
    ensures Word(d, off, 0) == 0
  {
  }

  lemma BigEndian0(v: nat)
    ensures BigEndian(v, 0) == []
  {
  }

  lemma BigEndian1(v: nat)
    ensures BigEndian(v, 1) == [v % 0x100]
  {
  }

  lemma BigEndian2(v: nat)
    ensures BigEndian(v, 2) == [v / 0x100 % 0x100, v % 0x100]
  {
    hide BigEndian;
    BigEndianMore(v, 1);
    BigEndian1(v / 0x100);
  }

  lemma BigEndian4(v: nat)
    ensures BigEndian(v, 4) == [v / 0x100_0000 % 0x100, v / 0x1_0000 % 0x100, v / 0x100 % 0x100, v % 0x100]
  {
    hide BigEndian;
    BigEndianMore(v, 3);
    BigEndianMore(v / 0x100, 2);
    BigEndian2(v / 0x100 / 0x100);
  }

  lemma BigEndian8(v: nat)
    ensures BigEndian(v, 8) ==
            [v / 0x100_0000_0000_0000 % 0x100, v / 0x1_0000_0000_0000 % 0x100, v / 0x100_0000_0000 % 0x100,
             v / 0x1_0000_0000 % 0x100, v / 0x100_0000 % 0x100, v / 0x1_0000 % 0x100, v / 0x100 % 0x100, v % 0x100]
  {
    hide BigEndian;
    var q := v / 0x1_0000_0000;
    DivSteps(v);
    BigEndianLow4(v, v / 0x100, v / 0x1_0000, v / 0x100_0000, q);
    BigEndian4(q);
    DivSteps4(v);
  }

  lemma BigEndianLow4(v: nat, v1: nat, v2: nat, v3: nat, v4: nat)
    requires v1 == v / 0x100 && v2 == v1 / 0x100 && v3 == v2 / 0x100 && v4 == v3 / 0x100
    ensures BigEndian(v, 8) == BigEndian(v4, 4) + [v3 % 0x100, v2 % 0x100, v1 % 0x100, v % 0x100]
  {
    hide BigEndian;
    BigEndianMore(v, 7);
    BigEndianMore(v1, 6);
    BigEndianMore(v2, 5);
    BigEndianMore(v3, 4);
  }

  lemma BigEndianMore(v: nat, n: nat)
    ensures BigEndian(v, n + 1) == BigEndian(v / 0x100, n) + [v % 0x100]
  {
  }

  lemma DivSteps(v: nat)
    ensures v / 0x100 / 0x100 == v / 0x1_0000 && v / 0x1_0000 / 0x100 == v / 0x100_0000
    ensures v / 0x100_0000 / 0x100 == v / 0x1_0000_0000
  {
  }

  lemma DivSteps4(v: nat)
    ensures v / 0x1_0000_0000 / 0x100 == v / 0x100_0000_0000
    ensures v / 0x1_0000_0000 / 0x1_0000 == v / 0x1_0000_0000_0000
    ensures v / 0x1_0000_0000 / 0x100_0000 == v / 0x100_0000_0000_0000
  {
  }

  lemma {:induction false} WordLocal(d: seq<byte>, off: nat, d': seq<byte>, off': nat, n: nat)
    requires SameWindow(d, off, d', off', n)
    ensures Word(d', off', n) == Word(d, off, n)
  {
    if n > 0 {
      WordLocal(d, off, d', off', n - 1);
      assert d[off + n - 1] == d'[off' + n - 1];
    }
  }

  function Zeros(n: nat): (z: seq<byte>)
    ensures |z| == n && forall i | 0 <= i < n :: z[i] == 0
  {
    seq(n, i => 0)
  }

  lemma ConcatAssoc<T>(a: seq<T>, b: seq<T>, c: seq<T>)
    ensures (a + b) + c == a + (b + c)
  {
  }

  /** The `n` bytes of `d` at `off` are the `n` bytes of `d'` at `off'`. */
  ghost predicate SameWindow(d: seq<byte>, off: nat, d': seq<byte>, off': nat, n: nat)
  {
    && off + n <= |d|
    && off' + n <= |d'|
    && forall i | off <= i < off + n :: d[i] == d'[i - off + off']
  }

  lemma SubWindow(d: seq<byte>, off: nat, d': seq<byte>, off': nat, n: nat, lo: nat, m: nat)
    requires SameWindow(d, off, d', off', n) && lo + m <= n
    ensures SameWindow(d, off + lo, d', off' + lo, m)
  {
  }

  lemma SameSlice(d: seq<byte>, off: nat, d': seq<byte>, off': nat, n: nat)
    requires SameWindow(d, off, d', off', n)
    ensures d'[off'..off' + n] == d[off..off + n]
  {
    var s, s' := d[off..off + n], d'[off'..off' + n];
    forall i | 0 <= i < n ensures s'[i] == s[i] {
      assert d[off + i] == d'[off' + i];
    }
  }

  /** `s` stands in `d` at `off`. */
  ghost predicate At(d: seq<byte>, off: nat, s: seq<byte>)
  {
    off + |s| <= |d| && forall i | 0 <= i < |s| :: s[i] == d[off + i]
  }

  lemma AtConcat(d: seq<byte>, off: nat, a: seq<byte>, b: seq<byte>)
    ensures At(d, off, a + b) <==> At(d, off, a) && At(d, off + |a|, b)
  {
    var s := a + b;
    if At(d, off, s) {
      forall i | 0 <= i < |a| ensures a[i] == d[off + i] { assert s[i] == a[i]; }
      forall i | 0 <= i < |b| ensures b[i] == d[off + |a| + i] { assert s[|a| + i] == b[i]; }
    }
  }

  lemma AtSlice(d: seq<byte>, off: nat, s: seq<byte>)
    requires off + |s| <= |d|
    ensures At(d, off, s) <==> d[off..off + |s|] == s
  {
  }
}
