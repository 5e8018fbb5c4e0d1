/** The in-place canonical sort of an encoded map, and what it does to map lookups. */
module CborMapSort {
  import opened Bytes
  import opened CborHead
  import opened CborValue
  import opened CborDecoder
  import opened CborSize

  const MAX_PAIRS := 256

  /** One entry of an encoded map: the encoded key and the encoded value. */
  datatype Pair = Pair(key: seq<byte>, value: seq<byte>)

  datatype PairList = NoPairs | PairList(pairs: seq<Pair>, end: nat)

  // ----- the key order: shorter encodings first, then bytewise (section 4.2.3 of RFC 8949) ------

  /** memcmp on two strings of the same length. */
  function MemCompare(a: seq<byte>, b: seq<byte>): int
    requires |a| == |b|
  {
    if a == [] then 0 else if a[0] != b[0] then a[0] - b[0] else MemCompare(a[1..], b[1..])
  }

  function KeyCompare(a: Pair, b: Pair): int
  {
    if |a.key| < |b.key| then -1
    else if |a.key| > |b.key| then 1
    else MemCompare(a.key, b.key)
  }

  predicate InOrder(a: Pair, b: Pair) { KeyCompare(a, b) <= 0 }

  predicate Sorted(ps: seq<Pair>)
  {
    forall i, j | 0 <= i < j < |ps| :: InOrder(ps[i], ps[j])
  }

  lemma {:induction false} MemCompareLaws(a: seq<byte>, b: seq<byte>, c: seq<byte>)
    requires |a| == |b| == |c|
    ensures MemCompare(a, b) == -MemCompare(b, a)
    ensures MemCompare(a, b) == 0 <==> a == b
    ensures MemCompare(a, b) <= 0 && MemCompare(b, c) <= 0 ==> MemCompare(a, c) <= 0
  {
    if a != [] {
      MemCompareLaws(a[1..], b[1..], c[1..]);
      assert a == [a[0]] + a[1..] && b == [b[0]] + b[1..];
    }
  }

  /** The comparison is a total preorder on entries that identifies exactly equal keys. */
  lemma KeyOrderLaws(a: Pair, b: Pair, c: Pair)
    ensures InOrder(a, b) || InOrder(b, a)
    ensures InOrder(a, b) && InOrder(b, a) <==> a.key == b.key
    ensures InOrder(a, b) && InOrder(b, c) ==> InOrder(a, c)
  {
    if |a.key| == |b.key| {
      MemCompareLaws(a.key, b.key, b.key);
      if |b.key| == |c.key| {
        MemCompareLaws(a.key, b.key, c.key);
      }
    }
  }

  /** Of two strings of one length, `a` has the smaller byte where they first differ, at `d`. */
  predicate SmallerAt(a: seq<byte>, b: seq<byte>, d: nat)
  {
    d < |a| == |b| && a[d] < b[d] && forall k | 0 <= k < d :: a[k] == b[k]
  }

  /** Shorter keys first; keys of one length by the first byte in which they differ. */
  ghost predicate ShorterThenBytewise(ps: seq<Pair>)
  {
    forall i, j | 0 <= i < j < |ps| ::
      || |ps[i].key| < |ps[j].key|
      || (exists d: nat :: SmallerAt(ps[i].key, ps[j].key, d))
      || ps[i].key == ps[j].key
  }

  lemma {:induction false} MemCompareBytes(a: seq<byte>, b: seq<byte>)
    requires |a| == |b|
    ensures MemCompare(a, b) < 0 <==> exists d: nat :: SmallerAt(a, b, d)
  {
    if a == [] {
    } else if a[0] != b[0] {
      if a[0] < b[0] {
        assert SmallerAt(a, b, 0);
      }
      assert forall d: nat | SmallerAt(a, b, d) :: d == 0;
    } else {
      MemCompareBytes(a[1..], b[1..]);
      if d: nat :| SmallerAt(a[1..], b[1..], d) {
        assert SmallerAt(a, b, d + 1);
      }
      if d: nat :| SmallerAt(a, b, d) {
        assert d > 0 && SmallerAt(a[1..], b[1..], d - 1);
      }
    }
  }

  /** What the comparison function's order is, in terms of lengths and bytes alone. */
  lemma SortedIsShorterThenBytewise(ps: seq<Pair>)
    ensures Sorted(ps) <==> ShorterThenBytewise(ps)
  {
    hide SmallerAt, MemCompare;
    forall i, j | 0 <= i < j < |ps|
      ensures InOrder(ps[i], ps[j]) <==>
              || |ps[i].key| < |ps[j].key|
              || (exists d: nat :: SmallerAt(ps[i].key, ps[j].key, d))
              || ps[i].key == ps[j].key {
      OrderOfTwo(ps[i], ps[j]);
    }
  }

  lemma OrderOfTwo(a: Pair, b: Pair)
    ensures InOrder(a, b) <==>
            |a.key| < |b.key| || (exists d: nat :: SmallerAt(a.key, b.key, d)) || a.key == b.key
  {
    hide MemCompare;
    if |a.key| == |b.key| {
      MemCompareBytes(a.key, b.key);
      MemCompareLaws(a.key, b.key, b.key);
    }
  }

  /** Two ordered arrangements of the same entries list the same entries in the same order, provided
      entries with equal keys are equal. */
  lemma {:induction false} SortedUnique(ps: seq<Pair>, qs: seq<Pair>)
    requires Sorted(ps) && Sorted(qs) && multiset(ps) == multiset(qs)
    requires forall p, q | p in ps && q in ps :: p.key == q.key ==> p == q
    ensures ps == qs
    decreases |ps|
  {
    hide InOrder;
    SameLength(ps, qs);
    if ps != [] {
      var p, q := ps[0], qs[0];
      FirstIsLeast(ps, qs, q);
      FirstIsLeast(qs, ps, p);
      KeyOrderLaws(p, q, q);
      Tails(ps, qs);
      TailSorted(ps);
      TailSorted(qs);
      SortedUnique(ps[1..], qs[1..]);
    }
  }

  lemma FirstIsLeast(ps: seq<Pair>, qs: seq<Pair>, q: Pair)
    requires Sorted(ps) && ps != [] && multiset(ps) == multiset(qs) && q in qs
    ensures InOrder(ps[0], q) && q in ps
  {
    hide InOrder;
    assert q in multiset(ps);
    var i :| 0 <= i < |ps| && ps[i] == q;
    KeyOrderLaws(q, q, q);
  }

  lemma Tails(ps: seq<Pair>, qs: seq<Pair>)
    requires |ps| == |qs| > 0 && ps[0] == qs[0] && multiset(ps) == multiset(qs)
    ensures multiset(ps[1..]) == multiset(qs[1..])
    ensures ps == [ps[0]] + ps[1..] && qs == [ps[0]] + qs[1..]
  {
    assert ps == [ps[0]] + ps[1..] && qs == [ps[0]] + qs[1..];
    assert multiset(ps[1..]) == multiset(ps) - multiset{ps[0]};
    assert multiset(qs[1..]) == multiset(qs) - multiset{ps[0]};
  }

  lemma TailSorted(ps: seq<Pair>)
    requires ps != [] && Sorted(ps)
    ensures Sorted(ps[1..])
  {
    hide InOrder;
  }

  /** That proviso is needed: exchanging two different entries with equal keys gives another ordered
      arrangement of the same entries, so a sorting routine may return either. */
  lemma EqualKeysAreAmbiguous(ps: seq<Pair>, i: nat, j: nat)
    requires Sorted(ps) && i < j < |ps| && ps[i].key == ps[j].key && ps[i] != ps[j]
    ensures var qs := ps[i := ps[j]][j := ps[i]];
            Sorted(qs) && multiset(qs) == multiset(ps) && qs != ps
  {
    var qs := ps[i := ps[j]][j := ps[i]];
    assert forall k | 0 <= k < |ps| :: qs[k].key == ps[k].key;
    forall a, b | 0 <= a < b < |qs| ensures InOrder(qs[a], qs[b]) {
      assert InOrder(ps[a], ps[b]);
      assert KeyCompare(qs[a], qs[b]) == KeyCompare(ps[a], ps[b]);
    }
    assert qs[i] != ps[i];
  }

  lemma SameLength(ps: seq<Pair>, qs: seq<Pair>)
    requires multiset(ps) == multiset(qs)
    ensures |ps| == |qs|
  {
    assert |multiset(ps)| == |ps| && |multiset(qs)| == |qs|;
  }

  /** The library sort, known only by its contract: some ordered permutation. */
  method QSort(ps: seq<Pair>) returns (r: seq<Pair>)
    ensures Sorted(r) && multiset(r) == multiset(ps)
  {
    r := [];
    for i := 0 to |ps|
      invariant Sorted(r) && multiset(r) == multiset(ps[..i])
    {
      assert ps[..i + 1] == ps[..i] + [ps[i]];
      r := Insert(r, ps[i]);
    }
    assert ps[..|ps|] == ps;
  }

  method Insert(ps: seq<Pair>, p: Pair) returns (r: seq<Pair>)
    requires Sorted(ps)
    ensures Sorted(r) && multiset(r) == multiset(ps) + multiset{p}
  {
    hide InOrder, KeyCompare;
    var k := |ps|;
    while k > 0 && KeyCompare(ps[k - 1], p) > 0
      invariant 0 <= k <= |ps|
      invariant forall j | k <= j < |ps| :: InOrder(p, ps[j])
    {
      OutOfOrder(ps[k - 1], p);
      k := k - 1;
    }
    r := ps[..k] + [p] + ps[k..];
    if k > 0 {
      OutOfOrder(ps[k - 1], p);
    }
    BelowInsertion(ps, k, p);
    InsertedSorted(ps, k, p);
    assert ps == ps[..k] + ps[k..];
  }

  lemma OutOfOrder(a: Pair, b: Pair)
    ensures KeyCompare(a, b) > 0 ==> InOrder(b, a)
    ensures KeyCompare(a, b) <= 0 ==> InOrder(a, b)
  {
    KeyOrderLaws(a, b, b);
  }

  lemma BelowInsertion(ps: seq<Pair>, k: nat, p: Pair)
    requires Sorted(ps) && k <= |ps| && (k > 0 ==> InOrder(ps[k - 1], p))
    ensures forall i | 0 <= i < k :: InOrder(ps[i], p)
  {
    hide InOrder;
    forall i | 0 <= i < k ensures InOrder(ps[i], p) {
      if i < k - 1 {
        KeyOrderLaws(ps[i], ps[k - 1], p);
      }
    }
  }

  lemma InsertedSorted(ps: seq<Pair>, k: nat, p: Pair)
    requires Sorted(ps) && k <= |ps|
    requires forall i | 0 <= i < k :: InOrder(ps[i], p)
    requires forall j | k <= j < |ps| :: InOrder(p, ps[j])
    ensures Sorted(ps[..k] + [p] + ps[k..])
  {
    hide InOrder;
    var r := ps[..k] + [p] + ps[k..];
    assert forall i | 0 <= i < |r| :: r[i] == if i < k then ps[i] else if i == k then p else ps[i - 1];
  }

  // ----- the entries of an encoded map -----------------------------------------------------

  /** `n` key/value items starting at `off`, as the size parser delimits them. */
  ghost function PairsAt(d: seq<byte>, off: nat, n: nat): (r: PairList)
    requires off <= |d|
    ensures r.PairList? ==> off <= r.end <= |d| && |r.pairs| == n
    decreases n
  {
    if n == 0 then PairList([], off)
    else
      var mid := ItemWithin(d, off, MAX_SIZE_DEPTH);
      if mid == -1 then NoPairs
      else
        var next := ItemWithin(d, mid, MAX_SIZE_DEPTH);
        if next == -1 then NoPairs
        else
          match PairsAt(d, next, n - 1)
          case NoPairs => NoPairs
          case PairList(rest, end) => PairList([Pair(d[off..mid], d[mid..next])] + rest, end)
  }

  function Flatten(ps: seq<Pair>): seq<byte>
  {
    if ps == [] then [] else ps[0].key + ps[0].value + Flatten(ps[1..])
  }

  lemma {:induction false} FlattenAppend(ps: seq<Pair>, p: Pair)
    ensures Flatten(ps + [p]) == Flatten(ps) + (p.key + p.value)
  {
    if ps == [] {
      assert ps + [p] == [p] && [p][1..] == [];
      assert Flatten([p]) == p.key + p.value + Flatten([]);
    } else {
      FlattenAppend(ps[1..], p);
      assert (ps + [p])[1..] == ps[1..] + [p];
      ConcatAssoc(ps[0].key + ps[0].value, Flatten(ps[1..]), p.key + p.value);
    }
  }

  /** The byte string is exactly one item, nested at most `limit` deep. */
  ghost predicate IsItem(s: seq<byte>, limit: int)
  {
    ItemWithin(s, 0, limit) == |s|
  }

  /** Items can be moved: an item cut out of a buffer is an item anywhere else. */
  lemma CutItem(d: seq<byte>, off: nat, limit: int)
    requires off <= |d| && ItemWithin(d, off, limit) != -1
    ensures IsItem(d[off..ItemWithin(d, off, limit)], limit)
  {
    hide ParseItem, Height;
    var Item(v, end) := ParseItem(d, off);
    var s := d[off..end];
    assert SameWindow(d, off, s, 0, end - off);
    ParseItemLocal(d, off, v, end, s, 0);
  }

  lemma PasteItem(s: seq<byte>, limit: int, d: seq<byte>, off: nat)
    requires IsItem(s, limit) && At(d, off, s)
    ensures ItemWithin(d, off, limit) == off + |s|
  {
    hide ParseItem, Height;
    var Item(v, end) := ParseItem(s, 0);
    assert SameWindow(s, 0, d, off, |s|);
    ParseItemLocal(s, 0, v, end, d, off);
  }

  ghost predicate IsPair(p: Pair)
  {
    IsItem(p.key, MAX_SIZE_DEPTH) && IsItem(p.value, MAX_SIZE_DEPTH)
  }

  ghost predicate AllPairs(ps: seq<Pair>)
  {
    forall p | p in ps :: IsPair(p)
  }

  lemma {:induction false} PairsAreBytes(d: seq<byte>, off: nat, n: nat)
    requires off <= |d| && PairsAt(d, off, n).PairList?
    ensures At(d, off, Flatten(PairsAt(d, off, n).pairs))
    ensures PairsAt(d, off, n).end == off + |Flatten(PairsAt(d, off, n).pairs)|
    ensures AllPairs(PairsAt(d, off, n).pairs)
    decreases n
  {
    hide ItemWithin, At, IsItem;
    if n == 0 {
      AtSlice(d, off, []);
    } else {
      var mid := ItemWithin(d, off, MAX_SIZE_DEPTH);
      var next := ItemWithin(d, mid, MAX_SIZE_DEPTH);
      CutItem(d, off, MAX_SIZE_DEPTH);
      CutItem(d, mid, MAX_SIZE_DEPTH);
      var p, rest := Pair(d[off..mid], d[mid..next]), PairsAt(d, next, n - 1).pairs;
      PairsAreBytes(d, next, n - 1);
      AtSlice(d, off, p.key);
      AtSlice(d, mid, p.value);
      AtConcat(d, off, p.key, p.value);
      AtConcat(d, off, p.key + p.value, Flatten(rest));
      assert ([p] + rest)[1..] == rest;
    }
  }

  /** Conversely, entries laid out one after the other are found again as the same entries. */
  lemma {:induction false} PairsFromBytes(d: seq<byte>, off: nat, ps: seq<Pair>)
    requires AllPairs(ps) && At(d, off, Flatten(ps))
    ensures PairsAt(d, off, |ps|) == PairList(ps, off + |Flatten(ps)|)
    decreases |ps|
  {
    hide ItemWithin, At, IsItem;
    if ps != [] {
      var p, rest := ps[0], ps[1..];
      assert IsPair(p);
      AtConcat(d, off, p.key + p.value, Flatten(rest));
      AtConcat(d, off, p.key, p.value);
      PasteItem(p.key, MAX_SIZE_DEPTH, d, off);
      PasteItem(p.value, MAX_SIZE_DEPTH, d, off + |p.key|);
      AtSlice(d, off, p.key);
      AtSlice(d, off + |p.key|, p.value);
      PairsFromBytes(d, off + |p.key| + |p.value|, rest);
      assert ps == [p] + rest;
    }
  }

  // ----- the sort ---------------------------------------------------------------------------

  /** The buffer after a sort: head and trailing bytes kept, the entries rearranged. */
  ghost predicate Rearranged(d: seq<byte>, d': seq<byte>, ps: seq<Pair>, qs: seq<Pair>, head: nat)
  {
    && multiset(ps) == multiset(qs)
    && head + |Flatten(ps)| <= |d|
    && d' == d[..head] + Flatten(qs) + d[head + |Flatten(ps)|..]
  }

  /** Whether the sort accepts the buffer: a map head, at most 256 entries, all well formed. */
  ghost predicate Sortable(d: seq<byte>)
  {
    var h := HeadAt(d, 0);
    h.Head? && h.major == MAP && h.arg <= MAX_PAIRS && PairsAt(d, h.size, h.arg).PairList?
  }

  ghost function Entries(d: seq<byte>): seq<Pair>
    requires Sortable(d)
  {
    PairsAt(d, HeadAt(d, 0).size, HeadAt(d, 0).arg).pairs
  }

  method ReadPairs(d: seq<byte>, off: nat, n: nat) returns (rc: Status, pairs: seq<Pair>, pos: nat)
    requires off <= |d| <= PTRDIFF_MAX
    ensures rc.Ok? <==> PairsAt(d, off, n).PairList?
    ensures rc.Ok? ==> PairsAt(d, off, n) == PairList(pairs, pos)
  {
    hide ItemWithin;
    pairs, pos := [], off;
    for i := 0 to n
      invariant pos <= |d|
      invariant Resumes(d, off, n, pairs, pos, n - i)
    {
      var keySize, valueSize;
      var keyAt := pos;
      rc, keySize := ItemSize(d, pos);
      if rc != Ok {
        return;
      }
      pos := pos + keySize;
      var valueAt := pos;
      rc, valueSize := ItemSize(d, pos);
      if rc != Ok {
        return;
      }
      pos := pos + valueSize;
      ghost var before := pairs;
      pairs := pairs + [Pair(d[keyAt..valueAt], d[valueAt..pos])];
      ResumesStep(d, off, n, before, keyAt, n - i);
    }
    assert pairs + [] == pairs;
    return Ok, pairs, pos;
  }

  /** Reading `n` entries from `start` is `pairs` followed by reading `left` entries from `off`. */
  ghost predicate Resumes(d: seq<byte>, start: nat, n: nat, pairs: seq<Pair>, off: nat, left: nat)
    requires start <= |d| && off <= |d|
  {
    match PairsAt(d, off, left)
    case NoPairs => PairsAt(d, start, n).NoPairs?
    case PairList(rest, end) => PairsAt(d, start, n) == PairList(pairs + rest, end)
  }

  lemma ResumesStep(d: seq<byte>, start: nat, n: nat, pairs: seq<Pair>, off: nat, left: nat)
    requires start <= |d| && off <= |d| && left > 0 && Resumes(d, start, n, pairs, off, left)
    requires ItemWithin(d, off, MAX_SIZE_DEPTH) != -1
    requires ItemWithin(d, ItemWithin(d, off, MAX_SIZE_DEPTH), MAX_SIZE_DEPTH) != -1
    ensures var mid := ItemWithin(d, off, MAX_SIZE_DEPTH);
            var next := ItemWithin(d, mid, MAX_SIZE_DEPTH);
            Resumes(d, start, n, pairs + [Pair(d[off..mid], d[mid..next])], next, left - 1)
  {
    hide ItemWithin;
    var mid := ItemWithin(d, off, MAX_SIZE_DEPTH);
    var next := ItemWithin(d, mid, MAX_SIZE_DEPTH);
    var rest := PairsAt(d, next, left - 1);
    if rest.PairList? {
      ConcatAssoc(pairs, [Pair(d[off..mid], d[mid..next])], rest.pairs);
    }
  }

  method Rebuild(pairs: seq<Pair>) returns (body: seq<byte>)
    ensures body == Flatten(pairs)
  {
    body := [];
    for i := 0 to |pairs|
      invariant body == Flatten(pairs[..i])
    {
      FlattenAppend(pairs[..i], pairs[i]);
      assert pairs[..i] + [pairs[i]] == pairs[..i + 1];
      body := body + pairs[i].key;
      body := body + pairs[i].value;
    }
    assert pairs[..|pairs|] == pairs;
  }

  lemma {:induction false} FlattenLength(ps: seq<Pair>, qs: seq<Pair>)
    requires multiset(ps) == multiset(qs)
    ensures |Flatten(ps)| == |Flatten(qs)|
    decreases |ps|
  {
    hide Flatten;
    SameLength(ps, qs);
    if ps != [] {
      var p := ps[0];
      assert p in multiset(qs);
      var i :| 0 <= i < |qs| && qs[i] == p;
      WithoutFirst(ps);
      WithoutEntry(qs, i);
      FlattenLength(ps[1..], qs[..i] + qs[i + 1..]);
    }
  }

  lemma WithoutFirst(ps: seq<Pair>)
    requires ps != []
    ensures |Flatten(ps)| == |Flatten(ps[1..])| + |ps[0].key| + |ps[0].value|
    ensures multiset(ps[1..]) == multiset(ps) - multiset{ps[0]}
  {
    assert ps == [ps[0]] + ps[1..];
  }

  lemma WithoutEntry(ps: seq<Pair>, i: nat)
    requires i < |ps|
    ensures |Flatten(ps)| == |Flatten(ps[..i] + ps[i + 1..])| + |ps[i].key| + |ps[i].value|
    ensures multiset(ps[..i] + ps[i + 1..]) == multiset(ps) - multiset{ps[i]}
  {
    var before, p, after := ps[..i], ps[i], ps[i + 1..];
    assert ps == before + ([p] + after);
    FlattenSplit(before, [p] + after);
    FlattenSplit(before, after);
    assert ([p] + after)[1..] == after;
  }

  lemma {:induction false} FlattenSplit(ps: seq<Pair>, qs: seq<Pair>)
    ensures Flatten(ps + qs) == Flatten(ps) + Flatten(qs)
  {
    if ps == [] {
      assert ps + qs == qs;
    } else {
      FlattenSplit(ps[1..], qs);
      assert (ps + qs)[1..] == ps[1..] + qs;
      ConcatAssoc(ps[0].key + ps[0].value, Flatten(ps[1..]), Flatten(qs));
    }
  }

  /** Sorts the entries of the map at the start of the buffer into canonical key order. */
  method SortMap(buf: array<byte>) returns (rc: Status, ghost sorted: seq<Pair>)
    requires buf.Length <= PTRDIFF_MAX
    modifies buf
    ensures rc.Ok? <==> buf.Length > 0 && Sortable(old(buf[..]))
    ensures var d, h := old(buf[..]), HeadAt(old(buf[..]), 0);
            rc.Ok? <==> h.Head? && h.major == 5 && h.arg <= 256 && PairsAt(d, h.size, h.arg).PairList?
    ensures !rc.Ok? ==> buf[..] == old(buf[..])
    ensures rc.Ok? ==>
              && buf.Length > 0 && old(buf[0]) / 32 == 5 && |sorted| <= 256
              && multiset(sorted) == multiset(Entries(old(buf[..])))
              && Sorted(sorted) && ShorterThenBytewise(sorted)
              && Rearranged(old(buf[..]), buf[..], Entries(old(buf[..])), sorted, HeadAt(old(buf[..]), 0).size)
  {
    hide HeadAt, PairsAt, Flatten, Sorted, ShorterThenBytewise;
    sorted := [];
    SortedIsShorterThenBytewise([]);
    ghost var d := buf[..];
    if Sortable(d) {
      SortableShape(d);
    }
    if buf.Length == 0 {
      return Invalid, [];
    }
    var headSize, major, count := DecodeHeadRaw(buf[..], 0);
    if headSize == 0 || major != MAP {
      return Invalid, [];
    }
    if count == 0 {
      NoEntries(d, headSize);
      return Ok, [];
    }
    if count > MAX_PAIRS {
      return Invalid, [];
    }
    var pairs, pos;
    rc, pairs, pos := ReadPairs(buf[..], headSize, count);
    if rc != Ok {
      return;
    }
    PairsAreBytes(d, headSize, count);
    var result := QSort(pairs);
    FlattenLength(pairs, result);
    var body := Rebuild(result);
    forall i | 0 <= i < |body| {
      buf[headSize + i] := body[i];
    }
    assert buf[..] == d[..headSize] + body + d[headSize + |body|..];
    sorted := result;
    SameLength(sorted, pairs);
    SortedIsShorterThenBytewise(result);
  }

  lemma SortableShape(d: seq<byte>)
    requires Sortable(d)
    ensures |d| > 0 && d[0] / 32 == 5 && |Entries(d)| == HeadAt(d, 0).arg <= 256
  {
    hide PairsAt;
  }

  lemma NoEntries(d: seq<byte>, head: nat)
    requires head <= |d|
    ensures PairsAt(d, head, 0) == PairList([], head) && Sorted([]) && Flatten([]) == []
    ensures d == d[..head] + Flatten([]) + d[head..]
  {
  }

  lemma RearrangedParts(d: seq<byte>, d': seq<byte>, ps: seq<Pair>, qs: seq<Pair>, head: nat)
    requires Rearranged(d, d', ps, qs, head)
    ensures |d'| == |d| && |Flatten(qs)| == |Flatten(ps)|
    ensures SameWindow(d, 0, d', 0, head)
    ensures At(d', head, Flatten(qs))
    ensures d'[head + |Flatten(qs)|..] == d[head + |Flatten(ps)|..]
  {
    hide Flatten;
    FlattenLength(ps, qs);
  }

  /** A sorted buffer is again a map with the same head, and its entries are the sorted entries. */
  lemma SortedIsMap(d: seq<byte>, d': seq<byte>, qs: seq<Pair>)
    requires Sortable(d) && Rearranged(d, d', Entries(d), qs, HeadAt(d, 0).size)
    ensures HeadAt(d', 0) == HeadAt(d, 0) && Sortable(d') && Entries(d') == qs
    ensures PairsAt(d', HeadAt(d, 0).size, |qs|).end == PairsAt(d, HeadAt(d, 0).size, |qs|).end
  {
    hide HeadAt, PairsAt, Flatten, IsPair, At;
    var h, ps := HeadAt(d, 0), Entries(d);
    PairsAreBytes(d, h.size, h.arg);
    RearrangedParts(d, d', ps, qs, h.size);
    HeadLocal(d, 0, d', 0);
    SameLength(ps, qs);
    SameEntries(ps, qs);
    PairsFromBytes(d', h.size, qs);
  }

  lemma SameEntries(ps: seq<Pair>, qs: seq<Pair>)
    requires multiset(ps) == multiset(qs)
    ensures forall p :: p in ps <==> p in qs
    ensures AllPairs(ps) <==> AllPairs(qs)
  {
    hide IsPair;
    assert forall p :: p in ps <==> p in multiset(ps);
    assert forall p :: p in qs <==> p in multiset(qs);
  }

  /** The sort is idempotent when entries with equal encoded keys are equal: a second sort, by any
      correct sorting routine, leaves every byte where it is. */
  lemma SortIsIdempotent(d: seq<byte>, d': seq<byte>, qs: seq<Pair>, d'': seq<byte>, rs: seq<Pair>)
    requires Sortable(d) && Sorted(qs) && Rearranged(d, d', Entries(d), qs, HeadAt(d, 0).size)
    requires Sortable(d') && Sorted(rs) && Rearranged(d', d'', Entries(d'), rs, HeadAt(d', 0).size)
    requires forall p, q | p in Entries(d) && q in Entries(d) :: p.key == q.key ==> p == q
    ensures d'' == d'
  {
    hide HeadAt, PairsAt, Flatten, Sorted;
    SortedIsMap(d, d', qs);
    SameEntries(Entries(d), qs);
    SortedUnique(qs, rs);
    var head, n := HeadAt(d, 0).size, |Flatten(qs)|;
    FlattenLength(Entries(d), qs);
    assert d' == d[..head] + Flatten(qs) + d[head + n..];
    assert d'[..head] == d[..head] && d'[head + n..] == d[head + n..];
  }

  // ----- lookups ----------------------------------------------------------------------------

  datatype Find = Broken | Missing | Found(at: nat)

  /** Looks for a key among `n` entries starting at `off`, as both map search functions do: each key
      is decoded by one step and each value that does not belong to the key is skipped. */
  ghost function FindKey(d: seq<byte>, off: nat, n: nat, want: Decoded): (r: Find)
    requires off <= |d|
    ensures r.Found? ==> r.at <= |d|
    decreases n
  {
    if n == 0 then Missing
    else
      match NextAt(d, off)
      case Stop => Broken
      case Next(item, mid) =>
        if item == want then Found(mid)
        else
          var next := ItemWithin(d, mid, MAX_DEPTH);
          if next == -1 then Broken else FindKey(d, next, n - 1, want)
  }

  /** Searches a map for an unsigned or text key; a miss restores the cursor. */
  method MapFind(dec: Decoder, count: nat, want: Decoded) returns (rc: Status)
    requires dec.Valid() && !dec.error && (want.DUInt? || want.DText?)
    modifies dec
    ensures dec.Valid()
    ensures match FindKey(dec.data, old(dec.offset), count, want)
            case Found(at) => rc == Ok && dec.offset == at && !dec.error
            case Missing => rc == NotFound && dec.offset == old(dec.offset) && !dec.error
            case Broken => rc != Ok && rc != NotFound && dec.error
  {
    hide NextAt, ItemWithin;
    var start := dec.offset;
    for i := 0 to count
      invariant dec.Valid() && !dec.error
      invariant FindKey(dec.data, start, count, want) == FindKey(dec.data, dec.offset, count - i, want)
    {
      var item;
      rc, item := dec.DecodeNext();
      if rc != Ok {
        return;
      }
      if item == want {
        return Ok;
      }
      rc := dec.Skip();
      if rc != Ok {
        return;
      }
    }
    dec.offset := start;
    return NotFound;
  }

  /** An entry the search handles: the key is not a container and the value is nested at most 16 deep. */
  ghost predicate Searchable(p: Pair)
  {
    && IsItem(p.value, MAX_DEPTH)
    && NextAt(p.key, 0).Next? && NextAt(p.key, 0).end == |p.key|
    && !NextAt(p.key, 0).item.DArray? && !NextAt(p.key, 0).item.DMap? && !NextAt(p.key, 0).item.DTag?
  }

  ghost function KeyOf(p: Pair): Decoded
    requires Searchable(p)
  {
    NextAt(p.key, 0).item
  }

  lemma PasteKey(key: seq<byte>, d: seq<byte>, off: nat)
    requires NextAt(key, 0).Next? && NextAt(key, 0).end == |key| && At(d, off, key)
    requires !NextAt(key, 0).item.DArray? && !NextAt(key, 0).item.DMap? && !NextAt(key, 0).item.DTag?
    ensures NextAt(d, off) == Next(NextAt(key, 0).item, off + |key|)
  {
    hide HeadAt;
    var h := HeadAt(key, 0);
    assert SameWindow(key, 0, d, off, |key|);
    var Item(v, end) := LeafAt(key, h, h.size);
    HeadLocal(key, 0, d, off);
    if h.major == BSTR || h.major == TSTR {
      SameSlice(key, h.size, d, off + h.size, h.arg);
    }
  }

  lemma EntryAt(d: seq<byte>, off: nat, p: Pair, rest: seq<byte>)
    requires Searchable(p) && At(d, off, p.key + p.value + rest)
    ensures off <= off + |p.key| <= off + |p.key| + |p.value| <= |d|
    ensures NextAt(d, off) == Next(KeyOf(p), off + |p.key|) && At(d, off + |p.key|, p.value)
    ensures ItemWithin(d, off + |p.key|, MAX_DEPTH) == off + |p.key| + |p.value|
    ensures At(d, off + |p.key| + |p.value|, rest)
  {
    hide NextAt, ItemWithin, IsItem, At;
    AtConcat(d, off, p.key + p.value, rest);
    AtConcat(d, off, p.key, p.value);
    PasteKey(p.key, d, off);
    PasteItem(p.value, MAX_DEPTH, d, off + |p.key|);
    AtInside(d, off + |p.key| + |p.value|, rest);
  }

  lemma AtInside(d: seq<byte>, off: nat, s: seq<byte>)
    requires At(d, off, s)
    ensures off + |s| <= |d|
  {
  }

  /** On searchable entries a lookup finds the first entry with that key, or misses. */
  lemma {:induction false} FindInEntries(d: seq<byte>, off: nat, ps: seq<Pair>, want: Decoded)
    requires At(d, off, Flatten(ps)) && forall p | p in ps :: Searchable(p)
    ensures FindKey(d, off, |ps|, want).Missing? ==> forall p | p in ps :: KeyOf(p) != want
    ensures FindKey(d, off, |ps|, want).Found? ==>
              exists p :: p in ps && KeyOf(p) == want && At(d, FindKey(d, off, |ps|, want).at, p.value)
    ensures !FindKey(d, off, |ps|, want).Broken?
    decreases |ps|
  {
    hide NextAt, ItemWithin, IsItem, At, Searchable, KeyOf;
    if ps != [] {
      var p, rest := ps[0], ps[1..];
      assert Searchable(p);
      EntryAt(d, off, p, Flatten(rest));
      FindInEntries(d, off + |p.key| + |p.value|, rest, want);
    }
  }

  /** Lookups survive the sort: when all entries are searchable and at most one carries the wanted
      key, the search hits before the sort exactly when it hits after, on the same value bytes. */
  lemma LookupSurvivesSort(d: seq<byte>, d': seq<byte>, qs: seq<Pair>, want: Decoded)
    requires Sortable(d) && Rearranged(d, d', Entries(d), qs, HeadAt(d, 0).size)
    requires forall p | p in Entries(d) :: Searchable(p)
    requires forall p, q | p in Entries(d) && q in Entries(d) :: KeyOf(p) == KeyOf(q) == want ==> p == q
    ensures HeadAt(d', 0) == HeadAt(d, 0)
    ensures var n, head := |Entries(d)|, HeadAt(d, 0).size;
            match (FindKey(d, head, n, want), FindKey(d', head, n, want))
            case (Missing, Missing) => true
            case (Found(at), Found(at')) =>
              exists p :: p in Entries(d) && KeyOf(p) == want && At(d, at, p.value) && At(d', at', p.value)
            case _ => false
  {
    hide HeadAt, PairsAt, Flatten, FindKey, IsItem, NextAt, At;
    var h, ps := HeadAt(d, 0), Entries(d);
    PairsAreBytes(d, h.size, h.arg);
    SortedIsMap(d, d', qs);
    PairsAreBytes(d', h.size, h.arg);
    SameEntries(ps, qs);
    SameLength(ps, qs);
    FindInEntries(d, h.size, ps, want);
    FindInEntries(d', h.size, qs, want);
  }
}
