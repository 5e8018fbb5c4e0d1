/** The plaintext of the credential file, version 2: the PIN state, then one fixed-size entry for each
    credential in use. Sealing and opening the plaintext are each other's inverse and not shown; the
    header's count and counter travel beside it. Integers are in the little-endian order of the host. */
module CredFile {
  import opened Bytes
  import opened Credentials
  import opened Pin

  const ENTRY_SIZE := 980
  const PIN_SIZE := 420
  const MAX_PLAIN := PIN_SIZE + MAX_STORED * ENTRY_SIZE

  // ----- fields one after another ------------------------------------------------------------------

  function Joined(fields: seq<seq<byte>>, k: nat): seq<byte>
    requires k <= |fields|
  {
    if k == 0 then [] else Joined(fields, k - 1) + fields[k - 1]
  }

  /** Field k lies between offsets k and k + 1. */
  predicate Fits(fields: seq<seq<byte>>, offsets: seq<nat>)
  {
    && |offsets| == |fields| + 1 && offsets[0] == 0
    && forall k | 0 <= k < |fields| :: offsets[k + 1] == offsets[k] + |fields[k]|
  }

  lemma {:induction false} JoinedLength(fields: seq<seq<byte>>, offsets: seq<nat>, k: nat)
    requires Fits(fields, offsets) && k <= |fields|
    ensures |Joined(fields, k)| == offsets[k]
  {
    if k > 0 {
      JoinedLength(fields, offsets, k - 1);
    }
  }

  lemma {:induction false} FieldAt(d: seq<byte>, off: nat, fields: seq<seq<byte>>, offsets: seq<nat>, n: nat, k: nat)
    requires Fits(fields, offsets) && k < n <= |fields| && At(d, off, Joined(fields, n))
    ensures At(d, off + offsets[k], fields[k])
    ensures off + offsets[k] <= off + offsets[k + 1] <= |d| && d[off + offsets[k]..off + offsets[k + 1]] == fields[k]
    decreases n
  {
    hide At;
    AtConcat(d, off, Joined(fields, n - 1), fields[n - 1]);
    JoinedLength(fields, offsets, n - 1);
    if k < n - 1 {
      FieldAt(d, off, fields, offsets, n - 1, k);
    } else {
      AtIsSlice(d, off + offsets[k], fields[k]);
    }
  }

  lemma AtIsSlice(d: seq<byte>, off: nat, s: seq<byte>)
    requires At(d, off, s)
    ensures off + |s| <= |d| && d[off..off + |s|] == s
  {
  }

  function LittleEndian(v: nat, n: nat): (s: seq<byte>)
    ensures |s| == n
  {
    if n == 0 then [] else [v % 256] + LittleEndian(v / 256, n - 1)
  }

  function FromLittleEndian(s: seq<byte>): nat
  {
    if s == [] then 0 else s[0] + 256 * FromLittleEndian(s[1..])
  }

  lemma {:induction false} LittleEndianRoundTrip(v: nat, n: nat)
    requires v < Pow256(n)
    ensures FromLittleEndian(LittleEndian(v, n)) == v
  {
    if n > 0 {
      LittleEndianRoundTrip(v / 256, n - 1);
      assert LittleEndian(v, n)[1..] == LittleEndian(v / 256, n - 1);
    }
  }

  // ----- one credential ----------------------------------------------------------------------------

  /** The buffers have their declared sizes and the lengths stay inside them. */
  predicate WellSized(c: Credential)
  {
    && |c.rpId| == 256 && |c.rpName| == 256 && |c.rpHash| == 32
    && |c.userId| == 64 && c.userIdLen <= 64 && |c.userName| == 64 && |c.displayName| == 64
    && |c.credId| == 128 && c.credIdLen <= 128
    && |c.privateKey| == 32 && |c.publicKey| == 65
    && c.credProtect <= 0xEF
  }

  const ENTRY_OFFSETS: seq<nat> := [0, 1, 257, 513, 545, 609, 611, 675, 739, 867, 869, 901, 966, 970, 978, 979, 980]

  function Flag(b: bool): seq<byte> { if b then [1] else [0] }

  /** credProtect is stored above 0x10, apart from the 0 and 1 of an older format. */
  function BiasedProtect(p: byte): byte { (p + 0x10) % 0x100 }

  function ReadProtect(b: byte): byte
  {
    if b >= 0x10 then b - 0x10 else if b == 0 then 1 else 3
  }

  /** The bias survives reading exactly for the values that it does not wrap around. */
  lemma ProtectRoundTrip(p: byte)
    ensures ReadProtect(BiasedProtect(p)) == p <==> p <= 0xEF
    ensures p <= 0xEF ==> BiasedProtect(p) == p + 16
    ensures ReadProtect(p) == if p == 0 then 1 else if p < 16 then 3 else p - 16
  {
  }

  function Fields(c: Credential): (f: seq<seq<byte>>)
    ensures |f| == 16
  {
    [[1], c.rpId, c.rpName, c.rpHash, c.userId, LittleEndian(c.userIdLen % 0x1_0000, 2), c.userName, c.displayName,
     c.credId, LittleEndian(c.credIdLen % 0x1_0000, 2), c.privateKey, c.publicKey,
     LittleEndian(c.signCount, 4), LittleEndian(c.created, 8), Flag(c.resident), [BiasedProtect(c.credProtect)]]
  }

  function Entry(c: Credential): seq<byte>
  {
    Joined(Fields(c), 16)
  }

  function Clamp(n: nat, limit: nat): nat
  {
    if n <= limit then n else limit
  }

  function Number(b: seq<byte>, limit: nat): (n: nat)
    requires limit > 0
    ensures n < limit
  {
    FromLittleEndian(b) % limit
  }

  function FromFields(f: seq<seq<byte>>): Credential
    requires |f| == 16 && |f[14]| == |f[15]| == 1
  {
    Credential(
      f[1], f[2], f[3], f[4], Clamp(FromLittleEndian(f[5]), 64), f[6], f[7],
      f[8], Clamp(FromLittleEndian(f[9]), 128), f[10], f[11],
      Number(f[12], COUNTER_LIMIT), Number(f[13], CLOCK_LIMIT), f[14][0] != 0, ReadProtect(f[15][0]), None)
  }

  function Cut(d: seq<byte>, off: nat): (f: seq<seq<byte>>)
    requires off + ENTRY_SIZE <= |d|
    ensures |f| == 16 && |f[14]| == |f[15]| == 1
  {
    seq(16, k requires 0 <= k < 16 => d[off + ENTRY_OFFSETS[k]..off + ENTRY_OFFSETS[k + 1]])
  }

  lemma FieldsFit(c: Credential)
    requires WellSized(c)
    ensures Fits(Fields(c), ENTRY_OFFSETS)
  {
    hide LittleEndian;
  }

  lemma EntryLength(c: Credential)
    requires WellSized(c)
    ensures |Entry(c)| == ENTRY_SIZE
  {
    hide Fits, Fields, Joined;
    FieldsFit(c);
    JoinedLength(Fields(c), ENTRY_OFFSETS, 16);
  }

  lemma CutEntry(c: Credential, d: seq<byte>, off: nat)
    requires WellSized(c) && At(d, off, Entry(c))
    ensures off + ENTRY_SIZE <= |d| && Cut(d, off) == Fields(c)
  {
    hide Fits, Fields, Joined, WellSized;
    FieldsFit(c);
    EntryLength(c);
    forall k | 0 <= k < 16 ensures Cut(d, off)[k] == Fields(c)[k] {
      FieldAt(d, off, Fields(c), ENTRY_OFFSETS, 16, k);
    }
  }

  lemma FieldsRoundTrip(c: Credential)
    requires WellSized(c)
    ensures FromFields(Fields(c)) == c.(hmacSecret := None)
  {
    hide LittleEndian, FromLittleEndian, Pow256;
    Pow256Values();
    LittleEndianRoundTrip(c.userIdLen, 2);
    LittleEndianRoundTrip(c.credIdLen, 2);
    LittleEndianRoundTrip(c.signCount, 4);
    LittleEndianRoundTrip(c.created, 8);
  }

  /** Where each field of a stored credential stands, wherever its entry does. */
  lemma EntryStrings(c: Credential, d: seq<byte>, off: nat)
    requires WellSized(c) && At(d, off, Entry(c))
    ensures off + 980 <= |d| && d[off] == 1
    ensures d[off + 1..off + 257] == c.rpId && d[off + 257..off + 513] == c.rpName
    ensures d[off + 513..off + 545] == c.rpHash && d[off + 545..off + 609] == c.userId
    ensures d[off + 611..off + 675] == c.userName && d[off + 675..off + 739] == c.displayName
    ensures d[off + 739..off + 867] == c.credId
    ensures d[off + 869..off + 901] == c.privateKey && d[off + 901..off + 966] == c.publicKey
  {
    hide At, WellSized, Joined, LittleEndian;
    CutEntry(c, d, off);
    EntryStarts(c, d, off);
    var f := Cut(d, off);
    assert f[1] == c.rpId && f[2] == c.rpName && f[3] == c.rpHash && f[4] == c.userId;
    assert f[6] == c.userName && f[7] == c.displayName && f[8] == c.credId;
    assert f[10] == c.privateKey && f[11] == c.publicKey;
  }

  lemma EntryNumbers(c: Credential, d: seq<byte>, off: nat)
    requires WellSized(c) && At(d, off, Entry(c))
    ensures off + 980 <= |d|
    ensures d[off + 609..off + 611] == [c.userIdLen, 0] && d[off + 867..off + 869] == [c.credIdLen, 0]
    ensures d[off + 966..off + 970] == LittleEndian(c.signCount, 4)
    ensures d[off + 970..off + 978] == LittleEndian(c.created, 8)
    ensures d[off + 978..off + 979] == [if c.resident then 1 else 0]
    ensures d[off + 979..off + 980] == [c.credProtect + 16]
  {
    hide At, Joined, LittleEndian;
    CutEntry(c, d, off);
    var f := Cut(d, off);
    LittleEndian2(c.userIdLen);
    LittleEndian2(c.credIdLen);
    assert f[5] == LittleEndian(c.userIdLen, 2) && f[9] == LittleEndian(c.credIdLen, 2);
    assert f[12] == LittleEndian(c.signCount, 4) && f[13] == LittleEndian(c.created, 8);
    assert f[14] == Flag(c.resident) && f[15] == [BiasedProtect(c.credProtect)];
  }

  lemma LittleEndianMore(v: nat, n: nat)
    ensures LittleEndian(v, n + 1) == [v % 0x100] + LittleEndian(v / 0x100, n) && LittleEndian(v, 0) == []
  {
  }

  lemma LittleEndian2(v: nat)
    ensures LittleEndian(v, 2) == [v % 0x100, v / 0x100 % 0x100]
  {
    hide LittleEndian;
    LittleEndianMore(v, 1);
    LittleEndianMore(v / 0x100, 0);
  }

  /** The least significant byte comes first. */
  lemma LittleEndian4(v: nat)
    ensures LittleEndian(v, 4) == [v % 0x100, v / 0x100 % 0x100, v / 0x1_0000 % 0x100, v / 0x100_0000 % 0x100]
  {
    hide LittleEndian;
    DivSteps(v);
    LittleEndianMore(v, 3);
    LittleEndianMore(v / 0x100, 2);
    LittleEndian2(v / 0x1_0000);
  }

  lemma LittleEndian8(v: nat)
    ensures LittleEndian(v, 8) == LittleEndian(v, 4) + LittleEndian(v / 0x1_0000_0000, 4)
  {
    hide LittleEndian;
    DivSteps(v);
    LittleEndianMore(v, 7);
    LittleEndianMore(v / 0x100, 6);
    LittleEndianMore(v / 0x1_0000, 5);
    LittleEndianMore(v / 0x100_0000, 4);
    LittleEndian4(v);
  }

  // ----- the PIN state -----------------------------------------------------------------------------

  const PIN_OFFSETS: seq<nat> := [0, 1, 17, 20, 24, 25, 420]

  predicate PinSized(p: PinState)
  {
    |p.hash| == 16 && 0 <= p.retries < 0x8000_0000
  }

  /** The PIN structure with its session fields wiped; they and the padding are the zero fields. */
  function PinFields(p: PinState): (f: seq<seq<byte>>)
    requires 0 <= p.retries
    ensures |f| == 6
  {
    [Flag(p.isSet), p.hash, Zeros(3), LittleEndian(p.retries, 4), Flag(p.blocked), Zeros(395)]
  }

  function PinImage(p: PinState): seq<byte>
    requires 0 <= p.retries
  {
    Joined(PinFields(p), 6)
  }

  function ReadPin(d: seq<byte>): PinState
    requires |d| >= PIN_SIZE
  {
    PinState(d[0] != 0, d[1..17], FromLittleEndian(d[20..24]), d[24] != 0)
  }

  lemma PinFieldsFit(p: PinState)
    requires PinSized(p)
    ensures Fits(PinFields(p), PIN_OFFSETS)
  {
    hide LittleEndian, Zeros;
  }

  lemma PinImageLength(p: PinState)
    requires PinSized(p)
    ensures |PinImage(p)| == PIN_SIZE
  {
    hide Fits, PinFields, Joined;
    PinFieldsFit(p);
    JoinedLength(PinFields(p), PIN_OFFSETS, 6);
  }

  lemma PinRoundTrip(p: PinState, d: seq<byte>)
    requires PinSized(p) && At(d, 0, PinImage(p))
    ensures |d| >= PIN_SIZE && ReadPin(d) == p
  {
    hide Fits, Joined, LittleEndian, FromLittleEndian, Zeros, At;
    PinFieldsFit(p);
    var f := PinFields(p);
    FieldAt(d, 0, f, PIN_OFFSETS, 6, 0);
    FieldAt(d, 0, f, PIN_OFFSETS, 6, 1);
    FieldAt(d, 0, f, PIN_OFFSETS, 6, 3);
    FieldAt(d, 0, f, PIN_OFFSETS, 6, 4);
    FieldAt(d, 0, f, PIN_OFFSETS, 6, 5);
    assert d[0..1][0] == d[0] && d[24..25][0] == d[24];
    Pow256Values();
    LittleEndianRoundTrip(p.retries, 4);
  }

  /** Where the fields of the PIN state stand. */
  lemma PinLayout(p: PinState, d: seq<byte>)
    requires PinSized(p) && At(d, 0, PinImage(p))
    ensures |d| >= 420 && |PinImage(p)| == 420
    ensures d[0] == (if p.isSet then 1 else 0) && d[1..17] == p.hash
    ensures d[17..20] == [0, 0, 0] && d[20..24] == LittleEndian(p.retries, 4)
    ensures d[24] == (if p.blocked then 1 else 0) && forall i | 25 <= i < 420 :: d[i] == 0
  {
    hide Fits, Joined, LittleEndian, At;
    PinFieldsFit(p);
    PinImageLength(p);
    var f := PinFields(p);
    FieldAt(d, 0, f, PIN_OFFSETS, 6, 0);
    FieldAt(d, 0, f, PIN_OFFSETS, 6, 1);
    FieldAt(d, 0, f, PIN_OFFSETS, 6, 2);
    FieldAt(d, 0, f, PIN_OFFSETS, 6, 3);
    FieldAt(d, 0, f, PIN_OFFSETS, 6, 4);
    FieldAt(d, 0, f, PIN_OFFSETS, 6, 5);
    assert d[0..1][0] == d[0] && d[24..25][0] == d[24];
    forall i | 25 <= i < 420 ensures d[i] == 0 {
      assert d[25..420][i - 25] == d[i];
    }
  }

  // ----- the whole plaintext -----------------------------------------------------------------------

  datatype File = File(count: u32, counter: u32, plain: seq<byte>)

  /** The PIN state and the entries of the slots below n. */
  function Plain(p: PinState, slots: seq<Slot>, n: nat): seq<byte>
    requires 0 <= p.retries && n <= |slots|
  {
    if n == 0 then PinImage(p)
    else Plain(p, slots, n - 1) + if slots[n - 1].Some? then Entry(slots[n - 1].value) else []
  }

  function FileOf(p: PinState, st: Store): File
    requires 0 <= p.retries
  {
    File(st.count % COUNTER_LIMIT, st.counter, Plain(p, st.slots, |st.slots|))
  }

  datatype Loaded = Loaded(slots: seq<Slot>, count: nat)

  /** Reads at most n entries from `off` on, each into the first free slot: an entry whose flag is not 1
      takes up one byte, and a truncated entry or a full table ends the reading. */
  function LoadFrom(d: seq<byte>, off: nat, n: nat, slots: seq<Slot>, count: nat): Loaded
    decreases n
  {
    if n == 0 || off + 1 > |d| then Loaded(slots, count)
    else if d[off] != 1 then LoadFrom(d, off + 1, n - 1, slots, count)
    else
      var k := First(slots, Free, 0);
      if k == |slots| || off + ENTRY_SIZE > |d| then Loaded(slots, count)
      else LoadFrom(d, off + ENTRY_SIZE, n - 1, slots[k := Some(FromFields(Cut(d, off)))], count + 1)
  }

  /** Bytes that are not an entry's flag are each counted as one entry of the header's number, and an entry cut
      short ends the reading with what there is. */
  lemma {:induction false} GarbageIsSkipped(d: seq<byte>, off: nat, m: nat, n: nat, slots: seq<Slot>, count: nat)
    requires m < n && off + m < |d| && forall i | off <= i < off + m :: d[i] != 1
    ensures LoadFrom(d, off, n, slots, count) == LoadFrom(d, off + m, n - m, slots, count)
    ensures d[off + m] == 1 && off + m + 980 > |d| ==> LoadFrom(d, off, n, slots, count) == Loaded(slots, count)
    decreases m
  {
    hide First, Cut, FromFields;
    if m > 0 {
      GarbageIsSkipped(d, off + 1, m - 1, n - 1, slots, count);
    }
  }

  function EntriesToRead(count: u32): nat
  {
    if count < MAX_STORED then count else MAX_STORED
  }

  predicate AllSized(slots: seq<Slot>)
  {
    forall k | 0 <= k < |slots| :: slots[k].Some? ==> WellSized(slots[k].value)
  }

  /** The entry of credential j stands at its fixed place, and nothing stands behind the last. */
  ghost predicate Holds(d: seq<byte>, creds: seq<Credential>)
  {
    && |d| == PIN_SIZE + ENTRY_SIZE * |creds|
    && forall j | 0 <= j < |creds| :: WellSized(creds[j]) && At(d, PIN_SIZE + ENTRY_SIZE * j, Entry(creds[j]))
  }

  lemma AtExtends(d: seq<byte>, off: nat, s: seq<byte>, t: seq<byte>)
    requires At(d, off, s)
    ensures At(d + t, off, s)
  {
  }

  lemma AtEnd(d: seq<byte>, s: seq<byte>)
    ensures At(d + s, |d|, s)
  {
  }

  lemma EntryForgets(c: Credential)
    ensures Entry(c.(hmacSecret := None)) == Entry(c)
  {
    assert Fields(c.(hmacSecret := None)) == Fields(c);
  }

  lemma HoldsMore(d: seq<byte>, creds: seq<Credential>, c: Credential)
    requires Holds(d, creds) && WellSized(c)
    ensures Holds(d + Entry(c), creds + [c.(hmacSecret := None)])
  {
    hide At, Entry, WellSized;
    EntryLength(c);
    EntryForgets(c);
    AtEnd(d, Entry(c));
    assert WellSized(c.(hmacSecret := None)) by { SizedForgets(c); }
    forall j | 0 <= j < |creds| ensures At(d + Entry(c), PIN_SIZE + ENTRY_SIZE * j, Entry(creds[j])) {
      AtExtends(d, PIN_SIZE + ENTRY_SIZE * j, Entry(creds[j]), Entry(c));
    }
  }

  lemma SizedForgets(c: Credential)
    requires WellSized(c)
    ensures WellSized(c.(hmacSecret := None))
  {
  }

  lemma {:induction false} PlainHolds(p: PinState, slots: seq<Slot>, n: nat)
    requires PinSized(p) && n <= |slots| && AllSized(slots)
    ensures Holds(Plain(p, slots, n), Compact(slots, n)) && At(Plain(p, slots, n), 0, PinImage(p))
  {
    hide At, Holds, PinImage, Entry, WellSized;
    if n == 0 {
      PinImageLength(p);
      HoldsNone(PinImage(p));
    } else {
      PlainHolds(p, slots, n - 1);
      if slots[n - 1].Some? {
        HoldsMore(Plain(p, slots, n - 1), Compact(slots, n - 1), slots[n - 1].value);
        AtExtends(Plain(p, slots, n - 1), 0, PinImage(p), Entry(slots[n - 1].value));
      } else {
        assert Plain(p, slots, n) == Plain(p, slots, n - 1);
        assert Compact(slots, n) == Compact(slots, n - 1);
      }
    }
  }

  lemma HoldsNone(d: seq<byte>)
    requires |d| == PIN_SIZE
    ensures Holds(d, []) && At(d, 0, d)
  {
  }

  lemma {:induction false} FirstFreePlaced(creds: seq<Credential>, i: nat)
    requires i <= |creds| <= MAX_STORED
    ensures First(Placed(creds), Free, i) == |creds|
    decreases |creds| - i
  {
    if i < |creds| {
      FirstFreePlaced(creds, i + 1);
    }
  }

  lemma PlaceOne(creds: seq<Credential>, c: Credential)
    requires |creds| < MAX_STORED
    ensures Placed(creds)[|creds| := Some(c)] == Placed(creds + [c])
  {
  }

  /** One entry of a written file goes, as it was, into the next slot. */
  lemma LoadStep(d: seq<byte>, creds: seq<Credential>, j: nat, n: nat)
    requires Holds(d, creds) && j < |creds| <= MAX_STORED && n > 0 && creds[j].hmacSecret == None
    ensures LoadFrom(d, PIN_SIZE + ENTRY_SIZE * j, n, Placed(creds[..j]), j) ==
            LoadFrom(d, PIN_SIZE + ENTRY_SIZE * (j + 1), n - 1, Placed(creds[..j + 1]), j + 1)
  {
    hide At, Placed, Entry, First, Cut, FromFields, WellSized;
    var off := PIN_SIZE + ENTRY_SIZE * j;
    var c := creds[j];
    CutEntry(c, d, off);
    FieldsRoundTrip(c);
    FirstFreePlaced(creds[..j], 0);
    PlaceOne(creds[..j], c);
    EntryStarts(c, d, off);
    assert creds[..j] + [c] == creds[..j + 1];
  }

  lemma EntryStarts(c: Credential, d: seq<byte>, off: nat)
    requires WellSized(c) && At(d, off, Entry(c))
    ensures off < |d| && d[off] == 1
  {
    hide Fits, Joined;
    FieldsFit(c);
    FieldAt(d, off, Fields(c), ENTRY_OFFSETS, 16, 0);
    assert d[off..off + 1][0] == d[off];
  }

  lemma {:induction false} LoadAll(d: seq<byte>, creds: seq<Credential>, j: nat, n: nat)
    requires Holds(d, creds) && j <= |creds| <= MAX_STORED
    requires forall i | 0 <= i < |creds| :: creds[i].hmacSecret == None
    ensures var kept := creds[..Clamp(j + n, |creds|)];
            LoadFrom(d, PIN_SIZE + ENTRY_SIZE * j, n, Placed(creds[..j]), j) == Loaded(Placed(kept), |kept|)
    decreases n
  {
    hide At, Placed, Entry, First, Cut, FromFields, WellSized;
    if n > 0 && j < |creds| {
      LoadStep(d, creds, j, n);
      LoadAll(d, creds, j + 1, n - 1);
    }
  }

  /** Saving and loading into an empty context gives back the PIN, the global counter and, in slot order
      and with every stored field, as many credentials as the count said: all of them, since the count is
      never below the number of slots in use. */
  lemma SaveThenLoad(p: PinState, st: Store)
    requires PinSized(p) && AllSized(st.slots) && |st.slots| == MAX_STORED && st.count < COUNTER_LIMIT
    ensures var f := FileOf(p, st);
            var r := LoadFrom(f.plain, PIN_SIZE, EntriesToRead(f.count), Placed([]), 0);
            && |f.plain| >= PIN_SIZE && ReadPin(f.plain) == p
            && Store(r.slots, r.count, f.counter) == Restored(st)
  {
    hide LoadFrom, Placed, Holds, Plain, At, WellSized, PinImage, ReadPin, Compact, AllSized;
    var f := FileOf(p, st);
    var creds := Compact(st.slots, MAX_STORED);
    PlainHolds(p, st.slots, MAX_STORED);
    PinRoundTrip(p, f.plain);
    CompactForgets(st.slots, MAX_STORED);
    LoadAll(f.plain, creds, 0, EntriesToRead(f.count));
    assert creds[..0] == [];
  }

  // ----- saving and loading, step by step ----------------------------------------------------------

  method Put(buf: array<byte>, off: nat, field: seq<byte>) returns (end: nat)
    requires off + |field| <= buf.Length
    modifies buf
    ensures end == off + |field| && buf[..end] == old(buf[..off]) + field
  {
    forall i | 0 <= i < |field| {
      buf[off + i] := field[i];
    }
    end := off + |field|;
  }

  method PutFields(buf: array<byte>, start: nat, fields: seq<seq<byte>>) returns (off: nat)
    requires start + |Joined(fields, |fields|)| <= buf.Length
    modifies buf
    ensures off == start + |Joined(fields, |fields|)| && buf[..off] == old(buf[..start]) + Joined(fields, |fields|)
  {
    off := start;
    for k := 0 to |fields|
      invariant off == start + |Joined(fields, k)| <= buf.Length
      invariant buf[..off] == old(buf[..start]) + Joined(fields, k)
    {
      JoinedGrows(fields, k + 1, |fields|);
      off := Put(buf, off, fields[k]);
      ConcatAssoc(old(buf[..start]), Joined(fields, k), fields[k]);
    }
  }

  lemma {:induction false} JoinedGrows(fields: seq<seq<byte>>, k: nat, n: nat)
    requires k <= n <= |fields|
    ensures |Joined(fields, k)| <= |Joined(fields, n)|
  {
    if k < n {
      JoinedGrows(fields, k, n - 1);
    }
  }

  lemma {:induction false} PlainFits(p: PinState, slots: seq<Slot>, n: nat)
    requires PinSized(p) && AllSized(slots) && n <= |slots|
    ensures PIN_SIZE <= |Plain(p, slots, n)| <= PIN_SIZE + ENTRY_SIZE * n
  {
    hide PinImage, Entry, WellSized;
    if n == 0 {
      PinImageLength(p);
    } else {
      PlainFits(p, slots, n - 1);
      if slots[n - 1].Some? {
        EntryLength(slots[n - 1].value);
      }
    }
  }

  /** Fills the plaintext buffer; the writes stay within its size for every table. */
  method WritePlain(p: PinState, slots: seq<Slot>, buf: array<byte>) returns (off: nat)
    requires PinSized(p) && AllSized(slots) && |slots| == MAX_STORED && buf.Length == MAX_PLAIN
    modifies buf
    ensures off <= MAX_PLAIN == 420 + 64 * 980 && buf[..off] == Plain(p, slots, MAX_STORED)
  {
    hide WellSized, PinFields, Fields, Joined;
    PinImageLength(p);
    off := PutFields(buf, 0, PinFields(p));
    for i := 0 to MAX_STORED
      invariant off == |Plain(p, slots, i)| <= buf.Length && buf[..off] == Plain(p, slots, i)
    {
      PlainFits(p, slots, i);
      if slots[i].Some? {
        EntryLength(slots[i].value);
        off := PutFields(buf, off, Fields(slots[i].value));
      }
    }
  }

  /** Cuts the sixteen fields of an entry out of `d` one by one; the first that does not fit ends it. */
  method ReadFields(d: seq<byte>, start: nat) returns (whole: bool, fields: seq<seq<byte>>)
    requires start <= |d|
    ensures whole <==> start + 980 <= |d|
    ensures whole ==> fields == Cut(d, start)
  {
    hide Cut, CutSoFar;
    fields := [];
    NothingCut(d, start);
    for k := 0 to 16
      invariant CutSoFar(d, start, fields, k) && start + Offset(k) <= |d|
    {
      OffsetsGrow(k);
      if start + Offset(k + 1) > |d| {
        return false, fields;
      }
      var field := d[start + Offset(k)..start + Offset(k + 1)];
      CutOneMore(d, start, fields, k);
      fields := fields + [field];
    }
    AllCut(d, start, fields);
    return true, fields;
  }

  function Offset(k: nat): nat
    requires k <= 16
  {
    ENTRY_OFFSETS[k]
  }

  lemma OffsetsGrow(k: nat)
    requires k < 16
    ensures Offset(k) <= Offset(k + 1) <= ENTRY_SIZE
  {
  }

  predicate CutSoFar(d: seq<byte>, start: nat, fields: seq<seq<byte>>, k: nat)
    requires k <= 16
  {
    |fields| == k && forall j | 0 <= j < k :: IsField(d, start, fields[j], j)
  }

  predicate IsField(d: seq<byte>, start: nat, field: seq<byte>, j: nat)
  {
    j < 16 && Offset(j) <= Offset(j + 1) <= |d| - start && field == d[start + Offset(j)..start + Offset(j + 1)]
  }

  lemma NothingCut(d: seq<byte>, start: nat)
    requires start <= |d|
    ensures CutSoFar(d, start, [], 0) && Offset(0) == 0
  {
  }

  lemma CutOneMore(d: seq<byte>, start: nat, fields: seq<seq<byte>>, k: nat)
    requires k < 16 && CutSoFar(d, start, fields, k) && start + Offset(k + 1) <= |d| && Offset(k) <= Offset(k + 1)
    ensures CutSoFar(d, start, fields + [d[start + Offset(k)..start + Offset(k + 1)]], k + 1)
  {
    hide Offset;
  }

  lemma AllCut(d: seq<byte>, start: nat, fields: seq<seq<byte>>)
    requires CutSoFar(d, start, fields, 16) && start + Offset(16) <= |d|
    ensures start + ENTRY_SIZE <= |d| && fields == Cut(d, start)
  {
    forall j | 0 <= j < 16 ensures fields[j] == Cut(d, start)[j] {
      assert IsField(d, start, fields[j], j);
    }
  }

  class Context {
    var pin: PinState
    var slots: seq<Slot>
    var count: nat
    var counter: u32

    /** Loads a file. The counter is taken from the header even when the rest turns out too short. */
    method Load(f: File) returns (ok: bool)
      modifies this
      ensures counter == f.counter
      ensures ok <==> |f.plain| >= 420
      ensures ok ==> pin.isSet == (f.plain[0] != 0) && pin.hash == f.plain[1..17] && pin.blocked == (f.plain[24] != 0)
      ensures !ok ==> pin == old(pin) && slots == old(slots) && count == old(count)
      ensures ok ==> pin == ReadPin(f.plain)
      ensures ok ==> Loaded(slots, count) == LoadFrom(f.plain, PIN_SIZE, EntriesToRead(f.count), old(slots), 0)
    {
      hide Cut, FromFields, First;
      counter := f.counter;
      if |f.plain| < PIN_SIZE {
        return false;
      }
      pin := ReadPin(f.plain);
      count := 0;
      var off, i, n := PIN_SIZE, 0, EntriesToRead(f.count);
      ghost var goal := LoadFrom(f.plain, PIN_SIZE, n, slots, count);
      ok := true;
      while i < n
        invariant ok && i <= n && PIN_SIZE <= off <= |f.plain| && counter == f.counter && pin == ReadPin(f.plain)
        invariant LoadFrom(f.plain, off, n - i, slots, count) == goal
      {
        if off + 1 > |f.plain| { break; }
        i := i + 1;
        if f.plain[off] != 1 {
          off := off + 1;
          continue;
        }
        var k := FindFirst(slots, Free);
        if k == |slots| { break; }
        var whole, fields := ReadFields(f.plain, off);
        if !whole { break; }
        slots := slots[k := Some(FromFields(fields))];
        count := count + 1;
        off := off + ENTRY_SIZE;
      }
    }
  }
}
