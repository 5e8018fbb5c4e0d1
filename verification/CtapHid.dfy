/** CTAPHID framing over 64-byte reports: the response fragmenter and the multi-channel reassembler
    (section 11.2.4 of CTAP 2.1). */
module CtapHid {
  import opened Bytes

  const REPORT_SIZE := 64
  const INIT_DATA := 57
  const CONT_DATA := 59
  const MAX_MESSAGE := 7609
  const CHANNELS := 8
  const TIMEOUT_MS := 500
  const BROADCAST: u32 := 0xFFFF_FFFF
  const CMD_INIT: byte := 0x06
  const MAX_DRAWS := 64

  /** A channel slot. `msg` is the filled part of the reassembly buffer; `totalLen` is 0 between messages. */
  datatype Channel = Channel(
    cid: u32, inUse: bool, cmd: byte, totalLen: nat, nextSeq: nat, msg: seq<byte>, lastActive: nat)

  const BLANK := Channel(0, false, 0, 0, 0, [], 0)

  /** A complete message handed to the command handlers. */
  datatype Dispatch = Dispatch(cid: u32, cmd: byte, data: seq<byte>)

  /** What reaches the reader thread. `draws` are the random channel ids it would draw, `now` its clock. */
  datatype Event =
    | Incoming(report: seq<byte>, now: nat, draws: seq<u32>)
    | Sweep(now: nat)

  // ----- channel table -----------------------------------------------------------------------

  /** The first in-use channel with this id at index `from` or later, or -1. */
  function FindFrom(chs: seq<Channel>, cid: u32, from: nat): (i: int)
    requires from <= |chs|
    ensures i == -1 || (from <= i < |chs| && chs[i].inUse && chs[i].cid == cid)
    ensures i == -1 ==> forall j | from <= j < |chs| :: !(chs[j].inUse && chs[j].cid == cid)
    decreases |chs| - from
  {
    if from == |chs| then -1
    else if chs[from].inUse && chs[from].cid == cid then from
    else FindFrom(chs, cid, from + 1)
  }

  function Find(chs: seq<Channel>, cid: u32): (i: int)
    ensures i == -1 || (0 <= i < |chs| && chs[i].inUse && chs[i].cid == cid)
    ensures i == -1 ==> forall j | 0 <= j < |chs| :: !(chs[j].inUse && chs[j].cid == cid)
  {
    FindFrom(chs, cid, 0)
  }

  /** The first free slot at index `from` or later, or -1. */
  function FreeFrom(chs: seq<Channel>, from: nat): (i: int)
    requires from <= |chs|
    ensures i == -1 || (from <= i < |chs| && !chs[i].inUse && forall j | from <= j < i :: chs[j].inUse)
    ensures i == -1 ==> forall j | from <= j < |chs| :: chs[j].inUse
    decreases |chs| - from
  {
    if from == |chs| then -1 else if !chs[from].inUse then from else FreeFrom(chs, from + 1)
  }

  /** The first of the least recently active among the first `n` slots. */
  function OldestOf(chs: seq<Channel>, n: nat): (i: nat)
    requires 0 < n <= |chs|
    ensures i < n && forall j | 0 <= j < n :: chs[i].lastActive <= chs[j].lastActive
    ensures forall j | 0 <= j < i :: chs[i].lastActive < chs[j].lastActive
  {
    if n == 1 then 0
    else
      var i := OldestOf(chs, n - 1);
      if chs[n - 1].lastActive < chs[i].lastActive then n - 1 else i
  }

  /** The first usable id among the next `tries` draws: not reserved and not taken. */
  function PickCid(chs: seq<Channel>, draws: seq<u32>, tries: nat): (r: Option<u32>)
    ensures r.Some? ==> r.value != 0 && r.value != BROADCAST && Find(chs, r.value) == -1
    decreases tries
  {
    if tries == 0 || draws == [] then None
    else if draws[0] != 0 && draws[0] != BROADCAST && Find(chs, draws[0]) == -1 then Some(draws[0])
    else PickCid(chs, draws[1..], tries - 1)
  }

  function AllocSlot(chs: seq<Channel>): (i: nat)
    requires |chs| == CHANNELS
    ensures i < CHANNELS
  {
    var free := FreeFrom(chs, 0);
    if free >= 0 then free else OldestOf(chs, CHANNELS)
  }

  /** Takes a free slot or evicts the least recently active channel; -1 when no usable id is drawn. */
  function Alloc(chs: seq<Channel>, draws: seq<u32>, now: nat): (r: (seq<Channel>, int))
    requires |chs| == CHANNELS
    ensures |r.0| == CHANNELS && (r.1 == -1 || r.1 == AllocSlot(chs))
  {
    var slot: int := AllocSlot(chs);
    var cleared := chs[slot := BLANK];
    match PickCid(cleared, draws, MAX_DRAWS)
    case None => (cleared, -1)
    case Some(cid) => (cleared[slot := BLANK.(cid := cid, inUse := true, lastActive := now)], slot)
  }

  // ----- one report --------------------------------------------------------------------------

  function CidOf(report: seq<byte>): u32
    requires |report| >= REPORT_SIZE
  {
    WordBound(report, 0, 4);
    Pow256Values();
    Word(report, 0, 4)
  }

  /** Only the INIT command changes the channel table when it is carried out. */
  function CarryOut(chs: seq<Channel>, cmd: byte, data: seq<byte>, draws: seq<u32>, now: nat): (r: seq<Channel>)
    requires |chs| == CHANNELS
    ensures |r| == CHANNELS
  {
    if cmd == CMD_INIT && |data| >= 8 then Alloc(chs, draws, now).0 else chs
  }

  /** Hands over the finished message in slot `i` and makes the slot idle again. */
  function Complete(chs: seq<Channel>, i: nat, draws: seq<u32>, now: nat): (r: (seq<Channel>, seq<Dispatch>))
    requires |chs| == CHANNELS && i < CHANNELS && chs[i].totalLen <= |chs[i].msg|
    ensures |r.0| == CHANNELS
  {
    var data := chs[i].msg[..chs[i].totalLen];
    var after := CarryOut(chs, chs[i].cmd, data, draws, now);
    (after[i := after[i].(totalLen := 0, msg := [])], [Dispatch(chs[i].cid, chs[i].cmd, data)])
  }

  /** Starts a message in slot `i` with the data of an initialization packet. */
  function Begin(chs: seq<Channel>, i: nat, report: seq<byte>, cmd: byte, total: nat, draws: seq<u32>, now: nat)
    : (r: (seq<Channel>, seq<Dispatch>))
    requires |chs| == CHANNELS && i < CHANNELS && |report| >= REPORT_SIZE
    ensures |r.0| == CHANNELS
  {
    var chunk := if total > INIT_DATA then INIT_DATA else total;
    var ch := chs[i].(cmd := cmd, totalLen := total, nextSeq := 0, lastActive := now, msg := report[7..7 + chunk]);
    var chs' := chs[i := ch];
    if chunk >= total then Complete(chs', i, draws, now) else (chs', [])
  }

  function InitPacket(chs: seq<Channel>, report: seq<byte>, now: nat, draws: seq<u32>)
    : (r: (seq<Channel>, seq<Dispatch>))
    requires |chs| == CHANNELS && |report| >= REPORT_SIZE
    ensures |r.0| == CHANNELS
  {
    var cid, cmd, total := CidOf(report), report[4] % 128, Word(report, 5, 2);
    if cmd == CMD_INIT && total <= INIT_DATA then
      var data := report[7..7 + total];
      (CarryOut(chs, cmd, data, draws, now), [Dispatch(cid, cmd, data)])
    else if total > MAX_MESSAGE then (chs, [])
    else if cid == BROADCAST then
      if cmd != CMD_INIT then (chs, [])
      else
        var (chs', i) := Alloc(chs, draws, now);
        if i == -1 then (chs', []) else Begin(chs', i, report, cmd, total, draws, now)
    else
      var i := Find(chs, cid);
      if i == -1 then (chs, []) else Begin(chs, i, report, cmd, total, draws, now)
  }

  function ContPacket(chs: seq<Channel>, report: seq<byte>, now: nat, draws: seq<u32>)
    : (r: (seq<Channel>, seq<Dispatch>))
    requires |chs| == CHANNELS && |report| >= REPORT_SIZE
    ensures |r.0| == CHANNELS
  {
    var i := Find(chs, CidOf(report));
    if i == -1 || chs[i].totalLen == 0 then (chs, [])
    else
      var ch := chs[i];
      if report[4] != ch.nextSeq then (chs[i := ch.(totalLen := 0, msg := [])], [])
      else
        var remaining := if ch.totalLen > |ch.msg| then ch.totalLen - |ch.msg| else 0;
        var chunk := if remaining < CONT_DATA then remaining else CONT_DATA;
        if |ch.msg| + chunk > MAX_MESSAGE then
          (chs[i := ch.(nextSeq := (ch.nextSeq + 1) % 256, lastActive := now, totalLen := 0, msg := [])], [])
        else
          var ch' := ch.(nextSeq := (ch.nextSeq + 1) % 256, lastActive := now, msg := ch.msg + report[5..5 + chunk]);
          var chs' := chs[i := ch'];
          if |ch'.msg| >= ch'.totalLen then Complete(chs', i, draws, now) else (chs', [])
  }

  /** Makes stale transactions idle. */
  function SweepOne(ch: Channel, now: nat): Channel
  {
    if ch.inUse && ch.totalLen > 0 && |ch.msg| < ch.totalLen && now - ch.lastActive > TIMEOUT_MS
    then ch.(totalLen := 0, msg := []) else ch
  }

  /** One turn of the reader thread: the new table and the messages handed over. */
  function Step(chs: seq<Channel>, ev: Event): (r: (seq<Channel>, seq<Dispatch>))
    requires |chs| == CHANNELS
    ensures |r.0| == CHANNELS
  {
    match ev
    case Sweep(now) => (seq(CHANNELS, i requires 0 <= i < CHANNELS => SweepOne(chs[i], now)), [])
    case Incoming(report, now, draws) =>
      if |report| < REPORT_SIZE then (chs, [])
      else if report[4] >= 128 then InitPacket(chs, report, now, draws)
      else ContPacket(chs, report, now, draws)
  }

  // ----- what every step keeps -----------------------------------------------------------------

  /** In-use ids are distinct and not reserved. */
  ghost predicate CidsOk(chs: seq<Channel>)
  {
    && (forall i | 0 <= i < |chs| :: chs[i].inUse ==> chs[i].cid != 0 && chs[i].cid != BROADCAST)
    && (forall i, j | 0 <= i < j < |chs| :: chs[i].inUse && chs[j].inUse ==> chs[i].cid != chs[j].cid)
  }

  /** A channel in the middle of a message has received the initialization packet and `nextSeq` full
      continuation packets, and still misses bytes. */
  ghost predicate MessageOk(ch: Channel)
  {
    && (ch.totalLen == 0 ==> ch.msg == [])
    && (ch.totalLen > 0 ==> ch.inUse && |ch.msg| == INIT_DATA + CONT_DATA * ch.nextSeq < ch.totalLen <= MAX_MESSAGE)
  }

  ghost predicate Inv(chs: seq<Channel>)
  {
    |chs| == CHANNELS && CidsOk(chs) && forall i | 0 <= i < |chs| :: MessageOk(chs[i])
  }

  lemma AllocKeeps(chs: seq<Channel>, draws: seq<u32>, now: nat)
    requires |chs| == CHANNELS && CidsOk(chs)
    ensures var chs' := Alloc(chs, draws, now).0;
            && CidsOk(chs')
            && forall j | 0 <= j < CHANNELS :: chs'[j] == chs[j] || (chs'[j].totalLen == 0 && chs'[j].msg == [])
  {
    var slot := AllocSlot(chs);
    var cleared := chs[slot := BLANK];
    var pick := PickCid(cleared, draws, MAX_DRAWS);
    assert CidsOk(cleared);
    if pick.Some? {
      var fresh_ := cleared[slot := BLANK.(cid := pick.value, inUse := true, lastActive := now)];
      assert forall j | 0 <= j < CHANNELS && j != slot :: fresh_[j] == cleared[j];
    }
  }

  lemma CarryOutKeeps(chs: seq<Channel>, cmd: byte, data: seq<byte>, draws: seq<u32>, now: nat)
    requires |chs| == CHANNELS && CidsOk(chs)
    ensures var chs' := CarryOut(chs, cmd, data, draws, now);
            && CidsOk(chs')
            && forall j | 0 <= j < CHANNELS :: chs'[j] == chs[j] || (chs'[j].totalLen == 0 && chs'[j].msg == [])
  {
    hide CidsOk;
    AllocKeeps(chs, draws, now);
  }

  lemma SetMessage(chs: seq<Channel>, i: nat, ch: Channel)
    requires CidsOk(chs) && i < |chs| && ch.cid == chs[i].cid && ch.inUse == chs[i].inUse
    ensures CidsOk(chs[i := ch])
  {
  }

  lemma CompleteKeeps(chs: seq<Channel>, i: nat, draws: seq<u32>, now: nat)
    requires |chs| == CHANNELS && CidsOk(chs) && i < CHANNELS && chs[i].totalLen <= |chs[i].msg|
    requires forall j | 0 <= j < CHANNELS && j != i :: MessageOk(chs[j])
    ensures Inv(Complete(chs, i, draws, now).0)
  {
    hide CidsOk;
    var data := chs[i].msg[..chs[i].totalLen];
    CarryOutKeeps(chs, chs[i].cmd, data, draws, now);
    var after := CarryOut(chs, chs[i].cmd, data, draws, now);
    SetMessage(after, i, after[i].(totalLen := 0, msg := []));
  }

  lemma BeginKeeps(chs: seq<Channel>, i: nat, report: seq<byte>, cmd: byte, total: nat, draws: seq<u32>, now: nat)
    requires Inv(chs) && i < CHANNELS && |report| >= REPORT_SIZE && total <= MAX_MESSAGE && chs[i].inUse
    ensures Inv(Begin(chs, i, report, cmd, total, draws, now).0)
  {
    hide CidsOk, Complete;
    var chunk := if total > INIT_DATA then INIT_DATA else total;
    var ch := chs[i].(cmd := cmd, totalLen := total, nextSeq := 0, lastActive := now, msg := report[7..7 + chunk]);
    SetMessage(chs, i, ch);
    if chunk >= total {
      CompleteKeeps(chs[i := ch], i, draws, now);
    }
  }

  lemma InitPacketKeeps(chs: seq<Channel>, report: seq<byte>, now: nat, draws: seq<u32>)
    requires Inv(chs) && |report| >= REPORT_SIZE
    ensures Inv(InitPacket(chs, report, now, draws).0)
  {
    hide CidsOk, Alloc, CarryOut, Begin, Word, MessageOk;
    var cid, cmd, total := CidOf(report), report[4] % 128, Word(report, 5, 2);
    AllocInUse(chs, draws, now);
    AllocInv(chs, draws, now);
    if cmd == CMD_INIT && total <= INIT_DATA {
      CarryOutInv(chs, cmd, report[7..7 + total], draws, now);
    } else if total <= MAX_MESSAGE {
      if cid == BROADCAST {
        var (chs', i) := Alloc(chs, draws, now);
        if i != -1 {
          BeginKeeps(chs', i, report, cmd, total, draws, now);
        }
      } else if Find(chs, cid) != -1 {
        BeginKeeps(chs, Find(chs, cid), report, cmd, total, draws, now);
      }
    }
  }

  lemma AllocInUse(chs: seq<Channel>, draws: seq<u32>, now: nat)
    requires |chs| == CHANNELS
    ensures var (chs', i) := Alloc(chs, draws, now); i != -1 ==> chs'[i].inUse
  {
  }

  lemma AllocInv(chs: seq<Channel>, draws: seq<u32>, now: nat)
    requires Inv(chs)
    ensures Inv(Alloc(chs, draws, now).0)
  {
    hide CidsOk, Alloc;
    AllocKeeps(chs, draws, now);
  }

  lemma CarryOutInv(chs: seq<Channel>, cmd: byte, data: seq<byte>, draws: seq<u32>, now: nat)
    requires Inv(chs)
    ensures Inv(CarryOut(chs, cmd, data, draws, now))
  {
    hide CidsOk, CarryOut;
    CarryOutKeeps(chs, cmd, data, draws, now);
  }

  lemma ContPacketKeeps(chs: seq<Channel>, report: seq<byte>, now: nat, draws: seq<u32>)
    requires Inv(chs) && |report| >= REPORT_SIZE && report[4] < 128
    ensures Inv(ContPacket(chs, report, now, draws).0)
  {
    hide CidsOk, Complete, Word;
    var i := Find(chs, CidOf(report));
    if i != -1 && chs[i].totalLen != 0 {
      var ch := chs[i];
      assert MessageOk(ch);
      if report[4] != ch.nextSeq {
        SetMessage(chs, i, ch.(totalLen := 0, msg := []));
      } else {
        var remaining := ch.totalLen - |ch.msg|;
        var chunk := if remaining < CONT_DATA then remaining else CONT_DATA;
        var ch' := ch.(nextSeq := ch.nextSeq + 1, lastActive := now, msg := ch.msg + report[5..5 + chunk]);
        SetMessage(chs, i, ch');
        if |ch'.msg| >= ch'.totalLen {
          CompleteKeeps(chs[i := ch'], i, draws, now);
        }
      }
    }
  }

  /** Every turn of the reader thread keeps the invariant, whatever arrives. */
  lemma StepKeepsInv(chs: seq<Channel>, ev: Event)
    requires Inv(chs)
    ensures Inv(Step(chs, ev).0)
  {
    hide InitPacket, ContPacket;
    match ev {
      case Sweep(now) =>
      case Incoming(report, now, draws) =>
        if |report| >= REPORT_SIZE {
          if report[4] >= 128 { InitPacketKeeps(chs, report, now, draws); }
          else { ContPacketKeeps(chs, report, now, draws); }
        }
    }
  }

  function Run(chs: seq<Channel>, evs: seq<Event>): (r: (seq<Channel>, seq<Dispatch>))
    requires |chs| == CHANNELS
    ensures |r.0| == CHANNELS
    decreases |evs|
  {
    if evs == [] then (chs, [])
    else
      var (chs', out) := Step(chs, evs[0]);
      var (end, rest) := Run(chs', evs[1..]);
      (end, out + rest)
  }

  const IDLE_TABLE := seq(CHANNELS, i => BLANK)

  /** In every reachable state the invariant holds. */
  lemma {:induction false} ReachableInv(chs: seq<Channel>, evs: seq<Event>)
    requires Inv(chs)
    ensures Inv(Run(chs, evs).0)
    decreases |evs|
  {
    hide Step, CidsOk;
    if evs != [] {
      StepKeepsInv(chs, evs[0]);
      ReachableInv(Step(chs, evs[0]).0, evs[1..]);
    }
  }

  lemma IdleTableInv()
    ensures Inv(IDLE_TABLE)
  {
  }

  // ----- fragments -----------------------------------------------------------------------------

  /** Payload bytes carried by fragments 0..k-1. */
  function Carried(n: nat, k: nat): nat
  {
    if k == 0 then 0 else if INIT_DATA + CONT_DATA * (k - 1) < n then INIT_DATA + CONT_DATA * (k - 1) else n
  }

  /** Number of reports for a payload of `n` bytes. */
  function FragmentCount(n: nat): nat
  {
    if n <= INIT_DATA then 1 else 1 + (n - INIT_DATA + CONT_DATA - 1) / CONT_DATA
  }

  function FragmentHeader(cid: u32, cmd: byte, n: u16, k: nat): seq<byte>
  {
    BigEndian(cid, 4) + if k == 0 then [if cmd < 128 then cmd + 128 else cmd] + BigEndian(n, 2) else [(k - 1) % 256]
  }

  /** The `k`-th report of a response: an initialization packet, then continuation packets. */
  function Fragment(cid: u32, cmd: byte, data: seq<byte>, k: nat): (r: seq<byte>)
    requires |data| < 0x1_0000
    ensures |r| == REPORT_SIZE
  {
    var chunk := data[Carried(|data|, k)..Carried(|data|, k + 1)];
    var header := FragmentHeader(cid, cmd, |data|, k);
    header + chunk + Zeros(REPORT_SIZE - |header| - |chunk|)
  }

  function Fragments(cid: u32, cmd: byte, data: seq<byte>): seq<seq<byte>>
    requires |data| < 0x1_0000
  {
    seq(FragmentCount(|data|), k requires 0 <= k => Fragment(cid, cmd, data, k))
  }

  /** Splits a response into reports. */
  method SendResponse(cid: u32, cmd: byte, data: seq<byte>) returns (reports: seq<seq<byte>>)
    requires |data| < 0x1_0000
    ensures reports == Fragments(cid, cmd, data)
  {
    hide Fragment, Fragments, BigEndian, Carried, FragmentCount, Sent;
    var chunk := if |data| < INIT_DATA then |data| else INIT_DATA;
    var header := BigEndian(cid, 4) + [if cmd < 128 then cmd + 128 else cmd] + BigEndian(|data|, 2);
    reports := [header + data[..chunk] + Zeros(REPORT_SIZE - 7 - chunk)];
    FirstFragment(cid, cmd, data);
    SentFirst(cid, cmd, data, reports[0]);
    var offset, seqNo: byte := chunk, 0;
    while offset < |data|
      invariant Sent(cid, cmd, data, reports) && |reports| >= 1 && seqNo == (|reports| - 1) % 256
      invariant offset == Carried(|data|, |reports|) <= |data|
      invariant offset == |data| ==> |reports| == FragmentCount(|data|)
    {
      ghost var k := |reports|;
      CountBound(|data|, k);
      chunk := |data| - offset;
      if chunk > CONT_DATA {
        chunk := CONT_DATA;
      }
      var report := BigEndian(cid, 4) + [seqNo] + data[offset..offset + chunk] + Zeros(REPORT_SIZE - 5 - chunk);
      NextFragment(cid, cmd, data, k);
      SentNext(cid, cmd, data, reports, report);
      reports := reports + [report];
      offset := offset + chunk;
      NextNumber(k);
      seqNo := (seqNo + 1) % 256;
    }
    SentAll(cid, cmd, data, reports);
  }

  /** The reports so far are the first fragments, in order. */
  ghost predicate Sent(cid: u32, cmd: byte, data: seq<byte>, reports: seq<seq<byte>>)
    requires |data| < 0x1_0000
  {
    forall k | 0 <= k < |reports| :: reports[k] == Fragment(cid, cmd, data, k)
  }

  lemma SentFirst(cid: u32, cmd: byte, data: seq<byte>, report: seq<byte>)
    requires |data| < 0x1_0000 && report == Fragment(cid, cmd, data, 0)
    ensures Sent(cid, cmd, data, [report])
    ensures Carried(|data|, 1) == if |data| < INIT_DATA then |data| else INIT_DATA
    ensures Carried(|data|, 1) == |data| ==> FragmentCount(|data|) == 1
  {
    hide Fragment;
  }

  lemma SentNext(cid: u32, cmd: byte, data: seq<byte>, reports: seq<seq<byte>>, report: seq<byte>)
    requires |data| < 0x1_0000 && Sent(cid, cmd, data, reports) && report == Fragment(cid, cmd, data, |reports|)
    ensures Sent(cid, cmd, data, reports + [report])
  {
    hide Fragment;
  }

  lemma SentAll(cid: u32, cmd: byte, data: seq<byte>, reports: seq<seq<byte>>)
    requires |data| < 0x1_0000 && Sent(cid, cmd, data, reports) && |reports| == FragmentCount(|data|)
    ensures reports == Fragments(cid, cmd, data)
  {
    hide Fragment, FragmentCount;
  }

  lemma NextNumber(k: nat)
    requires k >= 1
    ensures ((k - 1) % 256 + 1) % 256 == k % 256
  {
    var q, r := (k - 1) / 256, (k - 1) % 256;
    assert k == 256 * q + r + 1;
    if r == 255 {
      assert k == 256 * (q + 1);
    }
  }

  lemma CountBound(n: nat, k: nat)
    requires k >= 1 && Carried(n, k) < n
    ensures k < FragmentCount(n) && (Carried(n, k + 1) == n ==> k + 1 == FragmentCount(n))
    ensures Carried(n, k + 1) == if n - Carried(n, k) > CONT_DATA then Carried(n, k) + CONT_DATA else n
  {
  }

  lemma FirstFragment(cid: u32, cmd: byte, data: seq<byte>)
    requires |data| < 0x1_0000
    ensures var chunk := if |data| < INIT_DATA then |data| else INIT_DATA;
            var header := BigEndian(cid, 4) + [if cmd < 128 then cmd + 128 else cmd] + BigEndian(|data|, 2);
            Fragment(cid, cmd, data, 0) == header + data[..chunk] + Zeros(REPORT_SIZE - 7 - chunk)
  {
    hide BigEndian;
    assert BigEndian(cid, 4) + ([if cmd < 128 then cmd + 128 else cmd] + BigEndian(|data|, 2))
        == BigEndian(cid, 4) + [if cmd < 128 then cmd + 128 else cmd] + BigEndian(|data|, 2);
  }

  lemma NextFragment(cid: u32, cmd: byte, data: seq<byte>, k: nat)
    requires |data| < 0x1_0000 && k >= 1 && Carried(|data|, k) < |data|
    ensures var from, to := Carried(|data|, k), Carried(|data|, k + 1);
            var header := BigEndian(cid, 4) + [(k - 1) % 256];
            && 0 <= to - from <= CONT_DATA
            && Fragment(cid, cmd, data, k) == header + data[from..to] + Zeros(REPORT_SIZE - 5 - (to - from))
  {
    hide BigEndian;
  }

  lemma CidRoundTrip(report: seq<byte>, cid: u32)
    requires |report| >= REPORT_SIZE && At(report, 0, BigEndian(cid, 4))
    ensures CidOf(report) == cid
  {
    Pow256Values();
    BigEndianRoundTrip(report, 0, cid, 4);
  }

  /** What the reassembler reads off the initialization packet of a response. */
  lemma InitFragmentFields(cid: u32, cmd: byte, data: seq<byte>)
    requires |data| < 0x1_0000 && cmd < 128
    ensures var r, chunk := Fragment(cid, cmd, data, 0), Carried(|data|, 1);
            && CidOf(r) == cid && r[4] == cmd + 128 && Word(r, 5, 2) == |data|
            && r[7..7 + chunk] == data[..chunk]
  {
    hide Word, BigEndian, At;
    var r := Fragment(cid, cmd, data, 0);
    var id, code, size, chunk := BigEndian(cid, 4), [cmd + 128], BigEndian(|data|, 2), data[..Carried(|data|, 1)];
    var pad := Zeros(REPORT_SIZE - 7 - |chunk|);
    FirstFragment(cid, cmd, data);
    AtSlice(r, 0, r);
    AtConcat(r, 0, id + code + size + chunk, pad);
    AtConcat(r, 0, id + code + size, chunk);
    AtConcat(r, 0, id + code, size);
    AtConcat(r, 0, id, code);
    CidRoundTrip(r, cid);
    AtSlice(r, 4, code);
    assert r[4] == r[4..5][0];
    Pow256Values();
    BigEndianRoundTrip(r, 5, |data|, 2);
    AtSlice(r, 7, chunk);
  }

  lemma ContFragmentFields(cid: u32, cmd: byte, data: seq<byte>, k: nat)
    requires |data| < 0x1_0000 && k >= 1 && Carried(|data|, k) < |data|
    ensures var r, chunk := Fragment(cid, cmd, data, k), Carried(|data|, k + 1) - Carried(|data|, k);
            && 0 <= chunk <= CONT_DATA && CidOf(r) == cid && r[4] == (k - 1) % 256
            && r[5..5 + chunk] == data[Carried(|data|, k)..Carried(|data|, k + 1)]
  {
    hide Word, BigEndian, At, Fragment;
    var r := Fragment(cid, cmd, data, k);
    NextFragment(cid, cmd, data, k);
    var id, code := BigEndian(cid, 4), [(k - 1) % 256];
    var chunk := data[Carried(|data|, k)..Carried(|data|, k + 1)];
    var pad := Zeros(REPORT_SIZE - 5 - |chunk|);
    AtSlice(r, 0, r);
    AtConcat(r, 0, id + code + chunk, pad);
    AtConcat(r, 0, id + code, chunk);
    AtConcat(r, 0, id, code);
    CidRoundTrip(r, cid);
    AtSlice(r, 4, code);
    assert r[4] == r[4..5][0];
    AtSlice(r, 5, chunk);
  }

  // ----- reports, byte by byte -------------------------------------------------------------------

  /** The channel id is the first four bytes, most significant first. */
  lemma CidIs(report: seq<byte>)
    requires |report| >= 64
    ensures var a: int, b: int, c: int, d: int := report[0], report[1], report[2], report[3];
            CidOf(report) == 0x100_0000 * a + 0x1_0000 * b + 0x100 * c + d
    ensures var a: int, b: int := report[5], report[6]; Word(report, 5, 2) == 0x100 * a + b
  {
    hide Word;
    WordMore(report, 0, 0);
    WordMore(report, 0, 1);
    WordMore(report, 0, 2);
    WordMore(report, 0, 3);
    WordMore(report, 5, 0);
    WordMore(report, 5, 1);
  }

  /** Every report of a response has 64 bytes and begins with the channel id. The first goes on with the
      command, its top bit set, and the length; a later one with its number. Then come 57 or 59 bytes of the
      data, or zeros behind its end. */
  lemma FragmentBytes(cid: u32, cmd: byte, data: seq<byte>, k: nat)
    requires |data| < 0x1_0000 && k < FragmentCount(|data|)
    ensures var r := Fragment(cid, cmd, data, k);
            && |r| == 64
            && r[..4] == [cid / 0x100_0000, cid / 0x1_0000 % 0x100, cid / 0x100 % 0x100, cid % 0x100]
            && (k == 0 ==> r[4] == (if cmd < 128 then cmd + 128 else cmd) && r[5] == |data| / 0x100)
            && (k == 0 ==> r[6] == |data| % 0x100)
            && (k == 0 ==> forall i | 7 <= i < 64 :: r[i] == ByteOr0(data, i - 7))
            && (k > 0 ==> r[4] == (k - 1) % 256)
            && (k > 0 ==> forall i | 5 <= i < 64 :: r[i] == ByteOr0(data, 57 + 59 * (k - 1) + (i - 5)))
  {
    hide BigEndian, Fragment;
    BigEndian4(cid);
    BigEndian2(|data|);
    if k == 0 {
      FirstFragment(cid, cmd, data);
    } else {
      CountCarries(|data|, k);
      NextFragment(cid, cmd, data, k);
    }
  }

  function ByteOr0(data: seq<byte>, i: nat): byte
  {
    if i < |data| then data[i] else 0
  }

  lemma CountCarries(n: nat, k: nat)
    requires 1 <= k < FragmentCount(n)
    ensures Carried(n, k) == 57 + 59 * (k - 1) < n
    ensures Carried(n, k + 1) == if n < 57 + 59 * k then n else 57 + 59 * k
  {
  }

  /** As many reports as the data needs and no more. */
  lemma CountIsLeast(n: nat)
    ensures var c := FragmentCount(n); c >= 1 && n <= 57 + 59 * (c - 1) && (c > 1 ==> n > 57 + 59 * (c - 2))
  {
  }

  /** What a continuation report does: on an unknown or idle channel nothing; out of sequence it drops the
      message; in sequence it adds 59 bytes, or the rest, with which the message is handed over. */
  lemma Continuation(chs: seq<Channel>, report: seq<byte>, now: nat, draws: seq<u32>, i: nat)
    requires Inv(chs) && |report| >= 64 && report[4] < 128
    requires i < 8 && chs[i].inUse && chs[i].cid == CidOf(report)
    ensures var (chs', out) := Step(chs, Incoming(report, now, draws));
            var ch, had := chs[i], |chs[i].msg|;
            if ch.totalLen == 0 then chs' == chs && out == []
            else if report[4] != ch.nextSeq then chs' == chs[i := ch.(totalLen := 0, msg := [])] && out == []
            else if had + 59 < ch.totalLen then
              var longer := ch.(nextSeq := ch.nextSeq + 1, lastActive := now, msg := ch.msg + report[5..64]);
              chs' == chs[i := longer] && out == []
            else out == [Dispatch(ch.cid, ch.cmd, ch.msg + report[5..5 + (ch.totalLen - had)])]
  {
    hide CidOf, CidsOk, FindFrom, CarryOut, InitPacket;
    FindUnique(chs, chs[i].cid, i);
    assert MessageOk(chs[i]);
    var ch := chs[i];
    if ch.totalLen > 0 && |ch.msg| + 59 >= ch.totalLen {
      var whole := ch.msg + report[5..5 + (ch.totalLen - |ch.msg|)];
      assert whole[..ch.totalLen] == whole;
    }
  }

  lemma Ignored(chs: seq<Channel>, report: seq<byte>, now: nat, draws: seq<u32>)
    requires Inv(chs)
    requires var unknown := |report| >= 64 && forall i | 0 <= i < 8 :: !chs[i].inUse || chs[i].cid != CidOf(report);
             || |report| < 64
             || (report[4] < 128 && unknown)
             || (report[4] >= 128 && report[4] != 0x86 && (unknown || Word(report, 5, 2) > 7609))
    ensures Step(chs, Incoming(report, now, draws)) == (chs, [])
  {
    hide CidOf, CidsOk, CarryOut, Alloc, Begin, Word, MessageOk, Complete;
  }

  /** What a command other than INIT on a channel in use does: up to 57 bytes are handed over at once, up to 7609
      begin a message in place of any unfinished one. */
  lemma Initialization(chs: seq<Channel>, report: seq<byte>, now: nat, draws: seq<u32>, i: nat)
    requires Inv(chs) && |report| >= 64 && report[4] >= 128 && report[4] != 0x86 && Word(report, 5, 2) <= 7609
    requires i < 8 && chs[i].inUse && chs[i].cid == CidOf(report)
    ensures var (chs', out) := Step(chs, Incoming(report, now, draws));
            var cmd, total := report[4] - 128, Word(report, 5, 2);
            if total <= 57 then
              var idle := chs[i].(cmd := cmd, totalLen := 0, nextSeq := 0, lastActive := now, msg := []);
              chs' == chs[i := idle] && out == [Dispatch(chs[i].cid, cmd, report[7..7 + total])]
            else
              chs' == chs[i := Channel(chs[i].cid, true, cmd, total, 0, report[7..64], now)] && out == []
  {
    hide CidOf, CidsOk, FindFrom, Alloc, Word, MessageOk;
    FindUnique(chs, chs[i].cid, i);
    UnreservedCid(chs, i);
    var total := Word(report, 5, 2);
    if total <= 57 {
      assert report[7..7 + total][..total] == report[7..7 + total];
    }
  }

  // ----- reassembly ----------------------------------------------------------------------------

  ghost predicate AddressedTo(ev: Event, cid: u32)
  {
    ev.Incoming? && |ev.report| >= REPORT_SIZE && CidOf(ev.report) == cid
  }

  /** Whether handling the event takes a slot of the channel table. */
  ghost predicate Allocates(chs: seq<Channel>, ev: Event)
    requires |chs| == CHANNELS
  {
    && ev.Incoming? && |ev.report| >= REPORT_SIZE
    && if ev.report[4] >= 128 then
         var total := Word(ev.report, 5, 2);
         && ev.report[4] % 128 == CMD_INIT
         && (8 <= total <= INIT_DATA || (INIT_DATA < total <= MAX_MESSAGE && CidOf(ev.report) == BROADCAST))
       else
         var i := Find(chs, CidOf(ev.report));
         && i != -1 && chs[i].cmd == CMD_INIT && chs[i].totalLen > 0 && ev.report[4] == chs[i].nextSeq
         && |chs[i].msg| + CONT_DATA >= chs[i].totalLen
  }

  /** The table when a slot is taken: a continuation packet has just been active on its own channel. */
  ghost function Touched(chs: seq<Channel>, ev: Event): (chs': seq<Channel>)
    requires |chs| == CHANNELS && ev.Incoming? && |ev.report| >= REPORT_SIZE
    ensures |chs'| == CHANNELS
  {
    var j := Find(chs, CidOf(ev.report));
    if ev.report[4] < 128 && j != -1 then chs[j := chs[j].(lastActive := ev.now)] else chs
  }

  /** The event does not evict this channel and does not time it out. */
  ghost predicate Calm(chs: seq<Channel>, ev: Event, cid: u32)
    requires |chs| == CHANNELS
  {
    && (Allocates(chs, ev) ==> AllocSlot(Touched(chs, ev)) != Find(chs, cid))
    && (ev.Sweep? && Find(chs, cid) != -1 ==> SweepOne(chs[Find(chs, cid)], ev.now) == chs[Find(chs, cid)])
  }

  ghost predicate CalmRun(chs: seq<Channel>, evs: seq<Event>, cid: u32)
    requires |chs| == CHANNELS
    decreases |evs|
  {
    evs == [] || (Calm(chs, evs[0], cid) && CalmRun(Step(chs, evs[0]).0, evs[1..], cid))
  }

  /** The reports of a run that carry this channel id. */
  ghost function ReportsTo(evs: seq<Event>, cid: u32): seq<seq<byte>>
    decreases |evs|
  {
    if evs == [] then []
    else (if AddressedTo(evs[0], cid) then [evs[0].report] else []) + ReportsTo(evs[1..], cid)
  }

  function DispatchedTo(out: seq<Dispatch>, cid: u32): seq<Dispatch>
  {
    if out == [] then []
    else if out[0].cid == cid then [out[0]] + DispatchedTo(out[1..], cid)
    else DispatchedTo(out[1..], cid)
  }

  lemma {:induction false} DispatchedConcat(a: seq<Dispatch>, b: seq<Dispatch>, cid: u32)
    ensures DispatchedTo(a + b, cid) == DispatchedTo(a, cid) + DispatchedTo(b, cid)
  {
    if a == [] {
      assert a + b == b;
    } else {
      DispatchedConcat(a[1..], b, cid);
      assert (a + b)[0] == a[0] && (a + b)[1..] == a[1..] + b;
      ConcatAssoc([a[0]], DispatchedTo(a[1..], cid), DispatchedTo(b, cid));
    }
  }

  lemma FindUnique(chs: seq<Channel>, cid: u32, i: nat)
    requires CidsOk(chs) && i < |chs| && chs[i].inUse && chs[i].cid == cid
    ensures Find(chs, cid) == i
  {
  }

  ghost predicate SameUse(chs: seq<Channel>, chs': seq<Channel>)
  {
    && |chs| == |chs'|
    && forall j | 0 <= j < |chs| :: chs'[j].inUse == chs[j].inUse && chs'[j].lastActive == chs[j].lastActive
  }

  lemma {:induction false} FreeSame(chs: seq<Channel>, chs': seq<Channel>, from: nat)
    requires from <= |chs| && SameUse(chs, chs')
    ensures FreeFrom(chs', from) == FreeFrom(chs, from)
    decreases |chs| - from
  {
    if from < |chs| {
      FreeSame(chs, chs', from + 1);
    }
  }

  lemma {:induction false} OldestSame(chs: seq<Channel>, chs': seq<Channel>, n: nat)
    requires 0 < n <= |chs| && SameUse(chs, chs')
    ensures OldestOf(chs', n) == OldestOf(chs, n)
  {
    if n > 1 {
      OldestSame(chs, chs', n - 1);
    }
  }

  lemma SlotSame(chs: seq<Channel>, chs': seq<Channel>)
    requires |chs| == CHANNELS && SameUse(chs, chs')
    ensures AllocSlot(chs') == AllocSlot(chs)
  {
    hide FreeFrom, OldestOf;
    FreeSame(chs, chs', 0);
    OldestSame(chs, chs', CHANNELS);
  }

  /** Handing over a message of another channel leaves slot `i` alone unless it evicts it. */
  lemma CompleteElsewhere(chs: seq<Channel>, j: nat, draws: seq<u32>, now: nat, i: nat)
    requires |chs| == CHANNELS && j < CHANNELS && chs[j].totalLen <= |chs[j].msg|
    requires i < CHANNELS && i != j && chs[i].inUse
    requires chs[j].cmd == CMD_INIT ==> AllocSlot(chs) != i
    ensures var r := Complete(chs, j, draws, now); r.0[i] == chs[i] && |r.1| == 1 && r.1[0].cid == chs[j].cid
  {
  }

  lemma InitElsewhere(chs: seq<Channel>, ev: Event, cid: u32, i: nat)
    requires Inv(chs) && ev.Incoming? && |ev.report| >= REPORT_SIZE && ev.report[4] >= 128
    requires i < CHANNELS && chs[i].inUse && chs[i].cid == cid && CidOf(ev.report) != cid && Calm(chs, ev, cid)
    ensures var r := InitPacket(chs, ev.report, ev.now, ev.draws);
            r.0[i] == chs[i] && forall k | 0 <= k < |r.1| :: r.1[k].cid != cid
  {
    hide Word, CidsOk, PickCid, MessageOk, AllocSlot;
    FindUnique(chs, cid, i);
    var other, cmd, total := CidOf(ev.report), ev.report[4] % 128, Word(ev.report, 5, 2);
    if !(cmd == CMD_INIT && total <= INIT_DATA) && total <= MAX_MESSAGE && other != BROADCAST {
      var j := Find(chs, other);
      if j != -1 {
        BeginElsewhere(chs, j, ev.report, cmd, total, ev.draws, ev.now, i);
      }
    }
  }

  lemma BeginElsewhere(
    chs: seq<Channel>, j: nat, report: seq<byte>, cmd: byte, total: nat, draws: seq<u32>, now: nat, i: nat)
    requires |chs| == CHANNELS && j < CHANNELS && |report| >= REPORT_SIZE
    requires i < CHANNELS && i != j && chs[i].inUse && (cmd == CMD_INIT ==> total > INIT_DATA)
    ensures var r := Begin(chs, j, report, cmd, total, draws, now);
            r.0[i] == chs[i] && forall k | 0 <= k < |r.1| :: r.1[k].cid == chs[j].cid
  {
    hide Complete;
    var chunk := if total > INIT_DATA then INIT_DATA else total;
    var ch := chs[j].(cmd := cmd, totalLen := total, nextSeq := 0, lastActive := now, msg := report[7..7 + chunk]);
    if chunk >= total {
      CompleteElsewhere(chs[j := ch], j, draws, now, i);
    }
  }

  lemma ContElsewhere(chs: seq<Channel>, ev: Event, cid: u32, i: nat)
    requires Inv(chs) && ev.Incoming? && |ev.report| >= REPORT_SIZE && ev.report[4] < 128
    requires i < CHANNELS && chs[i].inUse && chs[i].cid == cid && CidOf(ev.report) != cid && Calm(chs, ev, cid)
    ensures var r := ContPacket(chs, ev.report, ev.now, ev.draws);
            r.0[i] == chs[i] && forall k | 0 <= k < |r.1| :: r.1[k].cid != cid
  {
    hide Word, CidsOk, Complete, AllocSlot;
    FindUnique(chs, cid, i);
    var j := Find(chs, CidOf(ev.report));
    if j != -1 && chs[j].totalLen != 0 && ev.report[4] == chs[j].nextSeq {
      var ch := chs[j];
      assert MessageOk(ch);
      var remaining := ch.totalLen - |ch.msg|;
      var chunk := if remaining < CONT_DATA then remaining else CONT_DATA;
      var ch' := ch.(nextSeq := ch.nextSeq + 1, lastActive := ev.now, msg := ch.msg + ev.report[5..5 + chunk]);
      if |ch'.msg| >= ch'.totalLen {
        SlotSame(Touched(chs, ev), chs[j := ch']);
        CompleteElsewhere(chs[j := ch'], j, ev.draws, ev.now, i);
      }
    }
  }

  /** Events that are not addressed to a channel neither change it nor dispatch for it. */
  lemma StepElsewhere(chs: seq<Channel>, ev: Event, cid: u32)
    requires Inv(chs) && Find(chs, cid) != -1 && !AddressedTo(ev, cid) && Calm(chs, ev, cid)
    ensures var (chs', out) := Step(chs, ev);
            && Inv(chs') && Find(chs', cid) == Find(chs, cid) && chs'[Find(chs, cid)] == chs[Find(chs, cid)]
            && DispatchedTo(out, cid) == []
  {
    hide InitPacket, ContPacket, CidOf, MessageOk, FindFrom;
    StepKeepsInv(chs, ev);
    var i := Find(chs, cid);
    if ev.Incoming? && |ev.report| >= REPORT_SIZE {
      if ev.report[4] >= 128 { InitElsewhere(chs, ev, cid, i); } else { ContElsewhere(chs, ev, cid, i); }
    }
    NoneDispatched(Step(chs, ev).1, cid);
    FindUnique(Step(chs, ev).0, cid, i);
  }

  lemma {:induction false} NoneDispatched(out: seq<Dispatch>, cid: u32)
    requires forall k | 0 <= k < |out| :: out[k].cid != cid
    ensures DispatchedTo(out, cid) == []
  {
    if out != [] {
      NoneDispatched(out[1..], cid);
    }
  }

  /** The channel has taken in the first `k` fragments of the message. */
  ghost predicate MidMessage(ch: Channel, cmd: byte, data: seq<byte>, k: nat)
    requires k >= 1
  {
    ch.cmd == cmd && ch.totalLen == |data| && ch.nextSeq == k - 1 && ch.msg == data[..Carried(|data|, k)]
  }

  /** The first fragment opens the message, or completes it when there is only one. */
  lemma FirstStep(chs: seq<Channel>, ev: Event, cid: u32, cmd: byte, data: seq<byte>)
    requires Inv(chs) && Find(chs, cid) != -1 && cmd < 128 && cmd != CMD_INIT && |data| <= MAX_MESSAGE
    requires ev.Incoming? && ev.report == Fragment(cid, cmd, data, 0)
    ensures var (chs', out) := Step(chs, ev);
            var i := Find(chs, cid);
            && Inv(chs') && Find(chs', cid) == i
            && if FragmentCount(|data|) == 1 then out == [Dispatch(cid, cmd, data)]
               else out == [] && MidMessage(chs'[i], cmd, data, 1)
  {
    hide Word, Fragment, CidsOk, CidOf, FindFrom, MessageOk;
    InitFragmentFields(cid, cmd, data);
    StepKeepsInv(chs, ev);
    var i := Find(chs, cid);
    UnreservedCid(chs, i);
    assert data[..|data|] == data;
    assert FragmentCount(|data|) == 1 <==> |data| <= INIT_DATA;
    assert Step(chs, ev).0[i].inUse && Step(chs, ev).0[i].cid == cid;
    FindUnique(Step(chs, ev).0, cid, i);
  }

  lemma UnreservedCid(chs: seq<Channel>, i: nat)
    requires Inv(chs) && i < CHANNELS && chs[i].inUse
    ensures chs[i].cid != 0 && chs[i].cid != BROADCAST
  {
  }

  /** Each further fragment extends the message, and the last one completes it. */
  lemma NextStep(chs: seq<Channel>, ev: Event, cid: u32, cmd: byte, data: seq<byte>, k: nat)
    requires Inv(chs) && Find(chs, cid) != -1 && cmd < 128 && cmd != CMD_INIT && |data| <= MAX_MESSAGE
    requires 1 <= k < FragmentCount(|data|) && MidMessage(chs[Find(chs, cid)], cmd, data, k)
    requires ev.Incoming? && ev.report == Fragment(cid, cmd, data, k)
    ensures var (chs', out) := Step(chs, ev);
            var i := Find(chs, cid);
            && Inv(chs') && Find(chs', cid) == i
            && if k + 1 == FragmentCount(|data|) then out == [Dispatch(cid, cmd, data)]
               else out == [] && MidMessage(chs'[i], cmd, data, k + 1)
  {
    hide Word, Fragment, CidsOk, CidOf, FindFrom, MessageOk, Complete, InitPacket;
    MiddleCount(|data|, k);
    ContFragmentFields(cid, cmd, data, k);
    StepKeepsInv(chs, ev);
    var i := Find(chs, cid);
    var from, to := Carried(|data|, k), Carried(|data|, k + 1);
    assert data[..from] + data[from..to] == data[..to];
    assert data[..|data|] == data;
    var ch := chs[i].(nextSeq := k, lastActive := ev.now, msg := data[..to]);
    if to == |data| {
      CompletePlain(chs[i := ch], i, ev.draws, ev.now);
    }
    assert Step(chs, ev).0[i].inUse && Step(chs, ev).0[i].cid == cid;
    FindUnique(Step(chs, ev).0, cid, i);
  }

  lemma CompletePlain(chs: seq<Channel>, i: nat, draws: seq<u32>, now: nat)
    requires |chs| == CHANNELS && i < CHANNELS && chs[i].totalLen <= |chs[i].msg| && chs[i].cmd != CMD_INIT
    ensures var idle := chs[i].(totalLen := 0, msg := []);
            var message := Dispatch(chs[i].cid, chs[i].cmd, chs[i].msg[..chs[i].totalLen]);
            Complete(chs, i, draws, now) == (chs[i := idle], [message])
  {
  }

  lemma MiddleCount(n: nat, k: nat)
    requires n <= MAX_MESSAGE && 1 <= k < FragmentCount(n)
    ensures k <= 128 && Carried(n, k) < n && Carried(n, k) == INIT_DATA + CONT_DATA * (k - 1)
    ensures Carried(n, k + 1) == n <==> k + 1 == FragmentCount(n)
    ensures Carried(n, k + 1) == if n - Carried(n, k) < CONT_DATA then n else Carried(n, k) + CONT_DATA
  {
  }

  /** Once `k` fragments are in, the rest of the run dispatches the message exactly once; after the
      last fragment it dispatches nothing more. */
  lemma {:induction false} ReassembleRest(
    chs: seq<Channel>, evs: seq<Event>, cid: u32, cmd: byte, data: seq<byte>, k: nat)
    requires Inv(chs) && Find(chs, cid) != -1 && CalmRun(chs, evs, cid)
    requires cmd < 128 && cmd != CMD_INIT && |data| <= MAX_MESSAGE && k <= FragmentCount(|data|)
    requires 0 < k < FragmentCount(|data|) ==> MidMessage(chs[Find(chs, cid)], cmd, data, k)
    requires ReportsTo(evs, cid) == Fragments(cid, cmd, data)[k..]
    ensures DispatchedTo(Run(chs, evs).1, cid)
         == if k < FragmentCount(|data|) then [Dispatch(cid, cmd, data)] else []
    decreases |evs|
  {
    hide Step, CidsOk, MessageOk, Fragment, Find, Calm, AddressedTo;
    if evs == [] {
      assert |Fragments(cid, cmd, data)[k..]| == 0;
    } else {
      var (chs', out) := Step(chs, evs[0]);
      DispatchedConcat(out, Run(chs', evs[1..]).1, cid);
      if AddressedTo(evs[0], cid) {
        HeadOfReports(evs, cid);
        assert k < FragmentCount(|data|);
        assert evs[0].report == Fragments(cid, cmd, data)[k..][0] == Fragment(cid, cmd, data, k);
        assert Fragments(cid, cmd, data)[k..][1..] == Fragments(cid, cmd, data)[k + 1..];
        FragmentStep(chs, evs[0], cid, cmd, data, k);
        ReassembleRest(chs', evs[1..], cid, cmd, data, k + 1);
      } else {
        StepElsewhere(chs, evs[0], cid);
        assert ReportsTo(evs, cid) == ReportsTo(evs[1..], cid);
        ReassembleRest(chs', evs[1..], cid, cmd, data, k);
      }
    }
  }

  lemma HeadOfReports(evs: seq<Event>, cid: u32)
    requires evs != [] && AddressedTo(evs[0], cid)
    ensures evs[0].Incoming? && |ReportsTo(evs, cid)| > 0 && ReportsTo(evs, cid)[0] == evs[0].report
    ensures ReportsTo(evs, cid)[1..] == ReportsTo(evs[1..], cid)
  {
  }

  /** Taking in fragment `k`: a dispatch exactly at the last fragment. */
  lemma FragmentStep(chs: seq<Channel>, ev: Event, cid: u32, cmd: byte, data: seq<byte>, k: nat)
    requires Inv(chs) && Find(chs, cid) != -1 && cmd < 128 && cmd != CMD_INIT && |data| <= MAX_MESSAGE
    requires k < FragmentCount(|data|) && (k > 0 ==> MidMessage(chs[Find(chs, cid)], cmd, data, k))
    requires AddressedTo(ev, cid) && ev.report == Fragment(cid, cmd, data, k)
    ensures var (chs', out) := Step(chs, ev);
            && Inv(chs') && Find(chs', cid) != -1
            && (k + 1 < FragmentCount(|data|) ==> MidMessage(chs'[Find(chs', cid)], cmd, data, k + 1))
            && DispatchedTo(out, cid) == if k + 1 == FragmentCount(|data|) then [Dispatch(cid, cmd, data)] else []
  {
    hide Step, CidsOk, MessageOk, Fragment, Find;
    if k == 0 {
      FirstStep(chs, ev, cid, cmd, data);
    } else {
      NextStep(chs, ev, cid, cmd, data, k);
    }
    OneDispatched(Dispatch(cid, cmd, data));
  }

  lemma OneDispatched(x: Dispatch)
    ensures DispatchedTo([x], x.cid) == [x] && DispatchedTo([], x.cid) == []
  {
    assert [x][1..] == [];
  }

  /** Any message of up to 7609 bytes, cut into reports by the fragmenter and interleaved arbitrarily with
      other traffic, is dispatched on its channel exactly once, with the same command and bytes. */
  lemma ReassemblyIsExact(chs: seq<Channel>, evs: seq<Event>, cid: u32, cmd: byte, data: seq<byte>)
    requires Inv(chs) && Find(chs, cid) != -1 && CalmRun(chs, evs, cid)
    requires cmd < 128 && cmd != CMD_INIT && |data| <= MAX_MESSAGE
    requires ReportsTo(evs, cid) == Fragments(cid, cmd, data)
    ensures DispatchedTo(Run(chs, evs).1, cid) == [Dispatch(cid, cmd, data)]
  {
    hide Fragment, CidsOk, MessageOk, Find, CalmRun, ReportsTo, Run;
    assert Fragments(cid, cmd, data)[0..] == Fragments(cid, cmd, data);
    ReassembleRest(chs, evs, cid, cmd, data, 0);
  }

  // ----- the transport object --------------------------------------------------------------------

  class Transport {
    var channels: seq<Channel>

    predicate Valid()
      reads this
    {
      |channels| == CHANNELS
    }

    constructor ()
      ensures Valid() && channels == IDLE_TABLE && Inv(channels)
    {
      channels := IDLE_TABLE;
      IdleTableInv();
    }

    method FindChannel(cid: u32) returns (i: int)
      requires Valid()
      ensures i == Find(channels, cid)
      ensures 0 <= i < 8 || (i == -1 && forall j | 0 <= j < 8 :: !channels[j].inUse || channels[j].cid != cid)
    {
      i := 0;
      while i < CHANNELS
        invariant 0 <= i <= CHANNELS && FindFrom(channels, cid, i) == Find(channels, cid)
      {
        if channels[i].inUse && channels[i].cid == cid {
          return;
        }
        i := i + 1;
      }
      i := -1;
    }

    method SlotToUse() returns (slot: nat)
      requires Valid()
      ensures slot == AllocSlot(channels) && slot < 8
      ensures !channels[slot].inUse || forall j | 0 <= j < 8 ::
                channels[j].inUse && channels[slot].lastActive <= channels[j].lastActive
      ensures forall j | 0 <= j < slot ::
                channels[j].inUse && (channels[slot].inUse ==> channels[slot].lastActive < channels[j].lastActive)
    {
      var i := 0;
      while i < CHANNELS
        invariant 0 <= i <= CHANNELS && FreeFrom(channels, i) == FreeFrom(channels, 0)
      {
        if !channels[i].inUse {
          return i;
        }
        i := i + 1;
      }
      slot := 0;
      for j := 1 to CHANNELS
        invariant slot == OldestOf(channels, j)
      {
        if channels[j].lastActive < channels[slot].lastActive {
          slot := j;
        }
      }
    }

    method DrawCid(draws: seq<u32>) returns (r: Option<u32>)
      requires Valid()
      ensures r == PickCid(channels, draws, MAX_DRAWS)
      ensures r.Some? ==> r.value in draws[..if |draws| < 64 then |draws| else 64]
      ensures r.Some? ==> r.value != 0 && r.value != 0xFFFF_FFFF
      ensures r.Some? ==> forall j | 0 <= j < 8 :: !channels[j].inUse || channels[j].cid != r.value
      ensures r.None? ==> forall k | 0 <= k < 64 && k < |draws| ::
                draws[k] == 0 || draws[k] == 0xFFFF_FFFF || Find(channels, draws[k]) != -1
    {
      hide Find;
      var attempts := 0;
      while attempts < MAX_DRAWS && attempts < |draws|
        invariant 0 <= attempts <= |draws| && attempts <= MAX_DRAWS
        invariant PickCid(channels, draws[attempts..], MAX_DRAWS - attempts) == PickCid(channels, draws, MAX_DRAWS)
        invariant forall k | 0 <= k < attempts ::
                    draws[k] == 0 || draws[k] == BROADCAST || Find(channels, draws[k]) != -1
      {
        var cid := draws[attempts];
        var taken := FindChannel(cid);
        if cid != 0 && cid != BROADCAST && taken == -1 {
          return Some(cid);
        }
        assert draws[attempts..][1..] == draws[attempts + 1..];
        attempts := attempts + 1;
      }
      return None;
    }

    method AllocChannel(draws: seq<u32>, now: nat) returns (slot: int)
      requires Valid()
      modifies this
      ensures Valid() && (channels, slot) == Alloc(old(channels), draws, now)
      ensures forall i | 0 <= i < 8 && i != AllocSlot(old(channels)) :: channels[i] == old(channels)[i]
      ensures slot != -1 ==> slot == AllocSlot(old(channels)) && channels[slot].cid in draws
      ensures slot != -1 ==> channels[slot] == Channel(channels[slot].cid, true, 0, 0, 0, [], now)
    {
      hide AllocSlot, PickCid;
      slot := SlotToUse();
      channels := channels[slot := BLANK];
      var cid := DrawCid(draws);
      if cid.None? {
        return -1;
      }
      channels := channels[slot := BLANK.(cid := cid.value, inUse := true, lastActive := now)];
    }

    /** Carries out a command; only INIT touches the table. */
    method DispatchMessage(cmd: byte, data: seq<byte>, draws: seq<u32>, now: nat)
      requires Valid()
      modifies this
      ensures Valid() && channels == CarryOut(old(channels), cmd, data, draws, now)
    {
      if cmd == CMD_INIT {
        if |data| < 8 {
          return;
        }
        var _ := AllocChannel(draws, now);
      }
    }

    method CompleteMessage(i: nat, draws: seq<u32>, now: nat) returns (out: seq<Dispatch>)
      requires Valid() && i < CHANNELS && channels[i].totalLen <= |channels[i].msg|
      modifies this
      ensures Valid() && (channels, out) == Complete(old(channels), i, draws, now)
    {
      var ch := channels[i];
      out := [Dispatch(ch.cid, ch.cmd, ch.msg[..ch.totalLen])];
      DispatchMessage(ch.cmd, ch.msg[..ch.totalLen], draws, now);
      channels := channels[i := channels[i].(totalLen := 0, msg := [])];
    }

    method BeginMessage(i: nat, report: seq<byte>, cmd: byte, total: nat, draws: seq<u32>, now: nat)
      returns (out: seq<Dispatch>)
      requires Valid() && i < CHANNELS && |report| >= REPORT_SIZE
      modifies this
      ensures Valid() && (channels, out) == Begin(old(channels), i, report, cmd, total, draws, now)
    {
      hide Complete;
      var chunk := total;
      if chunk > INIT_DATA {
        chunk := INIT_DATA;
      }
      var ch := channels[i].(cmd := cmd, totalLen := total, nextSeq := 0, lastActive := now);
      channels := channels[i := ch.(msg := report[7..7 + chunk])];
      if chunk >= total {
        out := CompleteMessage(i, draws, now);
      } else {
        out := [];
      }
    }

    /** Handles one report from the host and returns the messages it completes. */
    method ProcessReport(report: seq<byte>, now: nat, draws: seq<u32>) returns (out: seq<Dispatch>)
      requires Valid() && Inv(channels)
      modifies this
      ensures Valid() && Inv(channels)
      ensures (channels, out) == Step(old(channels), Incoming(report, now, draws))
    {
      StepKeepsInv(channels, Incoming(report, now, draws));
      if |report| < REPORT_SIZE {
        return [];
      }
      if report[4] >= 128 {
        out := ProcessInit(report, now, draws);
      } else {
        out := ProcessContinuation(report, now, draws);
      }
    }

    method ProcessInit(report: seq<byte>, now: nat, draws: seq<u32>) returns (out: seq<Dispatch>)
      requires Valid() && |report| >= REPORT_SIZE
      modifies this
      ensures Valid() && (channels, out) == InitPacket(old(channels), report, now, draws)
    {
      hide Alloc, Begin, CarryOut, Word, Find;
      var cid, cmd, total := CidOf(report), report[4] % 128, Word(report, 5, 2);
      if cmd == CMD_INIT && total <= INIT_DATA {
        DispatchMessage(cmd, report[7..7 + total], draws, now);
        return [Dispatch(cid, cmd, report[7..7 + total])];
      }
      if total > MAX_MESSAGE {
        return [];
      }
      var i;
      if cid == BROADCAST {
        if cmd != CMD_INIT {
          return [];
        }
        i := AllocChannel(draws, now);
      } else {
        i := FindChannel(cid);
      }
      if i == -1 {
        return [];
      }
      out := BeginMessage(i, report, cmd, total, draws, now);
    }

    method ProcessContinuation(report: seq<byte>, now: nat, draws: seq<u32>) returns (out: seq<Dispatch>)
      requires Valid() && |report| >= REPORT_SIZE
      modifies this
      ensures Valid() && (channels, out) == ContPacket(old(channels), report, now, draws)
    {
      hide Complete, Word;
      var i := FindChannel(CidOf(report));
      if i == -1 || channels[i].totalLen == 0 {
        return [];
      }
      var ch := channels[i];
      if report[4] != ch.nextSeq {
        channels := channels[i := ch.(totalLen := 0, msg := [])];
        return [];
      }
      ch := ch.(nextSeq := (ch.nextSeq + 1) % 256, lastActive := now);
      var remaining := if ch.totalLen > |ch.msg| then ch.totalLen - |ch.msg| else 0;
      var chunk := if remaining < CONT_DATA then remaining else CONT_DATA;
      if |ch.msg| + chunk > MAX_MESSAGE {
        channels := channels[i := ch.(totalLen := 0, msg := [])];
        return [];
      }
      ch := ch.(msg := ch.msg + report[5..5 + chunk]);
      channels := channels[i := ch];
      if |ch.msg| >= ch.totalLen {
        out := CompleteMessage(i, draws, now);
      } else {
        out := [];
      }
    }

    method SweepStale(now: nat)
      requires Valid() && Inv(channels)
      modifies this
      ensures Valid() && Inv(channels) && (channels, []) == Step(old(channels), Event.Sweep(now))
      ensures forall i | 0 <= i < 8 ::
                var ch := old(channels)[i];
                var stale := ch.inUse && ch.totalLen > 0 && |ch.msg| < ch.totalLen && now - ch.lastActive > 500;
                channels[i] == if stale then ch.(totalLen := 0, msg := []) else ch
    {
      StepKeepsInv(channels, Event.Sweep(now));
      ghost var before := channels;
      for i := 0 to CHANNELS
        invariant Valid()
        invariant forall j | 0 <= j < CHANNELS :: channels[j] == if j < i then SweepOne(before[j], now) else before[j]
      {
        var ch := channels[i];
        if ch.inUse && ch.totalLen > 0 && |ch.msg| < ch.totalLen {
          if now - ch.lastActive > TIMEOUT_MS {
            channels := channels[i := ch.(totalLen := 0, msg := [])];
          }
        }
      }
      assert channels == seq(CHANNELS, i requires 0 <= i < CHANNELS => SweepOne(before[i], now));
    }
  }
}
