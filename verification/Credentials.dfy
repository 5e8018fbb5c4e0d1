/** The resident credential slots and everything that walks over them: storing, replacing, deleting and
    updating credentials, enumerating them for credential management, and answering assertions one
    credential at a time. Signing, user verification, clocks and the outcome of each save are inputs. */
module Credentials {
  import opened Bytes

  const MAX_STORED := 64
  const COUNTER_LIMIT := 0x1_0000_0000
  const CLOCK_LIMIT := 0x1_0000_0000_0000_0000
  const ASSERTION_SECONDS := 30

  /** A stored credential, with its fixed-size buffers and the lengths in use in two of them. */
  datatype Credential = Credential(
    rpId: seq<byte>, rpName: seq<byte>, rpHash: seq<byte>,
    userId: seq<byte>, userIdLen: nat, userName: seq<byte>, displayName: seq<byte>,
    credId: seq<byte>, credIdLen: nat, privateKey: seq<byte>, publicKey: seq<byte>,
    signCount: u32, created: u64, resident: bool, credProtect: byte, hmacSecret: Option<seq<byte>>)

  /** A slot that is not in use holds nothing that is ever read. */
  type Slot = Option<Credential>

  // ----- searching the slots -----------------------------------------------------------------------

  /** What a walk over the slots is looking for. */
  datatype Query =
    | Used
    | Free
    | OfRp(rpHash: seq<byte>)
    | OfUser(rpHash: seq<byte>, userId: seq<byte>)
    | WithId(credId: seq<byte>)
    | Discoverable(rpHash: seq<byte>, verified: bool)

  function Prefix(buffer: seq<byte>, n: nat): (p: seq<byte>)
    ensures p <= buffer && (n <= |buffer| ==> |p| == n)
  {
    if n <= |buffer| then buffer[..n] else buffer
  }

  predicate Meets(slot: Slot, q: Query)
  {
    match q
    case Used => slot.Some?
    case Free => slot.None?
    case OfRp(rp) => slot.Some? && slot.value.rpHash == rp
    case OfUser(rp, user) =>
      slot.Some? && slot.value.rpHash == rp && Prefix(slot.value.userId, slot.value.userIdLen) == user
    case WithId(id) => slot.Some? && Prefix(slot.value.credId, slot.value.credIdLen) == id
    case Discoverable(rp, verified) =>
      && slot.Some? && slot.value.rpHash == rp
      && slot.value.credProtect < 3 && (slot.value.credProtect >= 2 ==> verified)
  }

  /** The slots below n that meet the query, in slot order. */
  function Matching(slots: seq<Slot>, q: Query, n: nat): (m: seq<nat>)
    requires n <= |slots|
    ensures |m| <= n
  {
    if n == 0 then []
    else Matching(slots, q, n - 1) + if Meets(slots[n - 1], q) then [n - 1] else []
  }

  /** Matching lists exactly the slots that meet the query, in increasing order, so each of them once. */
  lemma {:induction false} MatchingExact(slots: seq<Slot>, q: Query, n: nat)
    requires n <= |slots|
    ensures forall k :: k in Matching(slots, q, n) <==> 0 <= k < n && Meets(slots[k], q)
    ensures forall a, b | 0 <= a < b < |Matching(slots, q, n)| :: Matching(slots, q, n)[a] < Matching(slots, q, n)[b]
  {
    hide Meets;
    if n > 0 {
      MatchingExact(slots, q, n - 1);
      var m := Matching(slots, q, n - 1);
      forall a | 0 <= a < |m| ensures m[a] < n - 1 { assert m[a] in m; }
    }
  }

  /** The first slot from i on that meets the query, or the number of slots. */
  function First(slots: seq<Slot>, q: Query, i: nat): (k: nat)
    requires i <= |slots|
    ensures i <= k <= |slots|
    ensures k < |slots| ==> Meets(slots[k], q)
    decreases |slots| - i
  {
    if i == |slots| || Meets(slots[i], q) then i else First(slots, q, i + 1)
  }

  lemma {:induction false} FirstIsLeast(slots: seq<Slot>, q: Query, i: nat, k: nat)
    requires i <= k < |slots| && Meets(slots[k], q)
    ensures First(slots, q, i) <= k
    decreases |slots| - i
  {
    hide Meets;
    if !Meets(slots[i], q) {
      FirstIsLeast(slots, q, i + 1, k);
    }
  }

  method FindFirst(slots: seq<Slot>, q: Query) returns (k: nat)
    ensures k == First(slots, q, 0)
    ensures forall j | 0 <= j < k :: !Meets(slots[j], q)
  {
    hide Meets;
    k := 0;
    while k < |slots| && !Meets(slots[k], q)
      invariant k <= |slots| && First(slots, q, k) == First(slots, q, 0)
      invariant forall j | 0 <= j < k :: !Meets(slots[j], q)
    {
      k := k + 1;
    }
  }

  /** Collects the matching slots; the capacity of the list is the number of slots, so it never fills. */
  method Collect(slots: seq<Slot>, q: Query) returns (m: seq<nat>)
    ensures m == Matching(slots, q, |slots|)
  {
    hide Meets;
    m := [];
    for k := 0 to |slots|
      invariant m == Matching(slots, q, k)
    {
      if Meets(slots[k], q) && |m| < |slots| {
        m := m + [k];
      }
    }
  }

  /** The relying parties of the slots below n, each once, in order of first appearance. */
  function Rps(slots: seq<Slot>, n: nat): (r: seq<seq<byte>>)
    requires n <= |slots|
    ensures |r| <= n
  {
    if n == 0 then []
    else
      var r := Rps(slots, n - 1);
      if slots[n - 1].Some? && slots[n - 1].value.rpHash !in r then r + [slots[n - 1].value.rpHash] else r
  }

  lemma {:induction false} RpsExact(slots: seq<Slot>, n: nat)
    requires n <= |slots|
    ensures forall k | 0 <= k < n :: slots[k].Some? ==> slots[k].value.rpHash in Rps(slots, n)
    ensures forall h | h in Rps(slots, n) :: exists k | 0 <= k < n :: slots[k].Some? && slots[k].value.rpHash == h
    ensures forall a, b | 0 <= a < b < |Rps(slots, n)| :: Rps(slots, n)[a] != Rps(slots, n)[b]
  {
    if n > 0 {
      RpsExact(slots, n - 1);
    }
  }

  method CollectRps(slots: seq<Slot>) returns (r: seq<seq<byte>>)
    ensures r == Rps(slots, |slots|)
  {
    r := [];
    for i := 0 to |slots|
      invariant r == Rps(slots, i)
    {
      if slots[i].Some? {
        var seen := false;
        var j := 0;
        while j < |r| && !seen
          invariant j <= |r|
          invariant seen <==> slots[i].value.rpHash in r[..j]
        {
          seen := r[j] == slots[i].value.rpHash;
          j := j + 1;
        }
        assert seen <==> slots[i].value.rpHash in r by { assert r[..|r|] == r; }
        if !seen && |r| < |slots| {
          r := r + [slots[i].value.rpHash];
        }
      }
    }
  }

  // ----- the state ---------------------------------------------------------------------------------

  datatype Store = Store(slots: seq<Slot>, count: nat, counter: u32)

  /** Credential management's enumeration: the relying party, its slots, the next one to return, and the
      same for relying parties. */
  datatype Enumeration = Enumeration(rp: seq<byte>, slots: seq<nat>, next: nat, rps: seq<seq<byte>>, nextRp: nat)

  datatype Assertion = Assertion(matches: seq<nat>, index: nat, stamp: u64)

  datatype State = State(store: Store, disk: Option<Store>, enumeration: Enumeration, assertion: Assertion)

  const NO_ENUMERATION := Enumeration([], [], 0, [], 0)
  const NO_ASSERTION := Assertion([], 0, 0)
  const INITIAL := State(Store(Placed([]), 0, 0), None, NO_ENUMERATION, NO_ASSERTION)

  /** How building a response ends. Failing before the encoder leaves a raised counter raised; failing in the
      encoder takes an assertion's counter back, and leaves a new credential stored but unanswered. */
  datatype Outcome = Built | SigningFails | EncodingFails

  /** What a starting process can read of the file: nothing, its header only, or all of it. */
  datatype Load = Unread | HeaderOnly | Whole

  datatype Event =
    | Make(cred: Credential, discoverable: bool, outcome: Outcome, saved: bool)
    | Delete(credId: seq<byte>, saved: bool)
    | Update(credId: seq<byte>, userId: seq<byte>, userName: seq<byte>, displayName: seq<byte>, saved: bool)
    | BeginCreds(rp: seq<byte>)
    | NextCred
    | BeginRps
    | NextRp
    | Manage
    | Assert(rp: seq<byte>, verified: bool, now: u64, outcome: Outcome, saved: bool)
    | AssertNext(now: u64, outcome: Outcome, saved: bool)
    | AssertWrapped(now: u64, outcome: Outcome, saved: bool)
    | Wipe(saved: bool)
    | Save(saved: bool)
    | Restart(load: Load)
    | Other

  function Wrap32(n: nat): u32 { n % COUNTER_LIMIT }

  function Saved(s: State, saved: bool): State
  {
    if saved then s.(disk := Some(s.store)) else s
  }

  // ----- the slots in plain terms ------------------------------------------------------------------

  predicate HasRp(slot: Slot, rp: seq<byte>)
  {
    slot.Some? && slot.value.rpHash == rp
  }

  /** The credential of the same user at the same relying party. */
  predicate SameUser(slot: Slot, c: Credential)
  {
    && slot.Some? && slot.value.rpHash == c.rpHash
    && Prefix(slot.value.userId, slot.value.userIdLen) == Prefix(c.userId, c.userIdLen)
  }

  predicate HasId(slot: Slot, credId: seq<byte>)
  {
    slot.Some? && Prefix(slot.value.credId, slot.value.credIdLen) == credId
  }

  /** credProtect lets the credential be found without an allowList: level 1 always, level 2 for a verified
      user, level 3 never. */
  predicate Admitted(slot: Slot, rp: seq<byte>, verified: bool)
  {
    slot.Some? && slot.value.rpHash == rp && (slot.value.credProtect <= 1 || (slot.value.credProtect == 2 && verified))
  }

  lemma AllAdmitted(slots: seq<Slot>, rp: seq<byte>, verified: bool)
    ensures forall k | 0 <= k < |slots| ::
              Meets(slots[k], Discoverable(rp, verified)) <==> Admitted(slots[k], rp, verified)
  {
    hide Prefix;
  }

  lemma AllOfRp(slots: seq<Slot>, rp: seq<byte>)
    ensures forall k | 0 <= k < |slots| :: Meets(slots[k], OfRp(rp)) <==> HasRp(slots[k], rp)
  {
    hide Prefix;
  }

  lemma AllWithId(slots: seq<Slot>, credId: seq<byte>)
    ensures forall k | 0 <= k < |slots| :: Meets(slots[k], WithId(credId)) <==> HasId(slots[k], credId)
  {
    hide Prefix;
  }

  lemma AllSameUser(slots: seq<Slot>, c: Credential)
    ensures forall k | 0 <= k < |slots| :: Meets(slots[k], OwnerOf(c)) <==> SameUser(slots[k], c)
    ensures forall k | 0 <= k < |slots| :: SameUser(slots[k], c) ==> slots[k].Some?
  {
    hide Prefix;
  }

  // ----- storing, deleting, restoring --------------------------------------------------------------

  function OwnerOf(c: Credential): Query
  {
    OfUser(c.rpHash, Prefix(c.userId, c.userIdLen))
  }

  /** Where a new credential goes: over the one of the same user at the same relying party, else into the
      first free slot. */
  function TargetSlot(slots: seq<Slot>, c: Credential): nat
  {
    var same := First(slots, OwnerOf(c), 0);
    if same < |slots| then same else First(slots, Free, 0)
  }

  predicate Replaces(slots: seq<Slot>, c: Credential)
  {
    First(slots, OwnerOf(c), 0) < |slots|
  }

  function Stored(c: Credential, counter: u32): Credential
  {
    c.(signCount := counter, resident := true, credProtect := if c.credProtect == 0 then 1 else c.credProtect)
  }

  function MakeNext(s: State, c: Credential, discoverable: bool, outcome: Outcome, saved: bool): State
  {
    var counted := s.store.(counter := Wrap32(s.store.counter + 1));
    var k := TargetSlot(s.store.slots, c);
    if outcome == SigningFails || !discoverable || k == |s.store.slots| then s.(store := counted)
    else
      var slot: Slot := if saved then Some(Stored(c, counted.counter)) else None;
      var added := if saved && !Replaces(s.store.slots, c) then 1 else 0;
      Saved(s.(store := counted.(slots := s.store.slots[k := slot], count := counted.count + added)), saved)
  }

  function DeleteNext(s: State, credId: seq<byte>, saved: bool): State
  {
    var k := First(s.store.slots, WithId(credId), 0);
    if k == |s.store.slots| then s
    else
      var less := if s.store.count > 0 then s.store.count - 1 else 0;
      Saved(s.(store := s.store.(slots := s.store.slots[k := None], count := less)), saved)
  }

  function Renamed(c: Credential, userName: seq<byte>, displayName: seq<byte>): Credential
  {
    c.(userName := if userName == [] then c.userName else userName,
       displayName := if displayName == [] then c.displayName else displayName)
  }

  function UpdateNext(s: State, e: Event): State
    requires e.Update?
  {
    var slots := s.store.slots;
    var k := First(slots, WithId(e.credId), 0);
    if k == |slots| || (e.userId != [] && e.userId != Prefix(slots[k].value.userId, slots[k].value.userIdLen)) then s
    else
      var c := Renamed(slots[k].value, e.userName, e.displayName);
      Saved(s.(store := s.store.(slots := slots[k := Some(c)])), e.saved)
  }

  /** The credentials of the slots below n, in slot order, without their unsaved HMAC secrets. */
  function Compact(slots: seq<Slot>, n: nat): (c: seq<Credential>)
    requires n <= |slots|
    ensures |c| == |Matching(slots, Used, n)|
  {
    if n == 0 then []
    else Compact(slots, n - 1) + if slots[n - 1].Some? then [slots[n - 1].value.(hmacSecret := None)] else []
  }

  /** Credentials one after another from the first slot on. */
  function Placed(creds: seq<Credential>): (slots: seq<Slot>)
    ensures |slots| == MAX_STORED
    ensures forall i | 0 <= i < MAX_STORED :: slots[i] == if i < |creds| then Some(creds[i]) else None
  {
    seq(MAX_STORED, i requires 0 <= i => if i < |creds| then Some(creds[i]) else None)
  }

  /** What loading a saved store gives: its credentials in slot order, as many as its count says. */
  function Restored(saved: Store): Store
  {
    var creds := Compact(saved.slots, |saved.slots|);
    var kept := if saved.count < |creds| then creds[..saved.count] else creds;
    Store(Placed(kept), |kept|, saved.counter)
  }

  /** What a new process starts with: a file that cannot be opened up still gives the counter of its
      header. */
  function Started(disk: Option<Store>, load: Load): Store
  {
    if disk.None? || load == Unread then INITIAL.store
    else if load == HeaderOnly then INITIAL.store.(counter := disk.value.counter)
    else Restored(disk.value)
  }

  // ----- assertions --------------------------------------------------------------------------------

  function CounterAfter(counter: u32, outcome: Outcome): u32
  {
    if outcome == EncodingFails then counter else Wrap32(counter + 1)
  }

  /** The credential in slot k signs: its own counter is raised and, on success, saved. */
  function SignWith(s: State, k: nat, outcome: Outcome, saved: bool): State
  {
    var slots := s.store.slots;
    if k < |slots| && slots[k].Some? then
      var c := slots[k].value.(signCount := CounterAfter(slots[k].value.signCount, outcome));
      Saved(s.(store := s.store.(slots := slots[k := Some(c)])), saved && outcome == Built)
    else s
  }

  function AssertNow(s: State, e: Event): State
    requires e.Assert?
  {
    var m := Matching(s.store.slots, Discoverable(e.rp, e.verified), |s.store.slots|);
    if m == [] then s.(assertion := Assertion([], 0, e.now))
    else SignWith(s.(assertion := Assertion(m, 1, e.now)), m[0], e.outcome, e.saved)
  }

  function Elapsed(now: u64, stamp: u64): nat
  {
    if now >= stamp then now - stamp else now - stamp + CLOCK_LIMIT
  }

  function AssertAgain(s: State, e: Event): State
    requires e.AssertNext?
  {
    var a := s.assertion;
    if Elapsed(e.now, a.stamp) > ASSERTION_SECONDS then s.(assertion := Assertion([], 0, a.stamp))
    else if a.index >= |a.matches| then s
    else SignWith(s.(assertion := a.(index := a.index + 1)), a.matches[a.index], e.outcome, e.saved)
  }

  // ----- the whole machine -------------------------------------------------------------------------

  function NextManaged(s: State, e: Event): State
  {
    var n := s.enumeration;
    var stopped := s.(enumeration := n.(slots := [], rps := []));
    match e
    case Delete(id, saved) => DeleteNext(stopped, id, saved)
    case Update(_, _, _, _, _) => UpdateNext(stopped, e)
    case BeginCreds(rp) =>
      var m := Matching(s.store.slots, OfRp(rp), |s.store.slots|);
      s.(enumeration := n.(rp := rp, slots := m, next := if m == [] then n.next else 1, rps := []))
    case BeginRps =>
      var r := Rps(s.store.slots, |s.store.slots|);
      s.(enumeration := n.(slots := [], rps := r, nextRp := if r == [] then n.nextRp else 1))
    case NextCred => if n.next < |n.slots| then s.(enumeration := n.(next := n.next + 1)) else s
    case NextRp => if n.nextRp < |n.rps| then s.(enumeration := n.(nextRp := n.nextRp + 1)) else s
    case _ => stopped
  }

  predicate Managing(e: Event)
  {
    e.Delete? || e.Update? || e.BeginCreds? || e.NextCred? || e.BeginRps? || e.NextRp? || e.Manage?
  }

  /** Every command other than AssertNext first drops the assertion in progress. */
  function Next(s: State, e: Event): State
  {
    var quiet := s.(assertion := NO_ASSERTION);
    if Managing(e) then NextManaged(quiet, e)
    else
      match e
      case Make(c, discoverable, outcome, saved) => MakeNext(quiet, c, discoverable, outcome, saved)
      case Assert(_, _, _, _, _) => AssertNow(quiet, e)
      case AssertNext(_, _, _) => AssertAgain(s, e)
      case AssertWrapped(now, outcome, saved) =>
        var counted := s.store.(counter := CounterAfter(s.store.counter, outcome));
        Saved(s.(store := counted, assertion := Assertion([], 0, now)), saved && outcome == Built)
      case Wipe(saved) => Saved(quiet.(store := INITIAL.store, enumeration := NO_ENUMERATION), saved)
      case Save(saved) => Saved(quiet, saved)
      case Restart(load) => INITIAL.(disk := s.disk, store := Started(s.disk, load))
      case _ => quiet
  }

  function After(s: State, run: seq<Event>): State
  {
    if run == [] then s else Next(After(s, run[..|run| - 1]), run[|run| - 1])
  }

  // ----- the credential count ----------------------------------------------------------------------

  function UsedCount(slots: seq<Slot>): nat
  {
    |Matching(slots, Used, |slots|)|
  }

  lemma {:induction false} MatchingUpdate(slots: seq<Slot>, q: Query, k: nat, x: Slot, n: nat)
    requires k < |slots| && n <= |slots|
    ensures var same := k >= n || Meets(x, q) == Meets(slots[k], q);
            var change := if same then 0 else if Meets(x, q) then 1 else -1;
            |Matching(slots[k := x], q, n)| == |Matching(slots, q, n)| + change
    ensures Meets(x, q) == Meets(slots[k], q) ==> Matching(slots[k := x], q, n) == Matching(slots, q, n)
  {
    hide Meets;
    if n > 0 {
      MatchingUpdate(slots, q, k, x, n - 1);
    }
  }

  lemma {:induction false} PlacedCount(creds: seq<Credential>, n: nat)
    requires n <= MAX_STORED
    ensures |Matching(Placed(creds), Used, n)| == if n <= |creds| then n else |creds|
  {
    if n > 0 {
      PlacedCount(creds, n - 1);
    }
  }

  /** A save that fails while a credential is being replaced: the slot is lost, the count is not lowered. */
  predicate FailedReplacement(s: State, e: Event)
  {
    e.Make? && e.outcome != SigningFails && e.discoverable && !e.saved && Replaces(s.store.slots, e.cred)
  }

  /** Failed replacements since the last wipe or restart. */
  function FailedReplacements(s: State, run: seq<Event>): nat
  {
    if run == [] then 0
    else
      var before, e := run[..|run| - 1], run[|run| - 1];
      if e.Wipe? || e.Restart? then 0
      else FailedReplacements(s, before) + if FailedReplacement(After(s, before), e) then 1 else 0
  }

  predicate Counted(st: Store, lost: nat)
  {
    |st.slots| == MAX_STORED && st.count == UsedCount(st.slots) + lost
  }

  predicate DiskCounted(d: Option<Store>)
  {
    d.Some? ==> |d.value.slots| == MAX_STORED && UsedCount(d.value.slots) <= d.value.count
  }

  lemma MakeCounted(s: State, e: Event, lost: nat)
    requires e.Make? && Counted(s.store, lost)
    ensures Counted(Next(s, e).store, lost + if FailedReplacement(s, e) then 1 else 0)
  {
    hide First, Matching;
    var slots, k := s.store.slots, TargetSlot(s.store.slots, e.cred);
    if k < |slots| {
      MatchingUpdate(slots, Used, k, Some(Stored(e.cred, Wrap32(s.store.counter + 1))), |slots|);
      MatchingUpdate(slots, Used, k, None, |slots|);
    }
  }

  lemma ManagedCounted(s: State, e: Event, lost: nat)
    requires Managing(e) && Counted(s.store, lost)
    ensures Counted(Next(s, e).store, lost)
  {
    hide First, Matching;
    if e.Delete? || e.Update? {
      var slots := s.store.slots;
      var k := First(slots, WithId(e.credId), 0);
      if k < |slots| {
        MatchingUpdate(slots, Used, k, None, |slots|);
        MatchingExact(slots, Used, |slots|);
        assert k in Matching(slots, Used, |slots|);
        if e.Update? {
          MatchingUpdate(slots, Used, k, Some(Renamed(slots[k].value, e.userName, e.displayName)), |slots|);
        }
      }
    }
  }

  lemma SignCounted(s: State, k: nat, outcome: Outcome, saved: bool, lost: nat)
    requires Counted(s.store, lost)
    ensures Counted(SignWith(s, k, outcome, saved).store, lost)
  {
    hide Matching;
    var slots := s.store.slots;
    if k < |slots| && slots[k].Some? {
      var c := slots[k].value.(signCount := CounterAfter(slots[k].value.signCount, outcome));
      MatchingUpdate(slots, Used, k, Some(c), |slots|);
    }
  }

  lemma AssertCounted(s: State, e: Event, lost: nat)
    requires (e.Assert? || e.AssertNext?) && Counted(s.store, lost)
    ensures Counted(Next(s, e).store, lost)
  {
    hide Matching, SignWith, Counted;
    var quiet := s.(assertion := NO_ASSERTION);
    if e.Assert? {
      var m := Matching(s.store.slots, Discoverable(e.rp, e.verified), |s.store.slots|);
      if m != [] {
        SignCounted(quiet.(assertion := Assertion(m, 1, e.now)), m[0], e.outcome, e.saved, lost);
      }
    } else if s.assertion.index < |s.assertion.matches| {
      var a := s.assertion;
      SignCounted(s.(assertion := a.(index := a.index + 1)), a.matches[a.index], e.outcome, e.saved, lost);
    }
  }

  lemma RestoredCounted(saved: Store)
    requires |saved.slots| == MAX_STORED
    ensures Counted(Restored(saved), 0)
  {
    hide Matching;
    var creds := Compact(saved.slots, |saved.slots|);
    PlacedCount(if saved.count < |creds| then creds[..saved.count] else creds, MAX_STORED);
  }

  lemma StepCounted(s: State, e: Event, lost: nat)
    requires Counted(s.store, lost) && DiskCounted(s.disk)
    ensures !e.Wipe? && !e.Restart? ==> Counted(Next(s, e).store, lost + if FailedReplacement(s, e) then 1 else 0)
    ensures e.Wipe? || e.Restart? ==> Counted(Next(s, e).store, 0)
  {
    hide Matching, MakeNext, NextManaged, AssertNow, AssertAgain, Restored;
    if e.Make? {
      MakeCounted(s, e, lost);
    } else if Managing(e) {
      ManagedCounted(s, e, lost);
    } else if e.Assert? || e.AssertNext? {
      AssertCounted(s, e, lost);
    }
    PlacedCount([], MAX_STORED);
    if s.disk.Some? {
      RestoredCounted(s.disk.value);
    }
  }

  lemma StepSaves(s: State, e: Event)
    ensures Next(s, e).disk == s.disk || Next(s, e).disk == Some(Next(s, e).store)
  {
    hide Matching, First, Restored, Prefix, Meets;
  }

  lemma StepDiskCounted(s: State, e: Event, lost: nat)
    requires DiskCounted(s.disk) && Counted(Next(s, e).store, lost)
    ensures DiskCounted(Next(s, e).disk)
  {
    hide Next, UsedCount;
    StepSaves(s, e);
  }

  /** Over every run, the credential count is the number of slots in use plus the number of replacements
      whose save failed since the last reset or restart. */
  lemma {:induction false} CountIsExact(run: seq<Event>)
    ensures Counted(After(INITIAL, run).store, FailedReplacements(INITIAL, run))
    ensures DiskCounted(After(INITIAL, run).disk)
  {
    hide Next, FailedReplacement, Counted, DiskCounted;
    if run == [] {
      InitialCounted();
    } else {
      var before, e := run[..|run| - 1], run[|run| - 1];
      CountIsExact(before);
      var s, lost := After(INITIAL, before), FailedReplacements(INITIAL, before);
      StepCounted(s, e, lost);
      StepDiskCounted(s, e, FailedReplacements(INITIAL, run));
    }
  }

  lemma InitialCounted()
    ensures Counted(INITIAL.store, 0) && DiskCounted(INITIAL.disk)
  {
    hide Matching;
    PlacedCount([], MAX_STORED);
  }

  /** So the count equals the number of slots in use exactly when no replacement has lost its save. */
  lemma CountMatchesSlots(run: seq<Event>)
    ensures var st := After(INITIAL, run).store;
            st.count == UsedCount(st.slots) <==> FailedReplacements(INITIAL, run) == 0
  {
    CountIsExact(run);
  }

  lemma MadeFirst(c: Credential)
    ensures var s := Next(INITIAL, Make(c, true, Built, true));
            && |s.store.slots| == MAX_STORED && s.store.slots[0] == Some(Stored(c, 1))
            && Meets(s.store.slots[0], OfRp(c.rpHash)) && TargetSlot(s.store.slots, c) == 0
            && FailedReplacement(s, Make(c, true, Built, false)) && s.enumeration == NO_ENUMERATION
  {
    hide Prefix, Restored, Matching;
    var slots := INITIAL.store.slots;
    assert slots[0].None? && First(slots, Free, 0) == 0 && First(slots, OwnerOf(c), 0) == |slots|;
    assert Wrap32(1) == 1;
  }

  /** One credential made and then replaced with a lost save leaves the count one too high. */
  lemma LostReplacement(c: Credential)
    ensures var run := [Make(c, true, Built, true), Make(c, true, Built, false)];
            var st := After(INITIAL, run).store;
            FailedReplacements(INITIAL, run) == 1 && st.count == UsedCount(st.slots) + 1
  {
    hide Next, FailedReplacement;
    var make, lose := Make(c, true, Built, true), Make(c, true, Built, false);
    MadeFirst(c);
    assert [make, lose][..1] == [make] && [make][..0] == [];
    assert After(INITIAL, [make]) == Next(INITIAL, make);
    assert !FailedReplacement(INITIAL, make) by { NotLost(c); }
    assert FailedReplacements(INITIAL, [make]) == 0;
    assert [make, lose][|[make, lose]| - 1] == lose;
    CountIsExact([make, lose]);
  }

  lemma NotLost(c: Credential)
    ensures !FailedReplacement(INITIAL, Make(c, true, Built, true))
  {
  }

  /** And a listing begun in between names a dead slot. */
  lemma LostListed(c: Credential)
    ensures var s := Next(Next(INITIAL, Make(c, true, Built, true)), BeginCreds(c.rpHash));
            Pending(s) && !Pending(Next(s, Make(c, true, Built, false)))
  {
    hide Prefix, Restored, Matching, MakeNext, First, Meets;
    var s := Next(INITIAL, Make(c, true, Built, true));
    MadeFirst(c);
    BeginListsAll(s, c.rpHash);
    var t := Next(s, BeginCreds(c.rpHash));
    assert t.store == s.store && 0 in t.enumeration.slots;
    StepKeepsPending(t, Make(c, true, Built, false));
  }

  lemma {:induction false} CompactPlaced(creds: seq<Credential>, n: nat)
    requires n <= MAX_STORED
    requires forall i | 0 <= i < |creds| :: creds[i].hmacSecret == None
    ensures Compact(Placed(creds), n) == creds[..if n <= |creds| then n else |creds|]
  {
    if n > 0 {
      CompactPlaced(creds, n - 1);
    }
  }

  lemma {:induction false} CompactForgets(slots: seq<Slot>, n: nat)
    requires n <= |slots|
    ensures forall i | 0 <= i < |Compact(slots, n)| :: Compact(slots, n)[i].hmacSecret == None
  {
    if n > 0 {
      CompactForgets(slots, n - 1);
    }
  }

  /** A restart right after a save brings back all credentials in slot order and the global counter, and
      repairs the count; only the HMAC secrets are gone. */
  lemma RestartKeepsCredentials(run: seq<Event>)
    requires var s := After(INITIAL, run); s.disk == Some(s.store)
    ensures var st, st' := After(INITIAL, run).store, Next(After(INITIAL, run), Restart(Whole)).store;
            && st'.slots == Placed(Compact(st.slots, |st.slots|))
            && Compact(st'.slots, |st'.slots|) == Compact(st.slots, |st.slots|)
            && st'.counter == st.counter && st'.count == UsedCount(st'.slots) == UsedCount(st.slots)
  {
    hide Placed, Matching, After, Meets;
    var st := After(INITIAL, run).store;
    CountIsExact(run);
    var creds := Compact(st.slots, |st.slots|);
    CompactForgets(st.slots, |st.slots|);
    CompactPlaced(creds, MAX_STORED);
    PlacedCount(creds, MAX_STORED);
  }

  lemma RestoredHeader(st: Store)
    ensures Restored(st).counter == st.counter
  {
  }

  // ----- credential management walks only live credentials -----------------------------------------

  /** Every slot still listed holds a credential of the relying party being enumerated. */
  predicate Pending(s: State)
  {
    forall k | k in s.enumeration.slots :: 0 <= k < |s.store.slots| && Meets(s.store.slots[k], OfRp(s.enumeration.rp))
  }

  lemma BeginListsAll(s: State, rp: seq<byte>)
    ensures Pending(Next(s, BeginCreds(rp)))
    ensures var listed := Next(s, BeginCreds(rp)).enumeration.slots;
            forall k :: k in listed <==> 0 <= k < |s.store.slots| && HasRp(s.store.slots[k], rp)
    ensures var slots, listed := s.store.slots, Next(s, BeginCreds(rp)).enumeration.slots;
            forall k | 0 <= k < |slots| :: Meets(slots[k], OfRp(rp)) <==> k in listed
  {
    hide Meets, HasRp;
    AllOfRp(s.store.slots, rp);
    MatchingExact(s.store.slots, OfRp(rp), |s.store.slots|);
  }

  /** A replacement of a listed credential whose save fails. */
  predicate LosesListed(s: State, e: Event)
  {
    FailedReplacement(s, e) && TargetSlot(s.store.slots, e.cred) in s.enumeration.slots
  }

  lemma MakeKeepsPending(s: State, e: Event)
    requires e.Make? && Pending(s)
    ensures Pending(Next(s, e)) <==> !LosesListed(s, e)
  {
    hide First, Prefix;
  }

  lemma SignKeepsPending(s: State, k: nat, outcome: Outcome, saved: bool)
    requires Pending(s)
    ensures Pending(SignWith(s, k, outcome, saved))
  {
    hide Prefix;
  }

  lemma AssertKeepsPending(s: State, e: Event)
    requires (e.Assert? || e.AssertNext?) && Pending(s)
    ensures Pending(Next(s, e))
  {
    hide Matching, SignWith, Meets;
    var quiet := s.(assertion := NO_ASSERTION);
    if e.Assert? {
      var m := Matching(s.store.slots, Discoverable(e.rp, e.verified), |s.store.slots|);
      if m != [] {
        SignKeepsPending(quiet.(assertion := Assertion(m, 1, e.now)), m[0], e.outcome, e.saved);
      }
    } else if s.assertion.index < |s.assertion.matches| {
      var a := s.assertion;
      SignKeepsPending(s.(assertion := a.(index := a.index + 1)), a.matches[a.index], e.outcome, e.saved);
    }
  }

  /** One command of any kind keeps the listed slots live, unless it is a replacement of a listed
      credential whose save fails; then, and only then, it does not. */
  lemma StepKeepsPending(s: State, e: Event)
    requires Pending(s)
    ensures Pending(Next(s, e)) <==> !LosesListed(s, e)
  {
    hide Matching, First, SignWith, MakeNext, AssertNow, AssertAgain, Restored, Meets, Replaces, TargetSlot;
    if e.Make? {
      MakeKeepsPending(s, e);
    } else if e.Assert? || e.AssertNext? {
      AssertKeepsPending(s, e);
    } else if e.BeginCreds? {
      BeginListsAll(s, e.rp);
    }
  }

  lemma {:induction false} PendingOverRuns(run: seq<Event>)
    requires forall i | 0 <= i < |run| :: run[i].Make? ==> run[i].saved
    ensures Pending(After(INITIAL, run))
  {
    hide Next;
    if run != [] {
      var before := run[..|run| - 1];
      PendingOverRuns(before);
      StepKeepsPending(After(INITIAL, before), run[|run| - 1]);
    }
  }
}
