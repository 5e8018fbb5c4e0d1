/** Signature counters over whole runs, restarts and lost saves included: when the counters a relying party
    sees keep increasing. A credential is known by its id, since a restart moves it to another slot. */
module Counters {
  import opened Bytes
  import opened Credentials
  import opened Assertions

  /** Whose counter: the device's global one, or that of the resident credential with an id. */
  datatype Owner = Everyone | Resident(id: seq<byte>)

  // ----- one counter -------------------------------------------------------------------------------

  function Holder(slots: seq<Slot>, id: seq<byte>): nat
  {
    First(slots, WithId(id), 0)
  }

  predicate Present(st: Store, o: Owner)
  {
    o.Everyone? || Holder(st.slots, o.id) < |st.slots|
  }

  function CounterIn(st: Store, o: Owner): nat
    requires Present(st, o)
  {
    if o.Everyone? then st.counter else st.slots[Holder(st.slots, o.id)].value.signCount
  }

  /** The slot signs for this owner. */
  predicate Belongs(slots: seq<Slot>, k: nat, o: Owner)
  {
    o.Resident? && k < |slots| && Meets(slots[k], WithId(o.id))
  }

  /** The counter in a successful response for this owner. */
  function AnswerFor(s: State, e: Event, o: Owner): Option<nat>
  {
    match Signed(s, e)
    case NoSignature => None
    case Signature(Global, counter) => if o.Everyone? then Some(counter) else None
    case Signature(OfSlot(k), counter) => if Belongs(s.store.slots, k, o) then Some(counter) else None
  }

  /** The command raises the owner's counter and leaves it raised, with or without a response. */
  predicate Raises(s: State, e: Event, o: Owner)
  {
    if o.Everyone? then e.Make? || (e.AssertWrapped? && e.outcome != EncodingFails)
    else
      && (e.Assert? || e.AssertNext?) && e.outcome != EncodingFails
      && Addressed(s, e).Some? && Belongs(s.store.slots, Addressed(s, e).value, o)
  }

  /** The command makes a credential with this id. */
  predicate Makes(e: Event, id: seq<byte>)
  {
    e.Make? && Prefix(e.cred.credId, e.cred.credIdLen) == id
  }

  // ----- how many credentials carry an id ----------------------------------------------------------

  function Copies(slots: seq<Slot>, id: seq<byte>): nat
  {
    |Matching(slots, WithId(id), |slots|)|
  }

  /** No id stands twice, in memory or in the file. */
  predicate AtMost(s: State, id: seq<byte>, n: nat)
  {
    Copies(s.store.slots, id) <= n && (s.disk.Some? ==> Copies(s.disk.value.slots, id) <= n)
  }

  lemma OneHolder(slots: seq<Slot>, id: seq<byte>, k: nat)
    requires Copies(slots, id) <= 1 && k < |slots| && Meets(slots[k], WithId(id))
    ensures Holder(slots, id) == k
  {
    hide Meets, Matching;
    var m, h := Matching(slots, WithId(id), |slots|), Holder(slots, id);
    MatchingExact(slots, WithId(id), |slots|);
    FirstIsLeast(slots, WithId(id), 0, k);
    assert h in m && k in m;
  }

  lemma UpdateCopies(slots: seq<Slot>, k: nat, x: Slot, id: seq<byte>)
    requires k < |slots|
    ensures Copies(slots[k := x], id) <= Copies(slots, id) + if Meets(x, WithId(id)) then 1 else 0
    ensures Meets(x, WithId(id)) == Meets(slots[k], WithId(id)) ==> Copies(slots[k := x], id) == Copies(slots, id)
  {
    hide Meets, Matching;
    MatchingUpdate(slots, WithId(id), k, x, |slots|);
  }

  lemma {:induction false} NoCopies(n: nat, id: seq<byte>)
    requires n <= MAX_STORED
    ensures Matching(Placed([]), WithId(id), n) == []
  {
    if n > 0 {
      NoCopies(n - 1, id);
    }
  }

  /** Each credential of a compacted store stood in some slot, and later ones in later slots. */
  lemma {:induction false} CompactFrom(slots: seq<Slot>, n: nat, j: nat) returns (k: nat)
    requires n <= |slots| && j < |Compact(slots, n)|
    ensures k < n && slots[k].Some? && Compact(slots, n)[j] == slots[k].value.(hmacSecret := None)
    ensures |Compact(slots, k)| == j
  {
    hide Matching;
    if j < |Compact(slots, n - 1)| {
      k := CompactFrom(slots, n - 1, j);
    } else {
      k := n - 1;
    }
  }

  function Bearing(creds: seq<Credential>, id: seq<byte>): nat
  {
    if creds == [] then 0
    else
      var last := creds[|creds| - 1];
      Bearing(creds[..|creds| - 1], id) + if Prefix(last.credId, last.credIdLen) == id then 1 else 0
  }

  lemma {:induction false} BearingPlaced(creds: seq<Credential>, id: seq<byte>, n: nat)
    requires n <= MAX_STORED
    ensures |Matching(Placed(creds), WithId(id), n)| == Bearing(creds[..if n <= |creds| then n else |creds|], id)
  {
    hide Prefix;
    if n > 0 {
      BearingPlaced(creds, id, n - 1);
      if n <= |creds| {
        assert creds[..n][..n - 1] == creds[..n - 1];
      }
    }
  }

  lemma {:induction false} BearingCompact(slots: seq<Slot>, id: seq<byte>, n: nat)
    requires n <= |slots|
    ensures Bearing(Compact(slots, n), id) == |Matching(slots, WithId(id), n)|
  {
    hide Prefix;
    if n > 0 {
      BearingCompact(slots, id, n - 1);
      if slots[n - 1].Some? {
        assert Compact(slots, n)[..|Compact(slots, n - 1)|] == Compact(slots, n - 1);
      } else {
        assert Compact(slots, n) == Compact(slots, n - 1);
      }
    }
  }

  lemma {:induction false} BearingPrefix(creds: seq<Credential>, id: seq<byte>, n: nat)
    requires n <= |creds|
    ensures Bearing(creds[..n], id) <= Bearing(creds, id)
    decreases |creds|
  {
    if n < |creds| {
      BearingPrefix(creds[..|creds| - 1], id, n);
      assert creds[..|creds| - 1][..n] == creds[..n];
    } else {
      assert creds[..n] == creds;
    }
  }

  lemma RestoredCopies(st: Store, id: seq<byte>)
    ensures Copies(Restored(st).slots, id) <= Copies(st.slots, id)
  {
    hide Matching, Bearing, Placed, Compact;
    var creds := Compact(st.slots, |st.slots|);
    var kept := if st.count < |creds| then creds[..st.count] else creds;
    BearingCompact(st.slots, id, |st.slots|);
    BearingPlaced(kept, id, MAX_STORED);
    BearingPrefix(kept, id, if MAX_STORED <= |kept| then MAX_STORED else |kept|);
    BearingPrefix(creds, id, |kept|);
    assert creds[..|kept|] == kept;
  }

  /** Loading keeps the counter of a credential it brings back. */
  lemma RestoredHolder(st: Store, id: seq<byte>)
    requires Copies(st.slots, id) <= 1 && Present(Restored(st), Resident(id))
    ensures Present(st, Resident(id)) && CounterIn(Restored(st), Resident(id)) == CounterIn(st, Resident(id))
  {
    hide Matching, First, Compact, Copies;
    var slots := Restored(st).slots;
    var h := Holder(slots, id);
    assert slots[h].Some?;
    var k := CompactFrom(st.slots, |st.slots|, h);
    OneHolder(st.slots, id, k);
  }

  // ----- copies over a step ------------------------------------------------------------------------

  lemma SignCopies(s: State, k: nat, outcome: Outcome, saved: bool, id: seq<byte>)
    ensures Copies(SignWith(s, k, outcome, saved).store.slots, id) == Copies(s.store.slots, id)
  {
    hide Copies;
    var slots := s.store.slots;
    if k < |slots| && slots[k].Some? {
      var c := slots[k].value.(signCount := CounterAfter(slots[k].value.signCount, outcome));
      UpdateCopies(slots, k, Some(c), id);
    }
  }

  lemma AssertCopies(s: State, e: Event, id: seq<byte>)
    requires e.Assert? || e.AssertNext?
    ensures Copies(Next(s, e).store.slots, id) == Copies(s.store.slots, id)
  {
    hide Matching, SignWith, Copies;
    var quiet := s.(assertion := NO_ASSERTION);
    if e.Assert? {
      var m := Matching(s.store.slots, Discoverable(e.rp, e.verified), |s.store.slots|);
      if m != [] {
        SignCopies(quiet.(assertion := Assertion(m, 1, e.now)), m[0], e.outcome, e.saved, id);
      }
    } else if s.assertion.index < |s.assertion.matches| {
      var a := s.assertion;
      SignCopies(s.(assertion := a.(index := a.index + 1)), a.matches[a.index], e.outcome, e.saved, id);
    }
  }

  lemma ManagedCopies(s: State, e: Event, id: seq<byte>)
    requires Managing(e)
    ensures Copies(Next(s, e).store.slots, id) <= Copies(s.store.slots, id)
  {
    hide Matching, First, Copies, Rps;
    if e.Delete? || e.Update? {
      var slots := s.store.slots;
      var k := First(slots, WithId(e.credId), 0);
      if k < |slots| {
        UpdateCopies(slots, k, None, id);
        if e.Update? {
          UpdateCopies(slots, k, Some(Renamed(slots[k].value, e.userName, e.displayName)), id);
        }
      }
    }
  }

  lemma MakeCopies(s: State, e: Event, id: seq<byte>)
    requires e.Make?
    ensures Copies(Next(s, e).store.slots, id) <= Copies(s.store.slots, id) + if Makes(e, id) then 1 else 0
  {
    hide Matching, First, Copies;
    var slots, k := s.store.slots, TargetSlot(s.store.slots, e.cred);
    if k < |slots| {
      UpdateCopies(slots, k, Some(Stored(e.cred, Wrap32(s.store.counter + 1))), id);
      UpdateCopies(slots, k, None, id);
    }
  }

  lemma EmptyCopies(id: seq<byte>)
    ensures Copies(INITIAL.store.slots, id) == 0
  {
    NoCopies(MAX_STORED, id);
  }

  lemma MemoryCopies(s: State, e: Event, id: seq<byte>, n: nat)
    requires AtMost(s, id, n)
    ensures Copies(Next(s, e).store.slots, id) <= n + if Makes(e, id) then 1 else 0
  {
    hide Matching, Copies, MakeNext, NextManaged, AssertNow, AssertAgain, Restored, Placed, Prefix;
    EmptyCopies(id);
    if e.Make? {
      MakeCopies(s, e, id);
    } else if Managing(e) {
      ManagedCopies(s, e, id);
    } else if e.Assert? || e.AssertNext? {
      AssertCopies(s, e, id);
    } else if s.disk.Some? {
      RestoredCopies(s.disk.value, id);
    }
  }

  lemma StepCopies(s: State, e: Event, id: seq<byte>, n: nat)
    requires AtMost(s, id, n)
    ensures AtMost(Next(s, e), id, n + if Makes(e, id) then 1 else 0)
  {
    hide Copies, Next, Makes;
    MemoryCopies(s, e, id, n);
    StepSaves(s, e);
  }

  // ----- a counter over a step ---------------------------------------------------------------------

  lemma {:induction false} FirstUpdate(slots: seq<Slot>, q: Query, k: nat, x: Slot, i: nat)
    requires k < |slots| && i <= |slots| && Meets(x, q) == Meets(slots[k], q)
    ensures First(slots[k := x], q, i) == First(slots, q, i)
    decreases |slots| - i
  {
    hide Meets;
    if i < |slots| && !Meets(slots[i], q) {
      FirstUpdate(slots, q, k, x, i + 1);
    }
  }

  /** A slot that gets some other credential, or none, does not move the holder. */
  lemma HolderElsewhere(slots: seq<Slot>, k: nat, x: Slot, id: seq<byte>)
    requires k < |slots| && !Meets(x, WithId(id)) && Copies(slots, id) <= 1
    requires Holder(slots[k := x], id) < |slots|
    ensures Holder(slots, id) == Holder(slots[k := x], id) != k
  {
    hide Meets, Copies, First;
    OneHolder(slots, id, Holder(slots[k := x], id));
  }

  lemma SignOwner(s: State, k: nat, outcome: Outcome, saved: bool, o: Owner)
    requires o.Resident? ==> Copies(s.store.slots, o.id) <= 1
    requires Present(s.store, o) ==> CounterIn(s.store, o) < COUNTER_LIMIT - 1
    ensures var t := SignWith(s, k, outcome, saved);
            var up := if Belongs(s.store.slots, k, o) && outcome != EncodingFails then 1 else 0;
            && (Present(t.store, o) <==> Present(s.store, o))
            && (Present(s.store, o) ==> CounterIn(t.store, o) == CounterIn(s.store, o) + up)
  {
    hide Copies, First, Prefix;
    var slots := s.store.slots;
    if k < |slots| && slots[k].Some? && o.Resident? {
      var c := slots[k].value.(signCount := CounterAfter(slots[k].value.signCount, outcome));
      FirstUpdate(slots, WithId(o.id), k, Some(c), 0);
      if Belongs(slots, k, o) {
        OneHolder(slots, o.id, k);
      }
    }
  }

  predicate Low(st: Store, o: Owner)
  {
    && (o.Resident? ==> Copies(st.slots, o.id) <= 1)
    && (Present(st, o) ==> CounterIn(st, o) < COUNTER_LIMIT - 1)
  }

  lemma AssertOwner(s: State, e: Event, o: Owner)
    requires (e.Assert? || e.AssertNext?) && Low(s.store, o)
    ensures Present(Next(s, e).store, o) <==> Present(s.store, o)
    ensures Present(s.store, o) ==>
              CounterIn(Next(s, e).store, o) == CounterIn(s.store, o) + if Raises(s, e, o) then 1 else 0
  {
    hide Matching, SignWith, First, Meets;
    var k := Addressed(s, e);
    if k.Some? {
      var quiet := if e.Assert? then
          s.(assertion := Assertion(Matching(s.store.slots, Discoverable(e.rp, e.verified), |s.store.slots|), 1, e.now))
        else s.(assertion := s.assertion.(index := s.assertion.index + 1));
      SignOwner(quiet, k.value, e.outcome, e.saved, o);
    }
  }

  lemma ManagedOwner(s: State, e: Event, o: Owner)
    requires Managing(e) && Low(s.store, o)
    ensures Present(Next(s, e).store, o) ==>
              Present(s.store, o) && CounterIn(Next(s, e).store, o) == CounterIn(s.store, o)
  {
    hide Matching, First, Copies, Rps, Prefix;
    if (e.Delete? || e.Update?) && o.Resident? {
      var slots := s.store.slots;
      var k := First(slots, WithId(e.credId), 0);
      if k < |slots| {
        if e.Delete? && Holder(slots[k := None], o.id) < |slots| {
          HolderElsewhere(slots, k, None, o.id);
        }
        if e.Update? {
          FirstUpdate(slots, WithId(o.id), k, Some(Renamed(slots[k].value, e.userName, e.displayName)), 0);
        }
      }
    }
  }

  lemma MakeOwner(s: State, e: Event, o: Owner)
    requires e.Make? && Low(s.store, o)
    ensures o.Everyone? ==> Next(s, e).store.counter == s.store.counter + 1
    ensures o.Resident? && !Makes(e, o.id) && Present(Next(s, e).store, o) ==>
              Present(s.store, o) && CounterIn(Next(s, e).store, o) == CounterIn(s.store, o)
  {
    hide Matching, First, Copies, Prefix;
    var slots, k := s.store.slots, TargetSlot(s.store.slots, e.cred);
    if o.Resident? && !Makes(e, o.id) && k < |slots| {
      var x := Some(Stored(e.cred, Wrap32(s.store.counter + 1)));
      if Holder(slots[k := x], o.id) < |slots| {
        HolderElsewhere(slots, k, x, o.id);
      }
      if Holder(slots[k := None], o.id) < |slots| {
        HolderElsewhere(slots, k, None, o.id);
      }
    }
  }

  /** A raise raises by one. */
  lemma StepRaises(s: State, e: Event, o: Owner)
    requires Low(s.store, o) && Raises(s, e, o)
    ensures Present(s.store, o) && Present(Next(s, e).store, o)
    ensures CounterIn(Next(s, e).store, o) == CounterIn(s.store, o) + 1
  {
    hide Matching, First, Copies, MakeNext, AssertNow, AssertAgain, NextManaged, Prefix;
    if e.Make? {
      MakeOwner(s, e, o);
    } else if o.Resident? {
      OneHolder(s.store.slots, o.id, Addressed(s, e).value);
      AssertOwner(s, e, o);
    }
  }

  /** Only raises, restarts, resets and the making of the credential itself change a counter. */
  lemma StepKeepsCounter(s: State, e: Event, o: Owner)
    requires Low(s.store, o) && !Raises(s, e, o) && !e.Restart? && !e.Wipe?
    requires o.Resident? ==> !Makes(e, o.id)
    requires Present(Next(s, e).store, o)
    ensures Present(s.store, o) && CounterIn(Next(s, e).store, o) == CounterIn(s.store, o)
  {
    hide Matching, First, Copies, MakeNext, AssertNow, AssertAgain, NextManaged, Prefix, Belongs;
    if e.Make? {
      MakeOwner(s, e, o);
    } else if Managing(e) {
      ManagedOwner(s, e, o);
    } else if e.Assert? || e.AssertNext? {
      AssertOwner(s, e, o);
    }
  }

  /** A response follows a raise and carries the raised counter. */
  lemma StepAnswers(s: State, e: Event, o: Owner)
    requires Low(s.store, o) && AnswerFor(s, e, o).Some?
    ensures Raises(s, e, o) && Present(s.store, o) && AnswerFor(s, e, o).value == CounterIn(s.store, o) + 1
  {
    hide Matching, First, Copies, MakeNext, AssertNow, AssertAgain, NextManaged, Prefix;
    StepRaises(s, e, o);
    if o.Resident? {
      SignedSlot(s, e, o);
    }
  }

  lemma SignedSlot(s: State, e: Event, o: Owner)
    requires Low(s.store, o) && o.Resident? && AnswerFor(s, e, o).Some?
    ensures Present(Next(s, e).store, o) && AnswerFor(s, e, o).value == CounterIn(Next(s, e).store, o)
  {
    hide Matching, First, Copies, SignWith, Prefix;
    var k := Addressed(s, e).value;
    AssertCopies(s, e, o.id);
    AssertKeepsId(s, e, k, o.id);
    OneHolder(Next(s, e).store.slots, o.id, k);
  }

  lemma AssertKeepsId(s: State, e: Event, k: nat, id: seq<byte>)
    requires (e.Assert? || e.AssertNext?) && Addressed(s, e) == Some(k)
    requires k < |s.store.slots| && Meets(s.store.slots[k], WithId(id))
    ensures k < |Next(s, e).store.slots| && Meets(Next(s, e).store.slots[k], WithId(id))
  {
    hide Matching, First, Prefix;
  }

  // ----- runs --------------------------------------------------------------------------------------

  function MakesOf(run: seq<Event>, id: seq<byte>): nat
  {
    if run == [] then 0 else MakesOf(run[..|run| - 1], id) + if Makes(run[|run| - 1], id) then 1 else 0
  }

  /** The counters reported for the owner over a run. */
  function Reported(s: State, run: seq<Event>, o: Owner): seq<nat>
  {
    if run == [] then []
    else
      var r := AnswerFor(After(s, run[..|run| - 1]), run[|run| - 1], o);
      Reported(s, run[..|run| - 1], o) + if r.Some? then [r.value] else []
  }

  function Last(q: seq<nat>): nat
  {
    if q == [] then 0 else q[|q| - 1]
  }

  /** The owner's counter, or the last one it had while it was there. */
  function Tracked(s: State, run: seq<Event>, o: Owner): nat
  {
    if Present(After(s, run).store, o) then CounterIn(After(s, run).store, o)
    else if run == [] then 0
    else Tracked(s, run[..|run| - 1], o)
  }

  /** The raises since the owner's last response that nobody saw, less what restarts have taken from its
      counter since then. Making a credential anew gives it the global counter. */
  function Margin(s: State, run: seq<Event>, o: Owner): int
  {
    if run == [] then Tracked(s, [], o)
    else
      var before, e := run[..|run| - 1], run[|run| - 1];
      var was := After(s, before);
      if AnswerFor(was, e, o).Some? then 0
      else if Raises(was, e, o) then Margin(s, before, o) + 1
      else if e.Restart? || (o.Resident? && Makes(e, o.id)) then
        Margin(s, before, o) + Tracked(s, run, o) - Tracked(s, before, o)
      else Margin(s, before, o)
  }

  /** At no response of the owner have restarts taken more from its counter than went unseen. */
  predicate AlwaysAhead(s: State, run: seq<Event>, o: Owner)
  {
    run == [] ||
    var before, e := run[..|run| - 1], run[|run| - 1];
    AlwaysAhead(s, before, o) && (AnswerFor(After(s, before), e, o).Some? ==> Margin(s, before, o) >= 0)
  }

  /** The run stays between resets and below the last 32-bit value, and no credential id is given twice. */
  predicate Regular(s: State, run: seq<Event>, o: Owner)
  {
    && (o.Resident? ==> MakesOf(run, o.id) <= 1 && AtMost(s, o.id, 1 - MakesOf(run, o.id)))
    && WithinLimit(s, run, o)
  }

  predicate WithinLimit(s: State, run: seq<Event>, o: Owner)
  {
    run == [] ||
    var before, st := run[..|run| - 1], After(s, run[..|run| - 1]).store;
    && WithinLimit(s, before, o) && !run[|run| - 1].Wipe?
    && (Present(st, o) ==> CounterIn(st, o) < COUNTER_LIMIT - 1)
  }

  lemma {:induction false} RunCopies(s: State, run: seq<Event>, id: seq<byte>, n: nat)
    requires AtMost(s, id, n)
    ensures AtMost(After(s, run), id, n + MakesOf(run, id))
  {
    hide AtMost, Next, Makes;
    if run != [] {
      RunCopies(s, run[..|run| - 1], id, n);
      StepCopies(After(s, run[..|run| - 1]), run[|run| - 1], id, n + MakesOf(run[..|run| - 1], id));
    }
  }

  lemma FewerCopies(s: State, id: seq<byte>, n: nat, m: nat)
    requires AtMost(s, id, n) && n <= m
    ensures AtMost(s, id, m)
  {
    hide Copies;
  }

  lemma RegularPrefix(s: State, run: seq<Event>, o: Owner)
    requires Regular(s, run, o) && run != []
    ensures Regular(s, run[..|run| - 1], o) && Low(After(s, run[..|run| - 1]).store, o)
    ensures o.Resident? && After(s, run[..|run| - 1]).disk.Some? ==>
              Copies(After(s, run[..|run| - 1]).disk.value.slots, o.id) <= 1
  {
    hide Copies, Next, Present, CounterIn, Makes;
    if o.Resident? {
      var before := run[..|run| - 1];
      FewerCopies(s, o.id, 1 - MakesOf(run, o.id), 1 - MakesOf(before, o.id));
      RunCopies(s, before, o.id, 1 - MakesOf(before, o.id));
    }
  }

  /** The books balance: a counter is its last reported value plus the margin. */
  lemma {:induction false} Ledger(s: State, run: seq<Event>, o: Owner)
    requires Regular(s, run, o)
    ensures Tracked(s, run, o) == Last(Reported(s, run, o)) + Margin(s, run, o)
  {
    hide Next, Regular, Raises, AnswerFor, CounterIn, Present, Makes, Low;
    if run != [] {
      var before, e := run[..|run| - 1], run[|run| - 1];
      var was := After(s, before);
      NoWipe(s, run, o);
      RegularPrefix(s, run, o);
      Ledger(s, before, o);
      if AnswerFor(was, e, o).Some? {
        StepAnswers(was, e, o);
      }
      if Raises(was, e, o) {
        StepRaises(was, e, o);
      } else if !e.Restart? && !(o.Resident? && Makes(e, o.id)) && Present(Next(was, e).store, o) {
        StepKeepsCounter(was, e, o);
      }
    }
  }

  lemma NoWipe(s: State, run: seq<Event>, o: Owner)
    requires Regular(s, run, o) && run != []
    ensures !run[|run| - 1].Wipe?
  {
  }

  predicate Increasing(q: seq<nat>)
  {
    forall a, b | 0 <= a < b < |q| :: q[a] < q[b]
  }

  lemma IncreasingAppend(q: seq<nat>, x: nat)
    ensures Increasing(q + [x]) <==> Increasing(q) && (q != [] ==> Last(q) < x)
  {
    if Increasing(q + [x]) {
      forall a, b | 0 <= a < b < |q| ensures q[a] < q[b] {
        assert (q + [x])[a] == q[a] && (q + [x])[b] == q[b];
      }
      assert q != [] ==> (q + [x])[|q| - 1] == Last(q) && (q + [x])[|q|] == x;
    }
  }

  /** Between resets, and for every interleaving of commands, restarts and lost saves: the counters reported
      for an owner strictly increase if and only if at each of its responses restarts have taken no more
      from its counter than went unseen. */
  lemma {:induction false} CountersIncrease(s: State, run: seq<Event>, o: Owner)
    requires Regular(s, run, o)
    ensures Increasing(Reported(s, run, o)) <==> AlwaysAhead(s, run, o)
  {
    hide Next, Regular, Raises, AnswerFor, CounterIn, Present, Margin, Increasing, Low;
    if run == [] {
      NoReports();
    } else {
      var before, e := run[..|run| - 1], run[|run| - 1];
      var was := After(s, before);
      RegularPrefix(s, run, o);
      CountersIncrease(s, before, o);
      if AnswerFor(was, e, o).Some? {
        StepAnswers(was, e, o);
        Ledger(s, before, o);
        IncreasingAppend(Reported(s, before, o), AnswerFor(was, e, o).value);
      } else {
        assert Reported(s, run, o) == Reported(s, before, o);
      }
    }
  }

  lemma NoReports()
    ensures Increasing([])
  {
  }

  // ----- saved responses ---------------------------------------------------------------------------

  /** A response came after the file was last brought up to date. */
  predicate Unsaved(s: State, run: seq<Event>, o: Owner)
  {
    if run == [] || After(s, run).disk == Some(After(s, run).store) then false
    else
      var before := run[..|run| - 1];
      AnswerFor(After(s, before), run[|run| - 1], o).Some? || Unsaved(s, before, o)
  }

  /** Every restart finds the owner's responses saved, and for the global counter at least the header. */
  predicate Settled(s: State, run: seq<Event>, o: Owner)
  {
    run == [] ||
    var before, e := run[..|run| - 1], run[|run| - 1];
    && Settled(s, before, o)
    && (e.Restart? ==> !Unsaved(s, before, o) && (o.Everyone? ==> e.load != Unread))
  }

  predicate Covers(st: Store, o: Owner, last: nat)
  {
    Present(st, o) ==> CounterIn(st, o) >= last
  }

  /** Memory and an up-to-date file hold counters no smaller than the last response. */
  predicate Covered(s: State, o: Owner, last: nat, unsaved: bool)
  {
    && Covers(s.store, o, last)
    && (!unsaved && s.disk.Some? ==> Covers(s.disk.value, o, last))
    && (!unsaved && s.disk.None? && o.Everyone? ==> last == 0)
  }

  lemma {:induction false} NeverSeen(s: State, run: seq<Event>, id: seq<byte>)
    requires AtMost(s, id, 0) && MakesOf(run, id) == 0
    ensures Reported(s, run, Resident(id)) == []
  {
    hide Next, Makes, Copies, Signed;
    if run != [] {
      var before := run[..|run| - 1];
      NeverSeen(s, before, id);
      RunCopies(s, before, id, 0);
      NobodyAnswers(After(s, before), run[|run| - 1], id);
    }
  }

  lemma NobodyAnswers(s: State, e: Event, id: seq<byte>)
    requires Copies(s.store.slots, id) == 0
    ensures AnswerFor(s, e, Resident(id)).None?
  {
    hide Meets, Signed;
    MatchingExact(s.store.slots, WithId(id), |s.store.slots|);
  }

  lemma RestartCovers(s: State, load: Load, o: Owner, last: nat)
    requires o.Resident? && s.disk.Some? ==> Copies(s.disk.value.slots, o.id) <= 1
    requires Covered(s, o, last, false) && (o.Everyone? ==> load != Unread)
    ensures Covers(Next(s, Restart(load)).store, o, last)
  {
    hide Copies, First, Restored;
    if o.Resident? {
      EmptyCopies(o.id);
      NoHolder(INITIAL.store.slots, o.id);
      if s.disk.Some? && load == Whole && Present(Restored(s.disk.value), o) {
        RestoredHolder(s.disk.value, o.id);
      }
    } else if s.disk.Some? {
      RestoredHeader(s.disk.value);
    }
  }

  lemma NoHolder(slots: seq<Slot>, id: seq<byte>)
    requires Copies(slots, id) == 0
    ensures Holder(slots, id) == |slots|
  {
    hide Meets;
    MatchingExact(slots, WithId(id), |slots|);
  }

  /** What a step that is no restart does to a covered memory. */
  lemma StepCovers(s: State, e: Event, o: Owner, last: nat)
    requires Low(s.store, o) && Covers(s.store, o, last) && !e.Restart? && !e.Wipe?
    requires o.Resident? && Makes(e, o.id) ==> last == 0
    ensures var r := AnswerFor(s, e, o); Covers(Next(s, e).store, o, if r.Some? then r.value else last)
    ensures var r := AnswerFor(s, e, o); r.Some? ==> r.value > last
  {
    hide Next, AnswerFor, Makes, Low, CounterIn, Present, Raises;
    if AnswerFor(s, e, o).Some? {
      StepAnswers(s, e, o);
    }
    if Raises(s, e, o) {
      StepRaises(s, e, o);
    } else if !(o.Resident? && Makes(e, o.id)) && Present(Next(s, e).store, o) {
      StepKeepsCounter(s, e, o);
    }
  }

  lemma RestartAnswersNobody(s: State, load: Load, o: Owner)
    ensures AnswerFor(s, Restart(load), o).None?
  {
  }

  lemma FirstMake(s: State, run: seq<Event>, o: Owner)
    requires Regular(s, run, o) && run != [] && o.Resident? && Makes(run[|run| - 1], o.id)
    ensures Reported(s, run[..|run| - 1], o) == []
  {
    hide Makes, Copies;
    NeverSeen(s, run[..|run| - 1], o.id);
  }

  /** Where every restart finds the owner's responses saved, its reported counters strictly increase. */
  lemma {:induction false} SavedAnswersIncrease(s: State, run: seq<Event>, o: Owner)
    requires Regular(s, run, o) && Settled(s, run, o)
    ensures Increasing(Reported(s, run, o))
    ensures Covered(After(s, run), o, Last(Reported(s, run, o)), Unsaved(s, run, o))
  {
    hide Next, Regular, AnswerFor, Covers, Increasing, Low, Makes, Copies;
    if run == [] {
      NoReports();
      CoversZero(s, o);
    } else {
      var before, e := run[..|run| - 1], run[|run| - 1];
      var was, last := After(s, before), Last(Reported(s, before, o));
      NoWipe(s, run, o);
      RegularPrefix(s, run, o);
      SavedAnswersIncrease(s, before, o);
      StepSaves(was, e);
      if e.Restart? {
        RestartAnswersNobody(was, e.load, o);
        RestartCovers(was, e.load, o, last);
        assert Reported(s, run, o) == Reported(s, before, o);
      } else {
        if o.Resident? && Makes(e, o.id) {
          FirstMake(s, run, o);
        }
        StepCovers(was, e, o, last);
        if AnswerFor(was, e, o).Some? {
          IncreasingAppend(Reported(s, before, o), AnswerFor(was, e, o).value);
        } else {
          assert Reported(s, run, o) == Reported(s, before, o);
        }
      }
    }
  }

  lemma CoversZero(s: State, o: Owner)
    ensures Covered(s, o, 0, false)
  {
  }

  /** Every response of the owner is saved. */
  predicate AnswersSaved(s: State, run: seq<Event>, o: Owner)
  {
    run == [] ||
    var before, e := run[..|run| - 1], run[|run| - 1];
    && AnswersSaved(s, before, o)
    && ((e.Assert? || e.AssertNext?) && AnswerFor(After(s, before), e, o).Some? ==> e.saved)
  }

  lemma ResidentAnswerIsAssertion(s: State, e: Event, id: seq<byte>)
    requires AnswerFor(s, e, Resident(id)).Some?
    ensures (e.Assert? || e.AssertNext?) && Signed(s, e).Signature?
  {
    hide Matching, First, Prefix, Next;
  }

  lemma {:induction false} NothingUnsaved(s: State, run: seq<Event>, id: seq<byte>)
    requires AnswersSaved(s, run, Resident(id))
    ensures !Unsaved(s, run, Resident(id)) && Settled(s, run, Resident(id))
  {
    hide Next, AnswerFor, Signed;
    if run != [] {
      var before, e := run[..|run| - 1], run[|run| - 1];
      NothingUnsaved(s, before, id);
      if AnswerFor(After(s, before), e, Resident(id)).Some? {
        ResidentAnswerIsAssertion(After(s, before), e, id);
        AnswersAreDurable(After(s, before), e);
      }
    }
  }

  /** A resident credential whose assertions are saved never reports a counter twice or a smaller one, over
      any restarts, readable or not, deletions, replacements and other lost saves between resets. */
  lemma ResidentNeverRepeats(s: State, run: seq<Event>, id: seq<byte>)
    requires Regular(s, run, Resident(id)) && AnswersSaved(s, run, Resident(id))
    ensures Increasing(Reported(s, run, Resident(id)))
  {
    hide Increasing, Reported, AnswersSaved, Settled, Regular, Covered, Unsaved;
    NothingUnsaved(s, run, id);
    SavedAnswersIncrease(s, run, Resident(id));
  }

  // ----- the global counter, exactly ---------------------------------------------------------------

  /** Some restart came after a response that was not saved. */
  predicate Tainted(s: State, run: seq<Event>)
  {
    run != [] &&
    var before := run[..|run| - 1];
    Tainted(s, before) || (run[|run| - 1].Restart? && Unsaved(s, before, Everyone))
  }

  /** No response follows a restart that came after an unsaved one. */
  predicate Clean(s: State, run: seq<Event>)
  {
    run == [] ||
    var before, e := run[..|run| - 1], run[|run| - 1];
    Clean(s, before) && (AnswerFor(After(s, before), e, Everyone).Some? ==> !Tainted(s, before))
  }

  /** Every raise of the global counter is answered, and every restart can read the header. */
  predicate AllSeen(s: State, run: seq<Event>)
  {
    run == [] ||
    var before, e := run[..|run| - 1], run[|run| - 1];
    && AllSeen(s, before)
    && (Raises(After(s, before), e, Everyone) ==> AnswerFor(After(s, before), e, Everyone).Some?)
    && (e.Restart? ==> e.load != Unread)
  }

  /** The file's counter, 0 without a file. */
  function FileCounter(s: State): nat
  {
    if s.disk.Some? then s.disk.value.counter else 0
  }

  predicate Position(s: State, last: nat, tainted: bool, unsaved: bool)
  {
    if tainted then FileCounter(s) < last && s.store.counter < last
    else
      && last <= s.store.counter && FileCounter(s) <= s.store.counter
      && (if unsaved then FileCounter(s) < last else last <= FileCounter(s) || last == 0)
  }

  lemma GlobalStep(s: State, e: Event)
    requires s.store.counter < COUNTER_LIMIT - 1 && !e.Wipe? && (e.Restart? ==> e.load != Unread)
    requires Raises(s, e, Everyone) ==> AnswerFor(s, e, Everyone).Some?
    ensures var t, r := Next(s, e), AnswerFor(s, e, Everyone);
            && (e.Restart? ==> t.store.counter == FileCounter(s) && t.disk == s.disk && r.None?)
            && (r.Some? ==> r.value == t.store.counter == s.store.counter + 1)
            && (!e.Restart? && r.None? ==> t.store.counter == s.store.counter)
            && (t.disk == s.disk || t.disk == Some(t.store))
  {
    hide MakeNext, AssertNow, AssertAgain, NextManaged, Restored, AnswerFor, Matching, Placed;
    StepSaves(s, e);
    if e.Restart? {
      RestartAnswersNobody(s, e.load, Everyone);
      if s.disk.Some? {
        RestoredHeader(s.disk.value);
      }
    } else {
      if AnswerFor(s, e, Everyone).Some? {
        StepAnswers(s, e, Everyone);
        StepRaises(s, e, Everyone);
      } else {
        StepKeepsCounter(s, e, Everyone);
      }
    }
  }

  lemma {:induction false} GlobalPosition(s: State, run: seq<Event>)
    requires Regular(s, run, Everyone) && AllSeen(s, run) && FileCounter(s) <= s.store.counter && Clean(s, run)
    ensures Increasing(Reported(s, run, Everyone))
    ensures Position(After(s, run), Last(Reported(s, run, Everyone)), Tainted(s, run), Unsaved(s, run, Everyone))
  {
    hide Next, Regular, AnswerFor, Increasing, Raises;
    if run == [] {
      NoReports();
    } else {
      var before, e := run[..|run| - 1], run[|run| - 1];
      var was := After(s, before);
      NoWipe(s, run, Everyone);
      RegularPrefix(s, run, Everyone);
      GlobalPosition(s, before);
      GlobalStep(was, e);
      if AnswerFor(was, e, Everyone).Some? {
        IncreasingAppend(Reported(s, before, Everyone), AnswerFor(was, e, Everyone).value);
      } else {
        assert Reported(s, run, Everyone) == Reported(s, before, Everyone);
      }
    }
  }

  /** Where every raised counter is answered and every header can be read, the global counters reported
      between resets strictly increase if and only if no response follows a restart before which another
      response was not saved. */
  lemma {:induction false} GlobalIncreasesIff(s: State, run: seq<Event>)
    requires Regular(s, run, Everyone) && AllSeen(s, run) && FileCounter(s) <= s.store.counter
    ensures Increasing(Reported(s, run, Everyone)) <==> Clean(s, run)
  {
    hide Next, Regular, AnswerFor, Increasing, Raises;
    if Clean(s, run) {
      GlobalPosition(s, run);
    } else {
      var before, e := run[..|run| - 1], run[|run| - 1];
      var was := After(s, before);
      RegularPrefix(s, run, Everyone);
      NoWipe(s, run, Everyone);
      GlobalIncreasesIff(s, before);
      if AnswerFor(was, e, Everyone).Some? {
        IncreasingAppend(Reported(s, before, Everyone), AnswerFor(was, e, Everyone).value);
        if Clean(s, before) {
          GlobalPosition(s, before);
          GlobalStep(was, e);
        }
      } else {
        assert Reported(s, run, Everyone) == Reported(s, before, Everyone);
      }
    }
  }

  // ----- what a restart takes ----------------------------------------------------------------------

  /** The file holds a counter of the owner; without a file the global counter starts from 0. */
  predicate InFile(s: State, o: Owner)
  {
    if s.disk.Some? then Present(s.disk.value, o) else o.Everyone?
  }

  function FileCount(s: State, o: Owner): nat
    requires InFile(s, o)
  {
    if s.disk.Some? then CounterIn(s.disk.value, o) else 0
  }

  /** The owner's raises since the file was last brought up to date, or read. */
  function RaisedSince(s: State, run: seq<Event>, o: Owner): nat
  {
    if run == [] || After(s, run).disk == Some(After(s, run).store) || run[|run| - 1].Restart? then 0
    else
      var before := run[..|run| - 1];
      RaisedSince(s, before, o) + if Raises(After(s, before), run[|run| - 1], o) then 1 else 0
  }

  /** Restarts read at least the header, and for a credential the whole file. */
  predicate Readable(run: seq<Event>, o: Owner)
  {
    forall i | 0 <= i < |run| :: run[i].Restart? ==> run[i].load != Unread && (o.Resident? ==> run[i].load == Whole)
  }

  predicate Lags(s: State, o: Owner, raised: nat)
  {
    Present(s.store, o) && InFile(s, o) ==> CounterIn(s.store, o) == FileCount(s, o) + raised
  }

  lemma UpToDate(s: State, o: Owner)
    requires s.disk == Some(s.store)
    ensures Lags(s, o, 0)
  {
    hide Present, CounterIn;
  }

  lemma RestartReads(s: State, load: Load, o: Owner)
    requires o.Resident? && s.disk.Some? ==> Copies(s.disk.value.slots, o.id) <= 1
    requires load != Unread && (o.Resident? ==> load == Whole)
    ensures Lags(Next(s, Restart(load)), o, 0)
    ensures InFile(Next(s, Restart(load)), o) == InFile(s, o)
    ensures InFile(s, o) ==> FileCount(Next(s, Restart(load)), o) == FileCount(s, o)
  {
    hide Copies, First, Restored, Placed, CounterIn;
    var t := Next(s, Restart(load));
    if s.disk.Some? {
      if o.Everyone? {
        RestoredHeader(s.disk.value);
        GlobalCounter(t.store);
        GlobalCounter(s.disk.value);
      } else if Present(t.store, o) {
        RestoredHolder(s.disk.value, o.id);
      }
    } else {
      GlobalCounter(t.store);
    }
  }

  lemma GlobalCounter(st: Store)
    ensures Present(st, Everyone) && CounterIn(st, Everyone) == st.counter
  {
  }

  lemma StepLags(s: State, e: Event, o: Owner, raised: nat)
    requires Low(s.store, o) && Lags(s, o, raised) && !e.Restart? && !e.Wipe?
    requires Next(s, e).disk == s.disk && Next(s, e).disk != Some(Next(s, e).store)
    requires o.Resident? && Makes(e, o.id) ==> !Present(Next(s, e).store, o) || !InFile(s, o)
    ensures Lags(Next(s, e), o, raised + if Raises(s, e, o) then 1 else 0)
  {
    hide Next, Makes, Low, CounterIn, Present, Raises;
    if Raises(s, e, o) {
      StepRaises(s, e, o);
    } else if !(o.Resident? && Makes(e, o.id)) && Present(Next(s, e).store, o) {
      StepKeepsCounter(s, e, o);
    }
  }

  /** Over every run with readable files a counter in memory is ahead of the one in the file by exactly the
      raises since the last successful save. */
  lemma {:induction false} FileLags(s: State, run: seq<Event>, o: Owner)
    requires Regular(s, run, o) && Readable(run, o) && (s.disk == Some(s.store) || s == INITIAL)
    ensures Lags(After(s, run), o, RaisedSince(s, run, o))
  {
    hide Next, Regular, Lags, Raises, Makes, Low, Copies;
    if run == [] {
      StartLags(s, o);
    } else {
      var before, e := run[..|run| - 1], run[|run| - 1];
      var was := After(s, before);
      NoWipe(s, run, o);
      RegularPrefix(s, run, o);
      FileLags(s, before, o);
      StepSaves(was, e);
      if After(s, run).disk == Some(After(s, run).store) {
        UpToDate(After(s, run), o);
      } else if e.Restart? {
        RestartReads(was, e.load, o);
      } else {
        if o.Resident? && Makes(e, o.id) {
          UnmadeInFile(s, run, o);
        }
        StepLags(was, e, o, RaisedSince(s, before, o));
      }
    }
  }

  lemma StartLags(s: State, o: Owner)
    requires s.disk == Some(s.store) || s == INITIAL
    ensures Lags(s, o, 0)
  {
    hide Placed, First;
  }

  lemma UnmadeInFile(s: State, run: seq<Event>, o: Owner)
    requires Regular(s, run, o) && run != [] && o.Resident? && Makes(run[|run| - 1], o.id)
    ensures !InFile(After(s, run[..|run| - 1]), o)
  {
    hide Makes, Copies, Next, First;
    var was := After(s, run[..|run| - 1]);
    RunCopies(s, run[..|run| - 1], o.id, 0);
    if was.disk.Some? {
      NoHolder(was.disk.value.slots, o.id);
    }
  }

  /** So what a restart takes from the margin is exactly the raises since the last successful save, and
      `AlwaysAhead` can be read off the events. */
  lemma RestartTakesRaises(s: State, run: seq<Event>, o: Owner)
    requires Regular(s, run, o) && Readable(run, o) && (s.disk == Some(s.store) || s == INITIAL)
    requires run != [] && run[|run| - 1].Restart?
    requires Present(After(s, run[..|run| - 1]).store, o) && Present(After(s, run).store, o)
    requires InFile(After(s, run[..|run| - 1]), o)
    ensures Margin(s, run, o) == Margin(s, run[..|run| - 1], o) - RaisedSince(s, run[..|run| - 1], o)
  {
    hide Next, Regular, RaisedSince, Raises, Low, Copies, CounterIn, Present, AnswerFor;
    var before, e := run[..|run| - 1], run[|run| - 1];
    var was := After(s, before);
    RegularPrefix(s, run, o);
    FileLags(s, before, o);
    RestartAnswersNobody(was, e.load, o);
    RestartReads(was, e.load, o);
    RestartRaisesNothing(was, e.load, o);
  }

  lemma RestartRaisesNothing(s: State, load: Load, o: Owner)
    ensures !Raises(s, Restart(load), o)
  {
  }

  /** In particular an unsaved response, a restart and another response repeat the counter, or go back. */
  lemma RestartRepeatsCounter(s: State, e: Event, load: Load, e': Event)
    requires s.store.counter < COUNTER_LIMIT - 1 && FileCounter(s) <= s.store.counter && load != Unread
    requires AnswerFor(s, e, Everyone).Some? && Next(s, e).disk == s.disk
    requires AnswerFor(Next(Next(s, e), Restart(load)), e', Everyone).Some?
    ensures AnswerFor(Next(Next(s, e), Restart(load)), e', Everyone).value == FileCounter(s) + 1
    ensures AnswerFor(Next(Next(s, e), Restart(load)), e', Everyone).value <= AnswerFor(s, e, Everyone).value
  {
    hide MakeNext, AssertNow, AssertAgain, NextManaged, Restored, AnswerFor, Matching, Placed;
    StepAnswers(s, e, Everyone);
    var t := Next(Next(s, e), Restart(load));
    if s.disk.Some? {
      RestoredHeader(s.disk.value);
    }
    StepAnswers(t, e', Everyone);
  }
}
