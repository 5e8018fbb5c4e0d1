/** Runs of GetAssertion and GetNextAssertion: which credentials answer, and with which counters. */
module Assertions {
  import opened Bytes
  import opened Credentials

  // ----- enumeration -------------------------------------------------------------------------------

  /** The slot whose credential this command signs with. */
  function Addressed(s: State, e: Event): Option<nat>
  {
    if e.Assert? then
      var m := Matching(s.store.slots, Discoverable(e.rp, e.verified), |s.store.slots|);
      if m == [] then None else Some(m[0])
    else if
      && e.AssertNext? && Elapsed(e.now, s.assertion.stamp) <= ASSERTION_SECONDS
      && s.assertion.index < |s.assertion.matches|
    then
      Some(s.assertion.matches[s.assertion.index])
    else None
  }

  /** What stays of a slot while its counter moves. */
  function Settled(slot: Slot): Slot
  {
    if slot.None? then None else Some(slot.value.(signCount := 0))
  }

  /** The same credentials, up to their counters. */
  predicate SameCredentials(a: seq<Slot>, b: seq<Slot>)
  {
    |a| == |b| && forall k | 0 <= k < |a| :: Settled(a[k]) == Settled(b[k])
  }

  /** All commands continue the assertion begun at `start`, within thirty seconds of it. */
  predicate Timely(start: u64, run: seq<Event>)
  {
    forall i | 0 <= i < |run| :: run[i].AssertNext? && Elapsed(run[i].now, start) <= ASSERTION_SECONDS
  }

  lemma SignKeepsCredentials(s: State, k: nat, outcome: Outcome, saved: bool)
    ensures SameCredentials(s.store.slots, SignWith(s, k, outcome, saved).store.slots)
    ensures SignWith(s, k, outcome, saved).assertion == s.assertion
  {
  }

  lemma SameIsTransitive(a: seq<Slot>, b: seq<Slot>, c: seq<Slot>)
    requires SameCredentials(a, b) && SameCredentials(b, c)
    ensures SameCredentials(a, c)
  {
    hide Settled;
  }

  /** The assertion's own state after it is begun and continued n times. */
  function Progress(m: seq<nat>, now: u64, n: nat): Assertion
  {
    Assertion(m, if n + 1 <= |m| then n + 1 else |m|, now)
  }

  lemma BeginProgress(s: State, e: Event, m: seq<nat>)
    requires e.Assert? && m == Matching(s.store.slots, Discoverable(e.rp, e.verified), |s.store.slots|)
    ensures Next(s, e).assertion == Progress(m, e.now, 0) && SameCredentials(s.store.slots, Next(s, e).store.slots)
  {
    hide Matching, SignWith;
    if m != [] {
      SignKeepsCredentials(s.(assertion := Assertion(m, 1, e.now)), m[0], e.outcome, e.saved);
    }
  }

  lemma ContinueProgress(s: State, e: Event, m: seq<nat>, now: u64, n: nat)
    requires e.AssertNext? && Elapsed(e.now, now) <= ASSERTION_SECONDS && s.assertion == Progress(m, now, n)
    ensures Next(s, e).assertion == Progress(m, now, n + 1) && SameCredentials(s.store.slots, Next(s, e).store.slots)
    ensures Addressed(s, e) == if n + 1 < |m| then Some(m[n + 1]) else None
  {
    hide SignWith;
    var a := s.assertion;
    if a.index < |m| {
      SignKeepsCredentials(s.(assertion := a.(index := a.index + 1)), m[a.index], e.outcome, e.saved);
    }
  }

  lemma {:induction false} Continued(s: State, first: Event, run: seq<Event>, m: seq<nat>)
    requires first.Assert? && m == Matching(s.store.slots, Discoverable(first.rp, first.verified), |s.store.slots|)
    requires Timely(first.now, run)
    ensures var s' := After(Next(s, first), run);
            s'.assertion == Progress(m, first.now, |run|) && SameCredentials(s.store.slots, s'.store.slots)
  {
    hide Matching, Next, Addressed, Elapsed, Progress, SameCredentials;
    if run == [] {
      BeginProgress(s, first, m);
    } else {
      var before := run[..|run| - 1];
      Continued(s, first, before, m);
      var t := After(Next(s, first), before);
      ContinueProgress(t, run[|run| - 1], m, first.now, |before|);
      SameIsTransitive(s.store.slots, t.store.slots, Next(t, run[|run| - 1]).store.slots);
    }
  }

  /** With an empty allowList, GetAssertion and the GetNextAssertions that follow within thirty seconds
      address exactly the relying party's credentials admitted by credProtect: the i-th command the i-th of
      them in slot order, each once, and the commands after the last address none. The credentials are
      still those found at the start, up to their counters. */
  lemma EnumerationIsExact(s: State, first: Event, run: seq<Event>, i: nat)
    requires first.Assert? && Timely(first.now, run) && i < |run|
    ensures var slots := s.store.slots;
            var m := Matching(slots, Discoverable(first.rp, first.verified), |slots|);
            var t := After(Next(s, first), run[..i]);
            && Addressed(s, first) == (if m == [] then None else Some(m[0]))
            && Addressed(t, run[i]) == (if i + 1 < |m| then Some(m[i + 1]) else None)
            && SameCredentials(slots, t.store.slots)
    ensures var slots := s.store.slots;
            var m := Matching(slots, Discoverable(first.rp, first.verified), |slots|);
            && (forall k :: k in m <==>
                  && 0 <= k < |slots| && slots[k].Some? && slots[k].value.rpHash == first.rp
                  && (slots[k].value.credProtect <= 1 || (slots[k].value.credProtect == 2 && first.verified)))
            && (forall a, b | 0 <= a < b < |m| :: m[a] < m[b])
  {
    hide Next, Progress, SameCredentials, Meets, Elapsed;
    var slots := s.store.slots;
    var m := Matching(slots, Discoverable(first.rp, first.verified), |slots|);
    MatchingExact(slots, Discoverable(first.rp, first.verified), |slots|);
    AllAdmitted(slots, first.rp, first.verified);
    Continued(s, first, run[..i], m);
    ContinueProgress(After(Next(s, first), run[..i]), run[i], m, first.now, i);
  }

  /** A command that is not about assertions ends the enumeration: until the next GetAssertion no
      credential answers, whatever the clock says. */
  lemma {:induction false} OtherCommandsEndIt(s: State, e: Event, run: seq<Event>)
    requires !e.Assert? && !e.AssertNext?
    requires forall i | 0 <= i < |run| :: !run[i].Assert?
    ensures After(Next(s, e), run).assertion.matches == []
    ensures forall next: Event | !next.Assert? :: Addressed(After(Next(s, e), run), next) == None
  {
    hide Matching, First, Restored, SignWith, Rps, Saved;
    if run == [] {
      Ends(s, e);
    } else {
      OtherCommandsEndIt(s, e, run[..|run| - 1]);
      StaysEnded(After(Next(s, e), run[..|run| - 1]), run[|run| - 1]);
    }
  }

  lemma Ends(s: State, e: Event)
    requires !e.Assert? && !e.AssertNext?
    ensures Next(s, e).assertion.matches == []
  {
    hide Matching, First, Restored, SignWith, Rps, Meets, Prefix;
  }

  lemma StaysEnded(s: State, e: Event)
    requires !e.Assert? && s.assertion.matches == []
    ensures Next(s, e).assertion.matches == []
  {
    hide Matching, First, Restored, SignWith, Rps, Meets, Prefix;
  }

  /** The matches of the assertion in progress are slots in use. */
  predicate Live(s: State)
  {
    forall k | k in s.assertion.matches :: 0 <= k < |s.store.slots| && s.store.slots[k].Some?
  }

  lemma SameIsLive(s: State, s': State)
    requires Live(s) && SameCredentials(s.store.slots, s'.store.slots)
    requires forall k | k in s'.assertion.matches :: k in s.assertion.matches
    ensures Live(s')
  {
  }

  lemma AssertKeepsLive(s: State, e: Event)
    requires (e.Assert? || e.AssertNext?) && Live(s)
    ensures Live(Next(s, e))
  {
    hide Matching, SignWith, SameCredentials, Meets;
    if e.Assert? {
      var q := Discoverable(e.rp, e.verified);
      var m := Matching(s.store.slots, q, |s.store.slots|);
      MatchingExact(s.store.slots, q, |s.store.slots|);
      MetIsUsed(s.store.slots, q);
      BeginProgress(s, e, m);
      SameIsLive(s.(assertion := Progress(m, e.now, 0)), Next(s, e));
    } else if s.assertion.index < |s.assertion.matches| {
      var a := s.assertion;
      var t := s.(assertion := a.(index := a.index + 1));
      SignKeepsCredentials(t, a.matches[a.index], e.outcome, e.saved);
      SameIsLive(t, SignWith(t, a.matches[a.index], e.outcome, e.saved));
    }
  }

  lemma MetIsUsed(slots: seq<Slot>, q: Query)
    requires q.Discoverable?
    ensures forall k | 0 <= k < |slots| && Meets(slots[k], q) :: slots[k].Some?
  {
  }

  /** In every reachable state GetNextAssertion finds its credential in use. */
  lemma {:induction false} MatchesAreLive(run: seq<Event>)
    ensures Live(After(INITIAL, run))
  {
    hide Next, Matching;
    if run != [] {
      var s, e := After(INITIAL, run[..|run| - 1]), run[|run| - 1];
      MatchesAreLive(run[..|run| - 1]);
      if e.Assert? || e.AssertNext? {
        AssertKeepsLive(s, e);
      } else {
        Ends(s, e);
      }
    }
  }

  // ----- signature counters ------------------------------------------------------------------------

  /** Whose counter: that of the credential in a slot, or the global one. */
  datatype Key = Global | OfSlot(slot: nat)

  datatype Signature = NoSignature | Signature(key: Key, counter: nat)

  /** The counter in a successful response. */
  function Signed(s: State, e: Event): Signature
  {
    if e.Make? && e.outcome == Built
       && (e.discoverable ==> e.saved && TargetSlot(s.store.slots, e.cred) < |s.store.slots|) then
      Signature(Global, Next(s, e).store.counter)
    else if e.AssertWrapped? && e.outcome == Built then Signature(Global, Next(s, e).store.counter)
    else if (e.Assert? || e.AssertNext?) && e.outcome == Built && Addressed(s, e).Some? then
      var k := Addressed(s, e).value;
      if k < |Next(s, e).store.slots| && Next(s, e).store.slots[k].Some? then
        Signature(OfSlot(k), Next(s, e).store.slots[k].value.signCount)
      else NoSignature
    else NoSignature
  }

  /** A successful assertion whose save succeeds leaves its counter on disk, where a restart finds it. */
  lemma AnswersAreDurable(s: State, e: Event)
    requires (e.Assert? || e.AssertNext?) && e.saved && Signed(s, e).Signature?
    ensures Next(s, e).disk == Some(Next(s, e).store)
    ensures Next(Next(s, e), Restart(Whole)).store == Restored(Next(s, e).store)
  {
    hide Matching, Restored;
  }
}
