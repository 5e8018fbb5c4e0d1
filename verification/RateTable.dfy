/** The daemon's table of rate limiters: one entry for each of at most 128 users. When the table is full,
    looking up an unknown user evicts the entry with the least activity, and with it that user's failures,
    lockout and backoff. The configuration is fixed and the clock does not run backwards. */
module RateTable {
  import opened RateLimit

  const TABLE := 128

  /** A user's limiter, and the raw failure times of its ring: they outlive the clearing of an expired
      lockout. */
  datatype Entry = Entry(uid: nat, state: Ideal, raw: seq<int>)

  function NoTimes(): (raw: seq<int>)
    ensures |raw| == RING && forall i | 0 <= i < RING :: raw[i] == 0
  {
    seq(RING, i => 0)
  }

  function Blank(uid: nat): Entry
  {
    Entry(uid, FRESH, NoTimes())
  }

  // ----- looking a user up -------------------------------------------------------------------------

  /** The first entry of a user from i on, or the number of entries. */
  function IndexFrom(es: seq<Entry>, uid: nat, i: nat): (k: nat)
    requires i <= |es|
    ensures i <= k <= |es| && (k < |es| ==> es[k].uid == uid)
    ensures forall j | i <= j < k :: es[j].uid != uid
    decreases |es| - i
  {
    if i == |es| || es[i].uid == uid then i else IndexFrom(es, uid, i + 1)
  }

  function Index(es: seq<Entry>, uid: nat): (k: nat)
    ensures k <= |es| && (k < |es| ==> es[k].uid == uid)
    ensures forall j | 0 <= j < k :: es[j].uid != uid
  {
    IndexFrom(es, uid, 0)
  }

  /** The greatest of the first n times, at least 0. */
  function Latest(raw: seq<int>, n: nat): (t: int)
    requires n <= |raw|
    ensures t >= 0 && forall i | 0 <= i < n :: raw[i] <= t
  {
    if n == 0 then 0
    else
      var t := Latest(raw, n - 1);
      if raw[n - 1] > t then raw[n - 1] else t
  }

  function Activity(e: Entry): int
  {
    var t := Latest(e.raw, |e.raw|);
    if e.state.lockedUntil > t then e.state.lockedUntil else t
  }

  /** The first of the least active among the first n entries. */
  function Stalest(es: seq<Entry>, n: nat): (k: nat)
    requires 0 < n <= |es|
    ensures k < n && forall j | 0 <= j < n :: Activity(es[k]) <= Activity(es[j])
    ensures forall j | 0 <= j < k :: Activity(es[k]) < Activity(es[j])
  {
    if n == 1 then 0
    else
      var k := Stalest(es, n - 1);
      if Activity(es[n - 1]) < Activity(es[k]) then n - 1 else k
  }

  datatype Found = Found(entries: seq<Entry>, at: nat)

  function Lookup(es: seq<Entry>, uid: nat): (r: Found)
    requires |es| <= TABLE
    ensures r.at < |r.entries| <= TABLE && r.entries[r.at].uid == uid
  {
    var k := Index(es, uid);
    if k < |es| then Found(es, k)
    else if |es| < TABLE then Found(es + [Blank(uid)], |es|)
    else Found(es[Stalest(es, TABLE) := Blank(uid)], Stalest(es, TABLE))
  }

  // ----- events ------------------------------------------------------------------------------------

  datatype UserEvent = UserEvent(uid: nat, event: Event)

  function EntryStep(e: Entry, cfg: Config, ev: Event): Entry
  {
    var raw := match ev
      case Check(_) => e.raw
      case Failure(now) => if |e.raw| == RING then e.raw[|e.state.log| % RING := now] else e.raw
      case Success(_) => NoTimes();
    Entry(e.uid, Step(e.state, cfg, ev), raw)
  }

  function Next(es: seq<Entry>, cfg: Config, e: UserEvent): (r: seq<Entry>)
    requires |es| <= TABLE
    ensures |r| <= TABLE
  {
    var found := Lookup(es, e.uid);
    found.entries[found.at := EntryStep(found.entries[found.at], cfg, e.event)]
  }

  function After(cfg: Config, run: seq<UserEvent>): (r: seq<Entry>)
    ensures |r| <= TABLE
  {
    if run == [] then [] else Next(After(cfg, run[..|run| - 1]), cfg, run[|run| - 1])
  }

  /** A user's limiter; a user without an entry has a fresh one. */
  function StateOf(es: seq<Entry>, uid: nat): Ideal
  {
    if Index(es, uid) < |es| then es[Index(es, uid)].state else FRESH
  }

  /** Looking up one user evicts another. */
  predicate Evicts(es: seq<Entry>, uid: nat, other: nat)
  {
    |es| == TABLE && Index(es, uid) == |es| && es[Stalest(es, TABLE)].uid == other
  }

  // ----- what holds in every table -----------------------------------------------------------------

  predicate Distinct(es: seq<Entry>)
  {
    forall i, j | 0 <= i < j < |es| :: es[i].uid != es[j].uid
  }

  ghost predicate EntryOk(e: Entry, cfg: Config, clock: int)
  {
    Holds(e.raw, e.state.log) && UpTo(e.raw, clock) && Timely(e.state, cfg, clock)
  }

  ghost predicate TableOk(es: seq<Entry>, cfg: Config, clock: int)
  {
    |es| <= TABLE && Distinct(es) && forall i | 0 <= i < |es| :: EntryOk(es[i], cfg, clock)
  }

  lemma IndexUnique(es: seq<Entry>, k: nat)
    requires Distinct(es) && k < |es|
    ensures Index(es, es[k].uid) == k
  {
  }

  lemma BlankOk(uid: nat, cfg: Config, clock: int)
    requires clock >= 0
    ensures EntryOk(Blank(uid), cfg, clock)
  {
    assert NoTimes()[..0] == [];
  }

  lemma LaterOk(e: Entry, cfg: Config, clock: int, now: int)
    requires EntryOk(e, cfg, clock) && clock <= now
    ensures EntryOk(e, cfg, now)
  {
    hide Holds, Backoff;
  }

  lemma EntryStepOk(e: Entry, cfg: Config, clock: int, ev: Event)
    requires EntryOk(e, cfg, clock) && ev.at >= clock && ConfigOk(cfg)
    ensures EntryOk(EntryStep(e, cfg, ev), cfg, ev.at)
  {
    hide Backoff, Recent, Timely, Holds, Step;
    StepTimely(e.state, cfg, clock, ev);
    HoldsLength(e.raw, e.state.log);
    StepLog(e.state, cfg, ev);
    match ev
    case Check(now) => NothingHeld(e.raw);
    case Failure(now) => PushedRing(e.raw, e.state.log, now);
    case Success(now) =>
      NothingHeld(NoTimes());
      ClockPositive(e, cfg, clock);
  }

  lemma StepLog(s: Ideal, cfg: Config, ev: Event)
    ensures ev.Check? ==> Step(s, cfg, ev).log == s.log || Step(s, cfg, ev).log == []
    ensures ev.Failure? ==> Step(s, cfg, ev).log == s.log + [ev.at]
    ensures ev.Success? ==> Step(s, cfg, ev) == FRESH
  {
    hide Backoff, Recent;
  }

  lemma HoldsLength(raw: seq<int>, log: seq<int>)
    requires Holds(raw, log)
    ensures |raw| == RING
  {
  }

  lemma NothingHeld(raw: seq<int>)
    requires |raw| == RING
    ensures Holds(raw, [])
  {
  }

  lemma ClockPositive(e: Entry, cfg: Config, clock: int)
    requires EntryOk(e, cfg, clock)
    ensures clock >= 0
  {
    hide Backoff, Holds;
  }

  lemma LookupOk(es: seq<Entry>, cfg: Config, clock: int, uid: nat)
    requires TableOk(es, cfg, clock) && clock >= 0
    ensures TableOk(Lookup(es, uid).entries, cfg, clock)
  {
    hide EntryOk, Stalest;
    BlankOk(uid, cfg, clock);
  }

  lemma TableLater(es: seq<Entry>, cfg: Config, clock: int, now: int)
    requires TableOk(es, cfg, clock) && clock <= now
    ensures TableOk(es, cfg, now)
  {
    hide EntryOk;
    forall i | 0 <= i < |es| ensures EntryOk(es[i], cfg, now) {
      LaterOk(es[i], cfg, clock, now);
    }
  }

  lemma NextOk(es: seq<Entry>, cfg: Config, clock: int, e: UserEvent)
    requires TableOk(es, cfg, clock) && clock >= 0 && e.event.at >= clock && ConfigOk(cfg)
    ensures TableOk(Next(es, cfg, e), cfg, e.event.at)
  {
    hide EntryOk, EntryStep, Lookup;
    var found := Lookup(es, e.uid);
    LookupOk(es, cfg, clock, e.uid);
    EntryStepOk(found.entries[found.at], cfg, clock, e.event);
    TableLater(found.entries, cfg, clock, e.event.at);
    StepUid(found.entries[found.at], cfg, e.event);
  }

  lemma StepUid(e: Entry, cfg: Config, ev: Event)
    ensures EntryStep(e, cfg, ev).uid == e.uid && EntryStep(e, cfg, ev).state == Step(e.state, cfg, ev)
  {
    hide Step;
  }

  predicate ClockRuns(run: seq<UserEvent>)
  {
    && (forall i | 0 <= i < |run| :: 0 <= run[i].event.at)
    && forall i, j | 0 <= i < j < |run| :: run[i].event.at <= run[j].event.at
  }

  function Clock(run: seq<UserEvent>): int
  {
    if run == [] then 0 else run[|run| - 1].event.at
  }

  /** In every reachable table each user has at most one entry, whose ring holds the newest failures. */
  lemma {:induction false} ReachableOk(cfg: Config, run: seq<UserEvent>)
    requires ClockRuns(run) && ConfigOk(cfg)
    ensures TableOk(After(cfg, run), cfg, Clock(run)) && Clock(run) >= 0
  {
    hide Next, TableOk, ConfigOk;
    if run == [] {
      NoEntries(cfg);
    } else {
      ReachableOk(cfg, run[..|run| - 1]);
      NextOk(After(cfg, run[..|run| - 1]), cfg, Clock(run[..|run| - 1]), run[|run| - 1]);
    }
  }

  lemma NoEntries(cfg: Config)
    ensures TableOk([], cfg, 0)
  {
  }

  // ----- one user in the table ---------------------------------------------------------------------

  lemma {:induction false} IndexKept(es: seq<Entry>, es': seq<Entry>, uid: nat, i: nat)
    requires |es| == |es'| && i <= |es| && forall j | 0 <= j < |es| :: (es'[j].uid == uid <==> es[j].uid == uid)
    ensures IndexFrom(es', uid, i) == IndexFrom(es, uid, i)
    decreases |es| - i
  {
    if i < |es| && es[i].uid != uid {
      IndexKept(es, es', uid, i + 1);
    }
  }

  lemma {:induction false} IndexAppended(es: seq<Entry>, e: Entry, uid: nat, i: nat)
    requires i <= |es| && e.uid != uid
    ensures IndexFrom(es + [e], uid, i) == if IndexFrom(es, uid, i) < |es| then IndexFrom(es, uid, i) else |es| + 1
    decreases |es| - i
  {
    if i < |es| && es[i].uid != uid {
      IndexAppended(es, e, uid, i + 1);
    } else if i == |es| {
      assert IndexFrom(es + [e], uid, |es| + 1) == |es| + 1;
    }
  }

  /** A lookup leaves every other user's limiter alone, unless it evicts that user. */
  lemma LookupOther(es: seq<Entry>, uid: nat, u: nat)
    requires |es| <= TABLE && Distinct(es) && u != uid
    ensures StateOf(Lookup(es, uid).entries, u) == if Evicts(es, uid, u) then FRESH else StateOf(es, u)
  {
    hide Stalest, IndexFrom;
    if Index(es, uid) == |es| {
      if |es| < TABLE {
        IndexAppended(es, Blank(uid), u, 0);
      } else {
        var k := Stalest(es, TABLE);
        if es[k].uid == u {
          Evicted(es, k, Blank(uid), u);
        } else {
          IndexKept(es, es[k := Blank(uid)], u, 0);
        }
      }
    }
  }

  lemma Evicted(es: seq<Entry>, k: nat, e: Entry, u: nat)
    requires Distinct(es) && k < |es| && es[k].uid == u && e.uid != u
    ensures Index(es[k := e], u) == |es|
  {
    hide IndexFrom;
    var es' := es[k := e];
    assert forall j | 0 <= j < |es'| :: es'[j].uid != u;
  }

  /** Another user's event leaves a user's limiter alone, unless its lookup evicts that user. */
  lemma OtherEvent(es: seq<Entry>, cfg: Config, e: UserEvent, u: nat)
    requires |es| <= TABLE && Distinct(es) && u != e.uid
    ensures StateOf(Next(es, cfg, e), u) == if Evicts(es, e.uid, u) then FRESH else StateOf(es, u)
  {
    hide Lookup, EntryStep, IndexFrom, Evicts;
    LookupOther(es, e.uid, u);
    var found := Lookup(es, e.uid);
    StepUid(found.entries[found.at], cfg, e.event);
    IndexKept(found.entries, Next(es, cfg, e), u, 0);
  }

  /** A user's own event moves its limiter as if there were no table. */
  lemma OwnEvent(es: seq<Entry>, cfg: Config, e: UserEvent)
    requires |es| <= TABLE && Distinct(es)
    ensures StateOf(Next(es, cfg, e), e.uid) == Step(StateOf(es, e.uid), cfg, e.event)
  {
    hide EntryStep, IndexFrom, Step, Stalest;
    var found := Lookup(es, e.uid);
    StepUid(found.entries[found.at], cfg, e.event);
    var k := Index(Next(es, cfg, e), e.uid);
    FoundFirst(es, e.uid);
    IndexKept(found.entries, Next(es, cfg, e), e.uid, 0);
  }

  lemma OwnFailure(es: seq<Entry>, cfg: Config, uid: nat, now: int)
    requires |es| <= TABLE && Distinct(es)
    ensures var was, s := StateOf(es, uid), StateOf(Next(es, cfg, UserEvent(uid, Failure(now))), uid);
            && s.log == was.log + [now]
            && if cfg.maxAttempts <= 33 && Recent(was.log, now, cfg.window) + 1 >= cfg.maxAttempts
               then LastsFor(s.lockedUntil - now, cfg.lockout, was.lockouts) && s.lockouts == was.lockouts + 1
               else s.lockedUntil == was.lockedUntil && s.lockouts == was.lockouts
  {
    hide StateOf, Next, Recent, Backoff, LastsFor;
    OwnEvent(es, cfg, UserEvent(uid, Failure(now)));
    BackoffLasts(cfg.lockout, StateOf(es, uid).lockouts);
  }

  lemma OwnCheck(es: seq<Entry>, cfg: Config, uid: nat, now: int)
    requires |es| <= TABLE && Distinct(es)
    ensures var was, s := StateOf(es, uid), StateOf(Next(es, cfg, UserEvent(uid, Check(now))), uid);
            s == if 0 < was.lockedUntil <= now then Ideal([], 0, was.lockouts) else was
  {
    hide StateOf, Next;
    OwnEvent(es, cfg, UserEvent(uid, Check(now)));
  }

  lemma FoundFirst(es: seq<Entry>, uid: nat)
    requires |es| <= TABLE && Distinct(es)
    ensures Index(Lookup(es, uid).entries, uid) == Lookup(es, uid).at
    ensures Lookup(es, uid).entries[Lookup(es, uid).at].state == StateOf(es, uid)
  {
    hide Stalest, IndexFrom;
    var found := Lookup(es, uid);
    assert forall j | 0 <= j < found.at :: found.entries[j].uid != uid;
  }

  // ----- runs --------------------------------------------------------------------------------------

  /** A user's own events since it was last evicted. */
  function Own(cfg: Config, run: seq<UserEvent>, u: nat): seq<Event>
  {
    if run == [] then []
    else
      var before, e := run[..|run| - 1], run[|run| - 1];
      if e.uid == u then Own(cfg, before, u) + [e.event]
      else if Evicts(After(cfg, before), e.uid, u) then []
      else Own(cfg, before, u)
  }

  /** Over every run a user's limiter in the table is what the unbounded one would be after that user's own
      events since its last eviction. */
  lemma {:induction false} TableIsIdeal(cfg: Config, run: seq<UserEvent>, u: nat)
    requires ClockRuns(run) && ConfigOk(cfg)
    ensures StateOf(After(cfg, run), u) == Run(FRESH, cfg, Own(cfg, run, u))
  {
    hide Next, Step, ConfigOk, Evicts, StateOf, EntryOk;
    if run == [] {
      NobodyYet(u);
    } else {
      var before, e := run[..|run| - 1], run[|run| - 1];
      TableIsIdeal(cfg, before, u);
      ReachableOk(cfg, before);
      if e.uid == u {
        OwnEvent(After(cfg, before), cfg, e);
        var own := Own(cfg, before, u) + [e.event];
        assert own[..|own| - 1] == Own(cfg, before, u);
      } else {
        OtherEvent(After(cfg, before), cfg, e, u);
      }
    }
  }

  lemma NobodyYet(u: nat)
    ensures StateOf([], u) == FRESH
  {
  }

  /** Over every run, an event brings the end of a user's lockout forward if and only if it is that user's
      success, a check that finds the lockout expired, or the lookup of a user unknown to a full table in
      which the locked user is the first of the least active. */
  lemma LockoutLiftedIff(cfg: Config, run: seq<UserEvent>, u: nat)
    requires ClockRuns(run) && ConfigOk(cfg) && run != []
    requires StateOf(After(cfg, run[..|run| - 1]), u).lockedUntil > 0
    ensures var es, e := After(cfg, run[..|run| - 1]), run[|run| - 1];
            var was := StateOf(es, u).lockedUntil;
            StateOf(After(cfg, run), u).lockedUntil < was <==>
              || (e.uid == u && (e.event.Success? || (e.event.Check? && was <= e.event.at)))
              || Evicts(es, e.uid, u)
  {
    hide After, Next, Evicts, TableOk, StateOf;
    ReachableOk(cfg, run[..|run| - 1]);
    AfterLast(cfg, run);
    EventLifts(After(cfg, run[..|run| - 1]), cfg, Clock(run[..|run| - 1]), run[|run| - 1], u);
  }

  lemma AfterLast(cfg: Config, run: seq<UserEvent>)
    requires run != []
    ensures After(cfg, run) == Next(After(cfg, run[..|run| - 1]), cfg, run[|run| - 1])
  {
    hide Next;
  }

  lemma EventLifts(es: seq<Entry>, cfg: Config, clock: int, e: UserEvent, u: nat)
    requires TableOk(es, cfg, clock) && clock >= 0 && e.event.at >= clock && ConfigOk(cfg)
    requires StateOf(es, u).lockedUntil > 0
    ensures var was := StateOf(es, u).lockedUntil;
            StateOf(Next(es, cfg, e), u).lockedUntil < was <==>
              || (e.uid == u && (e.event.Success? || (e.event.Check? && was <= e.event.at)))
              || Evicts(es, e.uid, u)
  {
    hide Next, Step, Evicts, EntryOk, StateOf;
    if e.uid == u {
      OwnEvent(es, cfg, e);
      UserTimely(es, cfg, clock, u);
      OwnEventLifts(StateOf(es, u), cfg, clock, e.event);
      NobodyEvictsItself(es, u);
    } else {
      OtherEvent(es, cfg, e, u);
    }
  }

  lemma UserTimely(es: seq<Entry>, cfg: Config, clock: int, u: nat)
    requires TableOk(es, cfg, clock) && clock >= 0
    ensures Timely(StateOf(es, u), cfg, clock)
  {
    hide IndexFrom, Backoff, Holds;
    if Index(es, u) < |es| {
      assert EntryOk(es[Index(es, u)], cfg, clock);
    }
  }

  lemma NobodyEvictsItself(es: seq<Entry>, u: nat)
    ensures !Evicts(es, u, u)
  {
    hide IndexFrom, Stalest;
  }

  lemma {:induction false} LatestBound(raw: seq<int>, n: nat, clock: int)
    requires n <= |raw| && clock >= 0 && UpTo(raw, clock)
    ensures Latest(raw, n) <= clock
  {
    if n > 0 {
      LatestBound(raw, n - 1, clock);
    }
  }

  /** A lockout that is still running is evicted only from a table in which all 128 users are locked out, none
      of them for less time. */
  lemma RunningLockoutEvicted(es: seq<Entry>, cfg: Config, clock: int, uid: nat, u: nat)
    requires TableOk(es, cfg, clock) && clock >= 0 && Evicts(es, uid, u) && StateOf(es, u).lockedUntil > clock
    ensures forall i | 0 <= i < |es| :: es[i].state.lockedUntil >= StateOf(es, u).lockedUntil
  {
    hide IndexFrom, Timely, Holds, Stalest, Latest;
    var k := Stalest(es, TABLE);
    IndexUnique(es, k);
    forall i | 0 <= i < |es| ensures es[i].state.lockedUntil >= es[k].state.lockedUntil {
      assert EntryOk(es[i], cfg, clock) && EntryOk(es[k], cfg, clock);
      LatestBound(es[i].raw, |es[i].raw|, clock);
      LatestBound(es[k].raw, |es[k].raw|, clock);
    }
  }

  // ----- a run that lifts a running lockout --------------------------------------------------------

  /** Two failures for each of the first n users, all in the same second. */
  function Crowd(n: nat): seq<UserEvent>
  {
    if n == 0 then []
    else Crowd(n - 1) + [UserEvent(n - 1, Failure(1)), UserEvent(n - 1, Failure(1))]
  }

  function LockedEntry(uid: nat, cfg: Config): Entry
  {
    Entry(uid, Ideal([1, 1], 1 + Backoff(cfg.lockout, 0), 1), NoTimes()[0 := 1][1 := 1])
  }

  ghost predicate AllLocked(es: seq<Entry>, cfg: Config, n: nat)
  {
    |es| == n && forall i | 0 <= i < n :: es[i] == LockedEntry(i, cfg)
  }

  lemma TwoFailures(uid: nat, cfg: Config)
    requires cfg.maxAttempts == 2 && cfg.window >= 0
    ensures EntryStep(EntryStep(Blank(uid), cfg, Failure(1)), cfg, Failure(1)) == LockedEntry(uid, cfg)
  {
    hide Backoff;
    assert Recent([1], 1, cfg.window) == 1 by { assert [1][..0] == []; }
    assert [] + [1] == [1] && [1] + [1] == [1, 1];
  }

  lemma NewUser(es: seq<Entry>, cfg: Config, n: nat)
    requires AllLocked(es, cfg, n) && n < TABLE && cfg.maxAttempts == 2 && cfg.window >= 0
    ensures var e := UserEvent(n, Failure(1)); AllLocked(Next(Next(es, cfg, e), cfg, e), cfg, n + 1)
  {
    hide EntryStep, LockedEntry;
    var e := UserEvent(n, Failure(1));
    TwoFailures(n, cfg);
    LockedUids(es, cfg, n);
    StepUid(Blank(n), cfg, Failure(1));
    var es1 := Next(es, cfg, e);
    assert es1 == es + [EntryStep(Blank(n), cfg, Failure(1))];
    assert forall j | 0 <= j < n :: es1[j].uid != n;
    assert es1[n].uid == n;
    IndexIs(es1, n, n);
  }

  lemma IndexIs(es: seq<Entry>, uid: nat, k: nat)
    requires k < |es| && es[k].uid == uid && forall j | 0 <= j < k :: es[j].uid != uid
    ensures Index(es, uid) == k
  {
  }

  lemma LockedUids(es: seq<Entry>, cfg: Config, n: nat)
    requires AllLocked(es, cfg, n)
    ensures (forall i | 0 <= i < n :: es[i].uid == i) && Index(es, n) == n
  {
  }

  lemma {:induction false} Crowded(cfg: Config, n: nat)
    requires n <= TABLE && cfg.maxAttempts == 2 && cfg.window >= 0
    ensures AllLocked(After(cfg, Crowd(n)), cfg, n) && (n > 0 ==> Clock(Crowd(n)) == 1)
  {
    hide Next, LockedEntry;
    if n > 0 {
      Crowded(cfg, n - 1);
      var e := UserEvent(n - 1, Failure(1));
      AfterTwo(cfg, Crowd(n - 1), e);
      NewUser(After(cfg, Crowd(n - 1)), cfg, n - 1);
    }
  }

  lemma AfterTwo(cfg: Config, run: seq<UserEvent>, e: UserEvent)
    ensures After(cfg, run + [e, e]) == Next(Next(After(cfg, run), cfg, e), cfg, e)
  {
    hide Next;
    assert (run + [e, e])[..|run| + 1] == run + [e];
    assert (run + [e])[..|run|] == run;
  }

  lemma {:induction false} FirstIsStalest(es: seq<Entry>, cfg: Config, n: nat, k: nat)
    requires AllLocked(es, cfg, n) && 0 < k <= n
    ensures Stalest(es, k) == 0
  {
    hide Latest;
    if k > 1 {
      FirstIsStalest(es, cfg, n, k - 1);
      SameActivity(cfg, k - 1);
    }
  }

  lemma SameActivity(cfg: Config, i: nat)
    ensures Activity(LockedEntry(i, cfg)) == Activity(LockedEntry(0, cfg))
  {
    hide Latest, Backoff;
  }

  /** With a threshold of two, two failures each by 128 users lock them all out, and a check for one more user
      lifts the first one's lockout while it is still running. */
  lemma EvictionLiftsLockout(cfg: Config)
    requires cfg.maxAttempts == 2 && cfg.window >= 0 && ConfigOk(cfg)
    ensures var es := After(cfg, Crowd(TABLE));
            && Evicts(es, TABLE, 0) && StateOf(es, 0).lockedUntil > Clock(Crowd(TABLE)) == 1
            && StateOf(Next(es, cfg, UserEvent(TABLE, Check(1))), 0) == FRESH
  {
    hide Next, Backoff, Stalest, After, Crowd, IndexFrom;
    var es := After(cfg, Crowd(TABLE));
    Crowded(cfg, TABLE);
    LockedUids(es, cfg, TABLE);
    FirstIsStalest(es, cfg, TABLE, TABLE);
    BackoffGrows(cfg.lockout, 0, 0);
    OtherEvent(es, cfg, UserEvent(TABLE, Check(1)), 0);
  }

  // ----- the table of the daemon -------------------------------------------------------------------

  /** An entry as it is stored: the ring with its count and index, the lockout and the number of lockouts. */
  datatype Stored = Stored(uid: nat, count: nat, ring: seq<int>, index: nat, lockedUntil: int, lockouts: nat)

  /** The stored entry stands for a log of failures. */
  ghost predicate Represents(r: Stored, log: seq<int>)
  {
    && r.count == (if |log| < RING then |log| else RING)
    && r.index % RING == |log| % RING
    && Holds(r.ring, log)
  }

  ghost function ViewOf(r: Stored, log: seq<int>): Entry
  {
    Entry(r.uid, Ideal(log, r.lockedUntil, r.lockouts), r.ring)
  }

  ghost function Views(rs: seq<Stored>, logs: seq<seq<int>>): (es: seq<Entry>)
    requires |rs| == |logs|
    ensures |es| == |rs| && forall i | 0 <= i < |es| :: es[i] == ViewOf(rs[i], logs[i])
  {
    seq(|rs|, i requires 0 <= i < |rs| => ViewOf(rs[i], logs[i]))
  }

  class Limiters {
    const cfg: Config
    var entries: seq<Stored>
    ghost var logs: seq<seq<int>>
    ghost var clock: int

    ghost predicate Shape()
      reads this
    {
      |logs| == |entries| && forall i | 0 <= i < |entries| :: Represents(entries[i], logs[i])
    }

    ghost function View(): (es: seq<Entry>)
      requires |logs| == |entries|
      reads this
    {
      Views(entries, logs)
    }

    ghost predicate Valid()
      reads this
    {
      Shape() && clock >= 0 && ConfigOk(cfg) && TableOk(View(), cfg, clock)
    }

    constructor (config: Config)
      requires ConfigOk(config)
      ensures Valid() && cfg == config && View() == [] && clock == 0
    {
      cfg, entries, logs, clock := config, [], [], 0;
    }

    /** The latest failure in the raw ring, or the end of the lockout if that is later. */
    method LatestActivity(r: Stored) returns (t: int)
      ensures forall log :: t == Activity(ViewOf(r, log))
      ensures t >= 0 && t >= r.lockedUntil && forall i | 0 <= i < |r.ring| :: r.ring[i] <= t
      ensures t == 0 || t == r.lockedUntil || t in r.ring
    {
      t := 0;
      for j := 0 to |r.ring|
        invariant t == Latest(r.ring, j) && (t == 0 || t in r.ring)
      {
        if r.ring[j] > t {
          t := r.ring[j];
        }
      }
      if r.lockedUntil > t {
        t := r.lockedUntil;
      }
    }

    method FindStalest() returns (k: nat)
      requires Shape() && |entries| == TABLE
      ensures k == Stalest(View(), TABLE)
    {
      hide Activity, Represents;
      k := 0;
      var oldest := LatestActivity(entries[0]);
      for i := 1 to TABLE
        invariant k < i && k == Stalest(View(), i) && oldest == Activity(View()[k])
      {
        var t := LatestActivity(entries[i]);
        if t < oldest {
          oldest, k := t, i;
        }
      }
    }

    /** Finds the user's entry, appends one, or evicts the first of the least active. */
    method FindLimiter(uid: nat) returns (k: nat)
      requires Shape() && |entries| <= TABLE
      modifies this`entries, this`logs
      ensures Shape() && |entries| <= TABLE
      ensures Lookup(old(View()), uid) == Found(View(), k)
      ensures k < |entries| <= 128 && entries[k].uid == uid
      ensures if exists j :: 0 <= j < |old(entries)| && old(entries)[j].uid == uid then entries == old(entries)
              else entries[k] == Stored(uid, 0, seq(32, i => 0), 0, 0, 0) &&
                   if |old(entries)| < 128 then entries == old(entries) + [entries[k]]
                   else entries == old(entries)[k := entries[k]]
    {
      hide Represents, Stalest, IndexFrom;
      k := 0;
      while k < |entries|
        invariant k <= |entries| && entries == old(entries) && logs == old(logs)
        invariant forall j | 0 <= j < k :: entries[j].uid != uid
      {
        if entries[k].uid == uid {
          assert View()[k].uid == uid;
          assert Index(View(), uid) == k;
          return;
        }
        k := k + 1;
      }
      assert Index(View(), uid) == |entries|;
      var blank := Stored(uid, 0, NoTimes(), 0, 0, 0);
      BlankStored(uid);
      if |entries| < TABLE {
        entries, logs := entries + [blank], logs + [[]];
        assert View() == old(View()) + [Blank(uid)];
        return;
      }
      k := FindStalest();
      entries, logs := entries[k := blank], logs[k := []];
      assert View() == old(View())[k := Blank(uid)];
    }

    /** Puts an entry back after an event of its user. */
    method Put(k: nat, r: Stored, ghost log: seq<int>, ghost es: seq<Entry>, ghost e: UserEvent)
      requires Shape() && k < |entries| <= TABLE && Represents(r, log)
      requires TableOk(es, cfg, clock) && clock >= 0 && e.event.at >= clock && ConfigOk(cfg)
      requires Lookup(es, e.uid) == Found(View(), k) && ViewOf(r, log) == EntryStep(View()[k], cfg, e.event)
      modifies this`entries, this`logs, this`clock
      ensures Valid() && clock == e.event.at && View() == Next(es, cfg, e)
      ensures entries == old(entries)[k := r]
    {
      hide Represents, TableOk, EntryStep, Lookup, ConfigOk;
      TableShape(es, cfg, clock);
      NextOk(es, cfg, clock, e);
      entries, logs, clock := entries[k := r], logs[k := log], e.event.at;
      assert View() == Next(es, cfg, e);
    }

    /** Whether the user may try; an expired lockout is lifted and the failures before it forgotten. */
    method CheckUser(uid: nat, now: int) returns (allowed: bool, remaining: int)
      requires Valid() && now >= clock
      modifies this`entries, this`logs, this`clock
      ensures Valid() && clock == now && View() == Next(old(View()), cfg, UserEvent(uid, Check(now)))
      ensures var until := StateOf(old(View()), uid).lockedUntil;
              && (allowed <==> until <= now)
              && remaining == if allowed then 0 else until - now
      ensures var was, s := StateOf(old(View()), uid), StateOf(View(), uid);
              s == if 0 < was.lockedUntil <= now then Ideal([], 0, was.lockouts) else was
      ensures var known := exists i :: 0 <= i < |old(entries)| && old(entries)[i].uid == uid;
              && (known ==> |entries| == |old(entries)|)
              && (known ==> forall i | 0 <= i < |entries| :: entries[i].ring == old(entries)[i].ring)
    {
      hide Represents, TableOk, Lookup, ConfigOk, StateOf;
      ghost var es, e := View(), UserEvent(uid, Check(now));
      TableShape(es, cfg, clock);
      var k := FindLimiter(uid);
      FoundFirst(es, uid);
      OwnCheck(es, cfg, uid, now);
      var r := entries[k];
      if r.lockedUntil > now {
        Put(k, r, logs[k], es, e);
        return false, r.lockedUntil - now;
      }
      if r.lockedUntil > 0 {
        ClearedStored(r, logs[k]);
        Put(k, r.(lockedUntil := 0, count := 0, index := 0), [], es, e);
      } else {
        Put(k, r, logs[k], es, e);
      }
      return true, 0;
    }

    /** Records a failure. For thresholds up to 33 the ring locks the user out exactly when the unbounded
        log would, for min(3600, lockout * 2^min(k, 6)) seconds after k earlier lockouts; for larger ones
        it never does. */
    method RecordFailure(uid: nat, now: int)
      requires Valid() && now >= clock
      modifies this`entries, this`logs, this`clock
      ensures Valid() && clock == now && View() == Next(old(View()), cfg, UserEvent(uid, Failure(now)))
      ensures var was, s := StateOf(old(View()), uid), StateOf(View(), uid);
              && s.log == was.log + [now]
              && if cfg.maxAttempts <= 33 && Recent(was.log, now, cfg.window) + 1 >= cfg.maxAttempts
                 then LastsFor(s.lockedUntil - now, cfg.lockout, was.lockouts) && s.lockouts == was.lockouts + 1
                 else s.lockedUntil == was.lockedUntil && s.lockouts == was.lockouts
    {
      hide TableOk, Lookup, ConfigOk, StateOf, Represents, EntryStep;
      ghost var es, e := View(), UserEvent(uid, Failure(now));
      TableShape(es, cfg, clock);
      var k := FindLimiter(uid);
      ghost var log := logs[k];
      LogInOrder(es, cfg, clock, uid);
      var r := entries[k];
      var recent := CountRecent(r, now, log);
      OwnFailure(es, cfg, uid, now);
      StoredShape(r, log);
      r := r.(ring := r.ring[r.index % RING := now], index := r.index + 1);
      if r.count < RING {
        r := r.(count := r.count + 1);
      }
      recent := recent + 1;
      if recent >= cfg.maxAttempts {
        var seconds := LockoutSeconds(cfg.lockout, r.lockouts);
        r := r.(lockedUntil := now + seconds, lockouts := r.lockouts + 1);
      }
      PushedStored(entries[k], r, log, now);
      FailedEntry(entries[k], r, log, cfg, now);
      Put(k, r, log + [now], es, e);
    }

    method CountRecent(r: Stored, now: int, ghost log: seq<int>) returns (recent: nat)
      requires Represents(r, log) && Monotone(log)
      ensures recent + 1 >= cfg.maxAttempts <==>
              cfg.maxAttempts <= RING + 1 && Recent(log, now, cfg.window) + 1 >= cfg.maxAttempts
    {
      hide Newest, Monotone;
      recent := 0;
      var i := 0;
      while i < r.count && i < RING
        invariant 0 <= i <= r.count && recent == Recent(r.ring[..i], now, cfg.window)
      {
        assert r.ring[..i + 1][..i] == r.ring[..i];
        if now - r.ring[i] <= cfg.window {
          recent := recent + 1;
        }
        i := i + 1;
      }
      RecentInRing(r.ring, log, now, cfg.window);
      RingDecides(log, now, cfg.window, cfg.maxAttempts);
    }

    /** A success forgets failures, lockout and backoff. */
    method Reset(uid: nat, now: int)
      requires Valid() && now >= clock
      modifies this`entries, this`logs, this`clock
      ensures Valid() && clock == now && View() == Next(old(View()), cfg, UserEvent(uid, Success(now)))
      ensures StateOf(View(), uid) == Ideal([], 0, 0)
    {
      hide Represents, TableOk, Lookup, ConfigOk;
      ghost var es, e := View(), UserEvent(uid, Success(now));
      TableShape(es, cfg, clock);
      var k := FindLimiter(uid);
      BlankStored(uid);
      OwnEvent(es, cfg, e);
      Put(k, Stored(entries[k].uid, 0, NoTimes(), 0, 0, 0), [], es, e);
    }
  }

  lemma TableShape(es: seq<Entry>, cfg: Config, clock: int)
    requires TableOk(es, cfg, clock)
    ensures |es| <= TABLE && Distinct(es)
  {
    hide EntryOk;
  }

  lemma LogInOrder(es: seq<Entry>, cfg: Config, clock: int, uid: nat)
    requires TableOk(es, cfg, clock) && clock >= 0
    ensures var found := Lookup(es, uid); Monotone(found.entries[found.at].state.log)
  {
    hide Lookup, Holds, Backoff;
    LookupOk(es, cfg, clock, uid);
    var found := Lookup(es, uid);
    assert EntryOk(found.entries[found.at], cfg, clock);
  }

  lemma ClearedStored(r: Stored, log: seq<int>)
    requires Represents(r, log)
    ensures Represents(r.(lockedUntil := 0, count := 0, index := 0), [])
  {
    HoldsLength(r.ring, log);
    NothingHeld(r.ring);
  }

  lemma StoredShape(r: Stored, log: seq<int>)
    requires Represents(r, log)
    ensures |r.ring| == RING && r.index % RING == |log| % RING
  {
  }

  lemma PushedStored(r: Stored, r': Stored, log: seq<int>, now: int)
    requires Represents(r, log) && |r.ring| == RING
    requires r'.count == if r.count < RING then r.count + 1 else r.count
    requires r'.index == r.index + 1 && r'.ring == r.ring[|log| % RING := now]
    ensures Represents(r', log + [now])
  {
    hide Holds;
    PushedRing(r.ring, log, now);
    NextIndex(r.index, |log|);
  }

  lemma FailedEntry(r: Stored, r': Stored, log: seq<int>, cfg: Config, now: int)
    requires |r.ring| == RING && r'.uid == r.uid && r'.ring == r.ring[|log| % RING := now]
    requires var locks := cfg.maxAttempts <= RING + 1 && Recent(log, now, cfg.window) + 1 >= cfg.maxAttempts;
             if locks then r'.lockedUntil == now + Backoff(cfg.lockout, r.lockouts) && r'.lockouts == r.lockouts + 1
             else r'.lockedUntil == r.lockedUntil && r'.lockouts == r.lockouts
    ensures ViewOf(r', log + [now]) == EntryStep(ViewOf(r, log), cfg, Failure(now))
  {
    hide Recent, Backoff;
  }

  lemma BlankStored(uid: nat)
    ensures var r := Stored(uid, 0, NoTimes(), 0, 0, 0); Represents(r, []) && ViewOf(r, []) == Blank(uid)
  {
    assert NoTimes()[..0] == [];
  }
}
