/** The failure rate limiters: a 32-entry ring of failure times, lockouts, and in the daemon an
    exponential backoff. The reference is an unbounded log of failures. */
module RateLimit {
  const RING := 32
  const MAX_LOCKOUT := 3600

  datatype Config = Config(maxAttempts: int, window: int, lockout: int)

  // ----- the reference -------------------------------------------------------------------------

  /** How many of the times lie within the window that ends now. */
  function Recent(times: seq<int>, now: int, window: int): nat
  {
    if times == [] then 0
    else Recent(times[..|times| - 1], now, window) + if now - times[|times| - 1] <= window then 1 else 0
  }

  function Doubling(k: nat): (r: nat)
    ensures r >= 1
  {
    if k == 0 then 1 else 2 * Doubling(k - 1)
  }

  /** How long the lockout after `k` earlier ones in a row lasts. */
  function Backoff(lockout: int, k: nat): int
  {
    var seconds := lockout * Doubling(if k < 6 then k else 6);
    if seconds > MAX_LOCKOUT then MAX_LOCKOUT else seconds
  }

  /** The lockout lasts 1, 2, 4, 8, 16 or 32 times the base time after 0 to 5 earlier ones, 64 times after more,
      and at most an hour. */
  predicate LastsFor(seconds: int, base: int, k: nat)
  {
    var full := if k == 0 then base
                else if k == 1 then 2 * base
                else if k == 2 then 4 * base
                else if k == 3 then 8 * base
                else if k == 4 then 16 * base
                else if k == 5 then 32 * base
                else 64 * base;
    seconds == if full > 3600 then 3600 else full
  }

  lemma DoublingTable()
    ensures Doubling(0) == 1 && Doubling(1) == 2 && Doubling(2) == 4 && Doubling(3) == 8
    ensures Doubling(4) == 16 && Doubling(5) == 32 && Doubling(6) == 64
  {
    assert Doubling(3) == 8;
  }

  lemma BackoffLasts(base: int, k: nat)
    ensures LastsFor(Backoff(base, k), base, k)
  {
    hide Doubling;
    DoublingTable();
  }

  /** The ideal limiter: every failure since the last clear, the end of the current lockout (0 for none),
      and the lockouts since the last success. */
  datatype Ideal = Ideal(log: seq<int>, lockedUntil: int, lockouts: nat)

  const FRESH := Ideal([], 0, 0)

  function Fails(s: Ideal, cfg: Config, now: int): Ideal
  {
    var s' := s.(log := s.log + [now]);
    if Recent(s.log, now, cfg.window) + 1 >= cfg.maxAttempts
    then s'.(lockedUntil := now + Backoff(cfg.lockout, s.lockouts), lockouts := s.lockouts + 1)
    else s'
  }

  /** A failure that is only remembered. */
  function Logged(s: Ideal, now: int): Ideal
  {
    s.(log := s.log + [now])
  }

  function Checks(s: Ideal, now: int): Ideal
  {
    if 0 < s.lockedUntil <= now then s.(log := [], lockedUntil := 0) else s
  }

  function Succeeds(s: Ideal): Ideal { FRESH }

  /** The device limiter's failure: a lockout of constant length, and no lockout count. */
  function DeviceFails(s: Ideal, cfg: Config, now: int): Ideal
  {
    var s' := s.(log := s.log + [now]);
    if Recent(s.log, now, cfg.window) + 1 >= cfg.maxAttempts then s'.(lockedUntil := now + cfg.lockout) else s'
  }

  predicate Monotone(times: seq<int>)
  {
    forall i, j | 0 <= i < j < |times| :: times[i] <= times[j]
  }

  predicate UpTo(times: seq<int>, now: int)
  {
    forall i | 0 <= i < |times| :: times[i] <= now
  }

  // ----- why 32 entries are enough for thresholds up to 33 -------------------------------------------

  lemma {:induction false} RecentConcat(a: seq<int>, b: seq<int>, now: int, window: int)
    ensures Recent(a + b, now, window) == Recent(a, now, window) + Recent(b, now, window)
  {
    if b == [] {
      assert a + b == a;
    } else {
      RecentConcat(a, b[..|b| - 1], now, window);
      assert (a + b)[..|a + b| - 1] == a + b[..|b| - 1];
    }
  }

  lemma {:induction false} RecentAll(times: seq<int>, now: int, window: int)
    ensures Recent(times, now, window) <= |times|
    ensures (forall i | 0 <= i < |times| :: now - times[i] <= window) ==> Recent(times, now, window) == |times|
    ensures (forall i | 0 <= i < |times| :: now - times[i] > window) ==> Recent(times, now, window) == 0
  {
    if times != [] {
      RecentAll(times[..|times| - 1], now, window);
    }
  }

  function Newest(log: seq<int>): seq<int>
  {
    if |log| <= RING then log else log[|log| - RING..]
  }

  /** The newest 32 failures decide every threshold up to 33 as the whole log does. */
  lemma NewestDecide(log: seq<int>, now: int, window: int, threshold: int)
    requires Monotone(log) && threshold <= RING + 1
    ensures Recent(Newest(log), now, window) + 1 >= threshold <==> Recent(log, now, window) + 1 >= threshold
  {
    if |log| > RING {
      var cut := |log| - RING;
      var older, newer := log[..cut], log[cut..];
      assert log == older + newer;
      RecentConcat(older, newer, now, window);
      RecentAll(newer, now, window);
      RecentAll(older, now, window);
      if i :| 0 <= i < |older| && now - older[i] <= window {
        assert forall j | 0 <= j < |newer| :: log[i] <= log[cut + j] == newer[j];
      }
    }
  }

  /** The ring decides thresholds up to 33 as the log does, and reaches no larger one. */
  lemma RingDecides(log: seq<int>, now: int, window: int, threshold: int)
    requires Monotone(log)
    ensures Recent(Newest(log), now, window) + 1 >= threshold <==>
            threshold <= RING + 1 && Recent(log, now, window) + 1 >= threshold
  {
    if threshold <= RING + 1 {
      NewestDecide(log, now, window, threshold);
    } else {
      RecentAll(Newest(log), now, window);
    }
  }

  /** For a larger threshold the ring can never reach it, while a burst of failures in the log does. */
  lemma LargerThresholdsDiffer(now: int, window: int, threshold: int)
    requires threshold > RING + 1 && window >= 0
    ensures var burst := seq(threshold - 1, i => now);
            && Monotone(burst) && UpTo(burst, now)
            && Recent(burst, now, window) + 1 >= threshold
            && Recent(Newest(burst), now, window) + 1 < threshold
  {
    var burst := seq(threshold - 1, i => now);
    RecentAll(burst, now, window);
    RecentAll(Newest(burst), now, window);
  }

  // ----- the ring ----------------------------------------------------------------------------------

  class FailureRing {
    const slots: array<int>
    var index: nat
    var count: nat
    ghost var log: seq<int>

    ghost predicate Valid()
      reads this, slots
    {
      && slots.Length == RING
      && count == (if |log| < RING then |log| else RING)
      && index % RING == |log| % RING
      && Holds(slots[..], log)
    }

    constructor ()
      ensures Valid() && log == [] && fresh(slots) && slots.Length == 32
    {
      slots := new int[RING](i => 0);
      index, count, log := 0, 0, [];
    }

    method Clear()
      requires slots.Length == RING
      modifies this
      ensures Valid() && log == []
    {
      index, count, log := 0, 0, [];
    }

    /** Clears the times as well. */
    method Wipe()
      requires slots.Length == RING
      modifies this, slots
      ensures Valid() && log == [] && forall i | 0 <= i < 32 :: slots[i] == 0
    {
      forall i | 0 <= i < RING {
        slots[i] := 0;
      }
      Clear();
    }

    /** Counts the remembered failures within the window. */
    method CountRecent(now: int, window: int) returns (recent: nat)
      requires Valid()
      ensures recent == Recent(Newest(log), now, window)
    {
      recent := 0;
      var i := 0;
      while i < count && i < RING
        invariant 0 <= i <= count && recent == Recent(slots[..i], now, window)
      {
        assert slots[..i + 1][..i] == slots[..i];
        if now - slots[i] <= window {
          recent := recent + 1;
        }
        i := i + 1;
      }
      RecentInRing(slots[..], log, now, window);
      assert slots[..count] == slots[..][..count];
    }

    method Push(now: int)
      requires Valid()
      modifies this, slots
      ensures Valid() && log == old(log) + [now]
    {
      hide Holds;
      var p := index % RING;
      PushedRing(slots[..], log, now);
      NextIndex(index, |log|);
      ghost var before := slots[..];
      slots[p] := now;
      assert slots[..] == before[p := now];
      index := index + 1;
      if count < RING {
        count := count + 1;
      }
      log := log + [now];
    }
  }

  ghost predicate Holds(slots: seq<int>, log: seq<int>)
  {
    && |slots| == RING
    && if |log| < RING then slots[..|log|] == log
       else slots[|log| % RING..] + slots[..|log| % RING] == log[|log| - RING..]
  }

  lemma NextIndex(a: nat, b: nat)
    requires a % RING == b % RING
    ensures (a + 1) % RING == (b + 1) % RING
  {
  }

  lemma RecentInRing(slots: seq<int>, log: seq<int>, now: int, window: int)
    requires Holds(slots, log)
    ensures Recent(slots[..if |log| < RING then |log| else RING], now, window) == Recent(Newest(log), now, window)
  {
    if |log| >= RING {
      var p := |log| % RING;
      assert slots[..RING] == slots[..p] + slots[p..];
      RecentConcat(slots[..p], slots[p..], now, window);
      RecentConcat(slots[p..], slots[..p], now, window);
    }
  }

  lemma PushedRing(slots: seq<int>, log: seq<int>, now: int)
    requires Holds(slots, log)
    ensures Holds(slots[|log| % RING := now], log + [now])
  {
    var p := |log| % RING;
    var slots', log' := slots[p := now], log + [now];
    if |log| < RING {
      assert p == |log|;
      if |log'| == RING {
        assert slots'[0..] + slots'[..0] == slots';
        assert log'[0..] == log';
      }
    } else {
      var rotated, newest := slots[p..] + slots[..p], log[|log| - RING..];
      assert log'[|log'| - RING..] == newest[1..] + [now];
      assert rotated[1..] == slots[p + 1..] + slots[..p];
      if p == RING - 1 {
        assert |log'| % RING == 0;
        assert slots' == slots[..p] + [now];
        assert slots'[0..] + slots'[..0] == slots';
        assert slots[p + 1..] == [];
      } else {
        assert |log'| % RING == p + 1;
        assert slots'[p + 1..] == slots[p + 1..] && slots'[..p + 1] == slots[..p] + [now];
      }
    }
  }

  // ----- one user of the daemon ----------------------------------------------------------------------

  predicate ConfigOk(cfg: Config)
  {
    1 <= cfg.lockout <= MAX_LOCKOUT
  }

  /** With a fixed configuration and a monotone clock: failures are logged in order, and a current
      lockout ends no later than one that started at the latest event could. */
  predicate Timely(s: Ideal, cfg: Config, clock: int)
  {
    && Monotone(s.log) && UpTo(s.log, clock) && clock >= 0
    && (s.lockedUntil != 0 ==> s.lockouts > 0 && 0 < s.lockedUntil <= clock + Backoff(cfg.lockout, s.lockouts - 1))
  }

  method LockoutSeconds(lockout: int, lockouts: nat) returns (seconds: int)
    ensures seconds == Backoff(lockout, lockouts)
    ensures LastsFor(seconds, lockout, lockouts)
  {
    BackoffLasts(lockout, lockouts);
    var multiplier := Doubling(if lockouts < 6 then lockouts else 6);
    seconds := lockout * multiplier;
    if seconds > MAX_LOCKOUT {
      seconds := MAX_LOCKOUT;
    }
  }

  lemma {:induction false} DoublingGrows(j: nat, k: nat)
    requires j <= k
    ensures Doubling(j) <= Doubling(k)
    decreases k
  {
    if j < k {
      DoublingGrows(j, k - 1);
    }
  }

  lemma BackoffGrows(lockout: int, j: nat, k: nat)
    requires lockout >= 1 && j <= k
    ensures 0 < Backoff(lockout, j) <= Backoff(lockout, k) <= MAX_LOCKOUT
  {
    var a, b := (if j < 6 then j else 6), (if k < 6 then k else 6);
    DoublingGrows(a, b);
    Times(lockout, Doubling(a), Doubling(b));
  }

  lemma Times(x: int, a: int, b: int)
    requires x >= 1 && 1 <= a <= b
    ensures 0 < x * a <= x * b
  {
  }

  /** A failure keeps the state timely and never brings the end of a lockout forward. */
  lemma FailureTimely(s: Ideal, cfg: Config, clock: int, now: int)
    requires Timely(s, cfg, clock) && now >= clock && ConfigOk(cfg)
    ensures Timely(Fails(s, cfg, now), cfg, now) && Timely(Logged(s, now), cfg, now)
    ensures Fails(s, cfg, now).lockedUntil >= s.lockedUntil
  {
    hide Recent, Backoff;
    BackoffGrows(cfg.lockout, s.lockouts, s.lockouts);
    if s.lockedUntil != 0 {
      BackoffGrows(cfg.lockout, s.lockouts - 1, s.lockouts);
    }
  }

  datatype Event = Check(at: int) | Failure(at: int) | Success(at: int)

  function Step(s: Ideal, cfg: Config, e: Event): Ideal
  {
    match e
    case Check(now) => Checks(s, now)
    case Failure(now) => if cfg.maxAttempts <= RING + 1 then Fails(s, cfg, now) else Logged(s, now)
    case Success(_) => Succeeds(s)
  }

  function Run(s: Ideal, cfg: Config, es: seq<Event>): Ideal
  {
    if es == [] then s else Step(Run(s, cfg, es[..|es| - 1]), cfg, es[|es| - 1])
  }

  lemma StepTimely(s: Ideal, cfg: Config, clock: int, e: Event)
    requires Timely(s, cfg, clock) && e.at >= clock && ConfigOk(cfg)
    ensures Timely(Step(s, cfg, e), cfg, e.at)
  {
    hide Recent, Backoff;
    if e.Failure? {
      FailureTimely(s, cfg, clock, e.at);
    }
  }

  /** A user's own event brings the end of a lockout forward if and only if it is a success, or a check that
      finds the lockout expired. */
  lemma OwnEventLifts(s: Ideal, cfg: Config, clock: int, e: Event)
    requires Timely(s, cfg, clock) && e.at >= clock && ConfigOk(cfg) && s.lockedUntil > 0
    ensures Step(s, cfg, e).lockedUntil < s.lockedUntil <==> e.Success? || (e.Check? && s.lockedUntil <= e.at)
  {
    hide Recent, Backoff, Timely;
    if e.Failure? {
      FailureTimely(s, cfg, clock, e.at);
    }
  }

  // ----- the device's limiter --------------------------------------------------------------------------

  class DeviceLimiter {
    var cfg: Config
    const ring: FailureRing
    var lockedUntil: int
    ghost var clock: int

    ghost predicate Valid()
      reads this, ring, ring.slots
    {
      ring.Valid() && Monotone(ring.log) && UpTo(ring.log, clock)
    }

    ghost function State(): Ideal
      reads this, ring
    {
      Ideal(ring.log, lockedUntil, 0)
    }

    constructor (config: Config, now: int)
      ensures Valid() && fresh(ring) && fresh(ring.slots) && cfg == config && State() == FRESH && clock == now
    {
      cfg := config;
      ring := new FailureRing();
      lockedUntil, clock := 0, now;
    }

    method Check(now: int) returns (allowed: bool, remaining: int)
      requires Valid() && now >= clock
      modifies this`lockedUntil, this`clock, ring, ring.slots
      ensures Valid() && clock == now && State() == Checks(old(State()), now)
      ensures allowed <==> old(lockedUntil) <= now
      ensures remaining == if allowed then 0 else old(lockedUntil) - now
      ensures if 0 < old(lockedUntil) <= now then lockedUntil == 0 && ring.log == []
              else lockedUntil == old(lockedUntil) && ring.log == old(ring.log)
    {
      clock := now;
      if lockedUntil > now {
        return false, lockedUntil - now;
      }
      if lockedUntil > 0 {
        lockedUntil := 0;
        ring.Wipe();
      }
      return true, 0;
    }

    method RecordFailure(now: int)
      requires Valid() && now >= clock
      modifies this`lockedUntil, this`clock, ring, ring.slots
      ensures Valid() && clock == now
      ensures cfg.maxAttempts <= RING + 1 ==> State() == DeviceFails(old(State()), cfg, now)
      ensures cfg.maxAttempts > RING + 1 ==> State() == Logged(old(State()), now)
      ensures ring.log == old(ring.log) + [now]
      ensures var locks := cfg.maxAttempts <= 33 && Recent(old(ring.log), now, cfg.window) + 1 >= cfg.maxAttempts;
              lockedUntil == if locks then now + cfg.lockout else old(lockedUntil)
    {
      hide Recent, Newest;
      var recent := ring.CountRecent(now, cfg.window);
      RingDecides(ring.log, now, cfg.window, cfg.maxAttempts);
      ring.Push(now);
      recent := recent + 1;
      clock := now;
      if recent >= cfg.maxAttempts {
        lockedUntil := now + cfg.lockout;
      }
    }

    method Reset()
      requires Valid()
      modifies this`lockedUntil, ring, ring.slots
      ensures Valid() && clock == old(clock) && State() == FRESH && lockedUntil == 0 && ring.log == []
    {
      ring.Wipe();
      lockedUntil := 0;
    }
  }
}
