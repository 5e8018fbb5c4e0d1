/** The daemon's session table: creating, finding, extending, revoking and sweeping sessions, and
    reloading the configuration that bounds them. The clock and the random generator are inputs. */
module Sessions {
  import opened Bytes

  const MAX_SESSIONS := 64
  const TOKEN_SIZE := 32
  const UINT_LIMIT := 0x1_0000_0000

  datatype Session = Session(token: seq<byte>, uid: nat, sender: string, created: int, lastUsed: int, verified: bool)

  /** An inactive slot holds nothing that is read. */
  type Slot = Option<Session>

  // ----- counting active sessions ------------------------------------------------------------------

  function Active(s: seq<Slot>, n: nat): nat
    requires n <= |s|
  {
    if n == 0 then 0 else Active(s, n - 1) + if s[n - 1].Some? then 1 else 0
  }

  lemma {:induction false} ActiveUpdate(s: seq<Slot>, i: nat, x: Slot, n: nat)
    requires i < |s| && n <= |s|
    ensures var same := i >= n || x.Some? == s[i].Some?;
            Active(s[i := x], n) == Active(s, n) + if same then 0 else if x.Some? then 1 else -1
  {
    if n > 0 {
      ActiveUpdate(s, i, x, n - 1);
    }
  }

  lemma {:induction false} ActivePositive(s: seq<Slot>, i: nat, n: nat)
    requires i < n <= |s| && s[i].Some?
    ensures Active(s, n) > 0
  {
    if i < n - 1 {
      ActivePositive(s, i, n - 1);
    }
  }

  // ----- ages --------------------------------------------------------------------------------------

  predicate Expired(s: Session, now: int, maxAge: nat)
  {
    now - s.created > maxAge
  }

  function Capacity(maxSessions: int): (n: nat)
    ensures 1 <= n <= MAX_SESSIONS
  {
    if maxSessions < 1 then 1 else if maxSessions > MAX_SESSIONS then MAX_SESSIONS else maxSessions
  }

  /** A difference of times converted to a 32-bit unsigned integer. */
  function ToUint(n: int): nat
  {
    n % UINT_LIMIT
  }

  /** The creation time that makes a session live `seconds` longer, but never past the full age. */
  function ExtendedCreation(created: int, now: int, seconds: u32, maxAge: nat): int
  {
    var target := ToUint(ToUint(maxAge - (now - created)) + seconds);
    now - (maxAge - if target > maxAge then maxAge else target)
  }

  /** Extending puts the creation time within one full age before now. For a session that is neither
      expired nor from the future it never shortens the session if, and only if, the remaining time plus
      the extension fits 32 bits. */
  lemma ExtendKeepsAge(created: int, now: int, seconds: u32, maxAge: nat)
    requires maxAge < UINT_LIMIT
    ensures now - maxAge <= ExtendedCreation(created, now, seconds, maxAge) <= now
    ensures var after, sum := ExtendedCreation(created, now, seconds, maxAge), maxAge - (now - created) + seconds;
            now - maxAge <= created <= now ==>
              && (after >= created <==> sum < UINT_LIMIT)
              && (sum < UINT_LIMIT ==> after == if created + seconds <= now then created + seconds else now)
  {
  }

  /** An extension by the largest number of seconds shortens a session that has just begun. */
  lemma ExtendCanShorten(now: int, maxAge: nat)
    requires 0 < maxAge < UINT_LIMIT
    ensures ExtendedCreation(now, now, 0xFFFF_FFFF, maxAge) == now - 1
  {
  }

  // ----- looking sessions up -----------------------------------------------------------------------

  datatype Wanted = ByToken(token: seq<byte>) | Verified(uid: nat, caller: Option<string>)

  /** A caller with a bus name matches a session bound to no name or to the same one. */
  predicate SameSender(s: Session, caller: Option<string>)
  {
    caller.None? || s.sender == "" || s.sender == caller.value
  }

  predicate Wants(w: Wanted, s: Session)
  {
    match w
    case ByToken(token) => s.token == token
    case Verified(uid, caller) => s.uid == uid && s.verified && SameSender(s, caller)
  }

  /** Active and not expired. */
  predicate Live(slot: Slot, now: int, maxAge: nat)
  {
    slot.Some? && !Expired(slot.value, now, maxAge)
  }

  /** The slot after a sweep. */
  function Swept(slot: Slot, now: int, maxAge: nat): Slot
  {
    if Live(slot, now, maxAge) then slot else None
  }

  /** A slot passed by a lookup: swept, and not what was wanted. */
  predicate Passed(before: Slot, after: Slot, w: Wanted, now: int, maxAge: nat)
  {
    after == Swept(before, now, maxAge) && (after.Some? ==> !Wants(w, after.value))
  }

  predicate Cleared(before: seq<Slot>, after: seq<Slot>, k: nat)
  {
    k < |before| && after == before[k := None]
  }

  predicate Owned(slot: Slot, uid: nat, caller: Option<string>)
  {
    slot.Some? && slot.value.uid == uid && SameSender(slot.value, caller)
  }

  function Revoked(slot: Slot, uid: nat, caller: Option<string>): Slot
  {
    if Owned(slot, uid, caller) then None else slot
  }

  /** What extending does to a slot. */
  function Extended(slot: Slot, uid: nat, caller: Option<string>, seconds: u32, now: int, maxAge: nat): Slot
  {
    if !Owned(slot, uid, caller) || !slot.value.verified then slot
    else if Expired(slot.value, now, maxAge) then None
    else Some(slot.value.(created := ExtendedCreation(slot.value.created, now, seconds, maxAge), lastUsed := now))
  }

  /** What extending promises of a slot: a session of another user or name, or one not verified, stays; an expired
      one goes; any other is marked used and, as long as the sums fit 32 bits, lives that much longer, up to
      the full age. */
  predicate ExtendedAs(was: Slot, slot: Slot, uid: nat, caller: Option<string>, seconds: u32, now: int, maxAge: nat)
  {
    if !Servable(was, uid, caller) then slot == was
    else if now - was.value.created > maxAge then slot == None
    else
      && slot.Some?
      && slot.value == was.value.(created := slot.value.created, lastUsed := now)
      && now - maxAge <= slot.value.created <= now
      && (was.value.created <= now && maxAge - (now - was.value.created) + seconds < 0x1_0000_0000 ==>
            slot.value.created == if was.value.created + seconds <= now then was.value.created + seconds else now)
  }

  /** A verified session of the user, bound to no bus name or to the caller's. */
  predicate Servable(slot: Slot, uid: nat, caller: Option<string>)
  {
    && slot.Some?
    && slot.value.uid == uid
    && slot.value.verified
    && (caller == None || slot.value.sender == "" || caller == Some(slot.value.sender))
  }

  lemma WantedIsServable(slot: Slot, uid: nat, caller: Option<string>)
    ensures slot.Some? ==> (Wants(Verified(uid, caller), slot.value) <==> Servable(slot, uid, caller))
  {
  }

  lemma ExtendedIs(slot: Slot, uid: nat, caller: Option<string>, seconds: u32, now: int, maxAge: nat)
    requires maxAge < UINT_LIMIT
    ensures ExtendedAs(slot, Extended(slot, uid, caller, seconds, now, maxAge), uid, caller, seconds, now, maxAge)
  {
    hide ExtendedCreation;
    if slot.Some? {
      ExtendKeepsAge(slot.value.created, now, seconds, maxAge);
    }
  }

  class Table {
    var sessions: seq<Slot>
    var count: nat
    var maxSessions: int
    var maxAge: nat

    predicate Counted()
      reads this
    {
      |sessions| == MAX_SESSIONS && count == Active(sessions, MAX_SESSIONS)
    }

    /** The count is the number of active slots, and they all lie below the capacity. */
    predicate Valid()
      reads this
    {
      Counted() && forall i | Capacity(maxSessions) <= i < MAX_SESSIONS :: sessions[i].None?
    }

    constructor (maxSessions: int, maxAge: nat)
      ensures Valid() && count == 0 && |sessions| == 64 && forall i | 0 <= i < 64 :: sessions[i] == None
    {
      this.maxSessions, this.maxAge, count := maxSessions, maxAge, 0;
      sessions := seq(MAX_SESSIONS, i => None);
      new;
      NoneActive(sessions, MAX_SESSIONS);
    }

    /** Deactivates an active slot. */
    method Drop(i: nat)
      requires Counted() && i < MAX_SESSIONS && sessions[i].Some?
      modifies this`sessions, this`count
      ensures Counted() && sessions == old(sessions)[i := None] && count == old(count) - 1
    {
      hide Active;
      ActiveUpdate(sessions, i, None, MAX_SESSIONS);
      ActivePositive(sessions, i, MAX_SESSIONS);
      sessions := sessions[i := None];
      if count > 0 {
        count := count - 1;
      }
    }

    method Put(i: nat, s: Session)
      requires Counted() && i < MAX_SESSIONS && sessions[i].None?
      modifies this`sessions, this`count
      ensures Counted() && sessions == old(sessions)[i := Some(s)] && count == old(count) + 1
    {
      hide Active;
      ActiveUpdate(sessions, i, Some(s), MAX_SESSIONS);
      sessions := sessions[i := Some(s)];
      count := count + 1;
    }

    method Replace(i: nat, s: Session)
      requires Counted() && i < MAX_SESSIONS && sessions[i].Some?
      modifies this`sessions
      ensures Counted() && sessions == old(sessions)[i := Some(s)]
    {
      hide Active;
      ActiveUpdate(sessions, i, Some(s), MAX_SESSIONS);
      sessions := sessions[i := Some(s)];
    }

    /** Finds the first live session that is wanted and marks it used, dropping the expired sessions on
        the way to it and no others. */
    method Lookup(w: Wanted, now: int) returns (found: Option<nat>)
      requires Valid()
      modifies this`sessions, this`count
      ensures Valid()
      ensures var end := if found.Some? then found.value else Capacity(maxSessions);
              && end <= MAX_SESSIONS
              && (forall i | 0 <= i < end :: Passed(old(sessions)[i], sessions[i], w, now, maxAge))
              && (forall i | end <= i < MAX_SESSIONS :: found != Some(i) ==> sessions[i] == old(sessions)[i])
      ensures found.Some? ==>
                && found.value < Capacity(maxSessions)
                && Live(old(sessions)[found.value], now, maxAge) && Wants(w, old(sessions)[found.value].value)
                && sessions[found.value] == Some(old(sessions)[found.value].value.(lastUsed := now))
    {
      hide Active, Wants;
      var cap := Capacity(maxSessions);
      for i := 0 to cap
        invariant Valid()
        invariant forall j | 0 <= j < i :: Passed(old(sessions)[j], sessions[j], w, now, maxAge)
        invariant forall j | i <= j < MAX_SESSIONS :: sessions[j] == old(sessions)[j]
      {
        if sessions[i].Some? {
          if Expired(sessions[i].value, now, maxAge) {
            Drop(i);
          } else if Wants(w, sessions[i].value) {
            Replace(i, sessions[i].value.(lastUsed := now));
            return Some(i);
          }
        }
      }
      return None;
    }

    method FindSession(token: seq<byte>, now: int) returns (found: Option<nat>)
      requires Valid()
      modifies this`sessions, this`count
      ensures Valid()
      ensures found.Some? <==> |token| == TOKEN_SIZE && exists i | 0 <= i < Capacity(maxSessions) ::
                                 Live(old(sessions)[i], now, maxAge) && old(sessions)[i].value.token == token
      ensures found.Some? ==> found.value < MAX_SESSIONS && sessions[found.value].Some?
      ensures found.Some? ==> |token| == 32 && sessions[found.value].value.token == token
      ensures found.Some? ==> now - sessions[found.value].value.created <= maxAge
    {
      hide Active;
      if |token| != TOKEN_SIZE { return None; }
      found := Lookup(ByToken(token), now);
    }

    /** The seconds a verified session of the caller has left, or none without such a session. */
    method SecondsRemaining(uid: nat, caller: Option<string>, now: int) returns (found: bool, seconds: nat)
      requires Valid()
      modifies this`sessions, this`count
      ensures Valid()
      ensures found <==> exists i | 0 <= i < Capacity(maxSessions) ::
                           Live(old(sessions)[i], now, maxAge) && Wants(Verified(uid, caller), old(sessions)[i].value)
      ensures found <==> exists i | 0 <= i < 64 :: Servable(old(sessions)[i], uid, caller) &&
                                                   now - old(sessions)[i].value.created <= maxAge
      ensures found && maxAge < 0x1_0000_0000 ==>
              exists i | 0 <= i < 64 :: Servable(old(sessions)[i], uid, caller) &&
                                        (old(sessions)[i].value.created <= now ==>
                                           seconds == maxAge - (now - old(sessions)[i].value.created))
      ensures found ==> exists i | 0 <= i < Capacity(maxSessions) ::
                          && Live(old(sessions)[i], now, maxAge) && Wants(Verified(uid, caller), old(sessions)[i].value)
                          && seconds == ToUint(maxAge - (now - old(sessions)[i].value.created))
                          && forall j | 0 <= j < i :: Live(old(sessions)[j], now, maxAge) ==>
                                                        !Wants(Verified(uid, caller), old(sessions)[j].value)
    {
      hide Active, Wants;
      forall i | 0 <= i < MAX_SESSIONS && sessions[i].Some?
        ensures Wants(Verified(uid, caller), sessions[i].value) <==> Servable(sessions[i], uid, caller) {
        WantedIsServable(sessions[i], uid, caller);
      }
      var k := Lookup(Verified(uid, caller), now);
      if k.None? { return false, 0; }
      var age := now - sessions[k.value].value.created;
      assert Live(old(sessions)[k.value], now, maxAge);
      forall j | 0 <= j < k.value && Live(old(sessions)[j], now, maxAge)
        ensures !Wants(Verified(uid, caller), old(sessions)[j].value) {
        assert Passed(old(sessions)[j], sessions[j], Verified(uid, caller), now, maxAge);
      }
      return true, if age < maxAge then ToUint(maxAge - age) else 0;
    }

    /** Records that the user behind a session was, or no longer is, verified. */
    method SetVerified(i: nat, verified: bool)
      requires Valid() && i < MAX_SESSIONS && sessions[i].Some?
      modifies this`sessions
      ensures Valid() && sessions == old(sessions)[i := Some(old(sessions)[i].value.(verified := verified))]
    {
      hide Active;
      Replace(i, sessions[i].value.(verified := verified));
    }

    /** A successful authentication: a new session, verified from the start. */
    method Authenticate(token: seq<byte>, uid: nat, sender: string, now: int, ready: bool) returns (made: Option<nat>)
      requires Valid()
      modifies this`sessions, this`count
      ensures Valid()
      ensures made.Some? <==> ready && exists i | 0 <= i < Capacity(maxSessions) ::
                                         !Live(old(sessions)[i], now, maxAge) || old(sessions)[i].value.created < now
      ensures made.Some? ==>
                && made.value < Capacity(maxSessions)
                && sessions == old(sessions)[made.value := Some(Session(token, uid, sender, now, now, true))]
                && Live(sessions[made.value], now, maxAge)
                && Wants(Verified(uid, Some(sender)), sessions[made.value].value)
    {
      hide Active;
      made := Create(token, uid, sender, now, ready);
      if made.Some? {
        SetVerified(made.value, true);
      }
    }

    /** Drops the active sessions of a user that the caller may see, and counts them. */
    method Revoke(uid: nat, caller: Option<string>) returns (revoked: nat)
      requires Valid()
      modifies this`sessions, this`count
      ensures Valid() && revoked == old(count) - count
      ensures forall i | 0 <= i < MAX_SESSIONS :: sessions[i] == Revoked(old(sessions)[i], uid, caller)
      ensures forall i | 0 <= i < 64 && old(sessions)[i].Some? ::
                var s := old(sessions)[i].value;
                var own := s.uid == uid && (caller == None || s.sender == "" || caller == Some(s.sender));
                sessions[i] == if own then None else old(sessions)[i]
    {
      hide Active, Owned;
      revoked := 0;
      for i := 0 to Capacity(maxSessions)
        invariant Valid() && revoked == old(count) - count
        invariant forall j | 0 <= j < i :: sessions[j] == Revoked(old(sessions)[j], uid, caller)
        invariant forall j | i <= j < MAX_SESSIONS :: sessions[j] == old(sessions)[j]
      {
        if Owned(sessions[i], uid, caller) {
          OwnedIsActive(sessions[i], uid, caller);
          Drop(i);
          revoked := revoked + 1;
        }
      }
      forall i | Capacity(maxSessions) <= i < MAX_SESSIONS ensures !Owned(old(sessions)[i], uid, caller) {
        if Owned(old(sessions)[i], uid, caller) { OwnedIsActive(old(sessions)[i], uid, caller); }
      }
      forall i | 0 <= i < MAX_SESSIONS && old(sessions)[i].Some?
        ensures var s := old(sessions)[i].value;
                var own := s.uid == uid && (caller == None || s.sender == "" || caller == Some(s.sender));
                Owned(old(sessions)[i], uid, caller) <==> own {
        OwnedIs(old(sessions)[i].value, uid, caller);
      }
    }

    /** Drops every expired session. */
    method Sweep(now: int)
      requires Valid()
      modifies this`sessions, this`count
      ensures Valid()
      ensures forall i | 0 <= i < MAX_SESSIONS :: sessions[i] == Swept(old(sessions)[i], now, maxAge)
      ensures forall i | 0 <= i < 64 && old(sessions)[i].Some? ::
                var expired := now - old(sessions)[i].value.created > maxAge;
                sessions[i] == if expired then None else old(sessions)[i]
    {
      hide Active;
      for i := 0 to Capacity(maxSessions)
        invariant Valid()
        invariant forall j | 0 <= j < i :: sessions[j] == Swept(old(sessions)[j], now, maxAge)
        invariant forall j | i <= j < MAX_SESSIONS :: sessions[j] == old(sessions)[j]
      {
        if sessions[i].Some? && Expired(sessions[i].value, now, maxAge) {
          Drop(i);
        }
      }
    }

    /** Extends the caller's verified sessions and drops those of them that have expired. */
    method Extend(uid: nat, caller: Option<string>, seconds: u32, now: int) returns (extended: nat)
      requires Valid()
      modifies this`sessions, this`count
      ensures Valid()
      ensures forall i | 0 <= i < MAX_SESSIONS ::
                sessions[i] == Extended(old(sessions)[i], uid, caller, seconds, now, maxAge)
      ensures maxAge < 0x1_0000_0000 ==> forall i | 0 <= i < 64 ::
                ExtendedAs(old(sessions)[i], sessions[i], uid, caller, seconds, now, maxAge)
      ensures var w := Verified(uid, caller);
              extended > 0 <==> exists i | 0 <= i < MAX_SESSIONS ::
                                  Live(old(sessions)[i], now, maxAge) && Wants(w, old(sessions)[i].value)
    {
      hide Active, ExtendedCreation, SameSender, ExtendedAs;
      extended := 0;
      for i := 0 to Capacity(maxSessions)
        invariant Valid()
        invariant forall j | 0 <= j < i :: sessions[j] == Extended(old(sessions)[j], uid, caller, seconds, now, maxAge)
        invariant forall j | i <= j < MAX_SESSIONS :: sessions[j] == old(sessions)[j]
        invariant var w := Verified(uid, caller);
                  extended > 0 <==> exists j | 0 <= j < i ::
                                      Live(old(sessions)[j], now, maxAge) && Wants(w, old(sessions)[j].value)
      {
        if Owned(sessions[i], uid, caller) && sessions[i].value.verified {
          if Expired(sessions[i].value, now, maxAge) {
            Drop(i);
          } else {
            var created := ExtendedCreation(sessions[i].value.created, now, seconds, maxAge);
            Replace(i, sessions[i].value.(created := created, lastUsed := now));
            extended := extended + 1;
          }
        }
      }
      if maxAge < UINT_LIMIT {
        forall i | 0 <= i < MAX_SESSIONS
          ensures ExtendedAs(old(sessions)[i], sessions[i], uid, caller, seconds, now, maxAge) {
          ExtendedIs(old(sessions)[i], uid, caller, seconds, now, maxAge);
        }
      }
    }

    /** The first slot below the capacity that is inactive or expired. */
    method FreeSlot(now: int) returns (found: Option<nat>)
      requires Valid()
      modifies this`sessions, this`count
      ensures Valid()
      ensures found.Some? ==>
                && found.value < Capacity(maxSessions) && sessions == old(sessions)[found.value := None]
                && !Live(old(sessions)[found.value], now, maxAge)
      ensures found.None? ==> sessions == old(sessions) && count == old(count)
      ensures found.None? ==> forall i | 0 <= i < Capacity(maxSessions) :: Live(sessions[i], now, maxAge)
    {
      hide Active;
      for i := 0 to Capacity(maxSessions)
        invariant Valid() && sessions == old(sessions) && count == old(count)
        invariant forall j | 0 <= j < i :: Live(sessions[j], now, maxAge)
      {
        if sessions[i].None? {
          return Some(i);
        }
        if Expired(sessions[i].value, now, maxAge) {
          Drop(i);
          return Some(i);
        }
      }
      return None;
    }

    /** Of a full table, a session created before now with the least creation time. */
    method Oldest(now: int) returns (found: Option<nat>)
      requires Valid() && forall i | 0 <= i < Capacity(maxSessions) :: sessions[i].Some?
      ensures found.Some? ==>
                && found.value < Capacity(maxSessions)
                && forall i | 0 <= i < Capacity(maxSessions) ::
                     sessions[found.value].value.created <= sessions[i].value.created
      ensures found.None? <==> forall i | 0 <= i < Capacity(maxSessions) :: sessions[i].value.created >= now
    {
      hide Active;
      found := None;
      var oldest := now;
      for i := 0 to Capacity(maxSessions)
        invariant found.None? ==> oldest == now
        invariant found.Some? ==> found.value < i && oldest == sessions[found.value].value.created < now
        invariant forall j | 0 <= j < i :: oldest <= sessions[j].value.created
      {
        if sessions[i].value.created < oldest {
          oldest := sessions[i].value.created;
          found := Some(i);
        }
      }
    }

    /** Creates a session in a free or expired slot, or in place of the oldest session of a full table. A
        generator failure leaves the chosen slot inactive. */
    method Create(token: seq<byte>, uid: nat, sender: string, now: int, ready: bool) returns (made: Option<nat>)
      requires Valid()
      modifies this`sessions, this`count
      ensures Valid()
      ensures made.Some? ==>
                && made.value < Capacity(maxSessions)
                && sessions == old(sessions)[made.value := Some(Session(token, uid, sender, now, now, false))]
      ensures made.None? ==>
                || sessions == old(sessions)
                || exists k | 0 <= k < Capacity(maxSessions) :: Cleared(old(sessions), sessions, k)
      ensures made.Some? && Live(old(sessions)[made.value], now, maxAge) ==>
                forall i | 0 <= i < Capacity(maxSessions) ::
                  && Live(old(sessions)[i], now, maxAge)
                  && old(sessions)[made.value].value.created <= old(sessions)[i].value.created
      ensures made.Some? <==> ready && exists i | 0 <= i < Capacity(maxSessions) ::
                                         !Live(old(sessions)[i], now, maxAge) || old(sessions)[i].value.created < now
    {
      hide Active;
      var slot := FreeSlot(now);
      if slot.None? {
        slot := Oldest(now);
        if slot.None? {
          return None;
        }
        Drop(slot.value);
      }
      var k := slot.value;
      assert Cleared(old(sessions), sessions, k);
      if !ready {
        return None;
      }
      Put(k, Session(token, uid, sender, now, now, false));
      return Some(k);
    }

    /** A configuration reload: sessions above the new capacity are dropped. */
    method Reload(maxSessions: int, maxAge: nat)
      requires Valid()
      modifies this
      ensures Valid() && this.maxSessions == maxSessions && this.maxAge == maxAge
      ensures forall i | 0 <= i < Capacity(maxSessions) :: sessions[i] == old(sessions)[i]
      ensures forall i | Capacity(maxSessions) <= i < MAX_SESSIONS :: sessions[i] == None
      ensures forall i | 0 <= i < 64 :: sessions[i] == if i == 0 || i < maxSessions then old(sessions)[i] else None
    {
      hide Active;
      this.maxSessions, this.maxAge := maxSessions, maxAge;
      var cap := Capacity(maxSessions);
      for i := cap to MAX_SESSIONS
        invariant Counted() && this.maxSessions == maxSessions && this.maxAge == maxAge
        invariant forall j | cap <= j < i :: sessions[j].None?
        invariant forall j | 0 <= j < MAX_SESSIONS && !(cap <= j < i) :: sessions[j] == old(sessions)[j]
      {
        if sessions[i].Some? {
          Drop(i);
        }
      }
    }
  }

  lemma OwnedIs(s: Session, uid: nat, caller: Option<string>)
    ensures Owned(Some(s), uid, caller) <==>
            s.uid == uid && (caller == None || s.sender == "" || caller == Some(s.sender))
  {
  }

  lemma OwnedIsActive(slot: Slot, uid: nat, caller: Option<string>)
    requires Owned(slot, uid, caller)
    ensures slot.Some?
  {
  }

  lemma {:induction false} NoneActive(s: seq<Slot>, n: nat)
    requires n <= |s| && forall i | 0 <= i < n :: s[i].None?
    ensures Active(s, n) == 0
  {
    if n > 0 {
      NoneActive(s, n - 1);
    }
  }
}
