/** clientPin: the PIN, its retry counter and block flag, in memory and on disk, over whole runs of
    subcommands, resets, saves and restarts. Key agreement, decryption, hashing and the outcome of each
    save are inputs. */
module Pin {
  import opened Bytes

  const MAX_RETRIES := 8
  const MAX_PIN_LEN := 63

  type Hash = seq<byte>
  const NO_HASH: Hash := [0, 0, 0, 0, 0, 0, 0, 0, 0, 0, 0, 0, 0, 0, 0, 0]

  datatype PinState = PinState(isSet: bool, hash: Hash, retries: int, blocked: bool)

  /** The PIN in memory and the one in the stored file, if there is a file. */
  datatype State = State(pin: PinState, disk: Option<PinState>)

  const FRESH_PIN := PinState(false, NO_HASH, MAX_RETRIES, false)
  const INITIAL := State(FRESH_PIN, None)

  // ----- the state machine -------------------------------------------------------------------------

  datatype Event =
    | Set(hash: Hash, saved: bool)
    | Token(candidate: Hash, saved: bool)
    | Change(candidate: Hash, newHash: Option<Hash>, saved: bool)
    | Reset(saved: bool)
    | Save(saved: bool)
    | Restart(loaded: bool)

  function Saved(s: State, saved: bool): State
  {
    if saved then s.(disk := Some(s.pin)) else s
  }

  /** One wrong PIN: a retry is used up, the last one blocks, and the result is saved. */
  function Failed(s: State, saved: bool): State
  {
    Saved(s.(pin := s.pin.(retries := s.pin.retries - 1, blocked := s.pin.blocked || s.pin.retries <= 1)), saved)
  }

  predicate Compares(s: State, e: Event)
  {
    (e.Token? || e.Change?) && s.pin.isSet && !s.pin.blocked
  }

  predicate ComparesWrong(s: State, e: Event)
  {
    Compares(s, e) && e.candidate != s.pin.hash
  }

  predicate ComparesRight(s: State, e: Event)
  {
    Compares(s, e) && e.candidate == s.pin.hash
  }

  function Next(s: State, e: Event): State
  {
    match e
    case Set(hash, saved) =>
      if s.pin.isSet then s
      else if saved then Saved(s.(pin := s.pin.(isSet := true, hash := hash, retries := MAX_RETRIES)), true)
      else s.(pin := s.pin.(hash := NO_HASH, retries := MAX_RETRIES))
    case Token(_, saved) =>
      if ComparesWrong(s, e) then Failed(s, saved)
      else if ComparesRight(s, e) then s.(pin := s.pin.(retries := MAX_RETRIES))
      else s
    case Change(_, newHash, saved) =>
      if ComparesWrong(s, e) then Failed(s, saved)
      else if ComparesRight(s, e) && newHash.Some? && saved then
        Saved(s.(pin := PinState(true, newHash.value, MAX_RETRIES, false)), true)
      else s
    case Reset(saved) => Saved(s.(pin := FRESH_PIN), saved)
    case Save(saved) => Saved(s, saved)
    case Restart(loaded) => s.(pin := if loaded && s.disk.Some? then s.disk.value else FRESH_PIN)
  }

  function After(s: State, run: seq<Event>): State
  {
    if run == [] then s else Next(After(s, run[..|run| - 1]), run[|run| - 1])
  }

  /** Wrong PINs compared since the last correct one or the last reset. */
  function Wrong(s: State, run: seq<Event>): nat
  {
    if run == [] then 0
    else
      var before, e := run[..|run| - 1], run[|run| - 1];
      if ComparesWrong(After(s, before), e) then Wrong(s, before) + 1
      else if ComparesRight(After(s, before), e) || e.Reset? then 0
      else Wrong(s, before)
  }

  // ----- what holds in every state -----------------------------------------------------------------

  predicate Consistent(p: PinState)
  {
    && 0 <= p.retries <= MAX_RETRIES
    && (p.blocked <==> p.retries == 0)
    && (!p.isSet ==> p.retries == MAX_RETRIES)
  }

  predicate Inv(s: State)
  {
    Consistent(s.pin) && (s.disk.Some? ==> Consistent(s.disk.value))
  }

  lemma StepKeepsInv(s: State, e: Event)
    requires Inv(s)
    ensures Inv(Next(s, e))
  {
  }

  /** Whatever is saved or lost, memory and every stored snapshot have 0 to 8 retries, are blocked exactly
      at 0, and without a PIN have all 8 and are not blocked. */
  lemma {:induction false} ReachableInv(run: seq<Event>)
    ensures Inv(After(INITIAL, run))
  {
    if run != [] {
      ReachableInv(run[..|run| - 1]);
      StepKeepsInv(After(INITIAL, run[..|run| - 1]), run[|run| - 1]);
    }
  }

  // ----- a PIN survives restarts -------------------------------------------------------------------

  /** A PIN in memory is also the PIN on disk. */
  predicate Durable(s: State)
  {
    s.pin.isSet ==> s.disk.Some? && s.disk.value.isSet && s.disk.value.hash == s.pin.hash
  }

  lemma {:induction false} ReachableDurable(run: seq<Event>)
    ensures Durable(After(INITIAL, run))
  {
    if run != [] {
      ReachableDurable(run[..|run| - 1]);
    }
  }

  /** Restarting with a readable file keeps an existing PIN, so no run brings back a replaced one. */
  lemma RestartKeepsPin(run: seq<Event>)
    requires After(INITIAL, run).pin.isSet
    ensures var s, s' := After(INITIAL, run), Next(After(INITIAL, run), Restart(true));
            s'.pin.isSet && s'.pin.hash == s.pin.hash
  {
    ReachableDurable(run);
  }

  // ----- at most eight wrong PINs ------------------------------------------------------------------

  /** Retries that restarts have handed back since the last correct PIN or reset: a restart that finds more
      of them in the file than were left in memory, or no file to read, hands back the difference. */
  function Regained(s: State, run: seq<Event>): nat
  {
    if run == [] then 0
    else
      var before, e := run[..|run| - 1], run[|run| - 1];
      var was, now := After(s, before), After(s, run);
      if ComparesRight(was, e) || e.Reset? then 0
      else if e.Restart? && now.pin.retries > was.pin.retries then
        Regained(s, before) + (now.pin.retries - was.pin.retries)
      else Regained(s, before)
  }

  /** Retries not given back at the last correct PIN or reset, and those that restarts have taken away since:
      a correct old PIN whose change fails gives back none. */
  function Withheld(s: State, run: seq<Event>): nat
    requires Inv(s)
  {
    if run == [] then MAX_RETRIES - s.pin.retries
    else
      var before, e := run[..|run| - 1], run[|run| - 1];
      var was, now := After(s, before), After(s, run);
      if ComparesRight(was, e) || e.Reset? then
        if now.pin.retries <= MAX_RETRIES then MAX_RETRIES - now.pin.retries else 0
      else if e.Restart? && now.pin.retries < was.pin.retries then
        Withheld(s, before) + (was.pin.retries - now.pin.retries)
      else Withheld(s, before)
  }

  /** The exact account, over every run at all, whatever is saved, lost or unreadable: the wrong PINs compared
      since the last correct PIN or reset, the retries left and those withheld make up 8 and what restarts
      have handed back. */
  lemma {:induction false} RetriesBalance(s: State, run: seq<Event>)
    requires Inv(s)
    ensures Wrong(s, run) + After(s, run).pin.retries + Withheld(s, run) == MAX_RETRIES + Regained(s, run)
    ensures Inv(After(s, run))
  {
    if run != [] {
      RetriesBalance(s, run[..|run| - 1]);
      StepKeepsInv(After(s, run[..|run| - 1]), run[|run| - 1]);
    }
  }

  /** More than 8 wrong PINs are compared since the last correct PIN or reset if and only if restarts have
      handed back more retries than are left or withheld. */
  lemma MoreThanEightIff(run: seq<Event>)
    ensures Wrong(INITIAL, run) <= MAX_RETRIES <==>
            Regained(INITIAL, run) <= After(INITIAL, run).pin.retries + Withheld(INITIAL, run)
  {
    RetriesBalance(INITIAL, run);
  }

  lemma WrongWithinBudget(run: seq<Event>)
    ensures Wrong(INITIAL, run) + After(INITIAL, run).pin.retries <= MAX_RETRIES + Regained(INITIAL, run)
  {
    RetriesBalance(INITIAL, run);
  }

  /** Every failed comparison is saved and every restart can read the file. */
  predicate Kept(run: seq<Event>)
  {
    && (forall i | 0 <= i < |run| :: ComparesWrong(After(INITIAL, run[..i]), run[i]) ==> run[i].saved)
    && (forall i | 0 <= i < |run| :: run[i].Restart? ==> run[i].loaded)
  }

  /** The file never has more retries than memory, and without a file all are left. */
  predicate NothingToRegain(s: State)
  {
    if s.disk.Some? then s.disk.value.retries <= s.pin.retries else s.pin.retries == MAX_RETRIES
  }

  lemma KeptPrefix(run: seq<Event>)
    requires Kept(run) && run != []
    ensures Kept(run[..|run| - 1])
  {
    hide After;
    var before := run[..|run| - 1];
    forall i | 0 <= i < |before| ensures ComparesWrong(After(INITIAL, before[..i]), before[i]) ==> before[i].saved {
      assert before[..i] == run[..i] && before[i] == run[i];
    }
  }

  lemma {:induction false} NothingRegained(run: seq<Event>)
    requires Kept(run)
    ensures Regained(INITIAL, run) == 0 && NothingToRegain(After(INITIAL, run))
  {
    if run != [] {
      var before := run[..|run| - 1];
      KeptPrefix(run);
      NothingRegained(before);
      ReachableInv(before);
      ReachableDurable(before);
      assert ComparesWrong(After(INITIAL, run[..|run| - 1]), run[|run| - 1]) ==> run[|run| - 1].saved;
    }
  }

  /** Over every run whose failures are saved, at most 8 wrong PINs are compared since the last correct
      PIN or reset, restarts included, and the counter never promises more tries than are left of 8. */
  lemma AtMostEightWrong(run: seq<Event>)
    requires Kept(run)
    ensures Wrong(INITIAL, run) <= MAX_RETRIES - After(INITIAL, run).pin.retries <= MAX_RETRIES
  {
    WrongWithinBudget(run);
    NothingRegained(run);
    ReachableInv(run);
  }

  /** n wrong PINs in a row use up exactly n retries, and the last retry blocks. */
  lemma {:induction false} RetriesAreExact(s: State, run: seq<Event>)
    requires Consistent(s.pin) && s.pin.isSet && |run| <= s.pin.retries
    requires forall i | 0 <= i < |run| :: run[i].Token? && run[i].candidate != s.pin.hash
    ensures var p := After(s, run).pin;
            p == s.pin.(retries := s.pin.retries - |run|, blocked := |run| == s.pin.retries)
    ensures Wrong(s, run) == |run|
  {
    if run != [] {
      RetriesAreExact(s, run[..|run| - 1]);
    }
  }

  /** Once blocked in memory and on disk, no run without a reset compares a PIN again, not even the
      right one, nor replaces it. Even lost saves and restarts do not lift the block; only an unreadable
      file does. */
  lemma {:induction false} BlockedUntilReset(s: State, run: seq<Event>)
    requires s.pin.isSet && s.pin.blocked && s.disk == Some(s.pin)
    requires forall i | 0 <= i < |run| :: !run[i].Reset? && (run[i].Restart? ==> run[i].loaded)
    ensures After(s, run) == s && Wrong(s, run) == 0
    ensures forall e :: !Compares(After(s, run), e)
  {
    if run != [] {
      BlockedUntilReset(s, run[..|run| - 1]);
    }
  }

  /** A run on which each failure is lost and handed back by a restart. */
  function LossyRun(hash: Hash, n: nat): seq<Event>
  {
    if n == 0 then [Set(NO_HASH, true)] else LossyRun(hash, n - 1) + [Token(hash, false), Restart(true)]
  }

  /** The saves are needed: where failures are not saved, restarts give any number of wrong tries, and hand
      back exactly as many retries. */
  lemma {:induction false} UnsavedFailuresAreUnbounded(hash: Hash, n: nat)
    requires hash != NO_HASH
    ensures Wrong(INITIAL, LossyRun(hash, n)) == Regained(INITIAL, LossyRun(hash, n)) == n
    ensures var p := FRESH_PIN.(isSet := true); After(INITIAL, LossyRun(hash, n)) == State(p, Some(p))
  {
    var run := LossyRun(hash, n);
    if n == 0 {
      assert run[..0] == [];
    } else {
      var before := LossyRun(hash, n - 1);
      UnsavedFailuresAreUnbounded(hash, n - 1);
      assert run[..|run| - 1] == before + [Token(hash, false)];
      assert (before + [Token(hash, false)])[..|before|] == before;
    }
  }

  /** A right PIN whose change does not happen: the new PIN is not acceptable, or the save fails. */
  predicate ChangeLost(s: State, e: Event)
  {
    e.Change? && ComparesRight(s, e) && (e.newHash.None? || !e.saved)
  }

  /** No restart, and no right PIN whose change does not happen. */
  predicate Plain(run: seq<Event>)
  {
    forall i | 0 <= i < |run| :: !run[i].Restart? && !ChangeLost(After(INITIAL, run[..i]), run[i])
  }

  lemma PlainPrefix(run: seq<Event>)
    requires Plain(run) && run != []
    ensures Plain(run[..|run| - 1])
  {
    hide After, ChangeLost;
    var before := run[..|run| - 1];
    forall i | 0 <= i < |before| ensures !before[i].Restart? && !ChangeLost(After(INITIAL, before[..i]), before[i]) {
      assert before[..i] == run[..i] && before[i] == run[i];
    }
  }

  /** Over those runs the retries left are exactly 8 less the wrong PINs since the last right one or reset:
      a right PIN gives all of them back. */
  lemma {:induction false} RetriesAreWhatIsLeft(run: seq<Event>)
    requires Plain(run)
    ensures Wrong(INITIAL, run) + After(INITIAL, run).pin.retries == 8
  {
    if run != [] {
      var before := run[..|run| - 1];
      PlainPrefix(run);
      RetriesAreWhatIsLeft(before);
      ReachableInv(before);
      assert !ChangeLost(After(INITIAL, run[..|run| - 1]), run[|run| - 1]);
    }
  }

  // ----- the subcommands ---------------------------------------------------------------------------

  datatype Status =
    | Ok | NotAllowed | MissingParameter | InvalidOption | PinAuthInvalid | PinPolicyViolation
    | PinNotSet | PinBlocked | PinInvalid | OperationDenied | Other

  /** A parsed request. */
  datatype Request = Request(hasKeyAgreement: bool, hasAuthParam: bool, newPinEncLen: nat, pinHashEncLen: nat,
                             hasPermissions: bool, permissions: nat)

  /** What the cryptography and the file system answer: the key derivation's status, whether pinAuth
      matches, the decrypted PIN hash and new PIN, the new PIN's digest, whether the save succeeds, and the
      status of making, sealing and encoding the token and renewing the key pair. */
  datatype Answers = Answers(keys: Status, authMatches: bool, pinHash: Option<Hash>, newPin: Option<seq<byte>>,
                             digest: Hash, saved: bool, finish: Status)

  /** Length of a PIN without the zero bytes that pad it. */
  method PinLength(raw: seq<byte>) returns (n: nat)
    ensures n <= |raw| && (n > 0 ==> raw[n - 1] != 0)
    ensures forall i | n <= i < |raw| :: raw[i] == 0
  {
    n := |raw|;
    while n > 0 && raw[n - 1] == 0
      invariant n <= |raw| && forall i | n <= i < |raw| :: raw[i] == 0
    {
      n := n - 1;
    }
  }

  ghost predicate IsPinLength(raw: seq<byte>, n: nat)
  {
    n <= |raw| && (n > 0 ==> raw[n - 1] != 0) && forall i | n <= i < |raw| :: raw[i] == 0
  }

  /** The new PIN decrypts and, without its padding, has an acceptable length. */
  ghost predicate Acceptable(r: Request, a: Answers, minLength: nat)
  {
    && r.newPinEncLen <= 256
    && r.newPinEncLen % 16 == 0
    && a.newPin.Some?
    && exists n | minLength <= n <= MAX_PIN_LEN :: IsPinLength(a.newPin.value, n)
  }

  /** The request gets as far as comparing a PIN hash, if there is an unblocked PIN. */
  predicate TokenWellFormed(r: Request, a: Answers, perm: bool)
  {
    && r.hasKeyAgreement
    && (perm ==> r.hasPermissions && r.permissions != 0)
    && r.pinHashEncLen in {16, 32, 48, 64}
    && a.keys == Ok
    && a.pinHash.Some?
  }

  predicate ChangeWellFormed(r: Request, a: Answers)
  {
    && r.hasKeyAgreement
    && r.hasAuthParam
    && r.pinHashEncLen != 0
    && r.newPinEncLen != 0
    && a.keys == Ok
    && r.newPinEncLen + r.pinHashEncLen <= 512
    && a.authMatches
    && r.pinHashEncLen % 16 == 0
    && a.pinHash.Some?
  }

  predicate SetWellFormed(r: Request, a: Answers)
  {
    r.hasKeyAgreement && r.hasAuthParam && r.newPinEncLen != 0 && a.keys == Ok && a.authMatches
  }

  /** The PIN stays, a retry is gone, and the last one blocks. */
  predicate OneTryLess(was: PinState, now: PinState)
  {
    && now.isSet == was.isSet
    && now.hash == was.hash
    && now.retries == was.retries - 1
    && (now.blocked <==> was.retries == 1)
  }

  class Authenticator {
    var pin: PinState
    var disk: Option<PinState>
    var minPinLength: nat

    function Now(): State
      reads this
    {
      State(pin, disk)
    }

    constructor ()
      ensures Now() == INITIAL && minPinLength == 4
      ensures !pin.isSet && pin.retries == 8 && !pin.blocked && disk == None
    {
      pin, disk, minPinLength := FRESH_PIN, None, 4;
    }

    method SaveCredentials(saved: bool)
      modifies this`disk
      ensures Now() == Next(old(Now()), Save(saved))
      ensures disk == if saved then Some(pin) else old(disk)
    {
      if saved {
        disk := Some(pin);
      }
    }

    method Start(loaded: bool)
      modifies this`pin
      ensures Now() == Next(old(Now()), Restart(loaded))
      ensures if loaded && disk.Some? then pin == disk.value
              else !pin.isSet && pin.hash == seq(16, i => 0) && pin.retries == 8 && !pin.blocked
    {
      pin := FRESH_PIN;
      if loaded && disk.Some? {
        pin := disk.value;
      }
    }

    method SetPin(r: Request, a: Answers) returns (status: Status)
      modifies this`pin, this`disk
      ensures Now() == if SetWellFormed(r, a) && Acceptable(r, a, minPinLength)
                       then Next(old(Now()), Set(a.digest, a.saved)) else old(Now())
      ensures status == Ok <==>
              !old(pin.isSet) && SetWellFormed(r, a) && Acceptable(r, a, minPinLength) && a.saved && a.finish == Ok
      ensures status == NotAllowed <== old(pin.isSet)
      ensures !old(pin.isSet) && SetWellFormed(r, a) && Acceptable(r, a, minPinLength) && a.saved ==>
              pin == PinState(true, a.digest, 8, old(pin.blocked)) && disk == Some(pin) && status == a.finish
      ensures status == Ok && Consistent(old(pin)) ==> !pin.blocked
      ensures status == Ok ==> r.hasKeyAgreement && r.hasAuthParam && a.authMatches
      ensures !old(pin.isSet) && !r.hasAuthParam ==> status == MissingParameter
      ensures !old(pin.isSet) && SetWellFormed(r, a) && Acceptable(r, a, minPinLength) && !a.saved ==>
              !pin.isSet && pin.hash == seq(16, i => 0) && pin.retries == 8 && disk == old(disk)
    {
      if pin.isSet { return NotAllowed; }
      if !r.hasKeyAgreement || r.newPinEncLen == 0 || !r.hasAuthParam { return MissingParameter; }
      if a.keys != Ok { return a.keys; }
      if !a.authMatches { return PinAuthInvalid; }
      status := ReadNewPin(r, a);
      if status != Ok { return; }
      pin := pin.(hash := a.digest);
      pin := pin.(isSet := true);
      pin := pin.(retries := MAX_RETRIES);
      SaveCredentials(a.saved);
      if !a.saved {
        pin := pin.(isSet := false);
        pin := pin.(hash := NO_HASH);
        return Other;
      }
      return a.finish;
    }

    /** Decrypts the new PIN and checks its length. */
    method ReadNewPin(r: Request, a: Answers) returns (status: Status)
      ensures status == Ok <==> Acceptable(r, a, minPinLength)
      ensures status in {Ok, PinPolicyViolation, Other}
      ensures status == Ok ==> r.newPinEncLen <= 256 && r.newPinEncLen % 16 == 0 && a.newPin.Some?
      ensures status == Ok ==> exists n | minPinLength <= n <= 63 :: IsPinLength(a.newPin.value, n)
      ensures status == PinPolicyViolation && r.newPinEncLen <= 256 && r.newPinEncLen % 16 == 0 && a.newPin.Some? ==>
              forall n: nat :: IsPinLength(a.newPin.value, n) ==> n < minPinLength || n > 63
    {
      if r.newPinEncLen > 256 || r.newPinEncLen % 16 != 0 { return PinPolicyViolation; }
      if a.newPin.None? { return Other; }
      var n := PinLength(a.newPin.value);
      assert IsPinLength(a.newPin.value, n);
      if n < minPinLength || n > MAX_PIN_LEN {
        forall m | IsPinLength(a.newPin.value, m) ensures m == n { OnePinLength(a.newPin.value, m, n); }
        return PinPolicyViolation;
      }
      return Ok;
    }

    /** getPinToken, and with `perm` getPinUvAuthTokenUsingPinWithPermissions. */
    method GetPinToken(r: Request, a: Answers, perm: bool) returns (status: Status)
      requires Consistent(pin)
      modifies this`pin, this`disk
      ensures Now() == if TokenWellFormed(r, a, perm) then Next(old(Now()), Token(a.pinHash.value, a.saved))
                       else old(Now())
      ensures status == Ok <==>
              && TokenWellFormed(r, a, perm) && a.finish == Ok
              && ComparesRight(old(Now()), Token(a.pinHash.value, a.saved))
      ensures !old(pin.isSet) ==> status == PinNotSet
      ensures old(pin.isSet && pin.blocked) ==> status == PinBlocked
      ensures TokenWellFormed(r, a, perm) && ComparesWrong(old(Now()), Token(a.pinHash.value, a.saved)) ==>
              status == if old(pin.retries) == 1 then PinBlocked else PinInvalid
      ensures TokenWellFormed(r, a, perm) && old(pin.isSet && !pin.blocked && pin.hash == a.pinHash.value) ==>
              pin == PinState(true, old(pin.hash), 8, false) && disk == old(disk) && status == a.finish
      ensures TokenWellFormed(r, a, perm) && old(pin.isSet && !pin.blocked && pin.hash != a.pinHash.value) ==>
              OneTryLess(old(pin), pin) && disk == if a.saved then Some(pin) else old(disk)
      ensures status == Ok ==> r.hasKeyAgreement && (perm ==> r.permissions != 0) && 16 <= r.pinHashEncLen <= 64
      ensures old(pin.isSet && !pin.blocked) && !r.hasKeyAgreement ==> status == MissingParameter
      ensures !TokenWellFormed(r, a, perm) || old(!pin.isSet || pin.blocked) ==> pin == old(pin) && disk == old(disk)
    {
      if !pin.isSet { return PinNotSet; }
      if pin.blocked { return PinBlocked; }
      if !r.hasKeyAgreement { return MissingParameter; }
      if perm {
        if !r.hasPermissions { return MissingParameter; }
        if r.permissions == 0 { return InvalidOption; }
      }
      if r.pinHashEncLen == 0 { return MissingParameter; }
      if a.keys != Ok { return a.keys; }
      if r.pinHashEncLen !in {16, 32, 48, 64} { return PinAuthInvalid; }
      if a.pinHash.None? { return Other; }
      if a.pinHash.value != pin.hash {
        status := FailedPin(a.saved);
        return;
      }
      pin := pin.(retries := MAX_RETRIES);
      if perm {
        pin := pin.(blocked := false);
      }
      return a.finish;
    }

    method FailedPin(saved: bool) returns (status: Status)
      requires Consistent(pin) && !pin.blocked
      modifies this`pin, this`disk
      ensures Now() == Failed(old(Now()), saved)
      ensures OneTryLess(old(pin), pin) && disk == if saved then Some(pin) else old(disk)
      ensures status == if old(pin.retries) == 1 then PinBlocked else PinInvalid
    {
      pin := pin.(retries := pin.retries - 1);
      if pin.retries <= 0 {
        pin := pin.(blocked := true);
      }
      SaveCredentials(saved);
      return if pin.blocked then PinBlocked else PinInvalid;
    }

    method ChangePin(r: Request, a: Answers) returns (status: Status)
      requires Consistent(pin)
      modifies this`pin, this`disk
      ensures Now() == if !ChangeWellFormed(r, a) then old(Now())
                       else Next(old(Now()), ChangeEvent(r, a, minPinLength))
      ensures status == Ok <==>
              && ChangeWellFormed(r, a) && ComparesRight(old(Now()), ChangeEvent(r, a, minPinLength))
              && Acceptable(r, a, minPinLength) && a.saved && a.finish == Ok
      ensures ChangeWellFormed(r, a) && old(pin.isSet && !pin.blocked) && old(pin.hash) != a.pinHash.value ==>
              OneTryLess(old(pin), pin) && disk == if a.saved then Some(pin) else old(disk)
      ensures ChangeWellFormed(r, a) && old(pin.isSet && !pin.blocked) && old(pin.hash) == a.pinHash.value ==>
              if Acceptable(r, a, minPinLength) && a.saved
              then pin == PinState(true, a.digest, 8, false) && disk == Some(pin) && status == a.finish
              else pin == old(pin) && disk == old(disk) && status != Ok
      ensures status == Ok ==> r.hasKeyAgreement && r.hasAuthParam && a.authMatches
      ensures old(pin.isSet && !pin.blocked) && !r.hasAuthParam ==> status == MissingParameter
      ensures !ChangeWellFormed(r, a) || old(!pin.isSet || pin.blocked) ==> pin == old(pin) && disk == old(disk)
      ensures !old(pin.isSet) ==> status == PinNotSet
      ensures old(pin.isSet && pin.blocked) ==> status == PinBlocked
    {
      if !pin.isSet { return PinNotSet; }
      if pin.blocked { return PinBlocked; }
      if !r.hasKeyAgreement || !r.hasAuthParam { return MissingParameter; }
      if r.pinHashEncLen == 0 || r.newPinEncLen == 0 { return MissingParameter; }
      if a.keys != Ok { return a.keys; }
      if r.newPinEncLen + r.pinHashEncLen > 512 { return Other; }
      if !a.authMatches || r.pinHashEncLen % 16 != 0 { return PinAuthInvalid; }
      if a.pinHash.None? { return Other; }
      if a.pinHash.value != pin.hash {
        status := FailedPin(a.saved);
        return;
      }
      status := ReadNewPin(r, a);
      if status != Ok { return; }
      var previous := pin;
      pin := pin.(hash := a.digest, retries := MAX_RETRIES, blocked := false);
      SaveCredentials(a.saved);
      if !a.saved {
        pin := previous;
        return Other;
      }
      return a.finish;
    }

    /** authenticatorReset: denied more than ten seconds after the start or without the user. The
        seconds since the start are an unsigned 64-bit difference. */
    method ResetAll(now: u64, started: u64, userMissing: bool, saved: bool) returns (status: Status)
      modifies this
      ensures status == Ok <==> (now - started) % 0x1_0000_0000_0000_0000 <= 10 && !userMissing
      ensures status == Ok ==> Now() == Next(old(Now()), Reset(saved)) && minPinLength == 4
      ensures status == Ok ==> pin == PinState(false, seq(16, i => 0), 8, false)
      ensures status == Ok ==> disk == if saved then Some(pin) else old(disk)
      ensures status != Ok ==> Now() == old(Now()) && minPinLength == old(minPinLength)
    {
      var elapsed := if now >= started then now - started else now - started + 0x1_0000_0000_0000_0000;
      if elapsed > 10 { return NotAllowed; }
      if userMissing { return OperationDenied; }
      pin := FRESH_PIN;
      minPinLength := 4;
      SaveCredentials(saved);
      return Ok;
    }
  }

  ghost function ChangeEvent(r: Request, a: Answers, minLength: nat): Event
    requires a.pinHash.Some?
  {
    Change(a.pinHash.value, if Acceptable(r, a, minLength) then Some(a.digest) else None, a.saved)
  }

  lemma OnePinLength(raw: seq<byte>, m: nat, n: nat)
    requires IsPinLength(raw, m) && IsPinLength(raw, n)
    ensures m == n
  {
  }
}
