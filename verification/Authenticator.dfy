/** The authenticator's commands on its credential slots, step by step, each tied to the state machine of
    Credentials. Parameters arrive parsed; authorization has already succeeded. */
module Authenticator {
  import opened Bytes
  import opened Credentials
  import opened Assertions

  datatype Reply =
    | Done
    | Answer(slot: nat, counter: nat, total: nat)
    | Rp(rpHash: seq<byte>, totalRps: nat)
    | NoCredentials
    | NotAllowed
    | StoreFull
    | InvalidOption
    | Failure

  class Device {
    var slots: seq<Slot>
    var count: nat
    var counter: u32
    var disk: Option<Store>
    var enumeration: Enumeration
    var matches: seq<nat>
    var index: nat
    var stamp: u64

    function Now(): State
      reads this
    {
      State(Store(slots, count, counter), disk, enumeration, Assertion(matches, index, stamp))
    }

    constructor ()
      ensures Now() == INITIAL
    {
      slots, count, counter, disk := Placed([]), 0, 0, None;
      enumeration, matches, index, stamp := NO_ENUMERATION, [], 0, 0;
    }

    /** The dispatcher's first step for every command but GetNextAssertion. */
    method DropAssertion()
      modifies this`matches, this`index, this`stamp
      ensures Now() == old(Now()).(assertion := NO_ASSERTION)
    {
      matches, index, stamp := [], 0, 0;
    }

    method SaveCredentials(saved: bool)
      modifies this`disk
      ensures Now() == Saved(old(Now()), saved)
    {
      if saved {
        disk := Some(Store(slots, count, counter));
      }
    }

    /** makeCredential from raising the counter on. */
    method MakeCredential(c: Credential, discoverable: bool, outcome: Outcome, saved: bool) returns (r: Reply)
      requires |slots| == MAX_STORED
      modifies this
      ensures Now() == Next(old(Now()), Make(c, discoverable, outcome, saved))
      ensures r.Done? <==> Signed(old(Now()), Make(c, discoverable, outcome, saved)).Signature?
      ensures counter == (old(counter) + 1) % 0x1_0000_0000
      ensures !discoverable ==> slots == old(slots)
      ensures r.Done? && discoverable ==>
                && disk == Some(Store(slots, count, counter))
                && exists k | 0 <= k < |old(slots)| :: StoredAt(old(slots), slots, k, c, counter)
      ensures r.StoreFull? ==> forall k | 0 <= k < |slots| :: slots[k].Some? && !SameUser(slots[k], c)
    {
      hide First, Prefix, Restored, Matching, Meets, SameUser, NextManaged, AssertAgain, AssertNow, Started, Placed;
      ghost var was := slots;
      AllSameUser(slots, c);
      MeetsFree(slots);
      DropAssertion();
      counter := Wrap32(counter + 1);
      if outcome == SigningFails { return Failure; }
      if !discoverable { return if outcome == Built then Done else Failure; }
      var slot := FindFirst(slots, OwnerOf(c));
      if slot == MAX_STORED {
        slot := FindFirst(slots, Free);
      }
      if slot == MAX_STORED { return StoreFull; }
      var wasInUse := slots[slot].Some?;
      slots := slots[slot := Some(Stored(c, counter))];
      if !wasInUse {
        count := count + 1;
      }
      SaveCredentials(saved);
      if !saved {
        slots := slots[slot := None];
        if !wasInUse {
          count := count - 1;
        }
        return Failure;
      }
      assert StoredAt(was, slots, slot, c, counter);
      return if outcome == Built then Done else Failure;
    }

    /** A clientPin command that saves, or a shutdown. */
    method SaveOnly(saved: bool)
      modifies this
      ensures Now() == Next(old(Now()), Save(saved))
      ensures slots == old(slots) && count == old(count) && counter == old(counter)
      ensures disk == if saved then Some(Store(slots, count, counter)) else old(disk)
    {
      hide First, Restored, Matching;
      DropAssertion();
      SaveCredentials(saved);
    }

    /** The step every credential management command but the two getNext ones takes first. */
    method DropEnumeration()
      modifies this`enumeration
      ensures Now() == old(Now()).(enumeration := old(enumeration).(slots := [], rps := []))
    {
      enumeration := enumeration.(slots := [], rps := []);
    }

    method DeleteCredential(credId: seq<byte>, saved: bool) returns (r: Reply)
      modifies this
      ensures Now() == Next(old(Now()), Delete(credId, saved))
      ensures r == Done || r == NoCredentials
      ensures r == NoCredentials ==> slots == old(slots) && forall k | 0 <= k < |slots| :: !HasId(slots[k], credId)
      ensures r == Done ==> (saved ==> disk == Some(Store(slots, count, counter)))
      ensures r == Done ==> exists k | 0 <= k < |old(slots)| :: RemovedAt(old(slots), slots, k, credId)
    {
      hide First, Meets, Restored, Matching, HasId;
      ghost var before := slots;
      AllWithId(slots, credId);
      DropAssertion();
      DropEnumeration();
      var k := FindFirst(slots, WithId(credId));
      if k == |slots| {
        return NoCredentials;
      }
      slots := slots[k := None];
      assert RemovedAt(before, slots, k, credId);
      if count > 0 {
        count := count - 1;
      }
      SaveCredentials(saved);
      return Done;
    }

    /** updateUserInformation: the user id, if given, must be the stored one; empty names stay. */
    method UpdateUser(credId: seq<byte>, userId: seq<byte>, userName: seq<byte>, displayName: seq<byte>, saved: bool)
      returns (r: Reply)
      modifies this
      ensures Now() == Next(old(Now()), Update(credId, userId, userName, displayName, saved))
      ensures var k := First(old(slots), WithId(credId), 0);
              r == if k == |old(slots)| then NoCredentials
                   else
                     var c := old(slots)[k].value;
                     if userId == [] || userId == Prefix(c.userId, c.userIdLen) then Done else InvalidOption
      ensures r != Done ==> slots == old(slots)
      ensures r == Done ==> (saved ==> disk == Some(Store(slots, count, counter)))
      ensures r == Done ==>
                exists k | 0 <= k < |old(slots)| :: RenamedAt(old(slots), slots, k, credId, userName, displayName)
    {
      hide First, Restored, Matching, Meets, HasId;
      ghost var before := slots;
      AllWithId(slots, credId);
      UsedIfFound(slots, credId);
      DropAssertion();
      DropEnumeration();
      var k := FindFirst(slots, WithId(credId));
      if k == |slots| { return NoCredentials; }
      var c := slots[k].value;
      if userId != [] && userId != Prefix(c.userId, c.userIdLen) { return InvalidOption; }
      if userName != [] {
        c := c.(userName := userName);
      }
      if displayName != [] {
        c := c.(displayName := displayName);
      }
      slots := slots[k := Some(c)];
      assert RenamedAt(before, slots, k, credId, userName, displayName);
      SaveCredentials(saved);
      return Done;
    }

    /** enumerateCredentialsBegin */
    method BeginCredentials(rp: seq<byte>) returns (r: Reply)
      modifies this
      ensures Now() == Next(old(Now()), BeginCreds(rp))
      ensures var listed := enumeration.slots;
              r == if listed == [] then NoCredentials else Answer(listed[0], 0, |listed|)
    {
      hide First, Meets, Restored, Matching;
      DropAssertion();
      DropEnumeration();
      var m := Collect(slots, OfRp(rp));
      enumeration := enumeration.(rp := rp, slots := m);
      if m == [] { return NoCredentials; }
      enumeration := enumeration.(next := 1);
      return Answer(m[0], 0, |m|);
    }

    /** enumerateCredentialsGetNextCredential: as long as the listed slots are live, the answer is a live
        credential of the relying party. */
    method NextCredential() returns (r: Reply)
      modifies this
      ensures Now() == Next(old(Now()), NextCred)
      ensures r.Answer? <==> old(enumeration.next < |enumeration.slots|)
      ensures r.Answer? ==> r.slot == old(enumeration.slots[enumeration.next])
      ensures old(Pending(Now())) && r.Answer? ==> r.slot < |slots| && HasRp(slots[r.slot], enumeration.rp)
    {
      hide First, Meets, Restored, Matching, HasRp;
      AllOfRp(slots, enumeration.rp);
      DropAssertion();
      if enumeration.next >= |enumeration.slots| { return NoCredentials; }
      var slot := enumeration.slots[enumeration.next];
      enumeration := enumeration.(next := enumeration.next + 1);
      assert slot in enumeration.slots;
      return Answer(slot, 0, 0);
    }

    /** enumerateRPsBegin */
    method BeginRelyingParties() returns (r: Reply)
      modifies this
      ensures Now() == Next(old(Now()), BeginRps)
      ensures r == if enumeration.rps == [] then NoCredentials else Rp(enumeration.rps[0], |enumeration.rps|)
    {
      hide First, Meets, Restored, Matching, Credentials.Rps;
      DropAssertion();
      DropEnumeration();
      var rps := CollectRps(slots);
      enumeration := enumeration.(rps := rps);
      if rps == [] { return NoCredentials; }
      enumeration := enumeration.(nextRp := 1);
      return Rp(rps[0], |rps|);
    }

    /** enumerateRPsGetNextRP */
    method NextRelyingParty() returns (r: Reply)
      modifies this
      ensures Now() == Next(old(Now()), NextRp)
      ensures var n := old(enumeration);
              r == if n.nextRp < |n.rps| then Rp(n.rps[n.nextRp], 0) else NoCredentials
    {
      hide First, Meets, Restored, Matching, Credentials.Rps;
      DropAssertion();
      if enumeration.nextRp >= |enumeration.rps| { return NoCredentials; }
      var i := enumeration.nextRp;
      enumeration := enumeration.(nextRp := i + 1);
      return Rp(enumeration.rps[i], 0);
    }

    /** Signs with the credential in slot k: its counter goes up first and comes back only when the
        response does not encode; a successful response is saved. */
    method BuildAssertion(k: nat, outcome: Outcome, saved: bool) returns (r: Reply)
      requires k < |slots| && slots[k].Some?
      modifies this`slots, this`disk
      ensures Now() == SignWith(old(Now()), k, outcome, saved) && |slots| == |old(slots)| && slots[k].Some?
      ensures r == if outcome == Built then Answer(k, slots[k].value.signCount, |matches|) else Failure
      ensures var was := old(slots)[k].value;
              var raised := if outcome == EncodingFails then was.signCount else (was.signCount + 1) % 0x1_0000_0000;
              slots == old(slots)[k := Some(was.(signCount := raised))]
      ensures disk == if outcome == Built && saved then Some(Store(slots, count, counter)) else old(disk)
    {
      var before := slots[k].value;
      slots := slots[k := Some(before.(signCount := Wrap32(before.signCount + 1)))];
      if outcome == SigningFails { return Failure; }
      if outcome == EncodingFails {
        slots := slots[k := Some(before)];
        return Failure;
      }
      SaveCredentials(saved);
      return Answer(k, slots[k].value.signCount, |matches|);
    }

    /** GetAssertion with an empty allowList. */
    method GetAssertion(rp: seq<byte>, verified: bool, now: u64, outcome: Outcome, saved: bool) returns (r: Reply)
      modifies this
      ensures Now() == Next(old(Now()), Assert(rp, verified, now, outcome, saved))
      ensures Answers(r, old(Now()), Assert(rp, verified, now, outcome, saved))
      ensures r == NoCredentials <==> NoneAdmitted(old(slots), rp, verified)
    {
      hide Matching, Meets, SignWith, First, Restored, NoneAdmitted, MakeNext, NextManaged, AssertAgain, Started;
      hide TargetSlot, Placed, Prefix;
      EmptyIffNoneAdmitted(slots, rp, verified);
      DropAssertion();
      stamp := now;
      matches := Collect(slots, Discoverable(rp, verified));
      if matches == [] { return NoCredentials; }
      MatchingExact(slots, Discoverable(rp, verified), |slots|);
      MetIsUsed(slots, Discoverable(rp, verified));
      assert matches[0] in matches;
      index := 1;
      r := BuildAssertion(matches[0], outcome, saved);
    }

    /** GetNextAssertion */
    method GetNextAssertion(now: u64, outcome: Outcome, saved: bool) returns (r: Reply)
      requires Live(Now())
      modifies this
      ensures Now() == Next(old(Now()), AssertNext(now, outcome, saved))
      ensures Answers(r, old(Now()), AssertNext(now, outcome, saved))
      ensures r.NotAllowed? <==> (now - old(stamp)) % 0x1_0000_0000_0000_0000 > 30
    {
      hide Matching, Meets, SignWith, First, Restored, Elapsed, MakeNext, NextManaged, AssertNow, Started, Placed;
      ElapsedIs(now, stamp);
      if Elapsed(now, stamp) > ASSERTION_SECONDS {
        matches, index := [], 0;
        return NotAllowed;
      }
      if index >= |matches| { return NoCredentials; }
      var k := matches[index];
      index := index + 1;
      assert k in matches;
      r := BuildAssertion(k, outcome, saved);
    }

    /** GetAssertion answered by an unwrapped, non-resident credential. */
    method AssertWithWrapped(now: u64, outcome: Outcome, saved: bool) returns (r: Reply)
      modifies this
      ensures Now() == Next(old(Now()), AssertWrapped(now, outcome, saved))
      ensures r == if outcome == Built then Done else Failure
      ensures counter == if outcome == EncodingFails then old(counter) else (old(counter) + 1) % 0x1_0000_0000
      ensures slots == old(slots) && matches == [] && stamp == now
      ensures disk == if outcome == Built && saved then Some(Store(slots, count, counter)) else old(disk)
    {
      DropAssertion();
      stamp := now;
      var before := counter;
      counter := Wrap32(counter + 1);
      if outcome == SigningFails { return Failure; }
      if outcome == EncodingFails {
        counter := before;
        return Failure;
      }
      SaveCredentials(saved);
      return Done;
    }

    /** getCredsMetadata */
    method GetMetadata() returns (existing: nat, remaining: nat)
      modifies this
      ensures Now() == Next(old(Now()), Manage)
      ensures existing == count && (count <= 64 ==> existing + remaining == 64)
      ensures count > 64 ==> remaining == 0
    {
      hide First, Restored, Matching;
      DropAssertion();
      DropEnumeration();
      return count, if MAX_STORED > count then MAX_STORED - count else 0;
    }

    /** A new process: the context starts empty and loads what it can read of the file, the counter first. */
    method Start(load: Load)
      modifies this
      ensures Now() == Next(old(Now()), Restart(load))
      ensures disk == old(disk) && matches == [] && enumeration.slots == [] && enumeration.rps == []
      ensures counter == if disk.Some? && load != Unread then disk.value.counter else 0
      ensures disk.None? || load != Whole ==> |slots| == 64 && forall k | 0 <= k < 64 :: slots[k] == None
    {
      hide First, Restored, Matching;
      DropAssertion();
      slots, count, counter, enumeration := Placed([]), 0, 0, NO_ENUMERATION;
      if disk.None? || load == Unread { return; }
      counter := disk.value.counter;
      if load == HeaderOnly { return; }
      var st := Restored(disk.value);
      RestoredHeader(disk.value);
      slots, count := st.slots, st.count;
    }

    method Reset(saved: bool)
      modifies this
      ensures Now() == Next(old(Now()), Wipe(saved))
      ensures |slots| == 64 && (forall k | 0 <= k < 64 :: slots[k] == None) && count == 0 && counter == 0
      ensures disk == if saved then Some(Store(slots, count, counter)) else old(disk)
      ensures matches == [] && enumeration.slots == [] && enumeration.rps == []
    {
      DropAssertion();
      slots, count, counter, enumeration := Placed([]), 0, 0, NO_ENUMERATION;
      SaveCredentials(saved);
    }
  }

  /** No credential of the relying party is at level 1, or at level 2 with a verified user. */
  predicate NoneAdmitted(slots: seq<Slot>, rp: seq<byte>, verified: bool)
  {
    forall k | 0 <= k < |slots| && slots[k].Some? && slots[k].value.rpHash == rp ::
      slots[k].value.credProtect >= 3 || (slots[k].value.credProtect == 2 && !verified)
  }

  lemma EmptyIffNoneAdmitted(slots: seq<Slot>, rp: seq<byte>, verified: bool)
    ensures Matching(slots, Discoverable(rp, verified), |slots|) == [] <==> NoneAdmitted(slots, rp, verified)
  {
    hide Matching, Meets;
    var m := Matching(slots, Discoverable(rp, verified), |slots|);
    MatchingExact(slots, Discoverable(rp, verified), |slots|);
    AllAdmitted(slots, rp, verified);
    if m != [] {
      assert m[0] in m;
    }
  }

  lemma ElapsedIs(now: u64, stamp: u64)
    ensures Elapsed(now, stamp) == (now - stamp) % 0x1_0000_0000_0000_0000
  {
  }

  lemma MeetsFree(slots: seq<Slot>)
    ensures forall k | 0 <= k < |slots| :: Meets(slots[k], Free) <==> slots[k].None?
  {
    hide Prefix;
  }

  lemma UsedIfFound(slots: seq<Slot>, credId: seq<byte>)
    ensures forall k | 0 <= k < |slots| :: HasId(slots[k], credId) ==> slots[k].Some?
  {
  }

  /** The slot that takes a new credential: the first of the same user at the same relying party, and only
      without one the first that is free. */
  ghost predicate Chosen(slots: seq<Slot>, k: nat, c: Credential)
  {
    && k < |slots|
    && if SameUser(slots[k], c) then forall j | 0 <= j < k :: !SameUser(slots[j], c)
       else
         && slots[k].None? && (forall j | 0 <= j < |slots| :: !SameUser(slots[j], c))
         && forall j | 0 <= j < k :: slots[j].Some?
  }

  /** Slot k takes the credential with the counter; nothing else changes. */
  ghost predicate StoredAt(before: seq<Slot>, after: seq<Slot>, k: nat, c: Credential, counter: u32)
  {
    && Chosen(before, k, c)
    && after == before[k := Some(c.(
         signCount := counter, resident := true, credProtect := if c.credProtect == 0 then 1 else c.credProtect))]
  }

  /** The first credential with the id goes; nothing else changes. */
  ghost predicate RemovedAt(before: seq<Slot>, after: seq<Slot>, k: nat, credId: seq<byte>)
  {
    && k < |before| && HasId(before[k], credId) && (forall j | 0 <= j < k :: !HasId(before[j], credId))
    && after == before[k := None]
  }

  /** The first credential with the id gets the names that are not empty; nothing else changes. */
  ghost predicate RenamedAt(
    before: seq<Slot>, after: seq<Slot>, k: nat, credId: seq<byte>, userName: seq<byte>, displayName: seq<byte>)
  {
    && k < |before| && HasId(before[k], credId) && (forall j | 0 <= j < k :: !HasId(before[j], credId))
    && before[k].Some?
    && var c := before[k].value;
       after == before[k := Some(c.(
         userName := if userName == [] then c.userName else userName,
         displayName := if displayName == [] then c.displayName else displayName))]
  }

  /** The reply is the signature the state machine promises. */
  predicate Answers(r: Reply, s: State, e: Event)
  {
    (r.Answer? <==> Signed(s, e).Signature?) && (r.Answer? ==> Signed(s, e) == Signature(OfSlot(r.slot), r.counter))
  }
}
