/** The authenticator's fingerprint templates: beginning an enrollment, capturing its samples, cancelling
    it, and removing templates. The random template ids are inputs. */
module BioTemplates {
  import opened Bytes

  const MAX_TEMPLATES := 10
  const SAMPLES := 4

  datatype Template = Template(id: seq<byte>, name: seq<byte>, remaining: nat)

  type Slot = Option<Template>

  /** `active` is the slot being enrolled, or -1. */
  datatype State = State(slots: seq<Slot>, count: nat, active: int)

  const INITIAL := State([None, None, None, None, None, None, None, None, None, None], 0, -1)

  datatype Event =
    | Begin(drawn: Option<seq<byte>>, name: seq<byte>)
    | Capture(id: seq<byte>)
    | Cancel
    | Rename(id: seq<byte>, name: seq<byte>)
    | Remove(id: seq<byte>)
    | Reset

  datatype Status = Ok | StoreFull | Failed | NoOperationPending | InvalidOption

  // ----- the slots ---------------------------------------------------------------------------------

  function Used(slots: seq<Slot>, n: nat): nat
    requires n <= |slots|
  {
    if n == 0 then 0 else Used(slots, n - 1) + if slots[n - 1].Some? then 1 else 0
  }

  lemma {:induction false} UsedUpdate(slots: seq<Slot>, k: nat, x: Slot, n: nat)
    requires k < |slots| && n <= |slots|
    ensures var same := k >= n || x.Some? == slots[k].Some?;
            Used(slots[k := x], n) == Used(slots, n) + if same then 0 else if x.Some? then 1 else -1
  {
    if n > 0 {
      UsedUpdate(slots, k, x, n - 1);
    }
  }

  lemma {:induction false} UsedPositive(slots: seq<Slot>, k: nat, n: nat)
    requires k < n <= |slots| && slots[k].Some?
    ensures Used(slots, n) > 0
  {
    if k < n - 1 {
      UsedPositive(slots, k, n - 1);
    }
  }

  /** A search for a free slot, or for the template with an id. */
  datatype Query = Free | WithId(id: seq<byte>)

  predicate Meets(slot: Slot, q: Query)
  {
    match q
    case Free => slot.None?
    case WithId(id) => slot.Some? && slot.value.id == id
  }

  function First(slots: seq<Slot>, q: Query, i: nat): (k: nat)
    requires i <= |slots|
    ensures i <= k <= |slots|
    ensures k < |slots| ==> Meets(slots[k], q)
    ensures forall j | i <= j < k :: !Meets(slots[j], q)
    decreases |slots| - i
  {
    if i == |slots| || Meets(slots[i], q) then i else First(slots, q, i + 1)
  }

  method FindFirst(slots: seq<Slot>, q: Query) returns (k: nat)
    ensures k == First(slots, q, 0)
  {
    hide Meets;
    k := 0;
    while k < |slots| && !Meets(slots[k], q)
      invariant k <= |slots| && First(slots, q, k) == First(slots, q, 0)
    {
      k := k + 1;
    }
  }

  // ----- transitions -------------------------------------------------------------------------------

  predicate Incomplete(slot: Slot)
  {
    slot.Some? && slot.value.remaining > 0
  }

  function Less(count: nat): nat
  {
    if count > 0 then count - 1 else 0
  }

  /** An enrollment that is under way is dropped. */
  function Abandoned(s: State): State
  {
    if 0 <= s.active < |s.slots| && Incomplete(s.slots[s.active]) then
      State(s.slots[s.active := None], Less(s.count), -1)
    else s
  }

  function Begun(s: State, id: seq<byte>, name: seq<byte>): State
  {
    var k := First(s.slots, Free, 0);
    if k == |s.slots| then s
    else State(s.slots[k := Some(Template(id, name, SAMPLES))], s.count + 1, k)
  }

  function Captured(s: State, id: seq<byte>): State
  {
    if 0 <= s.active < |s.slots| && Meets(s.slots[s.active], WithId(id)) then
      var t := s.slots[s.active].value;
      var left := if t.remaining > 0 then t.remaining - 1 else 0;
      State(s.slots[s.active := Some(t.(remaining := left))], s.count, if left == 0 then -1 else s.active)
    else s
  }

  function Removed(s: State, id: seq<byte>): State
  {
    var k := First(s.slots, WithId(id), 0);
    if k == |s.slots| then s
    else State(s.slots[k := None], Less(s.count), if s.active == k then -1 else s.active)
  }

  function Renamed(s: State, id: seq<byte>, name: seq<byte>): State
  {
    var k := First(s.slots, WithId(id), 0);
    if k == |s.slots| then s else s.(slots := s.slots[k := Some(s.slots[k].value.(name := name))])
  }

  function Next(s: State, e: Event): State
  {
    match e
    case Begin(id, name) => if id.None? then Abandoned(s) else Begun(Abandoned(s), id.value, name)
    case Capture(id) => Captured(s, id)
    case Cancel => Abandoned(s)
    case Rename(id, name) => Renamed(s, id, name)
    case Remove(id) => Removed(s, id)
    case Reset => INITIAL
  }

  function After(s: State, run: seq<Event>): State
  {
    if run == [] then s else Next(After(s, run[..|run| - 1]), run[|run| - 1])
  }

  // ----- the invariant -----------------------------------------------------------------------------

  /** The active slot holds an incomplete template, and no other slot does. */
  predicate OneIncomplete(s: State)
  {
    && |s.slots| == MAX_TEMPLATES
    && -1 <= s.active < MAX_TEMPLATES
    && (s.active >= 0 ==> Incomplete(s.slots[s.active]))
    && (forall k | 0 <= k < MAX_TEMPLATES :: Incomplete(s.slots[k]) ==> k == s.active)
    && (forall k | 0 <= k < MAX_TEMPLATES :: s.slots[k].Some? ==> s.slots[k].value.remaining <= SAMPLES)
  }

  predicate Counted(s: State)
  {
    |s.slots| == MAX_TEMPLATES && s.count == Used(s.slots, MAX_TEMPLATES)
  }

  lemma StepOneIncomplete(s: State, e: Event)
    requires OneIncomplete(s)
    ensures OneIncomplete(Next(s, e))
  {
    hide First;
  }

  lemma AbandonedCounted(s: State)
    requires Counted(s)
    ensures Counted(Abandoned(s))
  {
    hide Used;
    if 0 <= s.active < |s.slots| && Incomplete(s.slots[s.active]) {
      UsedUpdate(s.slots, s.active, None, MAX_TEMPLATES);
      UsedPositive(s.slots, s.active, MAX_TEMPLATES);
    }
  }

  lemma BegunCounted(s: State, id: seq<byte>, name: seq<byte>)
    requires Counted(s)
    ensures Counted(Begun(s, id, name))
  {
    hide Used, First;
    var k := First(s.slots, Free, 0);
    if k < |s.slots| {
      UsedUpdate(s.slots, k, Some(Template(id, name, SAMPLES)), MAX_TEMPLATES);
    }
  }

  lemma CapturedCounted(s: State, id: seq<byte>)
    requires Counted(s)
    ensures Counted(Captured(s, id))
  {
    hide Used;
    if 0 <= s.active < |s.slots| {
      var next := Captured(s, id).slots[s.active];
      UsedUpdate(s.slots, s.active, next, MAX_TEMPLATES);
    }
  }

  lemma NamedCounted(s: State, id: seq<byte>, name: seq<byte>)
    requires Counted(s)
    ensures Counted(Removed(s, id)) && Counted(Renamed(s, id, name))
  {
    hide Used, First;
    var k := First(s.slots, WithId(id), 0);
    if k < |s.slots| {
      UsedUpdate(s.slots, k, None, MAX_TEMPLATES);
      UsedPositive(s.slots, k, MAX_TEMPLATES);
      UsedUpdate(s.slots, k, Some(s.slots[k].value.(name := name)), MAX_TEMPLATES);
    }
  }

  lemma StepCounted(s: State, e: Event)
    requires Counted(s)
    ensures Counted(Next(s, e))
  {
    hide Abandoned, Begun, Captured, Removed, Renamed;
    AbandonedCounted(s);
    match e
    case Begin(id, name) => if id.Some? { BegunCounted(Abandoned(s), id.value, name); }
    case Capture(id) => CapturedCounted(s, id);
    case Rename(id, name) => NamedCounted(s, id, name);
    case Remove(id) => NamedCounted(s, id, []);
    case _ =>
  }

  /** In every reachable state at most one template is incomplete, it is the active one, and the count is
      the number of slots in use. */
  lemma {:induction false} ReachableTemplates(run: seq<Event>)
    ensures OneIncomplete(After(INITIAL, run)) && Counted(After(INITIAL, run))
  {
    hide Next;
    if run != [] {
      ReachableTemplates(run[..|run| - 1]);
      StepOneIncomplete(After(INITIAL, run[..|run| - 1]), run[|run| - 1]);
      StepCounted(After(INITIAL, run[..|run| - 1]), run[|run| - 1]);
    }
  }

  // ----- a template takes exactly its samples ------------------------------------------------------

  /** How often a run captures a sample for this id. */
  function Captures(run: seq<Event>, id: seq<byte>): nat
  {
    if run == [] then 0 else Captures(run[..|run| - 1], id) + if run[|run| - 1] == Capture(id) then 1 else 0
  }

  /** An event that neither starts, cancels nor removes an enrollment. */
  predicate Steady(e: Event)
  {
    e.Capture? || e.Rename?
  }

  predicate Enrolling(s: State, k: nat, id: seq<byte>, taken: nat)
  {
    && k < |s.slots| && s.slots[k].Some? && s.slots[k].value.id == id
    && s.slots[k].value.remaining == (if taken < SAMPLES then SAMPLES - taken else 0)
    && s.active == (if taken < SAMPLES then k else -1)
  }

  lemma StepEnrolling(s: State, k: nat, id: seq<byte>, taken: nat, e: Event)
    requires Enrolling(s, k, id, taken) && Steady(e)
    ensures Enrolling(Next(s, e), k, id, taken + if e == Capture(id) then 1 else 0)
  {
    hide First;
  }

  /** After an enrollment begins, captures with its id, whatever other ids are tried between them, use up
      its samples one by one; it is complete exactly after the fourth. */
  lemma {:induction false} FourSamplesComplete(s: State, id: seq<byte>, name: seq<byte>, run: seq<Event>)
    requires OneIncomplete(s) && Next(s, Begin(Some(id), name)).active >= 0
    requires forall i | 0 <= i < |run| :: Steady(run[i])
    ensures var s0 := Next(s, Begin(Some(id), name));
            Enrolling(After(s0, run), s0.active, id, Captures(run, id))
    ensures var s0 := Next(s, Begin(Some(id), name));
            !Incomplete(After(s0, run).slots[s0.active]) <==> Captures(run, id) >= SAMPLES
  {
    hide First, Next, OneIncomplete;
    if run == [] {
      BeginEnrolling(s, id, name);
    } else {
      var before := run[..|run| - 1];
      FourSamplesComplete(s, id, name, before);
      var s0 := Next(s, Begin(Some(id), name));
      StepEnrolling(After(s0, before), s0.active, id, Captures(before, id), run[|run| - 1]);
    }
  }

  lemma BeginEnrolling(s: State, id: seq<byte>, name: seq<byte>)
    requires OneIncomplete(s) && Next(s, Begin(Some(id), name)).active >= 0
    ensures var s0 := Next(s, Begin(Some(id), name)); Enrolling(s0, s0.active, id, 0)
  {
    hide First;
  }

  // ----- the subcommands ---------------------------------------------------------------------------

  predicate FirstWithId(slots: seq<Slot>, id: seq<byte>, k: nat)
  {
    && k < |slots| && slots[k].Some? && slots[k].value.id == id
    && forall j | 0 <= j < k :: slots[j].None? || slots[j].value.id != id
  }

  class Registry {
    var slots: seq<Slot>
    var count: nat
    var active: int

    function Now(): State
      reads this
    {
      State(slots, count, active)
    }

    constructor ()
      ensures Now() == INITIAL && |slots| == 10 && (forall k | 0 <= k < 10 :: slots[k] == None) && active == -1
    {
      slots, count, active := INITIAL.slots, 0, -1;
    }

    method CancelEnrollment()
      modifies this
      ensures Now() == Next(old(Now()), Cancel)
      ensures var cancels := 0 <= old(active) < |old(slots)| && old(slots)[old(active)].Some? &&
                             old(slots)[old(active)].value.remaining > 0;
              if cancels then slots == old(slots)[old(active) := None] && active == -1
              else slots == old(slots) && active == old(active) && count == old(count)
    {
      if 0 <= active < |slots| && slots[active].Some? && slots[active].value.remaining > 0 {
        slots := slots[active := None];
        if count > 0 {
          count := count - 1;
        }
        active := -1;
      }
    }

    /** enrollBegin; `id` is missing when the random generator fails. */
    method BeginEnrollment(id: Option<seq<byte>>, name: seq<byte>) returns (status: Status)
      modifies this
      ensures Now() == Next(old(Now()), Begin(id, name))
      ensures status == Ok ==> id.Some? && 0 <= active < |slots|
      ensures status == Ok ==> slots[active] == Some(Template(id.value, name, 4))
      ensures var left := Abandoned(old(Now())).slots;
              status == StoreFull <==> forall k | 0 <= k < |left| :: left[k].Some?
    {
      CancelEnrollment();
      var k := FindFirst(slots, Free);
      if k == |slots| { return StoreFull; }
      assert slots[k].None?;
      if id.None? { return Failed; }
      slots := slots[k := Some(Template(id.value, name, SAMPLES))];
      active := k;
      count := count + 1;
      return Ok;
    }

    method CaptureNext(id: seq<byte>) returns (status: Status, left: nat)
      modifies this
      ensures Now() == Next(old(Now()), Capture(id))
      ensures status == NoOperationPending <==> !(0 <= old(active) < |old(slots)| && old(slots)[old(active)].Some?)
      ensures status == Ok ==> left == slots[old(active)].value.remaining
      ensures status == Ok ==>
                var was := old(slots)[old(active)].value;
                && was.id == id
                && left == (if was.remaining > 0 then was.remaining - 1 else 0)
                && slots == old(slots)[old(active) := Some(was.(remaining := left))]
                && active == (if left == 0 then -1 else old(active))
      ensures status != Ok ==> slots == old(slots) && active == old(active)
    {
      left := 0;
      if active < 0 || active >= |slots| || slots[active].None? { return NoOperationPending, 0; }
      var t := slots[active].value;
      if t.id != id { return InvalidOption, 0; }
      if t.remaining > 0 {
        t := t.(remaining := t.remaining - 1);
      }
      slots := slots[active := Some(t)];
      if t.remaining == 0 {
        active := -1;
      }
      return Ok, t.remaining;
    }

    /** The slots of the completed templates, in slot order. */
    method Enumerate() returns (listed: seq<nat>)
      ensures forall k :: k in listed <==> 0 <= k < |slots| && slots[k].Some? && !Incomplete(slots[k])
      ensures forall k :: k in listed <==> 0 <= k < |slots| && slots[k].Some? && slots[k].value.remaining == 0
      ensures forall a, b | 0 <= a < b < |listed| :: listed[a] < listed[b]
    {
      listed := [];
      for i := 0 to |slots|
        invariant forall k :: k in listed <==> 0 <= k < i && slots[k].Some? && !Incomplete(slots[k])
        invariant forall a | 0 <= a < |listed| :: listed[a] < i
        invariant forall a, b | 0 <= a < b < |listed| :: listed[a] < listed[b]
      {
        if slots[i].Some? && slots[i].value.remaining == 0 {
          listed := listed + [i];
        }
      }
    }

    method SetFriendlyName(id: seq<byte>, name: seq<byte>) returns (status: Status)
      modifies this
      ensures Now() == Next(old(Now()), Rename(id, name))
      ensures forall k: nat | FirstWithId(old(slots), id, k) ::
                status == Ok && slots == old(slots)[k := Some(old(slots)[k].value.(name := name))]
      ensures status != Ok ==> slots == old(slots) && forall k | 0 <= k < |slots| && slots[k].Some? ::
                slots[k].value.id != id
      ensures status == Ok <==> exists k | 0 <= k < |old(slots)| :: Meets(old(slots)[k], WithId(id))
    {
      var k := FindFirst(slots, WithId(id));
      if k == |slots| { return InvalidOption; }
      assert Meets(old(slots)[k], WithId(id));
      slots := slots[k := Some(slots[k].value.(name := name))];
      return Ok;
    }

    method RemoveEnrollment(id: seq<byte>) returns (status: Status)
      modifies this
      ensures Now() == Next(old(Now()), Remove(id))
      ensures forall k: nat | FirstWithId(old(slots), id, k) ::
                status == Ok && slots == old(slots)[k := None] && active == if old(active) == k then -1 else old(active)
      ensures status != Ok ==> slots == old(slots) && forall k | 0 <= k < |slots| && slots[k].Some? ::
                slots[k].value.id != id
      ensures status == Ok <==> exists k | 0 <= k < |old(slots)| :: Meets(old(slots)[k], WithId(id))
    {
      var k := FindFirst(slots, WithId(id));
      if k == |slots| { return InvalidOption; }
      assert Meets(old(slots)[k], WithId(id));
      if active == k {
        active := -1;
      }
      slots := slots[k := None];
      if count > 0 {
        count := count - 1;
      }
      return Ok;
    }
  }
}
