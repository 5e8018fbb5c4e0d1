/** The fprintd-compatible devices: claiming, verifying and enrolling, with the completions of background
    tasks arriving later and in any order. Whether a caller may claim as a user, and whether a scan
    succeeds, are inputs. */
module Fprintd {
  import opened Bytes

  /** A D-Bus unique name: never empty, and short enough for the claimer's buffer. */
  type Sender = s: string | 0 < |s| < 256 witness ":"

  datatype Phase = Idle | Claimed | Verifying | Enrolling

  /** A background task with its own cancellable; its completion is delivered at most once. */
  datatype Task = Task(enroll: bool, cancelled: bool, delivered: bool)

  datatype Signal = Signal(task: nat, enroll: bool, success: bool)

  /** A device, the tasks started on it and the status signals emitted for them. `cancellable` names the
      task whose cancellable the device holds. */
  datatype Device = Device(
    phase: Phase, claimer: string, cancellable: Option<nat>, tasks: seq<Task>, signals: seq<Signal>)

  const INITIAL := Device(Idle, "", None, [], [])

  datatype Event =
    | Claim(sender: Sender, allowed: bool)
    | Release(sender: Sender)
    | Start(sender: Sender, enroll: bool)
    | Stop(sender: Sender, enroll: bool)
    | Vanish(sender: Sender)
    | Deliver(task: nat, success: bool)

  function Working(enroll: bool): Phase
  {
    if enroll then Enrolling else Verifying
  }

  predicate Busy(d: Device)
  {
    d.phase == Verifying || d.phase == Enrolling
  }

  // ----- transitions -------------------------------------------------------------------------------

  predicate Accepts(d: Device, e: Event)
  {
    match e
    case Claim(_, allowed) => allowed && d.phase == Idle
    case Release(sender) => d.phase != Idle && d.claimer == sender
    case Start(sender, _) => d.phase == Claimed && d.claimer == sender
    case Stop(sender, enroll) => d.claimer == sender && d.phase == Working(enroll)
    case Vanish(sender) => d.phase != Idle && d.claimer == sender
    case Deliver(t, _) => t < |d.tasks| && !d.tasks[t].delivered
  }

  /** Cancels the task whose cancellable the device holds. */
  function Cancelled(d: Device): Device
  {
    if d.cancellable.Some? && d.cancellable.value < |d.tasks| then
      d.(tasks := d.tasks[d.cancellable.value := d.tasks[d.cancellable.value].(cancelled := true)])
    else d
  }

  function Delivered(d: Device, t: nat, success: bool): Device
    requires t < |d.tasks|
  {
    d.(phase := if Busy(d) then Claimed else d.phase,
       cancellable := None,
       tasks := d.tasks[t := d.tasks[t].(delivered := true)],
       signals := if d.tasks[t].cancelled then d.signals else d.signals + [Signal(t, d.tasks[t].enroll, success)])
  }

  function Next(d: Device, e: Event): Device
  {
    if !Accepts(d, e) then d
    else
      match e
      case Claim(sender, _) => d.(phase := Claimed, claimer := sender)
      case Release(_) => Cancelled(d).(phase := Idle, claimer := "")
      case Vanish(_) => Cancelled(d).(phase := Idle, claimer := "")
      case Start(_, enroll) =>
        d.(phase := Working(enroll), tasks := d.tasks + [Task(enroll, false, false)], cancellable := Some(|d.tasks|))
      case Stop(_, _) => Cancelled(d).(phase := Claimed)
      case Deliver(t, success) => Delivered(d, t, success)
  }

  function After(d: Device, run: seq<Event>): Device
  {
    if run == [] then d else Next(After(d, run[..|run| - 1]), run[|run| - 1])
  }

  // ----- claims ------------------------------------------------------------------------------------

  predicate ClaimInv(d: Device)
  {
    d.phase == Idle <==> d.claimer == ""
  }

  /** Under every interleaving of calls and completions a device is idle exactly when nobody claims it. */
  lemma {:induction false} IdleIffUnclaimed(run: seq<Event>)
    ensures ClaimInv(After(INITIAL, run))
  {
    if run != [] {
      IdleIffUnclaimed(run[..|run| - 1]);
    }
  }

  /** Until the claimer releases the device or vanishes, it stays the claimer, whatever else happens. */
  lemma {:induction false} ClaimerStays(d: Device, s: Sender, run: seq<Event>)
    requires d.claimer == s && d.phase != Idle
    requires forall i | 0 <= i < |run| :: (run[i].Release? || run[i].Vanish?) ==> run[i].sender != s
    ensures After(d, run).claimer == s && After(d, run).phase != Idle
  {
    if run != [] {
      ClaimerStays(d, s, run[..|run| - 1]);
    }
  }

  // ----- one signal per task -----------------------------------------------------------------------

  function SignalsFor(signals: seq<Signal>, t: nat): nat
  {
    if signals == [] then 0
    else SignalsFor(signals[..|signals| - 1], t) + if signals[|signals| - 1].task == t then 1 else 0
  }

  /** The device holds at most the cancellable of its latest task, and only until a completion. */
  predicate Held(d: Device)
  {
    d.cancellable.Some? ==> d.cancellable.value == |d.tasks| - 1 && !d.tasks[|d.tasks| - 1].delivered
  }

  lemma {:induction false} ReachableHeld(run: seq<Event>)
    ensures Held(After(INITIAL, run))
  {
    if run != [] {
      ReachableHeld(run[..|run| - 1]);
    }
  }

  predicate Signalled(d: Device, t: nat)
  {
    SignalsFor(d.signals, t) == if t < |d.tasks| && d.tasks[t].delivered && !d.tasks[t].cancelled then 1 else 0
  }

  lemma StepSignals(d: Device, e: Event, t: nat)
    requires Held(d) && Signalled(d, t)
    ensures Signalled(Next(d, e), t)
  {
    if e.Deliver? && Accepts(d, e) {
      var s := Signal(e.task, d.tasks[e.task].enroll, e.success);
      assert (d.signals + [s])[..|d.signals|] == d.signals;
    }
  }

  /** Each started task gets exactly one status signal when its completion arrives uncancelled, and none
      otherwise: before its completion, or when it was cancelled. */
  lemma {:induction false} OneSignalPerTask(run: seq<Event>, t: nat)
    ensures Signalled(After(INITIAL, run), t)
  {
    hide Next, Signalled;
    if run == [] {
      assert Signalled(INITIAL, t) by { NoneYet(t); }
    } else {
      OneSignalPerTask(run[..|run| - 1], t);
      ReachableHeld(run[..|run| - 1]);
      StepSignals(After(INITIAL, run[..|run| - 1]), run[|run| - 1], t);
    }
  }

  lemma NoneYet(t: nat)
    ensures Signalled(INITIAL, t)
  {
  }

  // ----- silence after Stop and Release ------------------------------------------------------------

  predicate Running(d: Device, t: nat)
  {
    t < |d.tasks| && !d.tasks[t].delivered && !d.tasks[t].cancelled
  }

  /** No task is running but the one whose cancellable the device holds. */
  predicate OnlyHeldRuns(d: Device)
  {
    forall t: nat | t < |d.tasks| :: Running(d, t) ==> d.cancellable == Some(t)
  }

  predicate Ending(e: Event)
  {
    e.Release? || e.Vanish? || e.Stop?
  }

  lemma StaysSilent(d: Device, e: Event, t: nat)
    requires t < |d.tasks| && !Running(d, t)
    ensures t < |Next(d, e).tasks| && !Running(Next(d, e), t)
    ensures SignalsFor(Next(d, e).signals, t) == SignalsFor(d.signals, t)
  {
    if e.Deliver? && Accepts(d, e) {
      var s := Signal(e.task, d.tasks[e.task].enroll, e.success);
      assert (d.signals + [s])[..|d.signals|] == d.signals;
    }
  }

  lemma {:induction false} SilentForever(d: Device, run: seq<Event>, t: nat)
    requires t < |d.tasks| && !Running(d, t)
    ensures t < |After(d, run).tasks| && !Running(After(d, run), t)
    ensures SignalsFor(After(d, run).signals, t) == SignalsFor(d.signals, t)
  {
    hide Next, Running;
    if run != [] {
      SilentForever(d, run[..|run| - 1], t);
      StaysSilent(After(d, run[..|run| - 1]), run[|run| - 1], t);
    }
  }

  /** No continuation emits a signal for a task started so far. */
  ghost predicate Silent(d: Device)
  {
    forall run: seq<Event>, t: nat | t < |d.tasks| :: SignalsFor(After(d, run).signals, t) == SignalsFor(d.signals, t)
  }

  lemma RunningSpeaks(d: Device, t: nat)
    requires Running(d, t)
    ensures !Silent(d)
  {
    var e := Deliver(t, true);
    var s := Signal(t, d.tasks[t].enroll, true);
    assert (d.signals + [s])[..|d.signals|] == d.signals;
    assert [e][..0] == [];
    assert After(d, [e]) == Next(d, e);
    assert SignalsFor(After(d, [e]).signals, t) == SignalsFor(d.signals, t) + 1;
  }

  /** An accepted Stop, Release or disappearance silences the tasks started so far if and only if the only
      task then running is the one whose cancellable the device holds. */
  lemma SilentAfterEnding(d: Device, e: Event)
    requires Ending(e) && Accepts(d, e) && Held(d)
    ensures Silent(Next(d, e)) <==> OnlyHeldRuns(d)
  {
    hide SignalsFor, After;
    var d' := Next(d, e);
    if OnlyHeldRuns(d) {
      forall run: seq<Event>, t: nat | t < |d'.tasks|
        ensures SignalsFor(After(d', run).signals, t) == SignalsFor(d'.signals, t) {
        assert Running(d, t) ==> d.cancellable == Some(t);
        SilentForever(d', run, t);
      }
    } else {
      var t: nat :| t < |d.tasks| && Running(d, t) && d.cancellable != Some(t);
      RunningSpeaks(d', t);
    }
  }

  // ----- runs without overlapping tasks ------------------------------------------------------------

  predicate AllDelivered(d: Device)
  {
    forall t | 0 <= t < |d.tasks| :: d.tasks[t].delivered
  }

  /** No Start is accepted while the completion of an earlier task is still to come. */
  predicate NoOverlap(d: Device, run: seq<Event>)
  {
    forall i | 0 <= i < |run| ::
      var now := After(d, run[..i]);
      run[i].Start? && Accepts(now, run[i]) ==> AllDelivered(now)
  }

  /** Only the latest task can be outstanding. While it runs, the device is busy with it and can cancel it;
      otherwise the device is not busy. */
  predicate Tidy(d: Device)
  {
    && (forall t | 0 <= t < |d.tasks| - 1 :: d.tasks[t].delivered)
    && Held(d)
    && (Busy(d) <==> d.tasks != [] && Running(d, |d.tasks| - 1))
    && (Busy(d) ==> d.phase == Working(d.tasks[|d.tasks| - 1].enroll) && d.cancellable == Some(|d.tasks| - 1))
  }

  lemma StepTidy(d: Device, e: Event)
    requires Tidy(d) && (e.Start? && Accepts(d, e) ==> AllDelivered(d))
    ensures Tidy(Next(d, e))
  {
  }

  lemma {:induction false} ReachableTidy(run: seq<Event>)
    requires NoOverlap(INITIAL, run)
    ensures Tidy(After(INITIAL, run))
  {
    hide Next, Accepts, AllDelivered, Tidy;
    if run == [] {
      InitialTidy();
    } else {
      var before := run[..|run| - 1];
      assert NoOverlap(INITIAL, before) by {
        forall i | 0 <= i < |before|
          ensures var now := After(INITIAL, before[..i]);
                  before[i].Start? && Accepts(now, before[i]) ==> AllDelivered(now) {
          assert before[..i] == run[..i] && before[i] == run[i];
        }
      }
      ReachableTidy(before);
      assert run[..|run| - 1] == before;
      StepTidy(After(INITIAL, before), run[|run| - 1]);
    }
  }

  lemma InitialTidy()
    ensures Tidy(INITIAL)
  {
  }

  /** Without overlapping tasks every accepted Stop or Release silences all tasks started before it. */
  lemma EndingIsSilent(run: seq<Event>, e: Event)
    requires NoOverlap(INITIAL, run) && Ending(e) && Accepts(After(INITIAL, run), e)
    ensures Silent(After(INITIAL, run + [e]))
  {
    hide Silent, NoOverlap, Next;
    ReachableTidy(run);
    var d := After(INITIAL, run);
    assert OnlyHeldRuns(d);
    SilentAfterEnding(d, e);
    assert (run + [e])[..|run|] == run;
  }

  /** A task is cancelled only by an accepted Stop, Release or disappearance of the claimer. */
  lemma OnlyEndingCancels(d: Device, e: Event, t: nat)
    requires t < |d.tasks|
    ensures Next(d, e).tasks[t].cancelled != d.tasks[t].cancelled ==> Ending(e) && Accepts(d, e)
  {
  }

  /** With an overlap a task outlives its own cancellation: a verification that is stopped and started
      again is answered after the device was released. */
  lemma OverlapSpeaksAfterRelease(s: Sender)
    ensures var a, b, c := Claim(s, true), Start(s, false), Stop(s, false);
            var d := After(INITIAL, [a, b, c, b, Deliver(0, false), Release(s)]);
            d.phase == Idle && Next(d, Deliver(1, true)).signals == [Signal(1, false, true)]
  {
    hide Next, Accepts, After;
    AfterNone(INITIAL);
    var a, b, c := Claim(s, true), Start(s, false), Stop(s, false);
    AfterAppend(INITIAL, [], a);
    AfterAppend(INITIAL, [a], b);
    AfterAppend(INITIAL, [a, b], c);
    AfterAppend(INITIAL, [a, b, c], b);
    AfterAppend(INITIAL, [a, b, c, b], Deliver(0, false));
    AfterAppend(INITIAL, [a, b, c, b, Deliver(0, false)], Release(s));
    assert [] + [a] == [a] && [a] + [b] == [a, b] && [a, b] + [c] == [a, b, c] && [a, b, c] + [b] == [a, b, c, b];
    assert [a, b, c, b] + [Deliver(0, false)] == [a, b, c, b, Deliver(0, false)];
    assert [a, b, c, b, Deliver(0, false)] + [Release(s)] == [a, b, c, b, Deliver(0, false), Release(s)];
    OverlapSteps(s);
  }

  lemma AfterAppend(d: Device, run: seq<Event>, e: Event)
    ensures After(d, run + [e]) == Next(After(d, run), e)
  {
    hide Next;
    assert (run + [e])[..|run|] == run;
  }

  lemma AfterNone(d: Device)
    ensures After(d, []) == d
  {
  }

  lemma OverlapSteps(s: Sender)
    ensures var d := Next(Next(Next(INITIAL, Claim(s, true)), Start(s, false)), Stop(s, false));
            var d' := Next(Next(Next(d, Start(s, false)), Deliver(0, false)), Release(s));
            d'.phase == Idle && Next(d', Deliver(1, true)).signals == [Signal(1, false, true)]
  {
    var d := Next(Next(Next(INITIAL, Claim(s, true)), Start(s, false)), Stop(s, false));
    assert d == Device(Claimed, s, Some(0), [Task(false, true, false)], []);
    var d' := Next(Next(Next(d, Start(s, false)), Deliver(0, false)), Release(s));
    assert d' == Device(Idle, "", None, [Task(false, true, true), Task(false, false, false)], []);
  }

  // ----- the shim ----------------------------------------------------------------------------------

  /** Of the tasks exactly the one whose cancellable the device held is cancelled, and no signal is sent. */
  predicate HeldCancelled(was: Device, d: Device)
  {
    && d.signals == was.signals
    && |d.tasks| == |was.tasks|
    && forall t | 0 <= t < |was.tasks| ::
         d.tasks[t] == was.tasks[t].(cancelled := was.cancellable == Some(t) || was.tasks[t].cancelled)
  }

  class Shim {
    var devices: seq<Device>

    /** A call or a completion changes its own device as the state machine says, and no other. */
    method Handle(i: nat, e: Event) returns (accepted: bool)
      requires i < |devices| && !e.Vanish?
      modifies this
      ensures devices == old(devices)[i := Next(old(devices)[i], e)]
      ensures accepted == Accepts(old(devices)[i], e)
    {
      match e
      case Claim(sender, allowed) => accepted := ClaimDevice(i, sender, allowed);
      case Release(sender) => accepted := ReleaseBy(i, sender);
      case Start(sender, enroll) => accepted := StartTask(i, sender, enroll);
      case Stop(sender, enroll) => accepted := StopTask(i, sender, enroll);
      case Deliver(t, success) => accepted := TaskReady(i, t, success);
    }

    method ClaimDevice(i: nat, sender: Sender, allowed: bool) returns (accepted: bool)
      requires i < |devices|
      modifies this
      ensures devices == old(devices)[i := Next(old(devices)[i], Claim(sender, allowed))]
      ensures accepted == Accepts(old(devices)[i], Claim(sender, allowed))
      ensures accepted <==> allowed && old(devices)[i].phase == Idle
      ensures devices[i] == if accepted then old(devices)[i].(phase := Claimed, claimer := sender) else old(devices)[i]
    {
      if !allowed { return false; }
      if devices[i].phase != Idle { return false; }
      devices := devices[i := devices[i].(claimer := sender)];
      devices := devices[i := devices[i].(phase := Claimed)];
      return true;
    }

    method ReleaseDevice(i: nat)
      requires i < |devices|
      modifies this
      ensures devices == old(devices)[i := Cancelled(old(devices)[i]).(phase := Idle, claimer := "")]
      ensures devices[i].phase == Idle && devices[i].claimer == "" && HeldCancelled(old(devices)[i], devices[i])
    {
      devices := devices[i := Cancelled(devices[i])];
      devices := devices[i := devices[i].(phase := Idle)];
      devices := devices[i := devices[i].(claimer := "")];
    }

    method ReleaseBy(i: nat, sender: Sender) returns (accepted: bool)
      requires i < |devices|
      modifies this
      ensures devices == old(devices)[i := Next(old(devices)[i], Release(sender))]
      ensures accepted == Accepts(old(devices)[i], Release(sender))
      ensures accepted <==> old(devices)[i].phase != Idle && old(devices)[i].claimer == sender
      ensures if !accepted then devices == old(devices)
              else devices[i].phase == Idle && devices[i].claimer == "" && HeldCancelled(old(devices)[i], devices[i])
    {
      if devices[i].phase == Idle { return false; }
      if devices[i].claimer != sender { return false; }
      ReleaseDevice(i);
      return true;
    }

    method StartTask(i: nat, sender: Sender, enroll: bool) returns (accepted: bool)
      requires i < |devices|
      modifies this
      ensures devices == old(devices)[i := Next(old(devices)[i], Start(sender, enroll))]
      ensures accepted == Accepts(old(devices)[i], Start(sender, enroll))
      ensures accepted <==> old(devices)[i].phase == Claimed && old(devices)[i].claimer == sender
      ensures !accepted ==> devices == old(devices)
      ensures accepted ==> devices[i].phase == if enroll then Enrolling else Verifying
      ensures accepted ==> devices[i].claimer == sender && devices[i].signals == old(devices)[i].signals
      ensures accepted ==> devices[i].tasks == old(devices)[i].tasks + [Task(enroll, false, false)]
      ensures accepted ==> devices[i].cancellable == Some(|old(devices)[i].tasks|)
    {
      var d := devices[i];
      if d.phase != Claimed { return false; }
      if d.claimer != sender { return false; }
      d := d.(phase := if enroll then Enrolling else Verifying);
      d := d.(cancellable := Some(|d.tasks|));
      d := d.(tasks := d.tasks + [Task(enroll, false, false)]);
      devices := devices[i := d];
      return true;
    }

    method StopTask(i: nat, sender: Sender, enroll: bool) returns (accepted: bool)
      requires i < |devices|
      modifies this
      ensures devices == old(devices)[i := Next(old(devices)[i], Stop(sender, enroll))]
      ensures accepted == Accepts(old(devices)[i], Stop(sender, enroll))
      ensures accepted <==> old(devices)[i].claimer == sender &&
                            old(devices)[i].phase == if enroll then Enrolling else Verifying
      ensures if !accepted then devices == old(devices)
              else devices[i].phase == Claimed && devices[i].claimer == sender &&
                   HeldCancelled(old(devices)[i], devices[i])
    {
      if devices[i].claimer != sender { return false; }
      if devices[i].phase != Working(enroll) { return false; }
      devices := devices[i := Cancelled(devices[i])];
      devices := devices[i := devices[i].(phase := Claimed)];
      return true;
    }

    /** Runs when a task's completion arrives. */
    method TaskReady(i: nat, t: nat, success: bool) returns (accepted: bool)
      requires i < |devices|
      modifies this
      ensures devices == old(devices)[i := Next(old(devices)[i], Deliver(t, success))]
      ensures accepted == Accepts(old(devices)[i], Deliver(t, success))
      ensures accepted <==> t < |old(devices)[i].tasks| && !old(devices)[i].tasks[t].delivered
      ensures !accepted ==> devices == old(devices)
      ensures accepted ==>
                var was, d := old(devices)[i], devices[i];
                && d.tasks == was.tasks[t := was.tasks[t].(delivered := true)]
                && d.signals == was.signals + (if was.tasks[t].cancelled then []
                                               else [Signal(t, was.tasks[t].enroll, success)])
                && d.phase == (if was.phase == Idle then Idle else Claimed)
                && d.claimer == was.claimer && d.cancellable == None
    {
      var d := devices[i];
      if t >= |d.tasks| || d.tasks[t].delivered { return false; }
      var task := d.tasks[t];
      d := d.(tasks := d.tasks[t := task.(delivered := true)]);
      if !task.cancelled {
        d := d.(signals := d.signals + [Signal(t, task.enroll, success)]);
      }
      if d.phase == Verifying || d.phase == Enrolling {
        d := d.(phase := Claimed);
      }
      d := d.(cancellable := None);
      devices := devices[i := d];
      return true;
    }

    /** A client left the bus: every device it had claimed is released. */
    method ClaimerVanished(name: Sender)
      modifies this
      ensures |devices| == |old(devices)|
      ensures forall i | 0 <= i < |devices| :: devices[i] == Next(old(devices)[i], Vanish(name))
      ensures forall i | 0 <= i < |devices| ::
                if old(devices)[i].phase == Idle || old(devices)[i].claimer != name then devices[i] == old(devices)[i]
                else devices[i].phase == Idle && devices[i].claimer == "" && HeldCancelled(old(devices)[i], devices[i])
    {
      var n := |devices|;
      for i := 0 to n
        invariant |devices| == n == |old(devices)|
        invariant forall j | 0 <= j < i :: devices[j] == Next(old(devices)[j], Vanish(name))
        invariant forall j | i <= j < n :: devices[j] == old(devices)[j]
      {
        if devices[i].phase != Idle && devices[i].claimer == name {
          ReleaseDevice(i);
        }
      }
    }
  }
}
