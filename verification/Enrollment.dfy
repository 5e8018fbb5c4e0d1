/** The enrollment list, changed by two kinds of concurrent enrollment: the D-Bus Enroll call and the
    worker behind the fprintd devices. Each checks the user's limit under the lock, scans without it, then
    takes the lock again to check once more and store. Scans, sealing and allocation are inputs. */
module Enrollment {
  import opened Bytes

  datatype Template = Template(uid: nat, finger: int, data: seq<byte>)

  datatype Stage = Ready | Scanning | Scanned | Done(stored: bool)

  /** An enrollment under way, from the bus or from the worker. */
  datatype Task = Task(bus: bool, template: Template, stage: Stage)

  datatype State = State(list: seq<Template>, tasks: seq<Task>)

  datatype Event =
    | Begin(bus: bool, template: Template)
    | Check(task: nat)
    | Scan(task: nat, good: bool)
    | Store(task: nat, able: bool)
    | RemoveFinger(uid: nat, finger: int)
    | RemoveUser(uid: nat)

  // ----- the list ----------------------------------------------------------------------------------

  /** One user's enrollments, in list order. */
  function Of(list: seq<Template>, uid: nat): seq<Template>
  {
    if list == [] then []
    else Of(list[..|list| - 1], uid) + if list[|list| - 1].uid == uid then [list[|list| - 1]] else []
  }

  /** The first entry from i on for a finger of a user, or the length of the list. */
  function Find(list: seq<Template>, uid: nat, finger: int, i: nat): (k: nat)
    requires i <= |list|
    ensures i <= k <= |list|
    ensures k < |list| ==> list[k].uid == uid && list[k].finger == finger
    ensures forall j | i <= j < k :: !(list[j].uid == uid && list[j].finger == finger)
    decreases |list| - i
  {
    if i == |list| || (list[i].uid == uid && list[i].finger == finger) then i else Find(list, uid, finger, i + 1)
  }

  /** Adding from the bus replaces the enrollment of the same finger, if there is one. */
  function Added(list: seq<Template>, p: Template): seq<Template>
  {
    var k := Find(list, p.uid, p.finger, 0);
    if k < |list| then list[k := p] else list + [p]
  }

  function Without(list: seq<Template>, k: nat): seq<Template>
    requires k < |list|
  {
    list[..k] + list[k + 1..]
  }

  function WithoutUser(list: seq<Template>, uid: nat): seq<Template>
  {
    if list == [] then []
    else WithoutUser(list[..|list| - 1], uid) + if list[|list| - 1].uid == uid then [] else [list[|list| - 1]]
  }

  lemma {:induction false} OfConcat(a: seq<Template>, b: seq<Template>, uid: nat)
    ensures Of(a + b, uid) == Of(a, uid) + Of(b, uid)
  {
    if b == [] {
      assert a + b == a;
    } else {
      OfConcat(a, b[..|b| - 1], uid);
      assert (a + b)[..|a + b| - 1] == a + b[..|b| - 1];
    }
  }

  lemma OfOne(p: Template, uid: nat)
    ensures Of([p], uid) == if p.uid == uid then [p] else []
  {
  }

  /** The list around position k, as one user sees it. */
  lemma OfAround(list: seq<Template>, k: nat, p: Template, uid: nat)
    requires k < |list|
    ensures Of(list, uid) == Of(list[..k], uid) + Of([list[k]], uid) + Of(list[k + 1..], uid)
    ensures Of(list[k := p], uid) == Of(list[..k], uid) + Of([p], uid) + Of(list[k + 1..], uid)
    ensures Of(Without(list, k), uid) == Of(list[..k], uid) + Of(list[k + 1..], uid)
  {
    hide Of;
    OfConcat(list[..k] + [list[k]], list[k + 1..], uid);
    OfConcat(list[..k], [list[k]], uid);
    OfConcat(list[..k] + [p], list[k + 1..], uid);
    OfConcat(list[..k], [p], uid);
    OfConcat(list[..k], list[k + 1..], uid);
    assert list == list[..k] + [list[k]] + list[k + 1..];
    assert list[k := p] == list[..k] + [p] + list[k + 1..];
  }

  lemma {:induction false} OfWithoutUser(list: seq<Template>, gone: nat, uid: nat)
    ensures Of(WithoutUser(list, gone), uid) == if uid == gone then [] else Of(list, uid)
  {
    hide Of;
    if list == [] {
      OfNone(uid);
    } else {
      var init, last := list[..|list| - 1], list[|list| - 1];
      OfWithoutUser(init, gone, uid);
      OfConcat(WithoutUser(init, gone), [last], uid);
      OfConcat(init, [last], uid);
      OfOne(last, uid);
      assert list == init + [last];
      assert WithoutUser(list, gone) == WithoutUser(init, gone) + if last.uid == gone then [] else [last];
      if last.uid == gone {
        assert WithoutUser(list, gone) == WithoutUser(init, gone);
      }
    }
  }

  /** Removing a user takes exactly that user's entries out, one by one and in place. */
  lemma {:induction false} WithoutUserAppended(list: seq<Template>, p: Template, gone: nat)
    ensures WithoutUser(list + [p], gone) == WithoutUser(list, gone) + if p.uid == gone then [] else [p]
    ensures WithoutUser([], gone) == []
  {
    assert (list + [p])[..|list|] == list;
  }

  lemma OfNone(uid: nat)
    ensures Of([], uid) == []
  {
  }

  // ----- transitions -------------------------------------------------------------------------------

  function ToStage(s: State, t: nat, stage: Stage): State
    requires t < |s.tasks|
  {
    s.(tasks := s.tasks[t := s.tasks[t].(stage := stage)])
  }

  /** The step under the second lock: check again, then store. `able` says that no allocation or seal
      needed here fails; replacing an entry on the bus needs none. */
  function Stored(s: State, t: nat, able: bool, limit: int): State
    requires t < |s.tasks|
  {
    var task := s.tasks[t];
    var again := task.bus && Find(s.list, task.template.uid, task.template.finger, 0) < |s.list|;
    if |Of(s.list, task.template.uid)| >= limit || !(able || again) then ToStage(s, t, Done(false))
    else ToStage(s, t, Done(true)).(list := if task.bus then Added(s.list, task.template) else s.list + [task.template])
  }

  function Next(s: State, e: Event, limit: int): State
  {
    match e
    case Begin(bus, template) => s.(tasks := s.tasks + [Task(bus, template, Ready)])
    case Check(t) =>
      if t < |s.tasks| && s.tasks[t].stage == Ready then
        ToStage(s, t, if |Of(s.list, s.tasks[t].template.uid)| >= limit then Done(false) else Scanning)
      else s
    case Scan(t, good) =>
      if t < |s.tasks| && s.tasks[t].stage == Scanning then ToStage(s, t, if good then Scanned else Done(false)) else s
    case Store(t, able) =>
      if t < |s.tasks| && s.tasks[t].stage == Scanned then Stored(s, t, able, limit) else s
    case RemoveFinger(uid, finger) =>
      var k := Find(s.list, uid, finger, 0);
      if k < |s.list| then s.(list := Without(s.list, k)) else s
    case RemoveUser(uid) => s.(list := WithoutUser(s.list, uid))
  }

  function After(s: State, run: seq<Event>, limit: int): State
  {
    if run == [] then s else Next(After(s, run[..|run| - 1], limit), run[|run| - 1], limit)
  }

  // ----- one step ----------------------------------------------------------------------------------

  /** The user whose list a step may touch. */
  function Touches(s: State, e: Event): Option<nat>
  {
    match e
    case Store(t, _) => if t < |s.tasks| then Some(s.tasks[t].template.uid) else None
    case RemoveFinger(uid, _) => Some(uid)
    case RemoveUser(uid) => Some(uid)
    case _ => None
  }

  lemma AddedOf(list: seq<Template>, p: Template, uid: nat)
    ensures uid != p.uid ==> Of(Added(list, p), uid) == Of(list, uid)
    ensures |Of(list, p.uid)| <= |Of(Added(list, p), p.uid)| <= |Of(list, p.uid)| + 1
    ensures |Of(Added(list, p), p.uid)| == |Of(list, p.uid)| <==> Find(list, p.uid, p.finger, 0) < |list|
  {
    hide Of;
    var k := Find(list, p.uid, p.finger, 0);
    OfOne(p, uid);
    OfOne(p, p.uid);
    if k < |list| {
      OfOne(list[k], uid);
      OfOne(list[k], p.uid);
      OfAround(list, k, p, uid);
      OfAround(list, k, p, p.uid);
    } else {
      OfConcat(list, [p], uid);
      OfConcat(list, [p], p.uid);
    }
  }

  lemma AppendedOf(list: seq<Template>, p: Template, uid: nat)
    ensures Of(list + [p], uid) == if uid == p.uid then Of(list, uid) + [p] else Of(list, uid)
  {
    hide Of;
    OfOne(p, uid);
    OfConcat(list, [p], uid);
  }

  lemma RemovedOf(list: seq<Template>, k: nat, uid: nat)
    requires k < |list|
    ensures list[k].uid != uid ==> Of(Without(list, k), uid) == Of(list, uid)
    ensures list[k].uid == uid ==> |Of(Without(list, k), uid)| == |Of(list, uid)| - 1
  {
    hide Of;
    OfOne(list[k], uid);
    OfAround(list, k, list[k], uid);
  }

  /** No step changes the enrollments of a user it is not for, in contents or in order. */
  lemma OthersUnchanged(s: State, e: Event, limit: int, uid: nat)
    requires Touches(s, e) != Some(uid)
    ensures Of(Next(s, e, limit).list, uid) == Of(s.list, uid)
  {
    hide Of, Find, Added, Without, WithoutUser;
    match e
    case Store(t, able) =>
      if t < |s.tasks| {
        AddedOf(s.list, s.tasks[t].template, uid);
        AppendedOf(s.list, s.tasks[t].template, uid);
      }
    case RemoveFinger(u, finger) =>
      var k := Find(s.list, u, finger, 0);
      if k < |s.list| { RemovedOf(s.list, k, uid); }
    case RemoveUser(u) => OfWithoutUser(s.list, u, uid);
    case _ =>
  }

  /** A step leaves a user within the limit, or no worse than before. */
  lemma StepWithinLimit(s: State, e: Event, limit: int, uid: nat)
    ensures |Of(Next(s, e, limit).list, uid)| <= limit || |Of(Next(s, e, limit).list, uid)| <= |Of(s.list, uid)|
  {
    hide Of, Find, Added, Without, WithoutUser;
    match e
    case Store(t, able) =>
      if t < |s.tasks| {
        AddedOf(s.list, s.tasks[t].template, uid);
        AppendedOf(s.list, s.tasks[t].template, uid);
      }
    case RemoveFinger(u, finger) =>
      var k := Find(s.list, u, finger, 0);
      if k < |s.list| { RemovedOf(s.list, k, uid); }
    case RemoveUser(u) => OfWithoutUser(s.list, u, uid);
    case _ =>
  }

  // ----- every interleaving ------------------------------------------------------------------------

  /** In every interleaving of bus and worker enrollments and removals, no user exceeds the limit, or the
      number of enrollments it started with where that was larger. */
  lemma {:induction false} NeverOverLimit(s: State, run: seq<Event>, limit: int, uid: nat)
    ensures |Of(After(s, run, limit).list, uid)| <= limit || |Of(After(s, run, limit).list, uid)| <= |Of(s.list, uid)|
  {
    hide Of, Next;
    if run != [] {
      NeverOverLimit(s, run[..|run| - 1], limit, uid);
      StepWithinLimit(After(s, run[..|run| - 1], limit), run[|run| - 1], limit, uid);
    }
  }

  /** A run that is not for a user leaves that user's enrollments as they were. */
  lemma {:induction false} OthersUnchangedOverRuns(s: State, run: seq<Event>, limit: int, uid: nat)
    requires forall i | 0 <= i < |run| :: Touches(After(s, run[..i], limit), run[i]) != Some(uid)
    ensures Of(After(s, run, limit).list, uid) == Of(s.list, uid)
  {
    hide Of, Next, Touches;
    if run != [] {
      var before := run[..|run| - 1];
      forall i | 0 <= i < |before| ensures Touches(After(s, before[..i], limit), before[i]) != Some(uid) {
        assert before[..i] == run[..i];
      }
      OthersUnchangedOverRuns(s, before, limit, uid);
      assert run[..|run| - 1] == before;
      OthersUnchanged(After(s, before, limit), run[|run| - 1], limit, uid);
    }
  }

  // ----- one enrollment per finger -----------------------------------------------------------------

  predicate Distinct(list: seq<Template>)
  {
    forall a, b | 0 <= a < b < |list| :: list[a].uid != list[b].uid || list[a].finger != list[b].finger
  }

  lemma BusKeepsDistinct(list: seq<Template>, p: Template)
    requires Distinct(list)
    ensures Distinct(Added(list, p))
  {
  }

  lemma WorkerKeepsDistinct(list: seq<Template>, p: Template)
    requires Distinct(list)
    ensures Distinct(list + [p]) <==> Find(list, p.uid, p.finger, 0) == |list|
  {
    var k := Find(list, p.uid, p.finger, 0);
    if k < |list| {
      assert (list + [p])[k] == list[k] && (list + [p])[|list|] == p;
    }
  }

  /** Storing keeps one enrollment per finger unless, and only unless, it is the worker that succeeds with
      a finger the user has already enrolled: the worker does not replace. */
  lemma StoreKeepsDistinct(s: State, t: nat, able: bool, limit: int)
    requires Distinct(s.list) && t < |s.tasks|
    ensures var p := s.tasks[t].template;
            Distinct(Stored(s, t, able, limit).list) <==>
              !(!s.tasks[t].bus && able && |Of(s.list, p.uid)| < limit && Find(s.list, p.uid, p.finger, 0) < |s.list|)
  {
    hide Of, Find, Added, Distinct;
    BusKeepsDistinct(s.list, s.tasks[t].template);
    WorkerKeepsDistinct(s.list, s.tasks[t].template);
  }

  /** A run of the worker for one finger. */
  function WorkerRun(t: nat, p: Template): seq<Event>
  {
    [Begin(false, p), Check(t), Scan(t, true), Store(t, true)]
  }

  lemma WorkerAppends(s: State, p: Template, limit: int)
    requires |Of(s.list, p.uid)| < limit
    ensures var t := |s.tasks|;
            var scanned := Next(Next(Next(s, Begin(false, p), limit), Check(t), limit), Scan(t, true), limit);
            var s' := Next(scanned, Store(t, true), limit);
            s'.list == s.list + [p] && |s'.tasks| == t + 1
  {
    hide Of, Find, Added;
  }

  /** Enrolling one finger twice through the worker leaves two entries for it, where the limit allows two. */
  lemma WorkerDuplicates(p: Template, limit: int)
    requires limit >= 2
    ensures var run := WorkerRun(0, p) + WorkerRun(1, p);
            After(State([], []), run, limit).list == [p, p] && !Distinct(After(State([], []), run, limit).list)
  {
    hide Of, Find, Added, After, Next;
    var s0 := State([], []);
    assert After(s0, [], limit) == s0 by { AfterNothing(s0, limit); }
    OfNone(p.uid);
    OfOne(p, p.uid);
    AfterFour(s0, [], WorkerRun(0, p), limit);
    assert [] + WorkerRun(0, p) == WorkerRun(0, p);
    var s1 := After(s0, WorkerRun(0, p), limit);
    WorkerAppends(s0, p, limit);
    assert s1.list == [p] && |s1.tasks| == 1;
    AfterFour(s0, WorkerRun(0, p), WorkerRun(1, p), limit);
    WorkerAppends(s1, p, limit);
    var list := After(s0, WorkerRun(0, p) + WorkerRun(1, p), limit).list;
    assert list == [p, p] && list[0] == list[1];
  }

  lemma AfterFour(s: State, run: seq<Event>, more: seq<Event>, limit: int)
    requires |more| == 4
    ensures After(s, run + more, limit) ==
            Next(Next(Next(Next(After(s, run, limit), more[0], limit), more[1], limit), more[2], limit), more[3], limit)
  {
    hide Next;
    var a, b, c := run + [more[0]], run + [more[0]] + [more[1]], run + [more[0]] + [more[1]] + [more[2]];
    AfterAppend(s, run, more[0], limit);
    AfterAppend(s, a, more[1], limit);
    AfterAppend(s, b, more[2], limit);
    AfterAppend(s, c, more[3], limit);
    assert run + more == c + [more[3]];
  }

  lemma AfterNothing(s: State, limit: int)
    ensures After(s, [], limit) == s
  {
  }

  lemma AfterAppend(s: State, run: seq<Event>, e: Event, limit: int)
    ensures After(s, run + [e], limit) == Next(After(s, run, limit), e, limit)
  {
    hide Next;
    assert (run + [e])[..|run|] == run;
  }

  /** Entry k is the first one for this finger of this user. */
  predicate FirstFor(list: seq<Template>, uid: nat, finger: int, k: nat)
  {
    && k < |list| && list[k].uid == uid && list[k].finger == finger
    && forall j | 0 <= j < k :: list[j].uid != uid || list[j].finger != finger
  }

  predicate NoneFor(list: seq<Template>, uid: nat, finger: int)
  {
    forall j | 0 <= j < |list| :: list[j].uid != uid || list[j].finger != finger
  }

  lemma FindIsFirst(list: seq<Template>, uid: nat, finger: int)
    ensures var k := Find(list, uid, finger, 0);
            (NoneFor(list, uid, finger) <==> k == |list|) && (k < |list| ==> FirstFor(list, uid, finger, k))
    ensures forall k: nat | FirstFor(list, uid, finger, k) :: k == Find(list, uid, finger, 0) < |list|
  {
    hide Find;
  }

  // ----- the operations under the lock -------------------------------------------------------------

  /** The list with its capacity, and how far each enrollment under way has come. */
  class Daemon {
    var list: seq<Template>
    var capacity: nat
    var tasks: seq<Task>

    predicate Valid()
      reads this
    {
      |list| <= capacity
    }

    function Now(): State
      reads this
    {
      State(list, tasks)
    }

    method BeginEnrollment(bus: bool, template: Template, ghost limit: int)
      modifies this`tasks
      ensures Now() == Next(old(Now()), Begin(bus, template), limit)
      ensures tasks == old(tasks) + [Task(bus, template, Ready)]
    {
      tasks := tasks + [Task(bus, template, Ready)];
    }

    /** The check under the first lock, before the scan. */
    method CheckRoom(t: nat, limit: int) returns (room: bool)
      modifies this`tasks
      ensures Now() == Next(old(Now()), Check(t), limit)
      ensures room <==> t < |tasks| && old(tasks)[t].stage == Ready && |Of(list, tasks[t].template.uid)| < limit
      ensures tasks == if t >= |old(tasks)| || old(tasks)[t].stage != Ready then old(tasks)
                       else old(tasks)[t := old(tasks)[t].(stage := if room then Scanning else Done(false))]
    {
      hide Of;
      if t >= |tasks| || tasks[t].stage != Ready { return false; }
      var n := CountFor(tasks[t].template.uid);
      room := n < limit;
      tasks := tasks[t := tasks[t].(stage := if room then Scanning else Done(false))];
    }

    /** The scan itself holds no lock and touches no list. */
    method ScanFinger(t: nat, good: bool, ghost limit: int)
      modifies this`tasks
      ensures Now() == Next(old(Now()), Scan(t, good), limit)
      ensures tasks == if t >= |old(tasks)| || old(tasks)[t].stage != Scanning then old(tasks)
                       else old(tasks)[t := old(tasks)[t].(stage := if good then Scanned else Done(false))]
    {
      if t < |tasks| && tasks[t].stage == Scanning {
        tasks := tasks[t := tasks[t].(stage := if good then Scanned else Done(false))];
      }
    }

    /** No allocation or seal that this task needs fails: the array has room or can grow, and the worker's
        template is sealed if it must be. */
    predicate Succeeds(t: nat, able: bool, sealed: bool)
      reads this
    {
      (able || |list| < capacity) && (t < |tasks| && !tasks[t].bus ==> sealed)
    }

    /** The step under the second lock, for either kind of enrollment. */
    method StoreTask(t: nat, limit: int, able: bool, sealed: bool) returns (ok: bool)
      requires Valid()
      modifies this
      ensures Valid()
      ensures Now() == Next(old(Now()), Store(t, old(Succeeds(t, able, sealed))), limit)
      ensures ok <==> t < |tasks| && old(tasks)[t].stage == Scanned && tasks[t].stage == Done(true)
    {
      hide Of, Find, Added;
      if t >= |tasks| || tasks[t].stage != Scanned { return false; }
      var task := tasks[t];
      if task.bus {
        ok := StoreFromBus(task.template, limit, able);
      } else {
        ok := StoreFromWorker(task.template, limit, able, sealed);
      }
      tasks := tasks[t := task.(stage := Done(ok))];
    }

    method CountFor(uid: nat) returns (n: nat)
      ensures n == |Of(list, uid)|
    {
      n := 0;
      assert list[..0] == [];
      for i := 0 to |list|
        invariant n == |Of(list[..i], uid)|
      {
        assert list[..i + 1][..i] == list[..i];
        if list[i].uid == uid {
          n := n + 1;
        }
      }
      assert list[..|list|] == list;
    }

    /** Makes room for one more entry, doubling the capacity when the array is full. */
    method Grow(able: bool) returns (ok: bool)
      requires Valid()
      modifies this`capacity
      ensures ok <==> able || |list| < old(capacity)
      ensures ok ==> |list| < capacity
      ensures !ok ==> capacity == old(capacity)
      ensures capacity == old(capacity) || capacity == if old(capacity) == 0 then 16 else 2 * old(capacity)
    {
      if |list| >= capacity {
        if !able { return false; }
        capacity := if capacity == 0 then 16 else capacity * 2;
      }
      return true;
    }

    method AddEnrollment(p: Template, able: bool) returns (ok: bool)
      requires Valid()
      modifies this`list, this`capacity
      ensures Valid()
      ensures list == if ok then Added(old(list), p) else old(list)
      ensures ok <==> able || |old(list)| < old(capacity) || Find(old(list), p.uid, p.finger, 0) < |old(list)|
      ensures forall k: nat | FirstFor(old(list), p.uid, p.finger, k) :: ok && list == old(list)[k := p]
      ensures ok && NoneFor(old(list), p.uid, p.finger) ==> list == old(list) + [p]
    {
      hide Of, NoneFor, FirstFor;
      FindIsFirst(list, p.uid, p.finger);
      var i := 0;
      while i < |list|
        invariant i <= |list| && list == old(list) && capacity == old(capacity)
        invariant Find(list, p.uid, p.finger, i) == Find(list, p.uid, p.finger, 0)
      {
        if list[i].uid == p.uid && list[i].finger == p.finger {
          list := list[i := p];
          return true;
        }
        i := i + 1;
      }
      ok := Grow(able);
      if ok {
        list := list + [p];
      }
    }

    /** The last step of the D-Bus call. */
    method StoreFromBus(p: Template, limit: int, able: bool) returns (ok: bool)
      requires Valid()
      modifies this`list, this`capacity
      ensures Valid()
      ensures ok ==> |Of(old(list), p.uid)| < limit && list == Added(old(list), p)
      ensures !ok ==> list == old(list)
      ensures ok <==>
              && |Of(old(list), p.uid)| < limit
              && (able || |old(list)| < old(capacity) || Find(old(list), p.uid, p.finger, 0) < |old(list)|)
    {
      hide Of, Added;
      var n := CountFor(p.uid);
      if n >= limit { return false; }
      ok := AddEnrollment(p, able);
    }

    /** The last step of the worker: it always appends, and a failed seal abandons the entry. */
    method StoreFromWorker(p: Template, limit: int, able: bool, sealed: bool) returns (ok: bool)
      requires Valid()
      modifies this`list, this`capacity
      ensures Valid()
      ensures ok ==> |Of(old(list), p.uid)| < limit && list == old(list) + [p]
      ensures !ok ==> list == old(list)
      ensures ok <==> |Of(old(list), p.uid)| < limit && (able || |old(list)| < old(capacity)) && sealed
    {
      hide Of, Added;
      var n := CountFor(p.uid);
      if n >= limit { return false; }
      ok := Grow(able);
      if !ok || !sealed { return false; }
      list := list + [p];
    }

    method Remove(uid: nat, finger: int, ghost limit: int) returns (found: bool)
      requires Valid()
      modifies this`list
      ensures Valid() && Now() == Next(old(Now()), RemoveFinger(uid, finger), limit)
      ensures var k := Find(old(list), uid, finger, 0);
              found == (k < |old(list)|) && list == if found then Without(old(list), k) else old(list)
      ensures forall k: nat | FirstFor(old(list), uid, finger, k) ::
                found && list == old(list)[..k] + old(list)[k + 1..]
      ensures NoneFor(old(list), uid, finger) ==> !found && list == old(list)
    {
      hide Of, NoneFor, FirstFor;
      FindIsFirst(list, uid, finger);
      var i := 0;
      while i < |list|
        invariant i <= |list| && list == old(list) && Find(list, uid, finger, i) == Find(list, uid, finger, 0)
      {
        if list[i].uid == uid && list[i].finger == finger {
          list := list[..i] + list[i + 1..];
          return true;
        }
        i := i + 1;
      }
      return false;
    }

    /** Compacts the list in place over the entries of one user. */
    method RemoveAll(uid: nat, ghost limit: int)
      requires Valid()
      modifies this`list
      ensures Valid() && Now() == Next(old(Now()), RemoveUser(uid), limit)
      ensures list == WithoutUser(old(list), uid)
    {
      hide Of, Find, Added, Without;
      var write := 0;
      var n := |list|;
      ghost var was := list;
      assert was[..0] == [];
      for i := 0 to n
        invariant |list| == n == |was| && write <= i
        invariant list[..write] == WithoutUser(was[..i], uid)
        invariant forall j | i <= j < n :: list[j] == was[j]
      {
        assert was[..i + 1][..i] == was[..i];
        if list[i].uid != uid {
          if write != i {
            list := list[write := list[i]];
          }
          assert list[..write + 1] == list[..write] + [was[i]];
          write := write + 1;
        }
      }
      assert was[..n] == was;
      list := list[..write];
    }
  }
}
