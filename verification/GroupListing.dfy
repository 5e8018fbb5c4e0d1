/** Listing the vault's groups as a forest, for any parent relation: repeated ids, cycles and self-parents
    included. */
module GroupListing {
  import opened Groups
  import opened GroupText

  // ----- marks -------------------------------------------------------------------------------------

  function Count(marks: seq<bool>): (n: nat)
    ensures n <= |marks|
  {
    if marks == [] then 0 else (if marks[0] then 1 else 0) + Count(marks[1..])
  }

  lemma {:induction false} CountMark(marks: seq<bool>, i: nat)
    requires i < |marks| && !marks[i]
    ensures Count(marks[i := true]) == Count(marks) + 1
  {
    if i == 0 {
      assert marks[0 := true][1..] == marks[1..];
    } else {
      CountMark(marks[1..], i - 1);
      assert marks[i := true][1..] == marks[1..][i - 1 := true];
    }
  }

  /** Everything emitted before stays emitted. */
  predicate Grown(e0: seq<bool>, e1: seq<bool>)
  {
    |e0| == |e1| && forall i | 0 <= i < |e0| :: e0[i] ==> e1[i]
  }

  lemma {:induction false} CountMonotone(a: seq<bool>, b: seq<bool>)
    requires Grown(a, b)
    ensures Count(a) <= Count(b)
  {
    if a != [] {
      CountMonotone(a[1..], b[1..]);
    }
  }

  function NoMarks(n: nat): (e: seq<bool>)
    ensures |e| == n && forall i | 0 <= i < n :: !e[i]
  {
    seq(n, i => false)
  }

  // ----- the emission ------------------------------------------------------------------------------

  datatype Visited = Visited(slot: Slot, emitted: seq<bool>)

  datatype Emission = Emission(slots: seq<Slot>, emitted: seq<bool>)

  /** A group is listed below every group whose id it names as its parent. */
  predicate IsChild(gs: seq<Group>, i: nat, parent: nat)
    requires i < |gs| && parent < |gs|
  {
    gs[i].parentId != "" && gs[i].parentId == gs[parent].id
  }

  /** Attempts to emit a group: nothing if it is out already, else the group and its children. */
  function Visit(gs: seq<Group>, e: seq<bool>, i: nat): (r: Visited)
    requires |e| == |gs| && i < |gs|
    ensures Grown(e, r.emitted) && r.emitted[i] && (r.slot.Hole? <==> e[i])
    decreases |gs| - Count(e), 0
  {
    if e[i] then Visited(Hole, e)
    else
      CountMark(e, i);
      var kids := VisitChildren(gs, e[i := true], i, 0);
      Visited(Node(i, kids.slots), kids.emitted)
  }

  /** Attempts the children of a group from index `i` on. */
  function VisitChildren(gs: seq<Group>, e: seq<bool>, parent: nat, i: nat): (r: Emission)
    requires |e| == |gs| && parent < |gs| && i <= |gs|
    ensures Grown(e, r.emitted)
    decreases |gs| - Count(e), |gs| - i + 1
  {
    if i == |gs| then Emission([], e)
    else if IsChild(gs, i, parent) then
      var first := Visit(gs, e, i);
      CountMonotone(e, first.emitted);
      var rest := VisitChildren(gs, first.emitted, parent, i + 1);
      Emission([first.slot] + rest.slots, rest.emitted)
    else VisitChildren(gs, e, parent, i + 1)
  }

  /** No group but itself is its parent. */
  predicate Special(gs: seq<Group>, i: nat)
    requires i < |gs|
  {
    Parent(gs, i) == -1 || Parent(gs, i) == i
  }

  /** The first pass: the groups without a parent among the others, from index `i` on. */
  function VisitRoots(gs: seq<Group>, e: seq<bool>, i: nat): (r: Emission)
    requires |e| == |gs| && i <= |gs|
    ensures Grown(e, r.emitted)
    decreases |gs| - i
  {
    if i == |gs| then Emission([], e)
    else if Special(gs, i) then
      var first := Visit(gs, e, i);
      var rest := VisitRoots(gs, first.emitted, i + 1);
      Emission([first.slot] + rest.slots, rest.emitted)
    else VisitRoots(gs, e, i + 1)
  }

  /** The second pass: whatever is left, from index `i` on. */
  function VisitRest(gs: seq<Group>, e: seq<bool>, i: nat): (r: Emission)
    requires |e| == |gs| && i <= |gs|
    ensures Grown(e, r.emitted) && forall k | i <= k < |gs| :: r.emitted[k]
    decreases |gs| - i
  {
    if i == |gs| then Emission([], e)
    else if e[i] then VisitRest(gs, e, i + 1)
    else
      var first := Visit(gs, e, i);
      var rest := VisitRest(gs, first.emitted, i + 1);
      Emission([first.slot] + rest.slots, rest.emitted)
  }

  function Listing(gs: seq<Group>): seq<Slot>
  {
    var roots := VisitRoots(gs, NoMarks(|gs|), 0);
    roots.slots + VisitRest(gs, roots.emitted, 0).slots
  }

  // ----- the loops of the source -------------------------------------------------------------------

  class Lister {
    const gs: seq<Group>
    var emitted: seq<bool>
    var json: seq<Token>

    constructor (groups: seq<Group>)
      ensures gs == groups && json == [] && emitted == NoMarks(|groups|)
    {
      gs, json, emitted := groups, [], NoMarks(|groups|);
    }

    /** Emits a group and, below it, its children. The depth guard never cuts anything off. */
    method EmitNode(index: nat, depth: nat)
      requires |emitted| == |gs| && index < |gs| && depth <= Count(emitted)
      modifies this
      ensures emitted == Visit(gs, old(emitted), index).emitted
      ensures json == old(json) + Text(Visit(gs, old(emitted), index).slot)
      decreases |gs| - Count(emitted)
    {
      hide Count, Visit, VisitChildren, Text, TextAll, IsChild;
      VisitStep(gs, emitted, index);
      if depth > |gs| + 1 {
        return;
      }
      if emitted[index] {
        return;
      }
      CountMark(emitted, index);
      ghost var e0, j0 := emitted, json + [OpenNode(index)];
      emitted := emitted[index := true];
      json := json + [OpenNode(index)];
      ghost var e1, done := emitted, [];
      NoText(j0);
      var firstChild := true;
      for i := 0 to |gs|
        invariant Grown(e1, emitted) && |emitted| == |gs| && Count(e1) <= Count(emitted)
        invariant json == j0 + TextAll(done) && (firstChild <==> done == [])
        invariant Resumes(VisitChildren(gs, e1, index, 0), done, VisitChildren(gs, emitted, index, i))
      {
        ChildStep(gs, emitted, index, i);
        if gs[i].parentId != "" && gs[i].parentId == gs[index].id {
          ghost var before := emitted;
          if !firstChild {
            json := json + [Comma];
          }
          firstChild := false;
          EmitNode(i, depth + 1);
          CountMonotone(before, emitted);
          AttemptText(j0, done, Visit(gs, before, i).slot);
          done := done + [Visit(gs, before, i).slot];
        }
      }
      json := json + [CloseNode];
      ChildrenEnd(gs, emitted, index, done, e1);
      NodeText(index, done, j0, old(json));
    }

    /** Lists all groups, for any ids and parents, as the attempts say. */
    method ListGroups()
      requires json == [] && emitted == NoMarks(|gs|)
      modifies this
      ensures json == TextAll(Listing(gs))
    {
      hide Count, Visit, VisitRoots, VisitRest, Text, TextAll;
      ghost var roots := VisitRoots(gs, emitted, 0);
      ghost var done: seq<Slot> := [];
      NoText([]);
      var first := true;
      for i := 0 to |gs|
        invariant |emitted| == |gs|
        invariant json == TextAll(done) && (first <==> done == [])
        invariant Resumes(roots, done, VisitRoots(gs, emitted, i))
      {
        RootStep(gs, emitted, i);
        var parent := FindGroup(gs, gs[i].parentId);
        if parent >= 0 && parent != i {
          continue;
        }
        ghost var s := Visit(gs, emitted, i).slot;
        TextAppend(done, s);
        if !first {
          json := json + [Comma];
        }
        first := false;
        EmitNode(i, 0);
        done := done + [s];
      }
      RootsEnd(gs, emitted);
      assert roots == Emission(done, emitted);
      ghost var rest := VisitRest(gs, emitted, 0);
      ghost var more: seq<Slot> := [];
      assert done + more == done;
      for i := 0 to |gs|
        invariant |emitted| == |gs|
        invariant json == TextAll(done + more) && (first <==> done + more == [])
        invariant Resumes(rest, more, VisitRest(gs, emitted, i))
      {
        RestStep(gs, emitted, i);
        if emitted[i] {
          continue;
        }
        ghost var s := Visit(gs, emitted, i).slot;
        TextAppend(done + more, s);
        if !first {
          json := json + [Comma];
        }
        first := false;
        EmitNode(i, 0);
        ConcatSlots(done, more, s);
        more := more + [s];
      }
      RestEnd(gs, emitted);
    }
  }

  /** What is left to do continues what is done. */
  ghost predicate Resumes(whole: Emission, done: seq<Slot>, rest: Emission)
  {
    whole == Emission(done + rest.slots, rest.emitted)
  }

  lemma VisitStep(gs: seq<Group>, e: seq<bool>, i: nat)
    requires |e| == |gs| && i < |gs|
    ensures e[i] ==> Visit(gs, e, i) == Visited(Hole, e) && Text(Hole) == []
    ensures !e[i] ==>
              var kids := VisitChildren(gs, e[i := true], i, 0);
              Visit(gs, e, i) == Visited(Node(i, kids.slots), kids.emitted)
    ensures Count(e) <= |gs|
  {
  }

  lemma ChildStep(gs: seq<Group>, e: seq<bool>, parent: nat, i: nat)
    requires |e| == |gs| && parent < |gs| && i < |gs|
    ensures IsChild(gs, i, parent) <==> gs[i].parentId != "" && gs[i].parentId == gs[parent].id
    ensures IsChild(gs, i, parent) ==>
              var first := Visit(gs, e, i);
              forall whole, done | Resumes(whole, done, VisitChildren(gs, e, parent, i)) ::
                Resumes(whole, done + [first.slot], VisitChildren(gs, first.emitted, parent, i + 1))
    ensures !IsChild(gs, i, parent) ==> VisitChildren(gs, e, parent, i) == VisitChildren(gs, e, parent, i + 1)
  {
    hide Visit;
    if IsChild(gs, i, parent) {
      var first := Visit(gs, e, i);
      var rest := VisitChildren(gs, first.emitted, parent, i + 1);
      forall whole, done | Resumes(whole, done, VisitChildren(gs, e, parent, i))
        ensures Resumes(whole, done + [first.slot], rest) {
        ConcatSlots(done, [first.slot], Hole);
        assert done + ([first.slot] + rest.slots) == done + [first.slot] + rest.slots;
      }
    }
  }

  lemma ConcatSlots(a: seq<Slot>, b: seq<Slot>, s: Slot)
    ensures a + b + [s] == a + (b + [s])
  {
  }

  lemma NoText(j: seq<Token>)
    ensures TextAll([]) == [] && j + TextAll([]) == j
  {
  }

  lemma AttemptText(j: seq<Token>, done: seq<Slot>, s: Slot)
    ensures j + TextAll(done + [s]) == j + TextAll(done) + (if done == [] then [] else [Comma]) + Text(s)
  {
    hide Text, TextAll;
    TextAppend(done, s);
  }

  lemma ChildrenEnd(gs: seq<Group>, e: seq<bool>, parent: nat, done: seq<Slot>, e1: seq<bool>)
    requires |e| == |gs| == |e1| && parent < |gs|
    requires Resumes(VisitChildren(gs, e1, parent, 0), done, VisitChildren(gs, e, parent, |gs|))
    ensures VisitChildren(gs, e1, parent, 0) == Emission(done, e)
  {
  }

  lemma NodeText(i: nat, slots: seq<Slot>, j0: seq<Token>, j: seq<Token>)
    requires j0 == j + [OpenNode(i)]
    ensures j0 + TextAll(slots) + [CloseNode] == j + Text(Node(i, slots))
  {
    hide TextAll;
  }

  lemma RootStep(gs: seq<Group>, e: seq<bool>, i: nat)
    requires |e| == |gs| && i < |gs|
    ensures IndexOf(gs, gs[i].parentId) == Parent(gs, i)
    ensures Special(gs, i) ==>
              var first := Visit(gs, e, i);
              forall whole, done | Resumes(whole, done, VisitRoots(gs, e, i)) ::
                Resumes(whole, done + [first.slot], VisitRoots(gs, first.emitted, i + 1))
    ensures !Special(gs, i) ==> VisitRoots(gs, e, i) == VisitRoots(gs, e, i + 1)
  {
    hide Visit;
    if Special(gs, i) {
      var first := Visit(gs, e, i);
      var rest := VisitRoots(gs, first.emitted, i + 1);
      forall whole, done | Resumes(whole, done, VisitRoots(gs, e, i))
        ensures Resumes(whole, done + [first.slot], rest) {
        assert done + ([first.slot] + rest.slots) == done + [first.slot] + rest.slots;
      }
    }
  }

  lemma RootsEnd(gs: seq<Group>, e: seq<bool>)
    requires |e| == |gs|
    ensures VisitRoots(gs, e, |gs|) == Emission([], e)
    ensures forall whole, done | Resumes(whole, done, VisitRoots(gs, e, |gs|)) :: whole == Emission(done, e)
  {
  }

  lemma RestStep(gs: seq<Group>, e: seq<bool>, i: nat)
    requires |e| == |gs| && i < |gs|
    ensures !e[i] ==>
              var first := Visit(gs, e, i);
              forall whole, done | Resumes(whole, done, VisitRest(gs, e, i)) ::
                Resumes(whole, done + [first.slot], VisitRest(gs, first.emitted, i + 1))
    ensures e[i] ==> VisitRest(gs, e, i) == VisitRest(gs, e, i + 1)
  {
    hide Visit;
    if !e[i] {
      var first := Visit(gs, e, i);
      var rest := VisitRest(gs, first.emitted, i + 1);
      forall whole, done | Resumes(whole, done, VisitRest(gs, e, i)) ensures Resumes(whole, done + [first.slot], rest) {
        assert done + ([first.slot] + rest.slots) == done + [first.slot] + rest.slots;
      }
    }
  }

  lemma RestEnd(gs: seq<Group>, e: seq<bool>)
    requires |e| == |gs|
    ensures forall whole, done | Resumes(whole, done, VisitRest(gs, e, |gs|)) :: whole == Emission(done, e)
  {
  }

  // ----- every group once --------------------------------------------------------------------------

  /** How often a group is opened in a text. */
  function Opened(text: seq<Token>, m: nat): nat
  {
    if text == [] then 0
    else Opened(text[..|text| - 1], m) + if text[|text| - 1] == OpenNode(m) then 1 else 0
  }

  lemma {:induction false} OpenedConcat(a: seq<Token>, b: seq<Token>, m: nat)
    ensures Opened(a + b, m) == Opened(a, m) + Opened(b, m)
  {
    if b == [] {
      assert a + b == a;
    } else {
      OpenedConcat(a, b[..|b| - 1], m);
      assert (a + b)[..|a + b| - 1] == a + b[..|b| - 1];
    }
  }

  lemma OpenedOne(t: Token, m: nat)
    ensures Opened([t], m) == if t == OpenNode(m) then 1 else 0
  {
    assert [t][..0] == [];
  }

  lemma {:induction false} OpenedCons(s: Slot, ss: seq<Slot>, m: nat)
    ensures Opened(TextAll([s] + ss), m) == Opened(Text(s), m) + Opened(TextAll(ss), m)
    decreases |ss|
  {
    hide Opened, Text, TextAll;
    if ss == [] {
      assert [s] + ss == [s];
      OpenedNothing(s, m);
    } else {
      var init, last := ss[..|ss| - 1], ss[|ss| - 1];
      assert [s] + ss == ([s] + init) + [last] && ss == init + [last];
      OpenedCons(s, init, m);
      OpenedSnoc([s] + init, last, m);
      OpenedSnoc(init, last, m);
    }
  }

  lemma OpenedNothing(s: Slot, m: nat)
    ensures Opened(TextAll([]), m) == Opened([], m) == 0 && TextAll([s]) == Text(s)
  {
  }

  lemma OpenedSnoc(ss: seq<Slot>, s: Slot, m: nat)
    ensures Opened(TextAll(ss + [s]), m) == Opened(TextAll(ss), m) + Opened(Text(s), m)
  {
    hide Opened, Text, TextAll;
    TextAppend(ss, s);
    var comma := if ss == [] then [] else [Comma];
    OpenedConcat(TextAll(ss) + comma, Text(s), m);
    OpenedConcat(TextAll(ss), comma, m);
    OpenedOne(Comma, m);
    OpenedNothing(s, m);
  }

  lemma OpenedNode(i: nat, ss: seq<Slot>, m: nat)
    ensures Opened(Text(Node(i, ss)), m) == Opened(TextAll(ss), m) + if i == m then 1 else 0
  {
    hide Opened, TextAll;
    OpenedConcat([OpenNode(i)] + TextAll(ss), [CloseNode], m);
    OpenedConcat([OpenNode(i)], TextAll(ss), m);
    OpenedOne(OpenNode(i), m);
    OpenedOne(CloseNode, m);
  }

  function New(e0: seq<bool>, e1: seq<bool>, m: nat): nat
    requires m < |e0| == |e1|
  {
    if e1[m] && !e0[m] then 1 else 0
  }

  lemma {:induction false} VisitOpens(gs: seq<Group>, e: seq<bool>, i: nat, m: nat)
    requires |e| == |gs| && i < |gs| && m < |gs|
    ensures Opened(Text(Visit(gs, e, i).slot), m) == New(e, Visit(gs, e, i).emitted, m)
    decreases |gs| - Count(e), 0
  {
    hide Opened, Text, TextAll, VisitChildren;
    if e[i] {
      HoleText();
      OpenedNothing(Hole, m);
      NoText([]);
    } else {
      CountMark(e, i);
      ChildrenOpen(gs, e[i := true], i, 0, m);
      OpenedNode(i, VisitChildren(gs, e[i := true], i, 0).slots, m);
    }
  }

  lemma {:induction false} ChildrenOpen(gs: seq<Group>, e: seq<bool>, parent: nat, i: nat, m: nat)
    requires |e| == |gs| && parent < |gs| && i <= |gs| && m < |gs|
    ensures var r := VisitChildren(gs, e, parent, i); Opened(TextAll(r.slots), m) == New(e, r.emitted, m)
    decreases |gs| - Count(e), |gs| - i + 1
  {
    hide Opened, Text, TextAll, Visit, IsChild, Count;
    if i == |gs| {
      OpenedNothing(Hole, m);
    } else if IsChild(gs, i, parent) {
      var first := Visit(gs, e, i);
      CountMonotone(e, first.emitted);
      VisitOpens(gs, e, i, m);
      ChildrenOpen(gs, first.emitted, parent, i + 1, m);
      OpenedCons(first.slot, VisitChildren(gs, first.emitted, parent, i + 1).slots, m);
    } else {
      ChildrenOpen(gs, e, parent, i + 1, m);
    }
  }

  lemma {:induction false} RootsOpen(gs: seq<Group>, e: seq<bool>, i: nat, m: nat)
    requires |e| == |gs| && i <= |gs| && m < |gs|
    ensures Opened(TextAll(VisitRoots(gs, e, i).slots), m) == New(e, VisitRoots(gs, e, i).emitted, m)
    decreases |gs| - i
  {
    hide Opened, Text, TextAll, Visit, Special;
    if i == |gs| {
      OpenedNothing(Hole, m);
    } else if Special(gs, i) {
      var first := Visit(gs, e, i);
      VisitOpens(gs, e, i, m);
      RootsOpen(gs, first.emitted, i + 1, m);
      OpenedCons(first.slot, VisitRoots(gs, first.emitted, i + 1).slots, m);
    } else {
      RootsOpen(gs, e, i + 1, m);
    }
  }

  lemma {:induction false} RestOpens(gs: seq<Group>, e: seq<bool>, i: nat, m: nat)
    requires |e| == |gs| && i <= |gs| && m < |gs|
    ensures Opened(TextAll(VisitRest(gs, e, i).slots), m) == New(e, VisitRest(gs, e, i).emitted, m)
    decreases |gs| - i
  {
    hide Opened, Text, TextAll, Visit;
    if i == |gs| {
      OpenedNothing(Hole, m);
    } else if e[i] {
      RestOpens(gs, e, i + 1, m);
    } else {
      var first := Visit(gs, e, i);
      VisitOpens(gs, e, i, m);
      RestOpens(gs, first.emitted, i + 1, m);
      OpenedCons(first.slot, VisitRest(gs, first.emitted, i + 1).slots, m);
    }
  }

  lemma {:induction false} OpenedSlots(a: seq<Slot>, b: seq<Slot>, m: nat)
    ensures Opened(TextAll(a + b), m) == Opened(TextAll(a), m) + Opened(TextAll(b), m)
    decreases |b|
  {
    hide Opened, Text, TextAll;
    if b == [] {
      assert a + b == a;
      OpenedNothing(Hole, m);
    } else {
      var init, last := b[..|b| - 1], b[|b| - 1];
      OpenedSlots(a, init, m);
      OpenedSnoc(a + init, last, m);
      OpenedSnoc(init, last, m);
      assert a + b == a + init + [last] && b == init + [last];
    }
  }

  /** Every group is emitted exactly once, for any ids and any parent relation. */
  lemma EveryGroupOnce(gs: seq<Group>, m: nat)
    requires m < |gs|
    ensures Opened(TextAll(Listing(gs)), m) == 1
  {
    hide Opened, TextAll, VisitRoots, VisitRest;
    var roots := VisitRoots(gs, NoMarks(|gs|), 0);
    RootsOpen(gs, NoMarks(|gs|), 0, m);
    RestOpens(gs, roots.emitted, 0, m);
    OpenedSlots(roots.slots, VisitRest(gs, roots.emitted, 0).slots, m);
  }

  /** For any groups the listing is the text of a forest if and only if the emission never meets a group that
      is out already among several children of one node, or among several groups at the top. */
  lemma ListingWellFormedIff(gs: seq<Group>)
    ensures WellFormed(TextAll(Listing(gs))) <==> OrderlyAll(Listing(gs))
  {
    hide OrderlyAll, TextAll, Listing, WellFormed;
    WellFormedIffOrderly(Listing(gs));
  }

  // ----- distinct ids: which attempts are holes ----------------------------------------------------

  predicate DistinctIds(gs: seq<Group>)
  {
    forall i, j | 0 <= i < j < |gs| :: gs[i].id != "" ==> gs[i].id != gs[j].id
  }

  /** With distinct ids, the groups that name an id as their parent are the ones it resolves for. */
  lemma ChildByName(gs: seq<Group>, c: nat, p: nat)
    requires DistinctIds(gs) && c < |gs| && p < |gs|
    ensures IsChild(gs, c, p) <==> Parent(gs, c) == p
  {
  }

  /** The children of a group from index `i` on. */
  function Children(gs: seq<Group>, p: nat, i: nat): (cs: seq<nat>)
    requires p < |gs| && i <= |gs|
    ensures forall k | 0 <= k < |cs| :: i <= cs[k] < |gs| && IsChild(gs, cs[k], p)
    decreases |gs| - i
  {
    if i == |gs| then []
    else if IsChild(gs, i, p) then [i] + Children(gs, p, i + 1)
    else Children(gs, p, i + 1)
  }

  lemma {:induction false} ChildListed(gs: seq<Group>, p: nat, i: nat, c: nat)
    requires p < |gs| && i <= c < |gs| && IsChild(gs, c, p)
    ensures c in Children(gs, p, i)
    decreases |gs| - i
  {
    hide IsChild;
    if i < c {
      ChildListed(gs, p, i + 1, c);
    }
  }

  /** Below every node stand its children in order, all of them emitted: a hole for each that was started at
      the top, a node for every other. */
  predicate Matches(gs: seq<Group>, tops: set<nat>, e: seq<bool>, s: Slot)
    requires |e| == |gs|
    decreases s, 1
  {
    s.Node? ==> s.index < |gs| && MatchesAll(gs, tops, e, s.slots, Children(gs, s.index, 0))
  }

  predicate MatchesAll(gs: seq<Group>, tops: set<nat>, e: seq<bool>, ss: seq<Slot>, cs: seq<nat>)
    requires |e| == |gs|
    decreases ss, 0
  {
    && |ss| == |cs|
    && forall k | 0 <= k < |ss| ::
         && cs[k] < |gs| && e[cs[k]]
         && (ss[k].Hole? <==> cs[k] in tops)
         && (ss[k].Node? ==> ss[k].index == cs[k] && Matches(gs, tops, e, ss[k]))
  }

  /** Later starts do not disturb what is out. */
  predicate Later(e: seq<bool>, e': seq<bool>, tops: set<nat>, tops': set<nat>)
  {
    Grown(e, e') && tops <= tops' && forall m | m in tops' && m !in tops :: m < |e| && !e[m]
  }

  lemma {:induction false} MatchesLater(
    gs: seq<Group>, tops: set<nat>, tops': set<nat>, e: seq<bool>, e': seq<bool>, s: Slot)
    requires |e| == |gs| == |e'| && Matches(gs, tops, e, s) && Later(e, e', tops, tops')
    ensures Matches(gs, tops', e', s)
    decreases s, 1
  {
    hide Children;
    if s.Node? {
      MatchesAllLater(gs, tops, tops', e, e', s.slots, Children(gs, s.index, 0));
    }
  }

  lemma {:induction false} MatchesAllLater(
    gs: seq<Group>, tops: set<nat>, tops': set<nat>, e: seq<bool>, e': seq<bool>, ss: seq<Slot>, cs: seq<nat>)
    requires |e| == |gs| == |e'| && MatchesAll(gs, tops, e, ss, cs) && Later(e, e', tops, tops')
    ensures MatchesAll(gs, tops', e', ss, cs)
    decreases ss, 0
  {
    hide Children, Matches;
    forall k | 0 <= k < |ss|
      ensures e'[cs[k]] && (ss[k].Hole? <==> cs[k] in tops') && (ss[k].Node? ==> Matches(gs, tops', e', ss[k])) {
      if ss[k].Node? {
        MatchesLater(gs, tops, tops', e, e', ss[k]);
      }
    }
  }

  lemma MatchesCons(gs: seq<Group>, tops: set<nat>, e: seq<bool>, s: Slot, ss: seq<Slot>, c: nat, cs: seq<nat>)
    requires |e| == |gs| && c < |gs| && e[c] && (s.Hole? <==> c in tops)
    requires s.Node? ==> s.index == c && Matches(gs, tops, e, s)
    requires MatchesAll(gs, tops, e, ss, cs)
    ensures MatchesAll(gs, tops, e, [s] + ss, [c] + cs)
  {
    hide Matches;
  }

  // ----- what a visit adds -------------------------------------------------------------------------

  /** Whatever is out was started at the top or hangs under something that is out. */
  predicate Led(gs: seq<Group>, e: seq<bool>, tops: set<nat>)
    requires |e| == |gs|
  {
    forall m | 0 <= m < |gs| :: e[m] && m !in tops ==> Parent(gs, m) != -1 && e[Parent(gs, m)]
  }

  predicate Out(e: seq<bool>, tops: set<nat>)
  {
    forall m | m in tops :: m < |e| && e[m]
  }

  /** Of the children of a group from `from` on, only those started at the top are out. */
  predicate Waiting(gs: seq<Group>, e: seq<bool>, tops: set<nat>, p: nat, from: nat)
    requires |e| == |gs|
  {
    forall c | from <= c < |gs| :: Parent(gs, c) == p && e[c] ==> c in tops
  }

  ghost predicate Reaches(gs: seq<Group>, m: nat, p: nat)
    requires m < |gs|
  {
    exists k: nat :: Up(gs, m, k) == p
  }

  predicate IsNew(e0: seq<bool>, e1: seq<bool>, m: nat)
    requires m < |e0| == |e1|
  {
    e1[m] && !e0[m]
  }

  /** What is new hangs under p: its parent is p or new itself, and its chain leads up to p. */
  ghost predicate NewUnder(gs: seq<Group>, e0: seq<bool>, e1: seq<bool>, p: nat)
    requires |e0| == |e1| == |gs|
  {
    forall m | 0 <= m < |gs| && IsNew(e0, e1, m) ::
      Parent(gs, m) != -1 && (Parent(gs, m) == p || IsNew(e0, e1, Parent(gs, m))) && Reaches(gs, m, p)
  }

  /** The same where p itself is new. */
  ghost predicate NewFrom(gs: seq<Group>, e0: seq<bool>, e1: seq<bool>, p: nat)
    requires |e0| == |e1| == |gs|
  {
    forall m | 0 <= m < |gs| && IsNew(e0, e1, m) ::
      && (m == p || (Parent(gs, m) != -1 && IsNew(e0, e1, Parent(gs, m))))
      && Reaches(gs, m, p)
  }

  /** Whatever is new has all its children out. */
  predicate Closed(gs: seq<Group>, e0: seq<bool>, e1: seq<bool>)
    requires |e0| == |e1| == |gs|
  {
    forall c | 0 <= c < |gs| :: Parent(gs, c) != -1 && IsNew(e0, e1, Parent(gs, c)) ==> e1[c]
  }

  lemma ReachesSelf(gs: seq<Group>, m: nat)
    requires m < |gs|
    ensures Reaches(gs, m, m)
  {
    assert Up(gs, m, 0) == m;
  }

  lemma ReachesParent(gs: seq<Group>, m: nat, c: nat, p: nat)
    requires m < |gs| && c < |gs| && Reaches(gs, m, c) && Parent(gs, c) == p
    ensures Reaches(gs, m, p)
  {
    hide Parent;
    var k: nat :| Up(gs, m, k) == c;
    assert Up(gs, m, k + 1) == p;
  }

  /** All that the visits of one group's remaining children promise. */
  ghost predicate ChildrenDone(gs: seq<Group>, tops: set<nat>, e: seq<bool>, r: Emission, p: nat, i: nat)
    requires |e| == |gs| == |r.emitted| && p < |gs| && i <= |gs|
  {
    && Led(gs, r.emitted, tops)
    && MatchesAll(gs, tops, r.emitted, r.slots, Children(gs, p, i))
    && NewUnder(gs, e, r.emitted, p)
    && Closed(gs, e, r.emitted)
    && forall c | i <= c < |gs| :: Parent(gs, c) == p ==> r.emitted[c]
  }

  ghost predicate VisitDone(gs: seq<Group>, tops: set<nat>, e: seq<bool>, r: Visited, i: nat)
    requires |e| == |gs| == |r.emitted| && i < |gs|
  {
    && Led(gs, r.emitted, tops)
    && r.slot.Node? && r.slot.index == i && Matches(gs, tops, r.emitted, r.slot)
    && NewFrom(gs, e, r.emitted, i)
    && Closed(gs, e, r.emitted)
  }

  lemma MarkLed(gs: seq<Group>, e: seq<bool>, i: nat, tops: set<nat>)
    requires |e| == |gs| && i < |gs| && !e[i] && Led(gs, e, tops)
    requires forall m | m in tops :: m == i || (m < |gs| && e[m])
    requires i in tops || (Parent(gs, i) != -1 && e[Parent(gs, i)])
    ensures Led(gs, e[i := true], tops) && Out(e[i := true], tops) && Waiting(gs, e[i := true], tops, i, 0)
  {
    hide Parent;
  }

  lemma NodeDone(gs: seq<Group>, tops: set<nat>, e: seq<bool>, i: nat, r: Emission)
    requires |e| == |gs| == |r.emitted| && i < |gs| && !e[i] && Grown(e[i := true], r.emitted)
    requires ChildrenDone(gs, tops, e[i := true], r, i, 0)
    ensures VisitDone(gs, tops, e, Visited(Node(i, r.slots), r.emitted), i)
  {
    hide Parent, MatchesAll, Children, Reaches;
    ReachesSelf(gs, i);
  }

  lemma AfterFirst(gs: seq<Group>, tops: set<nat>, e: seq<bool>, first: Visited, p: nat, i: nat)
    requires |e| == |gs| == |first.emitted| && p < |gs| && i < |gs| && Parent(gs, i) == p && e[p]
    requires Grown(e, first.emitted) && Out(e, tops) && Waiting(gs, e, tops, p, i)
    requires VisitDone(gs, tops, e, first, i)
    ensures first.emitted[p] && Out(first.emitted, tops) && Waiting(gs, first.emitted, tops, p, i + 1)
  {
    hide Parent, Matches, Led, Closed;
  }

  lemma JoinNew(gs: seq<Group>, e: seq<bool>, mid: seq<bool>, end: seq<bool>, p: nat, i: nat)
    requires |e| == |gs| == |mid| == |end| && p < |gs| && i < |gs| && Parent(gs, i) == p
    requires Grown(e, mid) && Grown(mid, end)
    requires NewFrom(gs, e, mid, i) && NewUnder(gs, mid, end, p)
    ensures NewUnder(gs, e, end, p)
  {
    hide Parent, Reaches;
    forall m | 0 <= m < |gs| && IsNew(e, end, m)
      ensures Parent(gs, m) != -1 && (Parent(gs, m) == p || IsNew(e, end, Parent(gs, m))) && Reaches(gs, m, p) {
      if mid[m] {
        assert IsNew(e, mid, m);
        ReachesParent(gs, m, i, p);
      } else {
        assert IsNew(mid, end, m);
      }
    }
  }

  lemma JoinClosed(gs: seq<Group>, e: seq<bool>, mid: seq<bool>, end: seq<bool>)
    requires |e| == |gs| == |mid| == |end| && Grown(e, mid) && Grown(mid, end)
    requires Closed(gs, e, mid) && Closed(gs, mid, end)
    ensures Closed(gs, e, end)
  {
    hide Parent;
    forall c | 0 <= c < |gs| && Parent(gs, c) != -1 && IsNew(e, end, Parent(gs, c)) ensures end[c] {
      if mid[Parent(gs, c)] {
        assert IsNew(e, mid, Parent(gs, c));
      } else {
        assert IsNew(mid, end, Parent(gs, c));
      }
    }
  }

  lemma JoinChildren(gs: seq<Group>, tops: set<nat>, e: seq<bool>, first: Visited, rest: Emission, p: nat, i: nat)
    requires |e| == |gs| == |first.emitted| == |rest.emitted| && p < |gs| && i < |gs|
    requires IsChild(gs, i, p) && Parent(gs, i) == p && i !in tops && first.emitted[i]
    requires Grown(e, first.emitted) && Grown(first.emitted, rest.emitted)
    requires VisitDone(gs, tops, e, first, i) && ChildrenDone(gs, tops, first.emitted, rest, p, i + 1)
    ensures ChildrenDone(gs, tops, e, Emission([first.slot] + rest.slots, rest.emitted), p, i)
  {
    hide Parent, Matches, MatchesAll, Led, Closed, NewUnder, NewFrom, IsChild;
    JoinNew(gs, e, first.emitted, rest.emitted, p, i);
    JoinClosed(gs, e, first.emitted, rest.emitted);
    MatchesLater(gs, tops, tops, first.emitted, rest.emitted, first.slot);
    MatchesCons(gs, tops, rest.emitted, first.slot, rest.slots, i, Children(gs, p, i + 1));
  }

  lemma SkipChild(gs: seq<Group>, tops: set<nat>, e: seq<bool>, rest: Emission, p: nat, i: nat)
    requires |e| == |gs| == |rest.emitted| && p < |gs| && i < |gs| && e[i] && i in tops
    requires IsChild(gs, i, p) && Grown(e, rest.emitted) && ChildrenDone(gs, tops, e, rest, p, i + 1)
    ensures ChildrenDone(gs, tops, e, Emission([Hole] + rest.slots, rest.emitted), p, i)
  {
    hide Parent, Matches, MatchesAll, Led, Closed, NewUnder, IsChild;
    MatchesCons(gs, tops, rest.emitted, Hole, rest.slots, i, Children(gs, p, i + 1));
  }

  lemma {:induction false} VisitFacts(gs: seq<Group>, e: seq<bool>, i: nat, tops: set<nat>)
    requires |e| == |gs| && i < |gs| && !e[i] && DistinctIds(gs)
    requires Led(gs, e, tops) && (forall m | m in tops :: m == i || (m < |gs| && e[m]))
    requires i in tops || (Parent(gs, i) != -1 && e[Parent(gs, i)])
    ensures VisitDone(gs, tops, e, Visit(gs, e, i), i)
    decreases |gs| - Count(e), 0
  {
    hide VisitChildren, Parent, ChildrenDone, VisitDone, Led, Waiting, DistinctIds;
    CountMark(e, i);
    MarkLed(gs, e, i, tops);
    ChildrenFacts(gs, e[i := true], i, 0, tops);
    NodeDone(gs, tops, e, i, VisitChildren(gs, e[i := true], i, 0));
  }

  lemma {:induction false} ChildrenFacts(gs: seq<Group>, e: seq<bool>, p: nat, i: nat, tops: set<nat>)
    requires |e| == |gs| && p < |gs| && i <= |gs| && e[p] && DistinctIds(gs)
    requires Led(gs, e, tops) && Out(e, tops) && Waiting(gs, e, tops, p, i)
    ensures ChildrenDone(gs, tops, e, VisitChildren(gs, e, p, i), p, i)
    decreases |gs| - Count(e), |gs| - i + 1
  {
    hide Visit, Parent, VisitDone, Led, DistinctIds, Count, IsChild, MatchesAll, NewUnder, Closed, ChildrenDone;
    if i == |gs| {
      NoChildren(gs, tops, e, p);
    } else {
      ChildByName(gs, i, p);
      if !IsChild(gs, i, p) {
        ChildrenFacts(gs, e, p, i + 1, tops);
        NotAChild(gs, tops, e, VisitChildren(gs, e, p, i + 1), p, i);
      } else if e[i] {
        VisitStep(gs, e, i);
        ChildrenFacts(gs, e, p, i + 1, tops);
        SkipChild(gs, tops, e, VisitChildren(gs, e, p, i + 1), p, i);
      } else {
        var first := Visit(gs, e, i);
        CountMonotone(e, first.emitted);
        VisitFacts(gs, e, i, tops);
        AfterFirst(gs, tops, e, first, p, i);
        LedAfter(gs, tops, e, first, i);
        ChildrenFacts(gs, first.emitted, p, i + 1, tops);
        JoinChildren(gs, tops, e, first, VisitChildren(gs, first.emitted, p, i + 1), p, i);
      }
    }
  }

  lemma LedAfter(gs: seq<Group>, tops: set<nat>, e: seq<bool>, r: Visited, i: nat)
    requires |e| == |gs| == |r.emitted| && i < |gs| && VisitDone(gs, tops, e, r, i)
    ensures Led(gs, r.emitted, tops)
  {
    hide Parent, Led, Matches, NewFrom, Closed;
  }

  lemma NoChildren(gs: seq<Group>, tops: set<nat>, e: seq<bool>, p: nat)
    requires |e| == |gs| && p < |gs| && Led(gs, e, tops)
    ensures ChildrenDone(gs, tops, e, Emission([], e), p, |gs|)
  {
    hide Parent, Led;
  }

  lemma NotAChild(gs: seq<Group>, tops: set<nat>, e: seq<bool>, rest: Emission, p: nat, i: nat)
    requires |e| == |gs| == |rest.emitted| && p < |gs| && i < |gs| && !IsChild(gs, i, p) && Parent(gs, i) != p
    requires ChildrenDone(gs, tops, e, rest, p, i + 1)
    ensures ChildrenDone(gs, tops, e, rest, p, i)
  {
    hide Parent, MatchesAll, Led, Closed, NewUnder, IsChild;
  }
}
