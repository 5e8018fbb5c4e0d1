/** What a listing looks like when ids are distinct: which groups stand at the top, where holes are left, and
    exactly when its text is well-formed. */
module GroupForest {
  import opened Groups
  import opened GroupText
  import opened GroupListing

  /** The groups that are started at the top: those without a parent among the others and, on a chain that
      never reaches such a group, those that no ancestor precedes in the list. */
  ghost predicate Leader(gs: seq<Group>, i: nat)
    requires i < |gs|
  {
    Special(gs, i) || forall k: nat :: LeadsAt(gs, i, k)
  }

  predicate LeadsAt(gs: seq<Group>, i: nat, k: nat)
    requires i < |gs|
  {
    Up(gs, i, k) != -1 && !Special(gs, Up(gs, i, k)) && i <= Up(gs, i, k)
  }

  // ----- between the visits at the top -------------------------------------------------------------

  /** Everything out leads up to a group started at the top. */
  ghost predicate Rooted(gs: seq<Group>, e: seq<bool>, tops: set<nat>)
    requires |e| == |gs|
  {
    forall m | 0 <= m < |gs| && e[m] :: exists t :: t in tops && Reaches(gs, m, t)
  }

  /** Everything below something out is out. */
  predicate DownClosed(gs: seq<Group>, e: seq<bool>)
    requires |e| == |gs|
  {
    forall c | 0 <= c < |gs| :: Parent(gs, c) != -1 && e[Parent(gs, c)] ==> e[c]
  }

  ghost predicate Top(gs: seq<Group>, e: seq<bool>, tops: set<nat>)
  {
    |e| == |gs| && Led(gs, e, tops) && Out(e, tops) && DownClosed(gs, e) && Rooted(gs, e, tops)
  }

  predicate SlotOk(gs: seq<Group>, tops: set<nat>, e: seq<bool>, s: Slot)
    requires |e| == |gs|
  {
    s.Node? && s.index in tops && Matches(gs, tops, e, s)
  }

  predicate SlotsOk(gs: seq<Group>, tops: set<nat>, e: seq<bool>, ss: seq<Slot>)
    requires |e| == |gs|
  {
    forall k | 0 <= k < |ss| :: SlotOk(gs, tops, e, ss[k])
  }

  lemma SlotsLater(gs: seq<Group>, tops: set<nat>, tops': set<nat>, e: seq<bool>, e': seq<bool>, ss: seq<Slot>)
    requires |e| == |gs| == |e'| && SlotsOk(gs, tops, e, ss) && Later(e, e', tops, tops')
    ensures SlotsOk(gs, tops', e', ss)
  {
    hide Matches;
    forall k | 0 <= k < |ss| ensures SlotOk(gs, tops', e', ss[k]) {
      assert SlotOk(gs, tops, e, ss[k]);
      MatchesLater(gs, tops, tops', e, e', ss[k]);
    }
  }

  lemma SlotsCons(gs: seq<Group>, tops: set<nat>, e: seq<bool>, s: Slot, ss: seq<Slot>)
    requires |e| == |gs| && SlotOk(gs, tops, e, s) && SlotsOk(gs, tops, e, ss)
    ensures SlotsOk(gs, tops, e, [s] + ss)
  {
    hide SlotOk;
  }

  lemma {:induction false} SpecialAlone(gs: seq<Group>, m: nat, k: nat)
    requires m < |gs| && Special(gs, m)
    ensures Up(gs, m, k) == m || Up(gs, m, k) == -1
  {
    if k > 0 {
      SpecialAlone(gs, m, k - 1);
    }
  }

  lemma LeaderLeads(gs: seq<Group>, m: nat, k: nat)
    requires m < |gs| && Leader(gs, m) && !Special(gs, m)
    ensures LeadsAt(gs, m, k)
  {
  }

  /** A group that will be started at the top is not out before its turn. */
  lemma LeaderWaits(gs: seq<Group>, e: seq<bool>, tops: set<nat>, m: nat, i: nat)
    requires Top(gs, e, tops) && m < |gs| && Leader(gs, m) && m !in tops && i <= m
    requires forall t | t in tops :: t < |gs| && (Special(gs, t) || t < i)
    ensures !e[m]
  {
    hide Special, Led, DownClosed, Out, Up;
    if e[m] {
      var t :| t in tops && Reaches(gs, m, t);
      var k: nat :| Up(gs, m, k) == t;
      if Special(gs, m) {
        SpecialAlone(gs, m, k);
      } else {
        LeaderLeads(gs, m, k);
      }
    }
  }

  lemma TopVisit(gs: seq<Group>, e: seq<bool>, tops: set<nat>, i: nat)
    requires Top(gs, e, tops) && i < |gs| && !e[i] && DistinctIds(gs)
    ensures var r := Visit(gs, e, i);
            Top(gs, r.emitted, tops + {i}) && SlotOk(gs, tops + {i}, r.emitted, r.slot)
  {
    hide Visit, Parent, DistinctIds, Matches, NewFrom, Reaches;
    var tops', r := tops + {i}, Visit(gs, e, i);
    assert Led(gs, e, tops');
    VisitFacts(gs, e, i, tops');
    TopGrows(gs, e, tops, r, i);
  }

  lemma TopGrows(gs: seq<Group>, e: seq<bool>, tops: set<nat>, r: Visited, i: nat)
    requires Top(gs, e, tops) && i < |gs| && !e[i] && |r.emitted| == |gs|
    requires Grown(e, r.emitted) && r.emitted[i] && VisitDone(gs, tops + {i}, e, r, i)
    ensures Top(gs, r.emitted, tops + {i})
  {
    hide Parent, Matches, Reaches, Led, Rooted, DownClosed, NewFrom, Closed;
    ClosedGrows(gs, e, r.emitted);
    RootedGrows(gs, e, tops, r.emitted, i);
  }

  lemma ClosedGrows(gs: seq<Group>, e: seq<bool>, e': seq<bool>)
    requires |e| == |gs| == |e'| && Grown(e, e') && DownClosed(gs, e) && Closed(gs, e, e')
    ensures DownClosed(gs, e')
  {
    hide Parent;
    forall c | 0 <= c < |gs| && Parent(gs, c) != -1 && e'[Parent(gs, c)] ensures e'[c] {
      assert e[Parent(gs, c)] || IsNew(e, e', Parent(gs, c));
    }
  }

  lemma RootedGrows(gs: seq<Group>, e: seq<bool>, tops: set<nat>, e': seq<bool>, i: nat)
    requires |e| == |gs| == |e'| && i < |gs| && Rooted(gs, e, tops) && NewFrom(gs, e, e', i)
    ensures Rooted(gs, e', tops + {i})
  {
    hide Parent, Reaches;
    forall m | 0 <= m < |gs| && e'[m] ensures exists t :: t in tops + {i} && Reaches(gs, m, t) {
      if e[m] {
        var t :| t in tops && Reaches(gs, m, t);
        assert t in tops + {i};
      } else {
        assert IsNew(e, e', m);
        assert i in tops + {i};
      }
    }
  }

  lemma NothingOut(gs: seq<Group>)
    ensures Top(gs, NoMarks(|gs|), {})
  {
    hide Parent;
  }

  // ----- both passes -------------------------------------------------------------------------------

  ghost function Specials(gs: seq<Group>, i: nat): set<nat>
  {
    set m | i <= m < |gs| && Special(gs, m)
  }

  ghost function Leaders(gs: seq<Group>, n: nat): set<nat>
  {
    set m | 0 <= m < |gs| && Leader(gs, m) && (Special(gs, m) || m < n)
  }

  lemma {:induction false} RootsFacts(gs: seq<Group>, e: seq<bool>, i: nat, tops: set<nat>)
    requires Top(gs, e, tops) && i <= |gs| && DistinctIds(gs) && (forall t | t in tops :: t < i && Special(gs, t))
    ensures var r, all := VisitRoots(gs, e, i), tops + Specials(gs, i);
            Top(gs, r.emitted, all) && SlotsOk(gs, all, r.emitted, r.slots)
    decreases |gs| - i
  {
    hide Visit, DistinctIds, Top, SlotOk, Special;
    if i == |gs| {
      assert tops + Specials(gs, i) == tops;
    } else if !Special(gs, i) {
      assert Specials(gs, i) == Specials(gs, i + 1);
      RootsFacts(gs, e, i + 1, tops);
    } else {
      LeaderWaits(gs, e, tops, i, i) by { TopShape(gs, e, tops); }
      TopShape(gs, e, tops);
      var first := Visit(gs, e, i);
      TopVisit(gs, e, tops, i);
      RootsFacts(gs, first.emitted, i + 1, tops + {i});
      assert tops + Specials(gs, i) == tops + {i} + Specials(gs, i + 1);
      var rest := VisitRoots(gs, first.emitted, i + 1);
      RootLater(gs, first.emitted, rest.emitted, tops + {i}, i + 1);
      OneLater(gs, tops + {i}, tops + Specials(gs, i), first.emitted, rest.emitted, first.slot);
      SlotsCons(gs, tops + Specials(gs, i), rest.emitted, first.slot, rest.slots);
    }
  }

  lemma TopShape(gs: seq<Group>, e: seq<bool>, tops: set<nat>)
    requires Top(gs, e, tops)
    ensures |e| == |gs|
  {
  }

  lemma OneLater(gs: seq<Group>, tops: set<nat>, tops': set<nat>, e: seq<bool>, e': seq<bool>, s: Slot)
    requires |e| == |gs| == |e'| && SlotOk(gs, tops, e, s) && Later(e, e', tops, tops')
    ensures SlotOk(gs, tops', e', s)
  {
    hide Matches;
    MatchesLater(gs, tops, tops', e, e', s);
  }

  lemma RootLater(gs: seq<Group>, e: seq<bool>, e': seq<bool>, tops: set<nat>, i: nat)
    requires Top(gs, e, tops) && Grown(e, e') && i <= |gs| && (forall t | t in tops :: t < i && Special(gs, t))
    ensures Later(e, e', tops, tops + Specials(gs, i))
  {
    hide Top, Special;
    TopShape(gs, e, tops);
    forall m | m in tops + Specials(gs, i) && m !in tops ensures m < |e| && !e[m] {
      LeaderWaits(gs, e, tops, m, i);
    }
  }

  lemma {:induction false} UnmetChain(gs: seq<Group>, e: seq<bool>, i: nat, k: nat)
    requires |e| == |gs| && i < |gs| && !e[i] && DownClosed(gs, e)
    requires forall m | 0 <= m < |gs| :: Special(gs, m) ==> e[m]
    ensures Up(gs, i, k) != -1 && !e[Up(gs, i, k)]
  {
    hide Parent;
    if k > 0 {
      UnmetChain(gs, e, i, k - 1);
      var a := Up(gs, i, k - 1);
      assert !Special(gs, a);
    }
  }

  /** A group found missing by the second pass leads its chain. */
  lemma MissingLeads(gs: seq<Group>, e: seq<bool>, i: nat)
    requires |e| == |gs| && i < |gs| && !e[i] && DownClosed(gs, e)
    requires forall m | 0 <= m < |gs| :: Special(gs, m) || m < i ==> e[m]
    ensures Leader(gs, i)
  {
    hide Up, Special, DownClosed;
    forall k: nat ensures LeadsAt(gs, i, k) {
      UnmetChain(gs, e, i, k);
    }
  }

  lemma {:induction false} RestFacts(gs: seq<Group>, e: seq<bool>, i: nat)
    requires Top(gs, e, Leaders(gs, i)) && i <= |gs| && DistinctIds(gs)
    requires forall m | 0 <= m < |gs| :: Special(gs, m) || m < i ==> e[m]
    ensures var r, all := VisitRest(gs, e, i), Leaders(gs, |gs|);
            Top(gs, r.emitted, all) && SlotsOk(gs, all, r.emitted, r.slots)
    decreases |gs| - i
  {
    hide Visit, DistinctIds, Top, SlotOk, Special, Leader;
    if i < |gs| {
      TopShape(gs, e, Leaders(gs, i));
      if e[i] {
        OutLeader(gs, e, i);
        RestFacts(gs, e, i + 1);
      } else {
        TopClosed(gs, e, Leaders(gs, i));
        MissingLeads(gs, e, i);
        assert Leaders(gs, i + 1) == Leaders(gs, i) + {i};
        var first := Visit(gs, e, i);
        TopVisit(gs, e, Leaders(gs, i), i);
        RestFacts(gs, first.emitted, i + 1);
        var rest := VisitRest(gs, first.emitted, i + 1);
        RestLater(gs, first.emitted, rest.emitted, i + 1);
        OneLater(gs, Leaders(gs, i + 1), Leaders(gs, |gs|), first.emitted, rest.emitted, first.slot);
        SlotsCons(gs, Leaders(gs, |gs|), rest.emitted, first.slot, rest.slots);
      }
    }
  }

  lemma TopClosed(gs: seq<Group>, e: seq<bool>, tops: set<nat>)
    requires Top(gs, e, tops)
    ensures |e| == |gs| && DownClosed(gs, e)
  {
    hide Led, DownClosed, Out, Rooted;
  }

  lemma OutLeader(gs: seq<Group>, e: seq<bool>, i: nat)
    requires Top(gs, e, Leaders(gs, i)) && i < |gs| && |e| == |gs| && e[i]
    ensures Leaders(gs, i + 1) == Leaders(gs, i)
  {
    hide Top, Special, Leader;
    if Leader(gs, i) && i !in Leaders(gs, i) {
      LeaderWaits(gs, e, Leaders(gs, i), i, i);
    }
  }

  lemma RestLater(gs: seq<Group>, e: seq<bool>, e': seq<bool>, i: nat)
    requires Top(gs, e, Leaders(gs, i)) && Grown(e, e') && i <= |gs|
    ensures Later(e, e', Leaders(gs, i), Leaders(gs, |gs|))
  {
    hide Top, Special, Leader;
    TopShape(gs, e, Leaders(gs, i));
    forall m | m in Leaders(gs, |gs|) && m !in Leaders(gs, i) ensures m < |e| && !e[m] {
      LeaderWaits(gs, e, Leaders(gs, i), m, i);
    }
  }

  lemma FirstPass(gs: seq<Group>)
    ensures Specials(gs, 0) == Leaders(gs, 0)
  {
  }

  /** With distinct ids the leaders stand at the top, and below every node its children in order: a hole for
      each leader, a node for every other. */
  lemma ListingMatches(gs: seq<Group>) returns (e: seq<bool>)
    requires DistinctIds(gs)
    ensures |e| == |gs| && SlotsOk(gs, Leaders(gs, |gs|), e, Listing(gs))
  {
    hide VisitRoots, VisitRest, DistinctIds, SlotOk, Leader, Special, Leaders, Specials;
    var none, tops, all := NoMarks(|gs|), Leaders(gs, 0), Leaders(gs, |gs|);
    NothingOut(gs);
    RootsFacts(gs, none, 0, {});
    var roots := VisitRoots(gs, none, 0);
    FirstPass(gs);
    assert {} + Specials(gs, 0) == tops;
    SpecialsOut(gs, roots.emitted);
    RestFacts(gs, roots.emitted, 0);
    var rest := VisitRest(gs, roots.emitted, 0);
    RestLater(gs, roots.emitted, rest.emitted, 0);
    SlotsLater(gs, tops, all, roots.emitted, rest.emitted, roots.slots);
    e := rest.emitted;
    SlotsJoin(gs, all, e, roots.slots, rest.slots);
  }

  lemma SpecialsOut(gs: seq<Group>, e: seq<bool>)
    requires Top(gs, e, Leaders(gs, 0))
    ensures |e| == |gs| && forall m | 0 <= m < |gs| :: Special(gs, m) ==> e[m]
  {
    hide Special, Led, DownClosed, Rooted;
    forall m | 0 <= m < |gs| && Special(gs, m) ensures e[m] {
      assert Leader(gs, m);
      assert m in Leaders(gs, 0);
    }
  }

  lemma SlotsJoin(gs: seq<Group>, tops: set<nat>, e: seq<bool>, a: seq<Slot>, b: seq<Slot>)
    requires |e| == |gs| && SlotsOk(gs, tops, e, a) && SlotsOk(gs, tops, e, b)
    ensures SlotsOk(gs, tops, e, a + b)
  {
    hide SlotOk;
  }

  // ----- the groups at the top, in order -----------------------------------------------------------

  /** The group has no parent or is its own, or its chain runs forever without meeting such a group and no group
      on it stands before this one. */
  ghost predicate AtTop(gs: seq<Group>, i: nat)
    requires i < |gs|
  {
    || Parent(gs, i) == -1
    || Parent(gs, i) == i
    || forall k: nat :: var a := Up(gs, i, k); a != -1 && Parent(gs, a) != -1 && Parent(gs, a) != a && i <= a
  }

  /** Groups without a parent but themselves come first; otherwise the order is that of the list. */
  predicate Before(gs: seq<Group>, i: nat, j: nat)
    requires i < |gs| && j < |gs|
  {
    var p, q := Parent(gs, i) == -1 || Parent(gs, i) == i, Parent(gs, j) == -1 || Parent(gs, j) == j;
    if p == q then i < j else p
  }

  predicate Ascending(ss: seq<Slot>, from: nat, n: nat)
  {
    && (forall a | 0 <= a < |ss| && ss[a].Node? :: from <= ss[a].index < n)
    && forall a, b | 0 <= a < b < |ss| && ss[a].Node? && ss[b].Node? :: ss[a].index < ss[b].index
  }

  lemma AscendingCons(s: Slot, ss: seq<Slot>, from: nat, n: nat)
    requires Ascending(ss, from + 1, n) && from < n && (s.Node? ==> s.index == from)
    ensures Ascending([s] + ss, from, n)
  {
  }

  lemma VisitIndex(gs: seq<Group>, e: seq<bool>, i: nat)
    requires |e| == |gs| && i < |gs|
    ensures var s := Visit(gs, e, i).slot; s.Node? ==> s.index == i
  {
  }

  lemma {:induction false} RootsOrder(gs: seq<Group>, e: seq<bool>, i: nat)
    requires |e| == |gs| && i <= |gs|
    ensures var r := VisitRoots(gs, e, i);
            && Ascending(r.slots, i, |gs|)
            && (forall a | 0 <= a < |r.slots| && r.slots[a].Node? :: Special(gs, r.slots[a].index))
            && forall m | i <= m < |gs| && Special(gs, m) :: r.emitted[m]
    decreases |gs| - i
  {
    hide Visit, Special;
    if i < |gs| {
      if Special(gs, i) {
        var first := Visit(gs, e, i);
        VisitIndex(gs, e, i);
        RootsOrder(gs, first.emitted, i + 1);
        AscendingCons(first.slot, VisitRoots(gs, first.emitted, i + 1).slots, i, |gs|);
      } else {
        RootsOrder(gs, e, i + 1);
      }
    }
  }

  lemma {:induction false} RestOrder(gs: seq<Group>, e: seq<bool>, i: nat)
    requires |e| == |gs| && i <= |gs|
    ensures var r := VisitRest(gs, e, i);
            Ascending(r.slots, i, |gs|) && forall a | 0 <= a < |r.slots| && r.slots[a].Node? :: !e[r.slots[a].index]
    decreases |gs| - i
  {
    hide Visit;
    if i < |gs| {
      if e[i] {
        RestOrder(gs, e, i + 1);
      } else {
        var first := Visit(gs, e, i);
        VisitIndex(gs, e, i);
        RestOrder(gs, first.emitted, i + 1);
        AscendingCons(first.slot, VisitRest(gs, first.emitted, i + 1).slots, i, |gs|);
      }
    }
  }

  lemma TopsInOrder(gs: seq<Group>)
    ensures var ss := Listing(gs);
            && (forall a | 0 <= a < |ss| && ss[a].Node? :: ss[a].index < |gs|)
            && forall a, b | 0 <= a < b < |ss| && ss[a].Node? && ss[b].Node? :: Before(gs, ss[a].index, ss[b].index)
  {
    hide VisitRoots, VisitRest, Parent;
    var roots := VisitRoots(gs, NoMarks(|gs|), 0);
    RootsOrder(gs, NoMarks(|gs|), 0);
    RestOrder(gs, roots.emitted, 0);
  }

  /** A group started at the top is opened nowhere below it. */
  lemma {:induction false} OpenedAtTop(gs: seq<Group>, tops: set<nat>, e: seq<bool>, s: Slot, i: nat)
    requires |e| == |gs| && Matches(gs, tops, e, s) && i in tops && Opened(Text(s), i) > 0
    ensures s.Node? && s.index == i
    decreases s
  {
    hide Opened, Text, TextAll, Children;
    HoleText();
    OpenedNothing(Hole, i);
    OpenedNode(s.index, s.slots, i);
    if s.index != i {
      var k := OpenedSomewhere(s.slots, i);
      OpenedAtTop(gs, tops, e, s.slots[k], i);
      assert false;
    }
  }

  lemma LeaderAtTop(gs: seq<Group>, i: nat)
    requires i < |gs|
    ensures AtTop(gs, i) <==> Leader(gs, i)
  {
    hide Parent, Up;
    if AtTop(gs, i) && !Special(gs, i) {
      forall k: nat ensures LeadsAt(gs, i, k) {
        var a := Up(gs, i, k);
        assert a != -1 && Parent(gs, a) != -1 && Parent(gs, a) != a && i <= a;
      }
    }
    if Leader(gs, i) && !Special(gs, i) {
      forall k: nat
        ensures var a := Up(gs, i, k); a != -1 && Parent(gs, a) != -1 && Parent(gs, a) != a && i <= a {
        assert LeadsAt(gs, i, k);
      }
    }
  }

  predicate Heads(ss: seq<Slot>, i: nat, k: nat)
  {
    k < |ss| && ss[k].Node? && ss[k].index == i
  }

  /** With distinct ids the listing is led by exactly the groups that belong at the top: first, in list order,
      those without a parent but themselves, then, in list order, one for each cycle that is left. */
  lemma TopsAreExact(gs: seq<Group>, i: nat)
    requires DistinctIds(gs) && i < |gs|
    ensures AtTop(gs, i) <==> exists k :: Heads(Listing(gs), i, k)
    ensures var ss := Listing(gs);
            && (forall a | 0 <= a < |ss| :: ss[a].Node? && ss[a].index < |gs|)
            && forall a, b | 0 <= a < b < |ss| :: Before(gs, ss[a].index, ss[b].index)
  {
    hide DistinctIds, Listing, TextAll, Text, Opened, Matches, AtTop, Before, Leader, Special;
    var e := ListingMatches(gs);
    var ss, tops := Listing(gs), Leaders(gs, |gs|);
    LeaderAtTop(gs, i);
    TopsInOrder(gs);
    forall a | 0 <= a < |ss| ensures ss[a].Node? && ss[a].index in tops {
      assert SlotOk(gs, tops, e, ss[a]);
    }
    if AtTop(gs, i) {
      EveryGroupOnce(gs, i);
      var k := OpenedSomewhere(ss, i);
      assert SlotOk(gs, tops, e, ss[k]);
      OpenedAtTop(gs, tops, e, ss[k], i);
      assert Heads(ss, i, k);
    }
  }

  /** The children of a group are those that name its id as their parent, in list order. */
  lemma {:induction false} ChildrenAre(gs: seq<Group>, p: nat, i: nat)
    requires p < |gs| && i <= |gs|
    ensures var cs := Children(gs, p, i);
            && (forall c :: c in cs <==> i <= c < |gs| && gs[c].parentId != "" && gs[c].parentId == gs[p].id)
            && forall a, b | 0 <= a < b < |cs| :: cs[a] < cs[b]
    decreases |gs| - i
  {
    if i < |gs| {
      ChildrenAre(gs, p, i + 1);
    }
  }

  // ----- well-formed listings ----------------------------------------------------------------------

  /** Every leader that has a parent is that parent's only child. */
  ghost predicate OnlyChildren(gs: seq<Group>, tops: set<nat>)
  {
    forall i | i in tops && i < |gs| && Parent(gs, i) != -1 :: Children(gs, Parent(gs, i), 0) == [i]
  }

  lemma {:induction false} MatchesOrderly(gs: seq<Group>, tops: set<nat>, e: seq<bool>, s: Slot)
    requires |e| == |gs| && DistinctIds(gs) && Matches(gs, tops, e, s) && OnlyChildren(gs, tops)
    ensures Orderly(s)
    decreases s
  {
    hide DistinctIds, Parent, IsChild, Children, OnlyChildren;
    if s.Node? {
      var cs := Children(gs, s.index, 0);
      forall k | 0 <= k < |s.slots| ensures Orderly(s.slots[k]) && (|s.slots| > 1 ==> s.slots[k].Node?) {
        if s.slots[k].Node? {
          MatchesOrderly(gs, tops, e, s.slots[k]);
        } else {
          ChildByName(gs, cs[k], s.index);
          OnlyChild(gs, tops, cs[k]);
        }
      }
    }
  }

  lemma OnlyChild(gs: seq<Group>, tops: set<nat>, i: nat)
    requires OnlyChildren(gs, tops) && i in tops && i < |gs| && Parent(gs, i) != -1
    ensures |Children(gs, Parent(gs, i), 0)| == 1
  {
    hide Parent, Children;
  }

  lemma {:induction false} OpenedSomewhere(ss: seq<Slot>, m: nat) returns (k: nat)
    requires Opened(TextAll(ss), m) > 0
    ensures k < |ss| && Opened(Text(ss[k]), m) > 0
    decreases |ss|
  {
    hide Opened, Text, TextAll;
    OpenedNothing(Hole, m);
    assert ss != [];
    var init, last := ss[..|ss| - 1], ss[|ss| - 1];
    assert ss == init + [last];
    OpenedSnoc(init, last, m);
    if Opened(Text(last), m) > 0 {
      k := |ss| - 1;
    } else {
      k := OpenedSomewhere(init, m);
    }
  }

  lemma {:induction false} OrderlyNode(gs: seq<Group>, tops: set<nat>, e: seq<bool>, s: Slot, i: nat)
    requires |e| == |gs| && DistinctIds(gs) && Matches(gs, tops, e, s) && Orderly(s)
    requires i in tops && i < |gs| && Parent(gs, i) != -1 && Opened(Text(s), Parent(gs, i)) > 0
    ensures Children(gs, Parent(gs, i), 0) == [i]
    decreases s
  {
    hide DistinctIds, Parent, IsChild, Opened, Text, TextAll, Children;
    var p := Parent(gs, i);
    HoleText();
    OpenedNothing(Hole, p);
    OpenedNode(s.index, s.slots, p);
    if s.index == p {
      ChildByName(gs, i, p);
      ChildListed(gs, p, 0, i);
      var cs := Children(gs, p, 0);
      var k :| 0 <= k < |cs| && cs[k] == i;
      assert s.slots[k] == Hole && s.slots[k] in s.slots;
      assert cs == [i];
    } else {
      var k := OpenedSomewhere(s.slots, p);
      OrderlyNode(gs, tops, e, s.slots[k], i);
    }
  }

  /** With distinct ids, whatever cycles the parents form: the listing is well-formed if and only if every
      group started at the top that has a parent is its parent's only child. */
  lemma WellFormedIffOnlyChildren(gs: seq<Group>)
    requires DistinctIds(gs)
    ensures WellFormed(TextAll(Listing(gs))) <==> OnlyChildren(gs, Leaders(gs, |gs|))
  {
    hide DistinctIds, Listing, TextAll, Text, Opened, WellFormed, Leaders, Parent, Matches, Orderly, Children;
    var e := ListingMatches(gs);
    var ss, tops := Listing(gs), Leaders(gs, |gs|);
    ListingWellFormedIff(gs);
    if OnlyChildren(gs, tops) {
      forall k | 0 <= k < |ss| ensures Orderly(ss[k]) && ss[k] != Hole {
        assert SlotOk(gs, tops, e, ss[k]);
        MatchesOrderly(gs, tops, e, ss[k]);
      }
    }
    if OrderlyAll(ss) {
      forall i | i in tops && i < |gs| && Parent(gs, i) != -1 ensures Children(gs, Parent(gs, i), 0) == [i] {
        EveryGroupOnce(gs, Parent(gs, i));
        var k := OpenedSomewhere(ss, Parent(gs, i));
        assert SlotOk(gs, tops, e, ss[k]) && Orderly(ss[k]);
        OrderlyNode(gs, tops, e, ss[k], i);
      }
    }
  }

  // ----- nesting -----------------------------------------------------------------------------------

  /** Every node hangs under the group its parent id resolves to. */
  predicate Nested(gs: seq<Group>, t: Tree)
    decreases t, 1
  {
    t.index < |gs| && NestedUnder(gs, t.index, t.children)
  }

  predicate NestedUnder(gs: seq<Group>, parent: int, ts: seq<Tree>)
    decreases ts, 0
  {
    forall k | 0 <= k < |ts| :: Nested(gs, ts[k]) && Parent(gs, ts[k].index) == parent
  }

  lemma {:induction false} PrunedNested(gs: seq<Group>, tops: set<nat>, e: seq<bool>, s: Slot)
    requires |e| == |gs| && DistinctIds(gs) && s.Node? && Matches(gs, tops, e, s)
    ensures Nested(gs, Pruned(s))
    decreases s, 1
  {
    hide DistinctIds, Parent, IsChild, MatchesAll, PrunedAll, NestedUnder;
    PrunedAllNested(gs, tops, e, s.slots, Children(gs, s.index, 0), s.index);
  }

  lemma {:induction false} PrunedAllNested(
    gs: seq<Group>, tops: set<nat>, e: seq<bool>, ss: seq<Slot>, cs: seq<nat>, p: nat)
    requires |e| == |gs| && p < |gs| && DistinctIds(gs) && MatchesAll(gs, tops, e, ss, cs)
    requires forall k | 0 <= k < |cs| :: cs[k] < |gs| && IsChild(gs, cs[k], p)
    ensures NestedUnder(gs, p, PrunedAll(ss))
    decreases ss, 0
  {
    hide DistinctIds, Parent, IsChild, Matches, Nested, Pruned;
    if ss != [] {
      var n := |ss| - 1;
      PrunedAllNested(gs, tops, e, ss[..n], cs[..n], p);
      if ss[n].Node? {
        ChildByName(gs, cs[n], p);
        PrunedNested(gs, tops, e, ss[n]);
        PrunedIndex(ss[n]);
      }
    }
  }

  lemma PrunedIndex(s: Slot)
    requires s.Node?
    ensures Pruned(s).index == s.index
  {
  }

  /** The trees at the top stand for leaders. */
  ghost predicate LedForest(gs: seq<Group>, forest: seq<Tree>)
  {
    forall k | 0 <= k < |forest| :: Nested(gs, forest[k]) && forest[k].index < |gs| && Leader(gs, forest[k].index)
  }

  lemma {:induction false} PrunedLed(gs: seq<Group>, e: seq<bool>, ss: seq<Slot>)
    requires |e| == |gs| && DistinctIds(gs) && SlotsOk(gs, Leaders(gs, |gs|), e, ss)
    ensures LedForest(gs, PrunedAll(ss))
    decreases |ss|
  {
    hide DistinctIds, Leader, Matches, Nested, Pruned, Special;
    if ss != [] {
      var n := |ss| - 1;
      assert SlotOk(gs, Leaders(gs, |gs|), e, ss[n]);
      PrunedLed(gs, e, ss[..n]);
      PrunedNested(gs, Leaders(gs, |gs|), e, ss[n]);
      PrunedIndex(ss[n]);
    }
  }

  /** A well-formed listing is a forest in which every node but the leaders at the top hangs under its
      parent. */
  lemma ListingNests(gs: seq<Group>) returns (forest: seq<Tree>)
    requires DistinctIds(gs) && OnlyChildren(gs, Leaders(gs, |gs|))
    ensures TextAll(Listing(gs)) == PrintAll(forest) && LedForest(gs, forest)
  {
    hide DistinctIds, OnlyChildren, Listing, TextAll, PrintAll, PrunedAll, OrderlyAll, LedForest, SlotsOk, WellFormed;
    WellFormedIffOnlyChildren(gs);
    ListingWellFormedIff(gs);
    WellFormedIffOrderly(Listing(gs));
    var e := ListingMatches(gs);
    forest := PrunedAll(Listing(gs));
    PrunedLed(gs, e, Listing(gs));
  }

  // ----- chains that end, and self-parents ---------------------------------------------------------

  /** No parent chain runs forever. */
  ghost predicate Acyclic(gs: seq<Group>)
  {
    forall i | 0 <= i < |gs| :: ChainStops(gs, i)
  }

  ghost predicate ChainStops(gs: seq<Group>, i: int)
    requires 0 <= i < |gs|
  {
    exists k: nat :: Up(gs, i, k) == -1
  }

  lemma AcyclicLeaders(gs: seq<Group>, i: nat)
    requires Acyclic(gs) && i < |gs| && Leader(gs, i)
    ensures Parent(gs, i) == -1
  {
    hide Parent, Up;
    assert ChainStops(gs, i);
    var k: nat :| Up(gs, i, k) == -1;
    if Special(gs, i) {
      SelfParentStays(gs, i, k);
    } else {
      LeaderLeads(gs, i, k);
    }
  }

  lemma {:induction false} SelfParentStays(gs: seq<Group>, i: nat, k: nat)
    requires i < |gs|
    ensures Parent(gs, i) == i ==> Up(gs, i, k) == i
  {
    if k > 0 {
      SelfParentStays(gs, i, k - 1);
    }
  }

  /** With distinct ids and no cycles the listing is a well-formed forest in which every node hangs under its
      parent and the groups without a parent stand at the top. */
  lemma AcyclicListing(gs: seq<Group>) returns (forest: seq<Tree>)
    requires DistinctIds(gs) && Acyclic(gs)
    ensures TextAll(Listing(gs)) == PrintAll(forest) && NestedUnder(gs, -1, forest)
  {
    hide DistinctIds, Listing, TextAll, PrintAll, Acyclic, Leader, Parent, Children, Nested, Special;
    forall i | i in Leaders(gs, |gs|) && i < |gs| ensures Parent(gs, i) == -1 {
      AcyclicLeaders(gs, i);
    }
    forest := ListingNests(gs);
    forall k | 0 <= k < |forest| ensures Parent(gs, forest[k].index) == -1 {
      AcyclicLeaders(gs, forest[k].index);
    }
  }

  /** The only cycles are groups that are their own parents. */
  ghost predicate OnlySelfParents(gs: seq<Group>)
  {
    forall i | 0 <= i < |gs| :: ReachesSpecial(gs, i)
  }

  ghost predicate ReachesSpecial(gs: seq<Group>, i: nat)
    requires i < |gs|
  {
    exists k: nat :: Up(gs, i, k) == -1 || Special(gs, Up(gs, i, k))
  }

  /** Where self-parents are the only cycles, the listing is well-formed if and only if no self-parent has
      another child. */
  lemma SelfParents(gs: seq<Group>)
    requires DistinctIds(gs) && OnlySelfParents(gs)
    ensures WellFormed(TextAll(Listing(gs))) <==>
            forall i | 0 <= i < |gs| :: Parent(gs, i) == i ==> Children(gs, i, 0) == [i]
  {
    hide DistinctIds, Listing, TextAll, WellFormed, Parent, Children, Up;
    WellFormedIffOnlyChildren(gs);
    forall i | 0 <= i < |gs| ensures Leader(gs, i) <==> Special(gs, i) {
      assert ReachesSpecial(gs, i);
      var k: nat :| Up(gs, i, k) == -1 || Special(gs, Up(gs, i, k));
      assert !LeadsAt(gs, i, k);
    }
    if OnlyChildren(gs, Leaders(gs, |gs|)) {
      forall i | 0 <= i < |gs| && Parent(gs, i) == i ensures Children(gs, i, 0) == [i] {
        assert Leader(gs, i) && i in Leaders(gs, |gs|);
      }
    }
  }

  /** A self-parent with another child leaves a stray comma behind: two groups are enough. */
  lemma StrayComma()
    ensures var gs := [Group("a", "a"), Group("b", "a")];
            && TextAll(Listing(gs)) == [OpenNode(0), Comma, OpenNode(1), CloseNode, CloseNode]
            && !WellFormed(TextAll(Listing(gs)))
  {
    var gs := [Group("a", "a"), Group("b", "a")];
    StraySlots();
    var s := Node(0, [Hole, Node(1, [])]);
    assert [Hole, Node(1, [])][..1] == [Hole];
    assert TextAll([Hole, Node(1, [])]) == [Comma, OpenNode(1), CloseNode];
    assert Hole in [Hole, Node(1, [])] && !Orderly(s);
    WellFormedIffOrderly([s]);
    assert [s][0] == s;
  }

  lemma StraySlots()
    ensures Listing([Group("a", "a"), Group("b", "a")]) == [Node(0, [Hole, Node(1, [])])]
  {
    var gs := [Group("a", "a"), Group("b", "a")];
    assert Parent(gs, 0) == 0 && Parent(gs, 1) == 0;
    var e0, e1, e2 := [false, false], [true, false], [true, true];
    assert NoMarks(2) == e0 && e0[0 := true] == e1 && e1[1 := true] == e2;
    assert VisitChildren(gs, e2, 1, 2) == Emission([], e2);
    assert VisitChildren(gs, e2, 1, 1) == Emission([], e2);
    assert VisitChildren(gs, e2, 1, 0) == Emission([], e2);
    assert Visit(gs, e1, 1) == Visited(Node(1, []), e2);
    assert VisitChildren(gs, e2, 0, 2) == Emission([], e2);
    assert VisitChildren(gs, e1, 0, 1) == Emission([Node(1, [])], e2);
    assert Visit(gs, e1, 0) == Visited(Hole, e1);
    assert VisitChildren(gs, e1, 0, 0) == Emission([Hole, Node(1, [])], e2);
    assert Visit(gs, e0, 0) == Visited(Node(0, [Hole, Node(1, [])]), e2);
    assert VisitRoots(gs, e2, 2) == Emission([], e2);
    assert VisitRoots(gs, e2, 1) == Emission([], e2);
    assert VisitRoots(gs, e0, 0) == Emission([Node(0, [Hole, Node(1, [])])], e2);
    assert VisitRest(gs, e2, 2) == Emission([], e2);
    assert VisitRest(gs, e2, 1) == Emission([], e2);
    assert VisitRest(gs, e2, 0) == Emission([], e2);
  }
}
