/** The text of a group listing, as tokens: what a well-formed forest looks like, what the emission actually
    writes, and exactly when the two agree. */
module GroupText {
  /** The pieces of the listing: a node up to its child list, the end of a node, a comma. */
  datatype Token = OpenNode(index: nat) | CloseNode | Comma

  /** A listing that nests correctly. */
  datatype Tree = Tree(index: nat, children: seq<Tree>)

  function Print(t: Tree): seq<Token>
    decreases t, 1
  {
    [OpenNode(t.index)] + PrintAll(t.children) + [CloseNode]
  }

  /** Siblings, separated by single commas. */
  function PrintAll(ts: seq<Tree>): seq<Token>
    decreases ts, 0
  {
    if ts == [] then []
    else if |ts| == 1 then Print(ts[0])
    else PrintAll(ts[..|ts| - 1]) + [Comma] + Print(ts[|ts| - 1])
  }

  /** One attempt to emit a group: a hole when it is out already, otherwise a node with the attempts made for
      its children. */
  datatype Slot = Hole | Node(index: nat, slots: seq<Slot>)

  /** What an attempt writes: nothing for a hole, though the commas around it stay. */
  function Text(s: Slot): seq<Token>
    decreases s, 1
  {
    if s.Hole? then [] else [OpenNode(s.index)] + TextAll(s.slots) + [CloseNode]
  }

  function TextAll(ss: seq<Slot>): seq<Token>
    decreases ss, 0
  {
    if ss == [] then []
    else if |ss| == 1 then Text(ss[0])
    else TextAll(ss[..|ss| - 1]) + [Comma] + Text(ss[|ss| - 1])
  }

  /** No hole stands beside another attempt, at this level or below. */
  predicate Orderly(s: Slot)
    decreases s, 1
  {
    s.Hole? || OrderlyAll(s.slots)
  }

  predicate OrderlyAll(ss: seq<Slot>)
    decreases ss, 0
  {
    && (|ss| > 1 ==> Hole !in ss)
    && forall k | 0 <= k < |ss| :: Orderly(ss[k])
  }

  /** The trees that are left when the holes are dropped. */
  function Pruned(s: Slot): Tree
    requires s.Node?
    decreases s, 1
  {
    Tree(s.index, PrunedAll(s.slots))
  }

  function PrunedAll(ss: seq<Slot>): seq<Tree>
    decreases ss, 0
  {
    if ss == [] then []
    else PrunedAll(ss[..|ss| - 1]) + if ss[|ss| - 1].Hole? then [] else [Pruned(ss[|ss| - 1])]
  }

  lemma HoleText()
    ensures Text(Hole) == []
  {
  }

  lemma TextAppend(ss: seq<Slot>, s: Slot)
    ensures TextAll(ss + [s]) == TextAll(ss) + (if ss == [] then [] else [Comma]) + Text(s)
  {
    hide Text;
    var all := ss + [s];
    assert all[..|all| - 1] == ss;
    assert ss == [] ==> TextAll(ss) + [] == [];
  }

  lemma {:induction false} PrunedCount(ss: seq<Slot>)
    requires Hole !in ss
    ensures |PrunedAll(ss)| == |ss|
    decreases |ss|
  {
    hide Pruned;
    if ss != [] {
      assert ss[|ss| - 1] in ss;
      PrunedCount(ss[..|ss| - 1]);
    }
  }

  lemma {:induction false} OrderlyPrints(s: Slot)
    requires s.Node? && Orderly(s)
    ensures Text(s) == Print(Pruned(s))
    decreases s, 1
  {
    OrderlyPrintsAll(s.slots);
  }

  lemma {:induction false} OrderlyPrintsAll(ss: seq<Slot>)
    requires OrderlyAll(ss)
    ensures TextAll(ss) == PrintAll(PrunedAll(ss))
    decreases ss, 0
  {
    hide Text, Print, Pruned, Orderly;
    if |ss| == 1 {
      assert ss[0] in ss && Orderly(ss[0]) && ss[..0] == [];
      if ss[0].Node? {
        OrderlyPrints(ss[0]);
        assert PrunedAll(ss) == [Pruned(ss[0])];
      } else {
        HoleText();
        assert PrunedAll(ss) == [];
      }
    } else if |ss| > 1 {
      var init, last := ss[..|ss| - 1], ss[|ss| - 1];
      assert last in ss && Orderly(last);
      assert Hole !in init by {
        forall k | 0 <= k < |init| ensures init[k] != Hole { assert init[k] == ss[k] && ss[k] in ss; }
      }
      OrderlyPrintsAll(init);
      OrderlyPrints(last);
      PrunedCount(init);
      assert PrunedAll(ss)[..|ss| - 1] == PrunedAll(init);
    }
  }

  // ----- commas ------------------------------------------------------------------------------------

  predicate CommaAt(text: seq<Token>, p: nat)
  {
    p < |text| && text[p] == Comma
  }

  /** Every comma stands between the end of one node and the start of another. */
  ghost predicate CommasOk(text: seq<Token>)
  {
    forall p: nat | CommaAt(text, p) :: 0 < p < |text| - 1 && text[p - 1] == CloseNode && text[p + 1].OpenNode?
  }

  predicate Bounded(text: seq<Token>)
  {
    text == [] || (text[0].OpenNode? && text[|text| - 1] == CloseNode)
  }

  lemma JoinCommas(a: seq<Token>, b: seq<Token>)
    requires CommasOk(a) && CommasOk(b) && Bounded(a) && Bounded(b) && a != [] && b != []
    ensures CommasOk(a + [Comma] + b) && Bounded(a + [Comma] + b)
  {
    var text := a + [Comma] + b;
    forall p: nat | CommaAt(text, p) ensures 0 < p < |text| - 1 && text[p - 1] == CloseNode && text[p + 1].OpenNode? {
      if p < |a| {
        assert CommaAt(a, p);
      } else if p > |a| {
        assert CommaAt(b, p - |a| - 1);
      }
    }
  }

  lemma WrapCommas(i: nat, a: seq<Token>)
    requires CommasOk(a) && Bounded(a)
    ensures var text := [OpenNode(i)] + a + [CloseNode]; CommasOk(text) && Bounded(text)
  {
    var text := [OpenNode(i)] + a + [CloseNode];
    forall p: nat | CommaAt(text, p) ensures 0 < p < |text| - 1 && text[p - 1] == CloseNode && text[p + 1].OpenNode? {
      assert CommaAt(a, p - 1);
    }
  }

  lemma SplitCommas(a: seq<Token>, b: seq<Token>)
    requires CommasOk(a + [Comma] + b)
    ensures a != [] && b != [] && CommasOk(a) && CommasOk(b)
  {
    var text := a + [Comma] + b;
    assert CommaAt(text, |a|);
    forall p: nat | CommaAt(a, p) ensures 0 < p < |a| - 1 && a[p - 1] == CloseNode && a[p + 1].OpenNode? {
      assert CommaAt(text, p);
      assert text[p + 1] == if p + 1 < |a| then a[p + 1] else Comma;
    }
    forall p: nat | CommaAt(b, p) ensures 0 < p < |b| - 1 && b[p - 1] == CloseNode && b[p + 1].OpenNode? {
      assert CommaAt(text, |a| + 1 + p);
      assert text[|a| + p] == if p > 0 then b[p - 1] else Comma;
    }
  }

  lemma UnwrapCommas(i: nat, a: seq<Token>)
    requires CommasOk([OpenNode(i)] + a + [CloseNode])
    ensures CommasOk(a)
  {
    var text := [OpenNode(i)] + a + [CloseNode];
    forall p: nat | CommaAt(a, p) ensures 0 < p < |a| - 1 && a[p - 1] == CloseNode && a[p + 1].OpenNode? {
      assert CommaAt(text, p + 1);
      assert text[p] == if p > 0 then a[p - 1] else OpenNode(i);
      assert text[p + 2] == if p + 1 < |a| then a[p + 1] else CloseNode;
    }
  }

  lemma {:induction false} PrintedCommas(t: Tree)
    ensures CommasOk(Print(t)) && Bounded(Print(t)) && Print(t) != []
    decreases t, 1
  {
    hide CommasOk, Bounded, PrintAll;
    PrintedCommasAll(t.children);
    WrapCommas(t.index, PrintAll(t.children));
  }

  lemma {:induction false} PrintedCommasAll(ts: seq<Tree>)
    ensures CommasOk(PrintAll(ts)) && Bounded(PrintAll(ts)) && (ts != [] ==> PrintAll(ts) != [])
    decreases ts, 0
  {
    hide CommasOk, Print;
    if ts == [] {
      NoCommas();
    } else {
      PrintedCommas(ts[|ts| - 1]);
      if |ts| > 1 {
        PrintedCommasAll(ts[..|ts| - 1]);
        JoinCommas(PrintAll(ts[..|ts| - 1]), Print(ts[|ts| - 1]));
      }
    }
  }

  lemma NoCommas()
    ensures CommasOk([])
  {
  }

  lemma {:induction false} CommasOrder(s: Slot)
    requires CommasOk(Text(s))
    ensures Orderly(s)
    decreases s, 1
  {
    hide CommasOk, TextAll, OrderlyAll;
    if s.Node? {
      UnwrapCommas(s.index, TextAll(s.slots));
      CommasOrderAll(s.slots);
    }
  }

  lemma {:induction false} CommasOrderAll(ss: seq<Slot>)
    requires CommasOk(TextAll(ss))
    ensures OrderlyAll(ss)
    decreases ss, 0
  {
    hide CommasOk, Orderly;
    if |ss| == 1 {
      CommasOrder(ss[0]);
    } else if |ss| > 1 {
      var init, last := ss[..|ss| - 1], ss[|ss| - 1];
      SplitCommas(TextAll(init), Text(last));
      CommasOrderAll(init);
      CommasOrder(last);
      assert last != Hole;
      forall k | 0 <= k < |ss| ensures Orderly(ss[k]) && ss[k] != Hole {
        if k < |ss| - 1 {
          assert ss[k] == init[k] && init[k] in init;
        }
      }
    }
  }

  /** The text is that of some forest. */
  ghost predicate WellFormed(text: seq<Token>)
  {
    exists forest: seq<Tree> :: text == PrintAll(forest)
  }

  /** Whatever was attempted, its text is that of a forest if and only if no hole stands beside another
      attempt; the forest is then what is left without the holes. */
  lemma WellFormedIffOrderly(ss: seq<Slot>)
    ensures WellFormed(TextAll(ss)) <==> OrderlyAll(ss)
    ensures OrderlyAll(ss) ==> TextAll(ss) == PrintAll(PrunedAll(ss))
  {
    hide CommasOk, Bounded, OrderlyAll, TextAll, PrintAll;
    if WellFormed(TextAll(ss)) {
      var forest: seq<Tree> :| TextAll(ss) == PrintAll(forest);
      PrintedCommasAll(forest);
      CommasOrderAll(ss);
    }
    if OrderlyAll(ss) {
      OrderlyPrintsAll(ss);
    }
  }
}
