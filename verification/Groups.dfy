/** Vault groups: a parent relation given by ids, which may be cyclic, self-referring or dangling. */
module Groups {
  /** A missing C string is the empty string here; the code treats both alike. */
  datatype Group = Group(id: string, parentId: string)

  /** The first group at index `from` or later with this id, or -1. */
  function IndexFrom(gs: seq<Group>, id: string, from: nat): (i: int)
    requires from <= |gs|
    ensures i == -1 || (from <= i < |gs| && gs[i].id == id)
    ensures i == -1 ==> forall j | from <= j < |gs| :: gs[j].id != id
    decreases |gs| - from
  {
    if from == |gs| then -1 else if gs[from].id == id then from else IndexFrom(gs, id, from + 1)
  }

  /** No group answers to the empty id. */
  function IndexOf(gs: seq<Group>, id: string): (i: int)
    ensures i == -1 || (0 <= i < |gs| && gs[i].id == id)
    ensures i == -1 && id != "" ==> forall j | 0 <= j < |gs| :: gs[j].id != id
  {
    if id == "" then -1 else IndexFrom(gs, id, 0)
  }

  method FindGroup(gs: seq<Group>, id: string) returns (i: int)
    ensures i == IndexOf(gs, id)
    ensures id == "" ==> i == -1
    ensures id != "" && i == -1 ==> forall j | 0 <= j < |gs| :: gs[j].id != id
    ensures i != -1 ==> 0 <= i < |gs| && gs[i].id == id && forall j | 0 <= j < i :: gs[j].id != id
  {
    if id == "" {
      return -1;
    }
    i := 0;
    while i < |gs|
      invariant 0 <= i <= |gs| && IndexFrom(gs, id, i) == IndexOf(gs, id)
      invariant forall j | 0 <= j < i :: gs[j].id != id
    {
      if gs[i].id == id {
        return;
      }
      i := i + 1;
    }
    i := -1;
  }

  /** The group a group's parent id resolves to, or -1. */
  function Parent(gs: seq<Group>, i: int): (p: int)
    requires 0 <= i < |gs|
    ensures -1 <= p < |gs|
  {
    IndexOf(gs, gs[i].parentId)
  }

  /** `k` steps up from group `i`; -1 once the chain has ended. */
  function Up(gs: seq<Group>, i: int, k: nat): (r: int)
    requires -1 <= i < |gs|
    ensures -1 <= r < |gs|
  {
    if k == 0 then i
    else
      var j := Up(gs, i, k - 1);
      if j == -1 then -1 else Parent(gs, j)
  }

  // ----- the descendant scope test ---------------------------------------------------------------

  /** Some group on the parent chain of `i`, however long, names `scope` as its parent. */
  ghost predicate HasAncestor(gs: seq<Group>, i: int, scope: string)
    requires -1 <= i < |gs|
  {
    exists k: nat :: AncestorAt(gs, i, scope, k)
  }

  predicate AncestorAt(gs: seq<Group>, i: int, scope: string, k: nat)
    requires -1 <= i < |gs|
  {
    Up(gs, i, k) != -1 && gs[Up(gs, i, k)].parentId == scope
  }

  lemma {:induction false} UpOffEnd(gs: seq<Group>, k: nat)
    ensures Up(gs, -1, k) == -1
  {
    if k > 0 {
      UpOffEnd(gs, k - 1);
    }
  }

  lemma {:induction false} UpAdd(gs: seq<Group>, i: int, a: nat, b: nat)
    requires -1 <= i < |gs|
    ensures Up(gs, i, a + b) == Up(gs, Up(gs, i, a), b)
  {
    if b > 0 {
      UpAdd(gs, i, a, b - 1);
    }
  }

  /** Pigeonhole: more values than room for them repeat one. */
  lemma {:induction false} Pigeonhole(s: seq<int>, n: nat) returns (a: nat, b: nat)
    requires |s| > n && forall i | 0 <= i < |s| :: 0 <= s[i] < n
    ensures a < b < |s| && s[a] == s[b]
    decreases n
  {
    assert 0 <= s[0] < n;
    var last := n - 1;
    if i, j :| 0 <= i < j < |s| && s[i] == last && s[j] == last {
      return i, j;
    } else if k :| 0 <= k < |s| && s[k] == last {
      var t := s[..k] + s[k + 1..];
      assert forall i | 0 <= i < |t| :: t[i] == if i < k then s[i] else s[i + 1];
      var a', b' := Pigeonhole(t, n - 1);
      a := if a' < k then a' else a' + 1;
      b := if b' < k then b' else b' + 1;
    } else {
      a, b := Pigeonhole(s, n - 1);
    }
  }

  /** An ancestor reached after `group_count` or more steps is also reached after fewer. */
  lemma ShorterChain(gs: seq<Group>, i: int, scope: string, k: nat) returns (k': nat)
    requires -1 <= i < |gs| && AncestorAt(gs, i, scope, k)
    ensures k' < |gs| && AncestorAt(gs, i, scope, k')
    decreases k
  {
    if k < |gs| {
      return k;
    }
    var chain := seq(k + 1, j requires 0 <= j => Up(gs, i, j));
    forall j | 0 <= j <= k ensures chain[j] >= 0 {
      UpAdd(gs, i, j, k - j);
      if chain[j] == -1 {
        UpOffEnd(gs, k - j);
      }
    }
    var a, b := Pigeonhole(chain, |gs|);
    UpAdd(gs, i, a, k - b);
    UpAdd(gs, i, b, k - b);
    k' := ShorterChain(gs, i, scope, a + (k - b));
  }

  /** Whether an entry's group lies in the scope: the group itself or, with descendants, any group
      whose ancestors include the scope. The walk gives up after `group_count + 1` steps, and the answer
      is still the one an unbounded walk would give. */
  method InScope(gs: seq<Group>, entryGroup: string, scope: string, descendants: bool) returns (r: bool)
    ensures r <==> scope == "" || (entryGroup != "" &&
                     (entryGroup == scope || (descendants && HasAncestor(gs, IndexOf(gs, entryGroup), scope))))
  {
    if scope == "" {
      return true;
    }
    if entryGroup == "" {
      return false;
    }
    if entryGroup == scope {
      return true;
    }
    if !descendants {
      return false;
    }
    var start := FindGroup(gs, entryGroup);
    var current, remaining := start, |gs| + 1;
    ghost var steps := 0;
    while current >= 0 && remaining > 0
      invariant -1 <= current < |gs| && 0 <= remaining <= |gs| + 1 && steps + remaining == |gs| + 1
      invariant current == Up(gs, start, steps)
      invariant forall k | 0 <= k < steps :: !AncestorAt(gs, start, scope, k)
      decreases remaining
    {
      remaining := remaining - 1;
      if gs[current].parentId == "" {
        ChainEnds(gs, start, scope, steps);
        return false;
      }
      if gs[current].parentId == scope {
        assert AncestorAt(gs, start, scope, steps);
        return true;
      }
      current := FindGroup(gs, gs[current].parentId);
      steps := steps + 1;
    }
    if HasAncestor(gs, start, scope) {
      var k: nat :| AncestorAt(gs, start, scope, k);
      var k' := ShorterChain(gs, start, scope, k);
      assert current == -1 && steps <= k';
      UpAdd(gs, start, steps, k' - steps);
      UpOffEnd(gs, k' - steps);
    }
    return false;
  }

  lemma ChainEnds(gs: seq<Group>, i: int, scope: string, steps: nat)
    requires -1 <= i < |gs| && scope != "" && Up(gs, i, steps) != -1 && gs[Up(gs, i, steps)].parentId == ""
    requires forall k | 0 <= k < steps :: !AncestorAt(gs, i, scope, k)
    ensures !HasAncestor(gs, i, scope)
  {
    forall k: nat ensures !AncestorAt(gs, i, scope, k) {
      if k > steps {
        UpAdd(gs, i, steps, 1);
        assert Up(gs, Up(gs, i, steps), 1) == Parent(gs, Up(gs, Up(gs, i, steps), 0));
        UpAdd(gs, i, steps + 1, k - steps - 1);
        UpOffEnd(gs, k - steps - 1);
      }
    }
  }
}
