/** The list an incremental push sends: which patches it holds, and when parents come first in it. */
module PushOrder {
  import opened PatchGraph
  import opened PatchesSince
  import opened TopologicalSort

  /** A patch and its ancestors, as `ancestors` reports them. */
  ghost predicate KnownOf(g: Graph, since: Id, known: set<Id>) {
    forall x :: x in known <==> IsAncestorOrSelf(Edges(g), x, since)
  }

  method ListPatchesSince(dag: PatchDag, tips: seq<Id>, since: Id) returns (out: seq<Id>, ghost known: set<Id>)
    requires dag.Valid() && dag.CacheCorrect()
    modifies dag`cache
    ensures dag.CacheCorrect() && KnownOf(dag.nodes, since, known)
    ensures IsOutput(Walk(dag.nodes, known, Start(tips)), out)
    ensures ReleaseOrder(Walk(dag.nodes, known, Start(tips)), out, out)
  {
    hide IsAncestor, IsOutput, Walk;
    var ancestors := dag.Ancestors(since);
    known := ancestors + {since};
    var visited := WalkFromTips(dag.nodes, ancestors + {since}, tips);
    out := SortTopologically(visited);
  }

  lemma AllVisitedAreListed(g: Graph, known: set<Id>, tips: seq<Id>, out: seq<Id>, rank: Id -> nat)
    requires Ranked(g, rank) && IsOutput(Walk(g, known, Start(tips)), out)
    ensures forall x :: x in out <==> x in Walk(g, known, Start(tips))
  {
    hide Walk, Degree;
    var visited := Walk(g, known, Start(tips));
    WalkRecords(g, known, Start(tips));
    forall x | x in visited
      ensures x in out
    {
      NothingLeftOut(visited, out, rank, x);
    }
  }

  /** The list is exactly what can be reached from a tip without passing a patch the other side knows. */
  lemma ListIsReached(g: Graph, known: set<Id>, tips: seq<Id>, out: seq<Id>, rank: Id -> nat)
    requires Ranked(g, rank) && IsOutput(Walk(g, known, Start(tips)), out)
    ensures forall x :: x in out <==> Reached(g, known, tips, x)
  {
    hide Walk, IsOutput, Reached, Ranked;
    AllVisitedAreListed(g, known, tips, out, rank);
    forall x {
      WalkIsReached(g, known, tips, x);
    }
  }

  function RelevantOf(g: Graph, known: set<Id>, x: Id): seq<Id> {
    if x in g then Relevant(g[x].declared, known) else []
  }

  /** Every listed patch comes after those of its declared parents that are listed. */
  ghost predicate ListsParentsFirst(g: Graph, known: set<Id>, out: seq<Id>) {
    forall i, p :: 0 <= i < |out| && p in RelevantOf(g, known, out[i]) && p in out ==>
      p in out[..i]
  }

  /** The parents of a patch whose record was wiped happen to be emitted first: they are smaller roots. */
  ghost predicate WipedInOrder(g: Graph, known: set<Id>, visited: Parents) {
    forall x, p :: Wiped(g, known, visited, x) && p in RelevantOf(g, known, x) && p in visited ==>
      IsRoot(visited, p) && p < x
  }

  lemma PlaceInRoots(pm: Parents, out: seq<Id>, roots: seq<Id>, i: nat)
    requires RootList(pm, roots) && roots <= out && NoDuplicates(out) && i < |out| && IsRoot(pm, out[i])
    ensures i < |roots|
    ensures forall p :: p in out[..i] <==> IsRoot(pm, p) && p < out[i]
  {
    hide IsRoot;
    assert out[i] in roots;
    var k :| 0 <= k < |roots| && roots[k] == out[i];
    assert out[k] == roots[k];
    assert k == i;
    assert out[..i] == roots[..i];
    forall p
      ensures p in roots[..i] <==> IsRoot(pm, p) && p < roots[i]
    {
      if IsRoot(pm, p) && p < roots[i] {
        assert p in roots;
        var j :| 0 <= j < |roots| && roots[j] == p;
        assert j < i;
        assert roots[..i][j] == p;
      }
    }
  }

  lemma WipedIsRoot(g: Graph, known: set<Id>, visited: Parents, x: Id)
    requires Recorded(g, known, visited) && Wiped(g, known, visited, x)
    ensures x in visited && visited[x] == [] && IsRoot(visited, x)
  {
  }

  /** The parents of a wiped patch that were emitted before it are smaller roots. */
  lemma WipedParentBefore(g: Graph, known: set<Id>, visited: Parents, out: seq<Id>, i: nat)
    requires Recorded(g, known, visited) && IsOutput(visited, out)
    requires i < |out| && Wiped(g, known, visited, out[i])
    ensures forall p :: p in out[..i] <==> IsRoot(visited, p) && p < out[i]
  {
    hide IsRoot, Wiped, Degree;
    var roots :| RootList(visited, roots) && roots <= out;
    WipedIsRoot(g, known, visited, out[i]);
    PlaceInRoots(visited, out, roots, i);
  }

  /** The parents of any other patch were emitted before it. */
  lemma RecordedParentBefore(g: Graph, known: set<Id>, visited: Parents, out: seq<Id>, i: nat)
    requires IsOutput(visited, out) && i < |out| && out[i] in g && !Wiped(g, known, visited, out[i])
    ensures forall p :: p in RelevantOf(g, known, out[i]) && p in visited ==> p in out[..i]
  {
    hide Degree;
  }

  /**
   * Parents come first in the list exactly when the records that the walk wiped do no harm. The walk wipes
   * a record when it takes the patch from its stack a second time.
   */
  lemma ParentsFirstByRecords(g: Graph, known: set<Id>, tips: seq<Id>, out: seq<Id>, rank: Id -> nat)
    requires Ranked(g, rank) && IsOutput(Walk(g, known, Start(tips)), out)
    ensures ListsParentsFirst(g, known, out) <==> WipedInOrder(g, known, Walk(g, known, Start(tips)))
  {
    hide Walk, IsRoot, Ranked, IsOutput, Wiped, Relevant;
    var visited := Walk(g, known, Start(tips));
    WalkRecords(g, known, Start(tips));
    AllVisitedAreListed(g, known, tips, out, rank);
    if ListsParentsFirst(g, known, out) {
      forall x, p | Wiped(g, known, visited, x) && p in RelevantOf(g, known, x) && p in visited
        ensures IsRoot(visited, p) && p < x
      {
        WipedIsRoot(g, known, visited, x);
        var i :| 0 <= i < |out| && out[i] == x;
        WipedParentBefore(g, known, visited, out, i);
        assert p in out[..i];
      }
    }
    if WipedInOrder(g, known, visited) {
      forall i, p | 0 <= i < |out| && p in RelevantOf(g, known, out[i]) && p in out
        ensures p in out[..i]
      {
        assert out[i] in out;
        if Wiped(g, known, visited, out[i]) {
          WipedParentBefore(g, known, visited, out, i);
        } else {
          RecordedParentBefore(g, known, visited, out, i);
        }
      }
    }
  }

  /** Nothing listed has to come before `p`: its record is wiped, or none of its unknown parents is stored. */
  ghost predicate ListsAsRoot(g: Graph, known: set<Id>, tips: seq<Id>, p: Id) {
    WipedByTips(g, known, tips, p) || forall q :: q in RelevantOf(g, known, p) ==> q !in g
  }

  /** Every tip whose record is wiped has for parent a root with a smaller id, which happens to be listed first. */
  ghost predicate TipsInOrder(g: Graph, known: set<Id>, tips: seq<Id>) {
    forall x, p :: WipedByTips(g, known, tips, x) && p in RelevantOf(g, known, x) && p in g ==>
      p < x && ListsAsRoot(g, known, tips, p)
  }

  lemma ParentIsReached(g: Graph, known: set<Id>, tips: seq<Id>, x: Id, p: Id)
    requires Reached(g, known, tips, x) && p in RelevantOf(g, known, x) && p in g
    ensures Reached(g, known, tips, p)
  {
    hide FromTip;
    ReachParent(g, known, tips, x, p);
  }

  lemma WipedIsReached(g: Graph, known: set<Id>, tips: seq<Id>, x: Id)
    requires WipedByTips(g, known, tips, x)
    ensures Reached(g, known, tips, x)
  {
    var k: nat :| k < |tips| && tips[k] == x && ReachedAgain(g, known, tips, k);
    assert IsAncestorOrSelf(Unknown(g, known), x, x);
    assert x in tips;
  }

  /** Whether a reached patch waits for nothing in the records. */
  lemma ListsAsRootIff(g: Graph, known: set<Id>, tips: seq<Id>, visited: Parents, p: Id)
    requires Recorded(g, known, visited) && (forall x :: x in visited <==> Reached(g, known, tips, x))
    requires forall x :: Wiped(g, known, visited, x) <==> WipedByTips(g, known, tips, x)
    requires p in visited
    ensures IsRoot(visited, p) <==> ListsAsRoot(g, known, tips, p)
  {
    hide Reached, WipedByTips;
    WaitingZeroIff(visited[p], visited.Keys, {});
    forall q | q in RelevantOf(g, known, p)
      ensures q in visited <==> q in g
    {
      if q in g {
        ParentIsReached(g, known, tips, p, q);
      }
    }
  }

  lemma WipedInOrderIff(g: Graph, known: set<Id>, tips: seq<Id>, visited: Parents)
    requires Recorded(g, known, visited) && (forall x :: x in visited <==> Reached(g, known, tips, x))
    requires forall x :: Wiped(g, known, visited, x) <==> WipedByTips(g, known, tips, x)
    ensures WipedInOrder(g, known, visited) <==> TipsInOrder(g, known, tips)
  {
    hide Reached, WipedByTips, IsRoot, ListsAsRoot;
    forall x, p | WipedByTips(g, known, tips, x) && p in RelevantOf(g, known, x)
      ensures p in visited <==> p in g
      ensures p in g ==> (IsRoot(visited, p) <==> ListsAsRoot(g, known, tips, p))
    {
      WipedIsReached(g, known, tips, x);
      if p in g {
        ParentIsReached(g, known, tips, x, p);
        ListsAsRootIff(g, known, tips, visited, p);
      }
    }
  }

  /**
    * Without merges, and for any number of branches: parents come first in the list exactly when every tip
    * that a tip listed later reaches has a smaller root for its unknown parent, or none.
    */
  lemma ParentsFirstIff(g: Graph, known: set<Id>, tips: seq<Id>, out: seq<Id>, rank: Id -> nat)
    requires Ranked(g, rank) && NoMerges(g) && IsOutput(Walk(g, known, Start(tips)), out)
    ensures ListsParentsFirst(g, known, out) <==> TipsInOrder(g, known, tips)
  {
    hide Walk, IsOutput, Wiped, Ranked, NoMerges, Reached, WipedByTips, ListsParentsFirst, TipsInOrder;
    ParentsFirstByRecords(g, known, tips, out, rank);
    WipedIff(g, known, tips);
    WalkRecords(g, known, Start(tips));
    forall x {
      WalkIsReached(g, known, tips, x);
    }
    WipedInOrderIff(g, known, tips, Walk(g, known, Start(tips)));
  }

  /** With or without merges: parents come first if no list names a patch before one it is reached from. */
  lemma ListedOnceIsInOrder(g: Graph, known: set<Id>, tips: seq<Id>, out: seq<Id>, rank: Id -> nat)
    requires Ranked(g, rank) && ListedOnce(g, known, tips) && IsOutput(Walk(g, known, Start(tips)), out)
    ensures ListsParentsFirst(g, known, out)
  {
    hide Walk, IsOutput, Wiped, Ranked, ListedOnce;
    NothingWipedIfListedOnce(g, known, tips);
    ParentsFirstByRecords(g, known, tips, out, rank);
  }

  // ---- a history listed out of order ----

  /** Root 1, then 9, 5 and 7 on top of each other; a branch on 5, listed before the branch on 7. */
  function ChainOfFour(): Graph {
    map[1 := Node([], [], 0), 9 := Node([1], [1], 1), 5 := Node([9], [9], 2), 7 := Node([5], [5], 3)]
  }

  lemma ChainIsRanked()
    ensures exists rank :: Ranked(ChainOfFour(), rank)
  {
    var rank := (x: Id) => if x == 1 then 0 else if x == 9 then 1 else if x == 5 then 2 else 3;
    assert Ranked(ChainOfFour(), rank);
  }

  lemma ChainTips()
    ensures WipedByTips(ChainOfFour(), {1}, [5, 7], 5) && 9 in RelevantOf(ChainOfFour(), {1}, 5)
  {
    var g := ChainOfFour();
    var tips := [5, 7];
    assert 9 in g[5].declared;
    ParentIsAncestor(Unknown(g, {1}), 7, 5);
    assert tips[0 + 1..] == [7] && 7 in [7];
    assert Reached(g, {1}, [7], 5);
    assert Relevant(g[5].declared, {1}) != [] by {
      assert 9 in Relevant(g[5].declared, {1});
    }
    assert tips[0] == 5 && ReachedAgain(g, {1}, tips, 0);
  }

  /** A branch on an ancestor of another branch: every list of this history has 5 before its parent 9. */
  lemma ChainIsOutOfOrder(out: seq<Id>)
    requires IsOutput(Walk(ChainOfFour(), {1}, Start([5, 7])), out)
    ensures !ListsParentsFirst(ChainOfFour(), {1}, out)
  {
    hide Walk, IsOutput, Ranked, WipedByTips, ListsAsRoot, ListsParentsFirst, RelevantOf;
    ChainIsRanked();
    var rank :| Ranked(ChainOfFour(), rank);
    ChainTips();
    var g := ChainOfFour();
    assert WipedByTips(g, {1}, [5, 7], 5) && 9 in RelevantOf(g, {1}, 5) && 9 in g && !(9 < 5);
    ParentsFirstIff(ChainOfFour(), {1}, [5, 7], out, rank);
  }
}
