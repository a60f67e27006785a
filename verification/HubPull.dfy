/** How a hub answers a pull: which patches it sends, and the depth-first sort that puts parents first. */
module HubPull {
  import opened Wrappers
  import opened PatchGraph
  import opened PatchImport
  import opened TopologicalSort

  // ---- the stored patches ----

  /** Stored patches have different ids, as the table's primary key demands. */
  ghost predicate Distinct(patches: seq<Incoming>) {
    forall i, j :: 0 <= i < j < |patches| ==> patches[i].id != patches[j].id
  }

  /** Declared parents by id. */
  function ParentMap(patches: seq<Incoming>): Parents {
    if patches == [] then map[]
    else ParentMap(patches[..|patches| - 1])[patches[|patches| - 1].id := patches[|patches| - 1].declared]
  }

  /** Positions by id. */
  function IndexMap(patches: seq<Incoming>): map<Id, nat> {
    if patches == [] then map[]
    else IndexMap(patches[..|patches| - 1])[patches[|patches| - 1].id := |patches| - 1]
  }

  ghost predicate HoldsParents(patches: seq<Incoming>, par: Parents) {
    && (forall i :: 0 <= i < |patches| ==> patches[i].id in par && par[patches[i].id] == patches[i].declared)
    && (forall x :: x in par ==> Listed(patches, x))
  }

  ghost predicate Indexes(patches: seq<Incoming>, index: map<Id, nat>) {
    && (forall i :: 0 <= i < |patches| ==> patches[i].id in index && index[patches[i].id] == i)
    && (forall x :: x in index ==> index[x] < |patches| && patches[index[x]].id == x)
  }

  lemma ListedInFront(patches: seq<Incoming>)
    requires patches != []
    ensures forall x :: Listed(patches, x) <==> Listed(patches[..|patches| - 1], x) || x == patches[|patches| - 1].id
  {
    var front := patches[..|patches| - 1];
    forall x
      ensures Listed(patches, x) <==> Listed(front, x) || x == patches[|patches| - 1].id
    {
      if Listed(front, x) {
        var i :| 0 <= i < |front| && front[i].id == x;
        assert patches[i].id == x;
      }
      if Listed(patches, x) {
        var i :| 0 <= i < |patches| && patches[i].id == x;
        assert i < |front| ==> front[i].id == x;
      }
    }
  }

  lemma {:induction false} ParentMapHolds(patches: seq<Incoming>)
    requires Distinct(patches)
    ensures HoldsParents(patches, ParentMap(patches))
  {
    if patches != [] {
      ParentMapHolds(patches[..|patches| - 1]);
      ListedInFront(patches);
      hide Listed;
    }
  }

  lemma {:induction false} IndexMapIndexes(patches: seq<Incoming>)
    requires Distinct(patches)
    ensures Indexes(patches, IndexMap(patches))
  {
    if patches != [] {
      IndexMapIndexes(patches[..|patches| - 1]);
    }
  }

  // ---- what the client has ----

  /** Every id that can come up on a walk over declared parents. */
  function Universe(par: Parents, start: seq<Id>): set<Id> {
    (set x | x in start) + par.Keys + set k, x | k in par && x in par[k] :: x
  }

  /** The walk's invariant: nothing but what the start reaches, and parents of the seen are seen or waiting. */
  ghost predicate Walking(par: Parents, start: seq<Id>, stack: seq<Id>, seen: set<Id>) {
    && (forall x :: x in seen || x in stack ==> FromStart(par, start, x))
    && (forall x, p :: x in seen && x in par && p in par[x] ==> p in seen || p in stack)
    && (forall x :: x in start ==> x in seen || x in stack)
  }

  ghost predicate FromStart(par: Parents, start: seq<Id>, x: Id) {
    exists t :: t in start && IsAncestorOrSelf(par, x, t)
  }

  lemma StartReachesParent(par: Parents, start: seq<Id>, x: Id, p: Id)
    requires FromStart(par, start, x) && x in par && p in par[x]
    ensures FromStart(par, start, p)
  {
    var t :| t in start && IsAncestorOrSelf(par, x, t);
    AncestorExtends(par, t, x, p);
  }

  function Unseen(parents: seq<Id>, seen: set<Id>): (r: seq<Id>)
    ensures forall p :: p in r <==> p in parents && p !in seen
  {
    if parents == [] then []
    else (if parents[0] in seen then [] else [parents[0]]) + Unseen(parents[1..], seen)
  }

  lemma StepKeepsWalking(par: Parents, start: seq<Id>, stack: seq<Id>, seen: set<Id>)
    requires Walking(par, start, stack, seen) && stack != []
    ensures var id, rest := stack[|stack| - 1], stack[..|stack| - 1];
      Walking(par, start, if id in seen || id !in par then rest else rest + Unseen(par[id], seen + {id}), seen + {id})
  {
    hide FromStart;
    var id, rest := stack[|stack| - 1], stack[..|stack| - 1];
    assert forall x :: x in stack <==> x in rest || x == id;
    if id !in seen && id in par {
      var pushed := Unseen(par[id], seen + {id});
      forall x | x in rest + pushed
        ensures FromStart(par, start, x)
      {
        if x in pushed {
          StartReachesParent(par, start, id, x);
        }
      }
      assert forall x :: x in rest + pushed <==> x in rest || x in pushed;
    }
  }

  lemma AllReached(par: Parents, start: seq<Id>, seen: set<Id>)
    requires Walking(par, start, [], seen)
    ensures forall x :: x in seen <==> FromStart(par, start, x)
  {
    forall x | FromStart(par, start, x)
      ensures x in seen
    {
      var t :| t in start && IsAncestorOrSelf(par, x, t);
      ClosedHoldsAncestors(par, seen, t, x);
    }
  }

  /** Ids among which the walk stays. */
  ghost predicate Within(par: Parents, all: set<Id>, stack: seq<Id>, seen: set<Id>) {
    && seen <= all && (forall x :: x in stack ==> x in all)
    && (forall x, p :: x in par && p in par[x] ==> p in all)
  }

  lemma StepStaysWithin(par: Parents, all: set<Id>, stack: seq<Id>, seen: set<Id>)
    requires Within(par, all, stack, seen) && stack != []
    ensures var id, rest := stack[|stack| - 1], stack[..|stack| - 1];
      && id in all
      && Within(par, all, if id in seen || id !in par then rest else rest + Unseen(par[id], seen + {id}), seen + {id})
  {
    var id, rest := stack[|stack| - 1], stack[..|stack| - 1];
    assert id in stack && forall x :: x in rest ==> x in stack;
  }

  /** The stack loop: everything the start reaches over declared parents, stored or not. */
  method Reach(par: Parents, start: seq<Id>) returns (seen: set<Id>)
    ensures forall x :: x in seen <==> FromStart(par, start, x)
  {
    hide Walking, Within, FromStart, Universe;
    seen := {};
    var stack := start;
    StartWalks(par, start);
    ghost var all := Universe(par, start);
    while stack != []
      invariant Walking(par, start, stack, seen) && Within(par, all, stack, seen)
      decreases |all - seen|, |stack|
    {
      var id := stack[|stack| - 1];
      StepKeepsWalking(par, start, stack, seen);
      StepStaysWithin(par, all, stack, seen);
      stack := stack[..|stack| - 1];
      if id in seen {
        assert seen + {id} == seen;
      } else {
        LessLeft(all, seen, id);
        seen := seen + {id};
        if id in par {
          stack := stack + Unseen(par[id], seen);
        }
      }
    }
    AllReached(par, start, seen);
  }

  lemma StartWalks(par: Parents, start: seq<Id>)
    ensures Walking(par, start, start, {}) && Within(par, Universe(par, start), start, {})
  {
    forall x | x in start
      ensures FromStart(par, start, x)
    {
      assert IsAncestorOrSelf(par, x, x);
    }
  }

  lemma LessLeft(all: set<Id>, seen: set<Id>, id: Id)
    requires id in all && id !in seen
    ensures |all - (seen + {id})| < |all - seen|
  {
    assert all - seen == (all - (seen + {id})) + {id};
  }

  /** The histories of the client's branches, as far as the hub knows their tips. */
  ghost predicate ClientHas(stored: seq<Incoming>, tips: seq<Id>, x: Id) {
    exists t :: t in tips && Listed(stored, t) && IsAncestorOrSelf(ParentMap(stored), x, t)
  }

  function KnownTips(par: Parents, tips: seq<Id>): (r: seq<Id>)
    ensures forall t :: t in r <==> t in tips && t in par
  {
    if tips == [] then []
    else (if tips[0] in par then [tips[0]] else []) + KnownTips(par, tips[1..])
  }

  method CollectAncestors(stored: seq<Incoming>, tips: seq<Id>) returns (ancestors: set<Id>)
    requires Distinct(stored)
    ensures forall x :: x in ancestors <==> ClientHas(stored, tips, x)
  {
    var par := ParentMap(stored);
    ancestors := Reach(par, KnownTips(par, tips));
    ParentMapHolds(stored);
    assert forall t :: t in par <==> Listed(stored, t);
    forall x
      ensures x in ancestors <==> ClientHas(stored, tips, x)
    {
    }
  }

  // ---- the depth-first sort ----

  /** Finished positions are different and were visited. */
  ghost predicate Finished(visited: seq<bool>, order: seq<nat>) {
    && (forall i :: 0 <= i < |order| ==> order[i] < |visited| && visited[order[i]])
    && (forall i, j :: 0 <= i < j < |order| ==> order[i] != order[j])
  }

  /** Visited and not yet finished: the positions the recursion is inside of. */
  ghost predicate Open(visited: seq<bool>, order: seq<nat>, j: nat) {
    j < |visited| && visited[j] && j !in order
  }

  /** Every finished patch comes after its listed parents. */
  ghost predicate ParentsDone(patches: seq<Incoming>, index: map<Id, nat>, order: seq<nat>) {
    forall i :: 0 <= i < |order| ==> HasParentsBefore(patches, index, order, i)
  }

  ghost predicate HasParentsBefore(patches: seq<Incoming>, index: map<Id, nat>, order: seq<nat>, i: nat)
    requires i < |order|
  {
    order[i] < |patches| && forall p :: p in patches[order[i]].declared && p in index ==> index[p] in order[..i]
  }

  /** A number that grows from declared parents to children; content-addressed ids always have one. */
  ghost predicate RanksIncoming(patches: seq<Incoming>, rank: Id -> nat) {
    forall i, p :: 0 <= i < |patches| && p in patches[i].declared ==> rank(p) < rank(patches[i].id)
  }

  /** The recursion is inside descendants of `idx` only. */
  ghost predicate OpenAbove(
      patches: seq<Incoming>, rank: Id -> nat, visited: seq<bool>, order: seq<nat>, bound: nat)
    requires |visited| == |patches|
  {
    forall j: nat :: Open(visited, order, j) ==> rank(patches[j].id) > bound
  }

  function White(visited: seq<bool>): set<nat> {
    set j | 0 <= j < |visited| && !visited[j]
  }

  /** What one call adds: finished positions behind the old ones, with the same recursion still open. */
  ghost predicate Extends(before: seq<bool>, order: seq<nat>, after: seq<bool>, order': seq<nat>) {
    && |before| == |after| && order <= order'
    && (forall j :: 0 <= j < |before| && before[j] ==> after[j])
    && (forall j: nat :: Open(after, order', j) <==> Open(before, order, j))
  }

  lemma ExtendsIsTransitive(
      v0: seq<bool>, o0: seq<nat>, v1: seq<bool>, o1: seq<nat>, v2: seq<bool>, o2: seq<nat>)
    requires Extends(v0, o0, v1, o1) && Extends(v1, o1, v2, o2)
    ensures Extends(v0, o0, v2, o2)
  {
    hide Open;
  }

  lemma WhiteShrinks(before: seq<bool>, after: seq<bool>, idx: nat)
    requires |before| == |after| && idx < |before| && !before[idx] && after[idx]
    requires forall j :: 0 <= j < |before| && before[j] ==> after[j]
    ensures |White(after)| < |White(before)|
  {
    assert White(after) <= White(before) - {idx};
    SubsetSize(White(after), White(before) - {idx});
  }

  lemma {:induction false} SubsetSize(a: set<nat>, b: set<nat>)
    requires a <= b
    ensures |a| <= |b|
  {
    if a != {} {
      var x :| x in a;
      SubsetSize(a - {x}, b - {x});
    }
  }

  /** The recursion entered `idx`: one more position is open. */
  lemma EnterOpens(visited: seq<bool>, order: seq<nat>, idx: nat)
    requires idx < |visited| && !visited[idx] && Finished(visited, order)
    ensures Finished(visited[idx := true], order)
    ensures forall j: nat :: Open(visited[idx := true], order, j) <==> Open(visited, order, j) || j == idx
  {
  }

  /** The recursion left `idx`: it is finished, and what was open before is open again. */
  lemma LeaveCloses(
      patches: seq<Incoming>, index: map<Id, nat>,
      before: seq<bool>, order: seq<nat>, after: seq<bool>, order': seq<nat>,
      idx: nat)
    requires idx < |before| && !before[idx] && Finished(before, order) && Finished(after, order')
    requires Extends(before[idx := true], order, after, order')
    ensures Finished(after, order' + [idx]) && Extends(before, order, after, order' + [idx])
  {
    EnterOpens(before, order, idx);
    var done := order' + [idx];
    assert Open(before[idx := true], order, idx);
    assert Open(after, order', idx);
    assert forall j: nat :: j in done <==> j in order' || j == idx;
    forall j: nat
      ensures Open(after, done, j) <==> Open(before, order, j)
    {
      assert Open(after, order', j) <==> Open(before[idx := true], order, j);
    }
  }

  lemma LeaveHasParents(patches: seq<Incoming>, index: map<Id, nat>, order: seq<nat>, idx: nat)
    requires ParentsDone(patches, index, order) && idx < |patches|
    requires forall p :: p in patches[idx].declared && p in index ==> index[p] in order
    ensures ParentsDone(patches, index, order + [idx])
  {
    var done := order + [idx];
    forall i | 0 <= i < |done|
      ensures HasParentsBefore(patches, index, done, i)
    {
      assert done[..i] == order[..i];
      if i < |order| {
        assert HasParentsBefore(patches, index, order, i);
      }
    }
  }

  /** A parent already visited is finished: the recursion is inside descendants only. */
  lemma VisitedParentIsDone(
      patches: seq<Incoming>, rank: Id -> nat, visited: seq<bool>, order: seq<nat>, idx: nat, parent: nat)
    requires |visited| == |patches| && idx < |patches| && parent < |patches| && visited[parent]
    requires rank(patches[parent].id) < rank(patches[idx].id)
    requires forall j: nat :: Open(visited, order, j) ==> rank(patches[j].id) >= rank(patches[idx].id)
    ensures parent in order
  {
    assert !Open(visited, order, parent);
  }

  /**
    * Visit a patch after its listed parents. Without a rank the sort still lists every patch once; with one,
    * parents come first.
    */
  method Dfs(
      patches: seq<Incoming>, index: map<Id, nat>, visited: array<bool>, order: seq<nat>, idx: nat,
      ghost rank: Id -> nat)
    returns (order': seq<nat>)
    requires visited.Length == |patches| && idx < |patches| && !visited[idx] && Indexes(patches, index)
    requires Finished(visited[..], order)
    modifies visited
    ensures Finished(visited[..], order') && Extends(old(visited[..]), order, visited[..], order')
    ensures visited[idx] && idx in order'
    ensures RanksIncoming(patches, rank) && ParentsDone(patches, index, order)
            && OpenAbove(patches, rank, old(visited[..]), order, rank(patches[idx].id))
            ==> ParentsDone(patches, index, order')
    decreases |White(visited[..])|
  {
    ghost var before := visited[..];
    ghost var ranked := RanksIncoming(patches, rank) && ParentsDone(patches, index, order)
                        && OpenAbove(patches, rank, before, order, rank(patches[idx].id));
    EnterOpens(before, order, idx);
    visited[idx] := true;
    ghost var entered := visited[..];
    assert entered == before[idx := true];
    WhiteShrinks(before, entered, idx);
    order' := order;
    var declared := patches[idx].declared;
    for k := 0 to |declared|
      invariant Finished(visited[..], order') && Extends(entered, order, visited[..], order')
      invariant |White(visited[..])| < |White(before)|
      invariant ranked ==> ParentsDone(patches, index, order')
      invariant ranked ==> forall l :: 0 <= l < k && declared[l] in index ==> index[declared[l]] in order'
    {
      hide White, ParentsDone, Finished;
      if declared[k] in index {
        var parent := index[declared[k]];
        ghost var v1, o1 := visited[..], order';
        if ranked {
          ParentRank(patches, rank, entered, order, v1, o1, idx, parent);
        }
        if !visited[parent] {
          order' := Dfs(patches, index, visited, order', parent, rank);
          ExtendsIsTransitive(entered, order, v1, o1, visited[..], order');
          WhiteShrinks(v1, visited[..], parent);
        }
      }
    }
    if ranked {
      LeaveHasParents(patches, index, order', idx);
    }
    LeaveCloses(patches, index, before, order, visited[..], order', idx);
    order' := order' + [idx];
  }

  /** Inside `idx`, a parent of it is finished or new, and all that is open ranks above it. */
  lemma ParentRank(
      patches: seq<Incoming>, rank: Id -> nat, entered: seq<bool>, order: seq<nat>, v1: seq<bool>, o1: seq<nat>,
      idx: nat, parent: nat)
    requires |entered| == |v1| == |patches| && idx < |patches| && parent < |patches|
    requires patches[parent].id in patches[idx].declared && RanksIncoming(patches, rank)
    requires Extends(entered, order, v1, o1)
    requires forall j: nat :: Open(entered, order, j) ==> j == idx || rank(patches[j].id) > rank(patches[idx].id)
    ensures OpenAbove(patches, rank, v1, o1, rank(patches[parent].id))
    ensures v1[parent] ==> parent in o1
  {
    assert rank(patches[parent].id) < rank(patches[idx].id);
    if v1[parent] {
      VisitedParentIsDone(patches, rank, v1, o1, idx, parent);
    }
  }

  /** The listed patches in the order the recursion finished them. */
  function Reordered(patches: seq<Incoming>, order: seq<nat>): (r: seq<Incoming>)
    requires forall i :: 0 <= i < |order| ==> order[i] < |patches|
    ensures |r| == |order|
  {
    seq(|order|, i requires 0 <= i < |order| => patches[order[i]])
  }

  /** The order a depth-first sort promises: each patch once, declared parents before children. */
  ghost predicate ParentsLead(patches: seq<Incoming>) {
    && Distinct(patches)
    && forall i, p :: 0 <= i < |patches| && p in patches[i].declared && Listed(patches, p) ==> Listed(patches[..i], p)
  }

  lemma DoneParentsLead(patches: seq<Incoming>, index: map<Id, nat>, order: seq<nat>)
    requires Indexes(patches, index) && ParentsDone(patches, index, order)
    requires forall i, j :: 0 <= i < j < |order| ==> order[i] != order[j]
    ensures forall i :: 0 <= i < |order| ==> order[i] < |patches|
    ensures ParentsLead(Reordered(patches, order))
  {
    forall i | 0 <= i < |order|
      ensures order[i] < |patches|
    {
      assert HasParentsBefore(patches, index, order, i);
    }
    var r := Reordered(patches, order);
    forall i, p | 0 <= i < |r| && p in r[i].declared && Listed(r, p)
      ensures Listed(r[..i], p)
    {
      assert HasParentsBefore(patches, index, order, i);
      var m :| 0 <= m < |r| && r[m].id == p;
      assert index[p] in order[..i];
      var l :| 0 <= l < i && order[..i][l] == index[p];
      assert r[..i][l].id == p;
    }
  }

  /** Sorting keeps the patches and, unless they declare each other in a circle, puts parents first. */
  method SortParentsFirst(patches: seq<Incoming>, ghost rank: Id -> nat) returns (sorted: seq<Incoming>)
    requires Distinct(patches)
    ensures Distinct(sorted) && forall x :: x in sorted <==> x in patches
    ensures RanksIncoming(patches, rank) ==> ParentsLead(sorted)
  {
    var index := IndexMap(patches);
    IndexMapIndexes(patches);
    var visited := new bool[|patches|](_ => false);
    var order := [];
    NothingOpen(patches, index, visited[..]);
    for i := 0 to |patches|
      invariant AtTop(visited[..], order) && forall j :: 0 <= j < i ==> visited[j]
      invariant RanksIncoming(patches, rank) ==> ParentsDone(patches, index, order)
    {
      hide ParentsDone, RanksIncoming;
      if !visited[i] {
        order := Dfs(patches, index, visited, order, i, rank);
      }
    }
    hide ParentsDone, RanksIncoming, ParentsLead, Indexes;
    AllFinished(patches, visited[..], order);
    sorted := Reordered(patches, order);
    if RanksIncoming(patches, rank) {
      DoneParentsLead(patches, index, order);
    }
  }

  /** Between two calls from the top nothing is open. */
  ghost predicate AtTop(visited: seq<bool>, order: seq<nat>) {
    Finished(visited, order) && forall j: nat :: !Open(visited, order, j)
  }

  lemma NothingOpen(patches: seq<Incoming>, index: map<Id, nat>, visited: seq<bool>)
    requires forall j :: 0 <= j < |visited| ==> !visited[j]
    ensures AtTop(visited, []) && ParentsDone(patches, index, [])
  {
  }

  lemma AllFinished(patches: seq<Incoming>, visited: seq<bool>, order: seq<nat>)
    requires |visited| == |patches| && AtTop(visited, order) && Distinct(patches)
    requires forall j :: 0 <= j < |patches| ==> visited[j]
    ensures forall i :: 0 <= i < |order| ==> order[i] < |patches|
    ensures Distinct(Reordered(patches, order))
    ensures forall x :: x in Reordered(patches, order) <==> x in patches
  {
    var r := Reordered(patches, order);
    forall x | x in patches
      ensures x in r
    {
      var j: nat :| j < |patches| && patches[j] == x;
      assert !Open(visited, order, j);
      var i :| 0 <= i < |order| && order[i] == j;
      assert r[i] == x;
    }
    forall i, j | 0 <= i < j < |r|
      ensures r[i].id != r[j].id
    {
      assert order[i] != order[j];
    }
  }

  // ---- the answer to a pull ----

  /** The stored patches the client lacks; `list` is the order in which a hash set happens to give them. */
  method CollectNewPatches(stored: seq<Incoming>, ancestors: set<Id>, ghost rank: Id -> nat)
    returns (lacking: seq<Incoming>)
    requires Distinct(stored)
    ensures Distinct(lacking) && forall x :: x in lacking <==> x in stored && x.id !in ancestors
    ensures RanksIncoming(stored, rank) ==> ParentsLead(lacking)
  {
    var all := Reach(ParentMap(stored), Ids(stored));
    var index := IndexMap(stored);
    IndexMapIndexes(stored);
    StoredAreReached(stored);
    var list := Collect(set x | x in all && x !in ancestors && x in index);
    var unsorted := Chosen(stored, index, list);
    ChosenAre(stored, index, list);
    lacking := SortParentsFirst(unsorted, rank);
    if RanksIncoming(stored, rank) {
      RanksFewer(stored, unsorted, rank);
    }
    forall x
      ensures x in unsorted <==> x in stored && x.id !in ancestors
    {
    }
  }

  function Ids(patches: seq<Incoming>): (r: seq<Id>)
    ensures |r| == |patches|
  {
    seq(|patches|, i requires 0 <= i < |patches| => patches[i].id)
  }

  lemma StoredAreReached(stored: seq<Incoming>)
    ensures forall i :: 0 <= i < |stored| ==> FromStart(ParentMap(stored), Ids(stored), stored[i].id)
  {
    forall i | 0 <= i < |stored|
      ensures FromStart(ParentMap(stored), Ids(stored), stored[i].id)
    {
      assert Ids(stored)[i] == stored[i].id;
      assert IsAncestorOrSelf(ParentMap(stored), stored[i].id, stored[i].id);
    }
  }

  function Chosen(stored: seq<Incoming>, index: map<Id, nat>, list: seq<Id>): (r: seq<Incoming>)
    requires forall x :: x in list ==> x in index && index[x] < |stored|
    ensures |r| == |list|
  {
    seq(|list|, i requires 0 <= i < |list| => assert list[i] in list; stored[index[list[i]]])
  }

  lemma ChosenAre(stored: seq<Incoming>, index: map<Id, nat>, list: seq<Id>)
    requires Indexes(stored, index) && NoDuplicates(list) && forall x :: x in list ==> x in index
    ensures Distinct(Chosen(stored, index, list))
    ensures forall x :: x in Chosen(stored, index, list) <==> x in stored && x.id in list
  {
    var r := Chosen(stored, index, list);
    forall i | 0 <= i < |r|
      ensures r[i].id == list[i] && r[i] in stored
    {
      assert list[i] in list;
    }
    forall x | x in stored && x.id in list
      ensures x in r
    {
      var i :| 0 <= i < |list| && list[i] == x.id;
      var j :| 0 <= j < |stored| && stored[j] == x;
      assert r[i] == x;
    }
  }

  lemma RanksFewer(patches: seq<Incoming>, fewer: seq<Incoming>, rank: Id -> nat)
    requires RanksIncoming(patches, rank) && forall x :: x in fewer ==> x in patches
    ensures RanksIncoming(fewer, rank)
  {
    forall i, p | 0 <= i < |fewer| && p in fewer[i].declared
      ensures rank(p) < rank(fewer[i].id)
    {
      assert fewer[i] in patches;
      var j :| 0 <= j < |patches| && patches[j] == fewer[i];
    }
  }

  /** The hub has this patch, and takes it not to be at the client. */
  ghost predicate Lacks(stored: seq<Incoming>, tips: seq<Id>, x: Id) {
    Listed(stored, x) && !ClientHas(stored, tips, x)
  }

  /** Only what the client lacks is served, and every lacking parent before its child, cut or not. */
  ghost predicate Served(stored: seq<Incoming>, tips: seq<Id>, response: seq<Incoming>) {
    && Distinct(response)
    && (forall x :: x in response ==> x in stored && !ClientHas(stored, tips, x.id))
    && forall i, p :: 0 <= i < |response| && p in response[i].declared && Lacks(stored, tips, p) ==>
         Listed(response[..i], p)
  }

  /** A pull: the list of all that the client lacks, or as much of its front as the depth asked for allows. */
  method Pull(stored: seq<Incoming>, tips: seq<Id>, maxDepth: Option<nat>, ghost rank: Id -> nat)
    returns (response: seq<Incoming>, ghost lacking: seq<Incoming>)
    requires Distinct(stored)
    ensures Distinct(lacking) && forall x :: x in lacking <==> x in stored && !ClientHas(stored, tips, x.id)
    ensures response == if maxDepth.Some? && maxDepth.value < |lacking| then lacking[..maxDepth.value] else lacking
    ensures RanksIncoming(stored, rank) ==> ParentsLead(response) && Served(stored, tips, response)
  {
    var ancestors := CollectAncestors(stored, tips);
    response := CollectNewPatches(stored, ancestors, rank);
    lacking := response;
    if RanksIncoming(stored, rank) {
      AllLackingServed(stored, tips, lacking);
    }
    if maxDepth.Some? && maxDepth.value < |response| {
      response := response[..maxDepth.value];
      if RanksIncoming(stored, rank) {
        CutIsServed(stored, tips, lacking, maxDepth.value);
        ServedParentsLead(stored, tips, response);
      }
    }
  }

  lemma AllLackingServed(stored: seq<Incoming>, tips: seq<Id>, lacking: seq<Incoming>)
    requires ParentsLead(lacking)
    requires forall x :: x in lacking <==> x in stored && !ClientHas(stored, tips, x.id)
    ensures Served(stored, tips, lacking)
  {
    hide ClientHas;
    forall i, p | 0 <= i < |lacking| && p in lacking[i].declared && Lacks(stored, tips, p)
      ensures Listed(lacking[..i], p)
    {
      var m :| 0 <= m < |stored| && stored[m].id == p;
      assert stored[m] in lacking;
      var n :| 0 <= n < |lacking| && lacking[n] == stored[m];
      assert Listed(lacking, p);
    }
  }

  /** What is served stays served when the list is cut, or when an import stops halfway. */
  lemma CutIsServed(stored: seq<Incoming>, tips: seq<Id>, response: seq<Incoming>, n: nat)
    requires Served(stored, tips, response) && n <= |response|
    ensures Served(stored, tips, response[..n])
  {
    hide ClientHas, Lacks;
    var cut := response[..n];
    forall i, p | 0 <= i < |cut| && p in cut[i].declared && Lacks(stored, tips, p)
      ensures Listed(cut[..i], p)
    {
      assert cut[i] == response[i] && cut[..i] == response[..i];
    }
    forall x | x in cut
      ensures x in response
    {
    }
  }

  lemma ServedParentsLead(stored: seq<Incoming>, tips: seq<Id>, response: seq<Incoming>)
    requires Served(stored, tips, response)
    ensures ParentsLead(response)
  {
    hide ClientHas;
    forall i, p | 0 <= i < |response| && p in response[i].declared && Listed(response, p)
      ensures Listed(response[..i], p)
    {
      var m :| 0 <= m < |response| && response[m].id == p;
      assert response[m] in response;
      var n :| 0 <= n < |stored| && stored[n] == response[m];
      assert Lacks(stored, tips, p);
    }
  }

  // ---- which patches a cut pull serves ----

  /** The part of a patch's history, itself included, that the client lacks. */
  ghost predicate LackingHistory(stored: seq<Incoming>, tips: seq<Id>, x: Id, y: Id) {
    Lacks(stored, tips, y) && IsAncestorOrSelf(ParentMap(stored), y, x)
  }

  /** What a client has is closed under declared parents, so what it lacks is closed the other way. */
  lemma HadParent(stored: seq<Incoming>, tips: seq<Id>, x: Id, p: Id)
    requires Distinct(stored) && ClientHas(stored, tips, x)
    requires x in ParentMap(stored) && p in ParentMap(stored)[x]
    ensures ClientHas(stored, tips, p)
  {
    var par := ParentMap(stored);
    var t :| t in tips && Listed(stored, t) && IsAncestorOrSelf(par, x, t);
    ParentIsAncestor(par, x, p);
    hide IsAncestor;
    if x != t {
      AncestorTransitive(par, t, x, p);
    }
  }

  /** A patch is served only together with all of its history that the client lacks. */
  lemma {:induction false} HistoryIsServed(
      stored: seq<Incoming>, tips: seq<Id>, response: seq<Incoming>, path: seq<Id>)
    requires Distinct(stored) && Served(stored, tips, response)
    requires IsPath(ParentMap(stored), path) && Listed(response, path[0]) && Lacks(stored, tips, path[|path| - 1])
    ensures Listed(response, path[|path| - 1])
  {
    hide ClientHas;
    if |path| > 1 {
      var par := ParentMap(stored);
      ParentMapHolds(stored);
      LackingAlong(stored, tips, path, 1);
      var i :| 0 <= i < |response| && response[i].id == path[0];
      assert response[i] in response;
      var n :| 0 <= n < |stored| && stored[n] == response[i];
      assert path[1] in par[path[0]] && par[path[0]] == response[i].declared;
      assert Listed(response[..i], path[1]);
      ListedInLonger(response, i, path[1]);
      assert IsPath(par, path[1..]);
      HistoryIsServed(stored, tips, response, path[1..]);
    }
  }

  lemma ListedInLonger(patches: seq<Incoming>, n: nat, x: Id)
    requires n <= |patches| && Listed(patches[..n], x)
    ensures Listed(patches, x)
  {
    var i :| 0 <= i < n && patches[..n][i].id == x;
    assert patches[i].id == x;
  }

  /** On the way to a lacking patch everything is lacking. */
  lemma {:induction false} LackingAlong(stored: seq<Incoming>, tips: seq<Id>, path: seq<Id>, k: nat)
    requires Distinct(stored) && IsPath(ParentMap(stored), path) && k < |path|
    requires Lacks(stored, tips, path[|path| - 1])
    ensures Lacks(stored, tips, path[k])
    decreases |path| - k
  {
    hide ClientHas;
    if k < |path| - 1 {
      LackingAlong(stored, tips, path, k + 1);
      ParentMapHolds(stored);
      if ClientHas(stored, tips, path[k]) {
        HadParent(stored, tips, path[k], path[k + 1]);
      }
    }
  }

  function IdSet(patches: seq<Incoming>): set<Id> {
    set x | x in patches :: x.id
  }

  lemma {:induction false} IdSetSize(patches: seq<Incoming>)
    ensures |IdSet(patches)| <= |patches|
  {
    if patches != [] {
      var last := |patches| - 1;
      IdSetSize(patches[..last]);
      assert IdSet(patches) == IdSet(patches[..last]) + {patches[last].id} by {
        assert forall x :: x in patches <==> x in patches[..last] || x == patches[last];
      }
    }
  }

  /**
   * A cut pull serves the oldest patches: a patch of which the client lacks more history than the depth allows is
   * not among them, and the newest patches of a branch are the last to come.
   */
  lemma CutMissesNewest(stored: seq<Incoming>, tips: seq<Id>, response: seq<Incoming>, x: Id, history: set<Id>)
    requires Distinct(stored) && Served(stored, tips, response)
    requires (forall y :: y in history ==> LackingHistory(stored, tips, x, y)) && |history| > |response|
    ensures !Listed(response, x)
  {
    hide Lacks, Served;
    if Listed(response, x) {
      forall y | y in history
        ensures y in IdSet(response)
      {
        assert LackingHistory(stored, tips, x, y);
        ServedWith(stored, tips, response, x, y);
      }
      SubsetSize(history, IdSet(response));
      IdSetSize(response);
    }
  }

  lemma ServedWith(stored: seq<Incoming>, tips: seq<Id>, response: seq<Incoming>, x: Id, y: Id)
    requires Distinct(stored) && Served(stored, tips, response) && Listed(response, x)
    requires LackingHistory(stored, tips, x, y)
    ensures Listed(response, y) && y in IdSet(response)
  {
    hide Lacks, Served;
    if x != y {
      var path :| IsPath(ParentMap(stored), path) && |path| >= 2 && path[0] == x && path[|path| - 1] == y;
      HistoryIsServed(stored, tips, response, path);
    }
    var i :| 0 <= i < |response| && response[i].id == y;
    assert response[i] in response;
  }

  // ---- what a client makes of it ----

  /** A list with parents first loses no link, whatever the client has stored already. */
  lemma LeadingParentsKeepLinks(client: Graph, response: seq<Incoming>)
    requires ParentsLead(response)
    ensures ParentsFirst(client, response) && NoLinkLost(client, response)
  {
    hide Listed, Distinct;
    LinksKeptIff(client, response);
  }
}
