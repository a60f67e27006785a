/**
 * Which patches an incremental push sends, and in which order: a walk from the branch tips over declared
 * parents, stopping at what the other side knows, followed by a topological sort.
 */
module PatchesSince {
  import opened PatchGraph

  // ---- the walk ----

  /** The declared parents that the other side does not know. */
  function Relevant(declared: seq<Id>, known: set<Id>): (r: seq<Id>)
    ensures forall p :: p in r <==> p in declared && p !in known
  {
    if declared == [] then []
    else if declared[0] in known then Relevant(declared[1..], known)
    else [declared[0]] + Relevant(declared[1..], known)
  }

  /** The parents the walk has not recorded yet. */
  function Unvisited(parents: seq<Id>, visited: set<Id>): (r: seq<Id>)
    ensures forall p :: p in r <==> p in parents && p !in visited
    ensures |r| <= |parents|
  {
    if parents == [] then []
    else if parents[0] in visited then Unvisited(parents[1..], visited)
    else [parents[0]] + Unvisited(parents[1..], visited)
  }

  datatype WalkState = WalkState(stack: seq<Id>, visited: Parents)

  ghost predicate Bounded(g: Graph, known: set<Id>, s: WalkState) {
    s.visited.Keys <= g.Keys - known
  }

  /**
   * One round of the walk. `visited` records the relevant parents of every patch visited. A patch taken
   * from the stack a second time has its record overwritten with no parents.
   */
  function Step(g: Graph, known: set<Id>, s: WalkState): WalkState
    requires s.stack != []
  {
    var id, rest := s.stack[|s.stack| - 1], s.stack[..|s.stack| - 1];
    if id in known then WalkState(rest, s.visited)
    else if id in s.visited then WalkState(rest, s.visited[id := []])
    else if id !in g then WalkState(rest, s.visited)
    else
      var parents := Relevant(g[id].declared, known);
      WalkState(rest + Unvisited(parents, s.visited.Keys + {id}), s.visited[id := parents])
  }

  lemma StepDescends(g: Graph, known: set<Id>, s: WalkState)
    requires Bounded(g, known, s) && s.stack != []
    ensures var s' := Step(g, known, s);
      && Bounded(g, known, s') && s.visited.Keys <= s'.visited.Keys
      && |g.Keys - s'.visited.Keys| <= |g.Keys - s.visited.Keys|
      && (|g.Keys - s'.visited.Keys| == |g.Keys - s.visited.Keys| ==> |s'.stack| < |s.stack|)
  {
    var id, s' := s.stack[|s.stack| - 1], Step(g, known, s);
    if id !in known && id !in s.visited && id in g {
      assert g.Keys - s.visited.Keys == (g.Keys - s'.visited.Keys) + {id};
    } else {
      assert s'.visited.Keys == s.visited.Keys;
    }
  }

  /** The records when the stack is empty. */
  function Walk(g: Graph, known: set<Id>, s: WalkState): (visited: Parents)
    requires Bounded(g, known, s)
    ensures visited.Keys <= g.Keys - known
    decreases |g.Keys - s.visited.Keys|, |s.stack|
  {
    if s.stack == [] then s.visited
    else
      StepDescends(g, known, s);
      Walk(g, known, Step(g, known, s))
  }

  function Start(tips: seq<Id>): WalkState {
    WalkState(tips, map[])
  }

  method TakeStep(g: Graph, known: set<Id>, s: WalkState) returns (s': WalkState)
    requires s.stack != []
    ensures s' == Step(g, known, s)
  {
    var id, stack, visited := s.stack[|s.stack| - 1], s.stack[..|s.stack| - 1], s.visited;
    if id !in known {
      var wasVisited := id in visited;
      visited := visited[id := []];
      if !wasVisited {
        if id in g {
          var parents := Relevant(g[id].declared, known);
          assert visited.Keys == s.visited.Keys + {id};
          stack := stack + Unvisited(parents, visited.Keys);
          visited := visited[id := parents];
        } else {
          visited := map x | x in visited && x != id :: visited[x];
          assert visited == s.visited;
        }
      }
    }
    return WalkState(stack, visited);
  }

  method WalkFromTips(g: Graph, known: set<Id>, tips: seq<Id>) returns (visited: Parents)
    ensures visited == Walk(g, known, Start(tips))
  {
    hide Step;
    var s := Start(tips);
    while s.stack != []
      invariant Bounded(g, known, s) && Walk(g, known, s) == Walk(g, known, Start(tips))
      decreases |g.Keys - s.visited.Keys|, |s.stack|
    {
      StepDescends(g, known, s);
      s := TakeStep(g, known, s);
    }
    return s.visited;
  }

  /** The stored patches the other side lacks, with their declared parents. */
  function Unknown(g: Graph, known: set<Id>): Parents {
    map x | x in g && x !in known :: g[x].declared
  }

  /** A patch that the walk can reach from a tip without passing one the other side knows. */
  ghost predicate Reached(g: Graph, known: set<Id>, tips: seq<Id>, x: Id) {
    x in g && x !in known && FromTip(g, known, tips, x)
  }

  /** A stored, unknown declared parent of a visited patch is visited or on the stack. */
  ghost predicate ClosedSoFar(g: Graph, known: set<Id>, s: WalkState) {
    forall x, q :: x in s.visited && x in g && q in g[x].declared && q in g && q !in known ==>
      q in s.visited || q in s.stack
  }

  ghost predicate Pending(g: Graph, known: set<Id>, s: WalkState, x: Id) {
    x in g && x !in known ==> x in s.visited || x in s.stack
  }

  lemma StepCloses(g: Graph, known: set<Id>, s: WalkState)
    requires Bounded(g, known, s) && s.stack != [] && ClosedSoFar(g, known, s)
    ensures ClosedSoFar(g, known, Step(g, known, s))
    ensures forall x :: Pending(g, known, s, x) ==> Pending(g, known, Step(g, known, s), x)
  {
    var id, rest := s.stack[|s.stack| - 1], s.stack[..|s.stack| - 1];
    assert forall x :: x in s.stack <==> x in rest || x == id;
    if id !in known && id !in s.visited && id in g {
      var parents := Relevant(g[id].declared, known);
      var pushed := Unvisited(parents, s.visited.Keys + {id});
      assert forall x :: x in rest + pushed <==> x in rest || x in pushed;
    }
  }

  lemma {:induction false} WalkCloses(g: Graph, known: set<Id>, s: WalkState)
    requires Bounded(g, known, s) && ClosedSoFar(g, known, s)
    ensures var r := WalkState([], Walk(g, known, s));
      ClosedSoFar(g, known, r) && forall x :: Pending(g, known, s, x) ==> Pending(g, known, r, x)
    decreases |g.Keys - s.visited.Keys|, |s.stack|
  {
    hide Step, ClosedSoFar, Pending;
    if s.stack != [] {
      StepDescends(g, known, s);
      StepCloses(g, known, s);
      WalkCloses(g, known, Step(g, known, s));
    }
  }

  ghost predicate FromTip(g: Graph, known: set<Id>, tips: seq<Id>, x: Id) {
    exists t :: t in tips && IsAncestorOrSelf(Unknown(g, known), x, t)
  }

  ghost predicate AllFromTips(g: Graph, known: set<Id>, tips: seq<Id>, s: WalkState) {
    && (forall x :: x in s.stack ==> FromTip(g, known, tips, x))
    && (forall x :: x in s.visited ==> FromTip(g, known, tips, x))
  }

  lemma StepFromTips(g: Graph, known: set<Id>, tips: seq<Id>, s: WalkState)
    requires s.stack != [] && AllFromTips(g, known, tips, s)
    ensures AllFromTips(g, known, tips, Step(g, known, s))
  {
    hide FromTip;
    var id, rest := s.stack[|s.stack| - 1], s.stack[..|s.stack| - 1];
    assert forall x :: x in s.stack <==> x in rest || x == id;
    if id !in known && id !in s.visited && id in g {
      var parents := Relevant(g[id].declared, known);
      var pushed := Unvisited(parents, s.visited.Keys + {id});
      forall x | x in rest + pushed
        ensures FromTip(g, known, tips, x)
      {
        if x !in rest {
          assert x in pushed;
          ReachParent(g, known, tips, id, x);
        }
      }
    }
  }

  lemma {:induction false} WalkFromTipsOnly(g: Graph, known: set<Id>, tips: seq<Id>, s: WalkState)
    requires Bounded(g, known, s) && AllFromTips(g, known, tips, s)
    ensures forall x :: x in Walk(g, known, s) ==> FromTip(g, known, tips, x)
    decreases |g.Keys - s.visited.Keys|, |s.stack|
  {
    hide Step, FromTip;
    if s.stack != [] {
      StepDescends(g, known, s);
      StepFromTips(g, known, tips, s);
      WalkFromTipsOnly(g, known, tips, Step(g, known, s));
    }
  }

  lemma ReachParent(g: Graph, known: set<Id>, tips: seq<Id>, x: Id, p: Id)
    requires FromTip(g, known, tips, x) && x in g && x !in known && p in g[x].declared
    ensures FromTip(g, known, tips, p)
  {
    var t :| t in tips && IsAncestorOrSelf(Unknown(g, known), x, t);
    AncestorExtends(Unknown(g, known), t, x, p);
  }

  lemma {:induction false} PathIsVisited(g: Graph, known: set<Id>, visited: Parents, path: seq<Id>)
    requires visited.Keys <= g.Keys - known && ClosedSoFar(g, known, WalkState([], visited))
    requires IsPath(Unknown(g, known), path) && path[0] in visited
    requires path[|path| - 1] in g && path[|path| - 1] !in known
    ensures path[|path| - 1] in visited
  {
    if |path| > 1 {
      var par := Unknown(g, known);
      assert path[0] in par && path[1] in par[path[0]];
      assert |path| > 2 ==> path[1] in par;
      assert IsPath(par, path[1..]);
      PathIsVisited(g, known, visited, path[1..]);
    }
  }

  lemma AncestorIsVisited(g: Graph, known: set<Id>, visited: Parents, t: Id, x: Id)
    requires visited.Keys <= g.Keys - known && ClosedSoFar(g, known, WalkState([], visited))
    requires t in g && t !in known ==> t in visited
    requires x in g && x !in known && IsAncestorOrSelf(Unknown(g, known), x, t)
    ensures x in visited
  {
    hide ClosedSoFar;
    if x != t {
      var par := Unknown(g, known);
      AncestorsNeedParents(par, x, t);
      var path :| IsPath(par, path) && |path| >= 2 && path[0] == t && path[|path| - 1] == x;
      PathIsVisited(g, known, visited, path);
    }
  }

  /** The walk visits exactly the patches it can reach from a tip without passing one the other side knows. */
  lemma WalkIsReached(g: Graph, known: set<Id>, tips: seq<Id>, x: Id)
    ensures x in Walk(g, known, Start(tips)) <==> Reached(g, known, tips, x)
  {
    hide Walk, IsAncestor;
    WalkCloses(g, known, Start(tips));
    WalkFromTipsOnly(g, known, tips, Start(tips));
    if Reached(g, known, tips, x) {
      var t :| t in tips && IsAncestorOrSelf(Unknown(g, known), x, t);
      assert Pending(g, known, Start(tips), t);
      AncestorIsVisited(g, known, Walk(g, known, Start(tips)), t, x);
    }
  }

  // ---- what the walk records ----

  ghost predicate Recorded(g: Graph, known: set<Id>, visited: Parents) {
    forall x :: x in visited ==> x in g && (visited[x] == Relevant(g[x].declared, known) || visited[x] == [])
  }

  lemma StepRecords(g: Graph, known: set<Id>, s: WalkState)
    requires s.stack != [] && Recorded(g, known, s.visited)
    ensures Recorded(g, known, Step(g, known, s).visited)
  {
  }

  /** Every record is the patch's relevant parents, or has been wiped. */
  lemma {:induction false} WalkRecords(g: Graph, known: set<Id>, s: WalkState)
    requires Bounded(g, known, s) && Recorded(g, known, s.visited)
    ensures Recorded(g, known, Walk(g, known, s))
    decreases |g.Keys - s.visited.Keys|, |s.stack|
  {
    hide Step, Recorded;
    if s.stack != [] {
      StepDescends(g, known, s);
      StepRecords(g, known, s);
      WalkRecords(g, known, Step(g, known, s));
    }
  }

  ghost predicate Wiped(g: Graph, known: set<Id>, visited: Parents, x: Id) {
    x in visited && x in g && visited[x] != Relevant(g[x].declared, known)
  }

  /** A number that grows from declared parents to children; content-addressed ids always have one. */
  ghost predicate Ranked(g: Graph, rank: Id -> nat) {
    forall x, p :: x in g && p in g[x].declared ==> rank(p) < rank(x)
  }

  ghost predicate NothingWiped(g: Graph, known: set<Id>, visited: Parents) {
    forall x :: !Wiped(g, known, visited, x)
  }

  // ---- when a record is wiped ----

  /** The stack works downwards: what lies on top is finished before what lies below is looked at. */
  lemma {:induction false} WalkSplits(g: Graph, known: set<Id>, below: seq<Id>, s: WalkState)
    requires Bounded(g, known, s)
    ensures Walk(g, known, WalkState(below + s.stack, s.visited)) ==
            Walk(g, known, WalkState(below, Walk(g, known, s)))
    decreases |g.Keys - s.visited.Keys|, |s.stack|
  {
    if s.stack == [] {
      assert below + s.stack == below;
    } else {
      StepDescends(g, known, s);
      WalkSplits(g, known, below, Step(g, known, s));
      StepOnTop(g, known, below, s);
      hide Step;
      assert below + s.stack != [];
    }
  }

  lemma StepOnTop(g: Graph, known: set<Id>, below: seq<Id>, s: WalkState)
    requires s.stack != []
    ensures var r := Step(g, known, s);
      Step(g, known, WalkState(below + s.stack, s.visited)) == WalkState(below + r.stack, r.visited)
  {
    var rest := s.stack[..|s.stack| - 1];
    var all := below + s.stack;
    assert all[..|all| - 1] == below + rest;
    var id := s.stack[|s.stack| - 1];
    if id in g {
      var pushed := Unvisited(Relevant(g[id].declared, known), s.visited.Keys + {id});
      assert (below + rest) + pushed == below + (rest + pushed);
    }
  }

  ghost predicate NoMerges(g: Graph) {
    forall x :: x in g ==> |g[x].declared| <= 1
  }

  ghost predicate OneUnvisited(s: WalkState) {
    |s.stack| <= 1 && forall t :: t in s.stack ==> t !in s.visited
  }

  lemma StepDownChain(g: Graph, known: set<Id>, s: WalkState)
    requires NoMerges(g) && s.stack != [] && OneUnvisited(s)
    ensures OneUnvisited(Step(g, known, s))
    ensures forall x :: Wiped(g, known, Step(g, known, s).visited, x) <==> Wiped(g, known, s.visited, x)
  {
    var id := s.stack[0];
    assert s.stack == [id] && id in s.stack;
    if id !in known && id in g {
      var parents := Relevant(g[id].declared, known);
      RelevantIsShorter(g[id].declared, known);
      var pushed := Unvisited(parents, s.visited.Keys + {id});
      assert s.stack[..0] + pushed == pushed;
      assert Step(g, known, s) == WalkState(pushed, s.visited[id := parents]);
    }
  }

  /** Without merges a walk down one chain wipes nothing. */
  lemma {:induction false} ChainKeepsRecords(g: Graph, known: set<Id>, s: WalkState)
    requires NoMerges(g) && Bounded(g, known, s) && OneUnvisited(s)
    ensures forall x :: Wiped(g, known, Walk(g, known, s), x) <==> Wiped(g, known, s.visited, x)
    decreases |g.Keys - s.visited.Keys|, |s.stack|
  {
    hide Step, Wiped, NoMerges;
    if s.stack != [] {
      StepDescends(g, known, s);
      StepDownChain(g, known, s);
      ChainKeepsRecords(g, known, Step(g, known, s));
    }
  }

  lemma {:induction false} RelevantIsShorter(declared: seq<Id>, known: set<Id>)
    ensures |Relevant(declared, known)| <= |declared|
  {
    if declared != [] {
      RelevantIsShorter(declared[1..], known);
    }
  }

  /** One more tip wipes its own record if it was visited and has an unknown parent, and nothing else. */
  lemma OneTipWipes(g: Graph, known: set<Id>, visited: Parents, t: Id)
    requires NoMerges(g) && visited.Keys <= g.Keys - known && Recorded(g, known, visited)
    ensures forall x :: Wiped(g, known, Walk(g, known, WalkState([t], visited)), x) <==>
              Wiped(g, known, visited, x) || (x == t && t in visited && Relevant(g[t].declared, known) != [])
  {
    var s := WalkState([t], visited);
    if t in visited {
      assert s.stack[..0] == [];
      assert Step(g, known, s) == WalkState([], visited[t := []]);
    } else {
      hide Wiped, NoMerges;
      ChainKeepsRecords(g, known, s);
    }
  }

  /** The tip at `k` has an unknown parent and is reached from a tip listed after it. */
  ghost predicate ReachedAgain(g: Graph, known: set<Id>, tips: seq<Id>, k: nat)
    requires k < |tips|
  {
    Reached(g, known, tips[k + 1..], tips[k]) && Relevant(g[tips[k]].declared, known) != []
  }

  ghost predicate WipedByTips(g: Graph, known: set<Id>, tips: seq<Id>, x: Id) {
    exists k: nat :: k < |tips| && tips[k] == x && ReachedAgain(g, known, tips, k)
  }

  lemma WipedByTipsStep(g: Graph, known: set<Id>, tips: seq<Id>, x: Id)
    requires tips != []
    ensures WipedByTips(g, known, tips, x) <==>
            WipedByTips(g, known, tips[1..], x) || (x == tips[0] && ReachedAgain(g, known, tips, 0))
  {
    hide Reached;
    var rest := tips[1..];
    forall k: nat | k < |rest|
      ensures rest[k] == tips[k + 1] && (ReachedAgain(g, known, rest, k) <==> ReachedAgain(g, known, tips, k + 1))
    {
      assert rest[k + 1..] == tips[k + 1 + 1..];
    }
    if WipedByTips(g, known, tips, x) {
      var k: nat :| k < |tips| && tips[k] == x && ReachedAgain(g, known, tips, k);
      if k > 0 {
        assert rest[k - 1] == x && ReachedAgain(g, known, rest, k - 1);
      }
    }
  }

  /**
    * Without merges, exactly these records are wiped: those of tips with an unknown parent that a tip listed
    * later reaches, a tip that is listed twice included.
    */
  lemma {:induction false} WipedIff(g: Graph, known: set<Id>, tips: seq<Id>)
    requires NoMerges(g)
    ensures forall x :: Wiped(g, known, Walk(g, known, Start(tips)), x) <==> WipedByTips(g, known, tips, x)
    decreases |tips|
  {
    hide Step, Wiped, NoMerges, Reached, Recorded;
    if tips != [] {
      NothingRecorded(g, known);
      var rest := tips[1..];
      WipedIff(g, known, rest);
      var visited := Walk(g, known, Start(rest));
      WalkSplits(g, known, [tips[0]], Start(rest));
      assert [tips[0]] + rest == tips;
      WalkRecords(g, known, Start(rest));
      OneTipWipes(g, known, visited, tips[0]);
      WalkIsReached(g, known, rest, tips[0]);
      assert tips[0 + 1..] == rest;
      hide Walk, WipedByTips;
      forall x {
        WipedByTipsStep(g, known, tips, x);
      }
    } else {
      EmptyWalk(g, known);
    }
  }

  lemma NothingRecorded(g: Graph, known: set<Id>)
    ensures Recorded(g, known, map[])
  {
  }

  lemma EmptyWalk(g: Graph, known: set<Id>)
    ensures forall x :: !Wiped(g, known, Walk(g, known, Start([])), x)
  {
  }

  // ---- histories with merges ----

  /** No entry of the list is an ancestor, through unknown patches, of an entry behind it, nor the same. */
  ghost predicate NoneReachedLater(g: Graph, known: set<Id>, ids: seq<Id>) {
    forall i, j :: 0 <= i < j < |ids| ==> !ReachedFrom(g, known, ids[i], ids[j])
  }

  ghost predicate ReachedFrom(g: Graph, known: set<Id>, x: Id, t: Id) {
    x in g && x !in known && IsAncestorOrSelf(Unknown(g, known), x, t)
  }

  lemma {:induction false} UnvisitedNotLater(g: Graph, known: set<Id>, ids: seq<Id>, visited: set<Id>)
    requires NoneReachedLater(g, known, ids)
    ensures NoneReachedLater(g, known, Unvisited(ids, visited))
  {
    hide ReachedFrom;
    if ids != [] {
      assert forall i, j :: 0 <= i < j < |ids[1..]| ==> ids[1..][i] == ids[i + 1] && ids[1..][j] == ids[j + 1];
      UnvisitedNotLater(g, known, ids[1..], visited);
      var rest := Unvisited(ids[1..], visited);
      forall j | 0 <= j < |rest|
        ensures !ReachedFrom(g, known, ids[0], rest[j])
      {
        assert rest[j] in rest;
        var k :| 0 <= k < |ids[1..]| && ids[1..][k] == rest[j];
        assert ids[k + 1] == rest[j];
      }
    }
  }

  /** Waiting patches are not visited yet, and none is reached from one above it. */
  ghost predicate StackOnce(g: Graph, known: set<Id>, s: WalkState) {
    NoneReachedLater(g, known, s.stack) && forall t :: t in s.stack ==> t !in s.visited
  }

  /** The tips, and the unknown parents of each unknown patch, are listed before what they descend from. */
  ghost predicate ListedOnce(g: Graph, known: set<Id>, tips: seq<Id>) {
    && NoneReachedLater(g, known, tips)
    && forall x :: x in g && x !in known ==> NoneReachedLater(g, known, Relevant(g[x].declared, known))
  }

  lemma NotReachedFromParent(g: Graph, known: set<Id>, t: Id, id: Id, p: Id)
    requires !ReachedFrom(g, known, t, id) && id in g && id !in known && p in g[id].declared
    ensures !ReachedFrom(g, known, t, p)
  {
    var par := Unknown(g, known);
    if ReachedFrom(g, known, t, p) {
      ParentIsAncestor(par, id, p);
      if t != p {
        AncestorTransitive(par, id, p, t);
      }
    }
  }

  /** Taking the top off. */
  lemma PopKeepsOnce(g: Graph, known: set<Id>, s: WalkState)
    requires s.stack != [] && StackOnce(g, known, s)
    ensures var top := |s.stack| - 1;
      var id, rest := s.stack[top], s.stack[..top];
      && id !in s.visited && NoneReachedLater(g, known, rest) && (forall t :: t in rest ==> t !in s.visited)
      && forall i :: 0 <= i < top ==> !ReachedFrom(g, known, rest[i], id)
  {
    hide ReachedFrom;
    var top := |s.stack| - 1;
    var id, rest := s.stack[top], s.stack[..top];
    assert id in s.stack && forall i :: 0 <= i < top ==> rest[i] == s.stack[i] && rest[i] in s.stack;
  }

  lemma PushKeepsOnce(g: Graph, known: set<Id>, s: WalkState)
    requires ListedOnce(g, known, []) && Bounded(g, known, s) && s.stack != [] && StackOnce(g, known, s)
    ensures StackOnce(g, known, Step(g, known, s))
    ensures NothingWiped(g, known, s.visited) ==> NothingWiped(g, known, Step(g, known, s).visited)
  {
    PopKeepsOnce(g, known, s);
    var top := |s.stack| - 1;
    var id, rest := s.stack[top], s.stack[..top];
    if id !in known && id in g {
      var parents := Relevant(g[id].declared, known);
      var pushed := Unvisited(parents, s.visited.Keys + {id});
      assert NoneReachedLater(g, known, parents);
      SelfIsReached(g, known, id);
      hide ReachedFrom, NoneReachedLater, ListedOnce, Relevant, Unvisited;
      UnvisitedNotLater(g, known, parents, s.visited.Keys + {id});
      PushedOnce(g, known, rest, pushed, id);
      var visited := s.visited[id := parents];
      forall t | t in rest + pushed
        ensures t !in visited
      {
        if t in rest {
          var i :| 0 <= i < top && rest[i] == t;
          assert !ReachedFrom(g, known, rest[i], id);
        }
      }
      if NothingWiped(g, known, s.visited) {
        assert forall x :: x != id ==> Wiped(g, known, visited, x) == Wiped(g, known, s.visited, x);
      }
    }
  }

  lemma SelfIsReached(g: Graph, known: set<Id>, id: Id)
    ensures id in g && id !in known ==> ReachedFrom(g, known, id, id)
  {
  }

  lemma PushedOnce(g: Graph, known: set<Id>, rest: seq<Id>, pushed: seq<Id>, id: Id)
    requires NoneReachedLater(g, known, rest) && NoneReachedLater(g, known, pushed) && id in g && id !in known
    requires forall i :: 0 <= i < |rest| ==> !ReachedFrom(g, known, rest[i], id)
    requires forall p :: p in pushed ==> p in g[id].declared
    ensures NoneReachedLater(g, known, rest + pushed)
  {
    hide ReachedFrom;
    var all := rest + pushed;
    forall i, j | 0 <= i < j < |all|
      ensures !ReachedFrom(g, known, all[i], all[j])
    {
      if i < |rest| <= j {
        assert all[j] in pushed;
        NotReachedFromParent(g, known, all[i], id, all[j]);
      }
    }
  }

  lemma {:induction false} WalkOnce(g: Graph, known: set<Id>, s: WalkState)
    requires ListedOnce(g, known, []) && Bounded(g, known, s) && StackOnce(g, known, s)
    requires NothingWiped(g, known, s.visited)
    ensures NothingWiped(g, known, Walk(g, known, s))
    decreases |g.Keys - s.visited.Keys|, |s.stack|
  {
    hide Step, StackOnce, NothingWiped, ListedOnce;
    if s.stack != [] {
      StepDescends(g, known, s);
      PushKeepsOnce(g, known, s);
      WalkOnce(g, known, Step(g, known, s));
    }
  }

  /** With or without merges: if no list names a patch before one it is reached from, nothing is wiped. */
  lemma NothingWipedIfListedOnce(g: Graph, known: set<Id>, tips: seq<Id>)
    requires ListedOnce(g, known, tips)
    ensures NothingWiped(g, known, Walk(g, known, Start(tips)))
  {
    WalkOnce(g, known, Start(tips));
  }
}
