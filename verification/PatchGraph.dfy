/** Patches and their parents: paths, ancestors, and the in-memory DAG with its ancestor cache. */
module PatchGraph {
  import opened Wrappers

  /** A 256-bit patch id, read as a number; ids are compared in this order. */
  type Id = nat

  // ---- paths in a parent relation ----

  type Parents = map<Id, seq<Id>>

  ghost predicate IsPath(par: Parents, path: seq<Id>) {
    && path != []
    && forall i :: 0 <= i < |path| - 1 ==> path[i] in par && path[i + 1] in par[path[i]]
  }

  /** A path of at least one edge leads from `x` to `y`. */
  ghost predicate IsAncestor(par: Parents, y: Id, x: Id) {
    exists path :: IsPath(par, path) && |path| >= 2 && path[0] == x && path[|path| - 1] == y
  }

  ghost predicate IsAncestorOrSelf(par: Parents, y: Id, x: Id) {
    y == x || IsAncestor(par, y, x)
  }

  ghost predicate Acyclic(par: Parents) {
    forall x :: !IsAncestor(par, x, x)
  }

  lemma ParentIsAncestor(par: Parents, x: Id, p: Id)
    requires x in par && p in par[x]
    ensures IsAncestor(par, p, x)
  {
    assert IsPath(par, [x, p]);
  }

  lemma AncestorsNeedParents(par: Parents, y: Id, x: Id)
    requires IsAncestor(par, y, x)
    ensures x in par && par[x] != []
  {
    var path :| IsPath(par, path) && |path| >= 2 && path[0] == x && path[|path| - 1] == y;
    assert path[1] in par[path[0]];
  }

  lemma AncestorExtends(par: Parents, x: Id, y: Id, p: Id)
    requires IsAncestorOrSelf(par, y, x) && y in par && p in par[y]
    ensures IsAncestor(par, p, x)
  {
    if y == x {
      ParentIsAncestor(par, x, p);
    } else {
      var path :| IsPath(par, path) && |path| >= 2 && path[0] == x && path[|path| - 1] == y;
      assert IsPath(par, path + [p]);
    }
  }

  lemma AncestorTransitive(par: Parents, x: Id, y: Id, z: Id)
    requires IsAncestor(par, y, x) && IsAncestor(par, z, y)
    ensures IsAncestor(par, z, x)
  {
    var p :| IsPath(par, p) && |p| >= 2 && p[0] == x && p[|p| - 1] == y;
    var q :| IsPath(par, q) && |q| >= 2 && q[0] == y && q[|q| - 1] == z;
    var r := p + q[1..];
    forall i | 0 <= i < |r| - 1
      ensures r[i] in par && r[i + 1] in par[r[i]]
    {
      if i >= |p| - 1 {
        assert r[i] == q[i - (|p| - 1)] && r[i + 1] == q[i - (|p| - 1) + 1];
      }
    }
    assert IsPath(par, r);
  }

  /** A set that holds the parents of its members holds their ancestors. */
  lemma {:induction false} ClosedHoldsPath(par: Parents, closed: set<Id>, path: seq<Id>)
    requires forall x, p :: x in closed && x in par && p in par[x] ==> p in closed
    requires IsPath(par, path) && path[0] in closed
    ensures path[|path| - 1] in closed
  {
    if |path| > 1 {
      assert path[1] in par[path[0]];
      assert IsPath(par, path[1..]);
      ClosedHoldsPath(par, closed, path[1..]);
    }
  }

  lemma ClosedHoldsAncestors(par: Parents, closed: set<Id>, x: Id, y: Id)
    requires forall x, p :: x in closed && x in par && p in par[x] ==> p in closed
    requires x in closed && IsAncestorOrSelf(par, y, x)
    ensures y in closed
  {
    if y != x {
      var path :| IsPath(par, path) && |path| >= 2 && path[0] == x && path[|path| - 1] == y;
      ClosedHoldsPath(par, closed, path);
    }
  }

  /** A number that grows along every edge rules out cycles. */
  lemma {:induction false} RankFalls(par: Parents, rank: Id -> nat, path: seq<Id>)
    requires forall x, p :: x in par && p in par[x] ==> rank(p) < rank(x)
    requires IsPath(par, path) && |path| >= 2
    ensures rank(path[|path| - 1]) < rank(path[0])
  {
    assert path[1] in par[path[0]];
    if |path| > 2 {
      assert IsPath(par, path[1..]);
      RankFalls(par, rank, path[1..]);
    }
  }

  lemma RankedIsAcyclic(par: Parents, rank: Id -> nat)
    requires forall x, p :: x in par && p in par[x] ==> rank(p) < rank(x)
    ensures Acyclic(par)
  {
    forall x
      ensures !IsAncestor(par, x, x)
    {
      if IsAncestor(par, x, x) {
        var path :| IsPath(par, path) && |path| >= 2 && path[0] == x && path[|path| - 1] == x;
        RankFalls(par, rank, path);
      }
    }
  }

  // ---- the DAG ----

  /** A patch as stored: the parents it declares, the parents it is linked to, and its generation. */
  datatype Node = Node(declared: seq<Id>, parents: seq<Id>, generation: nat)

  type Graph = map<Id, Node>

  function Edges(g: Graph): Parents {
    map x | x in g :: g[x].parents
  }

  function Declared(g: Graph): Parents {
    map x | x in g :: g[x].declared
  }

  /** Links lead to stored patches of smaller generation. */
  ghost predicate Linked(g: Graph) {
    forall x, p :: x in g && p in g[x].parents ==> p in g && g[p].generation < g[x].generation
  }

  lemma LinkedIsAcyclic(g: Graph)
    requires Linked(g)
    ensures Acyclic(Edges(g))
  {
    RankedIsAcyclic(Edges(g), x => if x in g then g[x].generation else 0);
  }

  lemma AncestorsAreOlder(g: Graph, x: Id, y: Id)
    requires Linked(g) && IsAncestor(Edges(g), y, x)
    ensures x in g && y in g && g[y].generation < g[x].generation
  {
    var par := Edges(g);
    var path :| IsPath(par, path) && |path| >= 2 && path[0] == x && path[|path| - 1] == y;
    assert path[|path| - 1] in par[path[|path| - 2]];
    RankFalls(par, z => if z in g then g[z].generation else 0, path);
  }

  /** The largest generation among the given patches. */
  function MaxGeneration(g: Graph, ids: seq<Id>): (m: nat)
    requires forall p :: p in ids ==> p in g
    ensures forall p :: p in ids ==> g[p].generation <= m
    ensures ids != [] ==> exists p :: p in ids && g[p].generation == m
  {
    if ids == [] then 0
    else
      var rest := MaxGeneration(g, ids[1..]);
      if g[ids[0]].generation >= rest then g[ids[0]].generation else rest
  }

  datatype AddResult = Added | DuplicatePatch | ParentNotFound

  predicate AllPresent(g: Graph, ids: seq<Id>) {
    forall p :: p in ids ==> p in g
  }

  function WithPatch(g: Graph, id: Id, declared: seq<Id>, parents: seq<Id>): Graph
    requires AllPresent(g, parents)
  {
    g[id := Node(declared, parents, if parents == [] then 0 else MaxGeneration(g, parents) + 1)]
  }

  function AddOutcome(g: Graph, id: Id, parents: seq<Id>): AddResult {
    if id in g then DuplicatePatch else if !AllPresent(g, parents) then ParentNotFound else Added
  }

  /** The generation of a new patch: zero at a root, and else one more than the highest of its parents. */
  lemma NewGeneration(g: Graph, id: Id, declared: seq<Id>, parents: seq<Id>)
    requires AllPresent(g, parents)
    ensures var n := WithPatch(g, id, declared, parents)[id].generation;
      && (n == 0 <==> parents == [])
      && (forall p :: p in parents ==> g[p].generation < n)
      && (n > 0 ==> exists p :: p in parents && g[p].generation + 1 == n)
  {
  }

  lemma WithPatchLinked(g: Graph, id: Id, declared: seq<Id>, parents: seq<Id>)
    requires Linked(g) && id !in g && AllPresent(g, parents)
    ensures Linked(WithPatch(g, id, declared, parents))
  {
  }

  /** Adding a patch does not change the ancestors of the others. */
  lemma AncestorsStay(g: Graph, id: Id, declared: seq<Id>, parents: seq<Id>, x: Id, y: Id)
    requires Linked(g) && id !in g && AllPresent(g, parents) && x != id
    ensures IsAncestor(Edges(WithPatch(g, id, declared, parents)), y, x) <==> IsAncestor(Edges(g), y, x)
  {
    var old_, new_ := Edges(g), Edges(WithPatch(g, id, declared, parents));
    if IsAncestor(old_, y, x) {
      var path :| IsPath(old_, path) && |path| >= 2 && path[0] == x && path[|path| - 1] == y;
      assert IsPath(new_, path);
    }
    if IsAncestor(new_, y, x) {
      var path :| IsPath(new_, path) && |path| >= 2 && path[0] == x && path[|path| - 1] == y;
      OldPathStaysOld(g, id, declared, parents, path);
    }
  }

  lemma {:induction false} OldPathStaysOld(g: Graph, id: Id, declared: seq<Id>, parents: seq<Id>, path: seq<Id>)
    requires Linked(g) && id !in g && AllPresent(g, parents)
    requires IsPath(Edges(WithPatch(g, id, declared, parents)), path) && path[0] != id
    ensures IsPath(Edges(g), path)
  {
    if |path| > 1 {
      var new_ := Edges(WithPatch(g, id, declared, parents));
      assert path[0] in new_ && path[1] in new_[path[0]];
      assert IsPath(new_, path[1..]);
      OldPathStaysOld(g, id, declared, parents, path[1..]);
      forall i | 0 <= i < |path| - 1
        ensures path[i] in Edges(g) && path[i + 1] in Edges(g)[path[i]]
      {
        if i > 0 {
          assert path[1..][i - 1] == path[i] && path[1..][i] == path[i + 1];
        }
      }
    }
  }

  ghost predicate AncestorSet(g: Graph, x: Id, s: set<Id>) {
    forall y :: y in s <==> IsAncestor(Edges(g), y, x)
  }

  /** A common ancestor, where a patch counts as its own. */
  ghost predicate Common(g: Graph, a: Id, b: Id, c: Id) {
    IsAncestorOrSelf(Edges(g), c, a) && IsAncestorOrSelf(Edges(g), c, b)
  }

  function GenerationOf(g: Graph, x: Id): nat {
    if x in g then g[x].generation else 0
  }

  /** Of the common ancestors, one of the largest generation, and of those the smallest id. */
  ghost predicate IsLca(g: Graph, a: Id, b: Id, r: Option<Id>) {
    match r
    case None => forall c :: !Common(g, a, b, c)
    case Some(m) =>
      && Common(g, a, b, m)
      && forall c :: Common(g, a, b, c) ==>
           GenerationOf(g, c) < GenerationOf(g, m) || (GenerationOf(g, c) == GenerationOf(g, m) && m <= c)
  }

  /** The lowest common ancestor is one: no common ancestor descends from it. */
  lemma LcaIsLowest(g: Graph, a: Id, b: Id, m: Id, c: Id)
    requires Linked(g) && IsLca(g, a, b, Some(m)) && Common(g, a, b, c)
    ensures !IsAncestor(Edges(g), m, c)
  {
    if IsAncestor(Edges(g), m, c) {
      AncestorsAreOlder(g, c, m);
    }
  }

  /** It is determined by the two patches, in either order. */
  lemma LcaIsSymmetric(g: Graph, a: Id, b: Id, r: Option<Id>, r': Option<Id>)
    requires IsLca(g, a, b, r) && IsLca(g, b, a, r')
    ensures r == r'
  {
    assert forall c :: Common(g, a, b, c) <==> Common(g, b, a, c);
    if r.Some? {
      assert Common(g, b, a, r.value);
    }
    if r'.Some? {
      assert Common(g, a, b, r'.value);
    }
  }

  lemma AncestorIsLca(g: Graph, a: Id, b: Id)
    requires Linked(g) && IsAncestorOrSelf(Edges(g), a, b)
    ensures IsLca(g, a, b, Some(a)) && IsLca(g, b, a, Some(a))
  {
    forall c | Common(g, a, b, c)
      ensures c == a || GenerationOf(g, c) < GenerationOf(g, a)
    {
      if c != a {
        AncestorsAreOlder(g, a, c);
      }
    }
  }

  class PatchDag {
    var nodes: Graph
    var cache: map<Id, set<Id>>

    ghost predicate Valid()
      reads this
    {
      Linked(nodes)
    }

    /** Every cached set is the set of ancestors as of now. */
    ghost predicate CacheCorrect()
      reads this
    {
      forall x :: x in cache ==> AncestorSet(nodes, x, cache[x])
    }

    constructor ()
      ensures Valid() && CacheCorrect() && nodes == map[] && cache == map[]
    {
      nodes := map[];
      cache := map[];
    }

    /**
     * Add a patch under the given parents. The cache is not touched: it stays correct unless it already has
     * an entry for the new patch, made when the patch was unknown, and the patch has parents.
     */
    method AddPatch(id: Id, declared: seq<Id>, parents: seq<Id>) returns (r: AddResult)
      requires Valid()
      modifies this
      ensures Valid() && r == AddOutcome(old(nodes), id, parents) && cache == old(cache)
      ensures nodes == if r == Added then WithPatch(old(nodes), id, declared, parents) else old(nodes)
      ensures old(CacheCorrect()) ==> (CacheCorrect() <==> r != Added || id !in cache || parents == [])
    {
      if id in nodes {
        return DuplicatePatch;
      }
      if exists p | p in parents :: p !in nodes {
        return ParentNotFound;
      }
      WithPatchLinked(nodes, id, declared, parents);
      CacheAfterAdd(nodes, id, declared, parents, cache);
      nodes := WithPatch(nodes, id, declared, parents);
      return Added;
    }

    /** All ancestors of a patch, from the cache if it was asked for before, else by breadth-first search. */
    method Ancestors(id: Id) returns (ancestors: set<Id>)
      requires Valid()
      modifies this`cache
      ensures id in old(cache) ==> ancestors == old(cache)[id] && cache == old(cache)
      ensures id !in old(cache) ==> AncestorSet(nodes, id, ancestors) && cache == old(cache)[id := ancestors]
      ensures old(CacheCorrect()) ==> CacheCorrect() && AncestorSet(nodes, id, ancestors)
    {
      if id in cache {
        return cache[id];
      }
      ancestors := Search(nodes, id);
      cache := cache[id := ancestors];
    }

    method Lca(a: Id, b: Id) returns (r: Option<Id>)
      requires Valid() && CacheCorrect()
      modifies this`cache
      ensures CacheCorrect() && IsLca(nodes, a, b, r)
    {
      hide IsAncestor, IsLca;
      if a == b {
        AncestorIsLca(nodes, a, b);
        return Some(a);
      }
      var ofA := Ancestors(a);
      var ofB := Ancestors(b);
      if a in ofB {
        AncestorIsLca(nodes, a, b);
        return Some(a);
      }
      if b in ofA {
        AncestorIsLca(nodes, b, a);
        return Some(b);
      }
      r := BestCommon(nodes, ofA * ofB);
      BestIsLca(nodes, a, b, ofA, ofB, r);
    }
  }

  lemma BestIsLca(g: Graph, a: Id, b: Id, ofA: set<Id>, ofB: set<Id>, r: Option<Id>)
    requires AncestorSet(g, a, ofA) && AncestorSet(g, b, ofB) && a != b && a !in ofB && b !in ofA
    requires IsBest(g, ofA * ofB, r)
    ensures IsLca(g, a, b, r)
  {
    hide IsAncestor;
    forall c
      ensures Common(g, a, b, c) <==> c in ofA * ofB
    {
    }
  }

  ghost predicate IsBest(g: Graph, candidates: set<Id>, r: Option<Id>) {
    match r
    case None => candidates == {}
    case Some(m) =>
      && m in candidates
      && forall c :: c in candidates ==>
           GenerationOf(g, c) < GenerationOf(g, m) || (GenerationOf(g, c) == GenerationOf(g, m) && m <= c)
  }

  method BestCommon(g: Graph, common: set<Id>) returns (best: Option<Id>)
    ensures IsBest(g, common, best)
  {
    best := None;
    var todo, bestGen := common, 0;
    while todo != {}
      invariant todo <= common && IsBest(g, common - todo, best)
      invariant best.Some? ==> bestGen == GenerationOf(g, best.value)
      decreases |todo|
    {
      var candidate :| candidate in todo;
      todo := todo - {candidate};
      var gen := GenerationOf(g, candidate);
      if best.None? || gen > bestGen || (gen == bestGen && candidate < best.value) {
        bestGen := gen;
        best := Some(candidate);
      }
    }
    assert common - todo == common;
  }

  lemma CacheAfterAdd(g: Graph, id: Id, declared: seq<Id>, parents: seq<Id>, cache: map<Id, set<Id>>)
    requires Linked(g) && id !in g && AllPresent(g, parents)
    ensures (forall x :: x in cache ==> AncestorSet(g, x, cache[x])) ==>
      var g' := WithPatch(g, id, declared, parents);
      ((forall x :: x in cache ==> AncestorSet(g', x, cache[x])) <==> id !in cache || parents == [])
  {
    var g' := WithPatch(g, id, declared, parents);
    forall x, y | x != id
      ensures IsAncestor(Edges(g'), y, x) <==> IsAncestor(Edges(g), y, x)
    {
      AncestorsStay(g, id, declared, parents, x, y);
    }
    forall y
      ensures !IsAncestor(Edges(g), y, id)
    {
      if IsAncestor(Edges(g), y, id) {
        AncestorsAreOlder(g, id, y);
      }
    }
    if parents == [] {
      forall y
        ensures !IsAncestor(Edges(g'), y, id)
      {
        if IsAncestor(Edges(g'), y, id) {
          AncestorsNeedParents(Edges(g'), y, id);
        }
      }
    } else {
      ParentIsAncestor(Edges(g'), id, parents[0]);
    }
  }

  /** Put the parents that are new into the set and at the end of the queue. */
  method Visit(parents: seq<Id>, ancestors: set<Id>, queue: seq<Id>) returns (ancestors': set<Id>, queue': seq<Id>)
    ensures forall y :: y in ancestors' <==> y in ancestors || y in parents
    ensures forall y :: y in queue' <==> y in queue || (y in parents && y !in ancestors)
    ensures |queue'| - |queue| == |ancestors'| - |ancestors|
  {
    ancestors', queue' := ancestors, queue;
    for i := 0 to |parents|
      invariant forall y :: y in ancestors' <==> y in ancestors || y in parents[..i]
      invariant forall y :: y in queue' <==> y in queue || (y in parents[..i] && y !in ancestors)
      invariant |queue'| - |queue| == |ancestors'| - |ancestors|
    {
      var p := parents[i];
      assert parents[..i + 1] == parents[..i] + [p];
      if p !in ancestors' {
        ancestors' := ancestors' + {p};
        queue' := queue' + [p];
      }
    }
    assert parents[..|parents|] == parents;
  }

  /** Midway through the search: found are ancestors; only queued ones may still have parents not found. */
  ghost predicate Frontier(g: Graph, id: Id, found: set<Id>, queue: seq<Id>) {
    && (forall y :: y in queue ==> y in found)
    && (forall y :: y in found ==> IsAncestor(Edges(g), y, id) && y in g)
    && (id in g ==> forall p :: p in g[id].parents ==> p in found)
    && (forall x, p :: x in found && x !in queue && p in g[x].parents ==> p in found)
  }

  lemma FrontierStarts(g: Graph, id: Id, found: set<Id>, queue: seq<Id>)
    requires Linked(g) && id in g
    requires forall y :: y in found <==> y in g[id].parents
    requires forall y :: y in queue <==> y in g[id].parents
    ensures Frontier(g, id, found, queue)
  {
    forall y | y in found
      ensures IsAncestor(Edges(g), y, id)
    {
      ParentIsAncestor(Edges(g), id, y);
    }
  }

  lemma FrontierMoves(g: Graph, id: Id, found: set<Id>, queue: seq<Id>, found': set<Id>, queue': seq<Id>)
    requires Linked(g) && Frontier(g, id, found, queue) && queue != []
    requires forall y :: y in found' <==> y in found || y in g[queue[0]].parents
    requires forall y :: y in queue' <==> y in queue[1..] || (y in g[queue[0]].parents && y !in found)
    ensures Frontier(g, id, found', queue') && found <= found' <= g.Keys
  {
    hide IsAncestor;
    var head, rest := queue[0], queue[1..];
    assert forall y :: y in queue <==> y == head || y in rest;
    forall y | y in found'
      ensures IsAncestor(Edges(g), y, id) && y in g
    {
      if y !in found {
        AncestorExtends(Edges(g), id, head, y);
      }
    }
    forall x, p | x in found' && x !in queue' && p in g[x].parents
      ensures p in found'
    {
      if x != head {
        assert x in found && x !in rest;
      }
    }
  }

  /** Breadth-first search over the parents of a patch. */
  method Search(g: Graph, id: Id) returns (ancestors: set<Id>)
    requires Linked(g)
    ensures AncestorSet(g, id, ancestors)
  {
    hide IsAncestor, Frontier;
    ancestors := {};
    var queue: seq<Id> := [];
    if id !in g {
      NoAncestorsOfUnknown(g, id);
      return;
    }
    ancestors, queue := Visit(g[id].parents, ancestors, queue);
    FrontierStarts(g, id, ancestors, queue);
    while queue != []
      invariant Frontier(g, id, ancestors, queue)
      decreases |g.Keys - ancestors|, |queue|
    {
      var current := queue[0];
      QueuedIsKnown(g, id, ancestors, queue);
      ghost var found, queued := ancestors, queue;
      ancestors, queue := Visit(g[current].parents, ancestors, queue[1..]);
      FrontierMoves(g, id, found, queued, ancestors, queue);
      SearchShrinks(g.Keys, found, ancestors);
    }
    FrontierEmpty(g, id, ancestors);
  }

  lemma QueuedIsKnown(g: Graph, id: Id, found: set<Id>, queue: seq<Id>)
    requires Frontier(g, id, found, queue) && queue != []
    ensures queue[0] in g
  {
    assert queue[0] in queue;
  }

  lemma NoAncestorsOfUnknown(g: Graph, id: Id)
    requires id !in g
    ensures AncestorSet(g, id, {})
  {
    forall y
      ensures !IsAncestor(Edges(g), y, id)
    {
      if IsAncestor(Edges(g), y, id) {
        AncestorsNeedParents(Edges(g), y, id);
      }
    }
  }

  lemma FrontierEmpty(g: Graph, id: Id, found: set<Id>)
    requires Linked(g) && Frontier(g, id, found, [])
    ensures AncestorSet(g, id, found)
  {
    hide IsAncestor;
    forall y | IsAncestor(Edges(g), y, id)
      ensures y in found
    {
      SearchComplete(g, id, found, y);
    }
  }

  lemma SearchShrinks(all: set<Id>, before: set<Id>, after: set<Id>)
    requires before <= after <= all
    ensures |all - after| <= |all - before|
    ensures |after| > |before| ==> |all - after| < |all - before|
  {
    assert all - before == (all - after) + (after - before);
    assert after == before + (after - before);
  }

  lemma SearchComplete(g: Graph, id: Id, found: set<Id>, y: Id)
    requires Linked(g) && IsAncestor(Edges(g), y, id)
    requires id in g ==> forall p :: p in g[id].parents ==> p in found
    requires forall x, p :: x in found && x in g && p in g[x].parents ==> p in found
    ensures y in found
  {
    var par := Edges(g);
    var path :| IsPath(par, path) && |path| >= 2 && path[0] == id && path[|path| - 1] == y;
    assert path[1] in par[path[0]];
    assert IsPath(par, path[1..]);
    ClosedHoldsPath(par, found, path[1..]);
  }
}
