/** The queue-based topological sort over the recorded parents, smallest ids first among equals. */
module TopologicalSort {
  import opened PatchGraph
  import opened Sorting

  function IdLe(a: Id, b: Id): bool { a <= b }

  /** How many entries of `parents` are in the map and not yet emitted. */
  function Waiting(parents: seq<Id>, all: set<Id>, emitted: set<Id>): nat {
    if parents == [] then 0
    else Waiting(parents[..|parents| - 1], all, emitted)
         + if parents[|parents| - 1] in all && parents[|parents| - 1] !in emitted then 1 else 0
  }

  function Times(ids: seq<Id>, x: Id): nat {
    multiset(ids)[x]
  }

  lemma {:induction false} WaitingFalls(parents: seq<Id>, all: set<Id>, emitted: set<Id>, p: Id)
    requires p in all && p !in emitted
    ensures Waiting(parents, all, emitted) == Waiting(parents, all, emitted + {p}) + Times(parents, p)
  {
    if parents != [] {
      assert parents == parents[..|parents| - 1] + [parents[|parents| - 1]];
      WaitingFalls(parents[..|parents| - 1], all, emitted, p);
    }
  }

  lemma {:induction false} WaitingZeroIff(parents: seq<Id>, all: set<Id>, emitted: set<Id>)
    ensures Waiting(parents, all, emitted) == 0 <==> forall p :: p in parents && p in all ==> p in emitted
  {
    if parents != [] {
      var init, last := parents[..|parents| - 1], parents[|parents| - 1];
      WaitingZeroIff(init, all, emitted);
      assert forall p :: p in parents <==> p in init || p == last;
    }
  }

  function Degree(pm: Parents, emitted: set<Id>, x: Id): nat
    requires x in pm
  {
    Waiting(pm[x], pm.Keys, emitted)
  }

  function Kids(children: map<Id, seq<Id>>, p: Id): seq<Id> {
    if p in children then children[p] else []
  }

  /** The children lists hold each child once per time it names the parent. */
  ghost predicate ChildrenOf(pm: Parents, done: set<Id>, children: map<Id, seq<Id>>) {
    forall p, x :: Times(Kids(children, p), x) == if x in done && x in pm && p in pm then Times(pm[x], p) else 0
  }

  /** One edge: the parent's list of children grows by one entry. */
  function AddChild(children: map<Id, seq<Id>>, parent: Id, id: Id): map<Id, seq<Id>> {
    children[parent := Kids(children, parent) + [id]]
  }

  lemma AddChildCounts(children: map<Id, seq<Id>>, parent: Id, id: Id, p: Id, x: Id)
    ensures Times(Kids(AddChild(children, parent, id), p), x) ==
            Times(Kids(children, p), x) + if p == parent && x == id then 1 else 0
  {
  }

  /** The lists have grown by the edges of one patch. */
  ghost predicate GrownBy(
    pm: Parents, before: map<Id, seq<Id>>, after: map<Id, seq<Id>>, id: Id, parents: seq<Id>)
  {
    forall p, x :: Times(Kids(after, p), x) ==
                   Times(Kids(before, p), x) + if x == id && p in pm then Times(parents, p) else 0
  }

  lemma GrownByOne(
    pm: Parents, before: map<Id, seq<Id>>, after: map<Id, seq<Id>>, id: Id, parents: seq<Id>, parent: Id)
    requires GrownBy(pm, before, after, id, parents)
    ensures GrownBy(pm, before, if parent in pm then AddChild(after, parent, id) else after, id, parents + [parent])
  {
    hide AddChild, Kids;
    forall p, x
      ensures Times(parents + [parent], p) == Times(parents, p) + if p == parent then 1 else 0
      ensures Times(Kids(AddChild(after, parent, id), p), x) ==
              Times(Kids(after, p), x) + if p == parent && x == id then 1 else 0
    {
      AddChildCounts(after, parent, id, p, x);
    }
  }

  /** Record one patch's edges. */
  method AddEdges(pm: Parents, id: Id, children: map<Id, seq<Id>>)
    returns (degree: nat, children': map<Id, seq<Id>>)
    requires id in pm
    ensures degree == Degree(pm, {}, id)
    ensures GrownBy(pm, children, children', id, pm[id])
  {
    hide GrownBy, AddChild;
    var parents := pm[id];
    degree := 0;
    children' := children;
    GrownByNothing(pm, children, id);
    for i := 0 to |parents|
      invariant degree == Waiting(parents[..i], pm.Keys, {})
      invariant GrownBy(pm, children, children', id, parents[..i])
    {
      var parent := parents[i];
      assert parents[..i + 1] == parents[..i] + [parent] && parents[..i + 1][..i] == parents[..i];
      GrownByOne(pm, children, children', id, parents[..i], parent);
      if parent in pm {
        children' := AddChild(children', parent, id);
        degree := degree + 1;
      }
    }
    assert parents[..|parents|] == parents;
  }

  lemma GrownByNothing(pm: Parents, children: map<Id, seq<Id>>, id: Id)
    ensures GrownBy(pm, children, children, id, [])
  {
    hide Kids;
    assert forall p :: Times([], p) == 0;
  }

  method CountEdges(pm: Parents) returns (inDegree: map<Id, nat>, children: map<Id, seq<Id>>)
    ensures inDegree.Keys == pm.Keys && forall x :: x in pm ==> inDegree[x] == Degree(pm, {}, x)
    ensures ChildrenOf(pm, pm.Keys, children)
  {
    hide Degree, ChildrenOf, GrownBy;
    inDegree, children := map[], map[];
    NoChildrenYet(pm);
    var todo := pm.Keys;
    assert pm.Keys - todo == {};
    while todo != {}
      invariant todo <= pm.Keys && inDegree.Keys == pm.Keys - todo
      invariant forall x :: x in inDegree ==> inDegree[x] == Degree(pm, {}, x)
      invariant ChildrenOf(pm, pm.Keys - todo, children)
      decreases |todo|
    {
      var id :| id in todo;
      ghost var before := children;
      var degree;
      degree, children := AddEdges(pm, id, children);
      inDegree := inDegree[id := degree];
      ChildrenGrow(pm, pm.Keys - todo, id, before, children);
      assert pm.Keys - (todo - {id}) == (pm.Keys - todo) + {id};
      todo := todo - {id};
    }
    assert pm.Keys - todo == pm.Keys;
  }

  lemma NoChildrenYet(pm: Parents)
    ensures ChildrenOf(pm, {}, map[])
  {
  }

  lemma ChildrenGrow(pm: Parents, done: set<Id>, id: Id, before: map<Id, seq<Id>>, after: map<Id, seq<Id>>)
    requires id in pm && id !in done && ChildrenOf(pm, done, before) && GrownBy(pm, before, after, id, pm[id])
    ensures ChildrenOf(pm, done + {id}, after)
  {
    hide Times, Kids;
    forall p, x
      ensures Times(Kids(after, p), x) == if x in done + {id} && x in pm && p in pm then Times(pm[x], p) else 0
    {
      assert Times(Kids(before, p), x) == if x in done && x in pm && p in pm then Times(pm[x], p) else 0;
    }
  }

  ghost predicate NoDuplicates(ids: seq<Id>) {
    forall i, j :: 0 <= i < j < |ids| ==> ids[i] != ids[j]
  }

  function SetOf(ids: seq<Id>): set<Id> {
    set x | x in ids
  }

  /** Each emitted patch comes after its recorded parents. */
  ghost predicate ParentsBefore(pm: Parents, out: seq<Id>) {
    forall i :: 0 <= i < |out| ==> out[i] in pm && forall p :: p in pm[out[i]] && p in pm ==> p in out[..i]
  }

  /** A patch that waits for nothing from the start. */
  ghost predicate IsRoot(pm: Parents, x: Id) {
    x in pm && Degree(pm, {}, x) == 0
  }

  /**
   * The sort's invariant: emitted and queued patches are distinct and are exactly those that wait for
   * nothing, parents were emitted first, and the roots in ascending order lead.
   */
  ghost predicate SortState(pm: Parents, out: seq<Id>, queue: seq<Id>, roots: seq<Id>) {
    && NoDuplicates(out + queue)
    && (forall x :: x in out + queue <==> x in pm && Degree(pm, SetOf(out), x) == 0)
    && ParentsBefore(pm, out)
    && roots <= out + queue
  }

  ghost predicate RootList(pm: Parents, roots: seq<Id>) {
    && (forall x :: x in roots <==> IsRoot(pm, x))
    && (forall i, j :: 0 <= i < j < |roots| ==> roots[i] < roots[j])
  }

  /** A set as a list, in no particular order. */
  method Collect(ids: set<Id>) returns (list: seq<Id>)
    ensures NoDuplicates(list) && forall x :: x in list <==> x in ids
  {
    list := [];
    var todo := ids;
    while todo != {}
      invariant todo <= ids && NoDuplicates(list) && forall x :: x in list <==> x in ids - todo
      decreases |todo|
    {
      var x :| x in todo;
      assert x !in list;
      list := list + [x];
      todo := todo - {x};
    }
  }

  lemma IdLeIsTotal()
    ensures TotalOrder(IdLe)
  {
  }

  lemma {:induction false} DistinctCounts(ids: seq<Id>, x: Id)
    requires NoDuplicates(ids)
    ensures Times(ids, x) <= 1
  {
    if ids != [] {
      var init, last := ids[..|ids| - 1], ids[|ids| - 1];
      assert ids == init + [last];
      DistinctCounts(init, x);
      assert last !in init;
    }
  }

  lemma TwiceCounted(ids: seq<Id>, i: nat, j: nat)
    requires i < j < |ids| && ids[i] == ids[j]
    ensures Times(ids, ids[i]) >= 2
  {
    assert ids == ids[..i] + [ids[i]] + (ids[i + 1..j] + [ids[j]] + ids[j + 1..]);
  }

  /** Sorting distinct ids gives them in strictly ascending order. */
  lemma SortedIds(ids: seq<Id>)
    requires NoDuplicates(ids)
    ensures var r := Sort(IdLe, ids);
      && (forall x :: x in r <==> x in ids)
      && forall i, j :: 0 <= i < j < |r| ==> r[i] < r[j]
  {
    var r := Sort(IdLe, ids);
    IdLeIsTotal();
    SortOrdered(IdLe, ids);
    SameMembers(ids, r);
    forall i, j | 0 <= i < j < |r|
      ensures r[i] < r[j]
    {
      assert IdLe(r[i], r[j]);
      if r[i] == r[j] {
        TwiceCounted(r, i, j);
        DistinctCounts(ids, r[i]);
      }
    }
  }

  // ---- emitting ----

  lemma DegreeFalls(pm: Parents, emitted: set<Id>, id: Id, x: Id)
    requires x in pm && id in pm && id !in emitted
    ensures Degree(pm, emitted, x) == Degree(pm, emitted + {id}, x) + Times(pm[x], id)
  {
    WaitingFalls(pm[x], pm.Keys, emitted, id);
  }

  lemma TimesOfPrefix(ids: seq<Id>, n: nat, x: Id)
    requires n < |ids|
    ensures Times(ids[..n + 1], x) == Times(ids[..n], x) + if x == ids[n] then 1 else 0
    ensures Times(ids[..n + 1], x) <= Times(ids, x)
  {
    assert ids[..n + 1] == ids[..n] + [ids[n]];
    assert ids == ids[..n + 1] + ids[n + 1..];
  }

  /** Midway through a patch's children: degrees count the entries passed, `ready` those that reached zero. */
  ghost predicate Releasing(
    pm: Parents, emitted: set<Id>, passed: seq<Id>, inDegree: map<Id, nat>, ready: seq<Id>)
  {
    && inDegree.Keys == pm.Keys && NoDuplicates(ready)
    && (forall x :: x in pm ==> inDegree[x] + Times(passed, x) == Degree(pm, emitted, x))
    && (forall x :: x in ready <==> x in pm && Times(passed, x) > 0 && inDegree[x] == 0)
  }

  ghost predicate KidsOf(pm: Parents, id: Id, kids: seq<Id>) {
    forall x :: Times(kids, x) == if x in pm then Times(pm[x], id) else 0
  }

  lemma ReleaseOne(
    pm: Parents, emitted: set<Id>, id: Id, kids: seq<Id>, j: nat, inDegree: map<Id, nat>, ready: seq<Id>)
    requires id in pm && id !in emitted && KidsOf(pm, id, kids) && j < |kids|
    requires Releasing(pm, emitted, kids[..j], inDegree, ready)
    ensures kids[j] in pm && inDegree[kids[j]] > 0
    ensures var after := inDegree[kids[j] := inDegree[kids[j]] - 1];
      Releasing(pm, emitted, kids[..j + 1], after, if after[kids[j]] == 0 then ready + [kids[j]] else ready)
  {
    hide Degree, Times;
    var child := kids[j];
    TimesOfPrefix(kids, j, child);
    TimesPositive(kids[..j + 1], child, j);
    DegreeFalls(pm, emitted, id, child);
    forall x {
      TimesOfPrefix(kids, j, x);
    }
  }

  lemma TimesPositive(ids: seq<Id>, x: Id, i: nat)
    requires i < |ids| && ids[i] == x
    ensures Times(ids, x) > 0
  {
    assert x in multiset(ids);
  }

  lemma ReleasedAll(pm: Parents, emitted: set<Id>, id: Id, kids: seq<Id>, inDegree: map<Id, nat>, ready: seq<Id>)
    requires id in pm && id !in emitted && KidsOf(pm, id, kids)
    requires Releasing(pm, emitted, kids, inDegree, ready)
    ensures forall x :: x in pm ==> inDegree[x] == Degree(pm, emitted + {id}, x)
    ensures forall x :: x in ready <==>
      (x in pm && Degree(pm, emitted, x) > 0 && Degree(pm, emitted + {id}, x) == 0)
  {
    hide Degree, Times;
    forall x | x in pm
      ensures inDegree[x] == Degree(pm, emitted + {id}, x)
      ensures x in ready <==> Degree(pm, emitted, x) > 0 && Degree(pm, emitted + {id}, x) == 0
    {
      DegreeFalls(pm, emitted, id, x);
    }
  }

  method Release(pm: Parents, ghost emitted: set<Id>, id: Id, kids: seq<Id>, inDegree: map<Id, nat>)
    returns (inDegree': map<Id, nat>, ready: seq<Id>)
    requires id in pm && id !in emitted && KidsOf(pm, id, kids)
    requires inDegree.Keys == pm.Keys && forall x :: x in pm ==> inDegree[x] == Degree(pm, emitted, x)
    ensures inDegree'.Keys == pm.Keys && forall x :: x in pm ==> inDegree'[x] == Degree(pm, emitted + {id}, x)
    ensures NoDuplicates(ready)
    ensures forall x :: x in ready <==>
      (x in pm && Degree(pm, emitted, x) > 0 && Degree(pm, emitted + {id}, x) == 0)
  {
    inDegree', ready := inDegree, [];
    assert Releasing(pm, emitted, [], inDegree', ready) by {
      assert forall x :: Times([], x) == 0;
    }
    hide Degree, Times, KidsOf;
    assert kids[..0] == [];
    for j := 0 to |kids|
      invariant Releasing(pm, emitted, kids[..j], inDegree', ready)
    {
      ReleaseOne(pm, emitted, id, kids, j, inDegree', ready);
      var child := kids[j];
      inDegree' := inDegree'[child := inDegree'[child] - 1];
      if inDegree'[child] == 0 {
        ready := ready + [child];
      }
    }
    assert kids[..|kids|] == kids;
    ReleasedAll(pm, emitted, id, kids, inDegree', ready);
  }

  /** What the sort delivers: distinct patches, parents first, all that do not wait for one left out. */
  ghost predicate IsOutput(pm: Parents, out: seq<Id>) {
    && NoDuplicates(out) && ParentsBefore(pm, out)
    && (forall x :: x in out <==> x in pm && Degree(pm, SetOf(out), x) == 0)
    && (exists roots :: RootList(pm, roots) && roots <= out)
  }

  lemma EmitNext(pm: Parents, out: seq<Id>, queue: seq<Id>, roots: seq<Id>, ready: seq<Id>)
    requires SortState(pm, out, queue, roots) && queue != [] && NoDuplicates(ready)
    requires forall x :: x in ready <==>
      (x in pm && Degree(pm, SetOf(out), x) > 0 && Degree(pm, SetOf(out) + {queue[0]}, x) == 0)
    ensures SortState(pm, out + [queue[0]], queue[1..] + ready, roots)
  {
    hide Degree;
    var id, rest := queue[0], queue[1..];
    var all := out + queue;
    var out', queue' := out + [id], rest + ready;
    assert out' + queue' == all + ready;
    assert all[|out|] == id;
    assert id in all;
    EmittedSet(out, id);
    forall x
      ensures x in all + ready <==> x in pm && Degree(pm, SetOf(out'), x) == 0
    {
      if x in pm {
        QueuedNotOut(pm, out, queue, roots);
        DegreeFalls(pm, SetOf(out), id, x);
      }
    }
    WaitingZero(pm, SetOf(out), id);
    forall i | 0 <= i < |out'|
      ensures out'[i] in pm && forall p :: p in pm[out'[i]] && p in pm ==> p in out'[..i]
    {
      if i < |out| {
        assert out'[..i] == out[..i];
      } else {
        assert out'[..i] == out;
      }
    }
  }

  lemma EmittedSet(out: seq<Id>, id: Id)
    ensures SetOf(out + [id]) == SetOf(out) + {id}
  {
  }

  lemma QueuedNotOut(pm: Parents, out: seq<Id>, queue: seq<Id>, roots: seq<Id>)
    requires SortState(pm, out, queue, roots) && queue != []
    ensures queue[0] in pm && queue[0] !in SetOf(out)
  {
    var all := out + queue;
    assert all[|out|] == queue[0];
    assert queue[0] in all;
    forall i | 0 <= i < |out|
      ensures out[i] != queue[0]
    {
      assert all[i] == out[i];
    }
  }

  lemma WaitingZero(pm: Parents, emitted: set<Id>, x: Id)
    requires x in pm && Degree(pm, emitted, x) == 0
    ensures forall p :: p in pm[x] && p in pm ==> p in emitted
  {
    WaitingZeroIff(pm[x], pm.Keys, emitted);
  }

  lemma StartState(pm: Parents, roots: seq<Id>)
    requires RootList(pm, roots)
    ensures SortState(pm, [], roots, roots)
  {
    hide Degree;
    assert [] + roots == roots;
    assert SetOf([]) == {};
  }

  lemma EndState(pm: Parents, out: seq<Id>, roots: seq<Id>)
    requires SortState(pm, out, [], roots) && RootList(pm, roots)
    ensures IsOutput(pm, out)
  {
    hide Degree;
    assert out + [] == out;
  }

  // ---- in which order ----

  /** Of the first `n` patches of the list, all recorded parents of this one are there. */
  ghost predicate Released(pm: Parents, out: seq<Id>, n: nat, x: Id)
    requires n <= |out|
  {
    x in pm && forall p :: p in pm[x] && p in pm ==> p in out[..n]
  }

  /** Wherever the one is released, so is the other. */
  ghost predicate NoLater(pm: Parents, out: seq<Id>, x: Id, y: Id) {
    forall n: nat :: n <= |out| && Released(pm, out, n, y) ==> Released(pm, out, n, x)
  }

  /** First released first; of those released together, smaller ids first. */
  ghost predicate ReleaseOrder(pm: Parents, out: seq<Id>, all: seq<Id>) {
    forall i, j :: 0 <= i < j < |all| ==>
      NoLater(pm, out, all[i], all[j]) && (NoLater(pm, out, all[j], all[i]) ==> all[i] < all[j])
  }

  lemma ReleasedIff(pm: Parents, out: seq<Id>, n: nat, x: Id)
    requires n <= |out|
    ensures Released(pm, out, n, x) <==> x in pm && Degree(pm, SetOf(out[..n]), x) == 0
  {
    if x in pm {
      WaitingZeroIff(pm[x], pm.Keys, SetOf(out[..n]));
    }
  }

  lemma ReleasedBefore(pm: Parents, out: seq<Id>, id: Id, n: nat, x: Id)
    requires n <= |out|
    ensures Released(pm, out + [id], n, x) <==> Released(pm, out, n, x)
    ensures Released(pm, out, n, x) ==> Released(pm, out, |out|, x)
    ensures Released(pm, out, |out|, x) ==> Released(pm, out + [id], |out| + 1, x)
  {
    assert (out + [id])[..n] == out[..n];
    assert (out + [id])[..|out| + 1] == out + [id];
  }

  /** Patches already released keep their order when one more is emitted. */
  lemma OldPairKeepsOrder(pm: Parents, out: seq<Id>, id: Id, x: Id, y: Id)
    requires Released(pm, out, |out|, x) && Released(pm, out, |out|, y)
    ensures NoLater(pm, out + [id], x, y) <==> NoLater(pm, out, x, y)
  {
    hide Released;
    forall n: nat, z | n <= |out|
      ensures Released(pm, out + [id], n, z) <==> Released(pm, out, n, z)
    {
      ReleasedBefore(pm, out, id, n, z);
    }
    ReleasedBefore(pm, out, id, |out|, x);
    ReleasedBefore(pm, out, id, |out|, y);
  }

  /** A patch released only now comes behind every patch released before. */
  lemma NewComesLater(pm: Parents, out: seq<Id>, id: Id, x: Id, y: Id)
    requires Released(pm, out, |out|, x)
    requires !Released(pm, out, |out|, y) && Released(pm, out + [id], |out| + 1, y)
    ensures NoLater(pm, out + [id], x, y) && !NoLater(pm, out + [id], y, x)
  {
    hide Released;
    var out' := out + [id];
    forall n: nat | n <= |out'| && Released(pm, out', n, y)
      ensures n == |out'|
    {
      if n <= |out| {
        ReleasedBefore(pm, out, id, n, y);
      }
    }
    ReleasedBefore(pm, out, id, |out|, x);
    ReleasedBefore(pm, out, id, |out|, y);
  }

  /** The loop's step, for the order. */
  lemma EmitInOrder(pm: Parents, out: seq<Id>, queue: seq<Id>, ready: seq<Id>)
    requires queue != [] && ReleaseOrder(pm, out, out + queue)
    requires forall x :: x in out + queue ==> Released(pm, out, |out|, x)
    requires forall i, j :: 0 <= i < j < |ready| ==> ready[i] < ready[j]
    requires forall x :: x in ready ==>
      !Released(pm, out, |out|, x) && Released(pm, out + [queue[0]], |out| + 1, x)
    ensures ReleaseOrder(pm, out + [queue[0]], (out + [queue[0]]) + (queue[1..] + ready))
  {
    hide Released, NoLater;
    var all, out' := out + queue, out + [queue[0]];
    assert out' + (queue[1..] + ready) == all + ready;
    forall i, j | 0 <= i < j < |all + ready|
      ensures var x, y := (all + ready)[i], (all + ready)[j];
        NoLater(pm, out', x, y) && (NoLater(pm, out', y, x) ==> x < y)
    {
      var x, y := (all + ready)[i], (all + ready)[j];
      if j < |all| {
        assert x in all && y in all;
        OldPairKeepsOrder(pm, out, queue[0], x, y);
        OldPairKeepsOrder(pm, out, queue[0], y, x);
      } else if i < |all| {
        assert x in all && y in ready;
        NewComesLater(pm, out, queue[0], x, y);
      } else {
        assert x in ready && y in ready;
        NewTogether(pm, out, queue[0], x, y);
      }
    }
  }

  lemma NewTogether(pm: Parents, out: seq<Id>, id: Id, x: Id, y: Id)
    requires !Released(pm, out, |out|, y) && Released(pm, out + [id], |out| + 1, y)
    requires Released(pm, out + [id], |out| + 1, x)
    ensures NoLater(pm, out + [id], x, y)
  {
    hide Released;
    var out' := out + [id];
    forall n: nat | n <= |out'| && Released(pm, out', n, y)
      ensures n == |out'|
    {
      if n <= |out| {
        ReleasedBefore(pm, out, id, n, y);
      }
    }
  }

  lemma RootsInOrder(pm: Parents, roots: seq<Id>)
    requires RootList(pm, roots)
    ensures ReleaseOrder(pm, [], roots)
  {
    hide Degree;
    forall x | x in roots
      ensures Released(pm, [], 0, x)
    {
      ReleasedIff(pm, [], 0, x);
      assert SetOf([]) == {};
    }
  }

  /** What the loop knows of its queue, in terms of releases. */
  lemma QueueIsReleased(pm: Parents, out: seq<Id>, queue: seq<Id>, roots: seq<Id>, ready: seq<Id>)
    requires SortState(pm, out, queue, roots) && queue != []
    requires forall x :: x in ready <==>
      (x in pm && Degree(pm, SetOf(out), x) > 0 && Degree(pm, SetOf(out) + {queue[0]}, x) == 0)
    ensures forall x :: x in out + queue ==> Released(pm, out, |out|, x)
    ensures forall x :: x in ready ==>
      !Released(pm, out, |out|, x) && Released(pm, out + [queue[0]], |out| + 1, x)
  {
    hide Degree, Released;
    var out' := out + [queue[0]];
    assert out[..|out|] == out && out'[..|out| + 1] == out';
    EmittedSet(out, queue[0]);
    forall x
      ensures Released(pm, out, |out|, x) <==> x in pm && Degree(pm, SetOf(out), x) == 0
      ensures Released(pm, out', |out| + 1, x) <==> x in pm && Degree(pm, SetOf(out) + {queue[0]}, x) == 0
    {
      ReleasedIff(pm, out, |out|, x);
      ReleasedIff(pm, out', |out| + 1, x);
    }
    hide SetOf;
  }

  lemma EmitKeepsOrder(pm: Parents, out: seq<Id>, queue: seq<Id>, roots: seq<Id>, ready: seq<Id>)
    requires SortState(pm, out, queue, roots) && ReleaseOrder(pm, out, out + queue) && queue != []
    requires forall i, j :: 0 <= i < j < |ready| ==> ready[i] < ready[j]
    requires forall x :: x in ready <==>
      (x in pm && Degree(pm, SetOf(out), x) > 0 && Degree(pm, SetOf(out) + {queue[0]}, x) == 0)
    ensures SortState(pm, out + [queue[0]], queue[1..] + ready, roots)
    ensures ReleaseOrder(pm, out + [queue[0]], (out + [queue[0]]) + (queue[1..] + ready))
  {
    hide SortState, ReleaseOrder, Degree, Released, SetOf;
    EmitNext(pm, out, queue, roots, ready);
    QueueIsReleased(pm, out, queue, roots, ready);
    EmitInOrder(pm, out, queue, ready);
  }

  method SortTopologically(pm: Parents) returns (out: seq<Id>)
    ensures IsOutput(pm, out) && ReleaseOrder(pm, out, out)
  {
    hide SortState, IsOutput, RootList, ChildrenOf, Kids, KidsOf, ReleaseOrder, Released, Degree, Times;
    var inDegree, children := CountEdges(pm);
    var list := Collect(set x | x in inDegree && inDegree[x] == 0);
    SortedIds(list);
    var queue := Sort(IdLe, list);
    ghost var roots := queue;
    RootsListed(pm, inDegree, list, roots);
    StartState(pm, roots);
    RootsInOrder(pm, roots);
    out := [];
    assert SetOf(out) == {} && [] + queue == queue;
    while queue != []
      invariant SortState(pm, out, queue, roots) && ReleaseOrder(pm, out, out + queue)
      invariant inDegree.Keys == pm.Keys && forall x :: x in pm ==> inDegree[x] == Degree(pm, SetOf(out), x)
      decreases pm.Keys - SetOf(out)
    {
      var id := queue[0];
      QueuedNotOut(pm, out, queue, roots);
      KidsAre(pm, children, id);
      var ready;
      inDegree, ready := Release(pm, SetOf(out), id, Kids(children, id), inDegree);
      SortedIds(ready);
      EmitKeepsOrder(pm, out, queue, roots, Sort(IdLe, ready));
      EmittedSet(out, id);
      out := out + [id];
      queue := queue[1..] + Sort(IdLe, ready);
    }
    EndState(pm, out, roots);
    assert out + [] == out;
  }

  lemma RootsListed(pm: Parents, inDegree: map<Id, nat>, list: seq<Id>, roots: seq<Id>)
    requires inDegree.Keys == pm.Keys && forall x :: x in pm ==> inDegree[x] == Degree(pm, {}, x)
    requires forall x :: x in list <==> x in inDegree && inDegree[x] == 0
    requires forall x :: x in roots <==> x in list
    requires forall i, j :: 0 <= i < j < |roots| ==> roots[i] < roots[j]
    ensures RootList(pm, roots)
  {
    hide Degree;
  }

  lemma KidsAre(pm: Parents, children: map<Id, seq<Id>>, id: Id)
    requires ChildrenOf(pm, pm.Keys, children) && id in pm
    ensures KidsOf(pm, id, Kids(children, id))
  {
    hide Times, Kids;
  }

  /** With a number that grows from parents to children, nothing is left waiting. */
  lemma NothingLeftOut(pm: Parents, out: seq<Id>, rank: Id -> nat, x: Id)
    requires IsOutput(pm, out) && x in pm
    requires forall y, p :: y in pm && p in pm[y] ==> rank(p) < rank(y)
    ensures x in out
    decreases rank(x)
  {
    forall p | p in pm[x] && p in pm
      ensures p in SetOf(out)
    {
      NothingLeftOut(pm, out, rank, p);
    }
    WaitingZeroIff(pm[x], pm.Keys, SetOf(out));
  }

  // ---- the order is determined ----

  /** A patch released among the first `n` of one list stands in every other list that begins with them. */
  lemma ReleasedIsListed(pm: Parents, out: seq<Id>, n: nat, x: Id)
    requires IsOutput(pm, out) && n <= |out| && Released(pm, out, n, x)
    ensures x in out
  {
    assert forall p :: p in out[..n] ==> p in SetOf(out);
    WaitingZeroIff(pm[x], pm.Keys, SetOf(out));
  }

  lemma EachIsReleased(pm: Parents, out: seq<Id>, n: nat)
    requires IsOutput(pm, out) && n < |out|
    ensures Released(pm, out, n, out[n])
  {
  }

  lemma ReleasedAlike(pm: Parents, a: seq<Id>, b: seq<Id>, n: nat, x: Id)
    requires n <= |a| && n <= |b| && a[..n] == b[..n]
    ensures Released(pm, a, n, x) <==> Released(pm, b, n, x)
  {
  }

  lemma ReleasedStays(pm: Parents, out: seq<Id>, n: nat, m: nat, x: Id)
    requires n <= m <= |out| && Released(pm, out, n, x)
    ensures Released(pm, out, m, x)
  {
    assert out[..m] == out[..n] + out[n..m];
  }

  /** Two patches released among the common first ones are released in the same order by both lists. */
  lemma NoLaterAlike(pm: Parents, a: seq<Id>, b: seq<Id>, n: nat, x: Id, y: Id)
    requires n <= |a| && n <= |b| && a[..n] == b[..n]
    requires Released(pm, a, n, x) && Released(pm, a, n, y)
    ensures NoLater(pm, a, x, y) <==> NoLater(pm, b, x, y)
  {
    hide Released;
    ReleasedAlike(pm, a, b, n, x);
    ReleasedAlike(pm, a, b, n, y);
    forall m: nat, z | m <= n
      ensures Released(pm, a, m, z) <==> Released(pm, b, m, z)
    {
      assert a[..m] == a[..n][..m] == b[..m];
      ReleasedAlike(pm, a, b, m, z);
    }
    forall m: nat | n <= m
      ensures m <= |a| ==> Released(pm, a, m, x) && Released(pm, a, m, y)
      ensures m <= |b| ==> Released(pm, b, m, x) && Released(pm, b, m, y)
    {
      if m <= |a| {
        ReleasedStays(pm, a, n, m, x);
        ReleasedStays(pm, a, n, m, y);
      }
      if m <= |b| {
        ReleasedStays(pm, b, n, m, x);
        ReleasedStays(pm, b, n, m, y);
      }
    }
  }

  /** The next patch of a list stands in the other one too, behind the common first ones. */
  lemma NextStandsBehind(pm: Parents, a: seq<Id>, b: seq<Id>, n: nat)
    requires IsOutput(pm, a) && IsOutput(pm, b) && n < |a| && n <= |b| && a[..n] == b[..n]
    ensures Released(pm, b, n, a[n]) && exists j :: n <= j < |b| && b[j] == a[n]
  {
    EachIsReleased(pm, a, n);
    ReleasedAlike(pm, a, b, n, a[n]);
    ReleasedIsListed(pm, b, n, a[n]);
    assert forall j :: 0 <= j < n ==> a[j] == a[..n][j] == b[j];
    assert forall j :: 0 <= j < n ==> b[j] != a[n];
  }

  /** What stands first of two was released no later, and has the smaller id if the other was not later either. */
  lemma FirstOfTwo(pm: Parents, out: seq<Id>, n: nat, j: nat)
    requires ReleaseOrder(pm, out, out) && n < j < |out|
    ensures NoLater(pm, out, out[n], out[j]) && (NoLater(pm, out, out[j], out[n]) ==> out[n] < out[j])
  {
    hide NoLater;
  }

  lemma SameOrder(pm: Parents, a: seq<Id>, b: seq<Id>, n: nat, i: nat, j: nat)
    requires ReleaseOrder(pm, a, a) && ReleaseOrder(pm, b, b) && n < i < |a| && n < j < |b| && a[..n] == b[..n]
    requires Released(pm, b, n, a[n]) && Released(pm, b, n, b[n])
    ensures !(b[j] == a[n] && a[i] == b[n])
  {
    hide Released, NoLater, ReleaseOrder;
    if b[j] == a[n] && a[i] == b[n] {
      FirstOfTwo(pm, a, n, i);
      FirstOfTwo(pm, b, n, j);
      NoLaterAlike(pm, b, a, n, a[n], b[n]);
      NoLaterAlike(pm, b, a, n, b[n], a[n]);
    }
  }

  lemma NextIsSame(pm: Parents, a: seq<Id>, b: seq<Id>, n: nat)
    requires IsOutput(pm, a) && IsOutput(pm, b) && ReleaseOrder(pm, a, a) && ReleaseOrder(pm, b, b)
    requires n < |a| && n <= |b| && a[..n] == b[..n]
    ensures n < |b| && a[n] == b[n]
  {
    hide IsOutput, Released, ReleaseOrder;
    NextStandsBehind(pm, a, b, n);
    NextStandsBehind(pm, b, a, n);
    EachIsReleased(pm, b, n);
    var j :| n <= j < |b| && b[j] == a[n];
    var i :| n <= i < |a| && a[i] == b[n];
    if i > n && j > n {
      SameOrder(pm, a, b, n, i, j);
    }
  }

  lemma {:induction false} SameFront(pm: Parents, a: seq<Id>, b: seq<Id>, n: nat)
    requires IsOutput(pm, a) && IsOutput(pm, b) && ReleaseOrder(pm, a, a) && ReleaseOrder(pm, b, b)
    requires n <= |a|
    ensures n <= |b| && a[..n] == b[..n]
  {
    hide IsOutput, ReleaseOrder;
    if n > 0 {
      SameFront(pm, a, b, n - 1);
      NextIsSame(pm, a, b, n - 1);
      assert a[..n] == a[..n - 1] + [a[n - 1]] && b[..n] == b[..n - 1] + [b[n - 1]];
    }
  }

  /** The records alone determine the list, whatever order the maps are walked in. */
  lemma OrderIsDetermined(pm: Parents, a: seq<Id>, b: seq<Id>)
    requires IsOutput(pm, a) && IsOutput(pm, b) && ReleaseOrder(pm, a, a) && ReleaseOrder(pm, b, b)
    ensures a == b
  {
    hide IsOutput, ReleaseOrder;
    SameFront(pm, a, b, |a|);
    SameFront(pm, b, a, |b|);
  }
}
