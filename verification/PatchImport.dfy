/** The import loop of fetch and pull: growing the DAG by a hub's response. */
module PatchImport {
  import opened Wrappers
  import opened PatchGraph

  /** A patch of a response after conversion. */
  datatype Incoming = Incoming(id: Id, declared: seq<Id>)

  function Known(g: Graph, ids: seq<Id>): (known: seq<Id>)
    ensures forall p :: p in known <==> p in ids && p in g
  {
    if ids == [] then []
    else if ids[0] in g then [ids[0]] + Known(g, ids[1..])
    else Known(g, ids[1..])
  }

  /** A patch already stored is skipped; a new one is linked to those of its parents that are stored. */
  function ImportOne(g: Graph, p: Incoming): Graph {
    if p.id in g then g else WithPatch(g, p.id, p.declared, Known(g, p.declared))
  }

  function ImportAll(g: Graph, patches: seq<Incoming>): Graph {
    if patches == [] then g
    else ImportOne(ImportAll(g, patches[..|patches| - 1]), patches[|patches| - 1])
  }

  /** The patches before the first one that cannot be converted. */
  function Convertible(response: seq<Option<Incoming>>): seq<Incoming> {
    if response == [] || response[0].None? then []
    else [response[0].value] + Convertible(response[1..])
  }

  lemma {:induction false} ConvertiblePrefix(response: seq<Option<Incoming>>, n: nat)
    requires n <= |response| && forall i :: 0 <= i < n ==> response[i].Some?
    ensures |Convertible(response)| >= n
    ensures forall i :: 0 <= i < n ==> Convertible(response)[i] == response[i].value
    ensures n < |response| && response[n].None? ==> |Convertible(response)| == n
    ensures n == |response| ==> |Convertible(response)| == n
  {
    if n > 0 {
      ConvertiblePrefix(response[1..], n - 1);
    }
  }

  /** Import one converted patch: skipped if stored, else linked to the stored ones of its parents. */
  method ImportPatch(dag: PatchDag, patch: Incoming) returns (added: bool)
    requires dag.Valid()
    modifies dag
    ensures dag.Valid() && dag.nodes == ImportOne(old(dag.nodes), patch)
    ensures |dag.nodes.Keys| == |old(dag.nodes).Keys| + if added then 1 else 0
  {
    added := patch.id !in dag.nodes;
    if added {
      ghost var keys := dag.nodes.Keys;
      var r := dag.AddPatch(patch.id, patch.declared, Known(dag.nodes, patch.declared));
      assert r == Added;
      assert dag.nodes.Keys == keys + {patch.id};
    }
  }

  /**
   * Import a response. It stops at the first patch that cannot be converted; what came before stays. Adding
   * to the DAG itself never fails.
   */
  method ImportPatches(dag: PatchDag, response: seq<Option<Incoming>>) returns (newPatches: Option<nat>)
    requires dag.Valid()
    modifies dag
    ensures dag.Valid() && dag.nodes == ImportAll(old(dag.nodes), Convertible(response))
    ensures newPatches.Some? <==> forall i :: 0 <= i < |response| ==> response[i].Some?
    ensures newPatches.Some? ==> newPatches.value == |dag.nodes.Keys| - |old(dag.nodes).Keys|
  {
    hide Known, Convertible, Linked, ImportOne;
    var count := 0;
    ghost var before, patches := dag.nodes, Convertible(response);
    ConvertiblePrefix(response, 0);
    for n := 0 to |response|
      invariant dag.Valid() && forall i :: 0 <= i < n ==> response[i].Some?
      invariant n <= |patches| && dag.nodes == ImportAll(before, patches[..n])
      invariant count == |dag.nodes.Keys| - |before.Keys|
    {
      ConvertiblePrefix(response, n);
      if response[n].None? {
        assert patches[..n] == patches;
        return None;
      }
      ConvertiblePrefix(response, n + 1);
      assert patches[..n + 1][..n] == patches[..n] && patches[n] == response[n].value;
      var added := ImportPatch(dag, response[n].value);
      count := count + if added then 1 else 0;
    }
    ConvertiblePrefix(response, |response|);
    assert patches[..|response|] == patches;
    return Some(count);
  }

  /** Links are declared parents. */
  ghost predicate LinksDeclared(g: Graph) {
    forall x, p :: x in g && p in g[x].parents ==> p in g[x].declared
  }

  /** Whatever the response, in whatever order: no cycle, no undeclared link, nothing stored is touched. */
  lemma {:induction false} ImportKeepsSound(g: Graph, patches: seq<Incoming>)
    requires Linked(g) && LinksDeclared(g)
    ensures var g' := ImportAll(g, patches);
      && Linked(g') && Acyclic(Edges(g')) && LinksDeclared(g')
      && (forall x :: x in g ==> x in g' && g'[x] == g[x])
  {
    hide Acyclic;
    if patches != [] {
      var init := ImportAll(g, patches[..|patches| - 1]);
      ImportKeepsSound(g, patches[..|patches| - 1]);
      var p := patches[|patches| - 1];
      if p.id !in init {
        WithPatchLinked(init, p.id, p.declared, Known(init, p.declared));
      }
    }
    LinkedIsAcyclic(ImportAll(g, patches));
  }

  ghost predicate Listed(patches: seq<Incoming>, id: Id) {
    exists i :: 0 <= i < |patches| && patches[i].id == id
  }

  /** Afterwards exactly the patches stored before and those of the response are stored. */
  lemma {:induction false} ImportedIds(g: Graph, patches: seq<Incoming>)
    ensures forall x :: x in ImportAll(g, patches) <==> x in g || Listed(patches, x)
  {
    if patches != [] {
      var last := |patches| - 1;
      ImportedIds(g, patches[..last]);
      forall x
        ensures Listed(patches, x) <==> Listed(patches[..last], x) || x == patches[last].id
      {
        if Listed(patches[..last], x) {
          var i :| 0 <= i < last && patches[..last][i].id == x;
          assert patches[i].id == x;
        }
        if Listed(patches, x) && x != patches[last].id {
          var i :| 0 <= i < |patches| && patches[i].id == x;
          assert patches[..last][i].id == x;
        }
      }
    }
  }

  /** Importing what is stored already changes nothing; so importing a response twice is importing it once. */
  lemma {:induction false} ImportOfStored(g: Graph, patches: seq<Incoming>)
    requires forall i :: 0 <= i < |patches| ==> patches[i].id in g
    ensures ImportAll(g, patches) == g
  {
    if patches != [] {
      ImportOfStored(g, patches[..|patches| - 1]);
    }
  }

  lemma ImportIsIdempotent(g: Graph, patches: seq<Incoming>)
    ensures ImportAll(ImportAll(g, patches), patches) == ImportAll(g, patches)
  {
    ImportedIds(g, patches);
    forall i | 0 <= i < |patches|
      ensures patches[i].id in ImportAll(g, patches)
    {
      assert Listed(patches, patches[i].id);
    }
    ImportOfStored(ImportAll(g, patches), patches);
  }

  /** The first entry of a patch that was not stored before. */
  ghost predicate FirstNew(g: Graph, patches: seq<Incoming>, i: nat) {
    i < |patches| && patches[i].id !in g && !Listed(patches[..i], patches[i].id)
  }

  /** A new patch is linked to the declared parents stored when its first entry is reached. */
  lemma {:induction false} ImportedNode(g: Graph, patches: seq<Incoming>, i: nat)
    requires FirstNew(g, patches, i)
    ensures var g', p := ImportAll(g, patches), patches[i];
      && p.id in g' && g'[p.id].declared == p.declared
      && (forall q :: q in g'[p.id].parents <==> q in p.declared && (q in g || Listed(patches[..i], q)))
    decreases |patches|
  {
    var last := |patches| - 1;
    var init := ImportAll(g, patches[..last]);
    if i == last {
      ImportedIds(g, patches[..i]);
    } else {
      assert patches[..last][..i] == patches[..i];
      ImportedNode(g, patches[..last], i);
    }
  }

  /** No new patch lacks the link to a declared parent that is stored in the end. */
  ghost predicate NoLinkLost(g: Graph, patches: seq<Incoming>) {
    var g' := ImportAll(g, patches);
    forall x, q :: x in g' && x !in g && q in g'[x].declared && q in g' ==> q in g'[x].parents
  }

  /** Every declared parent that the response has, or the graph had, comes before its child. */
  ghost predicate ParentsFirst(g: Graph, patches: seq<Incoming>) {
    forall i: nat, q :: FirstNew(g, patches, i) && q in patches[i].declared && (q in g || Listed(patches, q)) ==>
      q in g || Listed(patches[..i], q)
  }

  lemma FirstEntry(g: Graph, patches: seq<Incoming>, x: Id) returns (i: nat)
    requires x !in g && Listed(patches, x)
    ensures FirstNew(g, patches, i) && patches[i].id == x
  {
    i :| 0 <= i < |patches| && patches[i].id == x;
    while Listed(patches[..i], x)
      invariant i < |patches| && patches[i].id == x
      decreases i
    {
      var j :| 0 <= j < |patches[..i]| && patches[..i][j].id == x;
      i := j;
    }
  }

  /** Links to stored parents are kept exactly when the response lists parents before children. */
  lemma LinksKeptIff(g: Graph, patches: seq<Incoming>)
    ensures NoLinkLost(g, patches) <==> ParentsFirst(g, patches)
  {
    hide Listed, ImportAll;
    var g' := ImportAll(g, patches);
    ImportedIds(g, patches);
    if NoLinkLost(g, patches) {
      forall i: nat, q | FirstNew(g, patches, i) && q in patches[i].declared && (q in g || Listed(patches, q))
        ensures q in g || Listed(patches[..i], q)
      {
        ImportedNode(g, patches, i);
        assert q in g'[patches[i].id].parents;
      }
    }
    if ParentsFirst(g, patches) {
      forall x, q | x in g' && x !in g && q in g'[x].declared && q in g'
        ensures q in g'[x].parents
      {
        var i := FirstEntry(g, patches, x);
        ImportedNode(g, patches, i);
      }
    }
  }
}
