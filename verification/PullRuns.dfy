/**
 * A client that commits and pulls, again and again, while the hub grows: which of its links and histories it has after
 * any run.
 */
module PullRuns {
  import opened PatchGraph
  import opened PatchImport
  import opened HubPull

  datatype World = World(client: Graph, stored: seq<Incoming>)

  datatype Event =
    | Commit(id: Id)
    | HubReceives(stored: seq<Incoming>)
    | Pulls(seen: seq<Incoming>, tips: seq<Id>, response: seq<Incoming>, imported: nat)

  /** An id is the hash of a patch, its declared parents included: everybody has the same ones under an id. */
  ghost predicate ClientFollowsIds(client: Graph, declares: Id -> seq<Id>) {
    forall x :: x in client ==> client[x].declared == declares(x)
  }

  ghost predicate HubFollowsIds(stored: seq<Incoming>, declares: Id -> seq<Id>) {
    Distinct(stored) && forall i :: 0 <= i < |stored| ==> stored[i].declared == declares(stored[i].id)
  }

  /** Patches stay, and a declared parent does not arrive after its child. */
  ghost predicate Grows(before: seq<Incoming>, after: seq<Incoming>, declares: Id -> seq<Id>) {
    && (forall x :: Listed(before, x) ==> Listed(after, x))
    && (forall x, p :: Listed(before, x) && p in declares(x) && Listed(after, p) ==> Listed(before, p))
  }

  /**
   * A commit has a fresh id over patches of the client. A pull named patches of the client as its branches' tips and
   * was served what the hub listed then, cut or not; when it is imported client and hub may have gone on, and the
   * import may stop at any point.
   */
  ghost predicate Enabled(w: World, e: Event, declares: Id -> seq<Id>) {
    match e
    case Commit(id) =>
      && id !in w.client && AllPresent(w.client, declares(id))
      && forall x :: x in w.client ==> id !in w.client[x].declared
    case HubReceives(stored) =>
      HubFollowsIds(stored, declares) && Grows(w.stored, stored, declares)
    case Pulls(seen, tips, response, imported) =>
      Answered(w, declares, seen, tips, response) && imported <= |response|
  }

  /** The response answers a pull of this client, made when the hub had `seen`. */
  ghost predicate Answered(
      w: World, declares: Id -> seq<Id>, seen: seq<Incoming>, tips: seq<Id>, response: seq<Incoming>)
  {
    && HubFollowsIds(seen, declares) && Grows(seen, w.stored, declares)
    && (forall t :: t in tips ==> t in w.client) && Served(seen, tips, response)
  }

  function Apply(w: World, e: Event, declares: Id -> seq<Id>): World {
    match e
    case Commit(id) =>
      if !AllPresent(w.client, declares(id)) then w
      else w.(client := WithPatch(w.client, id, declares(id), declares(id)))
    case HubReceives(stored) => w.(stored := stored)
    case Pulls(_, _, response, imported) =>
      w.(client := ImportAll(w.client, if imported <= |response| then response[..imported] else response))
  }

  /** The client is linked to this declared parent, or neither the client nor the hub, which has the child, has it. */
  ghost predicate Settled(w: World, x: Id, p: Id) {
    || (p in w.client && x in w.client && p in w.client[x].parents)
    || (p !in w.client && Listed(w.stored, x) && !Listed(w.stored, p))
  }

  ghost predicate Inv(w: World, declares: Id -> seq<Id>) {
    && ClientFollowsIds(w.client, declares) && HubFollowsIds(w.stored, declares)
    && forall x, p :: x in w.client && p in w.client[x].declared ==> Settled(w, x, p)
  }

  // ---- histories ----

  /** Going back from a patch of the client over what the hub lists, one stays at the client. */
  lemma {:induction false} PathAtClient(w: World, declares: Id -> seq<Id>, path: seq<Id>)
    requires Inv(w, declares) && IsPath(ParentMap(w.stored), path)
    requires path[0] in w.client && Listed(w.stored, path[|path| - 1])
    ensures path[|path| - 1] in w.client
  {
    if |path| > 1 {
      var par := ParentMap(w.stored);
      ParentMapHolds(w.stored);
      ListedAlong(w.stored, path, 1);
      hide Listed;
      assert path[0] in par && path[1] in par[path[0]];
      DeclaredAtHub(w, declares, path[0]);
      assert Settled(w, path[0], path[1]);
      assert IsPath(par, path[1..]);
      PathAtClient(w, declares, path[1..]);
    }
  }

  lemma DeclaredAtHub(w: World, declares: Id -> seq<Id>, x: Id)
    requires Inv(w, declares) && x in w.client && x in ParentMap(w.stored)
    ensures ParentMap(w.stored)[x] == w.client[x].declared
  {
    ParentMapHolds(w.stored);
    var i :| 0 <= i < |w.stored| && w.stored[i].id == x;
  }

  lemma ListedAlong(stored: seq<Incoming>, path: seq<Id>, k: nat)
    requires Distinct(stored) && IsPath(ParentMap(stored), path) && k < |path|
    requires Listed(stored, path[|path| - 1])
    ensures Listed(stored, path[k])
  {
    ParentMapHolds(stored);
  }

  /** What the hub takes the client to have, the client has. */
  lemma TakenIsHad(w: World, declares: Id -> seq<Id>, tips: seq<Id>, x: Id)
    requires Inv(w, declares) && (forall t :: t in tips ==> t in w.client)
    requires ClientHas(w.stored, tips, x) && Listed(w.stored, x)
    ensures x in w.client
  {
    var t :| t in tips && Listed(w.stored, t) && IsAncestorOrSelf(ParentMap(w.stored), x, t);
    if x != t {
      var path :| IsPath(ParentMap(w.stored), path) && |path| >= 2 && path[0] == t && path[|path| - 1] == x;
      PathAtClient(w, declares, path);
    }
  }

  // ---- every step ----

  lemma CommitKeepsInv(w: World, declares: Id -> seq<Id>, id: Id)
    requires Inv(w, declares) && Enabled(w, Commit(id), declares)
    ensures Inv(Apply(w, Commit(id), declares), declares)
  {
    hide Listed, Distinct;
    var w' := Apply(w, Commit(id), declares);
    forall x, p | x in w'.client && p in w'.client[x].declared
      ensures Settled(w', x, p)
    {
      if x != id {
        assert Settled(w, x, p);
      }
    }
  }

  lemma GrowthKeepsInv(w: World, declares: Id -> seq<Id>, stored: seq<Incoming>)
    requires Inv(w, declares) && Enabled(w, HubReceives(stored), declares)
    ensures Inv(Apply(w, HubReceives(stored), declares), declares)
  {
    hide Listed, Distinct;
    var w' := Apply(w, HubReceives(stored), declares);
    forall x, p | x in w'.client && p in w'.client[x].declared
      ensures Settled(w', x, p)
    {
      assert Settled(w, x, p);
    }
  }

  /** A path over what the hub had is one over what it has. */
  lemma PathStays(seen: seq<Incoming>, stored: seq<Incoming>, declares: Id -> seq<Id>, path: seq<Id>)
    requires HubFollowsIds(seen, declares) && HubFollowsIds(stored, declares) && Grows(seen, stored, declares)
    requires IsPath(ParentMap(seen), path)
    ensures IsPath(ParentMap(stored), path)
  {
    ParentMapHolds(seen);
    ParentMapHolds(stored);
    var before, after := ParentMap(seen), ParentMap(stored);
    forall x | x in before
      ensures x in after && after[x] == before[x]
    {
      var i :| 0 <= i < |seen| && seen[i].id == x;
      var j :| 0 <= j < |stored| && stored[j].id == x;
    }
  }

  lemma TakenStays(w: World, declares: Id -> seq<Id>, seen: seq<Incoming>, tips: seq<Id>, x: Id)
    requires HubFollowsIds(seen, declares) && HubFollowsIds(w.stored, declares) && Grows(seen, w.stored, declares)
    requires ClientHas(seen, tips, x)
    ensures ClientHas(w.stored, tips, x)
  {
    hide HubFollowsIds;
    var t :| t in tips && Listed(seen, t) && IsAncestorOrSelf(ParentMap(seen), x, t);
    assert Listed(w.stored, t);
    if x != t {
      var path :| IsPath(ParentMap(seen), path) && |path| >= 2 && path[0] == t && path[|path| - 1] == x;
      PathStays(seen, w.stored, declares, path);
    }
  }

  /** A patch that a pull brought: its declared parents are linked, or nobody has them. */
  lemma PulledIsSettled(w: World, declares: Id -> seq<Id>, seen: seq<Incoming>, tips: seq<Id>,
                        response: seq<Incoming>, i: nat, p: Id)
    requires Inv(w, declares) && Answered(w, declares, seen, tips, response)
    requires FirstNew(w.client, response, i) && p in response[i].declared
    ensures Settled(w.(client := ImportAll(w.client, response)), response[i].id, p)
  {
    hide ClientHas, Distinct, ClientFollowsIds;
    var g' := ImportAll(w.client, response);
    var x := response[i].id;
    ImportedNode(w.client, response, i);
    ImportedIds(w.client, response);
    assert response[i] in response;
    var n :| 0 <= n < |seen| && seen[n] == response[i];
    assert Listed(seen, x);
    if Listed(seen, p) {
      if ClientHas(seen, tips, p) {
        TakenStays(w, declares, seen, tips, p);
        TakenIsHad(w, declares, tips, p);
      } else {
        assert Lacks(seen, tips, p) && Listed(response[..i], p);
        ListedInLonger(response, i, p);
      }
    } else if Listed(response, p) {
      OnlyListedServed(seen, tips, response, p);
    }
  }

  lemma OnlyListedServed(stored: seq<Incoming>, tips: seq<Id>, response: seq<Incoming>, p: Id)
    requires Served(stored, tips, response) && Listed(response, p)
    ensures Listed(stored, p)
  {
    var m :| 0 <= m < |response| && response[m].id == p;
    assert response[m] in response;
    var n :| 0 <= n < |stored| && stored[n] == response[m];
  }

  /** Patches of the client stay as they are, and a parent that arrives was not waited for. */
  lemma OldStaysSettled(w: World, declares: Id -> seq<Id>, seen: seq<Incoming>, tips: seq<Id>,
                        response: seq<Incoming>, x: Id, p: Id)
    requires Inv(w, declares) && Answered(w, declares, seen, tips, response)
    requires x in w.client && p in w.client[x].declared
    ensures Settled(w.(client := ImportAll(w.client, response)), x, p)
  {
    hide Served, HubFollowsIds, ClientFollowsIds, Listed;
    ImportKeepsNodes(w.client, response);
    ImportedIds(w.client, response);
    assert Settled(w, x, p);
    if p !in w.client && Listed(response, p) {
      OnlyListedServed(seen, tips, response, p);
    }
  }

  lemma {:induction false} ImportKeepsNodes(g: Graph, patches: seq<Incoming>)
    ensures forall x :: x in g ==> x in ImportAll(g, patches) && ImportAll(g, patches)[x] == g[x]
  {
    if patches != [] {
      ImportKeepsNodes(g, patches[..|patches| - 1]);
    }
  }

  /** Every patch afterwards was there before or is the first entry of its id. */
  lemma ImportSettles(w: World, declares: Id -> seq<Id>, seen: seq<Incoming>, tips: seq<Id>,
                      response: seq<Incoming>, x: Id, p: Id)
    requires Inv(w, declares) && Answered(w, declares, seen, tips, response)
    requires x in ImportAll(w.client, response)
    ensures ImportAll(w.client, response)[x].declared == declares(x)
    ensures p in ImportAll(w.client, response)[x].declared ==>
      Settled(w.(client := ImportAll(w.client, response)), x, p)
  {
    hide Settled;
    if x in w.client {
      ImportKeepsNodes(w.client, response);
      if p in w.client[x].declared {
        OldStaysSettled(w, declares, seen, tips, response, x, p);
      }
    } else {
      hide Inv;
      ImportedIds(w.client, response);
      var i := FirstEntry(w.client, response, x);
      ImportedNode(w.client, response, i);
      ServedFollowsIds(declares, seen, tips, response, i);
      if p in response[i].declared {
        PulledIsSettled(w, declares, seen, tips, response, i, p);
      }
    }
  }

  lemma ServedFollowsIds(
      declares: Id -> seq<Id>, seen: seq<Incoming>, tips: seq<Id>, response: seq<Incoming>, i: nat)
    requires HubFollowsIds(seen, declares) && Served(seen, tips, response) && i < |response|
    ensures response[i].declared == declares(response[i].id)
  {
    assert response[i] in response;
    var n :| 0 <= n < |seen| && seen[n] == response[i];
  }

  lemma PullKeepsInv(w: World, declares: Id -> seq<Id>, seen: seq<Incoming>, tips: seq<Id>,
                     response: seq<Incoming>, imported: nat)
    requires Inv(w, declares) && Enabled(w, Pulls(seen, tips, response, imported), declares)
    ensures Inv(Apply(w, Pulls(seen, tips, response, imported), declares), declares)
  {
    hide Served, Settled, Distinct;
    var cut := response[..imported];
    CutIsServed(seen, tips, response, imported);
    var w' := w.(client := ImportAll(w.client, cut));
    forall x | x in w'.client
      ensures w'.client[x].declared == declares(x)
    {
      ImportSettles(w, declares, seen, tips, cut, x, x);
    }
    forall x, p | x in w'.client && p in w'.client[x].declared
      ensures Settled(w', x, p)
    {
      ImportSettles(w, declares, seen, tips, cut, x, p);
    }
  }

  lemma StepKeepsInv(w: World, e: Event, declares: Id -> seq<Id>)
    requires Inv(w, declares) && Enabled(w, e, declares)
    ensures Inv(Apply(w, e, declares), declares)
  {
    match e {
      case Commit(id) => CommitKeepsInv(w, declares, id);
      case HubReceives(stored) => GrowthKeepsInv(w, declares, stored);
      case Pulls(seen, tips, response, imported) => PullKeepsInv(w, declares, seen, tips, response, imported);
    }
  }

  // ---- whole runs ----

  function Run(w: World, events: seq<Event>, declares: Id -> seq<Id>): World {
    if events == [] then w else Apply(Run(w, events[..|events| - 1], declares), events[|events| - 1], declares)
  }

  ghost predicate Possible(w: World, events: seq<Event>, declares: Id -> seq<Id>) {
    forall n :: 0 <= n < |events| ==> Enabled(Run(w, events[..n], declares), events[n], declares)
  }

  lemma {:induction false} RunKeepsInv(w: World, events: seq<Event>, declares: Id -> seq<Id>)
    requires Inv(w, declares) && Possible(w, events, declares)
    ensures Inv(Run(w, events, declares), declares)
  {
    hide Inv, Apply, Enabled;
    if events != [] {
      var init := events[..|events| - 1];
      forall n | 0 <= n < |init|
        ensures Enabled(Run(w, init[..n], declares), init[n], declares)
      {
        assert init[..n] == events[..n];
      }
      RunKeepsInv(w, init, declares);
      StepKeepsInv(Run(w, init, declares), events[|events| - 1], declares);
    }
  }

  /** A client with nothing but patches without parents is a start, whatever the hub has. */
  lemma RootsAreSafe(w: World, declares: Id -> seq<Id>)
    requires ClientFollowsIds(w.client, declares) && HubFollowsIds(w.stored, declares)
    requires forall x :: x in w.client ==> w.client[x].declared == []
    ensures Inv(w, declares)
  {
  }

  /**
   * Over any run of commits, pulls, cut pulls and imports that stop halfway, while the hub receives patches:
   * every declared parent that the client has is linked, and every one that the hub has is there.
   */
  lemma LinksStayWhole(w: World, events: seq<Event>, declares: Id -> seq<Id>)
    requires Inv(w, declares) && Possible(w, events, declares)
    ensures var w' := Run(w, events, declares);
      forall x, p :: x in w'.client && p in w'.client[x].declared ==>
        && (p in w'.client ==> p in w'.client[x].parents)
        && (Listed(w'.stored, p) ==> p in w'.client)
  {
    hide Apply, Enabled, Possible, HubFollowsIds, ClientFollowsIds;
    RunKeepsInv(w, events, declares);
    var w' := Run(w, events, declares);
    hide Run;
    forall x, p | x in w'.client && p in w'.client[x].declared
      ensures (p in w'.client ==> p in w'.client[x].parents) && (Listed(w'.stored, p) ==> p in w'.client)
    {
      assert Settled(w', x, p);
    }
  }

  /** After any such run, an uncut pull leaves the client with everything the hub has. */
  lemma PullCompletes(
      w: World, events: seq<Event>, declares: Id -> seq<Id>, tips: seq<Id>, response: seq<Incoming>, x: Id)
    requires Inv(w, declares) && Possible(w, events, declares)
    requires var w' := Run(w, events, declares);
      && (forall t :: t in tips ==> t in w'.client)
      && (forall q :: q in w'.stored && !ClientHas(w'.stored, tips, q.id) ==> q in response)
      && Listed(w'.stored, x)
    ensures x in ImportAll(Run(w, events, declares).client, response)
  {
    hide ClientHas, Inv, Run, Possible;
    RunKeepsInv(w, events, declares);
    var w' := Run(w, events, declares);
    ImportedIds(w'.client, response);
    if ClientHas(w'.stored, tips, x) {
      TakenIsHad(w', declares, tips, x);
    } else {
      var i :| 0 <= i < |w'.stored| && w'.stored[i].id == x;
      assert w'.stored[i] in response;
      var j :| 0 <= j < |response| && response[j] == w'.stored[i];
      assert Listed(response, x);
    }
  }
}
