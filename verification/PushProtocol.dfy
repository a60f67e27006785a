/**
 * Pushing as a state machine: prepare, deliver, record, clear the checkpoint, each of which may be the last step
 * before a failure or crash. Any number of pushes, by the daemon and by `suture push`, may be on their way at
 * once, interleaved with commits, branch changes and pulls by any process.
 */
module PushProtocol {
  import opened Wrappers
  import opened PatchGraph
  import opened PatchImport
  import opened PatchesSince

  datatype Head = OnBranch(name: string) | Detached(id: Id)

  datatype Stage = Prepared | Delivered | Recorded

  /** A push on its way: what is sent, what HEAD was when it was prepared, and how far it got. */
  datatype Push = Push(patches: set<Id>, head: Id, stage: Stage)

  datatype State = State(
    g: Graph, branches: map<string, Id>, head: Head,
    hub: set<Id>,
    lastPushed: Option<Id>, checkpoint: Option<Id>, pushes: map<nat, Push>)

  /** The all-zero id stands for a HEAD that cannot be read. */
  const ZERO: Id := 0

  function HeadId(s: State): Id {
    match s.head
    case OnBranch(name) => if name in s.branches then s.branches[name] else ZERO
    case Detached(id) => id
  }

  /** The checkpoint goes before the last pushed patch. */
  function Reference(s: State): Option<Id> {
    if s.checkpoint.Some? then s.checkpoint else s.lastPushed
  }

  ghost function KnownSet(g: Graph, since: Id): set<Id> {
    {since} + set x | x in g && IsAncestor(Edges(g), x, since)
  }

  ghost predicate FromBranch(s: State, known: set<Id>, x: Id) {
    exists name :: name in s.branches && IsAncestorOrSelf(Unknown(s.g, known), x, s.branches[name])
  }

  /** What a push prepared now sends: everything, or what any branch has beyond the reference. */
  ghost function PatchesToPush(s: State): set<Id> {
    match Reference(s)
    case None => s.g.Keys
    case Some(r) =>
      set x | x in s.g && x !in KnownSet(s.g, r) && FromBranch(s, KnownSet(s.g, r), x)
  }

  /** This is the list the repository computes from its branch tips. */
  lemma PushIsList(s: State, tips: seq<Id>, r: Id, x: Id)
    requires Reference(s) == Some(r)
    requires forall t :: t in tips <==> exists name :: name in s.branches && s.branches[name] == t
    ensures x in PatchesToPush(s) <==> Reached(s.g, KnownSet(s.g, r), tips, x)
  {
    hide IsAncestorOrSelf, KnownSet;
    var known := KnownSet(s.g, r);
    if FromTip(s.g, known, tips, x) {
      var t :| t in tips && IsAncestorOrSelf(Unknown(s.g, known), x, t);
      var name :| name in s.branches && s.branches[name] == t;
    }
    if FromBranch(s, known, x) {
      var name :| name in s.branches && IsAncestorOrSelf(Unknown(s.g, known), x, s.branches[name]);
      assert s.branches[name] in tips;
    }
  }

  datatype Event =
    | Store(id: Id, declared: seq<Id>)
    | SetBranch(name: string, target: Id)
    | DropBranch(dropped: string)
    | Checkout(to: Head)
    | Learn(learned: Id, parents: seq<Id>)
    | HubReceives(ids: set<Id>)
    | Prepare(pusher: nat, checkpointWritten: bool)
    | PrepareByHand(pusher: nat)
    | Deliver(pusher: nat)
    | Record(pusher: nat)
    | ClearCheckpoint(pusher: nat)
    | Leave(pusher: nat)

  /** The whole declared history of a patch, as far as it is stored here, is on the hub. */
  ghost predicate Covered(s: State, r: Id) {
    forall y :: y in s.g && IsAncestorOrSelf(Declared(s.g), y, r) ==> y in s.hub
  }

  /** No stored patch is, or declares, this id. */
  ghost predicate Fresh(g: Graph, id: Id) {
    id !in g && id != ZERO && forall x :: x in g ==> id !in g[x].declared
  }

  /**
   * When an event can happen. A commit makes a fresh id over stored parents. The hub serves patches whose
   * history it holds, at any time; it may also receive anything at any time: other clients, flushed retries,
   * partial deliveries. The daemon sends nothing if there is nothing to send; `suture push` does.
   */
  ghost predicate Enabled(s: State, e: Event) {
    match e
    case Store(id, declared) => Fresh(s.g, id) && AllPresent(s.g, declared)
    case SetBranch(_, target) => target in s.g
    case DropBranch(_) => true
    case Checkout(to) => to.Detached? ==> to.id in s.g
    case Learn(id, parents) =>
      id !in s.g && id != ZERO && Covered(Apply(s, e), id)
    case HubReceives(_) => true
    case Prepare(k, _) => k !in s.pushes && PatchesToPush(s) != {}
    case PrepareByHand(k) => k !in s.pushes
    case Deliver(k) => k in s.pushes && s.pushes[k].stage == Prepared
    case Record(k) => k in s.pushes && s.pushes[k].stage == Delivered
    case ClearCheckpoint(k) => k in s.pushes && s.pushes[k].stage == Recorded
    case Leave(k) => k in s.pushes
  }

  ghost function Apply(s: State, e: Event): State {
    match e
    case Store(id, declared) =>
      if AllPresent(s.g, declared) then s.(g := WithPatch(s.g, id, declared, declared)) else s
    case SetBranch(name, target) => s.(branches := s.branches[name := target])
    case DropBranch(name) => s.(branches := s.branches - {name})
    case Checkout(to) => s.(head := to)
    case Learn(id, parents) => s.(g := WithPatch(s.g, id, parents, Known(s.g, parents)))
    case HubReceives(ids) => s.(hub := s.hub + ids)
    case Prepare(k, checkpointWritten) =>
      s.(checkpoint := if checkpointWritten then Reference(s) else s.checkpoint,
         pushes := s.pushes[k := Push(PatchesToPush(s), HeadId(s), Prepared)])
    case PrepareByHand(k) =>
      s.(pushes := s.pushes[k := Push(PatchesToPush(NoCheckpoint(s)), HeadId(s), Prepared)])
    case Deliver(k) =>
      if k !in s.pushes then s
      else s.(hub := s.hub + s.pushes[k].patches, pushes := s.pushes[k := s.pushes[k].(stage := Delivered)])
    case Record(k) =>
      if k !in s.pushes then s
      else s.(lastPushed := Some(s.pushes[k].head), pushes := s.pushes[k := s.pushes[k].(stage := Recorded)])
    case ClearCheckpoint(k) => s.(checkpoint := None, pushes := s.pushes - {k})
    case Leave(k) => s.(pushes := s.pushes - {k})
  }

  /** The state as `suture push` reads it: it knows of no checkpoint. */
  function NoCheckpoint(s: State): State {
    s.(checkpoint := None)
  }

  ghost predicate CoveredWith(s: State, r: Id, more: set<Id>) {
    forall y :: y in s.g && IsAncestorOrSelf(Declared(s.g), y, r) ==> y in s.hub + more
  }

  ghost predicate IsRef(s: State, r: Id) {
    r in s.g || r == ZERO
  }

  ghost predicate SoundGraph(g: Graph) {
    Linked(g) && LinksDeclared(g) && ZERO !in g
  }

  /** Every recorded reference names a patch whose whole history is on the hub, and so will the next one. */
  ghost predicate Inv(s: State) {
    && SoundGraph(s.g)
    && (forall name :: name in s.branches ==> s.branches[name] in s.g)
    && (s.head.Detached? ==> s.head.id in s.g)
    && (s.lastPushed.Some? ==> IsRef(s, s.lastPushed.value) && Covered(s, s.lastPushed.value))
    && (s.checkpoint.Some? ==> IsRef(s, s.checkpoint.value) && Covered(s, s.checkpoint.value))
    && (forall k :: k in s.pushes ==> PushSafe(s, s.pushes[k]))
  }

  /** Once the push is delivered, the history of its HEAD is on the hub. */
  ghost predicate PushSafe(s: State, p: Push) {
    IsRef(s, p.head) && CoveredWith(s, p.head, Missing(p))
  }

  /** What the hub does not have from this push yet. */
  function Missing(p: Push): set<Id> {
    if p.stage == Prepared then p.patches else {}
  }

  /** HEAD is something this push sends, or part of the reference's history, or not a stored patch at all. */
  ghost predicate HeadIncluded(s: State) {
    || HeadId(s) !in s.g
    || HeadId(s) in PatchesToPush(s)
    || (Reference(s).Some? && IsAncestorOrSelf(Declared(s.g), HeadId(s), Reference(s).value))
  }

  // ---- paths ----

  lemma AncestorOrSelfTransitive(par: Parents, x: Id, y: Id, z: Id)
    requires IsAncestorOrSelf(par, y, x) && IsAncestorOrSelf(par, z, y)
    ensures IsAncestorOrSelf(par, z, x)
  {
    hide IsAncestor;
    if x != y && y != z {
      AncestorTransitive(par, x, y, z);
    }
  }

  lemma PathAsAncestor(par: Parents, path: seq<Id>, k: nat)
    requires IsPath(par, path) && k < |path|
    ensures IsAncestorOrSelf(par, path[|path| - 1], path[k])
  {
    if k < |path| - 1 {
      assert IsPath(par, path[k..]);
    }
  }

  lemma AncestorAsPath(par: Parents, x: Id, y: Id) returns (path: seq<Id>)
    requires IsAncestorOrSelf(par, y, x)
    ensures IsPath(par, path) && path[0] == x && path[|path| - 1] == y
  {
    if y == x {
      path := [x];
    } else {
      path :| IsPath(par, path) && |path| >= 2 && path[0] == x && path[|path| - 1] == y;
    }
  }

  /** Links are declared parents, so what the reference knows is in its declared history. */
  lemma KnownIsDeclared(g: Graph, r: Id, x: Id)
    requires LinksDeclared(g) && x in KnownSet(g, r)
    ensures IsAncestorOrSelf(Declared(g), x, r)
  {
    if x != r {
      var path := AncestorAsPath(Edges(g), r, x);
      assert IsPath(Declared(g), path);
      PathAsAncestor(Declared(g), path, 0);
    }
  }

  lemma UnknownIsDeclared(g: Graph, known: set<Id>, x: Id, t: Id)
    requires IsAncestorOrSelf(Unknown(g, known), x, t)
    ensures IsAncestorOrSelf(Declared(g), x, t)
  {
    var path := AncestorAsPath(Unknown(g, known), t, x);
    assert IsPath(Declared(g), path);
    PathAsAncestor(Declared(g), path, 0);
  }

  /** Going back from a branch, one meets a patch the hub knows, or the patch is sent. */
  lemma HistoryIsKnownOrSent(s: State, r: Id, name: string, y: Id)
    requires LinksDeclared(s.g) && Reference(s) == Some(r) && name in s.branches
    requires y in s.g && IsAncestorOrSelf(Declared(s.g), y, s.branches[name])
    ensures y in PatchesToPush(s) || IsAncestorOrSelf(Declared(s.g), y, r)
  {
    hide IsAncestor, KnownSet;
    var g, known := s.g, KnownSet(s.g, r);
    var path := AncestorAsPath(Declared(g), s.branches[name], y);
    if k :| 0 <= k < |path| && path[k] in known {
      PathAsAncestor(Declared(g), path, k);
      KnownIsDeclared(g, r, path[k]);
      AncestorOrSelfTransitive(Declared(g), r, path[k], y);
    } else {
      assert IsPath(Unknown(g, known), path);
      PathAsAncestor(Unknown(g, known), path, 0);
      assert path[|path| - 1] == y && y !in known;
    }
  }

  /** A delivered push leaves every branch's whole history on the hub: no later push can skip a commit. */
  lemma PushCoversBranches(s: State, name: string)
    requires Inv(s) && name in s.branches
    ensures CoveredWith(s, s.branches[name], PatchesToPush(s))
  {
    hide IsAncestor, PatchesToPush;
    forall y | y in s.g && IsAncestorOrSelf(Declared(s.g), y, s.branches[name])
      ensures y in s.hub + PatchesToPush(s)
    {
      match Reference(s) {
        case None => EverythingIsPushed(s);
        case Some(r) => HistoryIsKnownOrSent(s, r, name, y);
      }
    }
  }

  lemma EverythingIsPushed(s: State)
    requires Reference(s).None?
    ensures PatchesToPush(s) == s.g.Keys
  {
  }

  lemma SentIsFromBranch(s: State, x: Id) returns (name: string)
    requires x in PatchesToPush(s) && Reference(s).Some?
    ensures name in s.branches && IsAncestorOrSelf(Declared(s.g), x, s.branches[name])
  {
    hide IsAncestor, KnownSet;
    var known := KnownSet(s.g, Reference(s).value);
    name :| name in s.branches && IsAncestorOrSelf(Unknown(s.g, known), x, s.branches[name]);
    UnknownIsDeclared(s.g, known, x, s.branches[name]);
  }

  /** The history of HEAD is covered by what is sent and the reference's history exactly when HEAD is. */
  lemma HeadCoveredIff(s: State)
    requires SoundGraph(s.g)
    ensures HeadIncluded(s) <==>
      forall y :: y in s.g && IsAncestorOrSelf(Declared(s.g), y, HeadId(s)) ==>
        y in PatchesToPush(s)
        || (Reference(s).Some? && IsAncestorOrSelf(Declared(s.g), y, Reference(s).value))
  {
    hide IsAncestor, PatchesToPush;
    var h := HeadId(s);
    if HeadIncluded(s) {
      forall y | y in s.g && IsAncestorOrSelf(Declared(s.g), y, h)
        ensures y in PatchesToPush(s)
          || (Reference(s).Some? && IsAncestorOrSelf(Declared(s.g), y, Reference(s).value))
      {
        HistoryOfHead(s, y);
      }
    } else {
      assert IsAncestorOrSelf(Declared(s.g), h, h);
    }
  }

  lemma HistoryOfHead(s: State, y: Id)
    requires SoundGraph(s.g) && HeadIncluded(s) && y in s.g && IsAncestorOrSelf(Declared(s.g), y, HeadId(s))
    ensures y in PatchesToPush(s)
      || (Reference(s).Some? && IsAncestorOrSelf(Declared(s.g), y, Reference(s).value))
  {
    var h := HeadId(s);
    if h !in s.g {
      UnknownHasNoHistory(s.g, h, y);
    }
    hide IsAncestor, PatchesToPush;
    match Reference(s) {
      case None => EverythingIsPushed(s);
      case Some(r) =>
        if h in PatchesToPush(s) {
          var name := SentIsFromBranch(s, h);
          AncestorOrSelfTransitive(Declared(s.g), s.branches[name], h, y);
          HistoryIsKnownOrSent(s, r, name, y);
        } else {
          AncestorOrSelfTransitive(Declared(s.g), r, h, y);
        }
    }
  }

  lemma UnknownHasNoHistory(g: Graph, h: Id, y: Id)
    requires h !in g
    ensures IsAncestorOrSelf(Declared(g), y, h) ==> y == h
  {
    if IsAncestor(Declared(g), y, h) {
      AncestorsNeedParents(Declared(g), y, h);
    }
  }

  /** On a branch, or with an unreadable HEAD, HEAD is always included. */
  lemma AttachedHeadIsIncluded(s: State)
    requires Inv(s) && s.head.OnBranch?
    ensures HeadIncluded(s)
  {
    hide IsAncestor, PatchesToPush, KnownSet;
    var name := s.head.name;
    if name in s.branches {
      match Reference(s) {
        case None => EverythingIsPushed(s);
        case Some(r) => HistoryIsKnownOrSent(s, r, name, s.branches[name]);
      }
    }
  }

  // ---- every step ----

  lemma {:induction false} PathAvoids(g: Graph, id: Id, node: Node, path: seq<Id>)
    requires id !in g && IsPath(Declared(g[id := node]), path) && id !in path
    ensures IsPath(Declared(g), path)
  {
    forall i | 0 <= i < |path| - 1
      ensures path[i] in Declared(g) && path[i + 1] in Declared(g)[path[i]]
    {
      assert path[i] in path;
    }
  }

  lemma {:induction false} FreshIsUnreachable(g: Graph, id: Id, node: Node, path: seq<Id>)
    requires Fresh(g, id) && IsPath(Declared(g[id := node]), path) && path[0] != id
    ensures id !in path
  {
    if |path| > 1 {
      var par := Declared(g[id := node]);
      assert path[0] in par && path[1] in par[path[0]];
      assert path == [path[0]] + path[1..] && IsPath(par, path[1..]);
      FreshIsUnreachable(g, id, node, path[1..]);
    }
  }

  /** A commit does not change the history of what was there before. */
  lemma StoreKeepsCover(s: State, id: Id, declared: seq<Id>, r: Id, more: set<Id>)
    requires Fresh(s.g, id) && AllPresent(s.g, declared) && IsRef(s, r) && CoveredWith(s, r, more)
    ensures CoveredWith(Apply(s, Store(id, declared)), r, more)
  {
    hide IsAncestorOrSelf;
    var s' := Apply(s, Store(id, declared));
    forall y | y in s'.g && IsAncestorOrSelf(Declared(s'.g), y, r)
      ensures y in s.hub + more
    {
      var path := AncestorAsPath(Declared(s'.g), r, y);
      FreshIsUnreachable(s.g, id, s'.g[id], path);
      assert path[|path| - 1] in path;
      PathAvoids(s.g, id, s'.g[id], path);
      PathAsAncestor(Declared(s.g), path, 0);
    }
  }

  /** A pulled patch changes the history of those that declared it before; the hub holds its history too. */
  lemma LearnKeepsCover(s: State, id: Id, parents: seq<Id>, r: Id, more: set<Id>)
    requires Enabled(s, Learn(id, parents)) && IsRef(s, r) && CoveredWith(s, r, more)
    ensures CoveredWith(Apply(s, Learn(id, parents)), r, more)
  {
    hide IsAncestorOrSelf;
    var s' := Apply(s, Learn(id, parents));
    forall y | y in s'.g && IsAncestorOrSelf(Declared(s'.g), y, r)
      ensures y in s'.hub + more
    {
      var path := AncestorAsPath(Declared(s'.g), r, y);
      if id in path {
        var k :| 0 <= k < |path| && path[k] == id;
        PathAsAncestor(Declared(s'.g), path, k);
      } else {
        assert path[|path| - 1] in path;
        PathAvoids(s.g, id, s'.g[id], path);
        PathAsAncestor(Declared(s.g), path, 0);
      }
    }
  }

  lemma GrownGraphSound(g: Graph, id: Id, declared: seq<Id>, parents: seq<Id>)
    requires SoundGraph(g) && id !in g && id != ZERO && AllPresent(g, parents)
    requires forall p :: p in parents ==> p in declared
    ensures SoundGraph(WithPatch(g, id, declared, parents))
  {
    WithPatchLinked(g, id, declared, parents);
  }

  lemma CoveredIsCoveredWith(s: State, r: Id)
    ensures Covered(s, r) <==> CoveredWith(s, r, {})
  {
    assert s.hub + {} == s.hub;
  }

  /** What is covered, here or once a push is delivered, stays covered. */
  ghost predicate KeepsCover(s: State, s': State) {
    forall r, more: set<Id> :: IsRef(s, r) && CoveredWith(s, r, more) ==> IsRef(s', r) && CoveredWith(s', r, more)
  }

  lemma CoverKept(s: State, s': State)
    requires Inv(s) && KeepsCover(s, s')
    requires s'.lastPushed == s.lastPushed && s'.checkpoint == s.checkpoint && s'.pushes == s.pushes
    ensures s.lastPushed.Some? ==> IsRef(s', s.lastPushed.value) && Covered(s', s.lastPushed.value)
    ensures s.checkpoint.Some? ==> IsRef(s', s.checkpoint.value) && Covered(s', s.checkpoint.value)
    ensures forall k :: k in s.pushes ==> PushSafe(s', s.pushes[k])
  {
    hide CoveredWith, Covered, IsRef, Missing, SoundGraph;
    if s.lastPushed.Some? {
      CoveredIsCoveredWith(s, s.lastPushed.value);
      CoveredIsCoveredWith(s', s.lastPushed.value);
    }
    if s.checkpoint.Some? {
      CoveredIsCoveredWith(s, s.checkpoint.value);
      CoveredIsCoveredWith(s', s.checkpoint.value);
    }
    forall k | k in s.pushes
      ensures PushSafe(s', s.pushes[k])
    {
      assert PushSafe(s, s.pushes[k]);
    }
  }

  /** The invariant survives every step, if HEAD is included whenever a push is prepared. */
  lemma StepKeepsInv(s: State, e: Event)
    requires Inv(s) && Enabled(s, e)
    requires e.Prepare? ==> HeadIncluded(s)
    requires e.PrepareByHand? ==> HeadIncluded(NoCheckpoint(s))
    ensures Inv(Apply(s, e))
  {
    hide IsAncestorOrSelf, Linked, LinksDeclared;
    match e {
      case Store(id, declared) => StoreKeepsInv(s, id, declared);
      case Learn(id, parents) => LearnKeepsInv(s, id, parents);
      case Prepare(k, w) => PrepareKeepsInv(s, k, w);
      case PrepareByHand(k) => PrepareByHandKeepsInv(s, k);
      case Deliver(k) => DeliverKeepsInv(s, k);
      case Record(k) => RecordKeepsInv(s, k);
      case SetBranch(_, _) =>
      case DropBranch(_) =>
      case Checkout(_) =>
      case HubReceives(_) =>
      case ClearCheckpoint(_) =>
      case Leave(_) =>
    }
  }

  lemma StoreKeepsInv(s: State, id: Id, declared: seq<Id>)
    requires Inv(s) && Enabled(s, Store(id, declared))
    ensures Inv(Apply(s, Store(id, declared)))
  {
    hide Linked, LinksDeclared, Fresh, CoveredWith, Covered, PushSafe;
    var s' := Apply(s, Store(id, declared));
    FreshIsNew(s.g, id);
    GrownGraphSound(s.g, id, declared, declared);
    forall r, more: set<Id> | IsRef(s, r) && CoveredWith(s, r, more)
      ensures CoveredWith(s', r, more)
    {
      StoreKeepsCover(s, id, declared, r, more);
    }
    CoverKept(s, s');
  }

  lemma FreshIsNew(g: Graph, id: Id)
    requires Fresh(g, id)
    ensures id !in g && id != ZERO
  {
  }

  lemma LearnKeepsInv(s: State, id: Id, parents: seq<Id>)
    requires Inv(s) && Enabled(s, Learn(id, parents))
    ensures Inv(Apply(s, Learn(id, parents)))
  {
    hide Linked, LinksDeclared, CoveredWith, Covered, PushSafe;
    var s' := Apply(s, Learn(id, parents));
    GrownGraphSound(s.g, id, parents, Known(s.g, parents));
    forall r, more: set<Id> | IsRef(s, r) && CoveredWith(s, r, more)
      ensures CoveredWith(s', r, more)
    {
      LearnKeepsCover(s, id, parents, r, more);
    }
    CoverKept(s, s');
  }

  lemma PrepareKeepsInv(s: State, k: nat, written: bool)
    requires Inv(s) && Enabled(s, Prepare(k, written)) && HeadIncluded(s)
    ensures Inv(Apply(s, Prepare(k, written)))
  {
    hide IsAncestorOrSelf, Linked, LinksDeclared, PatchesToPush, HeadIncluded;
    HeadCoveredIff(s);
    assert CoveredWith(s, HeadId(s), PatchesToPush(s));
  }

  lemma PrepareByHandKeepsInv(s: State, k: nat)
    requires Inv(s) && Enabled(s, PrepareByHand(k)) && HeadIncluded(NoCheckpoint(s))
    ensures Inv(Apply(s, PrepareByHand(k)))
  {
    hide IsAncestorOrSelf, Linked, LinksDeclared, PatchesToPush, HeadIncluded;
    HeadCoveredIff(NoCheckpoint(s));
    assert CoveredWith(s, HeadId(s), PatchesToPush(NoCheckpoint(s)));
  }

  lemma DeliverKeepsInv(s: State, k: nat)
    requires Inv(s) && Enabled(s, Deliver(k))
    ensures Inv(Apply(s, Deliver(k)))
  {
    hide IsAncestorOrSelf, SoundGraph;
    var s' := Apply(s, Deliver(k));
    forall j | j in s'.pushes
      ensures PushSafe(s', s'.pushes[j])
    {
      assert PushSafe(s, s.pushes[j]);
    }
  }

  lemma RecordKeepsInv(s: State, k: nat)
    requires Inv(s) && Enabled(s, Record(k))
    ensures Inv(Apply(s, Record(k)))
  {
    hide IsAncestorOrSelf, SoundGraph;
    assert PushSafe(s, s.pushes[k]);
    CoveredIsCoveredWith(s, s.pushes[k].head);
  }

  // ---- whole runs ----

  ghost function Run(s: State, events: seq<Event>): State {
    if events == [] then s else Apply(Run(s, events[..|events| - 1]), events[|events| - 1])
  }

  predicate Prepares(e: Event) {
    e.Prepare? || e.PrepareByHand?
  }

  /** A run in which every event is possible and every push is prepared with HEAD on a branch. */
  ghost predicate OnBranchRun(s: State, events: seq<Event>) {
    forall n :: 0 <= n < |events| ==>
      && Enabled(Run(s, events[..n]), events[n])
      && (Prepares(events[n]) ==> Run(s, events[..n]).head.OnBranch?)
  }

  ghost predicate NeverPushed(s: State) {
    s.lastPushed.None? && s.checkpoint.None? && s.pushes == map[]
  }

  /**
   * Over every interleaving, starting from a repository that was never pushed: whatever the config names as
   * last pushed or as checkpoint has its whole history on the hub.
   */
  lemma {:induction false} ReferencesStayCovered(s: State, events: seq<Event>)
    requires Inv(s) && OnBranchRun(s, events)
    ensures var s' := Run(s, events);
      && Inv(s')
      && (s'.lastPushed.Some? ==> Covered(s', s'.lastPushed.value))
      && (s'.checkpoint.Some? ==> Covered(s', s'.checkpoint.value))
  {
    hide Apply, Enabled, Covered;
    if events != [] {
      var last := |events| - 1;
      var init := events[..last];
      forall n | 0 <= n < last
        ensures Enabled(Run(s, init[..n]), init[n]) && (Prepares(init[n]) ==> Run(s, init[..n]).head.OnBranch?)
      {
        assert init[..n] == events[..n];
      }
      ReferencesStayCovered(s, init);
      var m := Run(s, init);
      if Prepares(events[last]) {
        AttachedHeadIsIncluded(m);
        CheckpointIsNotNeeded(m);
        AttachedHeadIsIncluded(NoCheckpoint(m));
      }
      StepKeepsInv(m, events[last]);
    }
  }

  lemma CheckpointIsNotNeeded(s: State)
    requires Inv(s)
    ensures Inv(NoCheckpoint(s))
  {
    hide IsAncestorOrSelf, SoundGraph;
    var s' := NoCheckpoint(s);
    forall k | k in s'.pushes
      ensures PushSafe(s', s'.pushes[k])
    {
      assert PushSafe(s, s.pushes[k]);
    }
  }

  lemma NeverPushedIsSafe(s: State)
    requires SoundGraph(s.g) && NeverPushed(s)
    requires forall name :: name in s.branches ==> s.branches[name] in s.g
    requires s.head.Detached? ==> s.head.id in s.g
    ensures Inv(s)
  {
  }

  // ---- HEAD on no branch ----

  /** What is part of the reference is never sent. */
  lemma KnownIsNeverSent(s: State, x: Id)
    requires Reference(s).Some? && x in KnownSet(s.g, Reference(s).value)
    ensures x !in PatchesToPush(s)
  {
  }

  function WholePush(k: nat): seq<Event> {
    [Prepare(k, true), Deliver(k), Record(k), ClearCheckpoint(k)]
  }

  /**
   * A push prepared while HEAD is a commit that it does not send and the hub lacks: once it is delivered
   * and recorded, the config names a commit that is not on the hub, and no push based on it sends it.
   */
  lemma ExcludedHeadIsSkipped(s: State, k: nat)
    requires Inv(s) && Enabled(s, Prepare(k, true))
    requires HeadId(s) in s.g && HeadId(s) !in s.hub && HeadId(s) !in PatchesToPush(s)
    ensures !HeadIncluded(s)
    ensures var e := WholePush(k);
      forall n :: 0 <= n < |e| ==> Enabled(Run(s, e[..n]), e[n])
    ensures var s' := Run(s, WholePush(k));
      && s'.lastPushed == Some(HeadId(s)) && s'.checkpoint.None? && s'.pushes == s.pushes
      && !Covered(s', HeadId(s)) && HeadId(s) !in PatchesToPush(s')
  {
    PushOfExcludedHead(s, k);
    hide Apply, Enabled, PatchesToPush, Covered, HeadIncluded, Inv, HeadId;
    FourSteps(s, WholePush(k));
  }

  lemma PushOfExcludedHead(s: State, k: nat)
    requires Inv(s) && Enabled(s, Prepare(k, true))
    requires HeadId(s) in s.g && HeadId(s) !in s.hub && HeadId(s) !in PatchesToPush(s)
    ensures !HeadIncluded(s)
    ensures var s1 := Apply(s, Prepare(k, true));
      var s2 := Apply(s1, Deliver(k));
      var s3 := Apply(s2, Record(k));
      var s4 := Apply(s3, ClearCheckpoint(k));
      && Enabled(s1, Deliver(k)) && Enabled(s2, Record(k)) && Enabled(s3, ClearCheckpoint(k))
      && s4.lastPushed == Some(HeadId(s)) && s4.checkpoint.None? && s4.pushes == s.pushes
      && !Covered(s4, HeadId(s)) && HeadId(s) !in PatchesToPush(s4)
  {
    hide IsAncestor, PatchesToPush;
    var h := HeadId(s);
    assert Reference(s).Some? ==> Covered(s, Reference(s).value);
    var s1 := Apply(s, Prepare(k, true));
    var s2 := Apply(s1, Deliver(k));
    var s3 := Apply(s2, Record(k));
    var s4 := Apply(s3, ClearCheckpoint(k));
    assert Enabled(s1, Deliver(k)) && Enabled(s2, Record(k)) && Enabled(s3, ClearCheckpoint(k));
    assert s4.g == s.g && s4.hub == s.hub + PatchesToPush(s);
    assert IsAncestorOrSelf(Declared(s4.g), h, h);
    KnownIsNeverSent(s4, h);
  }

  lemma RunOfFour(s: State, e: seq<Event>)
    requires |e| == 4
    ensures Run(s, e[..0]) == s && Run(s, e[..1]) == Apply(s, e[0])
    ensures Run(s, e[..2]) == Apply(Run(s, e[..1]), e[1]) && Run(s, e[..3]) == Apply(Run(s, e[..2]), e[2])
    ensures Run(s, e) == Apply(Run(s, e[..3]), e[3])
  {
    hide Apply;
    assert e[..1][..0] == e[..0] && e[..2][..1] == e[..1] && e[..3][..2] == e[..2];
  }

  lemma FourSteps(s: State, e: seq<Event>)
    requires |e| == 4 && Enabled(s, e[0]) && Enabled(Apply(s, e[0]), e[1])
    requires Enabled(Apply(Apply(s, e[0]), e[1]), e[2])
    requires Enabled(Apply(Apply(Apply(s, e[0]), e[1]), e[2]), e[3])
    ensures Run(s, e) == Apply(Apply(Apply(Apply(s, e[0]), e[1]), e[2]), e[3])
    ensures forall n :: 0 <= n < |e| ==> Enabled(Run(s, e[..n]), e[n])
  {
    hide *;
    RunOfFour(s, e);
    forall n | 0 <= n < |e|
      ensures Enabled(Run(s, e[..n]), e[n])
    {
      if n < 2 {
        assert n == 0 || n == 1;
      } else {
        assert n == 2 || n == 3;
      }
    }
  }

  /** Such a state: 2 is on `main`, 3 was checked out and is on no branch, 1 was pushed before. */
  function DetachedExample(): State {
    State(map[1 := Node([], [], 0), 2 := Node([1], [1], 1), 3 := Node([1], [1], 1)],
          map["main" := 2], Detached(3), {1}, Some(1), None, map[])
  }

  lemma RootHasNoHistory(g: Graph, r: Id)
    requires r in g && g[r].declared == [] && g[r].parents == []
    ensures KnownSet(g, r) == {r}
    ensures forall y :: IsAncestorOrSelf(Declared(g), y, r) <==> y == r
  {
    forall y
      ensures !IsAncestor(Edges(g), y, r) && !IsAncestor(Declared(g), y, r)
    {
      if IsAncestor(Edges(g), y, r) {
        AncestorsNeedParents(Edges(g), y, r);
      }
      if IsAncestor(Declared(g), y, r) {
        AncestorsNeedParents(Declared(g), y, r);
      }
    }
  }

  lemma DetachedExampleSends()
    ensures PatchesToPush(DetachedExample()) == {2}
  {
    hide IsAncestor;
    var s := DetachedExample();
    var g, known := s.g, KnownSet(s.g, 1);
    RootHasNoHistory(g, 1);
    var par := Unknown(g, known);
    assert par == map[2 := [1], 3 := [1]];
    if FromBranch(s, known, 3) {
      assert IsAncestorOrSelf(par, 3, 2);
      ClosedHoldsAncestors(par, {1, 2}, 2, 3);
    }
    assert IsAncestorOrSelf(par, 2, s.branches["main"]);
    assert FromBranch(s, known, 2);
  }

  lemma DetachedExampleIsSound()
    ensures SoundGraph(DetachedExample().g)
  {
  }

  lemma DetachedExampleSkips()
    ensures var s := DetachedExample();
      && Inv(s) && Enabled(s, Prepare(0, true))
      && HeadId(s) in s.g && HeadId(s) !in s.hub && HeadId(s) !in PatchesToPush(s)
  {
    hide IsAncestorOrSelf, PatchesToPush, SoundGraph;
    var s := DetachedExample();
    DetachedExampleIsSound();
    DetachedExampleSends();
    RootHasNoHistory(s.g, 1);
    assert Covered(s, 1);
    assert 2 in PatchesToPush(s);
  }
}
