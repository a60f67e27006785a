/** The bytes of a push request that its signature covers. */
module PushEncoding {
  import opened Bytes

  datatype PatchProto = PatchProto(
    id: Bytes, operationType: Bytes, touchSet: seq<Bytes>, targetPath: seq<Bytes>, payload: Bytes,
    parentIds: seq<Bytes>, author: Bytes, message: Bytes, timestamp: nat)

  datatype BranchProto = BranchProto(name: Bytes, targetId: Bytes)

  datatype BlobRef = BlobRef(hash: Bytes, data: Bytes)

  datatype PushRequest = PushRequest(
    repoId: Bytes, patches: seq<PatchProto>, branches: seq<BranchProto>, blobs: seq<BlobRef>,
    knownBranches: seq<BranchProto>, force: bool)

  function PatchBytes(p: PatchProto): Bytes {
    Terminated(p.id) + Terminated(p.operationType) + Terminated(p.author) + Terminated(p.message)
    + U64(p.timestamp) + [0]
  }

  function PatchesBytes(ps: seq<PatchProto>): Bytes {
    if ps == [] then [] else PatchBytes(ps[0]) + PatchesBytes(ps[1..])
  }

  function BranchBytes(b: BranchProto): Bytes {
    Terminated(b.name) + Terminated(b.targetId)
  }

  function BranchesBytes(bs: seq<BranchProto>): Bytes {
    if bs == [] then [] else BranchBytes(bs[0]) + BranchesBytes(bs[1..])
  }

  function Canonical(req: PushRequest): Bytes {
    Terminated(req.repoId)
    + (U64(|req.patches|) + PatchesBytes(req.patches))
    + (U64(|req.branches|) + BranchesBytes(req.branches))
    + (U64(|req.knownBranches|) + BranchesBytes(req.knownBranches))
    + [if req.force then 1 else 0]
  }

  lemma {:induction false} PatchesAppend(ps: seq<PatchProto>, p: PatchProto)
    ensures PatchesBytes(ps + [p]) == PatchesBytes(ps) + PatchBytes(p)
  {
    if ps == [] {
      assert [p][1..] == [];
    } else {
      assert (ps + [p])[1..] == ps[1..] + [p];
      PatchesAppend(ps[1..], p);
    }
  }

  lemma {:induction false} BranchesAppend(bs: seq<BranchProto>, b: BranchProto)
    ensures BranchesBytes(bs + [b]) == BranchesBytes(bs) + BranchBytes(b)
  {
    if bs == [] {
      assert [b][1..] == [];
    } else {
      assert (bs + [b])[1..] == bs[1..] + [b];
      BranchesAppend(bs[1..], b);
    }
  }

  method AppendPatch(buf: Bytes, patch: PatchProto) returns (r: Bytes)
    ensures r == buf + PatchBytes(patch)
  {
    r := buf + patch.id;
    r := r + [0];
    r := r + patch.operationType;
    r := r + [0];
    r := r + patch.author;
    r := r + [0];
    r := r + patch.message;
    r := r + [0];
    r := r + U64(patch.timestamp);
    r := r + [0];
  }

  method AppendBranches(buf: Bytes, branches: seq<BranchProto>) returns (r: Bytes)
    ensures r == buf + (U64(|branches|) + BranchesBytes(branches))
  {
    r := buf + U64(|branches|);
    ghost var start := r;
    for i := 0 to |branches|
      invariant r == start + BranchesBytes(branches[..i])
    {
      assert branches[..i + 1] == branches[..i] + [branches[i]];
      BranchesAppend(branches[..i], branches[i]);
      r := r + branches[i].name;
      r := r + [0];
      r := r + branches[i].targetId;
      r := r + [0];
      assert r == start + (BranchesBytes(branches[..i]) + BranchBytes(branches[i]));
    }
    assert branches[..|branches|] == branches;
  }

  method CanonicalPushBytes(req: PushRequest) returns (buf: Bytes)
    ensures buf == Canonical(req)
  {
    hide PatchBytes, U64;
    buf := req.repoId;
    buf := buf + [0];
    buf := buf + U64(|req.patches|);
    ghost var start := buf;
    for i := 0 to |req.patches|
      invariant buf == start + PatchesBytes(req.patches[..i])
    {
      assert req.patches[..i + 1] == req.patches[..i] + [req.patches[i]];
      PatchesAppend(req.patches[..i], req.patches[i]);
      buf := AppendPatch(buf, req.patches[i]);
      assert buf == start + (PatchesBytes(req.patches[..i]) + PatchBytes(req.patches[i]));
    }
    assert req.patches[..|req.patches|] == req.patches;
    buf := AppendBranches(buf, req.branches);
    buf := AppendBranches(buf, req.knownBranches);
    buf := buf + [if req.force then 1 else 0];
  }

  // ---- what equal bytes say ----

  /** The fields of a patch that the bytes cover. */
  datatype PatchCover = PatchCover(id: Bytes, operationType: Bytes, author: Bytes, message: Bytes, timestamp: nat)

  function CoverOf(p: PatchProto): PatchCover {
    PatchCover(p.id, p.operationType, p.author, p.message, p.timestamp)
  }

  function Covers(ps: seq<PatchProto>): seq<PatchCover> {
    seq(|ps|, i requires 0 <= i < |ps| => CoverOf(ps[i]))
  }

  /** Rust strings may hold NUL; these do not. Numbers fit in 64 bits, as their types say. */
  ghost predicate CleanPatch(p: PatchProto) {
    NoNul(p.id) && NoNul(p.operationType) && NoNul(p.author) && NoNul(p.message) && p.timestamp < U64_LIMIT
  }

  ghost predicate CleanBranch(b: BranchProto) {
    NoNul(b.name) && NoNul(b.targetId)
  }

  ghost predicate CleanBranches(bs: seq<BranchProto>) {
    |bs| < U64_LIMIT && forall i :: 0 <= i < |bs| ==> CleanBranch(bs[i])
  }

  ghost predicate CleanPatches(ps: seq<PatchProto>) {
    |ps| < U64_LIMIT && forall i :: 0 <= i < |ps| ==> CleanPatch(ps[i])
  }

  ghost predicate Clean(req: PushRequest) {
    NoNul(req.repoId) && CleanPatches(req.patches) && CleanBranches(req.branches) && CleanBranches(req.knownBranches)
  }

  lemma Assoc(a: Bytes, b: Bytes, c: Bytes)
    ensures a + b + c == a + (b + c)
  {
  }

  lemma PatchSplits(p: PatchProto, x: Bytes, q: PatchProto, y: Bytes)
    requires CleanPatch(p) && CleanPatch(q) && PatchBytes(p) + x == PatchBytes(q) + y
    ensures CoverOf(p) == CoverOf(q) && x == y
  {
    hide U64, Terminated, NoNul;
    var p5, q5 := U64(p.timestamp) + ([0] + x), U64(q.timestamp) + ([0] + y);
    var p4, q4 := Terminated(p.message) + p5, Terminated(q.message) + q5;
    var p3, q3 := Terminated(p.author) + p4, Terminated(q.author) + q4;
    var p2, q2 := Terminated(p.operationType) + p3, Terminated(q.operationType) + q3;
    assert PatchBytes(p) + x == Terminated(p.id) + p2;
    assert PatchBytes(q) + y == Terminated(q.id) + q2;
    SplitAtNul(p.id, p2, q.id, q2);
    SplitAtNul(p.operationType, p3, q.operationType, q3);
    SplitAtNul(p.author, p4, q.author, q4);
    SplitAtNul(p.message, p5, q.message, q5);
    U64Splits(p.timestamp, [0] + x, q.timestamp, [0] + y);
    SplitAtLength([0], x, [0], y);
  }

  lemma U64Splits(a: nat, x: Bytes, b: nat, y: Bytes)
    requires a < U64_LIMIT && b < U64_LIMIT && U64(a) + x == U64(b) + y
    ensures a == b && x == y
  {
    SplitAtLength(U64(a), x, U64(b), y);
    U64Injective(a, b);
  }

  lemma {:induction false} PatchListSplits(ps: seq<PatchProto>, x: Bytes, qs: seq<PatchProto>, y: Bytes)
    requires |ps| == |qs| && (forall i :: 0 <= i < |ps| ==> CleanPatch(ps[i]) && CleanPatch(qs[i]))
    requires PatchesBytes(ps) + x == PatchesBytes(qs) + y
    ensures Covers(ps) == Covers(qs) && x == y
  {
    hide PatchBytes, CleanPatch, CoverOf;
    if ps == [] {
      assert PatchesBytes(ps) + x == x && PatchesBytes(qs) + y == y;
    } else {
      var px, qy := PatchesBytes(ps[1..]) + x, PatchesBytes(qs[1..]) + y;
      Assoc(PatchBytes(ps[0]), PatchesBytes(ps[1..]), x);
      Assoc(PatchBytes(qs[0]), PatchesBytes(qs[1..]), y);
      PatchSplits(ps[0], px, qs[0], qy);
      PatchListSplits(ps[1..], x, qs[1..], y);
      assert Covers(ps) == [CoverOf(ps[0])] + Covers(ps[1..]);
      assert Covers(qs) == [CoverOf(qs[0])] + Covers(qs[1..]);
    }
  }

  lemma {:induction false} BranchListSplits(bs: seq<BranchProto>, x: Bytes, cs: seq<BranchProto>, y: Bytes)
    requires |bs| == |cs| && (forall i :: 0 <= i < |bs| ==> CleanBranch(bs[i]) && CleanBranch(cs[i]))
    requires BranchesBytes(bs) + x == BranchesBytes(cs) + y
    ensures bs == cs && x == y
  {
    hide Terminated, NoNul;
    if bs == [] {
      assert BranchesBytes(bs) + x == x && BranchesBytes(cs) + y == y;
    } else {
      var b, c := bs[0], cs[0];
      var bx, cy := BranchesBytes(bs[1..]) + x, BranchesBytes(cs[1..]) + y;
      assert BranchesBytes(bs) + x == Terminated(b.name) + (Terminated(b.targetId) + bx);
      assert BranchesBytes(cs) + y == Terminated(c.name) + (Terminated(c.targetId) + cy);
      SplitAtNul(b.name, Terminated(b.targetId) + bx, c.name, Terminated(c.targetId) + cy);
      SplitAtNul(b.targetId, bx, c.targetId, cy);
      BranchListSplits(bs[1..], x, cs[1..], y);
      assert bs == [b] + bs[1..] && cs == [c] + cs[1..];
    }
  }

  lemma CountedPatchesSplit(ps: seq<PatchProto>, x: Bytes, qs: seq<PatchProto>, y: Bytes)
    requires CleanPatches(ps) && CleanPatches(qs)
    requires U64(|ps|) + PatchesBytes(ps) + x == U64(|qs|) + PatchesBytes(qs) + y
    ensures Covers(ps) == Covers(qs) && x == y
  {
    hide U64, PatchesBytes, CleanPatch, Covers;
    Assoc(U64(|ps|), PatchesBytes(ps), x);
    Assoc(U64(|qs|), PatchesBytes(qs), y);
    U64Splits(|ps|, PatchesBytes(ps) + x, |qs|, PatchesBytes(qs) + y);
    PatchListSplits(ps, x, qs, y);
  }

  lemma CountedBranchesSplit(bs: seq<BranchProto>, x: Bytes, cs: seq<BranchProto>, y: Bytes)
    requires CleanBranches(bs) && CleanBranches(cs)
    requires U64(|bs|) + BranchesBytes(bs) + x == U64(|cs|) + BranchesBytes(cs) + y
    ensures bs == cs && x == y
  {
    hide U64, BranchesBytes, CleanBranch;
    Assoc(U64(|bs|), BranchesBytes(bs), x);
    Assoc(U64(|cs|), BranchesBytes(cs), y);
    U64Splits(|bs|, BranchesBytes(bs) + x, |cs|, BranchesBytes(cs) + y);
    BranchListSplits(bs, x, cs, y);
  }

  /**
   * Equal bytes mean equal requests in every covered field: repository, the covered fields of each patch in
   * order, both branch lists, and the force flag; and nothing else of the request shows in the bytes.
   */
  lemma CanonicalDecides(a: PushRequest, b: PushRequest)
    requires Clean(a) && Clean(b)
    ensures Canonical(a) == Canonical(b) <==>
      && a.repoId == b.repoId && Covers(a.patches) == Covers(b.patches)
      && a.branches == b.branches && a.knownBranches == b.knownBranches && a.force == b.force
  {
    hide Terminated, U64, PatchesBytes, BranchesBytes, Covers, CleanPatches, CleanBranches, NoNul;
    if Canonical(a) == Canonical(b) {
      var fa, fb := [if a.force then 1 else 0], [if b.force then 1 else 0];
      var ka := U64(|a.knownBranches|) + BranchesBytes(a.knownBranches);
      var kb := U64(|b.knownBranches|) + BranchesBytes(b.knownBranches);
      var ba, bb := U64(|a.branches|) + BranchesBytes(a.branches), U64(|b.branches|) + BranchesBytes(b.branches);
      var pa, pb := U64(|a.patches|) + PatchesBytes(a.patches), U64(|b.patches|) + PatchesBytes(b.patches);
      assert Canonical(a) == Terminated(a.repoId) + (pa + (ba + (ka + fa)));
      assert Canonical(b) == Terminated(b.repoId) + (pb + (bb + (kb + fb)));
      SplitAtNul(a.repoId, pa + (ba + (ka + fa)), b.repoId, pb + (bb + (kb + fb)));
      CountedPatchesSplit(a.patches, ba + (ka + fa), b.patches, bb + (kb + fb));
      CountedBranchesSplit(a.branches, ka + fa, b.branches, kb + fb);
      CountedBranchesSplit(a.knownBranches, fa, b.knownBranches, fb);
      assert fa[0] == fb[0];
    } else {
      CoversDecidePatches(a.patches, b.patches);
    }
  }

  lemma {:induction false} CoversDecidePatches(ps: seq<PatchProto>, qs: seq<PatchProto>)
    ensures Covers(ps) == Covers(qs) ==> |ps| == |qs| && PatchesBytes(ps) == PatchesBytes(qs)
  {
    hide U64, Terminated;
    if Covers(ps) == Covers(qs) {
      assert |Covers(ps)| == |ps| && |Covers(qs)| == |qs|;
      if ps != [] {
        assert Covers(ps)[0] == CoverOf(ps[0]) && Covers(qs)[0] == CoverOf(qs[0]);
        assert Covers(ps[1..]) == Covers(ps)[1..] && Covers(qs[1..]) == Covers(qs)[1..];
        CoversDecidePatches(ps[1..], qs[1..]);
      }
    }
  }

  /** A separator that stands inside one field can be read as the one before or behind the next field. */
  lemma NulShifts(a: Bytes, b: Bytes, c: Bytes, p: PatchProto)
    ensures PatchBytes(p.(id := a + [0] + b, operationType := c)) ==
            PatchBytes(p.(id := a, operationType := b + [0] + c))
    ensures PatchBytes(p.(operationType := a + [0] + b, author := c)) ==
            PatchBytes(p.(operationType := a, author := b + [0] + c))
    ensures PatchBytes(p.(author := a + [0] + b, message := c)) == PatchBytes(p.(author := a, message := b + [0] + c))
  {
    hide U64;
    assert Terminated(a + [0] + b) + Terminated(c) == Terminated(a) + Terminated(b + [0] + c);
    TwoFields([], a + [0] + b, c, a, b + [0] + c,
              Terminated(p.author) + Terminated(p.message) + U64(p.timestamp) + [0]);
    TwoFields(Terminated(p.id), a + [0] + b, c, a, b + [0] + c, Terminated(p.message) + U64(p.timestamp) + [0]);
    TwoFields(Terminated(p.id) + Terminated(p.operationType), a + [0] + b, c, a, b + [0] + c, U64(p.timestamp) + [0]);
  }

  lemma TwoFields(head: Bytes, f: Bytes, g: Bytes, f': Bytes, g': Bytes, tail: Bytes)
    requires Terminated(f) + Terminated(g) == Terminated(f') + Terminated(g')
    ensures head + Terminated(f) + Terminated(g) + tail == head + Terminated(f') + Terminated(g') + tail
  {
    hide Terminated;
    Assoc(head, Terminated(f), Terminated(g));
    Assoc(head, Terminated(f'), Terminated(g'));
  }

  function WithPatch(req: PushRequest, before: seq<PatchProto>, p: PatchProto, after: seq<PatchProto>): PushRequest {
    req.(patches := before + [p] + after)
  }

  lemma {:induction false} PatchesConcat(ps: seq<PatchProto>, qs: seq<PatchProto>)
    ensures PatchesBytes(ps + qs) == PatchesBytes(ps) + PatchesBytes(qs)
  {
    hide PatchBytes;
    if ps == [] {
      assert ps + qs == qs;
    } else {
      assert (ps + qs)[1..] == ps[1..] + qs;
      PatchesConcat(ps[1..], qs);
    }
  }

  lemma SamePatchBytes(req: PushRequest, before: seq<PatchProto>, p: PatchProto, q: PatchProto, after: seq<PatchProto>)
    requires PatchBytes(p) == PatchBytes(q)
    ensures Canonical(WithPatch(req, before, p, after)) == Canonical(WithPatch(req, before, q, after))
  {
    hide PatchBytes, BranchesBytes, Terminated, U64;
    PatchesAppend(before, p);
    PatchesAppend(before, q);
    PatchesConcat(before + [p], after);
    PatchesConcat(before + [q], after);
  }

  /** With a NUL inside a field, two different requests have the same bytes, whatever else they hold. */
  lemma NulBreaksDecoding(req: PushRequest, before: seq<PatchProto>, after: seq<PatchProto>,
                          a: Bytes, b: Bytes, c: Bytes, p: PatchProto)
    ensures var p1, p2 := p.(id := a + [0] + b, operationType := c), p.(id := a, operationType := b + [0] + c);
      && Canonical(WithPatch(req, before, p1, after)) == Canonical(WithPatch(req, before, p2, after))
      && WithPatch(req, before, p1, after) != WithPatch(req, before, p2, after)
    ensures var p1, p2 := p.(operationType := a + [0] + b, author := c), p.(operationType := a, author := b + [0] + c);
      && Canonical(WithPatch(req, before, p1, after)) == Canonical(WithPatch(req, before, p2, after))
      && WithPatch(req, before, p1, after) != WithPatch(req, before, p2, after)
    ensures var p1, p2 := p.(author := a + [0] + b, message := c), p.(author := a, message := b + [0] + c);
      && Canonical(WithPatch(req, before, p1, after)) == Canonical(WithPatch(req, before, p2, after))
      && WithPatch(req, before, p1, after) != WithPatch(req, before, p2, after)
  {
    hide PatchBytes, Canonical, WithPatch;
    assert |a| < |a + [0] + b|;
    NulShifts(a, b, c, p);
    OtherRequest(req, before, p.(id := a + [0] + b, operationType := c),
                 p.(id := a, operationType := b + [0] + c), after);
    OtherRequest(req, before, p.(operationType := a + [0] + b, author := c),
                 p.(operationType := a, author := b + [0] + c), after);
    OtherRequest(req, before, p.(author := a + [0] + b, message := c), p.(author := a, message := b + [0] + c), after);
  }

  lemma OtherRequest(req: PushRequest, before: seq<PatchProto>, p: PatchProto, q: PatchProto, after: seq<PatchProto>)
    requires p != q && PatchBytes(p) == PatchBytes(q)
    ensures Canonical(WithPatch(req, before, p, after)) == Canonical(WithPatch(req, before, q, after))
    ensures WithPatch(req, before, p, after) != WithPatch(req, before, q, after)
  {
    hide Canonical;
    SamePatchBytes(req, before, p, q, after);
    assert (before + [p] + after)[|before|] == p && (before + [q] + after)[|before|] == q;
  }

  function WithBranch(req: PushRequest, before: seq<BranchProto>, b: BranchProto, after: seq<BranchProto>)
    : PushRequest
  {
    req.(branches := before + [b] + after)
  }

  function WithKnown(req: PushRequest, before: seq<BranchProto>, b: BranchProto, after: seq<BranchProto>): PushRequest {
    req.(knownBranches := before + [b] + after)
  }

  lemma {:induction false} BranchesConcat(bs: seq<BranchProto>, cs: seq<BranchProto>)
    ensures BranchesBytes(bs + cs) == BranchesBytes(bs) + BranchesBytes(cs)
  {
    hide BranchBytes;
    if bs == [] {
      assert bs + cs == cs;
    } else {
      assert (bs + cs)[1..] == bs[1..] + cs;
      BranchesConcat(bs[1..], cs);
    }
  }

  lemma SameBranchBytes(before: seq<BranchProto>, b: BranchProto, c: BranchProto, after: seq<BranchProto>)
    requires BranchBytes(b) == BranchBytes(c)
    ensures BranchesBytes(before + [b] + after) == BranchesBytes(before + [c] + after)
  {
    hide BranchBytes;
    BranchesAppend(before, b);
    BranchesAppend(before, c);
    BranchesConcat(before + [b], after);
    BranchesConcat(before + [c], after);
  }

  /** The same for a NUL in the name of a branch, in either list of branches. */
  lemma NulInBranchName(
      req: PushRequest, before: seq<BranchProto>, after: seq<BranchProto>, a: Bytes, b: Bytes, c: Bytes)
    ensures var b1, b2 := BranchProto(a + [0] + b, c), BranchProto(a, b + [0] + c);
      && Canonical(WithBranch(req, before, b1, after)) == Canonical(WithBranch(req, before, b2, after))
      && WithBranch(req, before, b1, after) != WithBranch(req, before, b2, after)
    ensures var b1, b2 := BranchProto(a + [0] + b, c), BranchProto(a, b + [0] + c);
      && Canonical(WithKnown(req, before, b1, after)) == Canonical(WithKnown(req, before, b2, after))
      && WithKnown(req, before, b1, after) != WithKnown(req, before, b2, after)
  {
    var b1, b2 := BranchProto(a + [0] + b, c), BranchProto(a, b + [0] + c);
    assert Terminated(a + [0] + b) + Terminated(c) == Terminated(a) + Terminated(b + [0] + c);
    assert |a| < |a + [0] + b|;
    SameBranchBytes(before, b1, b2, after);
    hide PatchesBytes, BranchesBytes, Terminated, U64;
    assert (before + [b1] + after)[|before|] == b1 && (before + [b2] + after)[|before|] == b2;
  }
}
