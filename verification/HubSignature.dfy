/** The bytes over which a hub checks the signature of a push, and how they differ from the bytes that were signed. */
module HubSignature {
  import opened Bytes
  import opened PushEncoding

  function CheckedPatch(p: PatchProto): Bytes {
    p.id + [0] + p.operationType + [0] + p.author + [0] + p.message + [0] + U64(p.timestamp) + [0]
  }

  function CheckedPatches(ps: seq<PatchProto>): Bytes {
    if ps == [] then [] else CheckedPatches(ps[..|ps| - 1]) + CheckedPatch(ps[|ps| - 1])
  }

  function CheckedBranches(bs: seq<BranchProto>): Bytes {
    if bs == [] then []
    else
      var last := bs[|bs| - 1];
      CheckedBranches(bs[..|bs| - 1]) + (last.name + [0] + last.targetId + [0])
  }

  /** What the hub checks: repository, patches and branches, and nothing behind them. */
  function Checked(req: PushRequest): Bytes {
    req.repoId + [0]
    + U64(|req.patches|) + CheckedPatches(req.patches)
    + U64(|req.branches|) + CheckedBranches(req.branches)
  }

  method CheckedPushBytes(req: PushRequest) returns (buf: Bytes)
    ensures buf == Checked(req)
  {
    hide U64, CheckedPatch;
    buf := req.repoId;
    buf := buf + [0];
    buf := buf + U64(|req.patches|);
    ghost var start := buf;
    for i := 0 to |req.patches|
      invariant buf == start + CheckedPatches(req.patches[..i])
    {
      assert req.patches[..i + 1][..i] == req.patches[..i];
      ghost var before := CheckedPatches(req.patches[..i]);
      buf := AppendChecked(buf, req.patches[i]);
      assert buf == start + (before + CheckedPatch(req.patches[i]));
    }
    assert req.patches[..|req.patches|] == req.patches;
    buf := buf + U64(|req.branches|);
    ghost var middle := buf;
    for i := 0 to |req.branches|
      invariant buf == middle + CheckedBranches(req.branches[..i])
    {
      assert req.branches[..i + 1][..i] == req.branches[..i];
      ghost var before := CheckedBranches(req.branches[..i]);
      var branch := req.branches[i];
      buf := buf + branch.name;
      buf := buf + [0];
      buf := buf + branch.targetId;
      buf := buf + [0];
      assert buf == middle + (before + (branch.name + [0] + branch.targetId + [0]));
    }
    assert req.branches[..|req.branches|] == req.branches;
  }

  method AppendChecked(buf: Bytes, patch: PatchProto) returns (r: Bytes)
    ensures r == buf + CheckedPatch(patch)
  {
    r := buf + patch.id;
    r := r + [0];
    r := r + patch.operationType;
    r := r + [0];
    r := r + patch.author;
    r := r + [0];
    r := r + patch.message;
    r := r + [0];
    r := r + U64(patch.timestamp);
    r := r + [0];
  }

  lemma SamePatch(p: PatchProto)
    ensures CheckedPatch(p) == PatchBytes(p)
  {
    hide U64;
  }

  lemma SameBranch(b: BranchProto)
    ensures b.name + [0] + b.targetId + [0] == BranchBytes(b)
  {
  }

  lemma {:induction false} SamePatches(ps: seq<PatchProto>)
    ensures CheckedPatches(ps) == PatchesBytes(ps)
  {
    hide CheckedPatch, PatchBytes;
    if ps != [] {
      var init, p := ps[..|ps| - 1], ps[|ps| - 1];
      assert ps == init + [p];
      SamePatches(init);
      SamePatch(p);
      PatchesAppend(init, p);
    }
  }

  lemma {:induction false} SameBranches(bs: seq<BranchProto>)
    ensures CheckedBranches(bs) == BranchesBytes(bs)
  {
    hide BranchBytes;
    if bs != [] {
      var init, b := bs[..|bs| - 1], bs[|bs| - 1];
      assert bs == init + [b];
      SameBranches(init);
      SameBranch(b);
      BranchesAppend(init, b);
    }
  }

  /** The bytes signed go on where the bytes checked end: with the branches already known and the force flag. */
  lemma SignedGoesOn(req: PushRequest)
    ensures Canonical(req) == Checked(req)
              + (U64(|req.knownBranches|) + BranchesBytes(req.knownBranches) + [if req.force then 1 else 0])
  {
    SamePatches(req.patches);
    SameBranches(req.branches);
    hide U64, PatchesBytes, BranchesBytes, CheckedPatches, CheckedBranches;
  }

  /** For every request, the bytes a hub checks are never the bytes that were signed, but a beginning of them. */
  lemma CheckedIsNotSigned(req: PushRequest)
    ensures Checked(req) < Canonical(req)
  {
    SignedGoesOn(req);
    hide Checked, Canonical, U64, BranchesBytes;
  }

  lemma SpelledPatch()
    ensures PatchBytes(PatchProto([10], [11], [], [], [], [], [12], [13], 258)) ==
            [10, 0, 11, 0, 12, 0, 13, 0] + [2, 1, 0, 0, 0, 0, 0, 0] + [0]
  {
    SmallU64();
    hide U64;
  }

  lemma OnePatchOneBranch(p: PatchProto, b: BranchProto)
    ensures PatchesBytes([p]) == PatchBytes(p) && BranchesBytes([b]) == BranchBytes(b) && BranchesBytes([]) == []
  {
    assert PatchesBytes([]) == [];
  }

  lemma SmallCanonical(repo: Bytes, p: PatchProto, b: BranchProto)
    ensures Canonical(PushRequest(repo, [p], [b], [], [], true)) ==
            Terminated(repo) + (U64(1) + PatchBytes(p)) + (U64(1) + BranchBytes(b)) + U64(0) + [1]
  {
    OnePatchOneBranch(p, b);
    hide U64, PatchBytes, BranchBytes, PatchesBytes, BranchesBytes, Terminated;
    assert U64(0) + [] == U64(0);
  }

  lemma SpelledBranch()
    ensures BranchBytes(BranchProto([14], [15])) == [14, 0, 15, 0] && Terminated([9]) == [9, 0]
  {
  }

  /** One request written out, byte by byte. */
  lemma SpelledOut()
    ensures var patch := PatchProto([10], [11], [], [], [], [], [12], [13], 258);
      Canonical(PushRequest([9], [patch], [BranchProto([14], [15])], [], [], true)) ==
        [9, 0]
        + ([1, 0, 0, 0, 0, 0, 0, 0] + ([10, 0, 11, 0, 12, 0, 13, 0] + [2, 1, 0, 0, 0, 0, 0, 0] + [0]))
        + ([1, 0, 0, 0, 0, 0, 0, 0] + [14, 0, 15, 0])
        + [0, 0, 0, 0, 0, 0, 0, 0] + [1]
  {
    hide *;
    SmallU64();
    SpelledPatch();
    SpelledBranch();
    SmallCanonical([9], PatchProto([10], [11], [], [], [], [], [12], [13], 258), BranchProto([14], [15]));
  }

  lemma SmallU64()
    ensures U64(0) == [0, 0, 0, 0, 0, 0, 0, 0] && U64(1) == [1, 0, 0, 0, 0, 0, 0, 0]
    ensures U64(258) == [2, 1, 0, 0, 0, 0, 0, 0]
  {
    assert LittleEndian(0, 2) == [0, 0];
    assert LittleEndian(0, 4) == [0, 0] + LittleEndian(0, 2);
    assert LittleEndian(0, 6) == [0, 0] + LittleEndian(0, 4);
    assert LittleEndian(0, 8) == [0, 0] + LittleEndian(0, 6);
    assert LittleEndian(0, 7) == [0] + LittleEndian(0, 6);
    assert LittleEndian(1, 7) == [1] + LittleEndian(0, 6);
  }
}
