/** The exact line diff: a table of longest common subsequences, walked back and coalesced. */
module LcsDiff {
  import opened Numbers
  import opened LineChanges

  // ---- the table ----

  /** Length of the longest common subsequence of the first `i` lines of one text and the first `j` of the other. */
  function Lcs(base: seq<Line>, text: seq<Line>, i: nat, j: nat): nat
    requires i <= |base| && j <= |text|
    decreases i + j
  {
    if i == 0 || j == 0 then 0
    else if base[i - 1] == text[j - 1] then Lcs(base, text, i - 1, j - 1) + 1
    else Max(Lcs(base, text, i - 1, j), Lcs(base, text, i, j - 1))
  }

  lemma LcsStep(base: seq<Line>, text: seq<Line>, i: nat, j: nat)
    requires 0 < i <= |base| && 0 < j <= |text|
    ensures Lcs(base, text, i, j) ==
            if base[i - 1] == text[j - 1] then Lcs(base, text, i - 1, j - 1) + 1
            else Max(Lcs(base, text, i - 1, j), Lcs(base, text, i, j - 1))
  {
  }

  lemma LcsEdges(base: seq<Line>, text: seq<Line>)
    ensures forall i: nat :: i <= |base| ==> Lcs(base, text, i, 0) == 0
    ensures forall j: nat :: j <= |text| ==> Lcs(base, text, 0, j) == 0
  {
  }

  method BuildTable(base: seq<Line>, text: seq<Line>) returns (dp: array2<nat>)
    ensures fresh(dp) && dp.Length0 == |base| + 1 && dp.Length1 == |text| + 1
    ensures forall a: nat, b: nat :: a <= |base| && b <= |text| ==> dp[a, b] == Lcs(base, text, a, b)
  {
    LcsEdges(base, text);
    hide Lcs;
    dp := new nat[|base| + 1, |text| + 1]((a, b) => 0);
    for i := 1 to |base| + 1
      invariant forall a: nat, b: nat :: a < i && b <= |text| ==> dp[a, b] == Lcs(base, text, a, b)
      invariant forall a: nat :: i <= a <= |base| ==> dp[a, 0] == 0
    {
      for j := 1 to |text| + 1
        invariant forall a: nat, b: nat :: a < i && b <= |text| ==> dp[a, b] == Lcs(base, text, a, b)
        invariant forall b: nat :: b < j ==> dp[i, b] == Lcs(base, text, i, b)
        invariant forall a: nat :: i < a <= |base| ==> dp[a, 0] == 0
      {
        LcsStep(base, text, i, j);
        if base[i - 1] == text[j - 1] {
          dp[i, j] := dp[i - 1, j - 1] + 1;
        } else {
          dp[i, j] := Max(dp[i - 1, j], dp[i, j - 1]);
        }
      }
    }
  }

  // ---- walking back ----

  predicate Matches(base: seq<Line>, text: seq<Line>, i: nat, j: nat)
    requires i <= |base| && j <= |text|
  {
    i > 0 && j > 0 && base[i - 1] == text[j - 1]
  }

  predicate PrefersInsert(base: seq<Line>, text: seq<Line>, i: nat, j: nat)
    requires i <= |base| && j <= |text|
  {
    j > 0 && (i == 0 || Lcs(base, text, i, j - 1) >= Lcs(base, text, i - 1, j))
  }

  /** The one-line changes the walk finds for the first `i` and `j` lines. */
  function Walk(base: seq<Line>, text: seq<Line>, i: nat, j: nat): seq<Change>
    requires i <= |base| && j <= |text|
    decreases i + j
  {
    if Matches(base, text, i, j) then Walk(base, text, i - 1, j - 1) + [Unchanged([base[i - 1]])]
    else if PrefersInsert(base, text, i, j) then Walk(base, text, i, j - 1) + [Inserted([text[j - 1]])]
    else if i > 0 then Walk(base, text, i - 1, j) + [Deleted([base[i - 1]])]
    else []
  }

  function Backwards(cs: seq<Change>): seq<Change> {
    if cs == [] then [] else Backwards(cs[1..]) + [cs[0]]
  }

  lemma {:induction false} BackwardsAppend(cs: seq<Change>, c: Change)
    ensures Backwards(cs + [c]) == [c] + Backwards(cs)
    decreases |cs|
  {
    if cs == [] {
      assert cs + [c] == [c];
    } else {
      assert (cs + [c])[1..] == cs[1..] + [c];
      BackwardsAppend(cs[1..], c);
    }
  }

  /** One step of the walk. */
  lemma WalkStep(base: seq<Line>, text: seq<Line>, i: nat, j: nat)
    requires i <= |base| && j <= |text| && (i > 0 || j > 0)
    ensures Matches(base, text, i, j) ==>
              Walk(base, text, i, j) == Walk(base, text, i - 1, j - 1) + [Unchanged([base[i - 1]])]
    ensures !Matches(base, text, i, j) && PrefersInsert(base, text, i, j) ==>
              Walk(base, text, i, j) == Walk(base, text, i, j - 1) + [Inserted([text[j - 1]])]
    ensures !Matches(base, text, i, j) && !PrefersInsert(base, text, i, j) ==>
              i > 0 && Walk(base, text, i, j) == Walk(base, text, i - 1, j) + [Deleted([base[i - 1]])]
  {
    hide Lcs;
  }

  lemma FoundOneMore(rest: seq<Change>, c: Change, found: seq<Change>)
    ensures (rest + [c]) + Backwards(found) == rest + Backwards(found + [c])
  {
    BackwardsAppend(found, c);
    hide Backwards;
  }

  /** The walk runs from the ends of both texts, then reverses what it found. */
  method WalkBack(base: seq<Line>, text: seq<Line>) returns (changes: seq<Change>)
    ensures changes == Walk(base, text, |base|, |text|)
  {
    var dp := BuildTable(base, text);
    var found := [];
    var i, j := |base|, |text|;
    assert Backwards([]) == [];
    while i > 0 || j > 0
      invariant 0 <= i <= |base| && 0 <= j <= |text|
      invariant Walk(base, text, i, j) + Backwards(found) == Walk(base, text, |base|, |text|)
      decreases i + j
      modifies {}
    {
      hide Lcs, Backwards, Walk;
      WalkStep(base, text, i, j);
      if i > 0 && j > 0 && base[i - 1] == text[j - 1] {
        FoundOneMore(Walk(base, text, i - 1, j - 1), Unchanged([base[i - 1]]), found);
        found := found + [Unchanged([base[i - 1]])];
        i := i - 1;
        j := j - 1;
      } else if j > 0 && (i == 0 || dp[i, j - 1] >= dp[i - 1, j]) {
        assert PrefersInsert(base, text, i, j);
        FoundOneMore(Walk(base, text, i, j - 1), Inserted([text[j - 1]]), found);
        found := found + [Inserted([text[j - 1]])];
        j := j - 1;
      } else {
        assert !PrefersInsert(base, text, i, j);
        FoundOneMore(Walk(base, text, i - 1, j), Deleted([base[i - 1]]), found);
        found := found + [Deleted([base[i - 1]])];
        i := i - 1;
      }
    }
    changes := Backwards(found);
  }

  // ---- coalescing ----

  predicate SameKind(c: Change, d: Change) {
    (c.Unchanged? && d.Unchanged?) || (c.Deleted? && d.Deleted?) || (c.Inserted? && d.Inserted?)
  }

  /** One more change at the end, joined with the last one if they are of a kind. */
  function Joined(cs: seq<Change>, c: Change): seq<Change> {
    if cs != [] && SameKind(cs[|cs| - 1], c)
    then cs[..|cs| - 1] + [cs[|cs| - 1].(lines := cs[|cs| - 1].lines + c.lines)]
    else cs + [c]
  }

  function Coalesced(cs: seq<Change>): seq<Change>
    decreases |cs|
  {
    if cs == [] then [] else Joined(Coalesced(cs[..|cs| - 1]), cs[|cs| - 1])
  }

  method TryExtendLast(changes: seq<Change>, c: Change) returns (r: seq<Change>, extended: bool)
    ensures extended ==> r == Joined(changes, c)
    ensures !extended ==> r == changes && Joined(changes, c) == changes + [c]
  {
    r := changes;
    if changes == [] || !SameKind(changes[|changes| - 1], c) {
      return r, false;
    }
    var last := changes[|changes| - 1];
    r := changes[|changes| - 1 := last.(lines := last.lines + c.lines)];
    extended := true;
  }

  method CoalesceChanges(changes: seq<Change>) returns (result: seq<Change>)
    ensures result == Coalesced(changes)
  {
    result := [];
    for i := 0 to |changes|
      invariant result == Coalesced(changes[..i])
    {
      assert changes[..i + 1][..i] == changes[..i];
      var extended;
      result, extended := TryExtendLast(result, changes[i]);
      if !extended {
        result := result + [changes[i]];
      }
    }
    assert changes[..|changes|] == changes;
  }

  /** Lines that stay. */
  function Kept(cs: seq<Change>): nat
    decreases |cs|
  {
    if cs == [] then 0
    else Kept(cs[..|cs| - 1]) + if cs[|cs| - 1].Unchanged? then |cs[|cs| - 1].lines| else 0
  }

  lemma Snoc(front: seq<Change>, last: Change)
    ensures OldText(front + [last]) == OldText(front) + (if last.Inserted? then [] else last.lines)
    ensures NewText(front + [last]) == NewText(front) + (if last.Deleted? then [] else last.lines)
    ensures Kept(front + [last]) == Kept(front) + (if last.Unchanged? then |last.lines| else 0)
  {
    assert [last][1..] == [] && (front + [last])[..|front|] == front;
    TextsAppend(front, [last]);
  }

  lemma JoinedMeansAppended(cs: seq<Change>, c: Change)
    ensures OldText(Joined(cs, c)) == OldText(cs) + (if c.Inserted? then [] else c.lines)
    ensures NewText(Joined(cs, c)) == NewText(cs) + (if c.Deleted? then [] else c.lines)
    ensures Kept(Joined(cs, c)) == Kept(cs) + (if c.Unchanged? then |c.lines| else 0)
  {
    hide OldText, NewText, Kept;
    if cs != [] && SameKind(cs[|cs| - 1], c) {
      var front, last := cs[..|cs| - 1], cs[|cs| - 1];
      assert cs == front + [last];
      Snoc(front, last);
      Snoc(front, last.(lines := last.lines + c.lines));
    } else {
      Snoc(cs, c);
    }
  }

  lemma {:induction false} CoalescingKeepsTexts(cs: seq<Change>)
    ensures OldText(Coalesced(cs)) == OldText(cs) && NewText(Coalesced(cs)) == NewText(cs)
    ensures Kept(Coalesced(cs)) == Kept(cs)
    decreases |cs|
  {
    if cs != [] {
      var front, last := cs[..|cs| - 1], cs[|cs| - 1];
      assert cs == front + [last] && Coalesced(cs) == Joined(Coalesced(front), last);
      hide Coalesced, Joined, OldText, NewText, Kept;
      CoalescingKeepsTexts(front);
      Snoc(front, last);
      JoinedMeansAppended(Coalesced(front), last);
    }
  }

  // ---- the diff relates the two texts and keeps as much as can be kept ----

  /** A change list between the first `i` lines of one text and the first `j` of the other. */
  predicate Relates(cs: seq<Change>, base: seq<Line>, text: seq<Line>, i: nat, j: nat)
    requires i <= |base| && j <= |text|
  {
    OldText(cs) == base[..i] && NewText(cs) == text[..j]
  }

  lemma OneMoreLine(cs: seq<Change>, base: seq<Line>, text: seq<Line>, i: nat, j: nat)
    requires i <= |base| && j <= |text| && Relates(cs, base, text, i, j)
    ensures i < |base| ==> Relates(cs + [Deleted([base[i]])], base, text, i + 1, j)
    ensures j < |text| ==> Relates(cs + [Inserted([text[j]])], base, text, i, j + 1)
    ensures i < |base| && j < |text| && base[i] == text[j] ==>
              Relates(cs + [Unchanged([base[i]])], base, text, i + 1, j + 1)
  {
    hide OldText, NewText, Kept;
    if i < |base| {
      assert base[..i + 1] == base[..i] + [base[i]];
      Snoc(cs, Deleted([base[i]]));
      Snoc(cs, Unchanged([base[i]]));
    }
    if j < |text| {
      assert text[..j + 1] == text[..j] + [text[j]];
      Snoc(cs, Inserted([text[j]]));
    }
  }

  lemma {:induction false} WalkRelates(base: seq<Line>, text: seq<Line>, i: nat, j: nat)
    requires i <= |base| && j <= |text|
    ensures Relates(Walk(base, text, i, j), base, text, i, j)
    ensures Kept(Walk(base, text, i, j)) == Lcs(base, text, i, j)
    decreases i + j
  {
    if i > 0 || j > 0 {
      WalkStep(base, text, i, j);
      WalkKeeps(base, text, i, j);
      hide OldText, NewText, Kept, Walk, Lcs, Relates;
      if Matches(base, text, i, j) {
        WalkRelates(base, text, i - 1, j - 1);
        OneMoreLine(Walk(base, text, i - 1, j - 1), base, text, i - 1, j - 1);
        Snoc(Walk(base, text, i - 1, j - 1), Unchanged([base[i - 1]]));
      } else if PrefersInsert(base, text, i, j) {
        WalkRelates(base, text, i, j - 1);
        OneMoreLine(Walk(base, text, i, j - 1), base, text, i, j - 1);
        Snoc(Walk(base, text, i, j - 1), Inserted([text[j - 1]]));
      } else {
        WalkRelates(base, text, i - 1, j);
        OneMoreLine(Walk(base, text, i - 1, j), base, text, i - 1, j);
        Snoc(Walk(base, text, i - 1, j), Deleted([base[i - 1]]));
      }
    }
  }

  /** The step taken keeps what the table promises. */
  lemma WalkKeeps(base: seq<Line>, text: seq<Line>, i: nat, j: nat)
    requires i <= |base| && j <= |text| && (i > 0 || j > 0)
    ensures Lcs(base, text, i, j) ==
            if Matches(base, text, i, j) then Lcs(base, text, i - 1, j - 1) + 1
            else if PrefersInsert(base, text, i, j) then Lcs(base, text, i, j - 1)
            else Lcs(base, text, i - 1, j)
  {
  }

  lemma {:induction false} LcsGrows(base: seq<Line>, text: seq<Line>, i: nat, j: nat)
    requires i <= |base| && j <= |text|
    ensures i > 0 ==> Lcs(base, text, i - 1, j) <= Lcs(base, text, i, j) <= Lcs(base, text, i - 1, j) + 1
    ensures j > 0 ==> Lcs(base, text, i, j - 1) <= Lcs(base, text, i, j) <= Lcs(base, text, i, j - 1) + 1
    decreases i + j
  {
    if i > 0 && j > 0 {
      LcsGrows(base, text, i - 1, j);
      LcsGrows(base, text, i, j - 1);
      LcsGrows(base, text, i - 1, j - 1);
    }
  }

  /** Without its last change, a list relates shorter prefixes; the lines cut off are those of the change. */
  lemma WithoutLast(front: seq<Change>, last: Change, base: seq<Line>, text: seq<Line>, i: nat, j: nat)
    returns (a: nat, b: nat)
    requires i <= |base| && j <= |text| && Relates(front + [last], base, text, i, j)
    ensures a <= i && b <= j && Relates(front, base, text, a, b)
    ensures last.Unchanged? ==> i - a == |last.lines| == j - b && base[a..i] == last.lines == text[b..j]
  {
    hide Kept;
    Snoc(front, last);
    hide OldText, NewText;
    a := |OldText(front)|;
    b := |NewText(front)|;
    assert OldText(front) == base[..i][..a] && NewText(front) == text[..j][..b];
    assert base[..i][a..] == base[a..i] && text[..j][b..] == text[b..j];
  }

  /** No change list between the first `i` and `j` lines keeps more lines than the table says. */
  lemma {:induction false} KeptAtMost(cs: seq<Change>, base: seq<Line>, text: seq<Line>, i: nat, j: nat)
    requires i <= |base| && j <= |text| && Relates(cs, base, text, i, j)
    ensures Kept(cs) <= Lcs(base, text, i, j)
    decreases |cs|
  {
    if cs != [] {
      hide OldText, NewText, Lcs, Relates;
      var front, last := cs[..|cs| - 1], cs[|cs| - 1];
      assert cs == front + [last];
      var a, b := WithoutLast(front, last, base, text, i, j);
      KeptAtMost(front, base, text, a, b);
      if last.Unchanged? {
        CommonTail(base, text, a, b, |last.lines|);
      } else {
        LcsMonotone(base, text, a, b, i, j);
      }
    }
  }

  lemma {:induction false} CommonTail(base: seq<Line>, text: seq<Line>, i: nat, j: nat, n: nat)
    requires i + n <= |base| && j + n <= |text| && base[i..i + n] == text[j..j + n]
    ensures Lcs(base, text, i + n, j + n) == Lcs(base, text, i, j) + n
    decreases n
  {
    if n > 0 {
      assert base[i..i + n][..n - 1] == base[i..i + n - 1] && text[j..j + n][..n - 1] == text[j..j + n - 1];
      assert base[i + n - 1] == base[i..i + n][n - 1] == text[j..j + n][n - 1] == text[j + n - 1];
      CommonTail(base, text, i, j, n - 1);
    }
  }

  lemma {:induction false} LcsMonotone(base: seq<Line>, text: seq<Line>, a: nat, b: nat, i: nat, j: nat)
    requires a <= i <= |base| && b <= j <= |text|
    ensures Lcs(base, text, a, b) <= Lcs(base, text, i, j)
    decreases i + j
  {
    LcsGrows(base, text, i, j);
    if a < i {
      LcsMonotone(base, text, a, b, i - 1, j);
    } else if b < j {
      LcsMonotone(base, text, a, b, i, j - 1);
    }
  }

  // ---- the shape of the diff ----

  /** Changes of one kind are joined, and no insertion stands right before a deletion. */
  predicate WellShaped(cs: seq<Change>) {
    forall i :: 0 <= i < |cs| - 1 ==> MayFollow(cs[i], cs[i + 1])
  }

  predicate MayFollow(c: Change, d: Change) {
    !SameKind(c, d) && !InsertsBeforeDelete(c, d)
  }

  predicate InsertsBeforeDelete(c: Change, d: Change) {
    c.Inserted? && d.Deleted?
  }

  predicate NoInsertBeforeDelete(cs: seq<Change>) {
    forall i :: 0 <= i < |cs| - 1 ==> !InsertsBeforeDelete(cs[i], cs[i + 1])
  }

  /** A deletion is chosen only where no insertion would be chosen just before it. */
  lemma DeleteAfterNoInsert(base: seq<Line>, text: seq<Line>, i: nat, j: nat)
    requires 0 < i <= |base| && j <= |text|
    requires !Matches(base, text, i, j) && !PrefersInsert(base, text, i, j)
    ensures Matches(base, text, i - 1, j) || !PrefersInsert(base, text, i - 1, j)
  {
    if j > 0 && i > 1 {
      LcsGrows(base, text, i, j - 1);
    }
  }

  lemma ShapeOfOneMore(cs: seq<Change>, c: Change)
    requires NoInsertBeforeDelete(cs) && (cs != [] ==> !InsertsBeforeDelete(cs[|cs| - 1], c))
    ensures NoInsertBeforeDelete(cs + [c])
  {
    hide InsertsBeforeDelete;
    var all := cs + [c];
    forall i | 0 <= i < |all| - 1
      ensures !InsertsBeforeDelete(all[i], all[i + 1])
    {
      assert i + 1 < |cs| ==> !InsertsBeforeDelete(cs[i], cs[i + 1]);
    }
  }

  lemma {:induction false} WalkShape(base: seq<Line>, text: seq<Line>, i: nat, j: nat)
    requires i <= |base| && j <= |text|
    ensures NoInsertBeforeDelete(Walk(base, text, i, j))
    decreases i + j
  {
    hide Lcs, NoInsertBeforeDelete;
    if Matches(base, text, i, j) {
      WalkShape(base, text, i - 1, j - 1);
      ShapeOfOneMore(Walk(base, text, i - 1, j - 1), Unchanged([base[i - 1]]));
    } else if PrefersInsert(base, text, i, j) {
      WalkShape(base, text, i, j - 1);
      ShapeOfOneMore(Walk(base, text, i, j - 1), Inserted([text[j - 1]]));
    } else if i > 0 {
      WalkShape(base, text, i - 1, j);
      DeleteAfterNoInsert(base, text, i, j);
      ShapeOfOneMore(Walk(base, text, i - 1, j), Deleted([base[i - 1]]));
    } else {
      NothingHasShape();
    }
  }

  lemma NothingHasShape()
    ensures NoInsertBeforeDelete([])
  {
  }

  lemma {:induction false} CoalescedShape(cs: seq<Change>)
    requires NoInsertBeforeDelete(cs)
    ensures WellShaped(Coalesced(cs))
    ensures cs != [] ==> Coalesced(cs) != [] && SameKind(Coalesced(cs)[|Coalesced(cs)| - 1], cs[|cs| - 1])
    decreases |cs|
  {
    if cs != [] {
      var front, last := cs[..|cs| - 1], cs[|cs| - 1];
      assert forall i :: 0 <= i < |front| ==> front[i] == cs[i];
      CoalescedShape(front);
      if |cs| > 1 {
        assert front[|front| - 1] == cs[|cs| - 2] && !InsertsBeforeDelete(cs[|cs| - 2], cs[|cs| - 1]);
      }
      JoinedShape(Coalesced(front), last);
      hide Joined, WellShaped;
    }
  }

  lemma JoinedShape(cs: seq<Change>, c: Change)
    requires WellShaped(cs) && (cs != [] ==> !InsertsBeforeDelete(cs[|cs| - 1], c))
    ensures WellShaped(Joined(cs, c))
    ensures Joined(cs, c) != [] && SameKind(Joined(cs, c)[|Joined(cs, c)| - 1], c)
  {
    var joined := Joined(cs, c);
    forall i | 0 <= i < |joined| - 1
      ensures MayFollow(joined[i], joined[i + 1])
    {
      assert i + 1 < |cs| ==> MayFollow(cs[i], cs[i + 1]);
    }
  }

  /** No empty changes. */
  predicate NoEmpty(cs: seq<Change>) {
    forall i :: 0 <= i < |cs| ==> cs[i].lines != []
  }

  lemma {:induction false} WalkNoEmpty(base: seq<Line>, text: seq<Line>, i: nat, j: nat)
    requires i <= |base| && j <= |text|
    ensures NoEmpty(Walk(base, text, i, j))
    decreases i + j
  {
    hide Lcs;
    if Matches(base, text, i, j) {
      WalkNoEmpty(base, text, i - 1, j - 1);
    } else if PrefersInsert(base, text, i, j) {
      WalkNoEmpty(base, text, i, j - 1);
    } else if i > 0 {
      WalkNoEmpty(base, text, i - 1, j);
    }
  }

  lemma {:induction false} CoalescedNoEmpty(cs: seq<Change>)
    requires NoEmpty(cs)
    ensures NoEmpty(Coalesced(cs))
    decreases |cs|
  {
    if cs != [] {
      CoalescedNoEmpty(cs[..|cs| - 1]);
    }
  }

  /** The diff as the exact method returns it. */
  function ExactDiff(base: seq<Line>, text: seq<Line>): seq<Change> {
    Coalesced(Walk(base, text, |base|, |text|))
  }

  method DiffLinesDp(base: seq<Line>, text: seq<Line>) returns (changes: seq<Change>)
    ensures changes == ExactDiff(base, text)
  {
    changes := WalkBack(base, text);
    changes := CoalesceChanges(changes);
  }

  /**
    * The exact diff relates its two texts, and no change list that relates them keeps more lines; its
    * insertions follow the deletions they replace.
    */
  lemma ExactDiffIsBest(base: seq<Line>, text: seq<Line>, other: seq<Change>)
    ensures var cs := ExactDiff(base, text);
      && OldText(cs) == base && NewText(cs) == text
      && WellShaped(cs) && NoEmpty(cs)
      && (OldText(other) == base && NewText(other) == text ==> Kept(other) <= Kept(cs))
  {
    var w := Walk(base, text, |base|, |text|);
    WalkRelates(base, text, |base|, |text|);
    WalkShape(base, text, |base|, |text|);
    WalkNoEmpty(base, text, |base|, |text|);
    CoalescingKeepsTexts(w);
    CoalescedShape(w);
    CoalescedNoEmpty(w);
    hide OldText, NewText, Kept, Walk, Coalesced, Lcs;
    assert base[..|base|] == base && text[..|text|] == text;
    if OldText(other) == base && NewText(other) == text {
      KeptAtMost(other, base, text, |base|, |text|);
    }
  }
}
