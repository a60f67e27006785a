/** When the line merge is clean, when it carries out every edit of both sides, and when it is symmetric. */
module LineMergeLaws {
  import opened Wrappers
  import opened LineChanges
  import opened LcsDiff
  import opened LinearDiff
  import opened ChangeMaps
  import opened LineMerge

  // ---- when the merge is clean ----

  /** How far the loop moves from line `i` when it meets these actions. */
  function Step(a: Option<Action>, b: Option<Action>): (n: nat)
    ensures n > 0
  {
    var t := TurnAt(Labels("", ""), a, b);
    if t.advance == 0 then 1 else t.advance
  }

  /** The loop, started at line `i`, looks for actions at `k`. */
  predicate Meets(base: seq<Line>, a: ActionMap, b: ActionMap, i: nat, k: nat)
    decreases |base| - i
  {
    if i >= |base| then k == |base|
    else k == i || Meets(base, a, b, i + Step(At(a, i), At(b, i)), k)
  }

  /** Both sides act at `k` and write different lines. */
  predicate Disagree(a: ActionMap, b: ActionMap, k: nat) {
    k in a && k in b && Out(a[k]) != Out(b[k])
  }

  lemma TurnConflicts(labels: Labels, a: ActionMap, b: ActionMap, k: nat)
    ensures TurnAt(labels, At(a, k), At(b, k)).conflicts == if Disagree(a, b, k) then 1 else 0
    ensures TurnAt(labels, At(a, k), At(b, k)).advance == TurnAt(Labels("", ""), At(a, k), At(b, k)).advance
  {
  }

  /** The merge is clean exactly when the sides agree wherever the loop meets an action of both. */
  lemma {:induction false} CleanIff(labels: Labels, base: seq<Line>, a: ActionMap, b: ActionMap, i: nat)
    ensures MergeFrom(labels, base, a, b, i).IsClean() <==>
            forall k: nat :: Meets(base, a, b, i, k) ==> !Disagree(a, b, k)
    decreases |base| - i
  {
    hide TurnAt, Disagree;
    if i >= |base| {
      TurnConflicts(labels, a, b, |base|);
    } else {
      TurnConflicts(labels, a, b, i);
      var next := i + Step(At(a, i), At(b, i));
      CleanIff(labels, base, a, b, next);
      var m := MergeFrom(labels, base, a, b, i);
      assert m.conflicts == (if Disagree(a, b, i) then 1 else 0) + MergeFrom(labels, base, a, b, next).conflicts;
      assert Meets(base, a, b, i, i);
      assert forall k: nat :: Meets(base, a, b, i, k) <==> k == i || Meets(base, a, b, next, k);
    }
  }

  // ---- when every edit is carried out ----

  /** The replay of a map, started at line `i`, looks for an action at `k`. */
  predicate Reaches(base: seq<Line>, m: ActionMap, i: nat, k: nat)
    decreases |base| - i
  {
    if i >= |base| then k == |base|
    else k == i || Reaches(base, m, i + Step(At(m, i), None), k)
  }

  /** Every action lies in the base and deletes something if it is a deletion. */
  predicate InRange(m: ActionMap, n: nat) {
    forall k :: k in m ==> k + Advance(m[k]) <= n && (m[k].Replace? ==> m[k].deleted > 0)
  }

  lemma {:induction false} ReachedIsAhead(base: seq<Line>, m: ActionMap, i: nat, k: nat)
    requires Reaches(base, m, i, k) && i <= |base|
    ensures i <= k
    decreases |base| - i
  {
    if i < |base| && k != i {
      var next := i + Step(At(m, i), None);
      if next <= |base| {
        ReachedIsAhead(base, m, next, k);
      }
    }
  }

  lemma {:induction false} OrderIsReached(base: seq<Line>, m: ActionMap, i: nat, k: nat)
    requires InOrder(m, |base|) && i <= k && k in m && i <= |base|
    requires forall l :: l in m && l < i ==> l + Advance(m[l]) <= i
    ensures Reaches(base, m, i, k)
    decreases |base| - i
  {
    if i < |base| && k != i {
      var next := i + Step(At(m, i), None);
      assert i in m ==> i + Advance(m[i]) <= k;
      assert next <= k;
      OrderIsReached(base, m, next, k);
    }
  }

  /** A position inside the lines an action deletes is not reached together with that action. */
  lemma {:induction false} OverlapIsMissed(base: seq<Line>, m: ActionMap, i: nat, k: nat, l: nat)
    requires InRange(m, |base|) && k in m && k < l < k + Advance(m[k]) && i <= k
    ensures !(Reaches(base, m, i, k) && Reaches(base, m, i, l))
    decreases |base| - i
  {
    if Reaches(base, m, i, k) && Reaches(base, m, i, l) {
      var next := i + Step(At(m, i), None);
      if k == i {
        assert next == k + Advance(m[k]);
        ReachedIsAhead(base, m, next, l);
      } else if next <= k {
        OverlapIsMissed(base, m, next, k, l);
      } else {
        if next <= |base| {
          ReachedIsAhead(base, m, next, k);
        }
      }
    }
  }

  /** A replay carries out every edit exactly when none begins inside the lines another deletes. */
  lemma EveryEditIff(base: seq<Line>, m: ActionMap)
    requires InRange(m, |base|)
    ensures (forall k :: k in m ==> Reaches(base, m, 0, k)) <==> InOrder(m, |base|)
  {
    if InOrder(m, |base|) {
      forall k | k in m
        ensures Reaches(base, m, 0, k)
      {
        OrderIsReached(base, m, 0, k);
      }
    }
    if forall k :: k in m ==> Reaches(base, m, 0, k) {
      forall k, l | k in m && l in m && k < l
        ensures k + Advance(m[k]) <= l
      {
        if l < k + Advance(m[k]) {
          OverlapIsMissed(base, m, 0, k, l);
        }
      }
    }
  }

  // ---- the merge as a replay of both sides ----

  /** Where both sides act they write the same lines. */
  predicate Agree(a: ActionMap, b: ActionMap) {
    forall k :: k in a && k in b ==> Out(a[k]) == Out(b[k])
  }

  lemma ReplayTurn(base: seq<Line>, m: ActionMap, i: nat, lines: seq<Line>, advance: nat)
    requires i < |base|
    requires i in m ==> lines == Out(m[i]) && advance == Advance(m[i])
    requires i !in m ==> lines == [] && advance == 0
    ensures Replay(base, m, i) ==
            lines + if advance == 0 then [base[i]] + Replay(base, m, i + 1) else Replay(base, m, i + advance)
  {
  }

  /** From line `i` on the merge is clean and writes the replay of both maps, ours deciding what is deleted. */
  predicate IsReplay(labels: Labels, base: seq<Line>, a: ActionMap, b: ActionMap, i: nat) {
    MergeFrom(labels, base, a, b, i).IsClean() && MergeFrom(labels, base, a, b, i).lines == Replay(base, b + a, i)
  }

  lemma TrailingIsReplay(labels: Labels, base: seq<Line>, a: ActionMap, b: ActionMap, i: nat)
    requires Agree(a, b) && i >= |base|
    ensures IsReplay(labels, base, a, b, i)
  {
    TogetherAt(labels, a, b, |base|);
    hide TurnAt, Agree;
  }

  lemma TurnIsReplay(labels: Labels, base: seq<Line>, a: ActionMap, b: ActionMap, i: nat)
    requires Agree(a, b) && i < |base|
    requires IsReplay(labels, base, a, b, i + Step(At(a, i), At(b, i)))
    ensures IsReplay(labels, base, a, b, i)
  {
    TogetherAt(labels, a, b, i);
    TurnConflicts(labels, a, b, i);
    hide TurnAt, Agree, Replay;
    var t := TurnAt(labels, At(a, i), At(b, i));
    ReplayTurn(base, b + a, i, t.lines, t.advance);
  }

  /** If the sides never disagree, the merge is clean and replays both maps together. */
  lemma {:induction false} MergeIsReplay(labels: Labels, base: seq<Line>, a: ActionMap, b: ActionMap, i: nat)
    requires Agree(a, b)
    ensures IsReplay(labels, base, a, b, i)
    decreases |base| - i
  {
    hide *;
    if i >= |base| {
      TrailingIsReplay(labels, base, a, b, i);
    } else {
      MergeIsReplay(labels, base, a, b, i + Step(At(a, i), At(b, i)));
      TurnIsReplay(labels, base, a, b, i);
    }
  }

  lemma TogetherAt(labels: Labels, a: ActionMap, b: ActionMap, k: nat)
    requires Agree(a, b)
    ensures var t, m := TurnAt(labels, At(a, k), At(b, k)), b + a;
      && t.conflicts == 0
      && (k in m ==> t.lines == Out(m[k]) && t.advance == Advance(m[k]))
      && (k !in m ==> t.lines == [] && t.advance == 0)
  {
    hide Block;
  }

  // ---- when every edit of both sides is carried out ----

  /** The edits of both sides fit together: equal where both act, and none begins inside lines another deletes. */
  predicate Compatible(a: ActionMap, b: ActionMap) {
    && (forall k :: k in a && k in b ==> a[k] == b[k])
    && (forall k, l :: k in a && l in b && k < l ==> k + Advance(a[k]) <= l)
    && (forall k, l :: k in b && l in a && k < l ==> k + Advance(b[k]) <= l)
  }

  lemma CompatibleTogether(a: ActionMap, b: ActionMap, n: nat)
    requires InOrder(a, n) && InOrder(b, n)
    ensures Compatible(a, b) ==> b + a == a + b && InOrder(a + b, n) && Agree(a, b) && Agree(b, a)
    ensures InRange(a + b, n)
  {
    var m := a + b;
    assert forall k :: k in m <==> k in a || k in b;
    if Compatible(a, b) {
      forall k, l | k in m && l in m && k < l
        ensures k + Advance(m[k]) <= l
      {
      }
    }
  }

  /** The loop meets every edit of both sides, and where it meets two of them carrying out one is carrying out both. */
  ghost predicate CarriesOutAll(base: seq<Line>, a: ActionMap, b: ActionMap) {
    && (forall k :: k in a || k in b ==> Meets(base, a, b, 0, k))
    && (forall k :: k in a && k in b ==> a[k] == b[k])
  }

  lemma SameStep(a: ActionMap, b: ActionMap, i: nat)
    requires forall k :: k in a && k in b ==> a[k] == b[k]
    ensures Step(At(a, i), At(b, i)) == Step(At(a + b, i), None)
  {
  }

  lemma {:induction false} MeetsIsReaches(base: seq<Line>, a: ActionMap, b: ActionMap, i: nat, k: nat)
    requires forall k :: k in a && k in b ==> a[k] == b[k]
    ensures Meets(base, a, b, i, k) <==> Reaches(base, a + b, i, k)
    decreases |base| - i
  {
    hide Step;
    if i < |base| && k != i {
      SameStep(a, b, i);
      MeetsIsReaches(base, a, b, i + Step(At(a, i), At(b, i)), k);
    }
  }

  /** The loop carries out every edit of both sides exactly when their edits fit together. */
  lemma CarriesOutAllIff(base: seq<Line>, a: ActionMap, b: ActionMap)
    requires InOrder(a, |base|) && InOrder(b, |base|)
    ensures CarriesOutAll(base, a, b) <==> Compatible(a, b)
  {
    hide Meets, Reaches;
    CompatibleTogether(a, b, |base|);
    EveryEditIff(base, a + b);
    if forall k :: k in a && k in b ==> a[k] == b[k] {
      forall k: nat
        ensures Meets(base, a, b, 0, k) <==> Reaches(base, a + b, 0, k)
      {
        MeetsIsReaches(base, a, b, 0, k);
      }
      assert forall k :: k in a + b <==> k in a || k in b;
      InOrderTogether(a, b, |base|);
    }
  }

  lemma InOrderTogether(a: ActionMap, b: ActionMap, n: nat)
    requires (forall k :: k in a && k in b ==> a[k] == b[k])
    ensures InOrder(a + b, n) ==> Compatible(a, b)
  {
    var m := a + b;
    assert forall k :: k in a ==> k in m && m[k] == a[k];
    assert forall k :: k in b ==> k in m && m[k] == b[k];
  }

  // ---- symmetry ----

  /** Both sides write the same lines at `k` but delete different numbers of lines there. */
  predicate Skewed(a: ActionMap, b: ActionMap, k: nat) {
    k in a && k in b && Out(a[k]) == Out(b[k]) && Advance(a[k]) != Advance(b[k])
  }

  ghost predicate NeverSkewed(base: seq<Line>, a: ActionMap, b: ActionMap, i: nat) {
    forall k: nat :: Meets(base, a, b, i, k) ==> !Skewed(a, b, k)
  }

  lemma SwappedTurn(labels: Labels, a: ActionMap, b: ActionMap, k: nat)
    requires !Skewed(a, b, k)
    ensures var t, u := TurnAt(labels, At(a, k), At(b, k)), TurnAt(labels, At(b, k), At(a, k));
      && t.advance == u.advance && t.autoMerged == u.autoMerged && t.conflicts == u.conflicts
      && (t.conflicts == 0 ==> t == u)
    ensures Step(At(a, k), At(b, k)) == Step(At(b, k), At(a, k))
  {
    hide Block;
  }

  lemma LaterNeverSkewed(base: seq<Line>, a: ActionMap, b: ActionMap, i: nat)
    requires NeverSkewed(base, a, b, i)
    ensures i >= |base| ==> !Skewed(a, b, |base|)
    ensures i < |base| ==> !Skewed(a, b, i) && NeverSkewed(base, a, b, i + Step(At(a, i), At(b, i)))
  {
    hide Skewed, Step;
    if i < |base| {
      assert Meets(base, a, b, i, i);
    } else {
      assert Meets(base, a, b, i, |base|);
    }
  }

  /** The outputs agree on the counts, and on everything if they are clean. */
  predicate SameMerge(m: MergeOutput, w: MergeOutput) {
    m.conflicts == w.conflicts && m.autoMerged == w.autoMerged && (m.IsClean() ==> m == w)
  }

  lemma SameTurnFirst(labels: Labels, base: seq<Line>, a: ActionMap, b: ActionMap, i: nat)
    requires i < |base| && !Skewed(a, b, i)
    requires var next := i + Step(At(a, i), At(b, i));
      SameMerge(MergeFrom(labels, base, a, b, next), MergeFrom(labels, base, b, a, next))
    ensures SameMerge(MergeFrom(labels, base, a, b, i), MergeFrom(labels, base, b, a, i))
  {
    SwappedTurn(labels, a, b, i);
    TurnConflicts(labels, a, b, i);
    hide TurnAt;
  }

  /** Swapping the sides changes nothing, overlaps or not, unless the loop meets edits that delete different lines. */
  lemma {:induction false} MergeIsSymmetric(labels: Labels, base: seq<Line>, a: ActionMap, b: ActionMap, i: nat)
    requires NeverSkewed(base, a, b, i)
    ensures SameMerge(MergeFrom(labels, base, a, b, i), MergeFrom(labels, base, b, a, i))
    decreases |base| - i
  {
    hide NeverSkewed, Skewed, TurnAt;
    LaterNeverSkewed(base, a, b, i);
    if i >= |base| {
      SwappedTurn(labels, a, b, |base|);
    } else {
      hide SameMerge, MergeFrom, Step;
      MergeIsSymmetric(labels, base, a, b, i + Step(At(a, i), At(b, i)));
      SameTurnFirst(labels, base, a, b, i);
    }
  }

  /** At every line it meets, the loop moves on by as many lines when the sides are swapped. */
  ghost predicate MovesAlike(base: seq<Line>, a: ActionMap, b: ActionMap) {
    forall k: nat ::
      && (Meets(base, a, b, 0, k) <==> Meets(base, b, a, 0, k))
      && (Meets(base, a, b, 0, k) ==> AdvanceAt(a, b, k) == AdvanceAt(b, a, k))
  }

  function AdvanceAt(a: ActionMap, b: ActionMap, k: nat): nat {
    TurnAt(Labels("", ""), At(a, k), At(b, k)).advance
  }

  lemma {:induction false} MeetsSwapped(base: seq<Line>, a: ActionMap, b: ActionMap, i: nat, k: nat)
    requires NeverSkewed(base, a, b, i)
    ensures Meets(base, a, b, i, k) <==> Meets(base, b, a, i, k)
    decreases |base| - i
  {
    hide NeverSkewed, Skewed, Step;
    if i < |base| {
      LaterNeverSkewed(base, a, b, i);
      SwappedTurn(Labels("", ""), a, b, i);
      MeetsSwapped(base, a, b, i + Step(At(a, i), At(b, i)), k);
    }
  }

  lemma AdvanceSkewedIff(a: ActionMap, b: ActionMap, k: nat)
    ensures AdvanceAt(a, b, k) == AdvanceAt(b, a, k) <==> !Skewed(a, b, k)
  {
    hide Block;
  }

  /** The loop goes through the base the same way for swapped sides exactly when it meets no skewed edits. */
  lemma MovesAlikeIff(base: seq<Line>, a: ActionMap, b: ActionMap)
    ensures MovesAlike(base, a, b) <==> NeverSkewed(base, a, b, 0)
  {
    hide Meets, Skewed, AdvanceAt;
    forall k: nat
      ensures AdvanceAt(a, b, k) == AdvanceAt(b, a, k) <==> !Skewed(a, b, k)
    {
      AdvanceSkewedIff(a, b, k);
    }
    if NeverSkewed(base, a, b, 0) {
      forall k: nat
        ensures Meets(base, a, b, 0, k) <==> Meets(base, b, a, 0, k)
      {
        MeetsSwapped(base, a, b, 0, k);
      }
    }
  }

  // ---- diffing a text with itself ----

  predicate AllUnchanged(cs: seq<Change>) {
    forall i :: 0 <= i < |cs| ==> cs[i].Unchanged?
  }

  lemma {:induction false} NoEdits(cs: seq<Change>, at: nat)
    requires AllUnchanged(cs)
    ensures EditsOf(cs, at) == map[]
    decreases |cs|
  {
    if cs != [] {
      NoEdits(cs[1..], at + |cs[0].lines|);
    }
  }

  lemma {:induction false} SelfWalk(base: seq<Line>, i: nat)
    requires i <= |base|
    ensures AllUnchanged(Walk(base, base, i, i))
  {
    if i > 0 {
      SelfWalk(base, i - 1);
    }
  }

  lemma {:induction false} CoalescedUnchanged(cs: seq<Change>)
    requires AllUnchanged(cs)
    ensures AllUnchanged(Coalesced(cs))
    decreases |cs|
  {
    if cs != [] {
      CoalescedUnchanged(cs[..|cs| - 1]);
    }
  }

  lemma {:induction false} PositionsAll(text: seq<Line>, n: nat, p: nat)
    requires p < n <= |text|
    ensures p in Positions(text, text[p], n)
    decreases n
  {
    if p < n - 1 {
      PositionsAll(text, n - 1, p);
    }
  }

  predicate Increasing(ps: seq<nat>, bound: nat) {
    (forall k :: 0 <= k < |ps| ==> ps[k] < bound) && (forall j, k :: 0 <= j < k < |ps| ==> ps[j] < ps[k])
  }

  lemma {:induction false} PositionsIncrease(text: seq<Line>, line: Line, n: nat)
    requires n <= |text|
    ensures Increasing(Positions(text, line, n), n)
  {
    if n > 0 {
      PositionsIncrease(text, line, n - 1);
      var ps := Positions(text, line, n - 1);
      assert Positions(text, line, n) == if text[n - 1] == line then ps + [n - 1] else ps;
    }
  }

  lemma {:induction false} FirstFreeIs(ps: seq<nat>, used: set<nat>, p: nat)
    requires p in ps && p !in used
    requires forall k :: 0 <= k < |ps| && ps[k] < p ==> ps[k] in used
    requires forall j, k :: 0 <= j < k < |ps| ==> ps[j] < ps[k]
    ensures FirstFree(ps, used) == Some(p)
  {
    if ps[0] == p {
    } else {
      assert ps[0] in used by {
        var j :| 0 <= j < |ps| && ps[j] == p;
        assert ps[0] < ps[j];
      }
      assert p in ps[1..] by {
        var j :| 0 <= j < |ps| && ps[j] == p;
        assert ps[1..][j - 1] == p;
      }
      FirstFreeIs(ps[1..], used, p);
    }
  }

  function Diagonal(n: nat): (r: seq<Pair>)
    ensures |r| == n
  {
    seq(n, i requires 0 <= i < n => Pair(i, i))
  }

  /** Against itself, each line is matched with itself. */
  lemma NextIsItself(base: seq<Line>, n: nat)
    requires 0 < n <= |base|
    ensures FirstFree(Positions(base, base[n - 1], |base|), Used(Diagonal(n - 1))) == Some(n - 1)
  {
    hide FirstFree, Used, Diagonal;
    var ps := Positions(base, base[n - 1], |base|);
    PositionsAll(base, |base|, n - 1);
    PositionsIncrease(base, base[n - 1], |base|);
    hide Positions;
    DiagonalUses(n - 1);
    FirstFreeIs(ps, Used(Diagonal(n - 1)), n - 1);
  }

  lemma OneMoreOnDiagonal(base: seq<Line>, n: nat)
    requires 0 < n <= |base| && Matched(base, base, n - 1) == Diagonal(n - 1)
    requires FirstFree(Positions(base, base[n - 1], |base|), Used(Diagonal(n - 1))) == Some(n - 1)
    ensures Matched(base, base, n) == Diagonal(n)
  {
    hide Positions, FirstFree, Used;
    assert Matched(base, base, n) == Diagonal(n - 1) + [Pair(n - 1, n - 1)];
    hide Matched;
    assert Diagonal(n) == Diagonal(n - 1) + [Pair(n - 1, n - 1)];
  }

  lemma {:induction false} SelfMatched(base: seq<Line>, n: nat)
    requires n <= |base|
    ensures Matched(base, base, n) == Diagonal(n)
  {
    if n == 0 {
      assert Matched(base, base, 0) == [];
    } else {
      hide *;
      SelfMatched(base, n - 1);
      NextIsItself(base, n);
      OneMoreOnDiagonal(base, n);
    }
  }

  lemma DiagonalUses(n: nat)
    ensures forall p: nat :: p in Used(Diagonal(n)) <==> p < n
  {
    forall p: nat | p < n
      ensures p in Used(Diagonal(n))
    {
      assert Diagonal(n)[p] in Diagonal(n);
    }
  }

  lemma {:induction false} SelfWritten(base: seq<Line>, n: nat)
    requires n <= |base| && GoodPairs(base, base, Diagonal(n), |base|)
    ensures var w := WritePairs(base, base, Diagonal(n));
      AllUnchanged(w.changes) && w.bi == n && w.mi == n
  {
    if n > 0 {
      GoodPrefix(base, base, Diagonal(n), n - 1);
      assert Diagonal(n)[..n - 1] == Diagonal(n - 1);
      SelfWritten(base, n - 1);
      var w := WritePairs(base, base, Diagonal(n - 1));
      assert AfterGap(base, base, w, n - 1, n - 1) == w.changes;
    }
  }

  lemma SelfGreedy(base: seq<Line>)
    ensures AllUnchanged(GreedyChanges(base, base))
  {
    var n := |base|;
    MatchedAreGood(base, base, n);
    SelfMatched(base, n);
    SelfWritten(base, n);
    hide Matched, GoodPairs, WritePairs;
    var w := WritePairs(base, base, Diagonal(n));
    assert AfterGap(base, base, w, n, n) == w.changes;
  }

  /** A text has no edits against itself. */
  lemma SelfMap(base: seq<Line>)
    ensures ChangeMap(DiffOf(base, base)) == map[]
  {
    var cs := DiffOf(base, base);
    DiffShape(base, base);
    hide WellShaped, NoEmpty, ChangeMap, EditsOf, Walk, Coalesced, GreedyChanges;
    MapHoldsEdits(cs);
    SelfWalk(base, |base|);
    SelfGreedy(base);
    CoalescedUnchanged(Walk(base, base, |base|, |base|));
    CoalescedUnchanged(GreedyChanges(base, base));
    NoEdits(cs, 0);
  }

  // ---- the laws on texts ----

  function EditsTo(base: seq<Line>, text: seq<Line>): ActionMap {
    ChangeMap(DiffOf(base, text))
  }

  /** The diff of the two texts really leads from one to the other: large texts must match without a bad landing. */
  predicate Faithful(base: seq<Line>, text: seq<Line>) {
    !IsLarge(base, text) || Lands(base, text, Matched(base, text, |base|))
  }

  lemma EditsReplayText(base: seq<Line>, text: seq<Line>)
    ensures InOrder(EditsTo(base, text), |base|)
    ensures Replay(base, EditsTo(base, text), 0) == text <==> Faithful(base, text)
  {
    DiffInOrder(base, text);
    DiffRelatesIff(base, text);
    hide OldText, NewText, DiffOf, ChangeMap, Lands, Matched, Replay;
  }

  /**
    * When the edits of the sides fit together the merge is clean and carries out every edit of both; swapping the
    * sides changes nothing.
    */
  lemma CompatibleMerge(labels: Labels, base: seq<Line>, ours: seq<Line>, theirs: seq<Line>)
    requires Faithful(base, ours) && Faithful(base, theirs)
    requires Compatible(EditsTo(base, ours), EditsTo(base, theirs))
    ensures var both, m := EditsTo(base, ours) + EditsTo(base, theirs), Merged(labels, base, ours, theirs);
      && m.IsClean() && m.lines == Replay(base, both, 0)
      && (forall k :: k in both ==> Reaches(base, both, 0, k))
    ensures Merged(labels, base, theirs, ours).lines == Merged(labels, base, ours, theirs).lines
    ensures Merged(labels, base, theirs, ours).IsClean()
  {
    var a, b := EditsTo(base, ours), EditsTo(base, theirs);
    EditsReplayText(base, ours);
    EditsReplayText(base, theirs);
    SelfMap(base);
    hide MergeFrom, Replay, Reaches, InRange, InOrder, Compatible, Agree, ChangeMap, DiffOf;
    CompatibleTogether(a, b, |base|);
    EveryEditIff(base, a + b);
    MergeIsReplay(labels, base, a, b, 0);
    MergeIsReplay(labels, base, b, a, 0);
    assert ours == theirs ==> a + b == a;
    assert base == ours ==> a + b == b;
    assert base == theirs ==> a + b == a;
  }

  /** For all texts: the loop over their diffs carries out every edit exactly when the edits fit together. */
  lemma EditsCarriedOutIff(base: seq<Line>, ours: seq<Line>, theirs: seq<Line>)
    ensures CarriesOutAll(base, EditsTo(base, ours), EditsTo(base, theirs)) <==>
            Compatible(EditsTo(base, ours), EditsTo(base, theirs))
  {
    EditsReplayText(base, ours);
    EditsReplayText(base, theirs);
    hide EditsTo, CarriesOutAll, Compatible, InOrder;
    CarriesOutAllIff(base, EditsTo(base, ours), EditsTo(base, theirs));
  }

  /** For all texts: swapping the sides changes no count, and nothing of a clean merge, if no skewed edits are met. */
  lemma SidesSwap(labels: Labels, base: seq<Line>, ours: seq<Line>, theirs: seq<Line>)
    requires NeverSkewed(base, EditsTo(base, ours), EditsTo(base, theirs), 0)
    ensures SameMerge(Merged(labels, base, ours, theirs), Merged(labels, base, theirs, ours))
  {
    MergeIsSymmetric(labels, base, EditsTo(base, ours), EditsTo(base, theirs), 0);
    hide MergeFrom, ChangeMap, DiffOf;
  }

  // ---- what the merge does otherwise ----

  lemma Coalesce(cs: seq<Change>, c: Change)
    ensures Coalesced(cs + [c]) == Joined(Coalesced(cs), c)
  {
    assert (cs + [c])[..|cs|] == cs;
  }

  lemma OneChange(b: Builder, c: Change)
    ensures AddChanges(b, [c]) == AddChange(b, c)
  {
    assert [c][1..] == [];
  }

  /** The edits of a diff of at most four changes without neighbours of a kind. */
  lemma ShortMap(cs: seq<Change>)
    requires 2 <= |cs| <= 4 && forall i :: 0 <= i < |cs| - 1 ==> !SameKind(cs[i], cs[i + 1])
    ensures Coalesced(cs) == cs
    ensures var b := AddChange(AddChange(Builder(map[], 0, None), cs[0]), cs[1]);
      var d := if |cs| > 2 then AddChange(b, cs[2]) else b;
      ChangeMap(cs) == (if |cs| > 3 then AddChange(d, cs[3]) else d).actions
  {
    ShortCoalesced(cs);
    var start := Builder(map[], 0, None);
    TwoChanges(start, cs);
    hide AddChange;
    if |cs| == 3 {
      assert cs[2..] == [cs[2]];
      OneChange(AddChange(AddChange(start, cs[0]), cs[1]), cs[2]);
    } else if |cs| == 4 {
      TwoChanges(AddChange(AddChange(start, cs[0]), cs[1]), cs[2..]);
      assert cs[2..][2..] == [];
    } else {
      assert cs[2..] == [];
    }
  }

  lemma {:induction false} ShortCoalesced(cs: seq<Change>)
    requires forall i :: 0 <= i < |cs| - 1 ==> !SameKind(cs[i], cs[i + 1])
    ensures Coalesced(cs) == cs
    decreases |cs|
  {
    if cs != [] {
      var front := cs[..|cs| - 1];
      ShortCoalesced(front);
      if |cs| > 1 {
        assert front[|front| - 1] == cs[|cs| - 2] && !SameKind(cs[|cs| - 2], cs[|cs| - 1]);
      }
      assert cs == front + [cs[|cs| - 1]];
    }
  }

  lemma DropWalk(a: Line, b: Line, c: Line)
    ensures Walk([a, b, c], [c], 3, 1) == [Deleted([a]), Deleted([b])] + [Unchanged([c])]
  {
    var base, text := [a, b, c], [c];
    assert Walk(base, text, 0, 0) == [];
    assert Walk(base, text, 1, 0) == [Deleted([a])];
    assert Walk(base, text, 2, 0) == [Deleted([a]), Deleted([b])];
  }

  lemma OneDeletion(a: Line)
    ensures Coalesced([Deleted([a])]) == [Deleted([a])]
  {
    ShortCoalesced([Deleted([a])]);
  }

  lemma TwoDeletions(a: Line, b: Line)
    ensures Coalesced([Deleted([a]), Deleted([b])]) == [Deleted([a, b])]
  {
    hide Coalesced;
    OneDeletion(a);
    Coalesce([Deleted([a])], Deleted([b]));
    assert [Deleted([a])] + [Deleted([b])] == [Deleted([a]), Deleted([b])];
    assert [a] + [b] == [a, b];
  }

  lemma DropCoalesced(a: Line, b: Line, c: Line)
    ensures Coalesced([Deleted([a]), Deleted([b])] + [Unchanged([c])]) == [Deleted([a, b]), Unchanged([c])]
  {
    hide Coalesced;
    TwoDeletions(a, b);
    Coalesce([Deleted([a]), Deleted([b])], Unchanged([c]));
  }

  lemma DropEdits(a: Line, b: Line, c: Line)
    ensures EditsTo([a, b, c], [c]) == map[0 := Replace(2, [])]
  {
    hide Coalesced, AddChanges, Walk;
    DropWalk(a, b, c);
    DropCoalesced(a, b, c);
    ShortMap([Deleted([a, b]), Unchanged([c])]);
    assert map[0 := Replace(2, [])] == map[][0 := Replace(2, [])];
  }

  lemma KeepEdits(a: Line, b: Line, c: Line, x: Line)
    requires a != b && b != x
    ensures EditsTo([a, b, c], [a, x, c]) == map[1 := Replace(1, [x])]
  {
    var base, text := [a, b, c], [a, x, c];
    hide Coalesced, AddChanges;
    assert Lcs(base, text, 1, 1) == 1 && Lcs(base, text, 2, 1) == 1 && Lcs(base, text, 1, 2) == 1;
    assert Walk(base, text, 0, 0) == [];
    assert Walk(base, text, 1, 1) == [Unchanged([a])];
    assert Walk(base, text, 2, 1) == [Unchanged([a]), Deleted([b])];
    assert Walk(base, text, 2, 2) == [Unchanged([a]), Deleted([b]), Inserted([x])];
    var w := [Unchanged([a]), Deleted([b]), Inserted([x]), Unchanged([c])];
    assert Walk(base, text, 3, 3) == w;
    hide Walk, Lcs;
    ShortMap(w);
    ReplacementIsOneAction(AddChange(Builder(map[], 0, None), w[0]), [b], [x]);
  }

  /** An edit that begins inside lines the other side deletes is dropped, and no conflict is reported. */
  lemma OverlappedEditIsDropped(labels: Labels, a: Line, b: Line, c: Line, x: Line)
    requires a != b && b != x
    ensures Merged(labels, [a, b, c], [c], [a, x, c]) == MergeOutput([c], 0, 0)
  {
    var base, ours, theirs := [a, b, c], [c], [a, x, c];
    DropEdits(a, b, c);
    KeepEdits(a, b, c, x);
    hide ChangeMap, DiffOf, MergeFrom;
    assert base != theirs && base != ours && ours != theirs by {
      assert base[1] != theirs[1];
    }
    DroppedOnMaps(labels, base, Replace(1, [x]));
  }

  lemma DroppedOnMaps(labels: Labels, base: seq<Line>, edit: Action)
    requires |base| == 3
    ensures MergeFrom(labels, base, map[0 := Replace(2, [])], map[1 := edit], 0) == MergeOutput([base[2]], 0, 0)
  {
    hide Block;
    var m, w := map[0 := Replace(2, [])], map[1 := edit];
    assert MergeFrom(labels, base, m, w, 3) == MergeOutput([], 0, 0);
    assert MergeFrom(labels, base, m, w, 2) == MergeOutput([base[2]], 0, 0);
  }

  lemma InsertEdits(l: Line, p: Line)
    requires l != p
    ensures EditsTo([p], [l, p]) == map[0 := Insert([l])]
  {
    var base, text := [p], [l, p];
    hide Coalesced, AddChanges;
    assert Walk(base, text, 0, 0) == [];
    assert Walk(base, text, 0, 1) == [Inserted([l])];
    var w := [Inserted([l]), Unchanged([p])];
    assert Walk(base, text, 1, 2) == w;
    hide Walk, Lcs;
    ShortMap(w);
  }

  lemma ReplaceEdits(l: Line, p: Line)
    requires l != p
    ensures EditsTo([p], [l]) == map[0 := Replace(1, [l])]
  {
    var base, text := [p], [l];
    hide Coalesced, AddChanges;
    assert Walk(base, text, 0, 0) == [];
    assert Walk(base, text, 1, 0) == [Deleted([p])];
    var w := [Deleted([p]), Inserted([l])];
    assert Walk(base, text, 1, 1) == w;
    hide Walk, Lcs;
    ShortMap(w);
    ReplacementIsOneAction(Builder(map[], 0, None), [p], [l]);
  }

  /**
    * Inserting a line before another and replacing that other by it count as the same change: which of the two
    * results comes out depends on the order of the sides, and neither is a conflict.
    */
  lemma SidesAreNotSymmetric(labels: Labels, l: Line, p: Line)
    requires l != p
    ensures Merged(labels, [p], [l, p], [l]) == MergeOutput([l, p], 1, 0)
    ensures Merged(labels, [p], [l], [l, p]) == MergeOutput([l], 1, 0)
  {
    var base, a, b := [p], map[0 := Insert([l])], map[0 := Replace(1, [l])];
    InsertEdits(l, p);
    ReplaceEdits(l, p);
    hide ChangeMap, DiffOf, Block;
    assert [p] != [l] by {
      assert [p][0] != [l][0];
    }
    assert MergeFrom(labels, base, a, b, 1) == MergeOutput([], 0, 0) == MergeFrom(labels, base, b, a, 1);
    assert MergeFrom(labels, base, a, b, 0) == MergeOutput([l, p], 1, 0);
    assert MergeFrom(labels, base, b, a, 0) == MergeOutput([l], 1, 0);
  }
}
